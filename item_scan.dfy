/**
 * The loop shape the program's readers share: visit items in order (the
 * items of a JSON value, the lines of a file), push a value for some of
 * them, skip the others, and leave the loop early when a read in the body
 * throws (`get<int>()`, `get<std::string>()`, `std::stoi`). What each caller does with an interrupted
 * loop differs, so the scan reports whether it ran to the end.
 */
module ItemScan {
  /** What the loop body does with one item. */
  datatype Step<+T> = Skip | Emit(value: T) | Throw

  /** The values pushed when the loop ends, and false in `complete` when an exception ended it. */
  datatype Scanned<T> = Scanned(values: seq<T>, complete: bool)

  /** The loop over `items`, stated item by item from the last one: nothing runs after a Throw. */
  function Scan<A, T>(items: seq<A>, step: A -> Step<T>): Scanned<T>
    decreases |items|
  {
    if items == [] then Scanned([], true)
    else
      var prev := Scan(items[..|items| - 1], step);
      if !prev.complete then prev
      else match step(items[|items| - 1])
        case Skip => prev
        case Emit(v) => Scanned(prev.values + [v], true)
        case Throw => Scanned(prev.values, false)
  }

  /** Reference reading: the values of the items that emit one, in item order, read from the front. */
  function Emitted<A, T>(items: seq<A>, step: A -> Step<T>): seq<T>
    decreases |items|
  {
    if items == [] then []
    else (if step(items[0]).Emit? then [step(items[0]).value] else []) + Emitted(items[1..], step)
  }

  /** Every item, read by `step`, is skipped or emits. */
  predicate NoThrow<A, T>(items: seq<A>, step: A -> Step<T>) {
    forall i :: 0 <= i < |items| ==> !step(items[i]).Throw?
  }

  /** Emitting distributes over concatenation: the values of `a` come first, in order. */
  lemma {:induction false} EmittedAppend<A, T>(a: seq<A>, b: seq<A>, step: A -> Step<T>)
    ensures Emitted(a + b, step) == Emitted(a, step) + Emitted(b, step)
    decreases |a|
  {
    if a == [] {
      assert a + b == b;
    } else {
      var head := if step(a[0]).Emit? then [step(a[0]).value] else [];
      assert (a + b)[0] == a[0] && (a + b)[1..] == a[1..] + b;
      EmittedAppend(a[1..], b, step);
      assert Emitted(a + b, step) == head + Emitted(a[1..] + b, step);
      assert Emitted(a, step) == head + Emitted(a[1..], step);
    }
  }

  /** One more item that emits `v`: one more value at the end. */
  lemma EmittedAppendEmit<A, T>(items: seq<A>, x: A, step: A -> Step<T>, v: T)
    requires step(x) == Emit(v)
    ensures Emitted(items + [x], step) == Emitted(items, step) + [v]
  {
    EmittedAppend(items, [x], step);
    assert [x][1..] == [];
  }

  /** A bounded result: no item emits more than one value. */
  lemma {:induction false} EmittedLength<A, T>(items: seq<A>, step: A -> Step<T>)
    ensures |Emitted(items, step)| <= |items|
    decreases |items|
  {
    if items != [] {
      EmittedLength(items[1..], step);
    }
  }

  /** A loop that meets no exception runs to the end and pushes exactly the emitted values, in order. */
  lemma {:induction false} ScanWithoutThrow<A, T>(items: seq<A>, step: A -> Step<T>)
    requires NoThrow(items, step)
    ensures Scan(items, step) == Scanned(Emitted(items, step), true)
    decreases |items|
  {
    if items != [] {
      var init, last := items[..|items| - 1], items[|items| - 1];
      assert NoThrow(init, step) by {
        forall i | 0 <= i < |init| ensures !step(init[i]).Throw? {
          assert init[i] == items[i];
        }
      }
      ScanWithoutThrow(init, step);
      assert items == init + [last];
      EmittedAppend(init, [last], step);
      assert Emitted([last], step) == (if step(last).Emit? then [step(last).value] else []) + Emitted([last][1..], step);
      assert [last][1..] == [];
    }
  }

  /**
   * The first exception ends the loop: what was pushed is exactly what the
   * items before it emit, and nothing after it is read.
   */
  lemma {:induction false} ScanStopsAtFirstThrow<A, T>(items: seq<A>, step: A -> Step<T>, e: nat)
    requires e < |items| && step(items[e]).Throw?
    requires NoThrow(items[..e], step)
    ensures Scan(items, step) == Scanned(Emitted(items[..e], step), false)
    decreases |items|
  {
    var init := items[..|items| - 1];
    if e == |items| - 1 {
      assert init == items[..e];
      ScanWithoutThrow(init, step);
    } else {
      assert init[..e] == items[..e];
      ScanStopsAtFirstThrow(init, step, e);
    }
  }

  /** The loop runs to the end exactly when no item throws. */
  lemma {:induction false} ScanCompleteIff<A, T>(items: seq<A>, step: A -> Step<T>)
    ensures Scan(items, step).complete <==> NoThrow(items, step)
    decreases |items|
  {
    if items != [] {
      var init := items[..|items| - 1];
      ScanCompleteIff(init, step);
      if NoThrow(items, step) {
        assert NoThrow(init, step) by {
          forall i | 0 <= i < |init| ensures !step(init[i]).Throw? {
            assert init[i] == items[i];
          }
        }
      } else if NoThrow(init, step) && !step(items[|items| - 1]).Throw? {
        forall i | 0 <= i < |items| ensures !step(items[i]).Throw? {
          if i < |init| {
            assert init[i] == items[i];
          }
        }
        assert false;
      }
    }
  }

  /** Every value the loop pushes is the value some item emits. */
  lemma {:induction false} ScanValuesEmitted<A, T>(items: seq<A>, step: A -> Step<T>, k: nat)
    requires k < |Scan(items, step).values|
    ensures exists i :: 0 <= i < |items| && step(items[i]) == Emit(Scan(items, step).values[k])
    decreases |items|
  {
    var init := items[..|items| - 1];
    var prev := Scan(init, step);
    if k < |prev.values| {
      ScanValuesEmitted(init, step, k);
      var i :| 0 <= i < |init| && step(init[i]) == Emit(prev.values[k]);
      assert init[i] == items[i];
    } else {
      assert step(items[|items| - 1]) == Emit(Scan(items, step).values[k]);
    }
  }

  /** The loop itself: push, skip, or leave at the first exception. */
  method ScanItems<A, T>(items: seq<A>, step: A -> Step<T>) returns (values: seq<T>, complete: bool)
    ensures Scanned(values, complete) == Scan(items, step)
  {
    values, complete := [], true;
    var i := 0;
    while i < |items|
      invariant 0 <= i <= |items|
      invariant complete
      invariant Scanned(values, complete) == Scan(items[..i], step)
    {
      assert items[..i + 1][..i] == items[..i];
      var s := step(items[i]);
      if s.Throw? {
        complete := false;
        assert Scanned(values, complete) == Scan(items[..i + 1], step);
        ScanPrefixStopped(items, step, i + 1);
        return;
      } else if s.Emit? {
        values := values + [s.value];
      }
      i := i + 1;
    }
    assert items[..i] == items;
  }

  /** Once a prefix of the items has stopped the loop, so has every longer prefix. */
  lemma {:induction false} ScanPrefixStopped<A, T>(items: seq<A>, step: A -> Step<T>, k: nat)
    requires k <= |items| && !Scan(items[..k], step).complete
    ensures Scan(items, step) == Scan(items[..k], step)
    decreases |items| - k
  {
    if k < |items| {
      assert items[..k + 1][..k] == items[..k];
      ScanPrefixStopped(items, step, k + 1);
    } else {
      assert items[..k] == items;
    }
  }

  /** One more item: what the loop does after the items before `i`. */
  lemma ScanExtend<A, T>(items: seq<A>, step: A -> Step<T>, i: nat)
    requires i < |items|
    ensures var prev := Scan(items[..i], step);
      Scan(items[..i + 1], step) ==
        if !prev.complete then prev
        else match step(items[i])
          case Skip => prev
          case Emit(v) => Scanned(prev.values + [v], true)
          case Throw => Scanned(prev.values, false)
  {
    assert items[..i + 1][..i] == items[..i];
  }
}
