/**
 * Splitting text into the non-empty pieces between separator characters:
 * what a `std::getline` loop that drops empty lines reads from a file, and
 * what a `while (iss >> word)` loop reads from a line.
 */
module Tokens {

  /** `s` holds no separator. */
  predicate Free(s: string, sep: char -> bool) {
    forall i :: 0 <= i < |s| ==> !sep(s[i])
  }

  /** Every piece is non-empty and holds no separator. */
  predicate AllTokens(ts: seq<string>, sep: char -> bool) {
    forall k :: 0 <= k < |ts| ==> ts[k] != [] && Free(ts[k], sep)
  }

  /** The pieces of `text`, the first one continuing `current`. */
  function TokensFrom(text: string, sep: char -> bool, current: string): (ts: seq<string>)
    requires Free(current, sep)
    ensures AllTokens(ts, sep)
    decreases |text|
  {
    if text == [] then (if current == [] then [] else [current])
    else if sep(text[0]) then (if current == [] then [] else [current]) + TokensFrom(text[1..], sep, [])
    else TokensFrom(text[1..], sep, current + [text[0]])
  }

  /** The non-empty pieces of `text` between separators, in order. */
  function Split(text: string, sep: char -> bool): (ts: seq<string>)
    ensures AllTokens(ts, sep)
  {
    TokensFrom(text, sep, [])
  }

  /** A piece ended by a separator is finished; reading goes on with a fresh one. */
  lemma {:induction false} TokensFromPiece(current: string, piece: string, d: char, rest: string, sep: char -> bool)
    requires Free(current, sep) && Free(current + piece, sep) && current + piece != [] && sep(d)
    ensures TokensFrom(piece + [d] + rest, sep, current) == [current + piece] + TokensFrom(rest, sep, [])
    decreases |piece|
  {
    if piece == [] {
      assert piece + [d] + rest == [d] + rest;
      assert current + piece == current;
    } else {
      var text := piece + [d] + rest;
      assert text[0] == piece[0] && text[1..] == piece[1..] + [d] + rest;
      assert (current + piece)[|current|] == piece[0];
      assert current + piece == (current + [piece[0]]) + piece[1..];
      assert Free(current + [piece[0]], sep) by {
        assert forall i :: 0 <= i < |current| + 1 ==> (current + [piece[0]])[i] == (current + piece)[i];
      }
      TokensFromPiece(current + [piece[0]], piece[1..], d, rest, sep);
    }
  }

  /** A piece the text ends with is finished by the end of the text. */
  lemma {:induction false} TokensFromLast(current: string, piece: string, sep: char -> bool)
    requires Free(current, sep) && Free(current + piece, sep) && current + piece != []
    ensures TokensFrom(piece, sep, current) == [current + piece]
    decreases |piece|
  {
    if piece == [] {
      assert current + piece == current;
    } else {
      assert (current + piece)[|current|] == piece[0];
      assert current + piece == (current + [piece[0]]) + piece[1..];
      assert Free(current + [piece[0]], sep) by {
        assert forall i :: 0 <= i < |current| + 1 ==> (current + [piece[0]])[i] == (current + piece)[i];
      }
      TokensFromLast(current + [piece[0]], piece[1..], sep);
    }
  }

  /** Each piece followed by `d`: lines each ended by a newline. */
  function Terminated(ts: seq<string>, d: char): string
    decreases |ts|
  {
    if ts == [] then [] else ts[0] + [d] + Terminated(ts[1..], d)
  }

  /** The pieces with `d` between them: words joined by single spaces. */
  function Separated(ts: seq<string>, d: char): string
    decreases |ts|
  {
    if ts == [] then []
    else if |ts| == 1 then ts[0]
    else ts[0] + [d] + Separated(ts[1..], d)
  }

  lemma {:induction false} TerminatedAppend(ts: seq<string>, t: string, d: char)
    ensures Terminated(ts + [t], d) == Terminated(ts, d) + t + [d]
    decreases |ts|
  {
    if ts == [] {
      assert ts + [t] == [t];
    } else {
      assert (ts + [t])[1..] == ts[1..] + [t];
      TerminatedAppend(ts[1..], t, d);
    }
  }

  /** Splitting undoes terminating: pieces written each with a separator after it are read back. */
  lemma {:induction false} SplitTerminated(ts: seq<string>, d: char, sep: char -> bool)
    requires AllTokens(ts, sep) && sep(d)
    ensures Split(Terminated(ts, d), sep) == ts
    decreases |ts|
  {
    if ts != [] {
      assert [] + ts[0] == ts[0];
      TokensFromPiece([], ts[0], d, Terminated(ts[1..], d), sep);
      SplitTerminated(ts[1..], d, sep);
      assert ts == [ts[0]] + ts[1..];
    }
  }

  /** Splitting undoes joining: pieces written with single separators between them are read back. */
  lemma {:induction false} SplitSeparated(ts: seq<string>, d: char, sep: char -> bool)
    requires AllTokens(ts, sep) && sep(d)
    ensures Split(Separated(ts, d), sep) == ts
    decreases |ts|
  {
    if |ts| == 1 {
      assert [] + ts[0] == ts[0];
      TokensFromLast([], ts[0], sep);
    } else if |ts| > 1 {
      assert [] + ts[0] == ts[0];
      TokensFromPiece([], ts[0], d, Separated(ts[1..], d), sep);
      SplitSeparated(ts[1..], d, sep);
      assert ts == [ts[0]] + ts[1..];
    }
  }

  /** Reading from `current` on yields nothing exactly when `current` is empty and the text is all separators. */
  lemma {:induction false} TokensFromEmpty(text: string, sep: char -> bool, current: string)
    requires Free(current, sep)
    ensures TokensFrom(text, sep, current) == [] <==> current == [] && forall i :: 0 <= i < |text| ==> sep(text[i])
    decreases |text|
  {
    if text != [] {
      if sep(text[0]) {
        TokensFromEmpty(text[1..], sep, []);
        assert forall i :: 1 <= i < |text| ==> text[i] == text[1..][i - 1];
      } else {
        assert Free(current + [text[0]], sep) by {
          assert forall i :: 0 <= i < |current| ==> (current + [text[0]])[i] == current[i];
        }
        TokensFromEmpty(text[1..], sep, current + [text[0]]);
      }
    }
  }

  /** Nothing is read exactly when the text is all separators. */
  lemma SplitEmpty(text: string, sep: char -> bool)
    ensures Split(text, sep) == [] <==> forall i :: 0 <= i < |text| ==> sep(text[i])
  {
    TokensFromEmpty(text, sep, []);
  }

  /** The reading loop: character by character, closing a piece at each separator and at the end. */
  method SplitLoop(text: string, sep: char -> bool) returns (ts: seq<string>)
    ensures ts == Split(text, sep)
  {
    ts := [];
    var current := "";
    var i := 0;
    while i < |text|
      invariant 0 <= i <= |text| && Free(current, sep)
      invariant ts + TokensFrom(text[i..], sep, current) == Split(text, sep)
    {
      assert text[i..][0] == text[i] && text[i..][1..] == text[i + 1..];
      if sep(text[i]) {
        if current != [] {
          ts := ts + [current];
        }
        current := "";
      } else {
        assert Free(current + [text[i]], sep) by {
          assert forall j :: 0 <= j < |current| ==> (current + [text[i]])[j] == current[j];
        }
        current := current + [text[i]];
      }
      i := i + 1;
    }
    assert text[i..] == [];
    if current != [] {
      ts := ts + [current];
    }
  }
}
