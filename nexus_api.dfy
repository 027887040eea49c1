/**
 * The decisions the NexusMods client takes on each response: which mod IDs
 * a tracked-mods answer yields, which file IDs each mod gets, and which
 * (mod, file) pairs receive a download URL. Every remote answer is a
 * parameter: a function from the request's identifiers to the
 * (status, body) pair the server returned. The request URLs, headers and
 * the one-second pause after each request belong to the transport.
 */
module NexusApi {
  import opened Wrappers
  import opened Json
  import opened ItemScan
  import opened Ordering
  import opened Text

  // ---------------------------------------------------------------------
  // escape_spaces
  // ---------------------------------------------------------------------

  /** How one character of a URL is written out: a space as "%20", anything else as itself. */
  function EscapeChar(c: char): string {
    if c == ' ' then "%20" else [c]
  }

  /** The URL with its characters written out one by one, from the first. */
  function EscapedSpaces(s: string): string
    decreases |s|
  {
    if s == [] then [] else EscapedSpaces(s[..|s| - 1]) + EscapeChar(s[|s| - 1])
  }

  /** The loop of `escape_spaces`: append "%20" for a space and the character itself otherwise. */
  method EscapeSpaces(url: string) returns (result: string)
    ensures result == EscapedSpaces(url)
  {
    result := "";
    var i := 0;
    while i < |url|
      invariant 0 <= i <= |url|
      invariant result == EscapedSpaces(url[..i])
    {
      assert url[..i + 1][..i] == url[..i];
      if url[i] == ' ' {
        result := result + "%20";
      } else {
        result := result + [url[i]];
      }
      i := i + 1;
    }
    assert url[..i] == url;
  }

  /** Escaping works piecewise: the text of `a` is written out before the text of `b`. */
  lemma {:induction false} EscapedAppend(a: string, b: string)
    ensures EscapedSpaces(a + b) == EscapedSpaces(a) + EscapedSpaces(b)
    decreases |b|
  {
    if b != [] {
      var b' := b[..|b| - 1];
      assert (a + b)[..|a + b| - 1] == a + b';
      EscapedAppend(a, b');
    } else {
      assert a + b == a;
    }
  }

  /** The number of occurrences of `c` in `s`. */
  function Count(s: string, c: char): nat
    decreases |s|
  {
    if s == [] then 0 else Count(s[..|s| - 1], c) + (if s[|s| - 1] == c then 1 else 0)
  }

  /** The escaped URL has no space left, and is two characters longer per space. */
  lemma {:induction false} EscapedHasNoSpace(s: string)
    ensures forall i :: 0 <= i < |EscapedSpaces(s)| ==> EscapedSpaces(s)[i] != ' '
    ensures |EscapedSpaces(s)| == |s| + 2 * Count(s, ' ')
    decreases |s|
  {
    if s != [] {
      EscapedHasNoSpace(s[..|s| - 1]);
    }
  }

  /** A URL without spaces is returned unchanged. */
  lemma {:induction false} EscapedWithoutSpaces(s: string)
    requires forall i :: 0 <= i < |s| ==> s[i] != ' '
    ensures EscapedSpaces(s) == s
    decreases |s|
  {
    if s != [] {
      EscapedWithoutSpaces(s[..|s| - 1]);
      assert s == s[..|s| - 1] + [s[|s| - 1]];
    }
  }

  /** Reading "%20" back as a space, from the front. */
  function UnescapeSpaces(s: string): string
    decreases |s|
  {
    if s == [] then []
    else if |s| >= 3 && s[..3] == "%20" then " " + UnescapeSpaces(s[3..])
    else [s[0]] + UnescapeSpaces(s[1..])
  }

  /** For a URL with no '%' of its own, escaping loses nothing: decoding gives the URL back. */
  lemma {:induction false} UnescapeEscaped(s: string)
    requires forall i :: 0 <= i < |s| ==> s[i] != '%'
    ensures UnescapeSpaces(EscapedSpaces(s)) == s
    decreases |s|
  {
    if s != [] {
      var rest := s[1..];
      assert s == [s[0]] + rest;
      EscapedAppend([s[0]], rest);
      assert EscapedSpaces([s[0]]) == EscapeChar(s[0]) by {
        assert [s[0]][..0] == [];
      }
      var e := EscapedSpaces(s);
      assert e == EscapeChar(s[0]) + EscapedSpaces(rest);
      UnescapeEscaped(rest);
      if s[0] == ' ' {
        assert e[..3] == "%20" && e[3..] == EscapedSpaces(rest);
      } else {
        assert e[0] == s[0] && e[1..] == EscapedSpaces(rest);
      }
    }
  }

  // ---------------------------------------------------------------------
  // Reading integer fields out of JSON records
  // ---------------------------------------------------------------------

  /**
   * What `if (x.contains(key)) ids.push_back(x[key].get<int>())` does with
   * one item: skip it without the key, push the converted number or
   * boolean, throw on any other value.
   */
  function IntFieldStep(x: Json, key: string): (r: Step<int>)
    ensures r.Skip? <==> !Contains(x, key)
    ensures r.Emit? ==> IsInt32(r.value)
  {
    match Member(x, key)
    case None => Skip
    case Some(v) => match AsInt(v)
      case Some(n) => Emit(n)
      case None => Throw
  }

  /** The field's value decides the step: a number or boolean is pushed as its `int`, anything else throws. */
  lemma IntFieldStepOf(x: Json, key: string, v: Json)
    requires Member(x, key) == Some(v)
    ensures v.JBool? ==> IntFieldStep(x, key) == Emit(if v.b then 1 else 0)
    ensures v.JNum? && IsInt32(v.n) ==> IntFieldStep(x, key) == Emit(v.n)
    ensures v.JNum? ==> IntFieldStep(x, key).Emit? && (IntFieldStep(x, key).value - v.n) % 0x1_0000_0000 == 0
    ensures !(v.JBool? || v.JNum?) ==> IntFieldStep(x, key) == Throw
  {
  }

  /** Whatever the answer holds, the IDs a scan with an `int`-valued step reads from it are `int`s. */
  lemma ScannedIdsInt32(items: seq<Json>, step: Json -> Step<int>, k: nat)
    requires forall x :: step(x).Emit? ==> IsInt32(step(x).value)
    requires k < |Scan(items, step).values|
    ensures IsInt32(Scan(items, step).values[k])
  {
    ScanValuesEmitted(items, step, k);
  }

  function ModIdStep(x: Json): Step<int> {
    IntFieldStep(x, "mod_id")
  }

  function FileIdStep(x: Json): Step<int> {
    IntFieldStep(x, "file_id")
  }

  // ---------------------------------------------------------------------
  // get_tracked_mods
  // ---------------------------------------------------------------------

  /** The mod records a tracked-mods answer lists: the array itself, or the value under "mods". */
  function TrackedRecords(data: Json): Option<seq<Json>> {
    if data.JArr? then Some(data.elems)
    else if Contains(data, "mods") then Some(Items(Member(data, "mods").value))
    else None
  }

  /**
   * The mod IDs `get_tracked_mods` returns. The exception handler only
   * logs, so a `get<int>()` that throws midway leaves the IDs pushed before
   * it in the result.
   */
  function TrackedModIds(resp: HttpResponse): seq<int> {
    if resp.status != 200 || !resp.body.Parsed? then []
    else match TrackedRecords(resp.body.value)
      case None => []
      case Some(records) => Scan(records, ModIdStep).values
  }

  /** Every tracked mod ID is an `int`, whatever numbers the answer holds. */
  lemma TrackedModIdsInt32(resp: HttpResponse)
    ensures forall k :: 0 <= k < |TrackedModIds(resp)| ==> IsInt32(TrackedModIds(resp)[k])
  {
    if resp.status == 200 && resp.body.Parsed? && TrackedRecords(resp.body.value).Some? {
      var records := TrackedRecords(resp.body.value).value;
      forall k | 0 <= k < |TrackedModIds(resp)| ensures IsInt32(TrackedModIds(resp)[k]) {
        ScannedIdsInt32(records, ModIdStep, k);
      }
    }
  }

  method GetTrackedMods(resp: HttpResponse) returns (modIds: seq<int>)
    ensures modIds == TrackedModIds(resp)
    ensures forall k :: 0 <= k < |modIds| ==> IsInt32(modIds[k])
  {
    TrackedModIdsInt32(resp);
    modIds := [];
    if resp.status == 200 {
      match resp.body
      case Parsed(data) =>
        if data.JArr? {
          var complete;
          modIds, complete := ScanItems(data.elems, ModIdStep);
        } else if Contains(data, "mods") {
          var modsList := Member(data, "mods").value;
          var complete;
          modIds, complete := ScanItems(Items(modsList), ModIdStep);
        } else {
          return [];
        }
      case _ =>
    }
  }

  /**
   * The three shapes of a tracked-mods answer. A 200 answer whose records
   * all carry numeric, boolean or no "mod_id" fields yields the converted
   * mod_id of each record that has one, in order; one whose record `e` is
   * the first with a "mod_id" that is neither yields the IDs of the records
   * before `e`. A non-200 status, an unparseable body or any other shape
   * yields nothing.
   */
  lemma TrackedModIdsShapes(resp: HttpResponse)
    ensures resp.status != 200 || !resp.body.Parsed? ==> TrackedModIds(resp) == []
    ensures (resp.status == 200 && resp.body.Parsed? && resp.body.value.JArr? &&
             NoThrow(resp.body.value.elems, ModIdStep)) ==>
              TrackedModIds(resp) == Emitted(resp.body.value.elems, ModIdStep)
    ensures (resp.status == 200 && resp.body.Parsed? && !resp.body.value.JArr? &&
             Contains(resp.body.value, "mods") &&
             NoThrow(Items(Member(resp.body.value, "mods").value), ModIdStep)) ==>
              TrackedModIds(resp) == Emitted(Items(Member(resp.body.value, "mods").value), ModIdStep)
    ensures (resp.status == 200 && resp.body.Parsed? && !resp.body.value.JArr? &&
             !Contains(resp.body.value, "mods")) ==> TrackedModIds(resp) == []
  {
    if resp.status == 200 && resp.body.Parsed? {
      var records := TrackedRecords(resp.body.value);
      if records.Some? && NoThrow(records.value, ModIdStep) {
        ScanWithoutThrow(records.value, ModIdStep);
      }
    }
  }

  /** A record whose "mod_id" is neither a number nor a boolean ends the loop; the IDs pushed before it are kept. */
  lemma TrackedModIdsKeepPrefix(resp: HttpResponse, e: nat)
    requires resp.status == 200 && resp.body.Parsed? && TrackedRecords(resp.body.value).Some?
    requires e < |TrackedRecords(resp.body.value).value|
    requires ModIdStep(TrackedRecords(resp.body.value).value[e]).Throw?
    requires NoThrow(TrackedRecords(resp.body.value).value[..e], ModIdStep)
    ensures TrackedModIds(resp) == Emitted(TrackedRecords(resp.body.value).value[..e], ModIdStep)
  {
    ScanStopsAtFirstThrow(TrackedRecords(resp.body.value).value, ModIdStep, e);
  }

  // ---------------------------------------------------------------------
  // get_file_ids
  // ---------------------------------------------------------------------

  /**
   * The file IDs `get_file_ids` stores for one mod: those of the "files"
   * entries that have a "file_id", converted to `int`, in order. A non-200
   * status, a body that does not parse, a missing "files" key, or a
   * "file_id" that is neither a number nor a boolean (the handler then
   * stores an empty list) give none.
   */
  function FileIdsOf(resp: HttpResponse): seq<int> {
    if resp.status == 200 && resp.body.Parsed? && Contains(resp.body.value, "files") then
      var scanned := Scan(Items(Member(resp.body.value, "files").value), FileIdStep);
      if scanned.complete then scanned.values else []
    else []
  }

  /** Every stored file ID is an `int`, whatever numbers the answer holds. */
  lemma FileIdsOfInt32(resp: HttpResponse)
    ensures forall k :: 0 <= k < |FileIdsOf(resp)| ==> IsInt32(FileIdsOf(resp)[k])
  {
    if resp.status == 200 && resp.body.Parsed? && Contains(resp.body.value, "files") {
      var entries := Items(Member(resp.body.value, "files").value);
      forall k | 0 <= k < |FileIdsOf(resp)| ensures IsInt32(FileIdsOf(resp)[k]) {
        ScannedIdsInt32(entries, FileIdStep, k);
      }
    }
  }

  /** The loop of `get_file_ids`: one request per mod ID, one map entry per mod ID. */
  method GetFileIds(modIds: seq<int>, filesResponse: int -> HttpResponse) returns (modFileIds: map<int, seq<int>>)
    ensures modFileIds.Keys == set m | m in modIds
    ensures forall m :: m in modFileIds ==> modFileIds[m] == FileIdsOf(filesResponse(m))
    ensures forall m, k :: m in modFileIds && 0 <= k < |modFileIds[m]| ==> IsInt32(modFileIds[m][k])
  {
    forall m {
      FileIdsOfInt32(filesResponse(m));
    }
    modFileIds := map[];
    var i := 0;
    while i < |modIds|
      invariant 0 <= i <= |modIds|
      invariant modFileIds.Keys == set m | m in modIds[..i]
      invariant forall m :: m in modFileIds ==> modFileIds[m] == FileIdsOf(filesResponse(m))
    {
      var modId := modIds[i];
      var resp := filesResponse(modId);
      var fileIds: seq<int> := [];
      if resp.status == 200 {
        match resp.body
        case Parsed(data) =>
          if Contains(data, "files") {
            var fileList := Member(data, "files").value;
            var ids, complete := ScanItems(Items(fileList), FileIdStep);
            if complete {
              fileIds := ids;
            }
          }
        case _ =>
      }
      modFileIds := modFileIds[modId := fileIds];
      assert modIds[..i + 1] == modIds[..i] + [modId];
      i := i + 1;
    }
    assert modIds[..i] == modIds;
  }

  /**
   * A mod's file list is empty unless its answer is a 200 with a "files"
   * key and only numeric or boolean file IDs; then it holds the converted
   * file_id of every entry that has one, in order.
   */
  lemma FileIdsOfCases(resp: HttpResponse)
    ensures !(resp.status == 200 && resp.body.Parsed? && Contains(resp.body.value, "files")) ==> FileIdsOf(resp) == []
    ensures resp.status == 200 && resp.body.Parsed? && Contains(resp.body.value, "files") ==>
              var entries := Items(Member(resp.body.value, "files").value);
              FileIdsOf(resp) == if NoThrow(entries, FileIdStep) then Emitted(entries, FileIdStep) else []
  {
    if resp.status == 200 && resp.body.Parsed? && Contains(resp.body.value, "files") {
      var entries := Items(Member(resp.body.value, "files").value);
      ScanCompleteIff(entries, FileIdStep);
      if NoThrow(entries, FileIdStep) {
        ScanWithoutThrow(entries, FileIdStep);
      }
    }
  }

  // ---------------------------------------------------------------------
  // generate_download_links
  // ---------------------------------------------------------------------

  /**
   * The download URL one download-link answer yields: the "URI" string of
   * the first element of a non-empty array, when the status is 200. A
   * non-string "URI" throws inside the handler and yields nothing.
   */
  function LinkOf(resp: HttpResponse): Option<string> {
    if resp.status != 200 || !resp.body.Parsed? then None
    else
      var data := resp.body.value;
      if data.JArr? && |data.elems| > 0 then
        match Member(data.elems[0], "URI")
        case Some(uri) => AsString(uri)
        case None => None
      else None
  }

  /** The only answers that yield a URL, and the URL they yield. */
  lemma LinkOfExactly(resp: HttpResponse, url: string)
    ensures LinkOf(resp) == Some(url) <==>
              resp.status == 200 && resp.body.Parsed? && resp.body.value.JArr? &&
              |resp.body.value.elems| > 0 && Member(resp.body.value.elems[0], "URI") == Some(JStr(url))
  {
  }

  /**
   * The nested loop of `generate_download_links`: one request per (mod,
   * file) pair; a pair gets an entry exactly when its answer yields a URL.
   * Every key is therefore an (m, f) with f among m's file IDs. The source
   * visits the mods in ascending order; the result does not depend on it.
   */
  method GenerateDownloadLinks(modFileIds: map<int, seq<int>>, linkResponse: (int, int) -> HttpResponse)
    returns (links: map<(int, int), string>)
    ensures forall m, f :: (m, f) in links <==>
              m in modFileIds && f in modFileIds[m] && LinkOf(linkResponse(m, f)).Some?
    ensures forall m, f :: (m, f) in links ==> links[(m, f)] == LinkOf(linkResponse(m, f)).value
  {
    links := map[];
    var remaining := modFileIds.Keys;
    while remaining != {}
      invariant remaining <= modFileIds.Keys
      invariant forall m, f :: (m, f) in links <==>
                  m in modFileIds && m !in remaining && f in modFileIds[m] && LinkOf(linkResponse(m, f)).Some?
      invariant forall m, f :: (m, f) in links ==> links[(m, f)] == LinkOf(linkResponse(m, f)).value
      decreases remaining
    {
      var modId := PickKey(remaining);
      links := AddModLinks(links, modId, modFileIds[modId], linkResponse);
      remaining := remaining - {modId};
    }
  }

  /** The least of a non-empty set of keys: the next key an ascending `std::map` iteration visits. */
  method PickKey(keys: set<int>) returns (k: int)
    requires keys != {}
    ensures k in keys && forall x :: x in keys ==> k <= x
  {
    MinIntExists(keys);
    k :| k in keys && forall x :: x in keys ==> k <= x;
  }

  /** The inner loop: request a link for each of one mod's file IDs and store the ones that come back. */
  method AddModLinks(links: map<(int, int), string>, modId: int, fileIds: seq<int>, linkResponse: (int, int) -> HttpResponse)
    returns (result: map<(int, int), string>)
    ensures forall m, f :: (m, f) in result <==>
              (m, f) in links || (m == modId && f in fileIds && LinkOf(linkResponse(m, f)).Some?)
    ensures forall m, f :: (m, f) in result ==>
              result[(m, f)] == if m == modId && f in fileIds && LinkOf(linkResponse(m, f)).Some?
                                then LinkOf(linkResponse(m, f)).value else links[(m, f)]
  {
    result := links;
    var j := 0;
    while j < |fileIds|
      invariant 0 <= j <= |fileIds|
      invariant forall m, f :: (m, f) in result <==>
                  (m, f) in links || (m == modId && f in fileIds[..j] && LinkOf(linkResponse(m, f)).Some?)
      invariant forall m, f :: (m, f) in result ==>
                  result[(m, f)] == if m == modId && f in fileIds[..j] && LinkOf(linkResponse(m, f)).Some?
                                    then LinkOf(linkResponse(m, f)).value else links[(m, f)]
    {
      var fileId := fileIds[j];
      var link := LinkOf(linkResponse(modId, fileId));
      if link.Some? {
        result := result[(modId, fileId) := link.value];
      }
      assert fileIds[..j + 1] == fileIds[..j] + [fileId];
      j := j + 1;
    }
    assert fileIds[..j] == fileIds;
  }
}
