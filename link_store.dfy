/**
 * The download-links file: one line `modId,fileId,url` per entry of the
 * link map, written in the map's ascending key order, and read back line by
 * line with `std::getline` and `std::stoi`.
 */
module LinkStore {
  import opened Wrappers
  import opened Text
  import opened Ordering
  import opened ItemScan
  import opened Tokens
  import Loops

  /** The map from (mod ID, file ID) to download URL. */
  type Links = map<(int, int), string>

  /** One line of the file, without its terminating newline. */
  function LineText(modId: int, fileId: int, url: string): string {
    ShowInt(modId) + "," + ShowInt(fileId) + "," + url
  }

  /** The line written for one key of `links`. */
  function LineOf(links: Links): ((int, int), nat) -> string {
    (k: (int, int), _: nat) => if k in links then LineText(k.0, k.1, links[k]) else []
  }

  /** The lines written for `keys`, in that order. */
  function SavedLines(keys: seq<(int, int)>, links: Links): (lines: seq<string>)
    requires forall i :: 0 <= i < |keys| ==> keys[i] in links
    ensures |lines| == |keys|
  {
    Loops.Indexed(keys, LineOf(links))
  }

  /** The `i`-th line written is the line of the `i`-th key. */
  lemma SavedLineAt(keys: seq<(int, int)>, links: Links, i: nat)
    requires forall j :: 0 <= j < |keys| ==> keys[j] in links
    requires i < |keys|
    ensures SavedLines(keys, links)[i] == LineText(keys[i].0, keys[i].1, links[keys[i]])
  {
    Loops.IndexedAt(keys, LineOf(links), i);
  }

  /** One more key: one more line. */
  lemma SavedLinesAppend(keys: seq<(int, int)>, k: (int, int), links: Links)
    requires forall j :: 0 <= j < |keys| ==> keys[j] in links
    requires k in links
    ensures SavedLines(keys + [k], links) == SavedLines(keys, links) + [LineText(k.0, k.1, links[k])]
  {
    Loops.IndexedAppend(keys, k, LineOf(links));
  }

  /** The line separator of the file. */
  predicate IsNewline(c: char) {
    c == '\n'
  }

  /** What a successful save leaves in the file: every entry, in ascending key order. */
  ghost function SavedText(links: Links): string {
    Terminated(SavedLines(SortedPairs(links.Keys), links), '\n')
  }

  /** The loop state of an ascending walk over `keys`: `order` visited, in ascending order, before all of `remaining`. */
  ghost predicate VisitedInOrder(order: seq<(int, int)>, remaining: set<(int, int)>, keys: set<(int, int)>) {
    && remaining <= keys
    && (forall k :: k in keys <==> k in remaining || k in order)
    && (forall k :: k in order ==> k !in remaining)
    && StrictlyAscending(order)
    && (forall i, k :: 0 <= i < |order| && k in remaining ==> PairLess(order[i], k))
  }

  /** Visiting the least remaining key keeps the walk in ascending order. */
  lemma VisitLeast(order: seq<(int, int)>, remaining: set<(int, int)>, keys: set<(int, int)>, k: (int, int))
    requires VisitedInOrder(order, remaining, keys)
    requires k in remaining && forall x :: x in remaining && x != k ==> PairLess(k, x)
    ensures VisitedInOrder(order + [k], remaining - {k}, keys)
  {
    var order', remaining' := order + [k], remaining - {k};
    assert forall i :: 0 <= i < |order| ==> order'[i] == order[i];
    assert order'[|order|] == k;
    forall i, j | 0 <= i < j < |order'| ensures PairLess(order'[i], order'[j]) {
      if j < |order| {
        assert PairLess(order[i], order[j]);
      }
    }
    forall i, x | 0 <= i < |order'| && x in remaining' ensures PairLess(order'[i], x) {
      if i < |order| {
        assert PairLess(order[i], x);
      }
    }
    forall x ensures x in keys <==> x in remaining' || x in order' {
      assert x in order' <==> x in order || x == k;
    }
  }

  /**
   * `save_download_links`: when the file could be opened, the text written
   * is the map's entries in ascending order of (mod ID, file ID); when it
   * could not, nothing is written.
   */
  method SaveDownloadLinks(links: Links, isOpen: bool) returns (written: Option<string>)
    ensures isOpen ==> written == Some(SavedText(links))
    ensures !isOpen ==> written == None
  {
    if !isOpen {
      return None;
    }
    var text := "";
    var remaining := links.Keys;
    ghost var order: seq<(int, int)> := [];
    while remaining != {}
      invariant VisitedInOrder(order, remaining, links.Keys)
      invariant text == Terminated(SavedLines(order, links), '\n')
      decreases remaining
    {
      MinPairExists(remaining);
      var k :| k in remaining && forall x :: x in remaining && x != k ==> PairLess(k, x);
      var line := LineText(k.0, k.1, links[k]);
      TerminatedAppend(SavedLines(order, links), line, '\n');
      SavedLinesAppend(order, k, links);
      VisitLeast(order, remaining, links.Keys, k);
      text := text + line + "\n";
      order := order + [k];
      remaining := remaining - {k};
    }
    AscendingUnique(order, SortedPairs(links.Keys));
    return Some(text);
  }

  // ---------------------------------------------------------------------
  // Reading the file back
  // ---------------------------------------------------------------------

  /** The lines of a file that `download_files` keeps: every line but the empty ones. */
  function FileLines(text: string): (lines: seq<string>)
    ensures AllTokens(lines, IsNewline)
  {
    Split(text, IsNewline)
  }

  /**
   * `getline(ss, a, ',') && getline(ss, b, ',') && getline(ss, url)`: the
   * line splits at its first two commas, and the third read needs at least
   * one character after the second comma. None when any of the three reads
   * fails.
   */
  function ParseFields(line: string): (r: Option<(string, string, string)>)
    ensures r.Some? ==> line == r.value.0 + "," + r.value.1 + "," + r.value.2
    ensures r.Some? ==> ',' !in r.value.0 && ',' !in r.value.1 && r.value.2 != []
  {
    match FirstIndexOf(line, ',')
    case None => None
    case Some(i) =>
      var rest := line[i + 1..];
      match FirstIndexOf(rest, ',')
      case None => None
      case Some(j) =>
        if j + 1 == |rest| then None
        else
          var a, b, c := line[..i], rest[..j], rest[j + 1..];
          SplitAround(line, i);
          assert line[i + 1..] == rest;
          SplitAround(rest, j);
          ConcatAssociative(a + ",", b + ",", c);
          ConcatAssociative(a + ",", b, ",");
          Some((a, b, c))
  }

  lemma FirstComma(a: string, rest: string)
    requires ',' !in a
    ensures FirstIndexOf(a + "," + rest, ',') == Some(|a|)
    ensures (a + "," + rest)[|a| + 1..] == rest
  {
    var s := a + "," + rest;
    assert s[|a|] == ',';
    assert forall j :: 0 <= j < |a| ==> s[j] == a[j];
    assert s[|a| + 1..] == rest;
  }

  /** Every line of the written shape is split back into its three fields. */
  lemma ParseFieldsOf(a: string, b: string, url: string)
    requires ',' !in a && ',' !in b && url != []
    ensures ParseFields(a + "," + b + "," + url) == Some((a, b, url))
  {
    var line := a + "," + b + "," + url;
    assert line == a + "," + (b + "," + url);
    FirstComma(a, b + "," + url);
    FirstComma(b, url);
    assert line[..|a|] == a;
    assert (b + "," + url)[..|b|] == b;
  }

  /** One entry read back from the file. */
  datatype LinkRecord = LinkRecord(modId: int, fileId: int, url: string)

  /**
   * The body of the line loop: a line whose fields cannot be read is
   * skipped; a field `std::stoi` refuses throws, which nothing catches.
   */
  function LineStep(line: string): Step<LinkRecord> {
    match ParseFields(line)
    case None => Skip
    case Some(fields) =>
      var modId := Stoi(fields.0);
      var fileId := Stoi(fields.1);
      if modId.None? || fileId.None? then Throw
      else Emit(LinkRecord(modId.value, fileId.value, fields.2))
  }

  /** The records `download_files` acts on, and whether it gets through the whole file. */
  function ReadRecords(text: string): Scanned<LinkRecord> {
    Scan(FileLines(text), LineStep)
  }

  /** An entry that survives the trip through the file: IDs in `int` range, a non-empty one-line URL. */
  predicate Storable(links: Links) {
    forall k :: k in links ==> IsInt32(k.0) && IsInt32(k.1) && links[k] != [] && '\n' !in links[k]
  }

  /** The record read back for one key of `links`. */
  function RecordOf(links: Links): ((int, int), nat) -> LinkRecord {
    (k: (int, int), _: nat) => LinkRecord(k.0, k.1, if k in links then links[k] else [])
  }

  function Records(keys: seq<(int, int)>, links: Links): (rs: seq<LinkRecord>)
    requires forall i :: 0 <= i < |keys| ==> keys[i] in links
    ensures |rs| == |keys|
  {
    Loops.Indexed(keys, RecordOf(links))
  }

  /** The `i`-th record is the entry of the `i`-th key. */
  lemma RecordAt(keys: seq<(int, int)>, links: Links, i: nat)
    requires forall j :: 0 <= j < |keys| ==> keys[j] in links
    requires i < |keys|
    ensures Records(keys, links)[i] == LinkRecord(keys[i].0, keys[i].1, links[keys[i]])
  {
    Loops.IndexedAt(keys, RecordOf(links), i);
  }

  /** One more key: one more record. */
  lemma RecordsAppend(keys: seq<(int, int)>, k: (int, int), links: Links)
    requires forall j :: 0 <= j < |keys| ==> keys[j] in links
    requires k in links
    ensures Records(keys + [k], links) == Records(keys, links) + [LinkRecord(k.0, k.1, links[k])]
  {
    Loops.IndexedAppend(keys, k, RecordOf(links));
  }

  /** A line with two commas and a non-empty URL, whose first two fields `std::stoi` reads, yields its record. */
  lemma LineStepFields(a: string, b: string, url: string, modId: int, fileId: int)
    requires ',' !in a && ',' !in b && url != []
    requires Stoi(a) == Some(modId) && Stoi(b) == Some(fileId)
    ensures LineStep(a + "," + b + "," + url) == Emit(LinkRecord(modId, fileId, url))
  {
    ParseFieldsOf(a, b, url);
  }

  lemma LineStepOf(modId: int, fileId: int, url: string)
    requires IsInt32(modId) && IsInt32(fileId) && url != []
    ensures LineStep(LineText(modId, fileId, url)) == Emit(LinkRecord(modId, fileId, url))
  {
    ShowIntOmits(modId, ',');
    ShowIntOmits(fileId, ',');
    StoiOfShowInt(modId);
    StoiOfShowInt(fileId);
    LineStepFields(ShowInt(modId), ShowInt(fileId), url, modId, fileId);
  }

  lemma {:induction false} EmittedSavedLines(keys: seq<(int, int)>, links: Links)
    requires Storable(links)
    requires forall i :: 0 <= i < |keys| ==> keys[i] in links
    ensures Emitted(SavedLines(keys, links), LineStep) == Records(keys, links)
    decreases |keys|
  {
    if keys != [] {
      var front, k := keys[..|keys| - 1], keys[|keys| - 1];
      EmittedSavedLines(front, links);
      assert keys == front + [k];
      SavedLineEmits(front, k, links);
      RecordsAppend(front, k, links);
    }
  }

  /** One more entry of the walk reads back as one more record. */
  lemma SavedLineEmits(front: seq<(int, int)>, k: (int, int), links: Links)
    requires forall i :: 0 <= i < |front| ==> front[i] in links
    requires k in links && IsInt32(k.0) && IsInt32(k.1) && links[k] != []
    ensures Emitted(SavedLines(front + [k], links), LineStep)
              == Emitted(SavedLines(front, links), LineStep) + [LinkRecord(k.0, k.1, links[k])]
  {
    SavedLinesAppend(front, k, links);
    LineStepOf(k.0, k.1, links[k]);
    EmittedAppendEmit(SavedLines(front, links), LineText(k.0, k.1, links[k]), LineStep, LinkRecord(k.0, k.1, links[k]));
  }

  /** A written line is not empty, and holds no newline when its URL holds none. */
  lemma LineTextIsLine(modId: int, fileId: int, url: string)
    requires '\n' !in url
    ensures LineText(modId, fileId, url) != [] && Free(LineText(modId, fileId, url), IsNewline)
  {
    ShowIntOmits(modId, '\n');
    ShowIntOmits(fileId, '\n');
  }

  /** No written line is empty or holds a newline, given storable entries. */
  lemma SavedLinesAreLines(keys: seq<(int, int)>, links: Links)
    requires Storable(links)
    requires forall i :: 0 <= i < |keys| ==> keys[i] in links
    ensures AllTokens(SavedLines(keys, links), IsNewline)
  {
    var lines := SavedLines(keys, links);
    forall i | 0 <= i < |lines| ensures lines[i] != [] && Free(lines[i], IsNewline) {
      SavedLineAt(keys, links, i);
      LineTextIsLine(keys[i].0, keys[i].1, links[keys[i]]);
    }
  }

  /** The lines written for `keys` read back as their records, without an exception. */
  lemma ReadBackKeys(keys: seq<(int, int)>, links: Links)
    requires Storable(links)
    requires forall i :: 0 <= i < |keys| ==> keys[i] in links
    ensures Scan(FileLines(Terminated(SavedLines(keys, links), '\n')), LineStep) == Scanned(Records(keys, links), true)
  {
    var lines := SavedLines(keys, links);
    SavedLinesAreLines(keys, links);
    SplitTerminated(lines, '\n', IsNewline);
    assert NoThrow(lines, LineStep) by {
      forall i | 0 <= i < |lines| ensures !LineStep(lines[i]).Throw? {
        SavedLineAt(keys, links, i);
        LineStepOf(keys[i].0, keys[i].1, links[keys[i]]);
      }
    }
    ScanWithoutThrow(lines, LineStep);
    EmittedSavedLines(keys, links);
  }

  /** Reading back a saved map yields its records in the saved order, without an exception. */
  lemma ReadBackRecords(links: Links)
    requires Storable(links)
    ensures ReadRecords(SavedText(links)) == Scanned(Records(SortedPairs(links.Keys), links), true)
  {
    ReadBackKeys(SortedPairs(links.Keys), links);
  }

  /** The entries of `links`, exactly once each, in ascending key order. */
  predicate AllEntriesAscending(rs: seq<LinkRecord>, links: Links) {
    && |rs| == |links|
    && (forall i :: 0 <= i < |rs| ==> (rs[i].modId, rs[i].fileId) in links && links[(rs[i].modId, rs[i].fileId)] == rs[i].url)
    && (forall k :: k in links ==> exists i :: 0 <= i < |rs| && (rs[i].modId, rs[i].fileId) == k)
    && (forall i, j :: 0 <= i < j < |rs| ==> PairLess((rs[i].modId, rs[i].fileId), (rs[j].modId, rs[j].fileId)))
  }

  lemma RecordsOfAscendingKeys(keys: seq<(int, int)>, links: Links)
    requires StrictlyAscending(keys) && |keys| == |links|
    requires forall k :: k in keys <==> k in links
    ensures AllEntriesAscending(Records(keys, links), links)
  {
    var rs := Records(keys, links);
    forall i | 0 <= i < |rs| ensures rs[i] == LinkRecord(keys[i].0, keys[i].1, links[keys[i]]) {
      RecordAt(keys, links, i);
    }
    forall k | k in links ensures exists i :: 0 <= i < |rs| && (rs[i].modId, rs[i].fileId) == k {
      var i :| 0 <= i < |keys| && keys[i] == k;
      assert (rs[i].modId, rs[i].fileId) == k;
    }
    forall i, j | 0 <= i < j < |rs| ensures PairLess((rs[i].modId, rs[i].fileId), (rs[j].modId, rs[j].fileId)) {
      assert (rs[i].modId, rs[i].fileId) == keys[i] && (rs[j].modId, rs[j].fileId) == keys[j];
    }
  }

  /**
   * Saving and reading back loses nothing: every entry of a storable map
   * comes back once, in ascending key order, and the loop reaches the end
   * of the file.
   */
  lemma SavedLinksReadBack(links: Links)
    requires Storable(links)
    ensures ReadRecords(SavedText(links)).complete
    ensures AllEntriesAscending(ReadRecords(SavedText(links)).values, links)
  {
    ReadBackRecords(links);
    var keys := SortedPairs(links.Keys);
    assert |links.Keys| == |links|;
    RecordsOfAscendingKeys(keys, links);
  }
}
