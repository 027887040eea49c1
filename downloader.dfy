/**
 * `download_files`: read the saved links, derive a file name for each, and
 * fetch it with up to five attempts five seconds apart. What the network
 * and the file system answer on each attempt is a parameter.
 */
module Downloader {
  import opened Wrappers
  import opened Text
  import opened ItemScan
  import opened NexusApi
  import opened LinkStore
  import opened Tokens
  import opened Loops

  // ---------------------------------------------------------------------
  // File names
  // ---------------------------------------------------------------------

  /** The name used when the URL yields none: `mod_<mod>_file_<file>.zip`. */
  function FallbackName(modId: int, fileId: int): (name: string)
    ensures name != [] && '/' !in name && '?' !in name
  {
    FallbackOmits(modId, fileId, '/');
    FallbackOmits(modId, fileId, '?');
    "mod_" + ShowInt(modId) + "_file_" + ShowInt(fileId) + ".zip"
  }

  lemma FallbackOmits(modId: int, fileId: int, c: char)
    requires c == '/' || c == '?'
    ensures c !in "mod_" + ShowInt(modId) + "_file_" + ShowInt(fileId) + ".zip"
  {
    ShowIntOmits(modId, c);
    ShowIntOmits(fileId, c);
    var a, b := "mod_" + ShowInt(modId), "_file_" + ShowInt(fileId);
    assert c !in a && c !in b && c !in ".zip";
    assert "mod_" + ShowInt(modId) + "_file_" + ShowInt(fileId) + ".zip" == a + b + ".zip";
  }

  /** What follows the last '/' of a URL; nothing when it has none. */
  function AfterLastSlash(url: string): (s: string)
    ensures '/' !in s
  {
    match LastIndexOf(url, '/')
    case Some(pos) =>
      var tail := url[pos + 1..];
      assert forall c :: 0 <= c < |tail| ==> tail[c] == url[pos + 1 + c];
      tail
    case None => []
  }

  /** The text before the first '?'. */
  function BeforeQuery(s: string): (t: string)
    ensures '?' !in t && |t| <= |s| && t == s[..|t|]
  {
    match FirstIndexOf(s, '?')
    case Some(q) => s[..q]
    case None => s
  }

  /**
   * The file name taken from a URL: what follows its last '/', when
   * something does, cut at the first '?'; the fallback name when that
   * leaves nothing. It never holds a '/', so the file cannot land in a
   * directory below its mod's directory; it may be "." or ".."
   * (`DerivedNameDots`).
   */
  function DerivedFileName(url: string, modId: int, fileId: int): (name: string)
    ensures name != [] && '/' !in name && '?' !in name
  {
    var afterSlash := AfterLastSlash(url);
    var name := BeforeQuery(afterSlash);
    if name == [] then FallbackName(modId, fileId)
    else
      assert forall c :: 0 <= c < |name| ==> name[c] == afterSlash[c];
      name
  }

  /** What follows the last '/' is everything after a '/' that is followed by none. */
  lemma AfterLastSlashOf(dir: string, rest: string)
    requires '/' !in rest
    ensures AfterLastSlash(dir + "/" + rest) == rest
  {
    var url := dir + "/" + rest;
    var pos := |dir|;
    assert url[pos] == '/';
    forall j | pos < j < |url| ensures url[j] != '/' {
      assert url[j] == rest[j - pos - 1];
    }
    LastIndexAt(url, '/', pos);
    assert url[pos + 1..] == rest;
  }

  /** Cutting at the first '?' removes exactly a query that starts with one. */
  lemma BeforeQueryOf(name: string, query: string)
    requires '?' !in name && (query == [] || query[0] == '?')
    ensures BeforeQuery(name + query) == name
  {
    var s := name + query;
    if query == [] {
      assert s == name;
    } else {
      assert s[|name|] == '?';
      forall j | 0 <= j < |name| ensures s[j] != '?' {
        assert s[j] == name[j];
      }
      FirstIndexAt(s, '?', |name|);
      assert s[..|name|] == name;
    }
  }

  /** The last path segment, up to any query, is the name: `dir/name` and `dir/name?query`. */
  lemma DerivedNameOf(dir: string, name: string, query: string, modId: int, fileId: int)
    requires name != [] && '/' !in name && '?' !in name
    requires '/' !in query && (query == [] || query[0] == '?')
    ensures DerivedFileName(dir + "/" + name + query, modId, fileId) == name
  {
    assert '/' !in name + query;
    assert dir + "/" + name + query == dir + "/" + (name + query);
    AfterLastSlashOf(dir, name + query);
    BeforeQueryOf(name, query);
  }

  /**
   * A last segment "." or ".." is kept as the name, so the path names the
   * mod's directory itself or its parent, which `fopen` cannot open.
   */
  lemma DerivedNameDots(dir: string, name: string, modId: int, fileId: int)
    requires name == "." || name == ".."
    ensures DerivedFileName(dir + "/" + name, modId, fileId) == name
  {
    AfterLastSlashOf(dir, name);
    BeforeQueryOf(name, []);
    assert name + [] == name;
  }

  /** A URL without a '/', or ending in one, gets the fallback name. */
  lemma DerivedNameFallback(url: string, modId: int, fileId: int)
    requires '/' !in url || url[|url| - 1] == '/'
    ensures DerivedFileName(url, modId, fileId) == FallbackName(modId, fileId)
  {
    if '/' in url {
      assert LastIndexOf(url, '/') == Some(|url| - 1);
    } else {
      assert LastIndexOf(url, '/') == None;
    }
  }

  // ---------------------------------------------------------------------
  // download_with_retries
  // ---------------------------------------------------------------------

  const Retries: nat := 5
  const RetryDelaySeconds: nat := 5

  /**
   * What one attempt runs into: no curl handle, an output file that cannot
   * be opened, or a transfer with curl's result and the HTTP status.
   */
  datatype Attempt = InitFailed | OpenFailed | Transfer(curlOk: bool, httpCode: int)

  /** A run of the retry loop, as a sequence of attempts and pauses. */
  datatype Event = Tried(attempt: nat, outcome: Attempt) | Slept(seconds: nat)

  datatype RetryResult = Downloaded(attempt: nat) | GaveUp | Abandoned

  datatype Run = Run(trace: seq<Event>, result: RetryResult)

  /** `res == CURLE_OK && http_code == 200`. */
  predicate Succeeded(a: Attempt) {
    a.Transfer? && a.curlOk && a.httpCode == 200
  }

  /** A transfer that happened and failed: the one outcome that is retried. */
  predicate Failed(a: Attempt) {
    a.Transfer? && !Succeeded(a)
  }

  /** The retry loop from attempt `attempt` on, given each attempt's outcome. */
  function RetryFrom(outcome: nat -> Attempt, attempt: nat): Run
    decreases Retries - attempt
  {
    if attempt >= Retries then Run([], GaveUp)
    else
      var a := outcome(attempt);
      if !a.Transfer? then Run([Tried(attempt, a)], Abandoned)
      else if Succeeded(a) then Run([Tried(attempt, a)], Downloaded(attempt))
      else
        var next := RetryFrom(outcome, attempt + 1);
        Run([Tried(attempt, a)] + Pause(attempt) + next.trace, next.result)
  }

  /** The pause after failed transfer `attempt`: none after the last one. */
  function Pause(attempt: nat): seq<Event> {
    if attempt < Retries - 1 then [Slept(RetryDelaySeconds)] else []
  }

  /** One step of the retry loop: a failed transfer, its pause, and the rest of the loop. */
  lemma RetryFromFailed(outcome: nat -> Attempt, attempt: nat)
    requires attempt < Retries && Failed(outcome(attempt))
    ensures RetryFrom(outcome, attempt).trace
              == [Tried(attempt, outcome(attempt))] + Pause(attempt) + RetryFrom(outcome, attempt + 1).trace
    ensures RetryFrom(outcome, attempt).result == RetryFrom(outcome, attempt + 1).result
  {
  }

  /** The whole retry loop. */
  function Retry(outcome: nat -> Attempt): Run {
    RetryFrom(outcome, 0)
  }

  /**
   * `download_with_retries`: escape the URL's spaces and try at most
   * `Retries` times, pausing between failed transfers; a missing curl
   * handle or output file ends the loop at once.
   */
  method DownloadWithRetries(url: string, outcome: nat -> Attempt)
    returns (requested: string, trace: seq<Event>, result: RetryResult)
    ensures requested == EscapedSpaces(url)
    ensures Run(trace, result) == Retry(outcome)
  {
    requested := EscapeSpaces(url);
    trace := [];
    var attempt: nat := 0;
    while attempt < Retries
      invariant attempt <= Retries && FailedBetween(outcome, 0, attempt)
      invariant trace == FailedTrace(outcome, 0, attempt)
      decreases Retries - attempt
    {
      var a := outcome(attempt);
      if a.InitFailed? || a.OpenFailed? || Succeeded(a) {
        RetrySplit(outcome, attempt);
        trace := trace + [Tried(attempt, a)];
        result := if Succeeded(a) then Downloaded(attempt) else Abandoned;
        return;
      }
      trace := trace + [Tried(attempt, a)] + Pause(attempt);
      attempt := attempt + 1;
    }
    RetrySplit(outcome, attempt);
    assert trace + [] == trace;
    result := GaveUp;
  }

  /** The attempts before `i`, from `from` on, were all failed transfers. */
  predicate FailedBetween(outcome: nat -> Attempt, from: nat, i: nat) {
    forall j :: from <= j < i ==> Failed(outcome(j))
  }

  /** The trace of attempts `from` to `n - 1` when all of them are failed transfers. */
  function FailedTrace(outcome: nat -> Attempt, from: nat, n: nat): seq<Event>
    decreases n
  {
    if n <= from then [] else FailedTrace(outcome, from, n - 1) + [Tried(n - 1, outcome(n - 1))] + Pause(n - 1)
  }

  /** After failed transfers `from` to `n - 1`, the run from `from` is their trace followed by the run from attempt `n`. */
  lemma {:induction false} RetrySplitFrom(outcome: nat -> Attempt, from: nat, n: nat)
    requires from <= n <= Retries && FailedBetween(outcome, from, n)
    ensures RetryFrom(outcome, from).trace == FailedTrace(outcome, from, n) + RetryFrom(outcome, n).trace
    ensures RetryFrom(outcome, from).result == RetryFrom(outcome, n).result
    decreases n
  {
    if from < n {
      assert FailedBetween(outcome, from, n - 1) && Failed(outcome(n - 1));
      RetrySplitFrom(outcome, from, n - 1);
      RetryFromFailed(outcome, n - 1);
      var before, tried, pause := FailedTrace(outcome, from, n - 1), [Tried(n - 1, outcome(n - 1))], Pause(n - 1);
      ConcatAssociative(before, tried, pause);
      SplitStep(RetryFrom(outcome, from).trace, RetryFrom(outcome, n - 1).trace, before, tried + pause, RetryFrom(outcome, n).trace);
    }
  }

  /** Replacing the tail `b` of `a` by its own split. */
  lemma SplitStep<T>(a: seq<T>, b: seq<T>, before: seq<T>, step: seq<T>, rest: seq<T>)
    requires a == before + b && b == step + rest
    ensures a == before + step + rest
  {
    ConcatAssociative(before, step, rest);
  }

  /** After `n` failed transfers the loop's run is their trace followed by the run from attempt `n`. */
  lemma RetrySplit(outcome: nat -> Attempt, n: nat)
    requires n <= Retries && FailedBetween(outcome, 0, n)
    ensures Retry(outcome).trace == FailedTrace(outcome, 0, n) + RetryFrom(outcome, n).trace
    ensures Retry(outcome).result == RetryFrom(outcome, n).result
  {
    RetrySplitFrom(outcome, 0, n);
  }

  /** When the loop reports a download, and which attempt made it. */
  lemma {:induction false} RetryDownloadedFrom(outcome: nat -> Attempt, from: nat, i: nat)
    ensures RetryFrom(outcome, from).result == Downloaded(i) <==>
              from <= i < Retries && Succeeded(outcome(i)) && FailedBetween(outcome, from, i)
    decreases Retries - from
  {
    if from < Retries && Failed(outcome(from)) {
      RetryDownloadedFrom(outcome, from + 1, i);
    }
  }

  /** When the loop gives up: every attempt was a failed transfer. */
  lemma {:induction false} RetryGaveUpFrom(outcome: nat -> Attempt, from: nat)
    ensures RetryFrom(outcome, from).result == GaveUp <==> FailedBetween(outcome, from, Retries)
    decreases Retries - from
  {
    if from < Retries && Failed(outcome(from)) {
      RetryGaveUpFrom(outcome, from + 1);
    }
  }

  /** When the loop is abandoned: a handle or file failure after nothing but failed transfers. */
  lemma {:induction false} RetryAbandonedFrom(outcome: nat -> Attempt, from: nat)
    ensures RetryFrom(outcome, from).result == Abandoned <==>
              exists i :: from <= i < Retries && !outcome(i).Transfer? && FailedBetween(outcome, from, i)
    decreases Retries - from
  {
    if from < Retries {
      var a := outcome(from);
      if !a.Transfer? {
        assert FailedBetween(outcome, from, from);
      } else if Succeeded(a) {
        assert !Failed(outcome(from));
      } else {
        RetryAbandonedFrom(outcome, from + 1);
        if exists i :: from <= i < Retries && !outcome(i).Transfer? && FailedBetween(outcome, from, i) {
          var i :| from <= i < Retries && !outcome(i).Transfer? && FailedBetween(outcome, from, i);
          assert i != from;
          assert FailedBetween(outcome, from + 1, i);
        }
        if exists i :: from + 1 <= i < Retries && !outcome(i).Transfer? && FailedBetween(outcome, from + 1, i) {
          var i :| from + 1 <= i < Retries && !outcome(i).Transfer? && FailedBetween(outcome, from + 1, i);
          assert FailedBetween(outcome, from, i);
        }
      }
    }
  }

  /**
   * The three ways the loop ends: a download by attempt `i` exactly when
   * attempt `i` succeeds after failed transfers only; giving up exactly
   * when all five transfers fail; abandoning exactly when the curl handle
   * or the output file fails first.
   */
  lemma RetryResults(outcome: nat -> Attempt, i: nat)
    ensures Retry(outcome).result == Downloaded(i) <==>
              i < Retries && Succeeded(outcome(i)) && FailedBetween(outcome, 0, i)
    ensures Retry(outcome).result == GaveUp <==> FailedBetween(outcome, 0, Retries)
    ensures Retry(outcome).result == Abandoned <==>
              exists j :: 0 <= j < Retries && !outcome(j).Transfer? && FailedBetween(outcome, 0, j)
  {
    RetryDownloadedFrom(outcome, 0, i);
    RetryGaveUpFrom(outcome, 0);
    RetryAbandonedFrom(outcome, 0);
  }

  /** The trace from `from` on alternates attempts and five-second pauses, starting and ending with an attempt. */
  predicate Alternates(trace: seq<Event>, outcome: nat -> Attempt, from: nat) {
    forall k :: 0 <= k < |trace| ==>
      trace[k] == if k % 2 == 0 then Tried(from + k / 2, outcome(from + k / 2)) else Slept(RetryDelaySeconds)
  }

  /** A failed transfer that is not the last is followed by a pause and the next attempt's run. */
  lemma FailedThenPause(outcome: nat -> Attempt, from: nat)
    requires from < Retries - 1 && Failed(outcome(from))
    ensures RetryFrom(outcome, from).trace
              == [Tried(from, outcome(from)), Slept(RetryDelaySeconds)] + RetryFrom(outcome, from + 1).trace
    ensures RetryFrom(outcome, from).result == RetryFrom(outcome, from + 1).result
  {
    RetryFromFailed(outcome, from);
    ConcatAssociative([Tried(from, outcome(from))], [Slept(RetryDelaySeconds)], RetryFrom(outcome, from + 1).trace);
  }

  /** An attempt and a pause in front of an alternating trace from the next attempt on. */
  lemma AlternatesCons(next: seq<Event>, outcome: nat -> Attempt, from: nat)
    requires Alternates(next, outcome, from + 1)
    ensures Alternates([Tried(from, outcome(from)), Slept(RetryDelaySeconds)] + next, outcome, from)
  {
    var t := [Tried(from, outcome(from)), Slept(RetryDelaySeconds)] + next;
    forall k | 2 <= k < |t|
      ensures t[k] == if k % 2 == 0 then Tried(from + k / 2, outcome(from + k / 2)) else Slept(RetryDelaySeconds)
    {
      assert t[k] == next[k - 2];
      assert (k - 2) % 2 == k % 2 && from + 1 + (k - 2) / 2 == from + k / 2;
    }
  }

  /** An attempt that is not a failed transfer, or the last attempt, ends the run. */
  lemma RetryEndsAt(outcome: nat -> Attempt, from: nat)
    requires from < Retries && !(Failed(outcome(from)) && from < Retries - 1)
    ensures RetryFrom(outcome, from).trace == [Tried(from, outcome(from))]
    ensures RetryFrom(outcome, from).result.Downloaded? ==> RetryFrom(outcome, from).result.attempt == from
    ensures RetryFrom(outcome, from).result.GaveUp? ==> from == Retries - 1
    ensures RetryFrom(outcome, from).result.Abandoned? ==> !outcome(from).Transfer?
  {
    if Failed(outcome(from)) {
      RetryFromFailed(outcome, from);
      assert RetryFrom(outcome, from + 1) == Run([], GaveUp);
    }
  }

  /** The shape of a run carries over from the next attempt on to an attempt and a pause in front of it. */
  lemma ShapeAfterPause(run: Run, next: Run, outcome: nat -> Attempt, from: nat)
    requires from + 1 < Retries
    requires run.trace == [Tried(from, outcome(from)), Slept(RetryDelaySeconds)] + next.trace && run.result == next.result
    requires |next.trace| % 2 == 1 && |next.trace| <= 2 * (Retries - (from + 1)) - 1 && Alternates(next.trace, outcome, from + 1)
    requires next.result.Downloaded? ==> |next.trace| == 2 * (next.result.attempt - (from + 1)) + 1
    requires next.result.GaveUp? ==> |next.trace| == 2 * (Retries - (from + 1)) - 1
    requires next.result.Abandoned? ==> !outcome(from + 1 + |next.trace| / 2).Transfer?
    ensures |run.trace| % 2 == 1 && |run.trace| <= 2 * (Retries - from) - 1 && Alternates(run.trace, outcome, from)
    ensures run.result.Downloaded? ==> |run.trace| == 2 * (run.result.attempt - from) + 1
    ensures run.result.GaveUp? ==> |run.trace| == 2 * (Retries - from) - 1
    ensures run.result.Abandoned? ==> !outcome(from + |run.trace| / 2).Transfer?
  {
    AlternatesCons(next.trace, outcome, from);
  }

  lemma {:induction false} RetryTraceFrom(outcome: nat -> Attempt, from: nat)
    requires from < Retries
    ensures var t := RetryFrom(outcome, from).trace;
      |t| % 2 == 1 && |t| <= 2 * (Retries - from) - 1 && Alternates(t, outcome, from)
    ensures RetryFrom(outcome, from).result.Downloaded? ==>
              |RetryFrom(outcome, from).trace| == 2 * (RetryFrom(outcome, from).result.attempt - from) + 1
    ensures RetryFrom(outcome, from).result.GaveUp? ==> |RetryFrom(outcome, from).trace| == 2 * (Retries - from) - 1
    ensures RetryFrom(outcome, from).result.Abandoned? ==>
              !outcome(from + |RetryFrom(outcome, from).trace| / 2).Transfer?
    decreases Retries - from
  {
    if Failed(outcome(from)) && from < Retries - 1 {
      RetryTraceFrom(outcome, from + 1);
      FailedThenPause(outcome, from);
      ShapeAfterPause(RetryFrom(outcome, from), RetryFrom(outcome, from + 1), outcome, from);
    } else {
      RetryEndsAt(outcome, from);
    }
  }

  /**
   * The shape of every run: attempt 0, pause, attempt 1, … ending with an
   * attempt; at most five attempts and four pauses. A download by attempt
   * `i` comes after exactly `i` pauses; giving up takes all five attempts
   * and four pauses; an abandoned run ends with the attempt whose handle
   * or file failed.
   */
  lemma RetryTrace(outcome: nat -> Attempt)
    ensures var t := Retry(outcome).trace;
      |t| % 2 == 1 && |t| <= 2 * Retries - 1 && Alternates(t, outcome, 0)
    ensures Retry(outcome).result.Downloaded? ==>
              |Retry(outcome).trace| == 2 * Retry(outcome).result.attempt + 1
    ensures Retry(outcome).result.GaveUp? ==> |Retry(outcome).trace| == 2 * Retries - 1
    ensures Retry(outcome).result.Abandoned? ==> !outcome(|Retry(outcome).trace| / 2).Transfer?
  {
    RetryTraceFrom(outcome, 0);
  }

  // ---------------------------------------------------------------------
  // download_files
  // ---------------------------------------------------------------------

  /** Where one record is stored: the directory named after the mod ID, and the derived file name. */
  datatype Download = Download(modId: int, fileId: int, directory: string, fileName: string, url: string)

  function Planned(r: LinkRecord): (d: Download)
    ensures d.modId == r.modId && d.fileId == r.fileId && d.url == r.url && d.directory == ShowInt(r.modId)
    ensures d.fileName != [] && '/' !in d.fileName && '?' !in d.fileName
  {
    Download(r.modId, r.fileId, ShowInt(r.modId), DerivedFileName(r.url, r.modId, r.fileId), r.url)
  }

  /** What happened to one download: where it went, the URL requested, and the retry loop's run. */
  datatype Report = Report(download: Download, requested: string, run: Run)

  /** The report one record earns: its planned target, its URL with spaces escaped, and the retry loop's run. */
  function Expected(r: LinkRecord, outcome: nat -> Attempt): Report {
    Report(Planned(r), EscapedSpaces(r.url), Retry(outcome))
  }

  /** The reports of `records` in order, the `k`-th with outcomes `outcomes(k)`. */
  function ExpectedReports(records: seq<LinkRecord>, outcomes: nat -> nat -> Attempt): seq<Report> {
    Indexed(records, (r: LinkRecord, k: nat) => Expected(r, outcomes(k)))
  }

  /** The body of the line loop for a readable line: create the mod's directory and download into it. */
  method DownloadRecord(r: LinkRecord, outcome: nat -> Attempt) returns (report: Report)
    ensures report == Expected(r, outcome)
  {
    var requested, trace, result := DownloadWithRetries(r.url, outcome);
    report := Report(Planned(r), requested, Run(trace, result));
  }

  /**
   * `download_files`: without a links file nothing happens. Otherwise each
   * readable line is downloaded in file order, the `k`-th with outcomes
   * `outcomes(k)`; a mod or file ID that `std::stoi` refuses ends the
   * program there, which `complete` reports as false.
   */
  method DownloadFiles(file: Option<string>, outcomes: nat -> nat -> Attempt)
    returns (reports: seq<Report>, complete: bool)
    ensures file.None? ==> reports == [] && complete
    ensures file.Some? ==> complete == ReadRecords(file.value).complete
    ensures file.Some? ==> |reports| == |ReadRecords(file.value).values|
    ensures file.Some? ==>
              forall k :: 0 <= k < |reports| ==> reports[k] == Expected(ReadRecords(file.value).values[k], outcomes(k))
  {
    if file.None? {
      return [], true;
    }
    var lines := SplitLoop(file.value, IsNewline);
    reports, complete := DownloadLines(lines, outcomes);
    forall k | 0 <= k < |reports| ensures reports[k] == Expected(ReadRecords(file.value).values[k], outcomes(k)) {
      IndexedAt(ReadRecords(file.value).values, (r: LinkRecord, k: nat) => Expected(r, outcomes(k)), k);
    }
  }

  /** The line loop of `download_files` over the lines read. */
  method DownloadLines(lines: seq<string>, outcomes: nat -> nat -> Attempt)
    returns (reports: seq<Report>, complete: bool)
    ensures complete == Scan(lines, LineStep).complete
    ensures reports == ExpectedReports(Scan(lines, LineStep).values, outcomes)
  {
    reports, complete := DownloadEach(lines, LineStep, outcomes);
  }

  /**
   * The line loop, with the reading of one line given as `step`: download
   * each record read, in order, and stop at the first line that throws.
   */
  method DownloadEach(lines: seq<string>, step: string -> Step<LinkRecord>, outcomes: nat -> nat -> Attempt)
    returns (reports: seq<Report>, complete: bool)
    ensures complete == Scan(lines, step).complete
    ensures reports == ExpectedReports(Scan(lines, step).values, outcomes)
  {
    reports, complete := [], true;
    ghost var records: seq<LinkRecord> := [];
    var i := 0;
    while i < |lines|
      invariant 0 <= i <= |lines|
      invariant Scanned(records, true) == Scan(lines[..i], step)
      invariant reports == ExpectedReports(records, outcomes)
    {
      ScanExtend(lines, step, i);
      var s := step(lines[i]);
      if s.Throw? {
        complete := false;
        ScanPrefixStopped(lines, step, i + 1);
        return;
      }
      if s.Emit? {
        var report := DownloadRecord(s.value, outcomes(|reports|));
        IndexedAppend(records, s.value, (r: LinkRecord, k: nat) => Expected(r, outcomes(k)));
        reports := reports + [report];
        records := records + [s.value];
      }
      i := i + 1;
    }
    assert lines[..i] == lines;
  }
}
