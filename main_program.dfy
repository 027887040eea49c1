/**
 * The menu actions of the program that carry decisions: collecting the game
 * domains for the NexusMods sequence, the GameBanana download loop over the
 * subscribed mods, and the rename sequence that gives each downloaded mod
 * folder its mod's name.
 */
module MainProgram {
  import opened Wrappers
  import opened Json
  import opened ItemScan
  import opened Text
  import opened Tokens
  import opened FileNames
  import GameBanana
  import Rename
  import Loops

  // ---------------------------------------------------------------------
  // Case 2: the game domains
  // ---------------------------------------------------------------------

  /**
   * The domains the NexusMods sequence runs over: every command-line
   * argument from `argv[2]` on (the loop skips `argv[1]`, whatever it
   * holds; the menu choice itself is read from standard input); without
   * any, the whitespace-separated words of the line read from standard
   * input; `None` when that line has none either.
   */
  function Domains(argv: seq<string>, line: string): Option<seq<string>> {
    if |argv| > 2 then Some(argv[2..])
    else if Split(line, IsSpace) == [] then None
    else Some(Split(line, IsSpace))
  }

  /** The domain collection of case 2: the argument loop, then `iss >> domain` over the typed line. */
  method CollectDomains(argv: seq<string>, line: string) returns (domains: Option<seq<string>>)
    ensures domains == Domains(argv, line)
  {
    var gathered: seq<string> := [];
    var i := 2;
    while i < |argv|
      invariant 2 <= i && (|argv| <= 2 ==> i == 2) && (|argv| > 2 ==> i <= |argv|)
      invariant gathered == if |argv| > 2 then argv[2..i] else []
    {
      gathered := gathered + [argv[i]];
      i := i + 1;
    }
    assert |argv| > 2 ==> gathered == argv[2..] && gathered != [];
    if gathered == [] {
      gathered := SplitLoop(line, IsSpace);
    }
    if gathered == [] {
      return None;
    }
    return Some(gathered);
  }

  /** The arguments from `argv[2]` on are taken as they are, even empty ones, and the line is then not read. */
  lemma DomainsFromArguments(argv: seq<string>, line: string)
    requires |argv| > 2
    ensures Domains(argv, line) == Some(argv[2..]) && |Domains(argv, line).value| == |argv| - 2
  {
  }

  /** Domains typed on one line with single spaces between them are read back as typed. */
  lemma DomainsFromTypedLine(argv: seq<string>, typed: seq<string>)
    requires |argv| <= 2 && typed != [] && AllTokens(typed, IsSpace)
    ensures Domains(argv, Separated(typed, ' ')) == Some(typed)
  {
    SplitSeparated(typed, ' ', IsSpace);
  }

  /** Without arguments, the sequence returns to the menu exactly when the line is blank. */
  lemma NoDomainsIff(argv: seq<string>, line: string)
    requires |argv| <= 2
    ensures Domains(argv, line).None? <==> forall i :: 0 <= i < |line| ==> IsSpace(line[i])
  {
    SplitEmpty(line, IsSpace);
  }

  /** Every domain read from the line is a non-empty word without whitespace. */
  lemma TypedDomainsAreWords(argv: seq<string>, line: string)
    requires |argv| <= 2 && Domains(argv, line).Some?
    ensures Domains(argv, line).value != [] && AllTokens(Domains(argv, line).value, IsSpace)
  {
  }

  // ---------------------------------------------------------------------
  // Case 1: downloading the subscribed GameBanana mods
  // ---------------------------------------------------------------------

  /** What the loop did for one subscribed mod: its ID, its folder, and each file URL with the path it was written to. */
  datatype ModDownload = ModDownload(modId: string, folder: string, outputs: seq<(string, string)>)

  /** The numbered output paths `downloadModFiles` writes the URLs of one mod to. */
  function NumberedOutputs(folder: string, urls: seq<string>): (outputs: seq<(string, string)>)
    ensures |outputs| == |urls|
  {
    seq(|urls|, k requires 0 <= k < |urls| => (urls[k], GameBanana.OutputPath(folder, k + 1, urls[k])))
  }

  /** The `k`-th URL is written to the path numbered `k + 1`. */
  lemma NumberedOutputAt(folder: string, urls: seq<string>, k: nat)
    requires k < |urls|
    ensures NumberedOutputs(folder, urls)[k] == (urls[k], GameBanana.OutputPath(folder, k + 1, urls[k]))
  {
  }

  /**
   * The loop body for one (profile URL, name) pair: a mod whose URL has no
   * ID is skipped with a warning; otherwise its files are listed (a file
   * list that fails to parse throws, and nothing catches it) and numbered
   * into the folder named after the sanitised name.
   */
  function DownloadStep(mod: (string, string), baseDir: string, filesBody: string -> Body): Step<ModDownload> {
    var modId := GameBanana.ExtractModId(mod.0);
    if modId == [] then Skip
    else
      var folder := GameBanana.ModFolder(baseDir, mod.1);
      match GameBanana.ModFileUrls(filesBody(modId))
      case Aborted => Throw
      case Fetched(urls) => Emit(ModDownload(modId, folder, NumberedOutputs(folder, urls)))
  }

  /** `DownloadStep` as the step of the loop over the subscribed mods. */
  function ModStep(baseDir: string, filesBody: string -> Body): ((string, string)) -> Step<ModDownload> {
    (mod: (string, string)) => DownloadStep(mod, baseDir, filesBody)
  }

  /** The outcome of the download loop over `mods`. */
  function SubscribedDownloads(mods: seq<(string, string)>, baseDir: string, filesBody: string -> Body): Scanned<ModDownload> {
    Scan(mods, ModStep(baseDir, filesBody))
  }

  /**
   * The download loop of the GameBanana sequence. The name is sanitised
   * here and once more inside `downloadModFiles`; `filesBody` is the file
   * list answer for each mod ID.
   */
  method DownloadSubscribedMods(mods: seq<(string, string)>, baseDir: string, filesBody: string -> Body)
    returns (downloads: seq<ModDownload>, complete: bool)
    ensures Scanned(downloads, complete) == SubscribedDownloads(mods, baseDir, filesBody)
  {
    downloads := [];
    complete := true;
    var i := 0;
    while i < |mods|
      invariant 0 <= i <= |mods|
      invariant complete
      invariant Scanned(downloads, complete) == Scan(mods[..i], ModStep(baseDir, filesBody))
    {
      ScanExtend(mods, ModStep(baseDir, filesBody), i);
      var step := DownloadMod(mods[i], baseDir, filesBody);
      if step.Throw? {
        complete := false;
        ScanPrefixStopped(mods, ModStep(baseDir, filesBody), i + 1);
        return;
      }
      if step.Emit? {
        downloads := downloads + [step.value];
      }
      i := i + 1;
    }
    assert mods[..i] == mods;
  }

  /** The loop body for one subscribed mod, as `DownloadStep` describes it. */
  method DownloadMod(mod: (string, string), baseDir: string, filesBody: string -> Body) returns (step: Step<ModDownload>)
    ensures step == DownloadStep(mod, baseDir, filesBody)
  {
    var modName := Sanitize(mod.1);
    var modId := GameBanana.ExtractModId(mod.0);
    if modId == [] {
      return Skip;
    }
    var folder, outputs := GameBanana.DownloadModFiles(modId, modName, baseDir, filesBody);
    if outputs.Aborted? {
      return Throw;
    }
    var urls := GameBanana.ModFileUrls(filesBody(modId)).values;
    DoubleSanitizedFolder(baseDir, mod.1);
    assert outputs.values == NumberedOutputs(folder, urls) by {
      forall k | 0 <= k < |urls| ensures outputs.values[k] == NumberedOutputs(folder, urls)[k] {
        NumberedOutputAt(folder, urls, k);
      }
    }
    DownloadStepFetched(mod, baseDir, filesBody, modId, urls);
    return Emit(ModDownload(modId, folder, outputs.values));
  }

  /** Sanitising the name twice names the folder as sanitising it once. */
  lemma DoubleSanitizedFolder(baseDir: string, name: string)
    ensures GameBanana.ModFolder(baseDir, Sanitized(name)) == GameBanana.ModFolder(baseDir, name)
  {
    SanitizedIdempotent(name);
  }

  /** Mods whose profile URL has no ID are skipped: such a list downloads nothing and finishes. */
  lemma ModsWithoutIdsSkipped(mods: seq<(string, string)>, baseDir: string, filesBody: string -> Body)
    requires forall i :: 0 <= i < |mods| ==> GameBanana.ExtractModId(mods[i].0) == []
    ensures SubscribedDownloads(mods, baseDir, filesBody) == Scanned([], true)
  {
    var step := ModStep(baseDir, filesBody);
    assert NoThrow(mods, step) by {
      forall i | 0 <= i < |mods| ensures !step(mods[i]).Throw? {
      }
    }
    ScanWithoutThrow(mods, step);
    EmittedNone(mods, step);
  }

  lemma {:induction false} EmittedNone(mods: seq<(string, string)>, step: ((string, string)) -> Step<ModDownload>)
    requires forall i :: 0 <= i < |mods| ==> step(mods[i]).Skip?
    ensures Emitted(mods, step) == []
    decreases |mods|
  {
    if mods != [] {
      EmittedNone(mods[1..], step);
    }
  }

  /** A mod with an ID whose file list is read emits its download. */
  lemma DownloadStepFetched(mod: (string, string), baseDir: string, filesBody: string -> Body, modId: string, urls: seq<string>)
    requires modId == GameBanana.ExtractModId(mod.0) && modId != []
    requires GameBanana.ModFileUrls(filesBody(modId)) == GameBanana.Fetched(urls)
    ensures var folder := GameBanana.ModFolder(baseDir, mod.1);
      DownloadStep(mod, baseDir, filesBody) == Emit(ModDownload(modId, folder, NumberedOutputs(folder, urls)))
  {
  }

  /** One mod with an ID: its folder is the sanitised name under the base directory, and each listed file gets a numbered path in it. */
  lemma OneModDownload(mod: (string, string), baseDir: string, filesBody: string -> Body, urls: seq<string>)
    requires GameBanana.ExtractModId(mod.0) != []
    requires GameBanana.ModFileUrls(filesBody(GameBanana.ExtractModId(mod.0))) == GameBanana.Fetched(urls)
    ensures var d := DownloadStep(mod, baseDir, filesBody);
      && d.Emit?
      && d.value.modId == GameBanana.ExtractModId(mod.0)
      && d.value.folder == baseDir + "/" + Sanitized(mod.1)
      && |d.value.outputs| == |urls|
      && forall k :: 0 <= k < |urls| ==> d.value.outputs[k] == (urls[k], GameBanana.OutputPath(d.value.folder, k + 1, urls[k]))
  {
    var modId := GameBanana.ExtractModId(mod.0);
    DownloadStepFetched(mod, baseDir, filesBody, modId, urls);
    var folder := GameBanana.ModFolder(baseDir, mod.1);
    var outputs := NumberedOutputs(folder, urls);
    assert DownloadStep(mod, baseDir, filesBody).value == ModDownload(modId, folder, outputs);
    assert folder == baseDir + "/" + Sanitized(mod.1);
    forall k | 0 <= k < |urls| ensures outputs[k] == (urls[k], GameBanana.OutputPath(folder, k + 1, urls[k])) {
      NumberedOutputAt(folder, urls, k);
    }
  }

  /** A mod whose file list fails to parse ends the loop: nothing after it is downloaded. */
  lemma AbortedModEndsLoop(mods: seq<(string, string)>, baseDir: string, filesBody: string -> Body, e: nat)
    requires e < |mods| && GameBanana.ExtractModId(mods[e].0) != []
    requires GameBanana.ModFileUrls(filesBody(GameBanana.ExtractModId(mods[e].0))).Aborted?
    ensures !SubscribedDownloads(mods, baseDir, filesBody).complete
    ensures SubscribedDownloads(mods, baseDir, filesBody) == SubscribedDownloads(mods[..e + 1], baseDir, filesBody)
  {
    var step := ModStep(baseDir, filesBody);
    assert step(mods[e]).Throw?;
    ScanCompleteIff(mods, step);
    ScanCompleteIff(mods[..e + 1], step);
    assert mods[..e + 1][e] == mods[e];
    ScanPrefixStopped(mods, step, e + 1);
  }

  // ---------------------------------------------------------------------
  // Case 3: the rename sequence
  // ---------------------------------------------------------------------

  /**
   * `fs::rename(dir / from, dir / to)` inside one directory, under the POSIX
   * rules `std::filesystem` follows: renaming onto itself does nothing; a
   * missing source, "." or "..", a non-empty directory or a plain file in
   * the way of a directory, and a directory in the way of a file are errors
   * (`None`); otherwise the entry moves, replacing an empty directory or a
   * file of the same kind.
   */
  function RenameEntry(entries: Rename.Entries, from: string, to: string): (r: Option<Rename.Entries>)
    ensures r.Some? ==> from in entries
    ensures r.Some? && from == to ==> r.value == entries
    ensures r.Some? && from != to ==>
              && from !in r.value && to in r.value && r.value[to] == entries[from]
              && forall n :: n != from && n != to ==> (n in r.value <==> n in entries) && (n in entries ==> r.value[n] == entries[n])
  {
    if from !in entries || to == "." || to == ".." then None
    else if from == to then Some(entries)
    else if to !in entries then Some((entries - {from})[to := entries[from]])
    else if entries[from].Dir? && entries[to] == Rename.Dir(map[]) then Some((entries - {from})[to := entries[from]])
    else if entries[from].File? && entries[to].File? then Some((entries - {from})[to := entries[from]])
    else None
  }

  /** Renaming onto a directory that already has content, or onto a plain file, fails and changes nothing. */
  lemma RenameOntoOccupiedFails(entries: Rename.Entries, from: string, to: string)
    requires from in entries && to in entries && from != to && entries[from].Dir?
    requires entries[to].File? || entries[to].children != map[]
    ensures RenameEntry(entries, from, to).None?
  {
  }

  /** Renaming a directory to a name that is free, and is not "." or "..", always succeeds. */
  lemma RenameToFreeName(entries: Rename.Entries, from: string, to: string)
    requires from in entries && to !in entries && to != "." && to != ".."
    ensures RenameEntry(entries, from, to).Some?
  {
  }

  /** What happened to one mod folder. */
  datatype RenameOutcome = NoName | Renamed(to: string) | RenameFailed(to: string)

  /** One line of the sequence's log: the domain, the mod ID, and the outcome. */
  datatype Logged = Logged(domain: string, modId: string, outcome: RenameOutcome)

  /** The name a mod folder is renamed to, given the name the API reports. */
  function TargetName(body: Body): string {
    Sanitized(Rename.ExtractModName(body))
  }

  /**
   * The loop body for one mod ID of a domain: without a name the folder is
   * skipped; otherwise it is renamed to the sanitised name, and a failed
   * rename is reported and leaves the folder as it was.
   */
  function RenameStep(entries: Rename.Entries, domain: string, modId: string, nameResponse: (string, string) -> Body)
    : (r: (Rename.Entries, Logged))
    ensures r.1.domain == domain && r.1.modId == modId
    ensures r.1.outcome.NoName? <==> Rename.ExtractModName(nameResponse(domain, modId)) == []
    ensures !r.1.outcome.NoName? ==> r.1.outcome.to == TargetName(nameResponse(domain, modId))
    ensures r.1.outcome.Renamed? ==> RenameEntry(entries, modId, r.1.outcome.to) == Some(r.0)
    ensures !r.1.outcome.Renamed? ==> r.0 == entries
    ensures r.1.outcome.RenameFailed? ==> RenameEntry(entries, modId, r.1.outcome.to).None?
  {
    var raw := Rename.ExtractModName(nameResponse(domain, modId));
    if raw == [] then (entries, Logged(domain, modId, NoName))
    else
      var to := Sanitized(raw);
      match RenameEntry(entries, modId, to)
      case None => (entries, Logged(domain, modId, RenameFailed(to)))
      case Some(after) => (after, Logged(domain, modId, Renamed(to)))
  }

  /** `RenameStep` for one domain, as the step of a loop over mod IDs. */
  function RenameStepOf(domain: string, nameResponse: (string, string) -> Body)
    : (Rename.Entries, string) -> (Rename.Entries, Logged)
  {
    (e: Rename.Entries, modId: string) => RenameStep(e, domain, modId, nameResponse)
  }

  /** The entries of a domain folder after the loop over `modIds`, and its log. */
  function RenameIds(entries: Rename.Entries, domain: string, modIds: seq<string>, nameResponse: (string, string) -> Body)
    : (r: (Rename.Entries, seq<Logged>))
    ensures |r.1| == |modIds|
  {
    Loops.Fold(entries, modIds, RenameStepOf(domain, nameResponse))
  }

  /**
   * The `k`-th line of a domain's log is about its `k`-th mod ID: it says
   * `NoName` exactly when no name is found, and otherwise names the
   * sanitised target.
   */
  lemma RenameLogAt(entries: Rename.Entries, domain: string, modIds: seq<string>,
                    nameResponse: (string, string) -> Body, k: nat)
    requires k < |modIds|
    ensures var line := RenameIds(entries, domain, modIds, nameResponse).1[k];
      && line.domain == domain && line.modId == modIds[k]
      && (line.outcome.NoName? <==> Rename.ExtractModName(nameResponse(domain, modIds[k])) == [])
      && (!line.outcome.NoName? ==> line.outcome.to == TargetName(nameResponse(domain, modIds[k])))
  {
    var step := RenameStepOf(domain, nameResponse);
    Loops.FoldLogAt(entries, modIds, step, k);
    var before := Loops.Fold(entries, modIds[..k], step).0;
    assert step(before, modIds[k]) == RenameStep(before, domain, modIds[k], nameResponse);
  }

  /** The names a domain loop renamed folders to. */
  ghost predicate RenamedTo(log: seq<Logged>, name: string) {
    exists k :: 0 <= k < |log| && log[k].outcome == Renamed(name)
  }

  /** `e` agrees with `entries` on the name `n`. */
  ghost predicate SameAt(e: Rename.Entries, entries: Rename.Entries, n: string) {
    (n in e <==> n in entries) && (n in entries ==> e[n] == entries[n])
  }

  /** One step that neither renames `n` nor renames anything to `n` leaves `n` alone. */
  lemma RenameStepFrame(e: Rename.Entries, entries: Rename.Entries, domain: string, modId: string,
                        nameResponse: (string, string) -> Body, n: string)
    requires SameAt(e, entries, n) && modId != n
    requires RenameStep(e, domain, modId, nameResponse).1.outcome != Renamed(n)
    ensures SameAt(RenameStep(e, domain, modId, nameResponse).0, entries, n)
  {
  }

  /** The loop over one domain leaves every entry alone that is neither one of its mod IDs nor a name it renamed a folder to. */
  lemma RenameIdsFrame(entries: Rename.Entries, domain: string, modIds: seq<string>,
                       nameResponse: (string, string) -> Body, n: string)
    requires n !in modIds
    requires !RenamedTo(RenameIds(entries, domain, modIds, nameResponse).1, n)
    ensures var after := RenameIds(entries, domain, modIds, nameResponse).0;
      (n in after <==> n in entries) && (n in entries ==> after[n] == entries[n])
  {
    var step := RenameStepOf(domain, nameResponse);
    var p := (e: Rename.Entries) => SameAt(e, entries, n);
    var ok := (line: Logged) => line.modId != n && line.outcome != Renamed(n);
    forall e: Rename.Entries, modId: string
      ensures Loops.Keeps(step, p, ok, e, modId)
    {
      if p(e) && ok(step(e, modId).1) {
        RenameStepFrame(e, entries, domain, modId, nameResponse, n);
      }
    }
    var log := RenameIds(entries, domain, modIds, nameResponse).1;
    forall k | 0 <= k < |modIds|
      ensures ok(log[k])
    {
      RenameLogAt(entries, domain, modIds, nameResponse, k);
    }
    Loops.FoldPreserves(entries, modIds, step, p, ok);
  }

  /** When no rename succeeds, the domain folder is left exactly as it was. */
  lemma RenameIdsUnchanged(entries: Rename.Entries, domain: string, modIds: seq<string>,
                           nameResponse: (string, string) -> Body)
    requires forall k :: 0 <= k < |modIds| ==> !RenameIds(entries, domain, modIds, nameResponse).1[k].outcome.Renamed?
    ensures RenameIds(entries, domain, modIds, nameResponse).0 == entries
  {
    var step := RenameStepOf(domain, nameResponse);
    var p := (e: Rename.Entries) => e == entries;
    var ok := (line: Logged) => !line.outcome.Renamed?;
    forall e: Rename.Entries, modId: string
      ensures Loops.Keeps(step, p, ok, e, modId)
    {
      assert step(e, modId) == RenameStep(e, domain, modId, nameResponse);
    }
    var log := RenameIds(entries, domain, modIds, nameResponse).1;
    forall k | 0 <= k < |modIds|
      ensures ok(log[k])
    {
    }
    Loops.FoldPreserves(entries, modIds, step, p, ok);
  }

  /** The renaming loop over the mod IDs of one domain folder. */
  method RenameModFolders(entries: Rename.Entries, domain: string, modIds: seq<string>, nameResponse: (string, string) -> Body)
    returns (after: Rename.Entries, log: seq<Logged>)
    ensures (after, log) == RenameIds(entries, domain, modIds, nameResponse)
  {
    after := entries;
    log := [];
    var i := 0;
    while i < |modIds|
      invariant 0 <= i <= |modIds|
      invariant (after, log) == RenameIds(entries, domain, modIds[..i], nameResponse)
    {
      var modId := modIds[i];
      assert modIds[..i + 1] == modIds[..i] + [modId];
      Loops.FoldAppend(entries, modIds[..i], modId, RenameStepOf(domain, nameResponse));
      var raw := Rename.ExtractModName(nameResponse(domain, modId));
      if raw == [] {
        log := log + [Logged(domain, modId, NoName)];
      } else {
        var modName := Sanitize(raw);
        var renamed := RenameEntry(after, modId, modName);
        if renamed.None? {
          log := log + [Logged(domain, modId, RenameFailed(modName))];
        } else {
          after := renamed.value;
          log := log + [Logged(domain, modId, Renamed(modName))];
        }
      }
      i := i + 1;
    }
    assert modIds[..i] == modIds;
  }

  /**
   * The mods directory after the loop over the domains in `plan`, each with
   * the mod IDs listed in it, and the log of the whole sequence.
   */
  function RenameDomains(mods: Rename.Entries, plan: seq<(string, seq<string>)>, nameResponse: (string, string) -> Body)
    : (r: (Rename.Entries, seq<Logged>))
    ensures r.0.Keys == mods.Keys
    decreases |plan|
  {
    if plan == [] then (mods, [])
    else
      var prev := RenameDomains(mods, plan[..|plan| - 1], nameResponse);
      var (domain, modIds) := plan[|plan| - 1];
      if domain in prev.0 && prev.0[domain].Dir? then
        var (entries, lines) := RenameIds(prev.0[domain].children, domain, modIds, nameResponse);
        (prev.0[domain := Rename.Dir(entries)], prev.1 + lines)
      else prev
  }

  /** The sequence changes no entry of the mods directory whose name is not a domain of the plan. */
  lemma {:induction false} RenameDomainsFrame(mods: Rename.Entries, plan: seq<(string, seq<string>)>,
                                              nameResponse: (string, string) -> Body, d: string)
    requires d in mods && forall k :: 0 <= k < |plan| ==> plan[k].0 != d
    ensures RenameDomains(mods, plan, nameResponse).0[d] == mods[d]
    decreases |plan|
  {
    if plan != [] {
      RenameDomainsFrame(mods, plan[..|plan| - 1], nameResponse, d);
    }
  }

  /** Going on to one more domain of the plan. */
  lemma RenameDomainsAppend(mods: Rename.Entries, plan: seq<(string, seq<string>)>, domain: string, modIds: seq<string>,
                            nameResponse: (string, string) -> Body)
    requires var prev := RenameDomains(mods, plan, nameResponse).0; domain in prev && prev[domain].Dir?
    ensures var prev := RenameDomains(mods, plan, nameResponse);
      var next := RenameIds(prev.0[domain].children, domain, modIds, nameResponse);
      RenameDomains(mods, plan + [(domain, modIds)], nameResponse) == (prev.0[domain := Rename.Dir(next.0)], prev.1 + next.1)
  {
    assert (plan + [(domain, modIds)])[..|plan|] == plan;
  }

  /**
   * The loop body of `runRenameSequence` for one domain folder: list its mod
   * IDs, and when there are any, run the renaming loop over them.
   */
  method RenameDomain(current: Rename.Entries, domain: string, nameResponse: (string, string) -> Body)
    returns (modIds: seq<string>, next: Rename.Entries, lines: seq<Logged>)
    requires domain in current && current[domain].Dir?
    ensures Rename.IsListing(modIds, current[domain].children)
    ensures var r := RenameIds(current[domain].children, domain, modIds, nameResponse);
      next == current[domain := Rename.Dir(r.0)] && lines == r.1
  {
    var listed := Rename.SubdirectoryNames(Some(current[domain]));
    modIds := listed.value;
    if modIds == [] {
      assert current[domain := Rename.Dir(current[domain].children)] == current;
      return modIds, current, [];
    }
    var entries;
    entries, lines := RenameModFolders(current[domain].children, domain, modIds, nameResponse);
    next := current[domain := Rename.Dir(entries)];
  }

  /** What the rename sequence did: an exception ended it, or it finished with the directory's new state and the log. */
  datatype RenameRun = RenameAborted | RenameDone(after: Option<Rename.Node>, plan: seq<(string, seq<string>)>, log: seq<Logged>)

  /** Each domain of `plan` once, as listed in `mods`, each with the mod IDs listed in its folder. */
  predicate FollowsListings(plan: seq<(string, seq<string>)>, mods: Rename.Entries) {
    var domains := seq(|plan|, k requires 0 <= k < |plan| => plan[k].0);
    && Rename.IsListing(domains, mods)
    && forall k :: 0 <= k < |plan| ==>
         plan[k].0 in mods && mods[plan[k].0].Dir? && Rename.IsListing(plan[k].1, mods[plan[k].0].children)
  }

  /**
   * `runRenameSequence` over the mods directory `modsDir`; `nameResponse`
   * is the mod-info answer for a (domain, mod ID) pair. A mods directory
   * that is a plain file makes `directory_iterator` throw; one that does
   * not exist, or holds no domain folder, ends the sequence at once.
   */
  method RunRenameSequence(modsDir: Option<Rename.Node>, nameResponse: (string, string) -> Body) returns (run: RenameRun)
    ensures run.RenameAborted? <==> modsDir.Some? && modsDir.value.File?
    ensures modsDir.None? ==> run == RenameDone(None, [], [])
    ensures modsDir.Some? && modsDir.value.Dir? ==>
              && run.RenameDone?
              && FollowsListings(run.plan, modsDir.value.children)
              && run.after == Some(Rename.Dir(RenameDomains(modsDir.value.children, run.plan, nameResponse).0))
              && run.log == RenameDomains(modsDir.value.children, run.plan, nameResponse).1
  {
    var gameDomains := Rename.SubdirectoryNames(modsDir);
    if gameDomains.None? {
      return RenameAborted;
    }
    if gameDomains.value == [] {
      return RenameDone(modsDir, [], []);
    }
    var current, plan, log := RenameAllDomains(modsDir.value.children, gameDomains.value, nameResponse);
    return RenameDone(Some(Rename.Dir(current)), plan, log);
  }

  /** The domain loop of `runRenameSequence`, over the listed domain folders. */
  method RenameAllDomains(mods: Rename.Entries, domains: seq<string>, nameResponse: (string, string) -> Body)
    returns (current: Rename.Entries, plan: seq<(string, seq<string>)>, log: seq<Logged>)
    requires Rename.IsListing(domains, mods)
    ensures FollowsListings(plan, mods)
    ensures (current, log) == RenameDomains(mods, plan, nameResponse)
  {
    current := mods;
    plan := [];
    log := [];
    var i := 0;
    while i < |domains|
      invariant 0 <= i <= |domains| && |plan| == i
      invariant forall k :: 0 <= k < i ==> plan[k].0 == domains[k]
      invariant forall k :: 0 <= k < i ==> Rename.IsListing(plan[k].1, mods[plan[k].0].children)
      invariant (current, log) == RenameDomains(mods, plan, nameResponse)
      invariant forall k :: i <= k < |domains| ==> current[domains[k]] == mods[domains[k]]
    {
      var domain := domains[i];
      var modIds, next, lines := RenameDomain(current, domain, nameResponse);
      RenameDomainsAppend(mods, plan, domain, modIds, nameResponse);
      assert forall k :: i < k < |domains| ==> domains[k] != domain;
      plan := plan + [(domain, modIds)];
      current, log := next, log + lines;
      i := i + 1;
    }
    assert seq(|plan|, k requires 0 <= k < |plan| => plan[k].0) == domains;
  }
}
