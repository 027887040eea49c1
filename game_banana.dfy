/**
 * The GameBanana side: reading a member's subscriptions and a mod's file
 * list out of API answers, and naming the files a mod's download writes.
 * `httpGet` hands back the body whatever the status, so each answer is a
 * `Body`; a body that does not parse, and a `get<std::string>()` on a value
 * that is not a string, throw exceptions nothing catches.
 */
module GameBanana {
  import opened Wrappers
  import opened Json
  import opened ItemScan
  import opened Text
  import opened FileNames

  /** A list read out of an answer, or the uncaught exception that ended the program. */
  datatype Fetch<T> = Fetched(values: seq<T>) | Aborted

  const ModsMarker: string := "/mods/"
  const DefaultFileName: string := "downloaded_file"

  /** `extractModId`: what follows the first "/mods/" of a profile URL, or "" without one. */
  function ExtractModId(profileUrl: string): (modId: string)
    ensures (forall k: nat :: k <= |profileUrl| ==> !OccursAt(profileUrl, ModsMarker, k)) ==> modId == []
    ensures forall k: nat :: OccursAt(profileUrl, ModsMarker, k) && (forall j :: 0 <= j < k ==> !OccursAt(profileUrl, ModsMarker, j)) ==>
              modId == profileUrl[k + |ModsMarker|..]
  {
    match Find(profileUrl, ModsMarker)
    case Some(pos) => profileUrl[pos + |ModsMarker|..]
    case None => []
  }

  /**
   * `extractFileName`: what follows the last '/' of a download URL, or
   * "downloaded_file" when there is no '/' or nothing follows the last one.
   * Either way a non-empty name without a '/'.
   */
  function ExtractFileName(downloadUrl: string): (name: string)
    ensures name != [] && '/' !in name
    ensures ('/' !in downloadUrl || downloadUrl[|downloadUrl| - 1] == '/') ==> name == DefaultFileName
    ensures forall k :: 0 <= k < |downloadUrl| - 1 && downloadUrl[k] == '/' && (forall j :: k < j < |downloadUrl| ==> downloadUrl[j] != '/') ==>
              name == downloadUrl[k + 1..]
  {
    match LastIndexOf(downloadUrl, '/')
    case Some(pos) => if pos + 1 < |downloadUrl| then downloadUrl[pos + 1..] else DefaultFileName
    case None => DefaultFileName
  }

  // ---------------------------------------------------------------------
  // fetchSubscribedMods
  // ---------------------------------------------------------------------

  /**
   * The body of the subscription loop for one record: keep (profile URL,
   * name) of a subscription titled "Mod" that has both fields, skip every
   * other record, throw when a kept field is not a string.
   */
  function RecordStep(record: Json): Step<(string, string)> {
    if !Contains(record, "_aSubscription") then Skip
    else
      var sub := Member(record, "_aSubscription").value;
      if Member(sub, "_sSingularTitle") == Some(JStr("Mod")) && Contains(sub, "_sProfileUrl") && Contains(sub, "_sName") then
        var url := AsString(Member(sub, "_sProfileUrl").value);
        var name := AsString(Member(sub, "_sName").value);
        if url.Some? && name.Some? then Emit((url.value, name.value)) else Throw
      else Skip
  }

  /** A record is a subscription to a mod with this profile URL and name. */
  predicate IsModSubscription(record: Json, url: string, name: string) {
    && Contains(record, "_aSubscription")
    && var sub := Member(record, "_aSubscription").value;
       && Member(sub, "_sSingularTitle") == Some(JStr("Mod"))
       && Member(sub, "_sProfileUrl") == Some(JStr(url))
       && Member(sub, "_sName") == Some(JStr(name))
  }

  /** A record is kept exactly when it is a mod subscription, and it is kept as its URL and name. */
  lemma RecordStepKeeps(record: Json, url: string, name: string)
    ensures RecordStep(record) == Emit((url, name)) <==> IsModSubscription(record, url, name)
  {
  }

  /** The subscriptions `fetchSubscribedMods` returns, from the body of the subscriptions answer. */
  function SubscribedMods(body: Body): Fetch<(string, string)> {
    match body
    case NoBody => Fetched([])
    case Unparseable => Aborted
    case Parsed(subs) =>
      if !Contains(subs, "_aRecords") then Fetched([])
      else
        var scanned := Scan(Items(Member(subs, "_aRecords").value), RecordStep);
        if scanned.complete then Fetched(scanned.values) else Aborted
  }

  method FetchSubscribedMods(body: Body) returns (mods: Fetch<(string, string)>)
    ensures mods == SubscribedMods(body)
  {
    match body
    case NoBody => return Fetched([]);
    case Unparseable => return Aborted;
    case Parsed(subs) =>
      if !Contains(subs, "_aRecords") {
        return Fetched([]);
      }
      var values, complete := ScanItems(Items(Member(subs, "_aRecords").value), RecordStep);
      mods := if complete then Fetched(values) else Aborted;
  }

  /**
   * An empty body or one without "_aRecords" lists no mods; a body that
   * does not parse, or a kept record with a non-string field, ends the
   * program; otherwise the mod subscriptions are listed in record order.
   */
  lemma SubscribedModsCases(body: Body)
    ensures (body.NoBody? || (body.Parsed? && !Contains(body.value, "_aRecords"))) ==> SubscribedMods(body) == Fetched([])
    ensures SubscribedMods(body).Aborted? <==>
              body.Unparseable? ||
              (body.Parsed? && Contains(body.value, "_aRecords") &&
               !NoThrow(Items(Member(body.value, "_aRecords").value), RecordStep))
    ensures (body.Parsed? && Contains(body.value, "_aRecords") &&
             NoThrow(Items(Member(body.value, "_aRecords").value), RecordStep)) ==>
              SubscribedMods(body) == Fetched(Emitted(Items(Member(body.value, "_aRecords").value), RecordStep))
  {
    if body.Parsed? && Contains(body.value, "_aRecords") {
      var records := Items(Member(body.value, "_aRecords").value);
      ScanCompleteIff(records, RecordStep);
      if NoThrow(records, RecordStep) {
        ScanWithoutThrow(records, RecordStep);
      }
    }
  }

  // ---------------------------------------------------------------------
  // fetchModFileUrls
  // ---------------------------------------------------------------------

  /** Push the "_sDownloadUrl" of a file entry that has one; throw when it is not a string. */
  function FileUrlStep(entry: Json): Step<string> {
    match Member(entry, "_sDownloadUrl")
    case None => Skip
    case Some(v) => if v.JStr? then Emit(v.s) else Throw
  }

  /** The download URLs `fetchModFileUrls` returns, from the body of the mod's file-list answer. */
  function ModFileUrls(body: Body): Fetch<string> {
    match body
    case NoBody => Fetched([])
    case Unparseable => Aborted
    case Parsed(files) =>
      if !Contains(files, "_aFiles") then Fetched([])
      else
        var scanned := Scan(Items(Member(files, "_aFiles").value), FileUrlStep);
        if scanned.complete then Fetched(scanned.values) else Aborted
  }

  method FetchModFileUrls(body: Body) returns (urls: Fetch<string>)
    ensures urls == ModFileUrls(body)
  {
    match body
    case NoBody => return Fetched([]);
    case Unparseable => return Aborted;
    case Parsed(files) =>
      if !Contains(files, "_aFiles") {
        return Fetched([]);
      }
      var values, complete := ScanItems(Items(Member(files, "_aFiles").value), FileUrlStep);
      urls := if complete then Fetched(values) else Aborted;
  }

  /**
   * An empty body or one without "_aFiles" lists no URLs; when every
   * "_sDownloadUrl" present is a string, the URLs are exactly those, in
   * entry order; a body that does not parse or a non-string URL ends the
   * program.
   */
  lemma ModFileUrlsCases(body: Body)
    ensures (body.NoBody? || (body.Parsed? && !Contains(body.value, "_aFiles"))) ==> ModFileUrls(body) == Fetched([])
    ensures ModFileUrls(body).Aborted? <==>
              body.Unparseable? ||
              (body.Parsed? && Contains(body.value, "_aFiles") &&
               !NoThrow(Items(Member(body.value, "_aFiles").value), FileUrlStep))
    ensures (body.Parsed? && Contains(body.value, "_aFiles") &&
             NoThrow(Items(Member(body.value, "_aFiles").value), FileUrlStep)) ==>
              ModFileUrls(body) == Fetched(Emitted(Items(Member(body.value, "_aFiles").value), FileUrlStep))
  {
    if body.Parsed? && Contains(body.value, "_aFiles") {
      var entries := Items(Member(body.value, "_aFiles").value);
      ScanCompleteIff(entries, FileUrlStep);
      if NoThrow(entries, FileUrlStep) {
        ScanWithoutThrow(entries, FileUrlStep);
      }
    }
  }

  // ---------------------------------------------------------------------
  // downloadModFiles
  // ---------------------------------------------------------------------

  /** The folder a mod's files go to: the sanitised mod name under the base directory. */
  function ModFolder(baseDir: string, modName: string): string {
    baseDir + "/" + Sanitized(modName)
  }

  /** The name of the `k`-th file (counting from 1) inside its folder: `<k>_<file name>`. */
  function NumberedName(k: nat, url: string): string {
    ShowNat(k) + "_" + ExtractFileName(url)
  }

  /** The path of the `k`-th file: `<folder>/<k>_<file name>`. */
  function OutputPath(folder: string, k: nat, url: string): string {
    folder + "/" + NumberedName(k, url)
  }

  /**
   * `downloadModFiles`: the mod's folder, and each listed URL with the
   * path its file is written to, numbered from 1 in list order. The
   * transfers' own success is not looked at by the source. `filesBody`
   * is the file-list answer the server gives for each mod ID.
   */
  method DownloadModFiles(modId: string, modName: string, baseDir: string, filesBody: string -> Body)
    returns (folder: string, outputs: Fetch<(string, string)>)
    ensures folder == ModFolder(baseDir, modName)
    ensures outputs.Aborted? <==> ModFileUrls(filesBody(modId)).Aborted?
    ensures outputs.Fetched? ==>
              var urls := ModFileUrls(filesBody(modId)).values;
              |outputs.values| == |urls| &&
              forall k :: 0 <= k < |outputs.values| ==> outputs.values[k] == (urls[k], OutputPath(folder, k + 1, urls[k]))
  {
    var name := Sanitize(modName);
    folder := baseDir + "/" + name;
    var urls := FetchModFileUrls(filesBody(modId));
    if urls.Aborted? {
      return folder, Aborted;
    }
    var written := NumberOutputs(folder, urls.values);
    outputs := Fetched(written);
  }

  /** The counting loop of `downloadModFiles`: pair each URL with its numbered output path. */
  method NumberOutputs(folder: string, urls: seq<string>) returns (written: seq<(string, string)>)
    ensures |written| == |urls|
    ensures forall k :: 0 <= k < |urls| ==> written[k] == (urls[k], OutputPath(folder, k + 1, urls[k]))
  {
    written := [];
    var fileCount: nat := 0;
    while fileCount < |urls|
      invariant fileCount <= |urls| && |written| == fileCount
      invariant forall k :: 0 <= k < fileCount ==> written[k] == (urls[k], OutputPath(folder, k + 1, urls[k]))
    {
      var url := urls[fileCount];
      fileCount := fileCount + 1;
      var outputPath := folder + "/" + (ShowNat(fileCount) + "_" + ExtractFileName(url));
      written := written + [(url, outputPath)];
    }
  }

  /** Digits followed by '_' fix where the digits end. */
  lemma DigitsBeforeUnderscore(a: string, x: string, b: string, y: string)
    requires AllDigits(a) && AllDigits(b)
    requires a + "_" + x == b + "_" + y
    ensures a == b
  {
    var s := a + "_" + x;
    forall j | 0 <= j < |a| ensures s[j] != '_' {
      assert s[j] == a[j];
    }
    forall j | 0 <= j < |b| ensures s[j] != '_' {
      assert s[j] == (b + "_" + y)[j] == b[j];
    }
    assert s[|a|] == '_';
    assert s[|b|] == (b + "_" + y)[|b|] == '_';
    FirstIndexAt(s, '_', |a|);
    FirstIndexAt(s, '_', |b|);
    assert a == s[..|a|];
    assert b == (b + "_" + y)[..|b|];
  }

  /**
   * The files of one mod never collide: distinct positions in the list get
   * distinct paths, whatever their URLs; and each lies directly inside the
   * mod's folder.
   */
  lemma OutputPathsDistinct(folder: string, j: nat, k: nat, u: string, v: string)
    requires j != k
    ensures OutputPath(folder, j, u) != OutputPath(folder, k, v)
  {
    var p := folder + "/";
    var a, b := NumberedName(j, u), NumberedName(k, v);
    if a == b {
      DigitsBeforeUnderscore(ShowNat(j), ExtractFileName(u), ShowNat(k), ExtractFileName(v));
      ShowNatInjective(j, k);
    }
    assert (p + a)[|p|..] == a && (p + b)[|p|..] == b;
  }

  /** Each output path is the folder, a '/', and a file name without a '/'. */
  lemma OutputPathInFolder(folder: string, k: nat, url: string)
    ensures var name := OutputPath(folder, k, url)[|folder| + 1..];
      OutputPath(folder, k, url) == folder + "/" + name && name != [] && '/' !in name
  {
    var name := NumberedName(k, url);
    DigitsExclude(ShowNat(k), '/');
    assert '/' !in name;
    assert (folder + "/" + name)[|folder| + 1..] == name;
  }

  /**
   * The mod folder is the base directory, a '/', and one path segment: the
   * mod name cannot reach deeper or elsewhere. That segment is "", "." or
   * "..", so that the folder is the base directory itself or its parent,
   * exactly when the mod name is one of these; the source does not guard
   * against it.
   */
  lemma ModFolderSegment(baseDir: string, modName: string)
    ensures ModFolder(baseDir, modName)[..|baseDir| + 1] == baseDir + "/"
    ensures '/' !in ModFolder(baseDir, modName)[|baseDir| + 1..]
    ensures ModFolder(baseDir, modName)[|baseDir| + 1..] in {"", ".", ".."} <==> modName in {"", ".", ".."}
  {
    var seg := Sanitized(modName);
    assert ModFolder(baseDir, modName)[|baseDir| + 1..] == seg;
    SanitizedChars(modName);
    if |modName| <= 2 && forall i :: 0 <= i < |seg| ==> seg[i] == '.' {
      assert forall i :: 0 <= i < |modName| ==> modName[i] == seg[i];
      assert modName == seg;
    }
  }
}
