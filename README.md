# Modular: a verified model of the mod-download rules

Modular is a command-line mod manager with three menu actions:

- It downloads every mod a GameBanana member has subscribed to.
- It runs the NexusMods pipeline for a list of game domains. The pipeline goes from tracked mods to file IDs, then to download links, then to a `download_links.txt` file, and finally downloads the files with retries.
- It renames the downloaded mod folders from their numeric IDs to the mods' names.

This project models the deterministic rules underneath those actions and proves what they promise. The network, libcurl, the JSON parser and the filesystem are outside the model. In their place:

- **Remote answers are parameters.** Each is a function from the request (a mod ID, a `(mod, file)` pair, a `(domain, mod ID)` pair) to the answer. A NexusMods answer is a status code plus a body. A GameBanana answer is a body only, because `httpGet` ignores the status.
- **Bodies arrive already parsed.** A body is empty, unparseable, or a value of a small JSON datatype (`Json.Json`). Objects keep their members in iteration order.
- **Download attempts are an input sequence.** The outcome of each curl attempt is a function from the attempt number to `InitFailed`, `OpenFailed` or `Transfer(curlOk, httpCode)`.
- **A directory tree is a value.** It is a `Rename.Node`: a file with its content, or a map from entry name to node. A filesystem call that would throw gives `None`, or an aborted result.

Module layout follows the source files:

| module | models |
|---|---|
| `Json`, `Wrappers` | parsed answers, `Option` |
| `ItemScan` | the loop shared by every "for each JSON item / line, push or skip, may throw" loop |
| `Loops` | two loop shapes stated once for any element type: a loop that maps each element and its position, and a loop that threads a state through the elements and logs one line per element |
| `Text`, `Tokens`, `Ordering` | digits and `std::stoi`, string search, splitting into lines and words, the order of `std::map` keys |
| `NexusApi` | `escape_spaces`, `get_tracked_mods`, `get_file_ids`, `generate_download_links` |
| `LinkStore` | the file written by `save_download_links` and read by `download_files` |
| `Downloader` | `download_files`: line parsing, file-name derivation, `download_with_retries` |
| `FileNames` | `sanitizeFileName` and `sanitizeFilename` (the same rule) |
| `GameBanana` | `extractModId`, `extractFileName`, `fetchSubscribedMods`, `fetchModFileUrls`, `downloadModFiles` |
| `Rename` | `getGameDomainNames`, `getModIDs`, `extractModName`, `combineDirectories` |
| `MainProgram` | domain collection in menu case 2, the GameBanana download loop, `runRenameSequence` |

Loops in the source become methods with loop invariants. Each such method is proved equal to a specification function, and the properties are lemmas about that function. Examples:

- `EscapeSpaces` against `EscapedSpaces`;
- `SaveDownloadLinks` against `SavedText`;
- `DownloadWithRetries` against `Retry`;
- `RenameModFolders` against `RenameIds`.

The specification functions also have independent partners:

- an inverse (`UnescapeSpaces`, reading the saved file back, `Split` of `Separated`);
- a reference definition (`Overlay` for the merge).

## Model

| member | source | states |
|---|---|---|
| ItemScan.ScanItems | src/NexusMods.cpp:103-107 | the item loop produces `Scan(items, step)`: the values pushed, and whether it got through without an exception |
| ItemScan.ScanWithoutThrow | src/NexusMods.cpp:103-107 | without an exception the loop completes with the value of every item that pushes one, in order |
| ItemScan.ScanStopsAtFirstThrow | src/NexusMods.cpp:103-121 | the first item that throws ends the loop; the values pushed before it are kept |
| ItemScan.ScanCompleteIff | src/NexusMods.cpp:103-121 | the loop completes exactly when no item throws |
| ItemScan.EmittedLength | src/NexusMods.cpp:103-107 | no item pushes more than one value |
| ItemScan.ScanValuesEmitted | src/NexusMods.cpp:103-107 | every value the loop pushes is the value some item pushes |
| Json.AsInt | src/NexusMods.cpp:105 | `get<int>` succeeds exactly on numbers and booleans; a boolean gives 1 or 0; a number gives the one `int` congruent to it modulo 2^32, which is the number itself when it fits |
| Text.Wrap32 | src/NexusMods.cpp:105 | the cast to `int` gives a 32-bit value congruent to its argument modulo 2^32, and keeps a value that already fits |
| Ordering.MinPairExists | src/NexusMods.cpp:192 | a non-empty set of `(mod, file)` keys has a least key in the lexicographic order of `std::pair` |
| Ordering.SortedPairs | src/NexusMods.cpp:264 | the keys of a map in strictly ascending order, each once: the order a `std::map` is walked in |
| Ordering.AscendingUnique | src/NexusMods.cpp:264 | two strictly ascending sequences of the same keys are equal, so that walk order is unique |
| NexusApi.EscapeSpaces | src/NexusMods.cpp:66-78 | the character loop builds exactly `EscapedSpaces(url)`: each space replaced by `%20`, everything else copied in order |
| NexusApi.EscapedAppend | src/NexusMods.cpp:70-76 | escaping works character by character: escaping a concatenation is concatenating the escapes |
| NexusApi.EscapedHasNoSpace | src/NexusMods.cpp:66-78 | the escaped URL holds no space, and its length is the input length plus two per space |
| NexusApi.EscapedWithoutSpaces | src/NexusMods.cpp:66-78 | a URL without spaces is returned unchanged |
| NexusApi.UnescapeEscaped | src/NexusMods.cpp:66-78 | for a URL without `%`, replacing each `%20` by a space undoes the escaping, so no information is lost |
| NexusApi.IntFieldStepOf | src/NexusMods.cpp:104-106 | a record with the key pushes its value converted by `get<int>`: 1 or 0 for a boolean, the number itself when it fits, a congruent `int` otherwise; any other value throws |
| NexusApi.ScannedIdsInt32 | src/NexusMods.cpp:103-107 | a loop whose pushes are `int`s yields only `int`s |
| NexusApi.TrackedModIdsInt32 | src/NexusMods.cpp:97-127 | every tracked mod ID is in the 32-bit range, whatever numbers the answer holds |
| NexusApi.GetTrackedMods | src/NexusMods.cpp:97-127 | the loops over the tracked-mods answer produce `TrackedModIds(resp)`, including the IDs pushed before a `get<int>` type error, which the catch keeps; every ID is in the 32-bit range |
| NexusApi.TrackedModIdsShapes | src/NexusMods.cpp:98-125 | the answer shapes: a non-200 status or an unparseable body gives no IDs; an array whose `mod_id` fields are all numbers or booleans gives the converted `mod_id` of each element that has one, in order; an object with `mods` does the same for that list; any other value gives none |
| NexusApi.TrackedModIdsKeepPrefix | src/NexusMods.cpp:103-121 | when the e-th record is the first whose `mod_id` is neither a number nor a boolean, the result is exactly the IDs of the records before it |
| NexusApi.FileIdsOfInt32 | src/NexusMods.cpp:150-174 | every stored file ID is in the 32-bit range |
| NexusApi.GetFileIds | src/NexusMods.cpp:133-181 | every requested mod ID is a key of the result and nothing else is; each value is `FileIdsOf` of that mod's answer, and every file ID in it is in the 32-bit range |
| NexusApi.FileIdsOfCases | src/NexusMods.cpp:150-174 | a mod's file list is empty on a non-200 status, on a parse error, without `files`, or when some `file_id` is neither a number nor a boolean (the catch sets `{}`); otherwise it is the converted `file_id` of each entry that has one, in order |
| NexusApi.LinkOfExactly | src/NexusMods.cpp:207-214 | a link is stored exactly when the status is 200, the body is a non-empty array, its first element has a string `URI`, and that string is the link |
| NexusApi.GenerateDownloadLinks | src/NexusMods.cpp:186-240 | `(m, f)` is a key exactly when `m` is a key of the file-ID map, `f` is one of its file IDs, and the answer for `(m, f)` holds a link; the stored value is that link |
| NexusApi.AddModLinks | src/NexusMods.cpp:193-236 | the inner loop stores a link for exactly those file IDs of the mod whose answers hold one, and leaves every other entry as it was |
| NexusApi.PickKey | src/NexusMods.cpp:192 | the outer loop visits the least remaining key first, as `std::map` iterates |
| LinkStore.SaveDownloadLinks | src/NexusMods.cpp:245-272 | when the file opens, it receives `SavedText(links)`: one `mod,file,url` line per entry, in ascending `(mod, file)` order; when it does not open, nothing is written |
| LinkStore.SavedLineAt | src/NexusMods.cpp:264-268 | the i-th line written is the line of the i-th key: `ShowInt(m) + "," + ShowInt(f) + "," + url` |
| LinkStore.SavedLinesAppend | src/NexusMods.cpp:264-268 | each further entry of the walk adds exactly its own line at the end |
| LinkStore.RecordAt | src/NexusMods.cpp:264-268 | the i-th record expected back is the entry of the i-th key, with its URL |
| LinkStore.FileLines | src/NexusMods.cpp:290-299 | the lines `download_files` keeps are non-empty and have no newline |
| LinkStore.ParseFields | src/NexusMods.cpp:363-365 | a line is taken apart only when it is `a + "," + b + "," + url` with no comma in `a` or `b` and a non-empty `url`; the URL keeps any further commas |
| LinkStore.ParseFieldsOf | src/NexusMods.cpp:363-365 | every such line is taken apart into exactly those three fields |
| LinkStore.LineStepFields | src/NexusMods.cpp:365-367 | a line with two commas and a non-empty URL whose first two fields `stoi` reads yields the record of those values and that URL |
| LinkStore.LineStepOf | src/NexusMods.cpp:365-367 | a written line with 32-bit IDs and a non-empty URL is read back as the same record, without an exception |
| LinkStore.ReadBackRecords | src/NexusMods.cpp:264-268 | reading a saved map yields the records of its keys, in ascending order, and completes |
| LinkStore.SavedLinksReadBack | src/NexusMods.cpp:264-268 | the save/load round trip: for 32-bit IDs and newline-free, non-empty URLs, loading the saved file completes and yields each entry exactly once, with its URL, in ascending key order |
| LinkStore.RecordsOfAscendingKeys | src/NexusMods.cpp:264 | records taken in strictly ascending key order hold every entry exactly once |
| Text.Stoi | src/NexusMods.cpp:366-367 | `std::stoi` succeeds only with a value in the 32-bit range |
| Text.StoiShowInt | src/NexusMods.cpp:366-367 | `stoi` reads back any 32-bit integer as written by `<<`, whatever non-digit text follows it |
| Text.StoiOfShowInt | src/NexusMods.cpp:366-367 | `stoi` reads back any 32-bit integer written on its own |
| Text.StoiNonNegative | src/NexusMods.cpp:366-367 | digits in the `int` range followed by a non-digit are read as their value |
| Text.StoiNegative | src/NexusMods.cpp:366-367 | a `-` and digits followed by a non-digit are read as the negated value, down to the least `int` |
| Text.ShowIntChars | src/NexusMods.cpp:267 | a written integer is digits, after a leading `-` when it is negative |
| Text.ShowIntOmits | src/NexusMods.cpp:267 | a written integer holds no comma, newline, `/` or `?` |
| Text.ShowNatInjective | src/GameBanana.cpp:145-147 | distinct counters print differently |
| Downloader.AfterLastSlash | src/NexusMods.cpp:374-377 | what is taken after the last `/` holds no `/` |
| Downloader.BeforeQuery | src/NexusMods.cpp:379-382 | what is kept before the first `?` is a prefix and holds no `?` |
| Downloader.FallbackName | src/NexusMods.cpp:383-388 | the fallback name is non-empty and holds neither `/` nor `?` |
| Downloader.DerivedFileName | src/NexusMods.cpp:371-389 | the derived file name is never empty and holds neither `/` nor `?` |
| Downloader.AfterLastSlashOf | src/NexusMods.cpp:374-377 | after `dir/rest` with no `/` in `rest`, what is taken is `rest` |
| Downloader.BeforeQueryOf | src/NexusMods.cpp:379-382 | cutting at the first `?` removes exactly a query that starts with `?` |
| Downloader.DerivedNameOf | src/NexusMods.cpp:374-382 | for a URL `dir/name` followed by nothing or by a `?` query, the name is `name` |
| Downloader.DerivedNameDots | src/NexusMods.cpp:374-382 | a URL ending in `/.` or `/..` gives the name `.` or `..`: the path then names the mod's directory or its parent |
| Downloader.DerivedNameFallback | src/NexusMods.cpp:375-388 | without a `/`, or with the `/` last, the name is `mod_{m}_file_{f}.zip` |
| Downloader.DownloadWithRetries | src/NexusMods.cpp:302-359 | requests the space-escaped URL, and its trace of attempts and sleeps and its result are `Retry(outcome)` |
| Downloader.RetryResults | src/NexusMods.cpp:308-357 | the result is `Downloaded(i)` exactly when attempts before `i` failed and attempt `i < 5` succeeded; `GaveUp` exactly when all five attempts failed; `Abandoned` exactly when a curl init or `fopen` failure came first |
| Downloader.RetryDownloadedFrom | src/NexusMods.cpp:308-357 | the `Downloaded` case above, from any attempt on |
| Downloader.RetryGaveUpFrom | src/NexusMods.cpp:349-356 | the `GaveUp` case above, from any attempt on |
| Downloader.RetryAbandonedFrom | src/NexusMods.cpp:312-324 | the `Abandoned` case above, from any attempt on |
| Downloader.RetryTrace | src/NexusMods.cpp:304-356 | the trace alternates attempt, 5-second sleep, attempt; it has at most 5 attempts and 4 sleeps; `Downloaded(i)` means exactly `i` sleeps; `GaveUp` means all 5 attempts and 4 sleeps; an `Abandoned` trace ends with the attempt whose curl handle or output file failed; no sleep follows the last attempt |
| Downloader.RetryTraceFrom | src/NexusMods.cpp:304-356 | the same trace shape, from any attempt on |
| Downloader.RetryFromFailed | src/NexusMods.cpp:349-356 | a failed transfer is logged, followed by its pause and whatever the next attempt does, and the result is the next attempt's |
| Downloader.FailedThenPause | src/NexusMods.cpp:349-356 | a failed transfer that is not the last is followed by a 5-second sleep |
| Downloader.RetryEndsAt | src/NexusMods.cpp:312-356 | a curl-init or `fopen` failure, a success, or a failure of the last attempt ends the run after that one attempt |
| Downloader.AlternatesCons | src/NexusMods.cpp:349-356 | an attempt and a sleep in front of an alternating trace keep it alternating |
| Downloader.ShapeAfterPause | src/NexusMods.cpp:349-356 | the length, bound and alternation of a run carry over from the next attempt on to an attempt and a pause in front of it |
| Downloader.RetrySplitFrom | src/NexusMods.cpp:306-356 | after failed transfers `from` to `n - 1`, the run from `from` is their attempts and pauses followed by the run from attempt `n`, with the same result |
| Downloader.RetrySplit | src/NexusMods.cpp:306-356 | the same split for the whole loop: the state the loop reaches after `n` failed transfers |
| Downloader.Planned | src/NexusMods.cpp:371-396 | a record keeps its IDs and URL and is downloaded into the folder named by its decimal mod ID; its file name is non-empty and has no `/` or `?`, so the file cannot land in a directory below that folder |
| Downloader.DownloadRecord | src/NexusMods.cpp:366-402 | one record's report is `Expected`: the planned target, the space-escaped URL requested, and the retry run of its own attempt outcomes |
| Downloader.DownloadFiles | src/NexusMods.cpp:277-405 | a missing file does nothing; otherwise one report per record read from the file, in order; the loop completes exactly when no ID made `stoi` throw |
| Downloader.DownloadEach | src/NexusMods.cpp:362-404 | the line loop: skips lines that do not parse, stops at the first exception, and reports each record with its own attempt outcomes |
| Tokens.SplitLoop | src/NexusMods.cpp:290-299 | the character loop produces exactly the non-empty separator-free pieces of the text |
| Tokens.SplitTerminated | src/NexusMods.cpp:267 | non-empty newline-free lines, each written with a `\n` after it, are read back as the same lines |
| Tokens.SplitSeparated | src/main.cpp:291-295 | non-empty space-free words joined by single spaces are read back as the same words |
| Tokens.SplitEmpty | src/main.cpp:293-299 | nothing is read exactly when the text is all separators |
| FileNames.Sanitize | src/main.cpp:16-25 | the in-place loop produces `Sanitized(name)` |
| FileNames.SanitizedChars | src/main.cpp:19-22 | the length is kept; a character changes exactly when it is one of `/ \ : * ? " < > \|`, and then it becomes `_`; none of the nine remains |
| FileNames.SanitizedClean | src/GameBanana.cpp:76-85 | a name without the nine characters is returned unchanged |
| FileNames.SanitizedIdempotent | src/GameBanana.cpp:76-85 | sanitising twice is sanitising once |
| GameBanana.ExtractModId | src/GameBanana.cpp:87-92 | the text after the first `/mods/`, or `""` when there is none |
| GameBanana.ExtractFileName | src/GameBanana.cpp:94-98 | the text after the last `/` when something follows it, otherwise `downloaded_file`; never empty, never holds `/` |
| GameBanana.RecordStepKeeps | src/GameBanana.cpp:111-117 | a record is kept exactly when it has `_aSubscription` whose `_sSingularTitle` is `"Mod"` and which has `_sProfileUrl` and `_sName`, and it gives that (URL, name) pair |
| GameBanana.SubscribedModsCases | src/GameBanana.cpp:100-120 | an empty answer or one without `_aRecords` gives no mods; an unparseable answer aborts; otherwise the kept records in order, aborting at the first kept field that is not a string |
| GameBanana.FetchSubscribedMods | src/GameBanana.cpp:100-120 | the loop produces `SubscribedMods(body)` |
| GameBanana.ModFileUrlsCases | src/GameBanana.cpp:122-138 | an empty answer or one without `_aFiles` gives no URLs; an unparseable answer aborts; otherwise the `_sDownloadUrl` of each entry that has one, in order |
| GameBanana.FetchModFileUrls | src/GameBanana.cpp:122-138 | the loop produces `ModFileUrls(body)` |
| GameBanana.DownloadModFiles | src/GameBanana.cpp:140-150 | the folder is `baseDir/` plus the sanitised name; the file list is the answer for this mod's ID; the k-th URL, counting from 1, is written to `folder/{k}_` plus its extracted file name |
| GameBanana.NumberOutputs | src/GameBanana.cpp:144-148 | the counter loop pairs each URL with its numbered path |
| GameBanana.OutputPathsDistinct | src/GameBanana.cpp:145-147 | different counters give different output paths, whatever the URLs |
| GameBanana.OutputPathInFolder | src/GameBanana.cpp:145-147 | each output path is a direct child of the mod folder |
| GameBanana.ModFolderSegment | src/GameBanana.cpp:142 | the mod folder is the base directory, a `/` and one segment without `/`; that segment is empty, `.` or `..` (the base directory itself or its parent) exactly when the mod name is |
| Rename.SubdirectoryNames | src/Rename.cpp:18-50 | a missing folder gives an empty list; a plain file throws; otherwise each sub-directory name is listed exactly once, and no other entry is |
| Rename.ListingsAgree | src/Rename.cpp:27-31 | two listings of the same folder differ at most in order |
| Rename.ExtractModName | src/Rename.cpp:92-103 | the result is the string `name` of a parsed answer, and a non-empty result comes from there |
| Rename.ExtractModNameEmpty | src/Rename.cpp:92-103 | no name is found exactly when the answer is empty, does not parse, has no `name`, has a `name` that is not a string, or has an empty one |
| Rename.CombineInto | src/Rename.cpp:105-121 | a successful merge into a directory has the entry names of the target and the source together |
| Rename.Overlay | src/Rename.cpp:105-121 | the reference merge has the entry names of the target and the source together |
| Rename.CombineIntoOverlay | src/Rename.cpp:105-121 | without file/directory clashes, `combineDirectories` succeeds and is exactly the overlay |
| Rename.CombineIntoMissing | src/Rename.cpp:107-109 | merging into a target that does not exist always succeeds and creates a copy of the source |
| Rename.OverlayHasSourceFiles | src/Rename.cpp:116-118 | every source file is at the same path in the result, with the source's content |
| Rename.OverlayHasSourceDirs | src/Rename.cpp:107-115 | every source directory is a directory at the same path in the result |
| Rename.OverlayKeepsTargetFiles | src/Rename.cpp:105-121 | a target file at a path the source does not have is unchanged, given no clashes |
| Rename.OverlayFilesFromInputs | src/Rename.cpp:105-121 | the result holds no other files: each comes from the source or, where the source has nothing, from the target |
| Rename.DirectoryOntoFileFails | src/Rename.cpp:107-115 | a non-empty source directory whose name is a plain file in the target makes the merge throw |
| Rename.FileOntoDirectoryLandsInside | src/Rename.cpp:116-118 | a source file whose name is a directory in the target is copied into that directory under its own name |
| MainProgram.CollectDomains | src/main.cpp:268-302 | the argument loop and the line split produce `Domains(argv, line)` |
| MainProgram.DomainsFromArguments | src/main.cpp:280-282 | the command-line arguments from `argv[2]` on are the domains, in order, and the line is not consulted; `argv[1]` is skipped whatever it holds |
| MainProgram.DomainsFromTypedLine | src/main.cpp:285-296 | without arguments, domains typed on the line with single spaces between them are the domains |
| MainProgram.NoDomainsIff | src/main.cpp:299-302 | without arguments, the action returns to the menu exactly when the line is blank |
| MainProgram.TypedDomainsAreWords | src/main.cpp:291-295 | domains read from the line are non-empty and free of whitespace |
| MainProgram.DownloadSubscribedMods | src/main.cpp:86-99 | the loop over the subscribed mods produces `SubscribedDownloads` |
| MainProgram.DownloadMod | src/main.cpp:87-98 | one mod as `DownloadStep` describes it |
| MainProgram.NumberedOutputAt | src/GameBanana.cpp:144-148 | the k-th URL is written to the path numbered `k + 1` |
| MainProgram.DownloadStepFetched | src/main.cpp:87-98 | a mod with an ID whose file list is read emits its ID, the folder of its name, and the numbered paths of its files |
| MainProgram.DoubleSanitizedFolder | src/main.cpp:88 | the name is sanitised before `downloadModFiles` and again inside it, which names the same folder as sanitising once |
| MainProgram.ModsWithoutIdsSkipped | src/main.cpp:91-95 | mods whose profile URL has no ID are skipped: a list of only such mods downloads nothing |
| MainProgram.OneModDownload | src/main.cpp:87-98 | a mod with an ID gets the folder named after its sanitised name, with one numbered path per listed file |
| MainProgram.AbortedModEndsLoop | src/main.cpp:98 | a mod whose file list does not parse ends the loop: nothing after it is downloaded |
| MainProgram.RenameEntry | src/main.cpp:215-220 | a successful rename moves the entry to its new name and changes no other entry; renaming onto itself changes nothing |
| MainProgram.RenameOntoOccupiedFails | src/main.cpp:215-220 | renaming a folder onto a non-empty folder or a file fails |
| MainProgram.RenameToFreeName | src/main.cpp:215-217 | renaming to a free name that is not `.` or `..` succeeds |
| MainProgram.RenameStep | src/main.cpp:204-220 | one log line naming the domain and mod ID; `NoName` exactly when no name is found, otherwise the target is the sanitised name; only a successful rename changes the folder, and then exactly as `RenameEntry` does; a reported failure is a rename that fails |
| MainProgram.RenameIds | src/main.cpp:199-221 | one log line per mod ID, so a failure does not stop the loop |
| MainProgram.RenameLogAt | src/main.cpp:199-221 | the k-th log line is about the k-th mod ID of the domain; it says `NoName` exactly when no name is found, and otherwise names the sanitised target |
| MainProgram.RenameStepFrame | src/main.cpp:204-220 | one step that neither renames `n` nor renames anything to `n` leaves the entry `n` alone |
| MainProgram.RenameIdsFrame | src/main.cpp:204-220 | entries that are neither a mod ID of the loop nor a name it renamed to are unchanged |
| MainProgram.RenameIdsUnchanged | src/main.cpp:204-220 | when no rename succeeds, whether the name was missing or the rename failed, the folder is left exactly as it was |
| MainProgram.RenameModFolders | src/main.cpp:199-221 | the loop over one domain's mod IDs produces `RenameIds` |
| MainProgram.RenameDomains | src/main.cpp:189-222 | the sequence keeps the entry names of the mods directory |
| MainProgram.RenameDomainsFrame | src/main.cpp:189-222 | entries of the mods directory that are not domains of the plan are unchanged |
| MainProgram.RenameDomainsAppend | src/main.cpp:189-222 | each domain's renames apply to that domain's folder, after the earlier domains |
| MainProgram.RenameDomain | src/main.cpp:190-221 | one domain: its mod IDs are the listing of its folder, and its folder becomes the result of the renaming loop |
| MainProgram.RenameAllDomains | src/main.cpp:189-222 | every listed domain is processed once, each with the listing of its own folder, and the result is `RenameDomains` over that plan |
| MainProgram.RunRenameSequence | src/main.cpp:178-223 | a mods directory that is a plain file throws; a missing one or one without domains does nothing; otherwise the result and the log are those of `RenameDomains` over the listings |

The "states" column describes what certain members contain. Several of them are specifications rather than claims:

- the functions `ExtractModId`, `ExtractFileName`, `ExtractModName`, `ParseFields` and `RenameEntry`;
- the lemmas whose names end in `Cases`.

For these, the contract characterises the result independently of how the body computes it.

`DerivedFileName` and `Stoi` are different. Their own contracts state only bounds: a non-empty name without `/` or `?`, and a value in the 32-bit range. Their exact results are stated by lemmas for the inputs the program writes and reads: `DerivedNameOf`, `DerivedNameFallback` and `DerivedNameDots` for file names, and `StoiShowInt`, `StoiOfShowInt`, `StoiNonNegative` and `StoiNegative` for integers. The body of `Stoi` alone encodes how it treats leading whitespace, the sign and the digit prefix of other text.

`Rename.Combine` has no row of its own. It is the specification of `combineDirectories` and is covered by the merge lemmas above:

- It is a function that returns the new target and leaves the source as it was, because `combineDirectories` only copies.
- `Rename.Compatible` names the clash-free case that the overlay lemmas assume.

## Left out

- The network: `http_get`, `httpGet`, `downloadFile`, `fetchModName` and the write callbacks. Their answers are parameters of the model. Same request, same answer: the model does not express a server that answers the same request differently twice.
- JSON parsing: the parser is a library. A body arrives classified as empty, unparseable or parsed. Numbers are integers: the library's floating-point numbers are not modelled. Duplicate keys and the library's member order are taken as given by the `Json` value.
- `std::stoi` is modelled exactly, including its exceptions. It skips leading whitespace, takes an optional sign and a digit prefix, and requires the 32-bit range. An ID that does not convert ends `download_files`, and the program with it.
- Filesystem side effects: `create_directories`, opening and writing files, `fs::exists` on the links file. These become, respectively, a flag for whether the links file opened, an optional file content for `download_files`, and the per-attempt outcomes of `fopen`.
- Downloaded bytes. The content a download writes is not modelled, only the target path and the attempt results.
- `combineDirectories` when it throws part-way. The model returns `None` and does not describe the partial copy left behind. Nothing in the program calls `combineDirectories`.
- `fs::rename`: modelled by the POSIX rules inside one directory. Symbolic links, permissions and cross-device moves are not modelled.
- The 1-second pauses between requests and downloads (src/NexusMods.cpp:177, 235, 402) are wall-clock only. The 5-second retry pauses are in the trace.
- The interactive menu, `std::cin`, the environment variables (`HOME`, `API_KEY`, `GB_USER_ID`), the global `API_KEY`, `getDefaultModsDirectory`, and curl global setup and cleanup. These are I/O and environment glue. The line read for the domain list is a parameter.
- `runNexusModsSequence` and `runNexusModsForOneDomain`: they only chain the modelled steps. Each step is modelled and proved on its own.
- Printing and logging. The rename log records only what happened to each folder, not the printed text.
- `Downloader.DownloadFiles`'s per-record attempt outcomes are indexed by the record's position in the file. Two records for the same URL can therefore fare differently, as they can in the program.
- AsInt: an integer outside the 64-bit range is read by the library as a floating-point number, and converting that to `int` is undefined behaviour. The model wraps every integer modulo 2^32, as the cast does for 64-bit values.
- Planned: the file name follows the URL even when its last segment is `.` or `..` (`DerivedNameDots`). The path then names the mod's directory or its parent, and the `fopen` outcome of each attempt decides what happens. The source does not guard against this, and neither does the model.
- ModFolderSegment: a mod named `""`, `.` or `..` gets the base directory itself or its parent as its folder. The source does not guard against this, so the lemma states exactly when it happens instead of promising a new sub-directory.
- `Rename.OverlayKeepsTargetFiles` and `Rename.CombineIntoOverlay` assume the trees have no file/directory clash. With a clash the merge copies into the directory or throws; the two lemmas on clashes cover those cases.
