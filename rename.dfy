/**
 * The directory side of the rename tool: listing the sub-directories of a
 * folder, reading a mod's name from the mod-info response, and merging one
 * directory tree into another with overwriting copies.
 *
 * A directory tree is a value: a file holds its content, a directory maps
 * each entry name to the entry. A path that does not exist is `None`.
 */
module Rename {
  import opened Wrappers
  import opened Json

  datatype Node = File(content: string) | Dir(children: map<string, Node>)

  /** The entries of a directory. */
  type Entries = map<string, Node>

  /** The entry `name` of a directory, if there is one. */
  function Get(entries: Entries, name: string): (r: Option<Node>)
    ensures r.Some? <==> name in entries
    ensures r.Some? ==> r.value == entries[name]
  {
    if name in entries then Some(entries[name]) else None
  }

  /** The node at `path` below `node` (the node itself for the empty path); `None` when a component is missing or is a file. */
  function Find(node: Node, path: seq<string>): Option<Node>
    decreases |path|
  {
    if path == [] then Some(node)
    else if node.Dir? && path[0] in node.children then Find(node.children[path[0]], path[1..])
    else None
  }

  // ---------------------------------------------------------------------
  // Listing sub-directories
  // ---------------------------------------------------------------------

  /** `names` lists each sub-directory of `entries` exactly once, and nothing else. */
  predicate IsListing(names: seq<string>, entries: Entries) {
    && (forall n :: n in names ==> n in entries && entries[n].Dir?)
    && (forall n :: n in entries && entries[n].Dir? ==> n in names)
    && (forall i, j :: 0 <= i < j < |names| ==> names[i] != names[j])
  }

  /**
   * `getGameDomainNames` and `getModIDs`: the names of the sub-directories
   * of `folder`, in the unspecified order of `directory_iterator`. A folder
   * that does not exist has none; iterating a plain file throws, which the
   * program does not catch (`None`).
   */
  method SubdirectoryNames(folder: Option<Node>) returns (names: Option<seq<string>>)
    ensures folder.None? ==> names == Some([])
    ensures folder.Some? && folder.value.File? ==> names.None?
    ensures folder.Some? && folder.value.Dir? ==> names.Some? && IsListing(names.value, folder.value.children)
  {
    if folder.None? {
      return Some([]);
    }
    if folder.value.File? {
      return None;
    }
    var entries := folder.value.children;
    var listed: seq<string> := [];
    var remaining := entries.Keys;
    while remaining != {}
      invariant remaining <= entries.Keys
      invariant forall n :: n in listed <==> n in entries && entries[n].Dir? && n !in remaining
      invariant forall i, j :: 0 <= i < j < |listed| ==> listed[i] != listed[j]
      decreases remaining
    {
      var n :| n in remaining;
      if entries[n].Dir? {
        listed := listed + [n];
      }
      remaining := remaining - {n};
    }
    return Some(listed);
  }

  /** Two listings of the same directory hold the same names, each once: they differ at most in order. */
  lemma ListingsAgree(a: seq<string>, b: seq<string>, entries: Entries)
    requires IsListing(a, entries) && IsListing(b, entries)
    ensures multiset(a) == multiset(b)
  {
    DistinctMultiset(a);
    DistinctMultiset(b);
  }

  /** A sequence without repeats counts each of its elements once. */
  lemma {:induction false} DistinctMultiset(s: seq<string>)
    requires forall i, j :: 0 <= i < j < |s| ==> s[i] != s[j]
    ensures forall x :: multiset(s)[x] == if x in s then 1 else 0
    decreases |s|
  {
    if s != [] {
      var t := s[1..];
      assert s == [s[0]] + t;
      assert forall j :: 0 <= j < |t| ==> t[j] == s[j + 1];
      assert s[0] !in t;
      DistinctMultiset(t);
      assert multiset(s) == multiset{s[0]} + multiset(t);
    }
  }

  // ---------------------------------------------------------------------
  // The mod name
  // ---------------------------------------------------------------------

  /**
   * `extractModName`: the `name` member of the response when it is a
   * string; the empty string when the body is empty or does not parse, when
   * there is no `name`, or when `name` is not a string (the library's type
   * error is caught like the parse error).
   */
  function ExtractModName(body: Body): (name: string)
    ensures name != [] ==> body.Parsed? && Member(body.value, "name") == Some(JStr(name))
    ensures forall s :: body.Parsed? && Member(body.value, "name") == Some(JStr(s)) ==> name == s
  {
    match body
    case Parsed(j) =>
      if Contains(j, "name") then
        match AsString(Member(j, "name").value)
        case Some(s) => s
        case None => ""
      else ""
    case _ => ""
  }

  /** No name is found exactly when the response has no string `name`, or that string is empty. */
  lemma ExtractModNameEmpty(body: Body)
    ensures ExtractModName(body) == [] <==>
              !(body.Parsed? && Member(body.value, "name").Some? && Member(body.value, "name").value.JStr?)
              || Member(body.value, "name") == Some(JStr(""))
  {
  }

  // ---------------------------------------------------------------------
  // Merging directory trees
  // ---------------------------------------------------------------------

  /**
   * `fs::copy(file, dest, overwrite_existing)` of a file named `name` with
   * content `content`: a missing or plain-file destination now holds the
   * content; onto a directory the file is copied into it, under its own
   * name, which fails when that name is a directory there.
   */
  function CopyFile(dest: Option<Node>, name: string, content: string): Option<Node> {
    match dest
    case None => Some(File(content))
    case Some(File(_)) => Some(File(content))
    case Some(Dir(inner)) =>
      if name in inner && inner[name].Dir? then None
      else Some(Dir(inner[name := File(content)]))
  }

  /**
   * `combineDirectories(target, source)`: the new state of `target` after
   * merging the directory `source` into it, or `None` when a filesystem
   * call throws. A missing target is created first; a plain-file target
   * stays as it is when the source is empty, and otherwise makes the first
   * copy or directory creation below it fail.
   */
  function Combine(target: Option<Node>, source: Node): (r: Option<Node>)
    requires source.Dir?
    decreases source, 2
  {
    match target
    case None => CombineInto(map[], source)
    case Some(File(_)) => if source.children == map[] then target else None
    case Some(Dir(entries)) => CombineInto(entries, source)
  }

  /** Merging into an existing directory: every source entry is merged into the entry of the same name. */
  function CombineInto(entries: Entries, source: Node): (r: Option<Node>)
    requires source.Dir?
    ensures r.Some? ==> r.value.Dir? && r.value.children.Keys == entries.Keys + source.children.Keys
    decreases source, 1
  {
    var sc := source.children;
    if forall n | n in sc :: CombineEntry(Get(entries, n), n, sc[n]).Some? then
      Some(Dir(map n | n in entries.Keys + sc.Keys ::
                 if n in sc then CombineEntry(Get(entries, n), n, sc[n]).value else entries[n]))
    else None
  }

  /** One source entry named `name` merged onto `dest`: a directory recursively, a file by copying. */
  function CombineEntry(dest: Option<Node>, name: string, entry: Node): Option<Node>
    decreases entry, 3
  {
    match entry
    case File(content) => CopyFile(dest, name, content)
    case Dir(_) => Combine(dest, entry)
  }

  /** Every entry of the source meets an entry of the same kind, or none, all the way down. */
  predicate Compatible(entries: Entries, source: Node)
    requires source.Dir?
    decreases source, 0
  {
    forall n | n in source.children && n in entries :: SameKind(entries[n], source.children[n])
  }

  predicate SameKind(dest: Node, entry: Node)
    decreases entry, 1
  {
    match entry
    case File(_) => dest.File?
    case Dir(_) => dest.Dir? && Compatible(dest.children, entry)
  }

  /**
   * The merge as an overlay, for trees without file/directory clashes:
   * every source file replaces or adds the file at its path, every source
   * directory is overlaid on the directory at its path (or on nothing), and
   * everything else of the target stays.
   */
  function Overlay(entries: Entries, source: Node): (r: Entries)
    requires source.Dir?
    ensures r.Keys == entries.Keys + source.children.Keys
    decreases source, 0
  {
    var sc := source.children;
    map n | n in entries.Keys + sc.Keys ::
      if n in sc then OverlayEntry(Get(entries, n), sc[n]) else entries[n]
  }

  function OverlayEntry(dest: Option<Node>, entry: Node): Node
    decreases entry, 1
  {
    match entry
    case File(_) => entry
    case Dir(_) => Dir(Overlay(if dest.Some? && dest.value.Dir? then dest.value.children else map[], entry))
  }

  /** Without clashes the merge succeeds and is exactly the overlay. */
  lemma {:induction false} CombineIntoOverlay(entries: Entries, source: Node)
    requires source.Dir? && Compatible(entries, source)
    ensures CombineInto(entries, source) == Some(Dir(Overlay(entries, source)))
    decreases source, 0
  {
    var sc := source.children;
    forall n | n in sc
      ensures CombineEntry(Get(entries, n), n, sc[n]) == Some(OverlayEntry(Get(entries, n), sc[n]))
    {
      CombineEntryOverlay(Get(entries, n), n, sc[n]);
    }
    var merged := map n | n in entries.Keys + sc.Keys ::
      if n in sc then CombineEntry(Get(entries, n), n, sc[n]).value else entries[n];
    assert merged == Overlay(entries, source);
  }

  lemma {:induction false} CombineEntryOverlay(dest: Option<Node>, name: string, entry: Node)
    requires dest.None? || SameKind(dest.value, entry)
    ensures CombineEntry(dest, name, entry) == Some(OverlayEntry(dest, entry))
    decreases entry, 1
  {
    if entry.Dir? {
      if dest.None? {
        CombineIntoOverlay(map[], entry);
      } else {
        CombineIntoOverlay(dest.value.children, entry);
      }
    }
  }

  /** Merging into a directory that does not exist always succeeds: the result is a copy of the source. */
  lemma CombineIntoMissing(source: Node)
    requires source.Dir?
    ensures Combine(None, source) == Some(Dir(Overlay(map[], source)))
  {
    CombineIntoOverlay(map[], source);
  }

  /** Every file of the source is at the same path in the overlay, with the source's content. */
  lemma {:induction false} OverlayHasSourceFiles(entries: Entries, source: Node, path: seq<string>, content: string)
    requires source.Dir? && Find(source, path) == Some(File(content))
    ensures Find(Dir(Overlay(entries, source)), path) == Some(File(content))
    decreases |path|
  {
    var n := path[0];
    var sc := source.children;
    var merged := Overlay(entries, source);
    assert merged[n] == OverlayEntry(Get(entries, n), sc[n]);
    if sc[n].Dir? {
      var below := if n in entries && entries[n].Dir? then entries[n].children else map[];
      OverlayHasSourceFiles(below, sc[n], path[1..], content);
    }
  }

  /** Every source directory is a directory at the same path in the overlay. */
  lemma {:induction false} OverlayHasSourceDirs(entries: Entries, source: Node, path: seq<string>)
    requires source.Dir? && Find(source, path).Some? && Find(source, path).value.Dir?
    ensures Find(Dir(Overlay(entries, source)), path).Some? && Find(Dir(Overlay(entries, source)), path).value.Dir?
    decreases |path|
  {
    if path != [] {
      var n := path[0];
      var sc := source.children;
      var merged := Overlay(entries, source);
      assert merged[n] == OverlayEntry(Get(entries, n), sc[n]);
      var below := if n in entries && entries[n].Dir? then entries[n].children else map[];
      OverlayHasSourceDirs(below, sc[n], path[1..]);
    }
  }

  /** A target file at a path the source does not have is kept, given no clashes. */
  lemma {:induction false} OverlayKeepsTargetFiles(entries: Entries, source: Node, path: seq<string>, content: string)
    requires source.Dir? && Compatible(entries, source)
    requires Find(Dir(entries), path) == Some(File(content)) && Find(source, path).None?
    ensures Find(Dir(Overlay(entries, source)), path) == Some(File(content))
    decreases |path|
  {
    var n := path[0];
    var sc := source.children;
    var merged := Overlay(entries, source);
    if n in sc {
      assert SameKind(entries[n], sc[n]);
      assert merged[n] == OverlayEntry(Get(entries, n), sc[n]);
      if entries[n].Dir? {
        OverlayKeepsTargetFiles(entries[n].children, sc[n], path[1..], content);
      }
    } else {
      assert merged[n] == entries[n];
    }
  }

  /** The overlay invents no file: each comes from the source or, where the source has nothing, from the target. */
  lemma {:induction false} OverlayFilesFromInputs(entries: Entries, source: Node, path: seq<string>, content: string)
    requires source.Dir? && Find(Dir(Overlay(entries, source)), path) == Some(File(content))
    ensures Find(source, path) == Some(File(content))
            || (Find(source, path).None? && Find(Dir(entries), path) == Some(File(content)))
    decreases |path|
  {
    var n := path[0];
    var sc := source.children;
    var merged := Overlay(entries, source);
    if n in sc {
      assert merged[n] == OverlayEntry(Get(entries, n), sc[n]);
      if sc[n].Dir? {
        var below := if n in entries && entries[n].Dir? then entries[n].children else map[];
        OverlayFilesFromInputs(below, sc[n], path[1..], content);
        if !(n in entries && entries[n].Dir?) {
          assert Find(Dir(below), path[1..]).None? || Find(Dir(below), path[1..]).value.Dir?;
        }
      }
    } else {
      assert merged[n] == entries[n];
    }
  }

  /** A non-empty source directory cannot be merged onto a plain file of the same name. */
  lemma DirectoryOntoFileFails(entries: Entries, source: Node, name: string)
    requires source.Dir? && name in source.children && name in entries
    requires entries[name].File? && source.children[name].Dir? && source.children[name].children != map[]
    ensures CombineInto(entries, source).None?
  {
    assert CombineEntry(Get(entries, name), name, source.children[name]).None?;
  }

  /**
   * A source file whose name is a directory in the target does not replace
   * that directory: the copy lands inside it, under the file's own name.
   */
  lemma FileOntoDirectoryLandsInside(entries: Entries, source: Node, name: string, inner: Entries, content: string)
    requires source.Dir? && name in source.children && source.children[name] == File(content)
    requires name in entries && entries[name] == Dir(inner)
    requires CombineInto(entries, source).Some?
    ensures CombineInto(entries, source).value.children[name] == Dir(inner[name := File(content)])
  {
  }
}
