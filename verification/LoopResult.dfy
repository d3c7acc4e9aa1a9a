/**
 * What exactly a transfer leaves behind: the entries of the folders its loop
 * has made, under their own names, and the child list it has changed.
 */
module LoopResult {
  import opened Wrappers
  import opened Paths
  import opened StorageTree
  import opened FolderLoop
  import opened PathLaws
  import opened LookupLaws

  /** The storages from `first` on are folders of exactly these names, each holding just the next. */
  predicate Chain(s: Store, first: Id, names: seq<string>)
    decreases |names|
  {
    names == []
    || (&& first in s.nodes
        && s.nodes[first] == Entry(names[0], Folder, if |names| > 1 then [first + 1] else [])
        && Chain(s, first + 1, names[1..]))
  }

  /** An old entry is as it was, but for the one new folder at the end of f. */
  ghost predicate OldEntry(s: Store, s': Store, f: Id, names: seq<string>, p: Id)
    requires p in s.nodes
  {
    && p in s'.nodes
    && s'.nodes[p] == if p == f && names != [] then s.nodes[p].(children := s.nodes[p].children + [s.next])
                      else s.nodes[p]
  }

  ghost predicate OnlyThese(s: Store, s': Store) {
    forall id :: id in s'.nodes <==> id in s.nodes || s.next <= id < s'.next
  }

  /** s' is s with a chain of new folders of these names put at the end of folder f, and nothing else. */
  ghost predicate Grafted(s: Store, s': Store, f: Id, names: seq<string>) {
    && s'.next == s.next + |names| && OnlyThese(s, s')
    && (forall p {:trigger OldEntry(s, s', f, names, p)} :: p in s.nodes ==> OldEntry(s, s', f, names, p))
    && Chain(s', s.next, names)
  }

  lemma IdsBelowNext(s: Store)
    requires Valid(s)
    ensures forall id :: id in s.nodes ==> id < s.next
  {
    forall id | id in s.nodes ensures id < s.next {
      assert ValidEntry(s, id);
    }
  }

  lemma GraftNone(s: Store, f: Id)
    ensures Grafted(s, s, f, [])
  {
  }

  /** A folder made and a chain put into it make one chain. */
  lemma GraftStep(s: Store, s': Store, f: Id, names: seq<string>)
    requires Valid(s) && IsFolder(s, f) && names != []
    requires Grafted(WithNew(s, f, Children(s, f) + [s.next], names[0], Folder), s', s.next, names[1..])
    ensures Grafted(s, s', f, names)
  {
    IdsBelowNext(s);
    var rest := names[1..];
    var s1 := WithNew(s, f, Children(s, f) + [s.next], names[0], Folder);
    assert s1.nodes[s.next] == Entry(names[0], Folder, []);
    assert OldEntry(s1, s', s.next, rest, s.next);
    forall p | p in s.nodes ensures OldEntry(s, s', f, names, p) {
      assert OldEntry(s1, s', s.next, rest, p);
    }
    assert s'.nodes[s.next] == Entry(names[0], Folder, if rest != [] then [s.next + 1] else []) by {
      assert [] + [s1.next] == [s.next + 1];
    }
  }

  /** One folder made at the start of the loop. */
  lemma MakeDirsFirst(s: Store, foldsCase: bool, f: Id, names: seq<string>)
    requires Valid(s) && IsFolder(s, f) && names != [] && ValidName(names[0]) && Child(s, f, names[0]).None?
    ensures var s1 := WithNew(s, f, Children(s, f) + [s.next], names[0], Folder);
            && Valid(s1) && IsFolder(s1, s.next) && Children(s1, s.next) == []
            && MakeDirs(s, foldsCase, Some(f), names) == MakeDirs(s1, foldsCase, Some(s.next), names[1..])
  {
    NoMatchNoSame(s, foldsCase, f, names[0]);
    InsertFolderEffect(s, foldsCase, f, names[0]);
  }

  /** What a loop over `rest` from folder `last`, where it finds none of these names, leaves and ends in. */
  ghost predicate LoopMade(s: Store, s': Store, end: Ptr, last: Id, rest: seq<string>) {
    && last in s.nodes && (rest != [] ==> IsFolder(s, last))
    && Grafted(s, s', last, rest)
    && end == Some(if rest == [] then last else s'.next - 1)
  }

  lemma {:induction false} MakeDirsGrafts(s: Store, foldsCase: bool, f: Id, names: seq<string>)
    requires Valid(s) && f in s.nodes && forall n :: n in names ==> ValidName(n)
    requires names != [] ==> IsFolder(s, f) && Child(s, f, names[0]).None?
    ensures LoopMade(s, MakeDirs(s, foldsCase, Some(f), names).0, MakeDirs(s, foldsCase, Some(f), names).1, f, names)
    decreases |names|
  {
    if names == [] {
      GraftNone(s, f);
    } else {
      assert names[0] in names;
      MakeDirsFirst(s, foldsCase, f, names);
      var s1 := WithNew(s, f, Children(s, f) + [s.next], names[0], Folder);
      MakeDirsGrafts(s1, foldsCase, s.next, names[1..]);
      GraftStep(s, MakeDirs(s1, foldsCase, Some(s.next), names[1..]).0, f, names);
    }
  }

  /** id is a folder of exactly this name. */
  predicate IsFolderNamed(s: Store, id: Id, name: string) {
    IsFolder(s, id) && s.nodes[id].name == name
  }

  /** Along a chain each name leads to the next folder of it. */
  lemma {:induction false} ChainWalk(s: Store, first: Id, names: seq<string>, made: seq<string>)
    requires Chain(s, first, names) && made != [] && made <= names
    ensures Resolve(s, Some(first), made[1..]) == Some(first + |made| - 1)
    ensures IsFolderNamed(s, first + |made| - 1, made[|made| - 1])
    decreases |made|
  {
    var rest := made[1..];
    if rest != [] {
      assert Chain(s, first + 1, names[1..]) && names[1..][0] == rest[0] == names[1];
      assert Children(s, first) == [first + 1] && Matches(s, first + 1, rest[0]);
      ChainWalk(s, first + 1, names[1..], rest);
    }
  }

  lemma GraftChild(s: Store, s': Store, f: Id, names: seq<string>)
    requires Valid(s) && IsFolder(s, f) && Grafted(s, s', f, names)
    requires names != [] && Child(s, f, names[0]).None?
    ensures Child(s', f, names[0]) == Some(s.next)
  {
    ChildFacts(s, f);
    var cs := Children(s, f);
    assert OldEntry(s, s', f, names, f);
    forall c | c in cs ensures Name(s, c) == Name(s', c) {
      assert OldEntry(s, s', f, names, c);
    }
    FirstMatchAppend(s', cs, [s.next], names[0]);
    FirstMatchSameNames(s, s', cs, names[0]);
  }

  /** Where the names that exist end there is no entry of the next name. */
  lemma NothingDeeper(s: Store, from: Id, names: seq<string>)
    ensures var k := Depth(s, Some(from), names);
            && Resolve(s, Some(from), names[..k]).Some?
            && (k < |names| ==> Child(s, Resolve(s, Some(from), names[..k]).value, names[k]).None?)
  {
    var k := Depth(s, Some(from), names);
    DepthResolves(s, Some(from), names, k);
    if k < |names| {
      DepthResolves(s, Some(from), names, k + 1);
      ResolveLast(s, Some(from), names[..k + 1]);
      assert names[..k + 1][..k] == names[..k];
    }
  }

  /** The part of the loop that enters what is there, and the part that makes what is missing. */
  lemma MakeDirsParts(s: Store, foldsCase: bool, from: Id, names: seq<string>)
    ensures var k := Depth(s, Some(from), names);
            var last := Resolve(s, Some(from), names[..k]);
            last.Some? && MakeDirs(s, foldsCase, Some(from), names) == MakeDirs(s, foldsCase, last, names[k..])
  {
    var k := Depth(s, Some(from), names);
    NothingDeeper(s, from, names);
    assert names == names[..k] + names[k..];
    MakeDirsConcat(s, foldsCase, Some(from), names[..k], names[k..]);
    MakeDirsOfResolved(s, foldsCase, Some(from), names[..k]);
  }

  /**
   * A loop that completes has put one chain of folders, of exactly the missing
   * names in their own spelling, at the end of the last folder that was there,
   * and has changed nothing else; it ends in the last of them.
   */
  lemma MakeDirsMakes(s: Store, foldsCase: bool, from: Id, names: seq<string>)
    requires Valid(s) && from in s.nodes && forall n :: n in names ==> ValidName(n)
    requires MakeDirs(s, foldsCase, Some(from), names).1.Some?
    ensures var (s', r) := MakeDirs(s, foldsCase, Some(from), names);
            var k := Depth(s, Some(from), names);
            var last := Resolve(s, Some(from), names[..k]);
            last.Some? && LoopMade(s, s', r, last.value, names[k..])
  {
    var k := Depth(s, Some(from), names);
    NothingDeeper(s, from, names);
    var last, rest := Resolve(s, Some(from), names[..k]).value, names[k..];
    MakeDirsParts(s, foldsCase, from, names);
    MakeDirsAfter(s, foldsCase, from, names, k, last);
    MakeDirsGrafts(s, foldsCase, last, rest);
  }

  lemma MakeDirsAfter(s: Store, foldsCase: bool, from: Id, names: seq<string>, k: nat, last: Id)
    requires Valid(s) && from in s.nodes && forall n :: n in names ==> ValidName(n)
    requires MakeDirs(s, foldsCase, Some(from), names).1.Some?
    requires k == Depth(s, Some(from), names) && Resolve(s, Some(from), names[..k]) == Some(last)
    ensures last in s.nodes && forall n :: n in names[k..] ==> ValidName(n)
    ensures k < |names| ==> names[k..][0] == names[k] && IsFolder(s, last)
  {
    ResolveInStore(s, Some(from), names[..k]);
    if k < |names| {
      LastIsFolder(s, foldsCase, from, names);
    }
  }

  lemma LastIsFolder(s: Store, foldsCase: bool, from: Id, names: seq<string>)
    requires Valid(s) && from in s.nodes && forall n :: n in names ==> ValidName(n)
    requires MakeDirs(s, foldsCase, Some(from), names).1.Some? && Depth(s, Some(from), names) < |names|
    ensures var last := Resolve(s, Some(from), names[..Depth(s, Some(from), names)]);
            last.Some? && IsFolder(s, last.value)
  {
    MakeDirsExact(s, foldsCase, Some(from), names);
  }

  lemma StillThere(s: Store, foldsCase: bool, from: Id, names: seq<string>, k: nat)
    requires Valid(s) && from in s.nodes && k <= |names| && Resolve(s, Some(from), names[..k]).Some?
    ensures Resolve(MakeDirs(s, foldsCase, Some(from), names).0, Some(from), names[..k])
         == Resolve(s, Some(from), names[..k])
  {
    MakeDirsGrows(s, foldsCase, Some(from), names);
    ExtendsResolve(s, MakeDirs(s, foldsCase, Some(from), names).0, Some(from), names[..k]);
  }

  /** In the grown tree the first names, one or more, lead to the next of the new folders. */
  lemma GraftedFolder(s: Store, s': Store, f: Id, names: seq<string>, made: seq<string>)
    requires Valid(s) && IsFolder(s, f) && Grafted(s, s', f, names)
    requires made != [] && made <= names && Child(s, f, names[0]).None?
    ensures Resolve(s', Some(f), made) == Some(s.next + |made| - 1)
    ensures IsFolderNamed(s', s.next + |made| - 1, made[|made| - 1])
  {
    GraftChild(s, s', f, names);
    ChainFrom(s', f, s.next, names, made);
  }

  lemma ChainFrom(s: Store, f: Id, first: Id, names: seq<string>, made: seq<string>)
    requires Chain(s, first, names) && made != [] && made <= names && Child(s, f, names[0]) == Some(first)
    ensures Resolve(s, Some(f), made) == Some(first + |made| - 1)
    ensures IsFolderNamed(s, first + |made| - 1, made[|made| - 1])
  {
    ChainWalk(s, first, names, made);
    assert made[0] == names[0];
  }

  /**
   * Name by name: where the missing names begin after `there`, each of the
   * paths from there + made[..1] to the whole leads to a new folder, the next
   * of the new ids, that has exactly the last name of the path.
   */
  lemma MadeFolders(s: Store, foldsCase: bool, from: Id, names: seq<string>, made: seq<string>, s': Store)
    requires Valid(s) && from in s.nodes && forall n :: n in names ==> ValidName(n)
    requires MakeDirs(s, foldsCase, Some(from), names).1.Some?
    requires s' == MakeDirs(s, foldsCase, Some(from), names).0
    requires made != [] && made <= names[Depth(s, Some(from), names)..]
    ensures var there := names[..Depth(s, Some(from), names)];
            Resolve(s', Some(from), there + made) == Some(s.next + |made| - 1)
    ensures IsFolderNamed(s', s.next + |made| - 1, made[|made| - 1])
  {
    var k := Depth(s, Some(from), names);
    NothingDeeper(s, from, names);
    var last := Resolve(s, Some(from), names[..k]).value;
    MakeDirsMakes(s, foldsCase, from, names);
    GraftedFolder(s, s', last, names[k..], made);
    StillThere(s, foldsCase, from, names, k);
    ResolveConcat(s', Some(from), names[..k], made);
  }

  // ---------------------------------------------------------- the whole transfer

  /** A list with the new file in the place of the one it replaces, or at the end. */
  function Placed(s: Store, foldsCase: bool, cs: seq<Id>, name: string, id: Id): seq<Id> {
    match FirstSame(s, foldsCase, cs, name)
    case None => cs + [id]
    case Some(j) => cs[j := id]
  }

  /** The storing of the file, as a change of one list and one new entry. */
  lemma StoredAs(s: Store, foldsCase: bool, f: Id, name: string, s': Store)
    requires Valid(s) && InsertFile(s, foldsCase, f, name) == Some(s')
    ensures f in s.nodes && s'.next == s.next + 1
    ensures forall id :: id in s'.nodes <==> id in s.nodes || id == s.next
    ensures forall p :: p in s.nodes && p != f ==> s'.nodes[p] == s.nodes[p]
    ensures s'.nodes[f] == s.nodes[f].(children := Placed(s, foldsCase, s.nodes[f].children, name, s.next))
    ensures s'.nodes[s.next] == Entry(name, File, [])
  {
    IdsBelowNext(s);
    var cs := InsertFileShape(s, foldsCase, f, name);
  }

  /** The folder loop of a transfer that stores its file, and the folder it ends in. */
  lemma SendLoop(s: Store, foldsCase: bool, root: Id, dest: string, s': Store, id: Id) returns (s1: Store, f: Id)
    requires Valid(s) && IsFolder(s, root)
    requires dest != "" && Send(s, foldsCase, Some(root), dest) == Some(Stored(s', id))
    ensures MakeDirs(s, foldsCase, Some(root), FolderNames(dest)) == (s1, Some(f))
    ensures Valid(s1) && InsertFile(s1, foldsCase, f, FileName(dest)) == Some(s') && id == s1.next
    ensures forall n :: n in FolderNames(dest) ==> ValidName(n)
    ensures IsFolder(s1, root)
  {
    var (t, folder) := MakeDirs(s, foldsCase, Some(root), FolderNames(dest));
    s1, f := t, folder.value;
    MakeDirsGrows(s, foldsCase, Some(root), FolderNames(dest));
    assert Kept(s, s1, root);
    FolderNamesValid(dest);
  }

  /** The list of the last folder that was there, after a transfer. */
  function ListAfter(s: Store, foldsCase: bool, last: Id, made: seq<string>, name: string): seq<Id>
    requires last in s.nodes
  {
    var cs := s.nodes[last].children;
    if made == [] then Placed(s, foldsCase, cs, name, s.next) else cs + [s.next]
  }

  /** Everything but the folders made: one list has changed and one file is new. */
  ghost predicate SentAs(s: Store, s': Store, foldsCase: bool, last: Id, made: seq<string>, name: string, id: Id) {
    && last in s.nodes && id == s.next + |made| && s'.next == id + 1
    && OnlyThese(s, s')
    && (forall p :: p in s.nodes && p != last ==> s'.nodes[p] == s.nodes[p])
    && s'.nodes[last] == s.nodes[last].(children := ListAfter(s, foldsCase, last, made, name))
    && s'.nodes[id] == Entry(name, File, [])
  }

  lemma StoredInMade(s: Store, s1: Store, s': Store, foldsCase: bool, last: Id, made: seq<string>, f: Id, name: string)
    requires Valid(s) && Valid(s1) && last in s.nodes && Grafted(s, s1, last, made) && made != []
    requires f == s1.next - 1 && InsertFile(s1, foldsCase, f, name) == Some(s')
    ensures SentAs(s, s', foldsCase, last, made, name, s1.next)
  {
    StoredAs(s1, foldsCase, f, name, s');
    IdsBelowNext(s);
    assert OldEntry(s, s1, last, made, last);
    forall p | p in s.nodes && p != last ensures s'.nodes[p] == s.nodes[p] {
      assert OldEntry(s, s1, last, made, p);
    }
  }

  /**
   * A transfer, as a whole: the folders missing from dest and the file get the
   * next ids in turn; the last folder that was there has the first of them at
   * the end of its list - or, when no folder was missing, the file at the end
   * or in the place of the one it replaces - and nothing else is changed.
   */
  lemma SendMakes(s: Store, foldsCase: bool, root: Id, dest: string, s': Store, id: Id)
    requires Valid(s) && IsFolder(s, root)
    requires dest != "" && Send(s, foldsCase, Some(root), dest) == Some(Stored(s', id))
    ensures var names := FolderNames(dest);
            var k := Depth(s, Some(root), names);
            var last := Resolve(s, Some(root), names[..k]);
            last.Some? && SentAs(s, s', foldsCase, last.value, names[k..], FileName(dest), id)
  {
    var s1, f := SendLoop(s, foldsCase, root, dest, s', id);
    var names := FolderNames(dest);
    var k := Depth(s, Some(root), names);
    MakeDirsMakes(s, foldsCase, root, names);
    var last := Resolve(s, Some(root), names[..k]).value;
    if k < |names| {
      StoredInMade(s, s1, s', foldsCase, last, names[k..], f, FileName(dest));
    } else {
      assert names[..k] == names;
      MakeDirsOfResolved(s, foldsCase, Some(root), names);
      StoredAs(s, foldsCase, f, FileName(dest), s');
    }
  }

  /** The path leads to c, a folder of exactly this name. */
  ghost predicate FolderAt(s: Store, from: Id, path: seq<string>, c: int, name: string) {
    c >= 0 && LeadsTo(s, from, path, c) && IsFolderNamed(s, c, name)
  }

  /** The same with the names given in parts: those that were there, those up to the folder, and the rest. */
  lemma MadeFolder(s: Store, foldsCase: bool, from: Id, names: seq<string>, there: seq<string>, made: seq<string>,
                   rest: seq<string>, s1: Store, c: Id)
    requires Valid(s) && from in s.nodes && forall n :: n in names ==> ValidName(n)
    requires s1 == MakeDirs(s, foldsCase, Some(from), names).0
    requires MakeDirs(s, foldsCase, Some(from), names).1.Some?
    requires Depth(s, Some(from), names) == |there| && made != [] && names == there + (made + rest)
    requires c == s.next + |made| - 1
    ensures FolderAt(s1, from, there + made, c, made[|made| - 1])
  {
    assert names[..|there|] == there && names[|there|..] == made + rest;
    MadeFolders(s, foldsCase, from, names, made, s1);
    ResolveExactly(s1, from, there + made, c);
  }

  /** After a transfer the folders it has made are found under their exact names. */
  lemma SentFolders(s: Store, foldsCase: bool, root: Id, dest: string, s': Store, id: Id,
                    there: seq<string>, made: seq<string>, rest: seq<string>, c: Id)
    requires Valid(s) && IsFolder(s, root)
    requires dest != "" && Send(s, foldsCase, Some(root), dest) == Some(Stored(s', id))
    requires FolderNames(dest) == there + (made + rest) && made != []
    requires Depth(s, Some(root), FolderNames(dest)) == |there|
    requires c == s.next + |made| - 1
    ensures FolderAt(s', root, there + made, c, made[|made| - 1])
  {
    SendLoopCompletes(s, foldsCase, root, dest);
    var s1 := MakeDirs(s, foldsCase, Some(root), FolderNames(dest)).0;
    MadeFolder(s, foldsCase, root, FolderNames(dest), there, made, rest, s1, c);
    SendKeepsFolder(s, foldsCase, root, dest, s', id, s1, there + made, c, made[|made| - 1]);
  }

  lemma SendLoopCompletes(s: Store, foldsCase: bool, root: Id, dest: string)
    requires dest != "" && Send(s, foldsCase, Some(root), dest).Some?
    ensures MakeDirs(s, foldsCase, Some(root), FolderNames(dest)).1.Some?
    ensures forall n :: n in FolderNames(dest) ==> ValidName(n)
  {
    FolderNamesValid(dest);
  }

  /** What the folder loop leads to the whole transfer leads to. */
  lemma SendKeepsFolder(s: Store, foldsCase: bool, root: Id, dest: string, s': Store, id: Id, s1: Store,
                        path: seq<string>, c: int, named: string)
    requires Valid(s) && IsFolder(s, root)
    requires dest != "" && Send(s, foldsCase, Some(root), dest) == Some(Stored(s', id))
    requires s1 == MakeDirs(s, foldsCase, Some(root), FolderNames(dest)).0
    ensures FolderAt(s1, root, path, c, named) ==> FolderAt(s', root, path, c, named)
  {
    var t, f := SendLoop(s, foldsCase, root, dest, s', id);
    if FolderAt(s1, root, path, c, named) {
      FolderStays(s1, foldsCase, f, FileName(dest), s', root, path, c, named);
    }
  }

  /** A path to a folder leads to it, under its name, after a file is stored. */
  lemma FolderStays(s: Store, foldsCase: bool, f: Id, name: string, s': Store, root: Id, path: seq<string>, c: int,
                    named: string)
    requires Valid(s) && IsFolder(s, root) && InsertFile(s, foldsCase, f, name) == Some(s')
    requires FolderAt(s, root, path, c, named)
    ensures FolderAt(s', root, path, c, named)
  {
    StoredAs(s, foldsCase, f, name, s');
    ResolveExactly(s, root, path, c);
    InsertFileResolve(s, foldsCase, f, name, Some(root), path);
    FolderNotReplaced(s, foldsCase, f, name, c);
    ResolveExactly(s', root, path, c);
  }

  lemma FolderNotReplaced(s: Store, foldsCase: bool, f: Id, name: string, c: Id)
    requires InsertFile(s, foldsCase, f, name).Some? && IsFolder(s, c)
    ensures Replaced(s, foldsCase, f, name) != Some(c)
  {
    var cs := InsertFileShape(s, foldsCase, f, name);
  }
}
