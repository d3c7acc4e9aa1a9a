/**
 * What the device operations achieve, stated over paths: send then find,
 * create then find, delete then not find, list and look up.
 */
module PathLaws {
  import opened Wrappers
  import opened Sequences
  import opened Tokenizer
  import opened Paths
  import opened StorageTree
  import opened FolderLoop

  // ------------------------------------------------------------ paths and names

  /** A path that leads somewhere, extended by one name, leads to the child of that name. */
  lemma LookupChild(s: Store, root: Ptr, path: string, name: string)
    requires Valid(s) && (root.Some? ==> root.value in s.nodes) && ValidName(name)
    requires Lookup(s, root, path).Some?
    ensures Lookup(s, root, path + "/" + name) == Child(s, Lookup(s, root, path).value, name)
  {
    var f := Lookup(s, root, path);
    var parent := NonEmpty(Fields(path));
    assert Resolve(s, root, parent) == f by {
      if path == "/" || path == "//" {
        RootFields();
      } else {
        ComponentsByEnding(path);
        ResolveInStore(s, root, Components(path));
      }
    }
    var child := path + "/" + name;
    ComponentsOfChild(path, name);
    assert child != "/" && child != "//" && child != "" by {
      assert child[|child| - 1] == name[|name| - 1];
    }
    ResolveConcat(s, root, parent, [name]);
    assert Resolve(s, f, [name]) == Child(s, f.value, name) by {
      assert [name][1..] == [];
    }
  }

  /** Equal up to case means the same storage, at every level of the path. */
  lemma {:induction false} ResolveFoldsCase(s: Store, from: Ptr, names: seq<string>)
    ensures Resolve(s, from, LowerAll(names)) == Resolve(s, from, names)
    decreases |names|
  {
    if from.Some? && names != [] {
      assert Lower(Lower(names[0])) == Lower(names[0]);
      FirstMatchFoldsCase(s, Children(s, from.value), Lower(names[0]), names[0]);
      assert LowerAll(names)[1..] == LowerAll(names[1..]);
      ResolveFoldsCase(s, Child(s, from.value, names[0]), names[1..]);
    }
  }

  lemma {:induction false} FirstMatchFoldsCase(s: Store, cs: seq<Id>, a: string, b: string)
    requires Lower(a) == Lower(b)
    ensures FirstMatch(s, cs, a) == FirstMatch(s, cs, b)
  {
    if cs != [] {
      FirstMatchFoldsCase(s, cs[1..], a, b);
    }
  }

  lemma LookupFoldsCase(s: Store, root: Ptr, a: string, b: string)
    requires Lower(a) == Lower(b)
    ensures Lookup(s, root, a) == Lookup(s, root, b)
  {
    LowerKeepsSlashes(a, b);
    if a !in {"", "/", "//"} {
      ComponentsLower(a);
      ComponentsLower(b);
      ResolveFoldsCase(s, root, Components(a));
      ResolveFoldsCase(s, root, Components(b));
    }
  }

  /** The walk of read_file, which has no special case for the root path. */
  function ReadWalk(s: Store, root: Ptr, src: string): Ptr {
    Resolve(s, root, Components(src))
  }

  /** read_file and get_storage_bypath agree on every path but the three spellings of the root. */
  lemma ReadWalkAgrees(s: Store, root: Ptr, src: string)
    requires Valid(s) && root.Some? && root.value in s.nodes
    ensures ReadWalk(s, root, src) == Lookup(s, root, src) <==> src !in {"", "/", "//"}
    ensures src == "" ==> ReadWalk(s, root, src) == root
    ensures src in {"/", "//"} ==> ReadWalk(s, root, src).None?
  {
    if src in {"/", "//"} {
      ComponentsByEnding(src);
      assert "" in Components(src);
      if ReadWalk(s, root, src).Some? {
        ResolveInStore(s, root, Components(src));
      }
    }
  }

  // ------------------------------------------------------------ send then find

  /** The file that Insert3 takes the place of, if any. */
  function Replaced(s: Store, foldsCase: bool, f: Id, name: string): Ptr {
    match FirstSame(s, foldsCase, Children(s, f), name)
    case None => None
    case Some(k) => Some(Children(s, f)[k])
  }

  lemma {:induction false} FirstMatchUpdate(s: Store, s': Store, cs: seq<Id>, k: nat, n: Id, name: string)
    requires k < |cs| && NoDup(cs)
    requires forall c :: c in cs ==> Name(s, c) == Name(s', c)
    requires Lower(Name(s', n)) == Lower(Name(s, cs[k]))
    ensures FirstMatch(s', cs[k := n], name)
         == if FirstMatch(s, cs, name) == Some(cs[k]) then Some(n) else FirstMatch(s, cs, name)
    decreases k
  {
    if k == 0 {
      assert cs[0 := n][1..] == cs[1..];
      FirstMatchSameNames(s, s', cs[1..], name);
      assert cs[0] !in cs[1..];
    } else {
      assert cs[k := n][1..] == cs[1..][k - 1 := n];
      assert cs[1..][k - 1] == cs[k];
      FirstMatchUpdate(s, s', cs[1..], k - 1, n, name);
    }
  }

  lemma StillNamed(s: Store, f: Id, cs': seq<Id>, name: string, kind: Kind, g: Id)
    requires Valid(s) && f in s.nodes && g in s.nodes
    ensures forall c :: c in Children(s, g) ==> Name(s, c) == Name(WithNew(s, f, cs', name, kind), c)
  {
    ChildFacts(s, g);
  }

  /** A stored file changes one child list, where it is appended or put in place of the replaced one. */
  lemma InsertFileShape(s: Store, foldsCase: bool, f: Id, name: string) returns (cs: seq<Id>)
    requires InsertFile(s, foldsCase, f, name).Some?
    ensures IsFolder(s, f) && ValidName(name)
    ensures InsertFile(s, foldsCase, f, name) == Some(WithNew(s, f, cs, name, File))
    ensures match FirstSame(s, foldsCase, Children(s, f), name)
            case None => cs == Children(s, f) + [s.next]
            case Some(k) => cs == Children(s, f)[k := s.next] && !IsFolder(s, Children(s, f)[k])
  {
    match FirstSame(s, foldsCase, Children(s, f), name)
    case None => cs := Children(s, f) + [s.next];
    case Some(k) => cs := Children(s, f)[k := s.next];
  }

  lemma InsertFileOtherFolder(s: Store, foldsCase: bool, f: Id, name: string, g: Id, other: string)
    requires Valid(s) && g in s.nodes && g != f && InsertFile(s, foldsCase, f, name).Some?
    ensures Child(InsertFile(s, foldsCase, f, name).value, g, other) == Child(s, g, other)
    ensures Child(s, g, other).Some? ==> Child(s, g, other) != Replaced(s, foldsCase, f, name)
  {
    var cs := InsertFileShape(s, foldsCase, f, name);
    if Child(s, g, other).Some? && Child(s, g, other) == Replaced(s, foldsCase, f, name) {
      assert Lists(s, g, Child(s, g, other).value) && Lists(s, f, Child(s, g, other).value);
    }
    OtherFolderUnchanged(s, f, cs, name, File, g, other);
  }

  lemma OtherFolderUnchanged(s: Store, f: Id, cs: seq<Id>, name: string, kind: Kind, g: Id, other: string)
    requires Valid(s) && f in s.nodes && g in s.nodes && g != f
    ensures Child(WithNew(s, f, cs, name, kind), g, other) == Child(s, g, other)
  {
    var s' := WithNew(s, f, cs, name, kind);
    ChildFacts(s, g);
    StillNamed(s, f, cs, name, kind, g);
    FirstMatchSameNames(s, s', Children(s, g), other);
    assert Children(s', g) == Children(s, g);
  }

  lemma InsertFileReplacing(s: Store, foldsCase: bool, f: Id, name: string, other: string)
    requires Valid(s) && InsertFile(s, foldsCase, f, name).Some? && Replaced(s, foldsCase, f, name).Some?
    ensures Child(InsertFile(s, foldsCase, f, name).value, f, other)
         == if Child(s, f, other) == Replaced(s, foldsCase, f, name) then Some(s.next) else Child(s, f, other)
  {
    var s' := InsertFile(s, foldsCase, f, name).value;
    var cs := Children(s, f);
    var k := FirstSame(s, foldsCase, cs, name).value;
    ChildFacts(s, f);
    StillNamed(s, f, cs[k := s.next], name, File, f);
    FirstMatchUpdate(s, s', cs, k, s.next, other);
  }

  /** Every lookup after a file is stored, in terms of the lookups before. */
  lemma InsertFileChild(s: Store, foldsCase: bool, f: Id, name: string, g: Id, other: string)
    requires Valid(s) && g in s.nodes && InsertFile(s, foldsCase, f, name).Some?
    ensures var s' := InsertFile(s, foldsCase, f, name).value;
            var was := Child(s, g, other);
            var replaced := Replaced(s, foldsCase, f, name);
            Child(s', g, other)
            == if was.Some? then (if was == replaced then Some(s.next) else was)
               else if g == f && replaced.None? && Lower(name) == Lower(other) then Some(s.next)
               else None
  {
    if g != f {
      InsertFileOtherFolder(s, foldsCase, f, name, g, other);
    } else if Replaced(s, foldsCase, f, name).Some? {
      InsertFileReplacing(s, foldsCase, f, name, other);
    } else {
      ChildFacts(s, f);
      WithNewChild(s, f, Children(s, f), name, File, other);
    }
  }

  lemma ResolveBelowLeaf(s: Store, c: Ptr, names: seq<string>)
    requires names != [] && (c.Some? ==> Children(s, c.value) == [])
    ensures Resolve(s, c, names).None?
  {
  }

  lemma InsertFileLeaf(s: Store, foldsCase: bool, f: Id, name: string, c: Id)
    requires Valid(s) && InsertFile(s, foldsCase, f, name).Some?
    requires c == s.next || (c in s.nodes && !IsFolder(s, c))
    ensures Children(InsertFile(s, foldsCase, f, name).value, c) == []
  {
  }

  /**
   * Where a path leads after a file is stored: where it led before, except
   * that a path to the replaced file leads to the new one; and a path that led
   * nowhere may now lead to the new file but to nothing else.
   */
  lemma {:induction false} InsertFileResolve(s: Store, foldsCase: bool, f: Id, name: string, from: Ptr,
                                             names: seq<string>)
    requires Valid(s) && from.Some? && IsFolder(s, from.value)
    requires InsertFile(s, foldsCase, f, name).Some?
    ensures var s' := InsertFile(s, foldsCase, f, name).value;
            var was := Resolve(s, from, names);
            var now := Resolve(s', from, names);
            && (was.Some? ==> now == if was == Replaced(s, foldsCase, f, name) then Some(s.next) else was)
            && (was.None? && now.Some? ==> now == Some(s.next))
    decreases |names|
  {
    var s' := InsertFile(s, foldsCase, f, name).value;
    if names != [] {
      var c, c' := Child(s, from.value, names[0]), Child(s', from.value, names[0]);
      InsertFileChild(s, foldsCase, f, name, from.value, names[0]);
      if c.Some? {
        ChildNamed(s, from.value, names[0]);
      }
      if c.Some? && IsFolder(s, c.value) {
        InsertFileResolve(s, foldsCase, f, name, c, names[1..]);
      } else if names[1..] != [] {
        ResolveBelowLeaf(s, c, names[1..]);
        if c'.Some? {
          InsertFileLeaf(s, foldsCase, f, name, c'.value);
        }
        ResolveBelowLeaf(s', c', names[1..]);
      }
    }
  }

  lemma ResolveLast(s: Store, from: Ptr, names: seq<string>)
    requires names != []
    ensures var folder := Resolve(s, from, names[..|names| - 1]);
            Resolve(s, from, names)
            == if folder.None? then None else Child(s, folder.value, names[|names| - 1])
  {
    SnocInitLast(names);
    var x := names[|names| - 1];
    ResolveConcat(s, from, names[..|names| - 1], [x]);
    assert [x][1..] == [];
  }

  /**
   * The two stages of a transfer that succeeds: the folder loop ends in folder
   * f of s1, where the file is stored; the destination leads to what f's
   * children say, both before the transfer and after it.
   */
  lemma SendStages(s: Store, foldsCase: bool, root: Ptr, dest: string, s': Store, id: Id) returns (s1: Store, f: Id)
    requires Valid(s) && root.Some? && IsFolder(s, root.value)
    requires dest != "" && Send(s, foldsCase, root, dest) == Some(Stored(s', id))
    ensures Valid(s1) && Extends(s, s1) && IsFolder(s1, f) && Valid(s')
    ensures InsertFile(s1, foldsCase, f, FileName(dest)) == Some(s') && id == s1.next
    ensures Lookup(s, root, dest) == Child(s1, f, FileName(dest))
    ensures Lookup(s', root, dest) == Child(s', f, FileName(dest))
    ensures ReadWalk(s', root, dest) == Lookup(s', root, dest)
    ensures Lookup(s, root, dest).Some? ==>
              Name(s1, Lookup(s, root, dest).value) == Name(s, Lookup(s, root, dest).value)
    ensures IsFolder(s1, root.value) && AddsNew(s, s1)
    ensures s1 == MakeDirs(s, foldsCase, root, FolderNames(dest)).0
  {
    var name := FileName(dest);
    var (t, folder) := MakeDirs(s, foldsCase, root, FolderNames(dest));
    s1, f := t, folder.value;
    FileNameEmpty(dest);
    MakeDirsAddsNew(s, foldsCase, root, FolderNames(dest));
    MakeDirsGrows(s, foldsCase, root, FolderNames(dest));
    assert Kept(s, s1, root.value);
    InsertFileValid(s1, foldsCase, f, name);
    InsertFileResolve(s1, foldsCase, f, name, root, FolderNames(dest));
    SendTargetBefore(s, foldsCase, root, dest);
    LookupByFolder(s1, root, dest);
    LookupByFolder(s', root, dest);
    if Lookup(s, root, dest).Some? {
      ResolveInStore(s, root, Components(dest));
      assert Kept(s, s1, Lookup(s, root, dest).value);
    }
  }

  /** Looking up a path is looking up its last component in the folder the others lead to. */
  lemma LookupByFolder(s: Store, root: Ptr, dest: string)
    requires dest !in {"", "/", "//"}
    ensures var folder := Resolve(s, root, FolderNames(dest));
            Lookup(s, root, dest) == if folder.None? then None else Child(s, folder.value, FileName(dest))
    ensures ReadWalk(s, root, dest) == Lookup(s, root, dest)
  {
    TransferComponents(dest);
    ResolveLast(s, root, Components(dest));
  }

  lemma InsertFileStores(s: Store, foldsCase: bool, f: Id, name: string, s': Store)
    requires InsertFile(s, foldsCase, f, name) == Some(s')
    ensures s.next in s'.nodes && s'.nodes[s.next] == Entry(name, File, [])
  {
  }

  /** A transfer that succeeds has stored one new file of the requested name. */
  lemma SendStores(s: Store, foldsCase: bool, root: Ptr, dest: string, s': Store, id: Id)
    requires Valid(s) && root.Some? && IsFolder(s, root.value)
    requires dest != "" && Send(s, foldsCase, root, dest) == Some(Stored(s', id))
    ensures id >= s.next && id in s'.nodes && s'.nodes[id] == Entry(FileName(dest), File, [])
    ensures Valid(s')
  {
    var s1, f := SendStages(s, foldsCase, root, dest, s', id);
    InsertFileStores(s1, foldsCase, f, FileName(dest), s');
  }

  /**
   * After a transfer the path leads to the stored file exactly when it led
   * nowhere before, or to an entry whose name the device takes for the file's
   * name.  (An entry that matches only after lower-casing hides the new file on
   * a case-sensitive device.)  read_file's own walk reaches the same storage.
   */
  lemma SendThenFind(s: Store, foldsCase: bool, root: Ptr, dest: string, s': Store, id: Id)
    requires Valid(s) && root.Some? && IsFolder(s, root.value)
    requires dest != "" && Send(s, foldsCase, root, dest) == Some(Stored(s', id))
    ensures var was := Lookup(s, root, dest);
            Lookup(s', root, dest) == Some(id)
            <==> was.None? || Same(foldsCase, Name(s, was.value), FileName(dest))
    ensures ReadWalk(s', root, dest) == Lookup(s', root, dest)
  {
    var s1, f := SendStages(s, foldsCase, root, dest, s', id);
    InsertFileStores(s1, foldsCase, f, FileName(dest), s');
    StoredIsFound(s1, foldsCase, f, FileName(dest));
  }

  /** What was sent under a path that led nowhere is there as a file. */
  lemma SentFileExists(s: Store, foldsCase: bool, root: Ptr, dest: string, s': Store, id: Id)
    requires Valid(s) && root.Some? && IsFolder(s, root.value)
    requires dest != "" && Send(s, foldsCase, root, dest) == Some(Stored(s', id))
    requires Lookup(s, root, dest).None?
    ensures Lookup(s', root, dest) == Some(id) && Exists(s', root, dest, File)
  {
    SendThenFind(s, foldsCase, root, dest, s', id);
    SendStores(s, foldsCase, root, dest, s', id);
  }

  /** A device that ignores case always finds what was sent. */
  lemma SendThenFindFoldingCase(s: Store, root: Ptr, dest: string, s': Store, id: Id)
    requires Valid(s) && root.Some? && IsFolder(s, root.value)
    requires dest != "" && Send(s, true, root, dest) == Some(Stored(s', id))
    ensures Lookup(s', root, dest) == Some(id)
  {
    SendThenFind(s, true, root, dest, s', id);
    var s1, f := SendStages(s, true, root, dest, s', id);
    assert Lookup(s, root, dest).Some? ==> Matches(s1, Lookup(s, root, dest).value, FileName(dest));
  }

  /** Every other path that led somewhere before a transfer leads to the same storage after it. */
  lemma SendKeepsOtherPaths(s: Store, foldsCase: bool, root: Ptr, dest: string, s': Store, id: Id, path: string)
    requires Valid(s) && root.Some? && IsFolder(s, root.value)
    requires dest != "" && Send(s, foldsCase, root, dest) == Some(Stored(s', id))
    requires Lookup(s, root, path).Some? && Lookup(s, root, path) != Lookup(s, root, dest)
    ensures Lookup(s', root, path) == Lookup(s, root, path)
  {
    if path !in {"/", "//"} {
      SendKeepsWalk(s, foldsCase, root, dest, s', id, Components(path));
    }
  }

  lemma SendKeepsWalk(s: Store, foldsCase: bool, root: Ptr, dest: string, s': Store, id: Id, names: seq<string>)
    requires Valid(s) && root.Some? && IsFolder(s, root.value)
    requires dest != "" && Send(s, foldsCase, root, dest) == Some(Stored(s', id))
    requires Resolve(s, root, names).Some? && Resolve(s, root, names) != Lookup(s, root, dest)
    ensures Resolve(s', root, names) == Resolve(s, root, names)
  {
    var s1, f := SendStages(s, foldsCase, root, dest, s', id);
    ExtendsResolve(s, s1, root, names);
    InsertFileKeeps(s1, foldsCase, f, FileName(dest), root, names);
  }

  /** A path that led nowhere leads nowhere after a transfer, or to a storage that the transfer made. */
  lemma SendAddsOnlyNew(s: Store, foldsCase: bool, root: Ptr, dest: string, s': Store, id: Id, path: string)
    requires Valid(s) && root.Some? && IsFolder(s, root.value)
    requires dest != "" && Send(s, foldsCase, root, dest) == Some(Stored(s', id))
    requires Lookup(s, root, path).None?
    ensures NoneOrNew(s, Lookup(s', root, path))
  {
    if path != "" {
      var s1, f := SendStages(s, foldsCase, root, dest, s', id);
      NowhereOrNew(s, s1, root, Components(path));
      InsertFileResolve(s1, foldsCase, f, FileName(dest), root, Components(path));
    }
  }

  /** Storing a file leaves alone every path but those to the entry its name led to. */
  lemma InsertFileKeeps(s: Store, foldsCase: bool, f: Id, name: string, from: Ptr, names: seq<string>)
    requires Valid(s) && from.Some? && IsFolder(s, from.value)
    requires InsertFile(s, foldsCase, f, name).Some? && Resolve(s, from, names).Some?
    requires Resolve(s, from, names) != Child(s, f, name)
    ensures Resolve(InsertFile(s, foldsCase, f, name).value, from, names) == Resolve(s, from, names)
  {
    InsertFileResolve(s, foldsCase, f, name, from, names);
    if Resolve(s, from, names) == Replaced(s, foldsCase, f, name) {
      ReplacedIsChild(s, foldsCase, f, name, from, names);
    }
  }

  /** A replaced file that some path led to is the one its own name led to. */
  lemma ReplacedIsChild(s: Store, foldsCase: bool, f: Id, name: string, from: Ptr, names: seq<string>)
    requires Valid(s) && from.Some? && IsFolder(s, from.value)
    requires InsertFile(s, foldsCase, f, name).Some? && Resolve(s, from, names).Some?
    requires Resolve(s, from, names) == Replaced(s, foldsCase, f, name)
    ensures Resolve(s, from, names) == Child(s, f, name)
  {
    assert names != [];
    ResolveLast(s, from, names);
    var g := Resolve(s, from, names[..|names| - 1]).value;
    var x := Resolve(s, from, names).value;
    assert Lists(s, g, x) && Lists(s, f, x);
    FirstMatchFoldsCase(s, Children(s, f), names[|names| - 1], name);
  }

  /** The stored file answers to its name unless an entry hides it that the device has under another name. */
  lemma StoredIsFound(s: Store, foldsCase: bool, f: Id, name: string)
    requires Valid(s) && InsertFile(s, foldsCase, f, name).Some?
    ensures var was := Child(s, f, name);
            Child(InsertFile(s, foldsCase, f, name).value, f, name) == Some(s.next)
            <==> was.None? || Same(foldsCase, Name(s, was.value), name)
  {
    InsertFileChild(s, foldsCase, f, name, f, name);
    ChildFacts(s, f);
    FirstSameIsFirstMatch(s, foldsCase, Children(s, f), name);
  }

  lemma {:induction false} FirstSameIsFirstMatch(s: Store, foldsCase: bool, cs: seq<Id>, name: string)
    ensures var was := FirstMatch(s, cs, name);
            var k := FirstSame(s, foldsCase, cs, name);
            && (was.None? ==> k.None?)
            && (was.Some? && Same(foldsCase, Name(s, was.value), name) ==> k.Some? && was == Some(cs[k.value]))
            && (was.Some? && !Same(foldsCase, Name(s, was.value), name) && NoDup(cs) && k.Some?
                ==> was != Some(cs[k.value]))
  {
    if cs != [] && !Matches(s, cs[0], name) {
      FirstSameIsFirstMatch(s, foldsCase, cs[1..], name);
    }
  }

  /** The folder loop does not change where the whole destination path leads. */
  lemma SendTargetBefore(s: Store, foldsCase: bool, root: Ptr, dest: string)
    requires Valid(s) && root.Some? && root.value in s.nodes && dest !in {"", "/", "//"}
    ensures var (s1, folder) := MakeDirs(s, foldsCase, root, FolderNames(dest));
            folder.Some? ==> Lookup(s1, root, dest) == Lookup(s, root, dest)
  {
    var init := FolderNames(dest);
    if Resolve(s, root, init).Some? {
      MakeDirsOfResolved(s, foldsCase, root, init);
    } else {
      MakeDirsNewIsEmpty(s, foldsCase, root, init);
      MakeDirsGrows(s, foldsCase, root, init);
      LookupByFolder(s, root, dest);
      LookupByFolder(MakeDirs(s, foldsCase, root, init).0, root, dest);
    }
  }

  lemma {:induction false} MakeDirsNewIsEmpty(s: Store, foldsCase: bool, from: Ptr, names: seq<string>)
    requires Valid(s) && from.Some? && from.value in s.nodes && Resolve(s, from, names).None?
    ensures var (s', r) := MakeDirs(s, foldsCase, from, names);
            r.Some? ==> IsFolder(s', r.value) && Children(s', r.value) == []
    decreases |names|
  {
    var f, name := from.value, names[0];
    var (s1, next) := EnterOrMake(s, foldsCase, f, name);
    EnterOrMakeEffect(s, foldsCase, f, name);
    if next.Some? {
      if Child(s, f, name).None? {
        if names[1..] != [] {
          ResolveBelowLeaf(s1, next, names[1..]);
        }
        InsertFolderEffect(s, foldsCase, f, name);
      }
      if Resolve(s1, next, names[1..]).None? {
        MakeDirsNewIsEmpty(s1, foldsCase, next, names[1..]);
      }
    }
  }

  // ------------------------------------------------------ when a transfer stores

  /** Does the device take some folder for the one that a file of this name would replace? */
  predicate FolderInTheWay(s: Store, foldsCase: bool, f: Id, name: string) {
    var k := FirstSame(s, foldsCase, Children(s, f), name);
    k.Some? && IsFolder(s, Children(s, f)[k.value])
  }

  /**
   * What must hold before a transfer: dest names a file, the last storage its
   * folders lead to is a folder, and no folder there has the file's name.
   */
  predicate CanStore(s: Store, foldsCase: bool, root: Ptr, dest: string)
    requires dest != ""
  {
    && root.Some? && !EndsInSlash(dest)
    && var names := FolderNames(dest);
       var k := Depth(s, root, names);
       var last := Resolve(s, root, names[..k]);
       && last.Some? && IsFolder(s, last.value)
       && (k == |names| ==> !FolderInTheWay(s, foldsCase, last.value, FileName(dest)))
  }

  lemma FolderNamesValid(dest: string)
    requires dest != ""
    ensures forall n :: n in FolderNames(dest) ==> ValidName(n)
  {
    TransferComponents(dest);
    var v := Components(dest);
    forall n | n in FolderNames(dest) ensures ValidName(n) {
      assert n in v[..|v| - 1];
    }
  }

  /** When Insert3 stores a file; in a folder without entries nothing is in the way. */
  lemma InsertFileSucceeds(s: Store, foldsCase: bool, f: Id, name: string)
    ensures InsertFile(s, foldsCase, f, name).Some?
            <==> IsFolder(s, f) && ValidName(name) && !FolderInTheWay(s, foldsCase, f, name)
    ensures Children(s, f) == [] ==> !FolderInTheWay(s, foldsCase, f, name)
  {
  }

  /** When a transfer stores its file, by the folder the loop ends in, which is empty if the loop has made it. */
  lemma SendSucceedsByLoop(s: Store, foldsCase: bool, root: Ptr, dest: string)
    requires Valid(s) && root.Some? && root.value in s.nodes && dest != ""
    ensures var names := FolderNames(dest);
            var folder := MakeDirs(s, foldsCase, root, names).1;
            Send(s, foldsCase, root, dest).Some?
            <==> folder.Some? && !EndsInSlash(dest)
                 && (Resolve(s, root, names).Some? ==>
                       IsFolder(s, folder.value) && !FolderInTheWay(s, foldsCase, folder.value, FileName(dest)))
  {
    var names := FolderNames(dest);
    var (s1, folder) := MakeDirs(s, foldsCase, root, names);
    FileNameEmpty(dest);
    if folder.Some? {
      InsertFileSucceeds(s1, foldsCase, folder.value, FileName(dest));
      if Resolve(s, root, names).Some? {
        MakeDirsOfResolved(s, foldsCase, root, names);
      } else {
        MakeDirsNewIsEmpty(s, foldsCase, root, names);
      }
    }
  }

  /** A transfer stores its file exactly when that holds of the tree before it. */
  lemma SendSucceedsExactly(s: Store, foldsCase: bool, root: Ptr, dest: string)
    requires Valid(s) && (root.Some? ==> root.value in s.nodes) && dest != ""
    ensures Send(s, foldsCase, root, dest).Some? <==> CanStore(s, foldsCase, root, dest)
  {
    if root.Some? {
      var names := FolderNames(dest);
      FolderNamesValid(dest);
      SendSucceedsByLoop(s, foldsCase, root, dest);
      MakeDirsExact(s, foldsCase, root, names);
      DepthResolves(s, root, names, |names|);
      assert names[..|names|] == names;
      if Resolve(s, root, names).Some? {
        MakeDirsOfResolved(s, foldsCase, root, names);
      }
    }
  }

  // ------------------------------------------------- trees in which names hide

  /** A folder "A" alone. */
  function OneFolder(): (s: Store)
    ensures Valid(s)
  {
    var s := Store(map[0 := Entry("", Folder, [1]), 1 := Entry("A", Folder, [])], 2);
    assert ValidEntry(s, 0) && ValidEntry(s, 1);
    s
  }

  /** A folder "A" in front of a file "a". */
  function HidingStore(): (s: Store)
    ensures Valid(s)
  {
    var s := Store(map[0 := Entry("", Folder, [1, 2]), 1 := Entry("A", Folder, []), 2 := Entry("a", File, [])], 3);
    assert ValidEntry(s, 0) && ValidEntry(s, 1) && ValidEntry(s, 2);
    s
  }

  /** A path that is just a name is looked up, and sent to, in the root. */
  lemma PathOfName(s: Store, foldsCase: bool, root: Id, name: string)
    requires ValidName(name)
    ensures FolderNames(name) == [] && FileName(name) == name
    ensures Lookup(s, Some(root), name) == Child(s, root, name)
    ensures Send(s, foldsCase, Some(root), name) == StoreAfter(s, foldsCase, Some(root), name)
  {
    FieldsByOfName(name, '/');
    ComponentsByEnding(name);
    assert name[|name| - 1] in name;
    assert Components(name) == [name] by {
      assert [name][1..] == [];
    }
    TransferComponents(name);
    LookupByFolder(s, Some(root), name);
  }

  /** A file sent to "a" beside a folder "A" is stored and then not found on a case-sensitive device. */
  lemma SentFileCanBeHidden()
    ensures var s := OneFolder();
            exists s' :: Send(s, false, Some(0), "a") == Some(Stored(s', 2)) && Lookup(s', Some(0), "a") == Some(1)
  {
    var s := OneFolder();
    PathOfName(s, false, 0, "a");
    assert Name(s, 1) == "A" && Children(s, 0) == [1];
    assert Lower("A") == "a" == Lower("a");
    assert FirstSame(s, false, [1], "a").None?;
    var s' := InsertFile(s, false, 0, "a").value;
    InsertFileChild(s, false, 0, "a", 0, "a");
    PathOfName(s', false, 0, "a");
  }

  /** A file sent to "A" where there is a folder "A" is not stored; transfer_file returns 0 all the same. */
  lemma FolderIsNotReplaced(foldsCase: bool)
    ensures !CanStore(OneFolder(), foldsCase, Some(0), "A")
  {
    var s := OneFolder();
    PathOfName(s, foldsCase, 0, "A");
    assert Name(s, 1) == "A" && Children(s, 0) == [1];
    assert FirstSame(s, foldsCase, [1], "A") == Some(0);
    SendSucceedsExactly(s, foldsCase, Some(0), "A");
  }
}
