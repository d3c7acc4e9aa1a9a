/**
 * Laws of the transfer's folder loop: it only grows the tree, makes exactly
 * the folders that are missing, and a second run makes none.
 */
module FolderLoop {
  import opened Wrappers
  import opened Sequences
  import opened Paths
  import opened StorageTree

  ghost predicate Kept(s: Store, s': Store, p: Id)
    requires p in s.nodes
  {
    && p in s'.nodes
    && s'.nodes[p].name == s.nodes[p].name
    && s'.nodes[p].kind == s.nodes[p].kind
    && s.nodes[p].children <= s'.nodes[p].children
  }

  /** Every storage is still there, keeps its name and kind, and lists its old children first. */
  ghost predicate Extends(s: Store, s': Store) {
    s.next <= s'.next && forall p {:trigger Kept(s, s', p)} :: p in s.nodes ==> Kept(s, s', p)
  }

  lemma ExtendsChild(s: Store, s': Store, f: Id, name: string)
    requires Valid(s) && Extends(s, s') && Child(s, f, name).Some?
    ensures Child(s', f, name) == Child(s, f, name)
  {
    var cs, cs' := Children(s, f), Children(s', f);
    ChildFacts(s, f);
    assert Kept(s, s', f);
    forall c | c in cs ensures Name(s, c) == Name(s', c) {
      assert Kept(s, s', c);
    }
    FirstMatchSameNames(s, s', cs, name);
    FirstMatchAppend(s', cs, cs'[|cs|..], name);
    assert cs' == cs + cs'[|cs|..];
  }

  /** In a grown tree every path that led somewhere leads to the same storage. */
  lemma {:induction false} ExtendsResolve(s: Store, s': Store, from: Ptr, names: seq<string>)
    requires Valid(s) && Extends(s, s') && Resolve(s, from, names).Some?
    ensures Resolve(s', from, names) == Resolve(s, from, names)
    decreases |names|
  {
    if names != [] {
      var c := Child(s, from.value, names[0]);
      if c.Some? {
        ExtendsChild(s, s', from.value, names[0]);
        ExtendsResolve(s, s', c, names[1..]);
      }
    }
  }

  lemma ExtendsLookup(s: Store, s': Store, root: Ptr, path: string)
    requires Valid(s) && Extends(s, s') && Lookup(s, root, path).Some?
    ensures Lookup(s', root, path) == Lookup(s, root, path)
  {
    if path != "/" && path != "//" {
      ExtendsResolve(s, s', root, Components(path));
    }
  }

  lemma ExtendsTransitive(a: Store, b: Store, c: Store)
    requires Extends(a, b) && Extends(b, c)
    ensures Extends(a, c)
  {
    forall p | p in a.nodes ensures Kept(a, c, p) {
      assert Kept(a, b, p) && Kept(b, c, p);
    }
  }

  lemma WithNewChild(s: Store, f: Id, cs: seq<Id>, name: string, kind: Kind, other: string)
    requires Valid(s) && IsFolder(s, f)
    requires forall c :: c in cs ==> c in s.nodes
    ensures var s' := WithNew(s, f, cs + [s.next], name, kind);
            Child(s', f, other)
            == if FirstMatch(s, cs, other).Some? then FirstMatch(s, cs, other)
               else if Lower(name) == Lower(other) then Some(s.next) else None
  {
    var s' := WithNew(s, f, cs + [s.next], name, kind);
    ChildFacts(s, f);
    FirstMatchAppend(s', cs, [s.next], other);
    FirstMatchSameNames(s, s', cs, other);
    assert Children(s', f) == cs + [s.next];
  }

  lemma InsertFolderEffect(s: Store, foldsCase: bool, f: Id, name: string)
    requires Valid(s) && Child(s, f, name).None? && InsertFolder(s, foldsCase, f, name).Some?
    ensures var s' := InsertFolder(s, foldsCase, f, name).value;
            && Valid(s') && Extends(s, s')
            && s'.next == s.next + 1
            && Child(s', f, name) == Some(s.next)
            && IsFolder(s', s.next) && Children(s', s.next) == []
  {
    ChildFacts(s, f);
    InsertFolderValid(s, foldsCase, f, name);
    WithNewChild(s, f, Children(s, f), name, Folder, name);
    var s' := InsertFolder(s, foldsCase, f, name).value;
    forall p | p in s.nodes ensures Kept(s, s', p) {
    }
  }

  /** When no name matches blindly, the device itself has no such name either. */
  lemma NoMatchNoSame(s: Store, foldsCase: bool, f: Id, name: string)
    requires Child(s, f, name).None?
    ensures FirstSame(s, foldsCase, Children(s, f), name).None?
  {
    var cs := Children(s, f);
    var r := FirstSame(s, foldsCase, cs, name);
    if r.Some? {
      assert Matches(s, cs[r.value], name);
    }
  }

  lemma EnterOrMakeEffect(s: Store, foldsCase: bool, f: Id, name: string)
    requires Valid(s) && f in s.nodes
    ensures var (s', r) := EnterOrMake(s, foldsCase, f, name);
            && Valid(s') && Extends(s, s')
            && (r.Some? ==> r.value in s'.nodes && Child(s', f, name) == r)
            && (r.None? ==> s' == s && Child(s, f, name).None?)
  {
    if Child(s, f, name).Some? {
      ChildNamed(s, f, name);
    } else if InsertFolder(s, foldsCase, f, name).Some? {
      InsertFolderEffect(s, foldsCase, f, name);
    }
  }

  /**
   * The loop keeps the tree valid and only grows it, wherever it stops, and
   * when it completes the path leads to the folder it ended in.
   */
  lemma {:induction false} MakeDirsGrows(s: Store, foldsCase: bool, from: Ptr, names: seq<string>)
    requires Valid(s) && (from.Some? ==> from.value in s.nodes)
    ensures var (s', r) := MakeDirs(s, foldsCase, from, names);
            && Valid(s') && Extends(s, s')
            && (r.Some? ==> r.value in s'.nodes && Resolve(s', from, names) == r)
    decreases |names|
  {
    if from.Some? && names != [] {
      var (s1, next) := EnterOrMake(s, foldsCase, from.value, names[0]);
      var (s', r) := MakeDirs(s1, foldsCase, next, names[1..]);
      EnterOrMakeEffect(s, foldsCase, from.value, names[0]);
      MakeDirsGrows(s1, foldsCase, next, names[1..]);
      ExtendsTransitive(s, s1, s');
      if r.Some? {
        ExtendsChild(s1, s', from.value, names[0]);
      }
    }
  }

  /** Where every folder is there already the loop changes nothing and ends where the path leads. */
  lemma {:induction false} MakeDirsOfResolved(s: Store, foldsCase: bool, from: Ptr, names: seq<string>)
    requires Resolve(s, from, names).Some?
    ensures MakeDirs(s, foldsCase, from, names) == (s, Resolve(s, from, names))
    decreases |names|
  {
    if names != [] && from.Some? {
      MakeDirsOfResolved(s, foldsCase, Child(s, from.value, names[0]), names[1..]);
    }
  }

  /** A second run of a completed loop makes nothing and ends in the same folder. */
  lemma MakeDirsIdempotent(s: Store, foldsCase: bool, from: Ptr, names: seq<string>)
    requires Valid(s) && (from.Some? ==> from.value in s.nodes)
    requires MakeDirs(s, foldsCase, from, names).1.Some?
    ensures var (s', r) := MakeDirs(s, foldsCase, from, names);
            MakeDirs(s', foldsCase, from, names) == (s', r)
  {
    var (s', r) := MakeDirs(s, foldsCase, from, names);
    MakeDirsGrows(s, foldsCase, from, names);
    MakeDirsOfResolved(s', foldsCase, from, names);
  }

  /** Running the loop over a and then b is one run over a + b. */
  lemma {:induction false} MakeDirsConcat(s: Store, foldsCase: bool, from: Ptr, a: seq<string>, b: seq<string>)
    ensures var (s1, mid) := MakeDirs(s, foldsCase, from, a);
            MakeDirs(s, foldsCase, from, a + b)
            == if mid.None? then (s1, None) else MakeDirs(s1, foldsCase, mid, b)
    decreases |a|
  {
    if a == [] {
      EmptyConcat(b);
    } else if from.Some? {
      HeadTail(a, b);
      var (s1, next) := EnterOrMake(s, foldsCase, from.value, a[0]);
      MakeDirsConcat(s1, foldsCase, next, a[1..], b);
    }
  }

  // --------------------------------------------- exactly what the loop makes

  /** How many leading names lead somewhere. */
  function Depth(s: Store, from: Ptr, names: seq<string>): (k: nat)
    ensures k <= |names|
    decreases |names|
  {
    if from.None? || names == [] || Child(s, from.value, names[0]).None? then 0
    else 1 + Depth(s, Child(s, from.value, names[0]), names[1..])
  }

  lemma {:induction false} DepthResolves(s: Store, from: Ptr, names: seq<string>, k: nat)
    requires from.Some? && k <= |names|
    ensures Resolve(s, from, names[..k]).Some? <==> k <= Depth(s, from, names)
    decreases k
  {
    if k > 0 {
      assert names[..k][0] == names[0] && names[..k][1..] == names[1..][..k - 1];
      var c := Child(s, from.value, names[0]);
      if c.Some? {
        DepthResolves(s, c, names[1..], k - 1);
      }
    }
  }

  lemma {:induction false} MakeDirsFresh(s: Store, foldsCase: bool, f: Id, names: seq<string>)
    requires Valid(s) && IsFolder(s, f) && Children(s, f) == []
    requires forall n :: n in names ==> ValidName(n)
    ensures var (s', r) := MakeDirs(s, foldsCase, Some(f), names);
            r.Some? && s'.next == s.next + |names|
    decreases |names|
  {
    if names != [] {
      assert names[0] in names;
      NoMatchNoSame(s, foldsCase, f, names[0]);
      InsertFolderEffect(s, foldsCase, f, names[0]);
      var s1 := InsertFolder(s, foldsCase, f, names[0]).value;
      MakeDirsFresh(s1, foldsCase, s.next, names[1..]);
    }
  }

  /**
   * The loop completes exactly when the whole path is there or the last
   * storage it reaches is a folder; it then makes one folder for each missing
   * name.  When it does not complete it has made nothing.
   */
  lemma {:induction false} MakeDirsExact(s: Store, foldsCase: bool, from: Ptr, names: seq<string>)
    requires Valid(s) && from.Some? && from.value in s.nodes
    requires forall n :: n in names ==> ValidName(n)
    ensures var (s', r) := MakeDirs(s, foldsCase, from, names);
            var k := Depth(s, from, names);
            var last := Resolve(s, from, names[..k]);
            && last.Some?
            && (r.Some? <==> k == |names| || IsFolder(s, last.value))
            && (r.Some? ==> s'.next == s.next + (|names| - k))
            && (r.None? ==> s' == s)
    decreases |names|
  {
    var k := Depth(s, from, names);
    DepthResolves(s, from, names, k);
    if names != [] {
      assert names[0] in names;
      var c := Child(s, from.value, names[0]);
      if c.Some? {
        ChildNamed(s, from.value, names[0]);
        MakeDirsExact(s, foldsCase, c, names[1..]);
        assert names[..k][0] == names[0] && names[..k][1..] == names[1..][..k - 1];
        assert Resolve(s, from, names[..k]) == Resolve(s, c, names[1..][..k - 1]);
        assert MakeDirs(s, foldsCase, from, names) == MakeDirs(s, foldsCase, c, names[1..]);
      } else if IsFolder(s, from.value) {
        NoMatchNoSame(s, foldsCase, from.value, names[0]);
        InsertFolderEffect(s, foldsCase, from.value, names[0]);
        var s1 := InsertFolder(s, foldsCase, from.value, names[0]).value;
        assert names[..k] == [];
        MakeDirsFresh(s1, foldsCase, s.next, names[1..]);
      }
    }
  }

  // ------------------------------------------------------- nothing old turns up

  ghost predicate OnlyNew(s: Store, s': Store, p: Id) {
    forall c :: c in Children(s', p) ==> c in Children(s, p) || c >= s.next
  }

  /** What the folders of the tree list in addition is new. */
  ghost predicate AddsNew(s: Store, s': Store) {
    s.next <= s'.next && forall p {:trigger OnlyNew(s, s', p)} :: p in s.nodes ==> OnlyNew(s, s', p)
  }

  /** An end that is NULL or a storage that was not there before. */
  predicate NoneOrNew(s: Store, p: Ptr) {
    p.None? || p.value >= s.next
  }

  lemma NewChildIsNew(s: Store, s': Store, f: Id, name: string)
    requires Valid(s) && Extends(s, s') && AddsNew(s, s') && f in s.nodes && Child(s, f, name).None?
    ensures NoneOrNew(s, Child(s', f, name))
  {
    assert OnlyNew(s, s', f);
    var c := Child(s', f, name);
    if c.Some? && c.value in Children(s, f) {
      ChildFacts(s, f);
      assert Kept(s, s', c.value);
      assert Matches(s, c.value, name);
    }
  }

  /** A path that led nowhere leads nowhere or to a new storage in a tree that has only new entries. */
  lemma {:induction false} NowhereOrNew(s: Store, s': Store, from: Ptr, names: seq<string>)
    requires Valid(s) && Valid(s') && Extends(s, s') && AddsNew(s, s')
    requires (from.Some? ==> from.value in s.nodes) && Resolve(s, from, names).None?
    ensures NoneOrNew(s, Resolve(s', from, names))
    decreases |names|
  {
    if from.Some? {
      var c, c' := Child(s, from.value, names[0]), Child(s', from.value, names[0]);
      if c.Some? {
        ChildNamed(s, from.value, names[0]);
        ExtendsChild(s, s', from.value, names[0]);
        NowhereOrNew(s, s', c, names[1..]);
      } else {
        NewChildIsNew(s, s', from.value, names[0]);
        if Resolve(s', c', names[1..]).Some? {
          ResolveIncreases(s', c', names[1..]);
        }
      }
    }
  }

  lemma InsertFolderAddsNew(s: Store, foldsCase: bool, f: Id, name: string)
    requires InsertFolder(s, foldsCase, f, name).Some?
    ensures AddsNew(s, InsertFolder(s, foldsCase, f, name).value)
  {
    var s' := InsertFolder(s, foldsCase, f, name).value;
    forall p | p in s.nodes ensures OnlyNew(s, s', p) {
      assert p != s.next && p != f ==> Children(s', p) == Children(s, p);
    }
  }

  lemma AddsNewTransitive(a: Store, b: Store, c: Store)
    requires Extends(a, b) && AddsNew(a, b) && AddsNew(b, c)
    ensures AddsNew(a, c)
  {
    forall p | p in a.nodes ensures OnlyNew(a, c, p) {
      assert Kept(a, b, p) && OnlyNew(a, b, p) && OnlyNew(b, c, p);
    }
  }

  lemma {:induction false} MakeDirsAddsNew(s: Store, foldsCase: bool, from: Ptr, names: seq<string>)
    requires Valid(s) && (from.Some? ==> from.value in s.nodes)
    ensures AddsNew(s, MakeDirs(s, foldsCase, from, names).0)
    decreases |names|
  {
    if from.Some? && names != [] {
      var f, name := from.value, names[0];
      var (s1, next) := EnterOrMake(s, foldsCase, f, name);
      EnterOrMakeEffect(s, foldsCase, f, name);
      assert AddsNew(s, s1) by {
        if Child(s, f, name).None? && InsertFolder(s, foldsCase, f, name).Some? {
          InsertFolderAddsNew(s, foldsCase, f, name);
        } else {
          forall p | p in s.nodes ensures OnlyNew(s, s1, p) {
          }
        }
      }
      MakeDirsAddsNew(s1, foldsCase, next, names[1..]);
      AddsNewTransitive(s, s1, MakeDirs(s, foldsCase, from, names).0);
    } else {
      forall p | p in s.nodes ensures OnlyNew(s, s, p) {
      }
    }
  }

  // ------------------------------------------------------- sibling uniqueness

  ghost predicate UniqueIn(s: Store, cs: seq<Id>) {
    forall i, j :: 0 <= i < j < |cs| ==> Lower(Name(s, cs[i])) != Lower(Name(s, cs[j]))
  }

  /** No folder holds two names that differ at most in case. */
  ghost predicate SiblingsUnique(s: Store) {
    forall f {:trigger UniqueIn(s, s.nodes[f].children)} :: f in s.nodes ==> UniqueIn(s, s.nodes[f].children)
  }

  lemma InsertFolderUnique(s: Store, foldsCase: bool, f: Id, name: string)
    requires Valid(s) && SiblingsUnique(s)
    requires Child(s, f, name).None? && InsertFolder(s, foldsCase, f, name).Some?
    ensures SiblingsUnique(InsertFolder(s, foldsCase, f, name).value)
  {
    var s' := InsertFolder(s, foldsCase, f, name).value;
    ChildFacts(s, f);
    forall g | g in s'.nodes ensures UniqueIn(s', s'.nodes[g].children) {
      if g in s.nodes {
        var cs := s.nodes[g].children;
        assert UniqueIn(s, cs);
        assert ValidEntry(s, g);
        forall i | 0 <= i < |cs| ensures Name(s', cs[i]) == Name(s, cs[i]) {
          assert cs[i] in cs && ValidEntry(s, cs[i]);
        }
        if g == f {
          assert forall i :: 0 <= i < |cs| ==> !Matches(s, cs[i], name);
        }
      }
    }
  }

  /** The folder loop never makes a folder beside one whose name differs only in case. */
  lemma {:induction false} MakeDirsKeepsSiblingsUnique(s: Store, foldsCase: bool, from: Ptr, names: seq<string>)
    requires Valid(s) && SiblingsUnique(s) && (from.Some? ==> from.value in s.nodes)
    ensures SiblingsUnique(MakeDirs(s, foldsCase, from, names).0)
    decreases |names|
  {
    if from.Some? && names != [] {
      var f, name := from.value, names[0];
      if Child(s, f, name).None? && InsertFolder(s, foldsCase, f, name).Some? {
        InsertFolderUnique(s, foldsCase, f, name);
      }
      EnterOrMakeEffect(s, foldsCase, f, name);
      var (s1, next) := EnterOrMake(s, foldsCase, f, name);
      MakeDirsKeepsSiblingsUnique(s1, foldsCase, next, names[1..]);
    }
  }
}
