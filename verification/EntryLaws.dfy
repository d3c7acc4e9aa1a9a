/**
 * Creating, deleting and listing entries: what paths lead to afterwards, and
 * what a listing says about paths.
 */
module EntryLaws {
  import opened Wrappers
  import opened Sequences
  import opened Paths
  import opened StorageTree
  import opened FolderLoop
  import opened PathLaws
  import opened LoopResult

  // ---------------------------------------------------------- create then find

  lemma InsertFolderExtends(s: Store, foldsCase: bool, f: Id, name: string, s': Store)
    requires Valid(s) && InsertFolder(s, foldsCase, f, name) == Some(s')
    ensures Extends(s, s') && s'.next == s.next + 1
    ensures s.next in s'.nodes && s'.nodes[s.next] == Entry(name, Folder, [])
  {
    ChildFacts(s, f);
    forall p | p in s.nodes ensures Kept(s, s', p) {
    }
  }

  lemma InsertFolderGrows(s: Store, foldsCase: bool, f: Id, name: string, s': Store)
    requires Valid(s) && InsertFolder(s, foldsCase, f, name) == Some(s')
    ensures Valid(s') && Extends(s, s')
    ensures s.next in s'.nodes && s'.nodes[s.next] == Entry(name, Folder, [])
    ensures Child(s', f, name) == if Child(s, f, name).Some? then Child(s, f, name) else Some(s.next)
  {
    InsertFolderExtends(s, foldsCase, f, name, s');
    InsertFolderValid(s, foldsCase, f, name);
    ChildFacts(s, f);
    WithNewChild(s, f, Children(s, f), name, Folder, name);
  }

  /** The cut of create_folder_mtp: parent, slash, name. */
  lemma CreatePathParts(path: string)
    requires CreatedName(path) != ""
    ensures path == ParentPath(path) + "/" + CreatedName(path)
    ensures '/' !in CreatedName(path)
  {
  }

  /**
   * What must hold before a create: there are a parent path and a name, the
   * parent is a folder, and the device takes no entry of it for that name.
   */
  predicate CanCreate(s: Store, foldsCase: bool, root: Ptr, path: string) {
    && ParentPath(path) != "" && CreatedName(path) != ""
    && var f := Lookup(s, root, ParentPath(path));
       && f.Some? && IsFolder(s, f.value)
       && forall c :: c in s.nodes[f.value].children ==> !Same(foldsCase, Name(s, c), CreatedName(path))
  }

  /** Insert of a folder succeeds exactly then, and adds just that folder at the end. */
  lemma InsertFolderExactly(s: Store, foldsCase: bool, f: Id, name: string)
    requires Valid(s)
    ensures InsertFolder(s, foldsCase, f, name).Some?
            <==> IsFolder(s, f) && ValidName(name)
                 && forall c :: c in s.nodes[f].children ==> !Same(foldsCase, Name(s, c), name)
    ensures InsertFolder(s, foldsCase, f, name).Some? ==>
              Grafted(s, InsertFolder(s, foldsCase, f, name).value, f, [name])
  {
    if IsFolder(s, f) {
      var cs := s.nodes[f].children;
      var k := FirstSame(s, foldsCase, cs, name);
      assert k.Some? ==> cs[k.value] in cs;
    }
    if InsertFolder(s, foldsCase, f, name).Some? {
      assert [name][1..] == [];
      GraftNone(InsertFolder(s, foldsCase, f, name).value, s.next);
      GraftStep(s, InsertFolder(s, foldsCase, f, name).value, f, [name]);
    }
  }

  /** A create makes its folder exactly when that holds of the tree before it. */
  lemma CreateSucceedsExactly(s: Store, foldsCase: bool, root: Ptr, path: string)
    requires Valid(s)
    ensures CreateFolder(s, foldsCase, root, path).Some? <==> CanCreate(s, foldsCase, root, path)
  {
    var f := Lookup(s, root, ParentPath(path));
    if CreatedName(path) != "" && f.Some? {
      CreatePathParts(path);
      InsertFolderExactly(s, foldsCase, f.value, CreatedName(path));
    }
  }

  /** Spelled out for a parent path and a name; what is made is just the one folder, under that name. */
  lemma CreateBelow(s: Store, foldsCase: bool, root: Ptr, parent: string, name: string)
    requires Valid(s) && parent != "" && ValidName(name)
    ensures var f := Lookup(s, root, parent);
            var made := CreateFolder(s, foldsCase, root, parent + "/" + name);
            && (made.Some? <==>
                  && f.Some? && IsFolder(s, f.value)
                  && forall c :: c in s.nodes[f.value].children ==> !Same(foldsCase, Name(s, c), name))
            && (made.Some? ==> Grafted(s, made.value, f.value, [name]))
  {
    CreateParts(parent, name);
    var f := Lookup(s, root, parent);
    if f.Some? {
      InsertFolderExactly(s, foldsCase, f.value, name);
    }
  }

  /**
   * After a folder is created its path leads to it exactly when it led nowhere
   * before; every path that led somewhere still leads there.
   */
  lemma CreateThenFind(s: Store, foldsCase: bool, root: Ptr, path: string, s': Store)
    requires Valid(s) && root.Some? && root.value in s.nodes
    requires CreateFolder(s, foldsCase, root, path) == Some(s')
    ensures Valid(s') && Extends(s, s')
    ensures s.next in s'.nodes && s'.nodes[s.next] == Entry(CreatedName(path), Folder, [])
    ensures Lookup(s', root, path) == Some(s.next) <==> Lookup(s, root, path).None?
  {
    var parent, name := ParentPath(path), CreatedName(path);
    var f := Lookup(s, root, parent).value;
    CreatePathParts(path);
    InsertFolderGrows(s, foldsCase, f, name, s');
    ExtendsLookup(s, s', root, parent);
    assert Kept(s, s', root.value);
    LookupChild(s, root, parent, name);
    LookupChild(s', root, parent, name);
    ChildFacts(s, f);
  }

  /** On a device that ignores case a created folder is always found. */
  lemma CreateThenFindFoldingCase(s: Store, root: Ptr, path: string, s': Store)
    requires Valid(s) && root.Some? && root.value in s.nodes
    requires CreateFolder(s, true, root, path) == Some(s')
    ensures Lookup(s', root, path) == Some(s.next)
  {
    var parent, name := ParentPath(path), CreatedName(path);
    var f := Lookup(s, root, parent).value;
    CreatePathParts(path);
    CreateThenFind(s, true, root, path, s');
    LookupChild(s, root, parent, name);
    if Child(s, f, name).Some? {
      assert Matches(s, Child(s, f, name).value, name);
      FirstSameIsFirstMatch(s, true, Children(s, f), name);
    }
  }

  lemma StoredIdsSmall(s: Store, id: Id)
    requires Valid(s) && id in s.nodes
    ensures id < s.next
  {
    assert ValidEntry(s, id);
  }

  lemma EndIsStored(s: Store, s': Store, root: Ptr, names: seq<string>)
    requires Valid(s') && Extends(s, s') && root.Some? && root.value in s.nodes
    ensures Resolve(s', root, names).Some? ==> Resolve(s', root, names).value < s'.next
  {
    assert Kept(s, s', root.value);
    if Resolve(s', root, names).Some? {
      ResolveInStore(s', root, names);
      StoredIdsSmall(s', Resolve(s', root, names).value);
    }
  }

  /** Where only one storage is new, a path that led nowhere leads nowhere or to that one. */
  lemma NowhereOrTheNew(s: Store, s': Store, root: Ptr, names: seq<string>)
    requires Valid(s) && Valid(s') && Extends(s, s') && AddsNew(s, s') && s'.next == s.next + 1
    requires root.Some? && root.value in s.nodes && Resolve(s, root, names).None?
    ensures Resolve(s', root, names).None? || Resolve(s', root, names) == Some(s.next)
  {
    NowhereOrNew(s, s', root, names);
    EndIsStored(s, s', root, names);
  }

  /** After a create a path that led nowhere leads nowhere or to the new folder. */
  lemma CreateAddsOnlyNew(s: Store, foldsCase: bool, root: Ptr, path: string, s': Store, other: string)
    requires Valid(s) && root.Some? && root.value in s.nodes
    requires CreateFolder(s, foldsCase, root, path) == Some(s')
    requires Lookup(s, root, other).None?
    ensures Lookup(s', root, other).None? || Lookup(s', root, other) == Some(s.next)
  {
    if other != "" {
      var f := Lookup(s, root, ParentPath(path)).value;
      InsertFolderGrows(s, foldsCase, f, CreatedName(path), s');
      InsertFolderAddsNew(s, foldsCase, f, CreatedName(path));
      NowhereOrTheNew(s, s', root, Components(other));
    }
  }

  /** In the root that holds only "A", "a" leads to "A", but a case-sensitive device has no "a". */
  lemma OneFolderFacts()
    ensures var s := OneFolder();
            && IsFolder(s, 0) && Children(s, 0) == [1] && Name(s, 1) == "A"
            && Child(s, 0, "a") == Some(1)
            && FirstSame(s, false, [1], "a").None?
  {
    var s := OneFolder();
    assert Name(s, 1) == "A" && Children(s, 0) == [1];
    assert Lower("A") == "a" == Lower("a");
  }

  lemma OneFolderPath()
    ensures Lookup(OneFolder(), Some(0), "//a") == Some(1)
  {
    OneFolderFacts();
    assert "/" + "/" + "a" == "//a";
    LookupChild(OneFolder(), Some(0), "/", "a");
  }

  lemma OneFolderInserts()
    ensures InsertFolder(OneFolder(), false, 0, "a").Some?
  {
    OneFolderFacts();
    assert ValidName("a");
  }

  lemma OneFolderTakes()
    ensures CreateFolder(OneFolder(), false, Some(0), "//a").Some?
  {
    OneFolderInserts();
    CreateBelowRoot(OneFolder(), false, 0, "a");
  }

  /** A folder made as "a" beside a folder "A" is not found on a case-sensitive device. */
  lemma CreatedFolderCanBeHidden()
    ensures var s := OneFolder();
            exists s' :: CreateFolder(s, false, Some(0), "//a") == Some(s') && Lookup(s', Some(0), "//a") == Some(1)
  {
    OneFolderPath();
    OneFolderTakes();
    var s' := CreateFolder(OneFolder(), false, Some(0), "//a").value;
    CreateThenFind(OneFolder(), false, Some(0), "//a", s');
    ExtendsLookup(OneFolder(), s', Some(0), "//a");
  }

  /**
   * A path with no slash, with its only slash in front, or with a slash at the
   * end is never created: a folder directly below the root needs the spelling
   * "//name".
   */
  lemma CreateNeedsParent(s: Store, foldsCase: bool, root: Ptr, name: string, parent: string)
    requires '/' !in name
    ensures CreateFolder(s, foldsCase, root, name).None?
    ensures CreateFolder(s, foldsCase, root, "/" + name).None?
    ensures CreateFolder(s, foldsCase, root, parent + "/").None?
  {
    CreateParts(parent, "");
    assert parent + "/" + "" == parent + "/";
    CreateParts("", name);
    assert "" + "/" + name == "/" + name;
    assert FindLast(name, '/').None?;
  }

  lemma CreateBelowRoot(s: Store, foldsCase: bool, root: Id, name: string)
    requires ValidName(name)
    ensures CreateFolder(s, foldsCase, Some(root), "//" + name) == InsertFolder(s, foldsCase, root, name)
  {
    CreateParts("/", name);
    assert "/" + "/" + name == "//" + name;
    assert Lookup(s, Some(root), "/") == Some(root);
  }

  lemma CreateParts(parent: string, name: string)
    requires '/' !in name
    ensures ParentPath(parent + "/" + name) == parent && CreatedName(parent + "/" + name) == name
  {
    ChildFileName(parent, name);
    var path := parent + "/" + name;
    assert path[..|parent|] == parent;
    assert path[|parent| + 1..] == name;
  }

  // ----------------------------------------------------------- delete is exact

  lemma {:induction false} FirstMatchWithout(s: Store, s': Store, cs: seq<Id>, d: Id, name: string)
    requires forall c :: c in cs ==> Name(s, c) == Name(s', c)
    requires FirstMatch(s, cs, name) != Some(d)
    ensures FirstMatch(s', Without(cs, d), name) == FirstMatch(s, cs, name)
  {
    if cs != [] && !Matches(s, cs[0], name) {
      FirstMatchWithout(s, s', cs[1..], d, name);
      HeadTail([cs[0]], Without(cs[1..], d));
    }
  }

  lemma DetachNames(s: Store, d: Id, c: Id)
    ensures Name(Detach(s, d), c) == Name(s, c)
    ensures Children(Detach(s, d), c) == Without(Children(s, c), d)
  {
  }

  lemma DetachChild(s: Store, d: Id, f: Id, name: string)
    requires Child(s, f, name) != Some(d)
    ensures Child(Detach(s, d), f, name) == Child(s, f, name)
  {
    var s' := Detach(s, d);
    DetachNames(s, d, f);
    forall c | c in Children(s, f) ensures Name(s, c) == Name(s', c) {
      DetachNames(s, d, c);
    }
    FirstMatchWithout(s, s', Children(s, f), d, name);
  }

  /** The list without d, which it holds once or not at all. */
  lemma {:induction false} WithoutExactly(cs: seq<Id>, d: Id, k: nat)
    requires NoDup(cs) && k < |cs|
    ensures cs[k] == d ==> Without(cs, d) == cs[..k] + cs[k + 1..]
    ensures d !in cs ==> Without(cs, d) == cs
    decreases |cs|
  {
    if d !in cs {
      WithoutAbsent(cs, d);
    } else if k == 0 {
      if cs[0] == d {
        WithoutAbsent(cs[1..], d);
      }
    } else if cs[k] == d {
      WithoutExactly(cs[1..], d, k - 1);
      assert cs[0] != d && cs[1..][k - 1] == d;
      assert cs[1..][k..] == cs[k + 1..];
      assert cs[..k] == [cs[0]] + cs[1..][..k - 1];
    }
  }

  lemma {:induction false} WithoutAbsent(cs: seq<Id>, d: Id)
    requires d !in cs
    ensures Without(cs, d) == cs
  {
    if cs != [] {
      WithoutAbsent(cs[1..], d);
    }
  }

  /**
   * Delete as a whole: the one list that holds d loses it, the others keep
   * their order, and every entry keeps its name and kind.
   */
  lemma DetachExactly(s: Store, d: Id, p: Id, k: nat)
    requires Valid(s) && p in s.nodes
    requires d in s.nodes[p].children ==> k < |s.nodes[p].children| && s.nodes[p].children[k] == d
    ensures var cs := s.nodes[p].children;
            && Detach(s, d).nodes.Keys == s.nodes.Keys && Detach(s, d).next == s.next
            && Detach(s, d).nodes[p]
               == s.nodes[p].(children := if d in cs then cs[..k] + cs[k + 1..] else cs)
  {
    var cs := s.nodes[p].children;
    assert ValidEntry(s, p);
    if d in cs {
      WithoutExactly(cs, d, k);
    } else {
      WithoutAbsent(cs, d);
    }
  }

  /** Whatever a path leads to, other than the root itself, is listed by some folder, so that Delete takes it. */
  lemma FoundHasParent(s: Store, root: Id, path: string, d: Id)
    requires Valid(s) && root in s.nodes
    requires Lookup(s, Some(root), path) == Some(d) && d != root
    ensures HasParent(s, d)
  {
    var names := Components(path);
    if names != [] {
      ResolveLast(s, Some(root), names);
      var f := Resolve(s, Some(root), names[..|names| - 1]).value;
      assert Lists(s, f, d);
    }
  }

  /** Does the walk over names reach storage d, at its end or on the way? */
  ghost predicate Visits(s: Store, from: Ptr, names: seq<string>, d: Id) {
    exists k :: 0 <= k <= |names| && Resolve(s, from, names[..k]) == Some(d)
  }

  lemma VisitsChild(s: Store, from: Ptr, names: seq<string>, d: Id)
    requires from.Some? && names != [] && !Visits(s, from, names, d)
    ensures !Visits(s, Child(s, from.value, names[0]), names[1..], d)
    ensures Child(s, from.value, names[0]) != Some(d)
  {
    forall k | 0 <= k <= |names[1..]|
      ensures Resolve(s, Child(s, from.value, names[0]), names[1..][..k]) != Some(d)
    {
      var pre := names[..k + 1];
      assert pre[0] == names[0] && pre[1..] == names[1..][..k];
      assert Resolve(s, from, pre) != Some(d);
    }
    assert names[1..][..0] == [];
  }

  /** A path that does not go through the deleted storage leads where it led, or nowhere as before. */
  lemma {:induction false} DeleteKeeps(s: Store, d: Id, from: Ptr, names: seq<string>)
    requires !Visits(s, from, names, d)
    ensures Resolve(Detach(s, d), from, names) == Resolve(s, from, names)
    decreases |names|
  {
    if from.Some? && names != [] {
      VisitsChild(s, from, names, d);
      DetachChild(s, d, from.value, names[0]);
      DeleteKeeps(s, d, Child(s, from.value, names[0]), names[1..]);
    }
  }

  /** No path below the root leads to the deleted storage any more. */
  lemma {:induction false} DeleteUnreachable(s: Store, d: Id, from: Ptr, names: seq<string>)
    requires from != Some(d)
    ensures Resolve(Detach(s, d), from, names) != Some(d)
    ensures !Visits(Detach(s, d), from, names, d)
    decreases |names|
  {
    var s' := Detach(s, d);
    if from.Some? && names != [] {
      DetachNames(s, d, from.value);
      var c := Child(s', from.value, names[0]);
      assert c != Some(d);
      DeleteUnreachable(s, d, c, names[1..]);
    }
    forall k | 0 <= k <= |names| ensures Resolve(s', from, names[..k]) != Some(d) {
      if k == |names| {
        assert names[..k] == names;
      } else {
        DeleteUnreachable(s, d, from, names[..k]);
      }
    }
  }

  /** Is there, beside d, another entry of the folder that answers to the name? */
  ghost predicate Shadowed(s: Store, f: Id, name: string, d: Id) {
    exists c :: c in Children(s, f) && c != d && Matches(s, c, name)
  }

  lemma DeleteChild(s: Store, f: Id, name: string, d: Id)
    ensures Child(Detach(s, d), f, name).Some? <==> Shadowed(s, f, name, d)
  {
    var s' := Detach(s, d);
    DetachNames(s, d, f);
    forall c ensures Matches(s', c, name) <==> Matches(s, c, name) {
      DetachNames(s, d, c);
    }
    assert forall c :: c in Children(s', f) <==> c in Children(s, f) && c != d;
    var r := Child(s', f, name);
    if r.Some? {
      assert r.value in Children(s, f) && r.value != d && Matches(s, r.value, name);
    }
  }

  /** A walk that ends in a storage of a smaller id has not been to d. */
  lemma NotVisitedBefore(s: Store, root: Ptr, names: seq<string>, d: Id)
    requires Valid(s) && Resolve(s, root, names).Some? && Resolve(s, root, names).value < d
    ensures !Visits(s, root, names, d)
  {
    forall k | 0 <= k <= |names| ensures Resolve(s, root, names[..k]) != Some(d) {
      assert names == names[..k] + names[k..];
      ResolveConcat(s, root, names[..k], names[k..]);
      ResolveIncreases(s, Resolve(s, root, names[..k]), names[k..]);
    }
  }

  /**
   * After a delete the deleted path, and every path below it, leads nowhere
   * exactly when no other entry of the same folder answers to its last name.
   */
  lemma DeleteExact(s: Store, root: Ptr, names: seq<string>, d: Id, below: seq<string>)
    requires Valid(s) && names != [] && Resolve(s, root, names) == Some(d)
    ensures var s' := Detach(s, d);
            var f := Resolve(s, root, names[..|names| - 1]);
            && f.Some?
            && (Resolve(s', root, names).None? <==> !Shadowed(s, f.value, names[|names| - 1], d))
            && (Resolve(s', root, names).None? ==> Resolve(s', root, names + below).None?)
  {
    var s' := Detach(s, d);
    var init, last := names[..|names| - 1], names[|names| - 1];
    ResolveLast(s, root, names);
    var f := Resolve(s, root, init).value;
    ResolveLast(s', root, names);
    ChildNamed(s, f, last);
    NotVisitedBefore(s, root, init, d);
    DeleteKeeps(s, d, root, init);
    DeleteChild(s, f, last, d);
    ResolveConcat(s', root, names, below);
  }

  /**
   * In terms of paths: once the storage a path leads to is deleted, the path
   * leads nowhere exactly when nothing else in its folder answers to its file
   * name, and then neither does any path below it.
   */
  lemma DeleteThenFind(s: Store, root: Ptr, path: string, d: Id, rest: string)
    requires Valid(s) && root.Some? && root.value in s.nodes
    requires Lookup(s, root, path) == Some(d) && d != root.value && rest != ""
    ensures var s' := Detach(s, d);
            var f := Resolve(s, root, FolderNames(path));
            && f.Some?
            && (Lookup(s', root, path).None? <==> !Shadowed(s, f.value, FileName(path), d))
            && (Lookup(s', root, path).None? ==> Lookup(s', root, path + "/" + rest).None?)
  {
    TransferComponents(path);
    DeleteExact(s, root, Components(path), d, Components(rest));
    ResolveInStore(s, root, Components(path));
    ComponentsByEnding(path);
    ComponentsBelow(path, rest);
    assert |path + "/" + rest| > 2;
  }

  /**
   * With siblings unique up to case a delete is exact for every path: the
   * paths through the deleted storage lead nowhere, all others are unchanged.
   */
  lemma DeleteExactWhenUnique(s: Store, root: Ptr, d: Id, names: seq<string>)
    requires Valid(s) && SiblingsUnique(s) && root.Some? && root.value < d
    ensures Resolve(Detach(s, d), root, names)
         == if Visits(s, root, names, d) then None else Resolve(s, root, names)
  {
    if Visits(s, root, names, d) {
      var k :| 0 <= k <= |names| && Resolve(s, root, names[..k]) == Some(d);
      var path := names[..k];
      assert names == path + names[k..];
      ResolveLast(s, root, path);
      var f, last := Resolve(s, root, path[..k - 1]).value, path[k - 1];
      DeleteExact(s, root, path, d, names[k..]);
      if Shadowed(s, f, last, d) {
        ShadowedBreaksUnique(s, f, last, d);
      }
    } else {
      DeleteKeeps(s, d, root, names);
    }
  }

  lemma ShadowedBreaksUnique(s: Store, f: Id, name: string, d: Id)
    requires Child(s, f, name) == Some(d) && Shadowed(s, f, name, d)
    ensures !SiblingsUnique(s)
  {
    var cs := Children(s, f);
    var c :| c in cs && c != d && Matches(s, c, name);
    var i :| 0 <= i < |cs| && cs[i] == c;
    var j :| 0 <= j < |cs| && cs[j] == d;
    assert Lower(Name(s, cs[i])) == Lower(Name(s, cs[j]));
    assert !UniqueIn(s, s.nodes[f].children);
  }

  /** The folder "A" deleted under the path "a", that path leads on to the file "a". */
  lemma DeletedPathCanLeadOn()
    ensures var s := HidingStore();
            Lookup(s, Some(0), "a") == Some(1) && Lookup(Detach(s, 1), Some(0), "a") == Some(2)
  {
    var s := HidingStore();
    assert Lower("A") == "a" == Lower("a");
    assert Name(s, 1) == "A" && Children(s, 0) == [1, 2];
    PathOfName(s, false, 0, "a");
    PathOfName(Detach(s, 1), false, 0, "a");
    DetachNames(s, 1, 0);
    DetachNames(s, 1, 2);
    assert [1, 2][1..] == [2] && [2][1..] == [];
    assert Without([2], 1) == [2] + Without([], 1);
    assert Without([1, 2], 1) == [2];
  }

  // -------------------------------------------------- listing agrees with lookup

  predicate IsOfKind(s: Store, c: Id, kind: Kind) {
    c in s.nodes && s.nodes[c].kind == kind
  }

  function NameIfKind(s: Store, c: Id, kind: Kind): seq<string> {
    if IsOfKind(s, c, kind) then [Name(s, c)] else []
  }

  /** The names parse_folder_mtp puts on one of its lists, in the order of the children. */
  function NamesOfKind(s: Store, cs: seq<Id>, kind: Kind): seq<string> {
    if cs == [] then [] else NameIfKind(s, cs[0], kind) + NamesOfKind(s, cs[1..], kind)
  }

  /** An entry of a list: the name and the persistent unique identifier, "0" when that is not to be had. */
  datatype Item = Item(name: string, uniqueId: string)

  /** The items of one list, the identifiers beside the children being what the device gave. */
  function ItemsOfKind(s: Store, cs: seq<Id>, ids: seq<string>, kind: Kind): seq<Item>
    requires |ids| == |cs|
  {
    if cs == [] then []
    else ItemIfKind(s, cs[0], ids[0], kind) + ItemsOfKind(s, cs[1..], ids[1..], kind)
  }

  function ItemIfKind(s: Store, c: Id, id: string, kind: Kind): seq<Item> {
    if IsOfKind(s, c, kind) then [Item(Name(s, c), id)] else []
  }

  function Names(items: seq<Item>): (r: seq<string>)
    ensures |r| == |items| && forall i :: 0 <= i < |items| ==> r[i] == items[i].name
  {
    seq(|items|, i requires 0 <= i < |items| => items[i].name)
  }

  /** Whatever identifiers stand beside them, the names on a list are those of its kind. */
  lemma {:induction false} NamesOfItems(s: Store, cs: seq<Id>, ids: seq<string>, kind: Kind)
    requires |ids| == |cs|
    ensures Names(ItemsOfKind(s, cs, ids, kind)) == NamesOfKind(s, cs, kind)
  {
    if cs != [] {
      NamesOfItems(s, cs[1..], ids[1..], kind);
      var one, rest := ItemIfKind(s, cs[0], ids[0], kind), ItemsOfKind(s, cs[1..], ids[1..], kind);
      assert Names(one + rest) == Names(one) + Names(rest);
      assert Names(one) == NameIfKind(s, cs[0], kind);
    }
  }

  lemma {:induction false} ItemsOfKindConcat(s: Store, a: seq<Id>, x: seq<string>, b: seq<Id>, y: seq<string>,
                                             kind: Kind)
    requires |a| == |x| && |b| == |y|
    ensures ItemsOfKind(s, a + b, x + y, kind) == ItemsOfKind(s, a, x, kind) + ItemsOfKind(s, b, y, kind)
    decreases |a|
  {
    if a == [] {
      EmptyConcat(b);
      EmptyConcat(y);
      EmptyConcat(ItemsOfKind(s, b, y, kind));
    } else {
      HeadTail(a, b);
      HeadTail(x, y);
      ItemsOfKindConcat(s, a[1..], x[1..], b, y, kind);
      Assoc(ItemIfKind(s, a[0], x[0], kind), ItemsOfKind(s, a[1..], x[1..], kind), ItemsOfKind(s, b, y, kind));
    }
  }

  ghost predicate Rising(pos: seq<nat>) {
    forall i, j :: 0 <= i < j < |pos| ==> pos[i] < pos[j]
  }

  /** The item is that of entry c, with the device's identifier. */
  ghost predicate ItemOf(s: Store, uniqueId: Id -> string, kind: Kind, item: Item, c: Id) {
    c in s.nodes && s.nodes[c].kind == kind && item.name == s.nodes[c].name && item.uniqueId == uniqueId(c)
  }

  /** The items are, in order, those of the entries of the list at these positions. */
  ghost predicate ItemsAt(s: Store, uniqueId: Id -> string, cs: seq<Id>, kind: Kind, items: seq<Item>, pos: seq<nat>) {
    && |pos| == |items| && Rising(pos)
    && forall i :: 0 <= i < |pos| ==> pos[i] < |cs| && ItemOf(s, uniqueId, kind, items[i], cs[pos[i]])
  }

  /** Every entry of the kind is at one of these positions. */
  ghost predicate NoneMissing(s: Store, cs: seq<Id>, kind: Kind, pos: seq<nat>) {
    forall k :: 0 <= k < |cs| && cs[k] in s.nodes && s.nodes[cs[k]].kind == kind ==> k in pos
  }

  /** The items are exactly the entries of this kind in the list, in its order. */
  ghost predicate ListsExactly(s: Store, uniqueId: Id -> string, cs: seq<Id>, kind: Kind, items: seq<Item>) {
    exists pos :: ItemsAt(s, uniqueId, cs, kind, items, pos) && NoneMissing(s, cs, kind, pos)
  }

  lemma ItemsAtSnoc(s: Store, uniqueId: Id -> string, cs: seq<Id>, kind: Kind, items: seq<Item>, c: Id, item: Item,
                    pos: seq<nat>)
    requires ItemsAt(s, uniqueId, cs, kind, items, pos) && ItemOf(s, uniqueId, kind, item, c)
    ensures ItemsAt(s, uniqueId, cs + [c], kind, items + [item], pos + [|cs|])
  {
    var all, cs', items' := pos + [|cs|], cs + [c], items + [item];
    forall i | 0 <= i < |all| ensures all[i] < |cs'| && ItemOf(s, uniqueId, kind, items'[i], cs'[all[i]]) {
      if i < |pos| {
        assert cs'[pos[i]] == cs[pos[i]] && items'[i] == items[i];
      }
    }
    assert forall i :: 0 <= i < |pos| ==> all[i] == pos[i] < |cs|;
  }

  lemma NoneMissingSnoc(s: Store, cs: seq<Id>, kind: Kind, pos: seq<nat>, c: Id)
    requires NoneMissing(s, cs, kind, pos)
    ensures NoneMissing(s, cs + [c], kind, if IsOfKind(s, c, kind) then pos + [|cs|] else pos)
  {
    var pos' := if IsOfKind(s, c, kind) then pos + [|cs|] else pos;
    forall k | 0 <= k < |cs + [c]| && IsOfKind(s, (cs + [c])[k], kind) ensures k in pos' {
      if k < |cs| {
        assert cs[k] == (cs + [c])[k] && k in pos;
      } else {
        assert pos'[|pos|] == k;
      }
    }
  }

  lemma ListsExactlySnoc(s: Store, uniqueId: Id -> string, cs: seq<Id>, kind: Kind, items: seq<Item>, c: Id)
    requires ListsExactly(s, uniqueId, cs, kind, items)
    ensures ListsExactly(s, uniqueId, cs + [c], kind, items + ItemIfKind(s, c, uniqueId(c), kind))
  {
    var pos :| ItemsAt(s, uniqueId, cs, kind, items, pos) && NoneMissing(s, cs, kind, pos);
    NoneMissingSnoc(s, cs, kind, pos, c);
    if IsOfKind(s, c, kind) {
      ItemsAtSnoc(s, uniqueId, cs, kind, items, c, Item(Name(s, c), uniqueId(c)), pos);
    } else {
      EmptyConcat(items);
      assert ItemsAt(s, uniqueId, cs + [c], kind, items, pos);
    }
  }

  /** One child more. */
  lemma ItemsOfKindNext(s: Store, before: seq<Item>, cs: seq<Id>, ids: seq<string>, id: string, kind: Kind)
    requires |ids| < |cs|
    ensures (before + ItemsOfKind(s, cs[..|ids|], ids, kind)) + ItemIfKind(s, cs[|ids|], id, kind)
         == before + ItemsOfKind(s, cs[..|ids| + 1], ids + [id], kind)
  {
    var i := |ids|;
    assert cs[..i + 1] == cs[..i] + [cs[i]];
    ItemsOfKindConcat(s, cs[..i], ids, [cs[i]], [id], kind);
    EmptyConcat(ItemIfKind(s, cs[i], id, kind));
    assert [cs[i]][1..] == [] && [id][1..] == [];
    Assoc(before, ItemsOfKind(s, cs[..i], ids, kind), ItemIfKind(s, cs[i], id, kind));
  }

  lemma ItemsOfKindSnoc(s: Store, cs: seq<Id>, ids: seq<string>, c: Id, id: string, kind: Kind)
    requires |ids| == |cs|
    ensures ItemsOfKind(s, cs + [c], ids + [id], kind) == ItemsOfKind(s, cs, ids, kind) + ItemIfKind(s, c, id, kind)
  {
    ItemsOfKindConcat(s, cs, ids, [c], [id], kind);
    EmptyConcat(ItemIfKind(s, c, id, kind));
    assert [c][1..] == [] && [id][1..] == [];
  }

  lemma OneMoreListed(s: Store, uniqueId: Id -> string, cs: seq<Id>, ids: seq<string>, c: Id, kind: Kind)
    requires |ids| == |cs| && ListsExactly(s, uniqueId, cs, kind, ItemsOfKind(s, cs, ids, kind))
    ensures ListsExactly(s, uniqueId, cs + [c], kind, ItemsOfKind(s, cs + [c], ids + [uniqueId(c)], kind))
  {
    ListsExactlySnoc(s, uniqueId, cs, kind, ItemsOfKind(s, cs, ids, kind), c);
    ItemsOfKindSnoc(s, cs, ids, c, uniqueId(c), kind);
  }

  lemma NothingListed(s: Store, uniqueId: Id -> string, kind: Kind)
    ensures ListsExactly(s, uniqueId, [], kind, [])
  {
    assert ItemsAt(s, uniqueId, [], kind, [], []) && NoneMissing(s, [], kind, []);
  }

  /** With the device's identifiers the lists are exactly the entries of their kind, in order. */
  lemma {:induction false} ItemsListExactly(s: Store, uniqueId: Id -> string, cs: seq<Id>, ids: seq<string>, kind: Kind)
    requires |ids| == |cs| && forall i :: 0 <= i < |cs| ==> ids[i] == uniqueId(cs[i])
    ensures ListsExactly(s, uniqueId, cs, kind, ItemsOfKind(s, cs, ids, kind))
    decreases |cs|
  {
    if cs == [] {
      NothingListed(s, uniqueId, kind);
    } else {
      var n := |cs| - 1;
      ItemsListExactly(s, uniqueId, cs[..n], ids[..n], kind);
      OneMoreListed(s, uniqueId, cs[..n], ids[..n], cs[n], kind);
      SnocInitLast(cs);
      SnocInitLast(ids);
    }
  }

  function AllNames(s: Store, cs: seq<Id>): seq<string> {
    if cs == [] then [] else [Name(s, cs[0])] + AllNames(s, cs[1..])
  }

  /** Every child is on exactly one of the two lists. */
  lemma {:induction false} ListsSplitChildren(s: Store, cs: seq<Id>)
    requires forall c :: c in cs ==> c in s.nodes
    ensures multiset(NamesOfKind(s, cs, File)) + multiset(NamesOfKind(s, cs, Folder)) == multiset(AllNames(s, cs))
  {
    if cs != [] {
      ListsSplitChildren(s, cs[1..]);
      var n := [Name(s, cs[0])];
      ConcatMultiset(n, AllNames(s, cs[1..]));
      if s.nodes[cs[0]].kind.File? {
        ConcatMultiset(n, NamesOfKind(s, cs[1..], File));
        EmptyConcat(NamesOfKind(s, cs[1..], Folder));
      } else {
        ConcatMultiset(n, NamesOfKind(s, cs[1..], Folder));
        EmptyConcat(NamesOfKind(s, cs[1..], File));
      }
    }
  }

  /** Does one of these storages have exactly this name and kind? */
  ghost predicate Holds(s: Store, cs: seq<Id>, kind: Kind, name: string) {
    exists c :: c in cs && IsOfKind(s, c, kind) && Name(s, c) == name
  }

  lemma {:induction false} NamesOfKindMembers(s: Store, cs: seq<Id>, kind: Kind, name: string)
    ensures name in NamesOfKind(s, cs, kind) <==> Holds(s, cs, kind, name)
  {
    if cs != [] {
      NamesOfKindMembers(s, cs[1..], kind, name);
      ConsHeadTail(cs);
      if Holds(s, cs, kind, name) {
        var c :| c in cs && IsOfKind(s, c, kind) && Name(s, c) == name;
        assert c == cs[0] || c in cs[1..];
      }
    }
  }

  /** A path that leads somewhere leads to a file or to a folder, and not to both; any other to neither. */
  lemma FileOrFolder(s: Store, root: Ptr, path: string)
    requires Valid(s) && (root.Some? ==> root.value in s.nodes)
    ensures Lookup(s, root, path).Some? <==> Exists(s, root, path, File) || Exists(s, root, path, Folder)
    ensures !(Exists(s, root, path, File) && Exists(s, root, path, Folder))
  {
    if Lookup(s, root, path).Some? && path != "/" && path != "//" {
      ResolveInStore(s, root, Components(path));
    }
  }

  /** Is the name on the list of that kind of the folder exactly when its path leads to such an entry? */
  ghost predicate Agree(s: Store, root: Ptr, path: string, f: Id, kind: Kind, name: string) {
    name in NamesOfKind(s, Children(s, f), kind)
    <==> var p := path + "/" + name;
         Exists(s, root, p, kind) && Name(s, Lookup(s, root, p).value) == name
  }

  /**
   * For one name: a name is listed as a file (folder) exactly when the joined
   * path leads to a file (folder) of that very name, provided that a child of
   * that kind and name, if there is one, is not hidden behind another.
   */
  lemma ListingAgreesExactly(s: Store, root: Ptr, path: string, kind: Kind, name: string)
    requires Valid(s) && root.Some? && root.value in s.nodes && ValidName(name)
    requires Lookup(s, root, path).Some?
    ensures var f := Lookup(s, root, path).value;
            var first := Child(s, f, name);
            Agree(s, root, path, f, kind, name)
            <==> (Holds(s, Children(s, f), kind, name)
                  ==> first.Some? && IsOfKind(s, first.value, kind) && Name(s, first.value) == name)
  {
    var f := Lookup(s, root, path).value;
    LookupChild(s, root, path, name);
    ChildFacts(s, f);
    NamesOfKindMembers(s, Children(s, f), kind, name);
  }

  /** Names that differ at most in case. */
  predicate Twins(s: Store, c: Id, d: Id) {
    Lower(Name(s, c)) == Lower(Name(s, d))
  }

  predicate Alike(s: Store, c: Id, d: Id) {
    Name(s, c) == Name(s, d) && (IsFolder(s, c) <==> IsFolder(s, d))
  }

  /** Children whose names differ at most in case have the same name and kind. */
  ghost predicate TwinsAlike(s: Store, f: Id) {
    forall c, d {:trigger Twins(s, c, d)} ::
      c in Children(s, f) && d in Children(s, f) && Twins(s, c, d) ==> Alike(s, c, d)
  }

  /** Listing and lookup agree on all names and both kinds. */
  ghost predicate AlwaysAgree(s: Store, root: Ptr, path: string, f: Id) {
    forall kind, name :: ValidName(name) ==> Agree(s, root, path, f, kind, name)
  }

  /**
   * For a whole folder: listing and lookup agree on all names and both kinds
   * exactly when the folder holds no two entries whose names are equal up to
   * case but which differ in name or kind.
   */
  lemma FolderAgreesExactly(s: Store, root: Ptr, path: string)
    requires Valid(s) && root.Some? && root.value in s.nodes
    requires Lookup(s, root, path).Some?
    ensures var f := Lookup(s, root, path).value;
            AlwaysAgree(s, root, path, f) <==> TwinsAlike(s, f)
  {
    var f := Lookup(s, root, path).value;
    if TwinsAlike(s, f) {
      forall kind, name | ValidName(name) ensures Agree(s, root, path, f, kind, name) {
        AlikeAgree(s, root, path, f, kind, name);
      }
    }
    if AlwaysAgree(s, root, path, f) {
      forall c, d | c in Children(s, f) && d in Children(s, f) && Twins(s, c, d) ensures Alike(s, c, d) {
        FirstIsTwin(s, root, path, f, c);
        FirstIsTwin(s, root, path, f, d);
        FirstMatchFoldsCase(s, Children(s, f), Name(s, c), Name(s, d));
      }
    }
  }

  lemma AlikeFirst(s: Store, f: Id, kind: Kind, c: Id)
    requires Valid(s) && TwinsAlike(s, f) && c in Children(s, f) && IsOfKind(s, c, kind)
    ensures var first := Child(s, f, Name(s, c));
            first.Some? && IsOfKind(s, first.value, kind) && Name(s, first.value) == Name(s, c)
  {
    ChildFacts(s, f);
    assert Matches(s, c, Name(s, c));
    var first := Child(s, f, Name(s, c)).value;
    assert Twins(s, first, c);
  }

  lemma AlikeAgree(s: Store, root: Ptr, path: string, f: Id, kind: Kind, name: string)
    requires Valid(s) && root.Some? && root.value in s.nodes && ValidName(name)
    requires Lookup(s, root, path) == Some(f) && TwinsAlike(s, f)
    ensures Agree(s, root, path, f, kind, name)
  {
    ListingAgreesExactly(s, root, path, kind, name);
    if c :| c in Children(s, f) && IsOfKind(s, c, kind) && Name(s, c) == name {
      AlikeFirst(s, f, kind, c);
    }
  }

  /** Where listing and lookup agree, a child has the name and kind of the first that answers to its name. */
  lemma FirstIsTwin(s: Store, root: Ptr, path: string, f: Id, c: Id)
    requires Valid(s) && root.Some? && root.value in s.nodes
    requires Lookup(s, root, path) == Some(f) && c in Children(s, f) && AlwaysAgree(s, root, path, f)
    ensures var first := Child(s, f, Name(s, c));
            first.Some? && Alike(s, first.value, c)
  {
    ChildFacts(s, f);
    ListingAgreesExactly(s, root, path, s.nodes[c].kind, Name(s, c));
    assert IsOfKind(s, c, s.nodes[c].kind);
    assert Agree(s, root, path, f, s.nodes[c].kind, Name(s, c));
  }

  lemma UniqueNoTwins(s: Store, f: Id)
    requires UniqueIn(s, Children(s, f))
    ensures TwinsAlike(s, f)
  {
    var cs := Children(s, f);
    forall c, d | c in cs && d in cs && Twins(s, c, d) ensures Alike(s, c, d) {
      var i :| 0 <= i < |cs| && cs[i] == c;
      var j :| 0 <= j < |cs| && cs[j] == d;
      assert Lower(Name(s, cs[i])) == Lower(Name(s, cs[j]));
    }
  }

  /** So it is in particular where sibling names are unique up to case. */
  lemma ListingAgreesWithLookup(s: Store, root: Ptr, path: string, name: string, kind: Kind)
    requires Valid(s) && root.Some? && root.value in s.nodes && ValidName(name)
    requires Lookup(s, root, path).Some?
    requires UniqueIn(s, Children(s, Lookup(s, root, path).value))
    ensures var f := Lookup(s, root, path).value;
            var p := path + "/" + name;
            name in NamesOfKind(s, Children(s, f), kind)
            <==> Exists(s, root, p, kind) && Name(s, Lookup(s, root, p).value) == name
  {
    var f := Lookup(s, root, path).value;
    UniqueNoTwins(s, f);
    FolderAgreesExactly(s, root, path);
    assert Agree(s, root, path, f, kind, name);
  }

  /** In the folder with "A" in front of "a" the file "a" is listed but not found. */
  lemma ListedFileCanBeHidden()
    ensures var s := HidingStore();
            && "a" in NamesOfKind(s, Children(s, 0), File)
            && !Exists(s, Some(0), "/" + "/" + "a", File)
  {
    var s := HidingStore();
    LookupChild(s, Some(0), "/", "a");
    assert Lower("A") == "a" == Lower("a");
    assert Children(s, 0) == [1, 2];
    NamesOfKindMembers(s, [1, 2], File, "a");
    assert 2 in [1, 2];
    assert IsOfKind(s, 2, File) && Name(s, 2) == "a";
  }
}
