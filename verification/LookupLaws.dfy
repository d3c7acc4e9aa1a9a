/**
 * What the walks of the device code find, said without the functions that
 * compute them: a chain of storages, each the first in its folder to have the
 * next name, letters of either case taken for the same.
 */
module LookupLaws {
  import opened Wrappers
  import opened Tokenizer
  import opened Paths
  import opened StorageTree
  import opened PathLaws

  /** Entry k of the list is c, and the first that has this name up to case. */
  ghost predicate NamedAt(s: Store, cs: seq<Id>, name: string, c: Id, k: nat) {
    && k < |cs| && cs[k] == c && SameUpToCase(Name(s, c), name)
    && forall j :: 0 <= j < k ==> !SameUpToCase(Name(s, cs[j]), name)
  }

  /** c is the first entry of folder f that has this name up to case. */
  ghost predicate FirstNamed(s: Store, f: Id, name: string, c: Id) {
    && f in s.nodes && s.nodes[f].kind.Folder?
    && exists k :: NamedAt(s, s.nodes[f].children, name, c, k)
  }

  lemma NamedAtExactly(s: Store, cs: seq<Id>, name: string, c: Id, k: nat)
    ensures FirstAt(s, cs, name, c, k) <==> NamedAt(s, cs, name, c, k)
  {
    forall x: Id ensures Matches(s, x, name) <==> SameUpToCase(Name(s, x), name) {
      LowerExactly(Name(s, x), name);
    }
  }

  lemma ChildExactly(s: Store, f: Id, name: string, c: Id)
    ensures Child(s, f, name) == Some(c) <==> FirstNamed(s, f, name, c)
  {
    var cs := Children(s, f);
    FirstMatchIsFirst(s, cs, name, c);
    if k :| FirstAt(s, cs, name, c, k) {
      NamedAtExactly(s, cs, name, c, k);
    }
    if k :| NamedAt(s, cs, name, c, k) {
      NamedAtExactly(s, cs, name, c, k);
    }
  }

  /** The storages ids form a way down along the names. */
  ghost predicate Way(s: Store, ids: seq<Id>, names: seq<string>) {
    && |ids| == |names| + 1
    && forall i :: 0 <= i < |names| ==> FirstNamed(s, ids[i], names[i], ids[i + 1])
  }

  lemma WayTail(s: Store, ids: seq<Id>, names: seq<string>)
    requires names != [] && |ids| == |names| + 1
    ensures Way(s, ids, names) <==> FirstNamed(s, ids[0], names[0], ids[1]) && Way(s, ids[1..], names[1..])
  {
    if FirstNamed(s, ids[0], names[0], ids[1]) && Way(s, ids[1..], names[1..]) {
      forall i | 0 <= i < |names| ensures FirstNamed(s, ids[i], names[i], ids[i + 1]) {
        if i > 0 {
          assert FirstNamed(s, ids[1..][i - 1], names[1..][i - 1], ids[1..][i]);
        }
      }
    }
  }

  /** A walk that succeeds goes such a way. */
  lemma {:induction false} WayOfWalk(s: Store, from: Id, names: seq<string>) returns (ids: seq<Id>)
    requires Resolve(s, Some(from), names).Some?
    ensures Way(s, ids, names) && ids[0] == from && Some(ids[|names|]) == Resolve(s, Some(from), names)
    decreases |names|
  {
    ids := [from];
    if names != [] {
      var c := Child(s, from, names[0]);
      if c.Some? {
        ChildExactly(s, from, names[0], c.value);
        var rest := WayOfWalk(s, c.value, names[1..]);
        ids := [from] + rest;
        assert ids[1..] == rest;
        WayTail(s, ids, names);
      }
    }
  }

  /** And where there is such a way the walk goes it. */
  lemma {:induction false} WalkOfWay(s: Store, ids: seq<Id>, names: seq<string>)
    requires Way(s, ids, names)
    ensures Resolve(s, Some(ids[0]), names) == Some(ids[|names|])
    decreases |names|
  {
    if names != [] {
      WayTail(s, ids, names);
      ChildExactly(s, ids[0], names[0], ids[1]);
      WalkOfWay(s, ids[1..], names[1..]);
    }
  }

  /** There is such a way from one storage to another. */
  ghost predicate LeadsTo(s: Store, from: Id, names: seq<string>, d: Id) {
    exists ids :: Way(s, ids, names) && ids[0] == from && ids[|names|] == d
  }

  lemma ResolveExactly(s: Store, from: Id, names: seq<string>, d: Id)
    ensures Resolve(s, Some(from), names) == Some(d) <==> LeadsTo(s, from, names, d)
  {
    if Resolve(s, Some(from), names) == Some(d) {
      var ids := WayOfWalk(s, from, names);
    }
    if ids :| Way(s, ids, names) && ids[0] == from && ids[|names|] == d {
      WalkOfWay(s, ids, names);
    }
  }

  /**
   * What get_storage_bypath looks up: both spellings of the root name the root;
   * the empty path and any other path that ends in a slash name nothing; every
   * other path names the end of the way along its non-empty fields.
   */
  lemma LookupExactly(s: Store, root: Id, path: string, d: Id)
    requires Valid(s) && root in s.nodes
    ensures Lookup(s, Some(root), path) == Some(d)
            <==> if path == "/" || path == "//" then d == root
                 else path != "" && !EndsInSlash(path) && LeadsTo(s, root, NonEmpty(Fields(path)), d)
    ensures Lookup(s, None, path).None?
  {
    if path !in {"", "/", "//"} {
      ComponentsByEnding(path);
      ResolveExactly(s, root, NonEmpty(Fields(path)), d);
      if EndsInSlash(path) && Resolve(s, Some(root), Components(path)).Some? {
        ResolveInStore(s, Some(root), Components(path));
      }
    }
  }

  /**
   * One step further: below a path that leads to f, a name leads to the first
   * entry of f that has it up to case.
   */
  lemma LookupFindsFirstNamed(s: Store, root: Ptr, path: string, name: string, c: Id)
    requires Valid(s) && (root.Some? ==> root.value in s.nodes) && ValidName(name)
    requires Lookup(s, root, path).Some?
    ensures Lookup(s, root, path + "/" + name) == Some(c) <==> FirstNamed(s, Lookup(s, root, path).value, name, c)
  {
    LookupChild(s, root, path, name);
    ChildExactly(s, Lookup(s, root, path).value, name, c);
  }

  /** Paths that differ only in the case of letters lead to the same storage, in every tree. */
  lemma LookupUpToCase(s: Store, root: Ptr, a: string, b: string)
    requires SameUpToCase(a, b)
    ensures Lookup(s, root, a) == Lookup(s, root, b)
  {
    LowerExactly(a, b);
    LookupFoldsCase(s, root, a, b);
  }
}
