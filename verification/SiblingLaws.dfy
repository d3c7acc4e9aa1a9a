/**
 * When the operations keep the names in every folder unique up to case.
 * (The folder loop always does, FolderLoop.MakeDirsKeepsSiblingsUnique.)
 */
module SiblingLaws {
  import opened Wrappers
  import opened Paths
  import opened StorageTree
  import opened FolderLoop
  import opened PathLaws
  import opened EntryLaws

  /** A change of one folder's list is a matter of that list alone. */
  lemma WithNewUnique(s: Store, f: Id, cs: seq<Id>, name: string, kind: Kind)
    requires Valid(s) && SiblingsUnique(s) && IsFolder(s, f)
    ensures var s' := WithNew(s, f, cs, name, kind);
            SiblingsUnique(s') <==> UniqueIn(s', cs)
  {
    var s' := WithNew(s, f, cs, name, kind);
    ChildFacts(s, f);
    assert s'.nodes[f].children == cs;
    if UniqueIn(s', cs) {
      forall g | g in s'.nodes ensures UniqueIn(s', s'.nodes[g].children) {
        if g in s.nodes && g != f {
          OtherStaysUnique(s, f, cs, name, kind, g);
        }
      }
    }
  }

  lemma OtherStaysUnique(s: Store, f: Id, cs: seq<Id>, name: string, kind: Kind, g: Id)
    requires Valid(s) && SiblingsUnique(s) && IsFolder(s, f) && g in s.nodes && g != f
    ensures var s' := WithNew(s, f, cs, name, kind);
            g in s'.nodes && UniqueIn(s', s'.nodes[g].children)
  {
    var s' := WithNew(s, f, cs, name, kind);
    var others := s.nodes[g].children;
    assert ValidEntry(s, g) && UniqueIn(s, others);
    assert g != s.next by {
      StoredIdsSmall(s, g);
    }
    forall i | 0 <= i < |others| ensures Name(s', others[i]) == Name(s, others[i]) {
      assert others[i] in others;
      StoredIdsSmall(s, others[i]);
    }
  }

  lemma AppendUnique(s: Store, f: Id, name: string, kind: Kind)
    requires Valid(s) && SiblingsUnique(s) && IsFolder(s, f)
    ensures var s' := WithNew(s, f, Children(s, f) + [s.next], name, kind);
            SiblingsUnique(s') <==> Child(s, f, name).None?
  {
    var cs := Children(s, f);
    var s' := WithNew(s, f, cs + [s.next], name, kind);
    WithNewUnique(s, f, cs + [s.next], name, kind);
    ChildFacts(s, f);
    StillNamed(s, f, cs + [s.next], name, kind, f);
    assert UniqueIn(s, cs);
    assert forall i :: 0 <= i < |cs| ==> cs[i] in cs;
    var c := Child(s, f, name);
    if c.Some? {
      var i :| 0 <= i < |cs| && cs[i] == c.value;
      assert Lower(Name(s', (cs + [s.next])[i])) == Lower(Name(s', (cs + [s.next])[|cs|]));
    }
  }

  lemma ReplaceUnique(s: Store, f: Id, k: nat, name: string, kind: Kind)
    requires Valid(s) && SiblingsUnique(s) && IsFolder(s, f)
    requires k < |Children(s, f)| && Matches(s, Children(s, f)[k], name)
    ensures SiblingsUnique(WithNew(s, f, Children(s, f)[k := s.next], name, kind))
  {
    var cs := Children(s, f);
    var s' := WithNew(s, f, cs[k := s.next], name, kind);
    WithNewUnique(s, f, cs[k := s.next], name, kind);
    ChildFacts(s, f);
    StillNamed(s, f, cs[k := s.next], name, kind, f);
    assert UniqueIn(s, cs);
    forall i | 0 <= i < |cs| ensures Lower(Name(s', cs[k := s.next][i])) == Lower(Name(s, cs[i])) {
      assert cs[i] in cs;
    }
  }

  /** Among unique names the entry that answers to a name is the first one that does. */
  lemma UniqueMatch(s: Store, cs: seq<Id>, c: Id, name: string)
    requires UniqueIn(s, cs) && c in cs && Matches(s, c, name)
    ensures FirstMatch(s, cs, name) == Some(c)
  {
    var r := FirstMatch(s, cs, name);
    var i :| 0 <= i < |cs| && cs[i] == r.value;
    var j :| 0 <= j < |cs| && cs[j] == c;
    assert Lower(Name(s, cs[i])) == Lower(Name(s, cs[j]));
  }

  /** A stored file keeps uniqueness exactly when no entry answers to its name that the device has under another. */
  lemma InsertFileUniqueExactly(s: Store, foldsCase: bool, f: Id, name: string, s': Store)
    requires Valid(s) && SiblingsUnique(s) && InsertFile(s, foldsCase, f, name) == Some(s')
    ensures var was := Child(s, f, name);
            SiblingsUnique(s') <==> was.None? || Same(foldsCase, Name(s, was.value), name)
  {
    var cs := Children(s, f);
    var was := Child(s, f, name);
    FirstSameIsFirstMatch(s, foldsCase, cs, name);
    var k := FirstSame(s, foldsCase, cs, name);
    if k.None? {
      AppendUnique(s, f, name, File);
    } else {
      ReplaceUnique(s, f, k.value, name, File);
      assert UniqueIn(s, cs);
      UniqueMatch(s, cs, cs[k.value], name);
    }
  }

  /**
   * On a tree of unique names a transfer keeps them unique exactly when the
   * path led nowhere or to an entry that the device takes for the file's: it
   * is the condition of PathLaws.SendThenFind, so what breaks uniqueness is a
   * file that is stored and not found.
   */
  lemma SendKeepsUniqueExactly(s: Store, foldsCase: bool, root: Ptr, dest: string, s': Store, id: Id)
    requires Valid(s) && SiblingsUnique(s) && root.Some? && IsFolder(s, root.value)
    requires dest != "" && Send(s, foldsCase, root, dest) == Some(Stored(s', id))
    ensures SiblingsUnique(s') <==> Lookup(s', root, dest) == Some(id)
    ensures foldsCase ==> SiblingsUnique(s')
  {
    var s1, f := SendStages(s, foldsCase, root, dest, s', id);
    MakeDirsKeepsSiblingsUnique(s, foldsCase, root, FolderNames(dest));
    InsertFileUniqueExactly(s1, foldsCase, f, FileName(dest), s');
    SendThenFind(s, foldsCase, root, dest, s', id);
    if foldsCase {
      SendThenFindFoldingCase(s, root, dest, s', id);
    }
  }

  /** The same for a create. */
  lemma CreateKeepsUniqueExactly(s: Store, foldsCase: bool, root: Ptr, path: string, s': Store)
    requires Valid(s) && SiblingsUnique(s) && root.Some? && root.value in s.nodes
    requires CreateFolder(s, foldsCase, root, path) == Some(s')
    ensures SiblingsUnique(s') <==> Lookup(s', root, path) == Some(s.next)
    ensures foldsCase ==> SiblingsUnique(s')
  {
    var parent, name := ParentPath(path), CreatedName(path);
    var f := Lookup(s, root, parent).value;
    CreatePathParts(path);
    LookupChild(s, root, parent, name);
    AppendUnique(s, f, name, Folder);
    CreateThenFind(s, foldsCase, root, path, s');
    if foldsCase {
      CreateThenFindFoldingCase(s, root, path, s');
    }
  }

  lemma {:induction false} WithoutUnique(s: Store, s': Store, cs: seq<Id>, d: Id)
    requires UniqueIn(s, cs) && forall c :: c in cs ==> Name(s', c) == Name(s, c)
    ensures UniqueIn(s', Without(cs, d))
  {
    if cs != [] {
      var rest := Without(cs[1..], d);
      assert UniqueIn(s, cs[1..]) by {
        assert forall i :: 0 <= i < |cs[1..]| ==> cs[1..][i] == cs[i + 1];
      }
      WithoutUnique(s, s', cs[1..], d);
      if cs[0] != d {
        forall j | 0 <= j < |rest| ensures Lower(Name(s', cs[0])) != Lower(Name(s', rest[j])) {
          assert rest[j] in rest;
          var k :| 0 <= k < |cs[1..]| && cs[1..][k] == rest[j];
          assert Lower(Name(s, cs[0])) != Lower(Name(s, cs[k + 1]));
        }
        assert forall j :: 0 < j < |[cs[0]] + rest| ==> ([cs[0]] + rest)[j] == rest[j - 1];
      }
    }
  }

  /** A delete always keeps it. */
  lemma DeleteKeepsUnique(s: Store, d: Id)
    requires SiblingsUnique(s)
    ensures SiblingsUnique(Detach(s, d))
  {
    var s' := Detach(s, d);
    forall g | g in s'.nodes ensures UniqueIn(s', s'.nodes[g].children) {
      var cs := s.nodes[g].children;
      assert UniqueIn(s, cs);
      forall c | c in cs ensures Name(s', c) == Name(s, c) {
        DetachNames(s, d, c);
      }
      WithoutUnique(s, s', cs, d);
    }
  }
}
