/**
 * The storage tree of an MTP device as a value, the lookups the device code
 * performs on it, and what the device does on Insert, Insert3 and Delete.
 *
 * A storage is known by its id.  Ids are handed out in increasing order and a
 * storage is always created below an existing one, so ids grow on the way down.
 */
module StorageTree {
  import opened Wrappers
  import opened Sequences
  import opened Paths

  type Id = nat

  /** An IWMDMStorage pointer: None is NULL. */
  type Ptr = Option<Id>

  datatype Kind = Folder | File
  datatype Entry = Entry(name: string, kind: Kind, children: seq<Id>)
  datatype Store = Store(nodes: map<Id, Entry>, next: Id)

  predicate ValidName(name: string) {
    name != "" && '/' !in name
  }

  predicate NoDup(cs: seq<Id>) {
    forall i, j :: 0 <= i < j < |cs| ==> cs[i] != cs[j]
  }

  ghost predicate ValidEntry(s: Store, p: Id)
    requires p in s.nodes
  {
    && p < s.next
    && NoDup(s.nodes[p].children)
    && (s.nodes[p].kind.File? ==> s.nodes[p].children == [])
    && forall c :: c in s.nodes[p].children ==> p < c && c in s.nodes && ValidName(s.nodes[c].name)
  }

  predicate Lists(s: Store, p: Id, c: Id) {
    p in s.nodes && c in s.nodes[p].children
  }

  ghost predicate OneParent(s: Store) {
    forall p, q, c {:trigger Lists(s, p, c), Lists(s, q, c)} :: Lists(s, p, c) && Lists(s, q, c) ==> p == q
  }

  /** A tree: no storage is listed twice, neither in one folder nor in two, and files list nothing. */
  ghost predicate Valid(s: Store) {
    && (forall p {:trigger ValidEntry(s, p)} :: p in s.nodes ==> ValidEntry(s, p))
    && OneParent(s)
  }

  function Name(s: Store, c: Id): string {
    if c in s.nodes then s.nodes[c].name else ""
  }

  predicate IsFolder(s: Store, f: Id) {
    f in s.nodes && s.nodes[f].kind.Folder?
  }

  function Children(s: Store, f: Id): seq<Id> {
    if IsFolder(s, f) then s.nodes[f].children else []
  }

  // ------------------------------------------------------------------- lookup

  /** The lookup of get_substorage compares lower-cased names. */
  predicate Matches(s: Store, c: Id, name: string) {
    Lower(Name(s, c)) == Lower(name)
  }

  function FirstMatch(s: Store, cs: seq<Id>, name: string): (r: Ptr)
    ensures r.Some? ==> r.value in cs && Matches(s, r.value, name)
    ensures r.None? ==> forall c :: c in cs ==> !Matches(s, c, name)
  {
    if cs == [] then None
    else if Matches(s, cs[0], name) then Some(cs[0])
    else FirstMatch(s, cs[1..], name)
  }

  function Child(s: Store, f: Id, name: string): Ptr {
    FirstMatch(s, Children(s, f), name)
  }

  /** Walk down one name at a time; the reference for every walking loop of the device code. */
  function Resolve(s: Store, from: Ptr, names: seq<string>): Ptr
    decreases |names|
  {
    if from.None? || names == [] then from
    else Resolve(s, Child(s, from.value, names[0]), names[1..])
  }

  /** What a device path denotes: the walk from the root over its components. */
  function Lookup(s: Store, root: Ptr, path: string): Ptr {
    if path == "" then None
    else if path == "/" || path == "//" then root
    else Resolve(s, root, Components(path))
  }

  /** Does the path lead to an entry of this kind?  (exist_file_mtp and exist_folder_mtp.) */
  predicate Exists(s: Store, root: Ptr, path: string, kind: Kind) {
    var p := Lookup(s, root, path);
    p.Some? && p.value in s.nodes && s.nodes[p.value].kind == kind
  }

  // ------------------------------------------------------- changes of the tree

  /** Does the device take the two names for the same? */
  predicate Same(foldsCase: bool, a: string, b: string) {
    if foldsCase then Lower(a) == Lower(b) else a == b
  }

  function FirstSame(s: Store, foldsCase: bool, cs: seq<Id>, name: string): (r: Option<nat>)
    ensures r.Some? ==> r.value < |cs| && Same(foldsCase, Name(s, cs[r.value]), name)
    ensures r.Some? ==> forall j :: 0 <= j < r.value ==> !Same(foldsCase, Name(s, cs[j]), name)
    ensures r.None? ==> forall j :: 0 <= j < |cs| ==> !Same(foldsCase, Name(s, cs[j]), name)
  {
    if cs == [] then None
    else if Same(foldsCase, Name(s, cs[0]), name) then Some(0)
    else
      var tail := FirstSame(s, foldsCase, cs[1..], name);
      if tail.None? then None else Some(tail.value + 1)
  }

  /** Folder f gets the child list cs and one new storage, with id s.next, is made. */
  function WithNew(s: Store, f: Id, cs: seq<Id>, name: string, kind: Kind): Store
    requires f in s.nodes
  {
    Store(s.nodes[f := s.nodes[f].(children := cs)][s.next := Entry(name, kind, [])], s.next + 1)
  }

  /** Insert and Insert3 of a folder: refused when the device already has that name there. */
  function InsertFolder(s: Store, foldsCase: bool, f: Id, name: string): Option<Store> {
    if IsFolder(s, f) && ValidName(name) && FirstSame(s, foldsCase, Children(s, f), name).None?
    then Some(WithNew(s, f, Children(s, f) + [s.next], name, Folder))
    else None
  }

  /** Insert3 of a file with overwrite: a file of that name is replaced in its place, a folder is not. */
  function InsertFile(s: Store, foldsCase: bool, f: Id, name: string): Option<Store> {
    if !IsFolder(s, f) || !ValidName(name) then None
    else
      var cs := Children(s, f);
      match FirstSame(s, foldsCase, cs, name)
      case None => Some(WithNew(s, f, cs + [s.next], name, File))
      case Some(k) =>
        if IsFolder(s, cs[k]) then None else Some(WithNew(s, f, cs[k := s.next], name, File))
  }

  predicate HasParent(s: Store, d: Id) {
    exists p :: p in s.nodes && Lists(s, p, d)
  }

  function Without(cs: seq<Id>, d: Id): (r: seq<Id>)
    ensures forall c :: c in r <==> c in cs && c != d
  {
    if cs == [] then []
    else if cs[0] == d then Without(cs[1..], d)
    else [cs[0]] + Without(cs[1..], d)
  }

  /** Delete: the storage, with all that is below it, leaves its folder. */
  function Detach(s: Store, d: Id): Store {
    Store(map p | p in s.nodes :: s.nodes[p].(children := Without(s.nodes[p].children, d)), s.next)
  }

  // ------------------------------------------------------- the operations used

  /** One pass of the transfer's folder loop: enter the folder, making it when missing. */
  function EnterOrMake(s: Store, foldsCase: bool, f: Id, name: string): (Store, Ptr) {
    match Child(s, f, name)
    case Some(c) => (s, Some(c))
    case None =>
      match InsertFolder(s, foldsCase, f, name)
      case Some(s') => (s', Some(s.next))
      case None => (s, None)
  }

  /** The transfer's folder loop; on failure the folders made so far stay. */
  function MakeDirs(s: Store, foldsCase: bool, from: Ptr, names: seq<string>): (Store, Ptr)
    decreases |names|
  {
    if from.None? || names == [] then (s, from)
    else
      var (s1, next) := EnterOrMake(s, foldsCase, from.value, names[0]);
      MakeDirs(s1, foldsCase, next, names[1..])
  }

  datatype Stored = Stored(store: Store, id: Id)

  /** The folders on the way to dest: all of its components but the last. */
  function FolderNames(dest: string): seq<string>
    requires dest != ""
  {
    TransferComponents(dest);
    var names := Components(dest);
    names[..|names| - 1]
  }

  /** Storing a file in the folder a walk has led to. */
  function StoreAfter(s: Store, foldsCase: bool, folder: Ptr, fileName: string): Option<Stored> {
    if folder.None? then None
    else
      match InsertFile(s, foldsCase, folder.value, fileName)
      case None => None
      case Some(s') => Some(Stored(s', s.next))
  }

  /** A whole transfer to dest: the folders are entered or made, then the file is stored. */
  function Send(s: Store, foldsCase: bool, root: Ptr, dest: string): Option<Stored>
    requires dest != ""
  {
    var (s1, folder) := MakeDirs(s, foldsCase, root, FolderNames(dest));
    StoreAfter(s1, foldsCase, folder, FileName(dest))
  }

  /** create_folder_mtp: the path is cut at its last '/', and both halves must be non-empty. */
  function ParentPath(path: string): string {
    match FindLast(path, '/')
    case None => ""
    case Some(i) => path[..i]
  }

  function CreatedName(path: string): string {
    match FindLast(path, '/')
    case None => ""
    case Some(i) => path[i + 1..]
  }

  function CreateBelowParent(s: Store, foldsCase: bool, parent: Ptr, name: string): Option<Store> {
    match parent
    case None => None
    case Some(f) => InsertFolder(s, foldsCase, f, name)
  }

  function CreateFolder(s: Store, foldsCase: bool, root: Ptr, path: string): Option<Store> {
    if CreatedName(path) == "" || ParentPath(path) == "" then None
    else CreateBelowParent(s, foldsCase, Lookup(s, root, ParentPath(path)), CreatedName(path))
  }

  // ------------------------------------------------------- validity is kept

  /** What validity says about one folder's children and about the next id. */
  lemma ChildFacts(s: Store, f: Id)
    requires Valid(s)
    ensures NoDup(Children(s, f))
    ensures forall c :: c in Children(s, f) ==> f < c < s.next && c in s.nodes && ValidName(Name(s, c))
    ensures s.next !in s.nodes && s.next !in Children(s, f)
  {
    assert s.next in s.nodes ==> ValidEntry(s, s.next);
    if IsFolder(s, f) {
      assert ValidEntry(s, f);
      forall c | c in Children(s, f) ensures c < s.next {
        assert ValidEntry(s, c);
      }
    }
  }

  lemma WithNewValid(s: Store, f: Id, cs: seq<Id>, name: string, kind: Kind)
    requires Valid(s) && IsFolder(s, f) && ValidName(name)
    requires NoDup(cs) && forall c :: c in cs ==> c == s.next || c in Children(s, f)
    ensures Valid(WithNew(s, f, cs, name, kind))
  {
    var s' := WithNew(s, f, cs, name, kind);
    ChildFacts(s, f);
    forall p | p in s'.nodes ensures ValidEntry(s', p) {
      assert p in s.nodes ==> ValidEntry(s, p);
    }
    forall p, q, c | Lists(s', p, c) && Lists(s', q, c) ensures p == q {
      if c == s.next {
        assert p in s.nodes ==> ValidEntry(s, p);
        assert q in s.nodes ==> ValidEntry(s, q);
      } else {
        assert Lists(s, p, c) && Lists(s, q, c);
      }
    }
  }

  lemma AppendNoDup(cs: seq<Id>, n: Id)
    requires NoDup(cs) && n !in cs
    ensures NoDup(cs + [n])
  {
  }

  lemma UpdateNoDup(cs: seq<Id>, k: nat, n: Id)
    requires NoDup(cs) && n !in cs && k < |cs|
    ensures NoDup(cs[k := n])
  {
  }

  lemma InsertFolderValid(s: Store, foldsCase: bool, f: Id, name: string)
    requires Valid(s) && InsertFolder(s, foldsCase, f, name).Some?
    ensures Valid(InsertFolder(s, foldsCase, f, name).value)
  {
    ChildFacts(s, f);
    AppendNoDup(Children(s, f), s.next);
    WithNewValid(s, f, Children(s, f) + [s.next], name, Folder);
  }

  lemma InsertFileValid(s: Store, foldsCase: bool, f: Id, name: string)
    requires Valid(s) && InsertFile(s, foldsCase, f, name).Some?
    ensures Valid(InsertFile(s, foldsCase, f, name).value)
  {
    ChildFacts(s, f);
    var cs := Children(s, f);
    match FirstSame(s, foldsCase, cs, name)
    case None =>
      AppendNoDup(cs, s.next);
      WithNewValid(s, f, cs + [s.next], name, File);
    case Some(k) =>
      UpdateNoDup(cs, k, s.next);
      WithNewValid(s, f, cs[k := s.next], name, File);
  }

  lemma {:induction false} WithoutNoDup(cs: seq<Id>, d: Id)
    requires NoDup(cs)
    ensures NoDup(Without(cs, d))
  {
    if cs != [] {
      WithoutNoDup(cs[1..], d);
      assert cs[0] !in cs[1..];
    }
  }

  lemma DetachValid(s: Store, d: Id)
    requires Valid(s)
    ensures Valid(Detach(s, d))
  {
    var s' := Detach(s, d);
    forall p | p in s'.nodes ensures ValidEntry(s', p) {
      assert ValidEntry(s, p);
      WithoutNoDup(s.nodes[p].children, d);
    }
    forall p, q, c | Lists(s', p, c) && Lists(s', q, c) ensures p == q {
      assert Lists(s, p, c) && Lists(s, q, c);
    }
  }

  // --------------------------------------------------------- laws of the lookup

  /** Entry k of the list is c, and the first that answers to the name. */
  ghost predicate FirstAt(s: Store, cs: seq<Id>, name: string, c: Id, k: nat) {
    && k < |cs| && cs[k] == c && Matches(s, c, name)
    && forall j :: 0 <= j < k ==> !Matches(s, cs[j], name)
  }

  lemma {:induction false} FirstMatchAt(s: Store, cs: seq<Id>, name: string) returns (k: nat)
    requires FirstMatch(s, cs, name).Some?
    ensures FirstAt(s, cs, name, FirstMatch(s, cs, name).value, k)
  {
    if Matches(s, cs[0], name) {
      k := 0;
    } else {
      var i := FirstMatchAt(s, cs[1..], name);
      k := i + 1;
      forall j | 0 <= j < k ensures !Matches(s, cs[j], name) {
        assert j > 0 ==> cs[j] == cs[1..][j - 1];
      }
    }
  }

  lemma {:induction false} FirstMatchOf(s: Store, cs: seq<Id>, name: string, c: Id, k: nat)
    requires FirstAt(s, cs, name, c, k)
    ensures FirstMatch(s, cs, name) == Some(c)
  {
    if k > 0 {
      assert !Matches(s, cs[0], name);
      forall j | 0 <= j < k - 1 ensures !Matches(s, cs[1..][j], name) {
        assert cs[1..][j] == cs[j + 1];
      }
      FirstMatchOf(s, cs[1..], name, c, k - 1);
    }
  }

  /** The child found is the first that answers to the name. */
  lemma FirstMatchIsFirst(s: Store, cs: seq<Id>, name: string, c: Id)
    ensures FirstMatch(s, cs, name) == Some(c) <==> exists k :: FirstAt(s, cs, name, c, k)
  {
    if FirstMatch(s, cs, name) == Some(c) {
      var k := FirstMatchAt(s, cs, name);
    }
    if k :| FirstAt(s, cs, name, c, k) {
      FirstMatchOf(s, cs, name, c, k);
    }
  }

  lemma {:induction false} FirstMatchAppend(s: Store, a: seq<Id>, b: seq<Id>, name: string)
    ensures FirstMatch(s, a + b, name)
         == if FirstMatch(s, a, name).Some? then FirstMatch(s, a, name) else FirstMatch(s, b, name)
  {
    if a == [] {
      EmptyConcat(b);
    } else {
      HeadTail(a, b);
      FirstMatchAppend(s, a[1..], b, name);
    }
  }

  lemma {:induction false} FirstMatchSameNames(s: Store, s': Store, cs: seq<Id>, name: string)
    requires forall c :: c in cs ==> Name(s, c) == Name(s', c)
    ensures FirstMatch(s, cs, name) == FirstMatch(s', cs, name)
  {
    if cs != [] {
      FirstMatchSameNames(s, s', cs[1..], name);
    }
  }

  /** Walking names a and then b is walking b from where a leads. */
  lemma {:induction false} ResolveConcat(s: Store, from: Ptr, a: seq<string>, b: seq<string>)
    ensures Resolve(s, from, a + b) == Resolve(s, Resolve(s, from, a), b)
    decreases |a|
  {
    if from.None? {
    } else if a == [] {
      EmptyConcat(b);
    } else {
      HeadTail(a, b);
      ResolveConcat(s, Child(s, from.value, a[0]), a[1..], b);
    }
  }

  lemma ChildNamed(s: Store, f: Id, name: string)
    requires Valid(s) && Child(s, f, name).Some?
    ensures Child(s, f, name).value in s.nodes && f < Child(s, f, name).value && name != ""
  {
    ChildFacts(s, f);
    var c := Child(s, f, name).value;
    assert |Lower(name)| == |Lower(Name(s, c))|;
  }

  lemma {:induction false} ResolveInStore(s: Store, from: Ptr, names: seq<string>)
    requires Valid(s) && (from.Some? ==> from.value in s.nodes) && Resolve(s, from, names).Some?
    ensures Resolve(s, from, names).value in s.nodes
    ensures "" !in names
    decreases |names|
  {
    if names != [] {
      var c := Child(s, from.value, names[0]);
      if c.Some? {
        ChildNamed(s, from.value, names[0]);
        ResolveInStore(s, c, names[1..]);
        ConsHeadTail(names);
      }
    }
  }

  /** Ids grow along a walk. */
  lemma {:induction false} ResolveIncreases(s: Store, from: Ptr, names: seq<string>)
    requires Valid(s) && Resolve(s, from, names).Some?
    ensures from.Some? && from.value <= Resolve(s, from, names).value
    ensures names != [] ==> from.value < Resolve(s, from, names).value
    decreases |names|
  {
    if names != [] && from.Some? {
      ResolveIncreases(s, Child(s, from.value, names[0]), names[1..]);
      ChildNamed(s, from.value, names[0]);
    }
  }
}
