/**
 * The device as the COM objects of Windows Media Device Manager present it:
 * storages with reference counts, enumerators, and the calls the device code
 * makes on them.  Every call may also fail for a reason of its own; `faults`
 * counts such failures, so that a contract can say what happens without them.
 */
module WmdmDevice {
  import opened Wrappers
  import opened StorageTree

  const S_OK: int := 0
  const E_FAIL: int := -2147467259

  predicate Succeeded(hr: int) {
    hr >= 0
  }

  /** How many references are outstanding on each storage. */
  type Refs = Id -> nat

  /** The references a pointer variable holds on a storage. */
  function Held(p: Ptr, id: Id): nat {
    if p == Some(id) then 1 else 0
  }

  /** After as before, and one more reference on p when p is not NULL. */
  ghost predicate Gained(before: Refs, after: Refs, p: Ptr) {
    forall id: Id :: after(id) == before(id) + Held(p, id)
  }

  ghost predicate Unchanged(before: Refs, after: Refs) {
    forall id: Id :: after(id) == before(id)
  }

  /** Every reference is to a storage of the device. */
  ghost predicate RefsValid(s: Store, refs: Refs) {
    forall id: Id :: refs(id) > 0 ==> id in s.nodes
  }

  /** IWMDMEnumStorage: the storages still to be handed out. */
  class StorageEnum {
    var rest: seq<Id>

    constructor (items: seq<Id>)
      ensures rest == items
    {
      rest := items;
    }
  }

  /** A reference to a metadata object or to a progress interface. */
  class ComObject {
    constructor () {
    }
  }

  function Only(o: object?): set<object> {
    if o == null then {} else {o}
  }

  class Device {
    var store: Store
    /** Does the device take names that differ only in case for the same name? */
    const foldsCase: bool
    /** The persistent unique identifiers that the device reports. */
    const uniqueId: Id -> string
    /** Outstanding references to storages, one for each AddRef not yet released. */
    var refs: Refs
    /** Enumerators, metadata objects and progress interfaces handed out and not yet released. */
    var live: set<object>
    /** The storages whose content has been copied to the host. */
    var delivered: seq<Id>
    ghost var faults: nat

    ghost predicate Valid()
      reads this
    {
      StorageTree.Valid(store) && RefsValid(store, refs)
    }

    /** The identifiers got for the first of these storages: the device's own, or "0" where a call has failed. */
    ghost predicate Identified(cs: seq<Id>, ids: seq<string>, noFault: bool) {
      && |ids| <= |cs|
      && forall i :: 0 <= i < |ids| ==> ids[i] == uniqueId(cs[i]) || (ids[i] == "0" && !noFault)
    }

    /** A device holding just a root folder, with one reference to it handed to the caller. */
    constructor (foldsCase: bool, uniqueId: Id -> string)
      ensures Valid() && this.foldsCase == foldsCase && this.uniqueId == uniqueId
      ensures store == Store(map[0 := Entry("", Folder, [])], 1) && Gained(_ => 0, refs, Some(0)) && live == {}
      ensures delivered == [] && faults == 0
    {
      this.foldsCase := foldsCase;
      this.uniqueId := uniqueId;
      store := Store(map[0 := Entry("", Folder, [])], 1);
      refs := id => if id == 0 then 1 else 0;
      live, delivered := {}, [];
      faults := 0;
    }

    method AddRef(p: Id)
      requires Valid() && p in store.nodes
      modifies this`refs
      ensures Valid() && Gained(old(refs), refs, Some(p))
    {
      var before := refs;
      refs := id => if id == p then before(id) + 1 else before(id);
    }

    method Release(p: Id)
      requires Valid() && refs(p) > 0
      modifies this`refs
      ensures Valid() && Gained(refs, old(refs), Some(p))
    {
      var before := refs;
      refs := id => if id == p && before(id) > 0 then before(id) - 1 else before(id);
    }

    /** SAFE_COMPTR_RELEASE; the variable itself becomes NULL. */
    method SafeRelease(p: Ptr) returns (none: Ptr)
      requires Valid() && (p.Some? ==> refs(p.value) > 0)
      modifies this`refs
      ensures Valid() && none.None? && Gained(refs, old(refs), p)
    {
      if p.Some? {
        Release(p.value);
      }
      none := None;
    }

    /** CComPtr::CopyTo: the copy holds a reference of its own; copying NULL succeeds. */
    method CopyTo(p: Ptr) returns (hr: int, copy: Ptr)
      requires Valid() && (p.Some? ==> refs(p.value) > 0)
      modifies this`refs
      ensures Valid() && hr == S_OK && copy == p && Gained(old(refs), refs, p)
    {
      if p.Some? {
        AddRef(p.value);
      }
      hr, copy := S_OK, p;
    }

    /** QueryInterface for another interface of the same storage: one more reference on success. */
    method QueryInterface(p: Id) returns (hr: int, q: Ptr)
      requires Valid() && refs(p) > 0
      modifies this`refs, this`faults
      ensures Valid() && faults >= old(faults) && Gained(old(refs), refs, q)
      ensures (q == Some(p) && hr == S_OK) || (q.None? && hr == E_FAIL)
      ensures faults == old(faults) ==> q.Some?
    {
      if * {
        faults := faults + 1;
        return E_FAIL, None;
      }
      AddRef(p);
      hr, q := S_OK, Some(p);
    }

    /** Only folders can be enumerated; the children are taken in order as they are now. */
    method EnumStorage(p: Id) returns (hr: int, e: StorageEnum?)
      requires Valid() && refs(p) > 0
      modifies this`live, this`faults
      ensures Valid() && faults >= old(faults)
      ensures Succeeded(hr) <==> e != null
      ensures e == null ==> live == old(live)
      ensures e != null ==> IsFolder(store, p) && fresh(e) && e.rest == Children(store, p)
                            && e !in old(live) && live == old(live) + {e}
      ensures faults == old(faults) ==> (e != null <==> IsFolder(store, p))
    {
      if * {
        faults := faults + 1;
        return E_FAIL, null;
      }
      if !IsFolder(store, p) {
        return E_FAIL, null;
      }
      hr := S_OK;
      e := new StorageEnum(Children(store, p));
      live := live + {e};
    }

    /** SAFE_COMPTR_RELEASE on anything but a storage. */
    method ReleaseObject(o: object?)
      requires Valid() && Only(o) <= live
      modifies this`live
      ensures Valid() && live == old(live) - Only(o)
    {
      live := live - Only(o);
    }

    /**
     * A new metadata object or progress interface, or NULL.  Nothing else
     * depends on these, so that their failing is not counted as a fault.
     */
    method NewObject() returns (o: ComObject?)
      requires Valid()
      modifies this`live
      ensures Valid() && Only(o) !! old(live) && live == old(live) + Only(o)
      ensures o != null ==> fresh(o)
    {
      o := null;
      if * {
        o := new ComObject();
        live := live + {o};
      }
    }

    /** GetMetadata, QueryByName for the persistent unique identifier, and the release of the metadata. */
    method QueryUniqueId(p: Id) returns (id: Option<string>)
      requires Valid() && refs(p) > 0
      modifies this`live, this`faults
      ensures Valid() && faults >= old(faults) && live == old(live)
      ensures id.Some? ==> id.value == uniqueId(p)
      ensures id.None? ==> faults > old(faults)
    {
      var meta := NewObject();
      id := None;
      if meta != null {
        if * {
          id := Some(uniqueId(p));
        }
      }
      ReleaseObject(meta);
      if id.None? {
        faults := faults + 1;
      }
    }

    /** Next(1, ...): hands out one storage with a reference, or NULL at the end. */
    method Next(e: StorageEnum) returns (hr: int, p: Ptr)
      requires Valid() && e in live && forall c :: c in e.rest ==> c in store.nodes
      modifies this`refs, this`faults, e
      ensures Valid() && faults >= old(faults) && Gained(old(refs), refs, p)
      ensures !Succeeded(hr) ==> p.None? && faults > old(faults)
      ensures Succeeded(hr) && old(e.rest) == [] ==> p.None?
      ensures Succeeded(hr) && old(e.rest) != [] ==> p == Some(old(e.rest)[0]) && e.rest == old(e.rest)[1..]
    {
      if * {
        faults := faults + 1;
        return E_FAIL, None;
      }
      if e.rest == [] {
        return S_OK, None;
      }
      hr, p := S_OK, Some(e.rest[0]);
      AddRef(e.rest[0]);
      e.rest := e.rest[1..];
    }

    method GetName(p: Id) returns (hr: int, name: string)
      requires Valid() && refs(p) > 0
      modifies this`faults
      ensures Valid() && faults >= old(faults)
      ensures hr == S_OK || (hr < 0 && faults > old(faults))
      ensures hr == S_OK ==> name == Name(store, p)
    {
      if * {
        faults := faults + 1;
        return E_FAIL, "";
      }
      hr, name := S_OK, Name(store, p);
    }

    /** GetAttributes: on failure the caller's variable keeps whatever it held. */
    method GetAttributes(p: Id, before: Kind) returns (hr: int, kind: Kind)
      requires Valid() && refs(p) > 0
      modifies this`faults
      ensures Valid() && faults >= old(faults)
      ensures hr == S_OK || (hr < 0 && faults > old(faults))
      ensures kind == if hr == S_OK then store.nodes[p].kind else before
    {
      if * {
        faults := faults + 1;
        return E_FAIL, before;
      }
      hr, kind := S_OK, store.nodes[p].kind;
    }

    /** Insert, and Insert3 without overwrite, of a folder. */
    method InsertNewFolder(p: Id, name: string) returns (hr: int, q: Ptr)
      requires Valid() && refs(p) > 0
      modifies this`store, this`refs, this`faults
      ensures Valid() && faults >= old(faults) && Gained(old(refs), refs, q)
      ensures hr == S_OK <==> q.Some?
      ensures hr == S_OK || hr < 0
      ensures q.None? ==> store == old(store)
      ensures q.Some? ==> q.value == old(store).next && InsertFolder(old(store), foldsCase, p, name) == Some(store)
      ensures faults == old(faults) ==> (q.Some? <==> InsertFolder(old(store), foldsCase, p, name).Some?)
    {
      if * {
        faults := faults + 1;
        return E_FAIL, None;
      }
      var r := InsertFolder(store, foldsCase, p, name);
      if r.None? {
        return E_FAIL, None;
      }
      InsertFolderValid(store, foldsCase, p, name);
      hr, q := S_OK, Some(store.next);
      store := r.value;
      AddRef(q.value);
    }

    /** Insert3 of a file with overwrite. */
    method InsertNewFile(p: Id, name: string) returns (hr: int, q: Ptr)
      requires Valid() && refs(p) > 0
      modifies this`store, this`refs, this`faults
      ensures Valid() && faults >= old(faults) && Gained(old(refs), refs, q)
      ensures hr == S_OK <==> q.Some?
      ensures hr == S_OK || hr < 0
      ensures q.None? ==> store == old(store)
      ensures q.Some? ==> q.value == old(store).next && InsertFile(old(store), foldsCase, p, name) == Some(store)
      ensures faults == old(faults) ==> (q.Some? <==> InsertFile(old(store), foldsCase, p, name).Some?)
    {
      if * {
        faults := faults + 1;
        return E_FAIL, None;
      }
      var r := InsertFile(store, foldsCase, p, name);
      if r.None? {
        return E_FAIL, None;
      }
      InsertFileValid(store, foldsCase, p, name);
      hr, q := S_OK, Some(store.next);
      store := r.value;
      AddRef(q.value);
    }

    /** Read: copies the storage's content to the host; nothing on the device changes. */
    method Read(p: Id) returns (hr: int)
      requires Valid() && refs(p) > 0
      modifies this`delivered, this`faults
      ensures Valid() && faults >= old(faults)
      ensures hr == S_OK || (hr < 0 && faults > old(faults))
      ensures delivered == if hr == S_OK then old(delivered) + [p] else old(delivered)
    {
      if * {
        faults := faults + 1;
        return E_FAIL;
      }
      delivered := delivered + [p];
      hr := S_OK;
    }

    /** Delete: a storage that no folder lists, such as the root, cannot be deleted. */
    method Delete(p: Id) returns (hr: int)
      requires Valid() && refs(p) > 0
      modifies this`store, this`faults
      ensures Valid() && faults >= old(faults)
      ensures hr == S_OK || hr < 0
      ensures hr == S_OK ==> HasParent(old(store), p)
      ensures store == if hr == S_OK then Detach(old(store), p) else old(store)
      ensures faults == old(faults) ==> (hr == S_OK <==> HasParent(old(store), p))
    {
      if * {
        faults := faults + 1;
        return E_FAIL;
      }
      if !HasParent(store, p) {
        return E_FAIL;
      }
      DetachValid(store, p);
      store := Detach(store, p);
      hr := S_OK;
    }
  }
}
