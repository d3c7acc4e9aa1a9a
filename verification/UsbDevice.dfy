/**
 * The MTP operations of usbdevice.cpp.  A `label Try` block stands for a try
 * block and `break Try` for a throw; the code after it is the catch and the
 * cleanup.
 */
module UsbDevice {
  import opened Wrappers
  import opened Sequences
  import opened Tokenizer
  import opened Paths
  import opened StorageTree
  import opened FolderLoop
  import opened PathLaws
  import opened LoopResult
  import opened EntryLaws
  import opened WmdmDevice

  const ERROR_SUCCESS: int := 0
  const ERROR_WRONG_PARAMETER: int := 12
  const ERROR_UNKNOWN: int := 1000

  /** mtp_itemlist, the caller's vector of pairs. */
  class ItemList {
    var items: seq<Item>

    constructor ()
      ensures items == []
    {
      items := [];
    }

    method PushBack(item: Item)
      modifies this
      ensures items == old(items) + [item]
    {
      items := items + [item];
    }
  }

  class UsbDevice {
    const wmdm: Device
    /** m_pRootStorage, NULL while no MTP device is attached. */
    var root: Ptr

    ghost predicate Valid()
      reads this, wmdm
    {
      && wmdm.Valid()
      && (root.Some? ==> wmdm.refs(root.value) > 0 && IsFolder(wmdm.store, root.value))
    }

    constructor (wmdm: Device, root: Ptr)
      requires wmdm.Valid()
      requires root.Some? ==> wmdm.refs(root.value) > 0 && IsFolder(wmdm.store, root.value)
      ensures Valid() && this.wmdm == wmdm && this.root == root
    {
      this.wmdm := wmdm;
      this.root := root;
    }

    /**
     * The search loop of get_substorage: take storages off the enumerator until
     * one answers to the name.  A negative hr is a throw.
     */
    method SearchStorage(e: StorageEnum, folder: string) returns (hr: int, out: Ptr)
      requires wmdm.Valid() && e in wmdm.live && forall c :: c in e.rest ==> c in wmdm.store.nodes
      modifies wmdm`refs, wmdm`faults, e
      ensures wmdm.Valid() && wmdm.faults >= old(wmdm.faults)
      ensures Gained(old(wmdm.refs), wmdm.refs, out)
      ensures Succeeded(hr) ==> out == FirstMatch(wmdm.store, old(e.rest), folder)
      ensures !Succeeded(hr) ==> out.None? && wmdm.faults > old(wmdm.faults)
    {
      hr, out := S_OK, None;
      while true
        invariant wmdm.Valid() && wmdm.faults >= old(wmdm.faults)
        invariant Unchanged(old(wmdm.refs), wmdm.refs) && out.None? && Succeeded(hr)
        invariant forall c :: c in e.rest ==> c in wmdm.store.nodes
        invariant FirstMatch(wmdm.store, e.rest, folder) == FirstMatch(wmdm.store, old(e.rest), folder)
        decreases |e.rest|
      {
        var temp: Ptr;
        hr, temp := wmdm.Next(e);
        if !Succeeded(hr) {
          return;
        }
        if temp.None? {
          break;
        }
        var name;
        hr, name := wmdm.GetName(temp.value);
        if !Succeeded(hr) {
          temp := wmdm.SafeRelease(temp);
          return;
        }
        if Lower(name) == Lower(folder) {
          hr, out := wmdm.CopyTo(temp);
          temp := wmdm.SafeRelease(temp);
          break;
        }
        temp := wmdm.SafeRelease(temp);
      }
    }

    /** The part of get_substorage that makes a missing folder.  A negative hr is a throw. */
    method CreateSubstorage(parent: Id, folder: string) returns (hr: int, out: Ptr)
      requires wmdm.Valid() && wmdm.refs(parent) > 0
      modifies wmdm`store, wmdm`refs, wmdm`faults
      ensures wmdm.Valid() && wmdm.faults >= old(wmdm.faults)
      ensures Gained(old(wmdm.refs), wmdm.refs, out)
      ensures Succeeded(hr) <==> out.Some?
      ensures out.Some? ==> out.value == old(wmdm.store).next
                            && InsertFolder(old(wmdm.store), wmdm.foldsCase, parent, folder) == Some(wmdm.store)
      ensures out.None? ==> wmdm.store == old(wmdm.store)
      ensures wmdm.faults == old(wmdm.faults) ==>
                (out.Some? <==> InsertFolder(old(wmdm.store), wmdm.foldsCase, parent, folder).Some?)
    {
      out := None;
      var storage, control;
      hr, storage := wmdm.QueryInterface(parent);
      if !Succeeded(hr) {
        return;
      }
      hr, control := wmdm.QueryInterface(storage.value);
      storage := wmdm.SafeRelease(storage);
      if !Succeeded(hr) {
        return;
      }
      hr, out := wmdm.InsertNewFolder(control.value, folder);
      control := wmdm.SafeRelease(control);
    }

    /**
     * Look one name up below a storage; when it is missing, make a folder of
     * that name if asked to.  The only reference left behind is the one on the
     * storage handed out.
     */
    method GetSubstorage(parent: Ptr, folder: string, create: bool) returns (ret: int, out: Ptr)
      requires wmdm.Valid() && (parent.Some? ==> wmdm.refs(parent.value) > 0)
      modifies wmdm`store, wmdm`refs, wmdm`live, wmdm`faults
      ensures wmdm.Valid() && wmdm.faults >= old(wmdm.faults)
      ensures Gained(old(wmdm.refs), wmdm.refs, out)
      ensures wmdm.live == old(wmdm.live)
      ensures out.Some? ==> parent.Some? && ret == 0
      ensures out.None? ==> (ret == 0 <==> parent.None?)
      ensures out.Some? ==>
                (wmdm.store, out) == SubstorageSpec(old(wmdm.store), wmdm.foldsCase, parent.value, folder, create)
      ensures out.None? ==> wmdm.store == old(wmdm.store)
      ensures wmdm.faults == old(wmdm.faults) && parent.Some? ==>
                && out == SubstorageSpec(old(wmdm.store), wmdm.foldsCase, parent.value, folder, create).1
                && (out.None? ==> if IsFolder(old(wmdm.store), parent.value) && !create then ret == 1 else ret < 0)
    {
      ret, out := 1, None;
      var hr := S_OK;
      var e: StorageEnum?;
      if parent.None? {
        return 0, None;
      }
      label Try: {
        hr, e := wmdm.EnumStorage(parent.value);
        if !Succeeded(hr) {
          ret := hr;
          break Try;
        }
        ChildFacts(wmdm.store, parent.value);
        hr, out := SearchStorage(e, folder);
        if !Succeeded(hr) {
          ret := hr;
          break Try;
        }
        if out.Some? {
          ret := 0;
        }
        if out.None? && create {
          hr, out := CreateSubstorage(parent.value, folder);
          if !Succeeded(hr) {
            ret := hr;
            break Try;
          }
          ret := 0;
        }
      }
      wmdm.ReleaseObject(e);
    }

    method SplitPath(path: string) returns (vpath: StringVector)
      ensures fresh(vpath) && vpath.items == Components(path)
    {
      vpath := new StringVector();
      var _ := SplitString(path, "/", vpath, false);
      EmptyConcat(Components(path));
    }

    /** One pass of the walking loop: the reference on temp is traded for one on the storage it goes to. */
    method WalkStep(temp: Ptr, name: string, create: bool) returns (ret: int, next: Ptr)
      requires Valid() && (temp.Some? ==> wmdm.refs(temp.value) > if temp == root then 1 else 0)
      modifies wmdm`store, wmdm`refs, wmdm`live, wmdm`faults
      ensures Valid() && wmdm.faults >= old(wmdm.faults)
      ensures Traded(old(wmdm.refs), wmdm.refs, temp, next) && wmdm.live == old(wmdm.live)
      ensures next.Some? ==> temp.Some? && ret == 0
      ensures next.Some? ==>
                (wmdm.store, next) == SubstorageSpec(old(wmdm.store), wmdm.foldsCase, temp.value, name, create)
      ensures next.None? ==> wmdm.store == old(wmdm.store)
      ensures wmdm.faults == old(wmdm.faults) && temp.Some? ==>
                next == SubstorageSpec(old(wmdm.store), wmdm.foldsCase, temp.value, name, create).1
    {
      var child, hr;
      ghost var s1 := wmdm.store;
      ret, child := GetSubstorage(temp, name, create);
      if child.Some? {
        SubstorageKeepsRoot(s1, wmdm.foldsCase, temp.value, name, create, root);
      }
      var _ := wmdm.SafeRelease(temp);
      hr, next := wmdm.CopyTo(child);
      child := wmdm.SafeRelease(child);
    }

    /**
     * The loop that walks names down from the root, shared by
     * get_storage_bypath, transfer_file and read_file.  When it stops early
     * (ok is false) everything it held is released.
     */
    method Walk(names: seq<string>, create: bool) returns (ok: bool, ret: int, temp: Ptr)
      requires Valid()
      modifies wmdm`store, wmdm`refs, wmdm`live, wmdm`faults
      ensures Valid() && wmdm.faults >= old(wmdm.faults)
      ensures Gained(old(wmdm.refs), wmdm.refs, temp) && wmdm.live == old(wmdm.live)
      ensures ok ==> ret == 0 && (wmdm.store, temp) == WalkSpec(old(wmdm.store), wmdm.foldsCase, root, names, create)
      ensures ok ==> names == [] || temp.Some?
      ensures !ok ==> names != [] && temp.None?
                      && WalkedPrefix(old(wmdm.store), wmdm.foldsCase, root, names, create, wmdm.store)
      ensures wmdm.faults == old(wmdm.faults) ==>
                (wmdm.store, temp) == WalkSpec(old(wmdm.store), wmdm.foldsCase, root, names, create)
    {
      var hr;
      hr, temp := wmdm.CopyTo(root);
      ok, ret := true, 0;
      ghost var s0 := wmdm.store;
      for i := 0 to |names|
        invariant Valid() && wmdm.faults >= old(wmdm.faults)
        invariant ok && ret == 0 && (i > 0 ==> temp.Some?)
        invariant Gained(old(wmdm.refs), wmdm.refs, temp) && wmdm.live == old(wmdm.live)
        invariant (wmdm.store, temp) == WalkSpec(s0, wmdm.foldsCase, root, names[..i], create)
      {
        var next;
        WalkSpecStep(s0, wmdm.foldsCase, root, names, i, create);
        ret, next := WalkStep(temp, names[i], create);
        temp := next;
        if temp.None? {
          assert WalkedPrefix(s0, wmdm.foldsCase, root, names, create, wmdm.store);
          ok := false;
          return;
        }
      }
      assert names[..|names|] == names;
    }

    /** Find the storage a path leads to; the caller gets a reference to it. */
    method GetStorageByPath(path: string) returns (ret: int, out: Ptr)
      requires Valid()
      modifies wmdm`store, wmdm`refs, wmdm`live, wmdm`faults
      ensures Valid() && wmdm.faults >= old(wmdm.faults)
      ensures wmdm.store == old(wmdm.store)
      ensures Gained(old(wmdm.refs), wmdm.refs, out) && wmdm.live == old(wmdm.live)
      ensures out.Some? ==> out == Lookup(wmdm.store, root, path)
      ensures ret == 0 <==> out.Some? || (root.None? && (path == "/" || path == "//"))
      ensures ret == 12 <==> path == ""
      ensures ret in {0, 1, 12}
      ensures wmdm.faults == old(wmdm.faults) ==> out == Lookup(wmdm.store, root, path)
    {
      ret, out := 1, None;
      var hr;
      if |path| == 0 {
        return ERROR_WRONG_PARAMETER, None;
      }
      if path == "/" || path == "//" {
        hr, out := wmdm.CopyTo(root);
        if hr == S_OK {
          return ERROR_SUCCESS, out;
        }
        return ERROR_UNKNOWN, out;
      }
      var vpath := SplitPath(path);
      TransferComponents(path);
      var ok, temp;
      ok, ret, temp := Walk(vpath.items, false);
      if !ok {
        return 1, None;
      }
      hr, out := wmdm.CopyTo(temp);
      temp := wmdm.SafeRelease(temp);
      ret := 0;
    }

    /** After the file is stored its identifier is fetched for the log, whatever comes of it. */
    method LogIdentifier(newStorage: Id)
      requires wmdm.Valid() && wmdm.refs(newStorage) > 0
      modifies wmdm`refs, wmdm`live, wmdm`faults
      ensures wmdm.Valid() && wmdm.faults >= old(wmdm.faults)
      ensures Unchanged(old(wmdm.refs), wmdm.refs) && wmdm.live == old(wmdm.live)
    {
      var hr, newStorage3 := wmdm.QueryInterface(newStorage);
      if newStorage3.Some? {
        var _ := wmdm.QueryUniqueId(newStorage3.value);
      }
      newStorage3 := wmdm.SafeRelease(newStorage3);
    }

    /** Insert3 with the metadata of the file, which is released after the call, and the log of a success. */
    method InsertWithMetadata(control: Id, fileName: string) returns (hr: int, newStorage: Ptr)
      requires wmdm.Valid() && wmdm.refs(control) > 0
      modifies wmdm`store, wmdm`refs, wmdm`live, wmdm`faults
      ensures wmdm.Valid() && wmdm.faults >= old(wmdm.faults) && wmdm.live == old(wmdm.live)
      ensures Gained(old(wmdm.refs), wmdm.refs, newStorage)
      ensures hr == S_OK <==> newStorage.Some?
      ensures newStorage.None? ==> wmdm.store == old(wmdm.store)
      ensures newStorage.Some? ==> newStorage.value == old(wmdm.store).next
                                   && InsertFile(old(wmdm.store), wmdm.foldsCase, control, fileName) == Some(wmdm.store)
      ensures wmdm.faults == old(wmdm.faults) ==>
                (newStorage.Some? <==> InsertFile(old(wmdm.store), wmdm.foldsCase, control, fileName).Some?)
    {
      var meta := wmdm.NewObject();
      hr, newStorage := wmdm.InsertNewFile(control, fileName);
      wmdm.ReleaseObject(meta);
      if hr == S_OK {
        LogIdentifier(newStorage.value);
      }
    }

    /** The two interfaces of a folder that a transfer needs; each is NULL when it cannot be had. */
    method TakeControl(folder: Id) returns (folder3: Ptr, control: Ptr)
      requires wmdm.Valid() && wmdm.refs(folder) > 0
      modifies wmdm`refs, wmdm`faults
      ensures wmdm.Valid() && wmdm.faults >= old(wmdm.faults)
      ensures forall id: Id :: wmdm.refs(id) == old(wmdm.refs)(id) + Held(folder3, id) + Held(control, id)
      ensures folder3 in {None, Some(folder)} && control in {None, folder3}
      ensures wmdm.faults == old(wmdm.faults) ==> control.Some?
    {
      control := None;
      var hr;
      hr, folder3 := wmdm.QueryInterface(folder);
      if folder3.Some? {
        hr, control := wmdm.QueryInterface(folder3.value);
      }
    }

    /**
     * The last stage of a transfer: take the folder's control interface and
     * store the file.  Nothing is held afterwards.
     */
    method StoreFile(folder: Id, fileName: string) returns (ret: int, ghost stored: Ptr)
      requires wmdm.Valid() && wmdm.refs(folder) > 0
      modifies wmdm`store, wmdm`refs, wmdm`live, wmdm`faults
      ensures wmdm.Valid() && wmdm.faults >= old(wmdm.faults)
      ensures Unchanged(old(wmdm.refs), wmdm.refs) && wmdm.live == old(wmdm.live)
      ensures stored.Some? ==> stored.value == old(wmdm.store).next
                               && InsertFile(old(wmdm.store), wmdm.foldsCase, folder, fileName) == Some(wmdm.store)
      ensures stored.None? ==> wmdm.store == old(wmdm.store)
      ensures wmdm.faults == old(wmdm.faults) ==>
                ret == 0
                && (stored.Some? <==> InsertFile(old(wmdm.store), wmdm.foldsCase, folder, fileName).Some?)
      ensures ret == 0 || (ret == E_FAIL && stored.None?)
    {
      stored := None;
      ret := 0;
      var newStorage: Ptr := None;
      var folder3, control := TakeControl(folder);
      if control.None? {
        ret := E_FAIL;
      } else {
        var _, n := InsertWithMetadata(control.value, fileName);
        newStorage := n;
        stored := newStorage;
      }
      CleanUp(folder3, newStorage, control);
    }

    /** The releases at the end, in their order. */
    method CleanUp(folder3: Ptr, newStorage: Ptr, control: Ptr)
      requires wmdm.Valid()
      requires forall id: Id :: wmdm.refs(id) >= Held(folder3, id) + Held(newStorage, id) + Held(control, id)
      modifies wmdm`refs
      ensures wmdm.Valid()
      ensures forall id: Id ::
                wmdm.refs(id) + Held(folder3, id) + Held(newStorage, id) + Held(control, id) == old(wmdm.refs)(id)
    {
      var _ := wmdm.SafeRelease(folder3);
      var _ := wmdm.SafeRelease(newStorage);
      var _ := wmdm.SafeRelease(control);
    }

    /** The code after the folder loop: it gives up the reference the loop left in temp. */
    method StoreInFolder(temp: Ptr, fileName: string) returns (ret: int, ghost stored: Ptr)
      requires Valid() && (temp.Some? ==> wmdm.refs(temp.value) > 0)
      requires temp.Some? && temp == root ==> wmdm.refs(temp.value) > 1
      modifies wmdm`store, wmdm`refs, wmdm`live, wmdm`faults
      ensures Valid() && wmdm.faults >= old(wmdm.faults)
      ensures Gained(wmdm.refs, old(wmdm.refs), temp) && wmdm.live == old(wmdm.live)
      ensures stored.Some? ==>
                StoreAfter(old(wmdm.store), wmdm.foldsCase, temp, fileName) == Some(Stored(wmdm.store, stored.value))
      ensures stored.None? ==> wmdm.store == old(wmdm.store)
      ensures wmdm.faults == old(wmdm.faults) ==>
                && (ret == 0 <==> temp.Some?)
                && (stored.Some? <==> StoreAfter(old(wmdm.store), wmdm.foldsCase, temp, fileName).Some?)
      ensures ret == 0 || (ret == E_FAIL && stored.None?)
    {
      if temp.None? {
        return E_FAIL, None;
      }
      var hr, folder := wmdm.CopyTo(temp);
      var _ := wmdm.SafeRelease(temp);
      ghost var s1 := wmdm.store;
      ret, stored := StoreFile(folder.value, fileName);
      if stored.Some? {
        InsertFileKeepsRoot(s1, wmdm.foldsCase, folder.value, fileName, root);
      }
      folder := wmdm.SafeRelease(folder);
    }

    /** The first size() - 1 components, which the folder loop runs over. */
    method SplitFolders(dest: string) returns (folders: seq<string>)
      requires dest != ""
      ensures folders == FolderNames(dest)
    {
      var vpath := SplitPath(dest);
      TransferComponents(dest);
      folders := vpath.items[..|vpath.items| - 1];
    }

    method FileNameOf(path: string) returns (fileName: string)
      ensures fileName == FileName(path)
    {
      fileName := path;
      var idx := FindLast(path, '/');
      if idx.Some? {
        fileName := path[idx.value + 1..];
      }
    }

    /** The progress notifier and its progress interface, each NULL when it cannot be had. */
    method OpenProgress() returns (notifier: ComObject?, progress: ComObject?)
      requires wmdm.Valid()
      modifies wmdm`live
      ensures wmdm.Valid()
      ensures Only(notifier) !! old(wmdm.live) && Only(progress) !! old(wmdm.live) && Only(notifier) !! Only(progress)
      ensures wmdm.live == old(wmdm.live) + Only(notifier) + Only(progress)
    {
      progress := null;
      notifier := wmdm.NewObject();
      if notifier != null {
        progress := wmdm.NewObject();
      }
    }

    /** The part of transfer_file between the opening and the release of the progress notifier. */
    method SendFile(dest: string) returns (ret: int, ghost stored: Ptr)
      requires Valid() && dest != ""
      modifies wmdm`store, wmdm`refs, wmdm`live, wmdm`faults
      ensures Valid() && wmdm.faults >= old(wmdm.faults)
      ensures Unchanged(old(wmdm.refs), wmdm.refs) && wmdm.live == old(wmdm.live)
      ensures stored.Some? ==>
                Send(old(wmdm.store), wmdm.foldsCase, root, dest) == Some(Stored(wmdm.store, stored.value))
      ensures stored.None? ==>
                WalkedPrefix(old(wmdm.store), wmdm.foldsCase, root, FolderNames(dest), true, wmdm.store)
      ensures wmdm.faults == old(wmdm.faults) ==>
                (stored.Some? <==> Send(old(wmdm.store), wmdm.foldsCase, root, dest).Some?)
      ensures stored.Some? ==> ret == 0
      ensures ret == 0 || ret == -0x7FFF_BFFB
      ensures wmdm.faults == old(wmdm.faults) ==> (ret != 0 <==> root.None? && FolderNames(dest) == [])
    {
      stored := None;
      ghost var s0 := wmdm.store;
      var fileName := FileNameOf(dest);
      var folders := SplitFolders(dest);
      var ok, temp;
      ok, ret, temp := Walk(folders, true);
      if !ok {
        return S_OK, None;
      }
      WalkedWhole(s0, wmdm.foldsCase, root, FolderNames(dest), true);
      ret, stored := StoreInFolder(temp, fileName);
    }

    /**
     * The MTP branch of transfer_file.  `stored` is the storage that Insert3
     * made; the code itself gives it up again.  The return code tells whether
     * the file was stored exactly when it could be stored, or when there is no
     * root storage and no folder in dest.
     */
    method TransferFile(dest: string) returns (ret: int, ghost stored: Ptr)
      requires Valid() && dest != ""
      modifies wmdm`store, wmdm`refs, wmdm`live, wmdm`faults
      ensures Valid() && wmdm.faults >= old(wmdm.faults)
      ensures Unchanged(old(wmdm.refs), wmdm.refs) && wmdm.live == old(wmdm.live)
      ensures stored.Some? ==>
                Send(old(wmdm.store), wmdm.foldsCase, root, dest) == Some(Stored(wmdm.store, stored.value))
      ensures stored.None? ==>
                WalkedPrefix(old(wmdm.store), wmdm.foldsCase, root, FolderNames(dest), true, wmdm.store)
      ensures stored.Some? ==> Transferred(old(wmdm.store), wmdm.foldsCase, root, dest, wmdm.store, stored.value)
      ensures stored.Some? ==> ret == 0
      ensures ret == 0 || ret == -0x7FFF_BFFB
      ensures wmdm.faults == old(wmdm.faults) ==>
                && (stored.Some? <==> CanStore(old(wmdm.store), wmdm.foldsCase, root, dest))
                && (ret != 0 <==> root.None? && FolderNames(dest) == [])
                && ((ret == 0 <==> stored.Some?)
                    <==> CanStore(old(wmdm.store), wmdm.foldsCase, root, dest)
                         || (root.None? && FolderNames(dest) == []))
    {
      ghost var s0 := wmdm.store;
      SendSucceedsExactly(wmdm.store, wmdm.foldsCase, root, dest);
      var notifier, progress := OpenProgress();
      ret, stored := SendFile(dest);
      if stored.Some? {
        TransferredAs(s0, wmdm.foldsCase, root, dest, wmdm.store, stored.value);
      }
      wmdm.ReleaseObject(progress);
      wmdm.ReleaseObject(notifier);
    }

    /**
     * The last stage of read_file: take the control interface and read; what
     * the reading itself says is dropped.  Nothing is held afterwards.
     */
    method ReadStorage(storage: Id) returns (ret: int, ghost reached: bool, ghost readFailed: bool)
      requires wmdm.Valid() && wmdm.refs(storage) > 0
      modifies wmdm`refs, wmdm`delivered, wmdm`faults
      ensures wmdm.Valid() && wmdm.faults >= old(wmdm.faults)
      ensures Unchanged(old(wmdm.refs), wmdm.refs)
      ensures ret == if reached then 0 else E_FAIL
      ensures readFailed ==> reached
      ensures wmdm.delivered == old(wmdm.delivered) + if reached && !readFailed then [storage] else []
      ensures wmdm.faults == old(wmdm.faults) ==> reached && !readFailed
    {
      ret, reached, readFailed := 0, false, false;
      EmptyConcat(wmdm.delivered);
      var storage3, control: Ptr := None, None;
      var hr;
      label Try: {
        hr, storage3 := wmdm.QueryInterface(storage);
        if storage3.None? {
          ret := E_FAIL;
          break Try;
        }
        hr, control := wmdm.QueryInterface(storage3.value);
        if control.None? {
          ret := E_FAIL;
          break Try;
        }
        reached := true;
        hr := wmdm.Read(control.value);
        readFailed := hr != S_OK;
      }
      storage3 := wmdm.SafeRelease(storage3);
      control := wmdm.SafeRelease(control);
    }

    /** The part of read_file between the opening and the release of the progress notifier. */
    method FetchFile(src: string) returns (ret: int, ghost source: Ptr, ghost readFailed: bool)
      requires Valid()
      modifies wmdm`store, wmdm`refs, wmdm`live, wmdm`delivered, wmdm`faults
      ensures Valid() && wmdm.faults >= old(wmdm.faults)
      ensures wmdm.store == old(wmdm.store)
      ensures Unchanged(old(wmdm.refs), wmdm.refs) && wmdm.live == old(wmdm.live)
      ensures source.Some? ==> source == ReadWalk(wmdm.store, root, src) && ret == 0
      ensures readFailed ==> source.Some?
      ensures wmdm.delivered == old(wmdm.delivered) + if source.Some? && !readFailed then [source.value] else []
      ensures ret == 0 || ret == -0x7FFF_BFFB
      ensures wmdm.faults == old(wmdm.faults) ==>
                && source == ReadWalk(wmdm.store, root, src) && !readFailed
                && (ret != 0 <==> root.None? && src == "")
    {
      source, readFailed := None, false;
      EmptyConcat(wmdm.delivered);
      var hr;
      var vpath := SplitPath(src);
      TransferComponents(src);
      var ok, temp, storage;
      ok, ret, temp := Walk(vpath.items, false);
      if !ok {
        return S_OK, None, false;
      }
      if temp.None? {
        return E_FAIL, None, false;
      }
      hr, storage := wmdm.CopyTo(temp);
      temp := wmdm.SafeRelease(temp);
      ghost var reached;
      ret, reached, readFailed := ReadStorage(storage.value);
      source := if reached then storage else None;
      storage := wmdm.SafeRelease(storage);
    }

    /**
     * The MTP branch of read_file; `source` is the storage that is read.  The
     * return code is 0 once reading has begun, even when Read fails, and also
     * when there is nothing to read.
     */
    method ReadFile(src: string) returns (ret: int, ghost source: Ptr, ghost readFailed: bool)
      requires Valid()
      modifies wmdm`store, wmdm`refs, wmdm`live, wmdm`delivered, wmdm`faults
      ensures Valid() && wmdm.faults >= old(wmdm.faults)
      ensures wmdm.store == old(wmdm.store)
      ensures Unchanged(old(wmdm.refs), wmdm.refs) && wmdm.live == old(wmdm.live)
      ensures source.Some? ==> source == ReadWalk(wmdm.store, root, src) && ret == 0
      ensures readFailed ==> source.Some? && ret == 0
      ensures wmdm.delivered == old(wmdm.delivered) + if source.Some? && !readFailed then [source.value] else []
      ensures ret == 0 || ret == -0x7FFF_BFFB
      ensures wmdm.faults == old(wmdm.faults) ==>
                && source == ReadWalk(wmdm.store, root, src) && !readFailed
                && (ret != 0 <==> root.None? && src == "")
    {
      var notifier, progress := OpenProgress();
      ret, source, readFailed := FetchFile(src);
      wmdm.ReleaseObject(progress);
      wmdm.ReleaseObject(notifier);
    }

    /** The Delete of delete_mtpitem on the storage it has found.  Nothing is held afterwards. */
    method DeleteStorage(storage: Id) returns (done: bool)
      requires Valid() && wmdm.refs(storage) > 0
      modifies wmdm`store, wmdm`refs, wmdm`faults
      ensures Valid() && wmdm.faults >= old(wmdm.faults)
      ensures Unchanged(old(wmdm.refs), wmdm.refs)
      ensures done ==> HasParent(old(wmdm.store), storage)
      ensures wmdm.store == if done then Detach(old(wmdm.store), storage) else old(wmdm.store)
      ensures wmdm.faults == old(wmdm.faults) ==> (done <==> HasParent(old(wmdm.store), storage))
    {
      var hr, control := wmdm.QueryInterface(storage);
      if hr == S_OK {
        hr := wmdm.Delete(control.value);
      }
      done := hr == S_OK;
      control := wmdm.SafeRelease(control);
    }

    /** delete_mtpitem; the root storage must be there when the path names it. */
    method DeleteItem(path: string) returns (done: bool)
      requires Valid() && (root.Some? || (path != "/" && path != "//"))
      modifies wmdm`store, wmdm`refs, wmdm`live, wmdm`faults
      ensures Valid() && wmdm.faults >= old(wmdm.faults)
      ensures Unchanged(old(wmdm.refs), wmdm.refs) && wmdm.live == old(wmdm.live)
      ensures done ==> var d := Lookup(old(wmdm.store), root, path);
                       d.Some? && HasParent(old(wmdm.store), d.value)
                       && wmdm.store == Detach(old(wmdm.store), d.value)
      ensures !done ==> wmdm.store == old(wmdm.store)
      ensures wmdm.faults == old(wmdm.faults) ==>
                var d := Lookup(old(wmdm.store), root, path);
                && (done <==> d.Some? && HasParent(old(wmdm.store), d.value))
                && (d.Some? && d != root ==> done)
    {
      if root.Some? && Lookup(wmdm.store, root, path).Some? && Lookup(wmdm.store, root, path) != root {
        FoundHasParent(wmdm.store, root.value, path, Lookup(wmdm.store, root, path).value);
      }
      done := false;
      var ret, storage := GetStorageByPath(path);
      if ret == 0 {
        done := DeleteStorage(storage.value);
      }
      storage := wmdm.SafeRelease(storage);
    }

    /**
     * exist_folder_mtp and exist_file_mtp.  When GetAttributes fails the answer
     * is whatever the uninitialised attribute variable says.
     */
    method ExistItem(path: string, wanted: Kind) returns (result: bool)
      requires Valid()
      modifies wmdm`store, wmdm`refs, wmdm`live, wmdm`faults
      ensures Valid() && wmdm.faults >= old(wmdm.faults)
      ensures wmdm.store == old(wmdm.store)
      ensures Unchanged(old(wmdm.refs), wmdm.refs) && wmdm.live == old(wmdm.live)
      ensures result ==> Lookup(wmdm.store, root, path).Some?
      ensures wmdm.faults == old(wmdm.faults) ==> (result <==> Exists(wmdm.store, root, path, wanted))
    {
      var ret, storage := GetStorageByPath(path);
      result := ret == 0 && storage.Some?;
      if result {
        var attrib: Kind := *;
        var hr;
        hr, attrib := wmdm.GetAttributes(storage.value, attrib);
        result := attrib == wanted;
      }
      storage := wmdm.SafeRelease(storage);
    }

    /** The Insert of create_folder_mtp into the parent it has found.  Nothing is held afterwards. */
    method InsertInto(parent: Id, name: string) returns (done: bool)
      requires Valid() && wmdm.refs(parent) > 0
      modifies wmdm`store, wmdm`refs, wmdm`faults
      ensures Valid() && wmdm.faults >= old(wmdm.faults)
      ensures Unchanged(old(wmdm.refs), wmdm.refs)
      ensures done ==> InsertFolder(old(wmdm.store), wmdm.foldsCase, parent, name) == Some(wmdm.store)
      ensures !done ==> wmdm.store == old(wmdm.store)
      ensures wmdm.faults == old(wmdm.faults) ==>
                (done <==> InsertFolder(old(wmdm.store), wmdm.foldsCase, parent, name).Some?)
    {
      var control, newFolder: Ptr := None, None;
      var hr;
      ghost var s0 := wmdm.store;
      hr, control := wmdm.QueryInterface(parent);
      if hr == S_OK {
        hr, newFolder := wmdm.InsertNewFolder(control.value, name);
      }
      done := hr == S_OK;
      if done && root.Some? {
        InsertFolderGrows(s0, wmdm.foldsCase, parent, name, wmdm.store);
        assert Kept(s0, wmdm.store, root.value);
      }
      control := wmdm.SafeRelease(control);
      newFolder := wmdm.SafeRelease(newFolder);
    }

    /** The part of create_folder_mtp after the path has been cut. */
    method CreateIn(parent: string, toCreate: string) returns (done: bool)
      requires Valid() && (root.Some? || (parent != "/" && parent != "//"))
      modifies wmdm`store, wmdm`refs, wmdm`live, wmdm`faults
      ensures Valid() && wmdm.faults >= old(wmdm.faults)
      ensures Unchanged(old(wmdm.refs), wmdm.refs) && wmdm.live == old(wmdm.live)
      ensures done ==>
                CreateBelowParent(old(wmdm.store), wmdm.foldsCase, Lookup(old(wmdm.store), root, parent), toCreate)
                == Some(wmdm.store)
      ensures !done ==> wmdm.store == old(wmdm.store)
      ensures wmdm.faults == old(wmdm.faults) ==>
                (done <==> CreateBelowParent(old(wmdm.store), wmdm.foldsCase, Lookup(old(wmdm.store), root, parent),
                                             toCreate).Some?)
    {
      done := false;
      var ret, storage := GetStorageByPath(parent);
      if ret == 0 {
        done := InsertInto(storage.value, toCreate);
      }
      storage := wmdm.SafeRelease(storage);
    }

    /** create_folder_mtp; the root storage must be there when the parent path names it. */
    method CreateFolderMtp(path: string) returns (done: bool)
      requires Valid() && (root.Some? || (ParentPath(path) != "/" && ParentPath(path) != "//"))
      modifies wmdm`store, wmdm`refs, wmdm`live, wmdm`faults
      ensures Valid() && wmdm.faults >= old(wmdm.faults)
      ensures Unchanged(old(wmdm.refs), wmdm.refs) && wmdm.live == old(wmdm.live)
      ensures done ==> CreateFolder(old(wmdm.store), wmdm.foldsCase, root, path) == Some(wmdm.store)
      ensures !done ==> wmdm.store == old(wmdm.store)
      ensures wmdm.faults == old(wmdm.faults) ==>
                (done <==> CanCreate(old(wmdm.store), wmdm.foldsCase, root, path))
    {
      CreateSucceedsExactly(wmdm.store, wmdm.foldsCase, root, path);
      done := false;
      var toCreate, parent := "", "";
      var pos := FindLast(path, '/');
      if pos.Some? {
        toCreate := path[pos.value + 1..];
        parent := path[..pos.value];
      }
      if |toCreate| == 0 || |parent| == 0 {
        return false;
      }
      done := CreateIn(parent, toCreate);
    }

    /** The identifier beside a listed storage: "0" when it cannot be had. */
    method IdentifierOf(storage: Id) returns (id: string)
      requires wmdm.Valid() && wmdm.refs(storage) > 0
      modifies wmdm`live, wmdm`faults
      ensures wmdm.Valid() && wmdm.faults >= old(wmdm.faults) && wmdm.live == old(wmdm.live)
      ensures id == wmdm.uniqueId(storage) || (id == "0" && wmdm.faults > old(wmdm.faults))
    {
      id := "0";
      var found := wmdm.QueryUniqueId(storage);
      if found.Some? {
        id := found.value;
      }
    }

    /** One pass of the loop of parse_folder_mtp; hr other than S_OK is a throw. */
    method ListStorage(folder: Id, subFiles: ItemList, subFolders: ItemList) returns (hr: int, ghost id: string)
      requires wmdm.Valid() && wmdm.refs(folder) > 0 && subFiles != subFolders
      modifies wmdm`refs, wmdm`live, wmdm`faults, subFiles, subFolders
      ensures wmdm.Valid() && wmdm.faults >= old(wmdm.faults)
      ensures Unchanged(old(wmdm.refs), wmdm.refs) && wmdm.live == old(wmdm.live)
      ensures hr != S_OK ==> wmdm.faults > old(wmdm.faults)
      ensures id == wmdm.uniqueId(folder) || (id == "0" && wmdm.faults > old(wmdm.faults))
      ensures subFiles.items == old(subFiles.items)
                                + if hr == S_OK then ItemIfKind(wmdm.store, folder, id, File) else []
      ensures subFolders.items == old(subFolders.items)
                                  + if hr == S_OK then ItemIfKind(wmdm.store, folder, id, Folder) else []
    {
      id := wmdm.uniqueId(folder);
      var folder3: Ptr, name, attrib: Kind;
      hr, name := wmdm.GetName(folder);
      if hr != S_OK {
        return;
      }
      hr, folder3 := wmdm.QueryInterface(folder);
      if hr != S_OK {
        return;
      }
      var storageId := IdentifierOf(folder3.value);
      id := storageId;
      attrib := *;
      hr, attrib := wmdm.GetAttributes(folder3.value, attrib);
      if !Succeeded(hr) {
        folder3 := wmdm.SafeRelease(folder3);
        return;
      }
      if attrib == File {
        subFiles.PushBack(Item(name, storageId));
      }
      if attrib == Folder {
        subFolders.PushBack(Item(name, storageId));
      }
      folder3 := wmdm.SafeRelease(folder3);
    }

    /** The loop of parse_folder_mtp over one enumerator; hr other than S_OK is a throw. */
    method ListStorages(e: StorageEnum, subFiles: ItemList, subFolders: ItemList)
      returns (hr: int, ghost ids: seq<string>)
      requires wmdm.Valid() && e in wmdm.live && forall c :: c in e.rest ==> c in wmdm.store.nodes
      requires subFiles != subFolders
      modifies wmdm`refs, wmdm`live, wmdm`faults, e, subFiles, subFolders
      ensures wmdm.Valid() && wmdm.faults >= old(wmdm.faults)
      ensures Unchanged(old(wmdm.refs), wmdm.refs) && wmdm.live == old(wmdm.live)
      ensures wmdm.Identified(old(e.rest), ids, wmdm.faults == old(wmdm.faults))
      ensures subFiles.items == old(subFiles.items) + ItemsOfKind(wmdm.store, old(e.rest)[..|ids|], ids, File)
      ensures subFolders.items == old(subFolders.items) + ItemsOfKind(wmdm.store, old(e.rest)[..|ids|], ids, Folder)
      ensures hr == S_OK ==> |ids| == |old(e.rest)|
      ensures hr != S_OK ==> wmdm.faults > old(wmdm.faults)
    {
      ghost var all := e.rest;
      ids := [];
      EmptyConcat(subFiles.items);
      EmptyConcat(subFolders.items);
      assert all[..0] == [];
      while true
        invariant wmdm.Valid() && wmdm.faults >= old(wmdm.faults)
        invariant Unchanged(old(wmdm.refs), wmdm.refs) && wmdm.live == old(wmdm.live)
        invariant wmdm.Identified(all, ids, wmdm.faults == old(wmdm.faults)) && e.rest == all[|ids|..]
        invariant subFiles.items == old(subFiles.items) + ItemsOfKind(wmdm.store, all[..|ids|], ids, File)
        invariant subFolders.items == old(subFolders.items) + ItemsOfKind(wmdm.store, all[..|ids|], ids, Folder)
        decreases |e.rest|
      {
        var folder: Ptr;
        hr, folder := wmdm.Next(e);
        if !Succeeded(hr) {
          return;
        }
        if folder.None? {
          return S_OK, ids;
        }
        ghost var id;
        hr, id := ListStorage(folder.value, subFiles, subFolders);
        folder := wmdm.SafeRelease(folder);
        if hr != S_OK {
          return;
        }
        ItemsOfKindNext(wmdm.store, old(subFiles.items), all, ids, id, File);
        ItemsOfKindNext(wmdm.store, old(subFolders.items), all, ids, id, Folder);
        ids := ids + [id];
      }
    }

    /** The try block of parse_folder_mtp: enumerate the storage it has found. */
    method ListFolder(folder: Id, subFiles: ItemList, subFolders: ItemList) returns (ret: int, ghost ids: seq<string>)
      requires wmdm.Valid() && wmdm.refs(folder) > 0 && subFiles != subFolders
      modifies wmdm`refs, wmdm`faults, wmdm`live, subFiles, subFolders
      ensures wmdm.Valid() && wmdm.faults >= old(wmdm.faults)
      ensures Unchanged(old(wmdm.refs), wmdm.refs) && wmdm.live == old(wmdm.live)
      ensures var cs := Children(wmdm.store, folder);
              && wmdm.Identified(cs, ids, wmdm.faults == old(wmdm.faults))
              && subFiles.items == old(subFiles.items) + ItemsOfKind(wmdm.store, cs[..|ids|], ids, File)
              && subFolders.items == old(subFolders.items) + ItemsOfKind(wmdm.store, cs[..|ids|], ids, Folder)
              && (ret == 0 ==> |ids| == |cs| && IsFolder(wmdm.store, folder))
      ensures ret in {0, 1}
      ensures wmdm.faults == old(wmdm.faults) ==> (ret == 0 <==> IsFolder(wmdm.store, folder))
    {
      ret, ids := 0, [];
      EmptyConcat(subFiles.items);
      EmptyConcat(subFolders.items);
      var hr, e := wmdm.EnumStorage(folder);
      if !Succeeded(hr) {
        return 1, [];
      }
      ChildFacts(wmdm.store, folder);
      hr, ids := ListStorages(e, subFiles, subFolders);
      if hr != S_OK {
        ret := 1;
      }
      wmdm.ReleaseObject(e);
    }

    /**
     * parse_folder_mtp; the root storage must be there when the path names it.
     * `ids` are the identifiers of the children it has come to.
     */
    method ParseFolder(path: string, subFiles: ItemList, subFolders: ItemList)
      returns (ret: int, ghost ids: seq<string>)
      requires Valid() && (root.Some? || (path != "/" && path != "//"))
      requires subFiles != subFolders
      modifies wmdm`store, wmdm`refs, wmdm`live, wmdm`faults, subFiles, subFolders
      ensures Valid() && wmdm.faults >= old(wmdm.faults)
      ensures wmdm.store == old(wmdm.store)
      ensures Unchanged(old(wmdm.refs), wmdm.refs) && wmdm.live == old(wmdm.live)
      ensures var cs := Entries(wmdm.store, Lookup(wmdm.store, root, path));
              && wmdm.Identified(cs, ids, wmdm.faults == old(wmdm.faults))
              && subFiles.items == old(subFiles.items) + ItemsOfKind(wmdm.store, cs[..|ids|], ids, File)
              && subFolders.items == old(subFolders.items) + ItemsOfKind(wmdm.store, cs[..|ids|], ids, Folder)
              && (ret == 0 ==> |ids| == |cs|)
      ensures ret in {0, 1, 12} && (ret == 12 <==> path == "")
      ensures ret == 0 ==> Exists(wmdm.store, root, path, Folder)
      ensures wmdm.faults == old(wmdm.faults) ==>
                && (ret == 0 <==> Exists(wmdm.store, root, path, Folder))
                && (ret == 0 ==> Listed(old(subFiles.items), subFiles, path, File)
                                 && Listed(old(subFolders.items), subFolders, path, Folder))
    {
      var storage;
      ids := [];
      EmptyConcat(subFiles.items);
      EmptyConcat(subFolders.items);
      ret, storage := GetStorageByPath(path);
      if ret != 0 {
        storage := wmdm.SafeRelease(storage);
        return;
      }
      ret, ids := ListFolder(storage.value, subFiles, subFolders);
      storage := wmdm.SafeRelease(storage);
      if ret == 0 && wmdm.faults == old(wmdm.faults) {
        ghost var cs := Entries(wmdm.store, Lookup(wmdm.store, root, path));
        assert cs[..|ids|] == cs;
        ItemsListExactly(wmdm.store, wmdm.uniqueId, cs, ids, File);
        ItemsListExactly(wmdm.store, wmdm.uniqueId, cs, ids, Folder);
      }
    }

    /** What the list has had added is exactly the entries of that kind in the folder the path leads to. */
    ghost predicate Listed(before: seq<Item>, list: ItemList, path: string, kind: Kind)
      reads this, wmdm, list
    {
      && Exists(wmdm.store, root, path, Folder)
      && |before| <= |list.items| && list.items[..|before|] == before
      && ListsExactly(wmdm.store, wmdm.uniqueId, wmdm.store.nodes[Lookup(wmdm.store, root, path).value].children, kind,
                      list.items[|before|..])
    }
  }

  /** The names `there` and then `made` lead to folder c, which has the last of these names. */
  ghost predicate MadeAs(s: Store, root: Id, there: seq<string>, made: seq<string>, rest: seq<string>, c: Id)
    requires made != []
  {
    FolderAt(s, root, there + made, c, made[|made| - 1])
  }

  /** However the folder names are cut into those that were there, some that were not, and the rest. */
  ghost predicate AllMade(s: Store, root: Id, names: seq<string>, k: nat, s': Store) {
    forall there, made, rest, c {:trigger MadeAs(s', root, there, made, rest, c)} ::
      made != [] && names == there + (made + rest) && k == |there| && c == s.next + |made| - 1 ==>
        MadeAs(s', root, there, made, rest, c)
  }

  /**
   * After a transfer: the missing folders of dest are there under their exact
   * names, the file is, and nothing else is new or changed.
   */
  ghost predicate Transferred(s: Store, foldsCase: bool, root: Ptr, dest: string, s': Store, id: Id)
    requires dest != ""
  {
    && root.Some?
    && var names := FolderNames(dest);
       var k := Depth(s, root, names);
       var last := Resolve(s, root, names[..k]);
       && last.Some? && SentAs(s, s', foldsCase, last.value, names[k..], FileName(dest), id)
       && AllMade(s, root.value, names, k, s')
  }

  lemma TransferredAs(s: Store, foldsCase: bool, root: Ptr, dest: string, s': Store, id: Id)
    requires StorageTree.Valid(s) && root.Some? && IsFolder(s, root.value)
    requires dest != "" && Send(s, foldsCase, root, dest) == Some(Stored(s', id))
    ensures Transferred(s, foldsCase, root, dest, s', id)
  {
    SendMakes(s, foldsCase, root.value, dest, s', id);
    FoldersMade(s, foldsCase, root.value, dest, s', id);
  }

  lemma FoldersMade(s: Store, foldsCase: bool, root: Id, dest: string, s': Store, id: Id)
    requires StorageTree.Valid(s) && IsFolder(s, root)
    requires dest != "" && Send(s, foldsCase, Some(root), dest) == Some(Stored(s', id))
    ensures AllMade(s, root, FolderNames(dest), Depth(s, Some(root), FolderNames(dest)), s')
  {
    forall there, made, rest, c: Id |
      made != [] && FolderNames(dest) == there + (made + rest)
      && Depth(s, Some(root), FolderNames(dest)) == |there| && c == s.next + |made| - 1
      ensures MadeAs(s', root, there, made, rest, c)
    {
      SentFolders(s, foldsCase, root, dest, s', id, there, made, rest, c);
    }
  }

  function Entries(s: Store, f: Ptr): seq<Id> {
    if f.None? then [] else Children(s, f.value)
  }

  lemma WalkedWhole(s: Store, foldsCase: bool, root: Ptr, names: seq<string>, create: bool)
    ensures WalkedPrefix(s, foldsCase, root, names, create, WalkSpec(s, foldsCase, root, names, create).0)
  {
    assert names[..|names|] == names;
  }

  lemma InsertFileKeepsRoot(s: Store, foldsCase: bool, f: Id, name: string, root: Ptr)
    requires InsertFile(s, foldsCase, f, name).Some? && StorageTree.Valid(s)
    requires root.Some? ==> IsFolder(s, root.value)
    ensures root.Some? ==> IsFolder(InsertFile(s, foldsCase, f, name).value, root.value)
  {
    var cs := InsertFileShape(s, foldsCase, f, name);
    ChildFacts(s, f);
  }

  /** One reference on p less, one on q more. */
  ghost predicate Traded(before: Refs, after: Refs, p: Ptr, q: Ptr) {
    forall id: Id :: after(id) + Held(p, id) == before(id) + Held(q, id)
  }

  /** What get_substorage does to the tree and hands out when no call fails. */
  function SubstorageSpec(s: Store, foldsCase: bool, parent: Id, folder: string, create: bool): (Store, Ptr) {
    if create then EnterOrMake(s, foldsCase, parent, folder) else (s, Child(s, parent, folder))
  }

  /** What a whole walk does to the tree and where it ends when no call fails. */
  function WalkSpec(s: Store, foldsCase: bool, root: Ptr, names: seq<string>, create: bool): (Store, Ptr) {
    if create then MakeDirs(s, foldsCase, root, names) else (s, Resolve(s, root, names))
  }

  /** Is s' the tree after some prefix of the walk? */
  ghost predicate WalkedPrefix(s: Store, foldsCase: bool, root: Ptr, names: seq<string>, create: bool, s': Store) {
    exists k :: 0 <= k <= |names| && s' == WalkSpec(s, foldsCase, root, names[..k], create).0
  }

  /**
   * Whether a transfer's folder loop completes or stops part-way, the tree it
   * leaves is valid, holds everything it held, and every path that led
   * somewhere still leads to the same storage.
   */
  lemma FolderLoopOnlyGrows(s: Store, foldsCase: bool, root: Ptr, names: seq<string>, s': Store, path: string)
    requires StorageTree.Valid(s) && (root.Some? ==> root.value in s.nodes)
    requires WalkedPrefix(s, foldsCase, root, names, true, s')
    ensures StorageTree.Valid(s') && Extends(s, s')
    ensures SiblingsUnique(s) ==> SiblingsUnique(s')
    ensures if Lookup(s, root, path).Some? then Lookup(s', root, path) == Lookup(s, root, path)
            else NoneOrNew(s, Lookup(s', root, path))
  {
    var k :| 0 <= k <= |names| && s' == WalkSpec(s, foldsCase, root, names[..k], true).0;
    MakeDirsGrows(s, foldsCase, root, names[..k]);
    if SiblingsUnique(s) {
      MakeDirsKeepsSiblingsUnique(s, foldsCase, root, names[..k]);
    }
    MakeDirsAddsNew(s, foldsCase, root, names[..k]);
    if Lookup(s, root, path).Some? {
      ExtendsLookup(s, s', root, path);
    } else if path !in {"", "/", "//"} {
      NowhereOrNew(s, s', root, Components(path));
    }
  }

  /** One more pass of the walking loop; a walk that stopped stays where it is. */
  lemma WalkSpecStep(s: Store, foldsCase: bool, root: Ptr, names: seq<string>, i: nat, create: bool)
    requires i < |names|
    ensures var (s1, temp) := WalkSpec(s, foldsCase, root, names[..i], create);
            var next := if temp.None? then (s1, None)
                        else SubstorageSpec(s1, foldsCase, temp.value, names[i], create);
            && WalkSpec(s, foldsCase, root, names[..i + 1], create) == next
            && (next.1.None? ==> WalkSpec(s, foldsCase, root, names, create) == next)
  {
    var pre, one := names[..i], [names[i]];
    assert names[..i + 1] == pre + one;
    assert names == names[..i + 1] + names[i + 1..];
    assert one[1..] == [];
    ResolveConcat(s, root, pre, one);
    MakeDirsConcat(s, foldsCase, root, pre, one);
    ResolveConcat(s, root, names[..i + 1], names[i + 1..]);
    MakeDirsConcat(s, foldsCase, root, names[..i + 1], names[i + 1..]);
  }

  lemma SubstorageKeepsRoot(s: Store, foldsCase: bool, parent: Id, folder: string, create: bool, root: Ptr)
    requires StorageTree.Valid(s) && parent in s.nodes && (root.Some? ==> IsFolder(s, root.value))
    ensures root.Some? ==> IsFolder(SubstorageSpec(s, foldsCase, parent, folder, create).0, root.value)
  {
    EnterOrMakeEffect(s, foldsCase, parent, folder);
    if root.Some? {
      assert Kept(s, EnterOrMake(s, foldsCase, parent, folder).0, root.value);
    }
  }
}
