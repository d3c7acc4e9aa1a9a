# jusbpmp: a verified model of the device code

jusbpmp gives Java programs access to portable USB devices. Four pieces of its
native code carry real logic, and this project models them and proves what they
are for.

* **Paths and the storage tree** (`Tokenizer`, `Paths`, `StorageTree`,
  `FolderLoop`, `LoopResult`, `LookupLaws`, `PathLaws`, `EntryLaws`,
  `SiblingLaws`, `WmdmDevice`, `UsbDevice`). An MTP device is a tree of storages.
  Paths are split into components and walked down the tree, comparing names up to
  case and taking the first match; a transfer makes missing folders on the way.
  `UsbDevice` holds the operations as methods over a device with reference
  counts, enumerators and calls that can fail at any point; the other modules
  hold the laws of the tree functions that these methods are proved to compute.
* **The shutdown monitor** (`ShutdownMonitor`, `AppAtlModule`): any number of
  threads and one monitor thread as interleaved atomic steps, the laws of all
  runs, and the module object whose code is proved to take such runs.
* **The USB descriptor walk and the hub traversal** (`UsbDescriptors`,
  `HubTree`, `HubTraversal`, `PortReports`, `DisplayUsb`): a pointer stepped
  through a packet buffer, a recursion over the tree of hubs, and a language ID
  carried along.
  The layouts are those of sections 9.6.1, 9.6.3, 9.6.5 and 9.6.6 of USB 2.0 and
  section 6.2.1 of HID 1.11.
* **The chunked copy** (`MscCopy`) with its progress callbacks.

`Sequences` and `Wrappers` hold what the others share.

## How to read the contracts

A storage is known by an id; ids are given out in increasing order, and a new
storage is created below an existing one. A COM pointer is an optional id, `None`
for NULL. `Gained(before, after, p)` says that reference counts have changed by
one on `p` and by nothing elsewhere. A device call can fail without a reason the
model knows; the ghost counter `faults` then goes up (metadata objects for a new file
and progress interfaces excepted, on which nothing depends), and a contract that
begins with `faults == old(faults)` says what happens when no call has failed
that way. Results that hold in spite of failures do not mention it. The copy has `failed`
(a read error) and `aborted` (a request to stop) for the same purpose.

The device is assumed to behave as follows. Child names are not empty and have
no `/`. Only folders can be enumerated. Inserting is refused for other names,
into files, and where the device already has the name; Insert3 with overwrite
takes the place of a file of the same name. Whether names that differ only in
case are the same to the device is its constant `foldsCase`. Delete takes the
storage, with everything below it, out of its folder, and refuses a storage that
no folder lists. Lower-casing is that of the C locale.

## What the proofs found

* `transfer_file` throws `hr` for a missing component while it still holds S_OK,
  and returns 0 when Insert3 fails, too. When no call fails, 0 tells the truth
  exactly when the file could be stored: dest does not end in `/`, the last
  storage its folders lead to is a folder, and no folder there has the file's
  name (`PathLaws.SendSucceedsExactly`, `PathLaws.FolderIsNotReplaced`,
  `UsbDevice.UsbDevice.TransferFile`). Any other code means that there is no root
  storage and dest has no folders, or that a call has failed.
* `read_file` returns 0 for a missing component, too, and drops what Read
  returns, so that a failed read also gives 0 (`UsbDevice.UsbDevice.ReadFile`).
* On a device that tells case apart, an entry whose name differs from the sent
  file's only in case hides it (`PathLaws.SendThenFind`,
  `PathLaws.SentFileCanBeHidden`), the same holds for a created folder
  (`EntryLaws.CreateThenFind`, `EntryLaws.CreatedFolderCanBeHidden`), a deleted
  path can still lead somewhere (`EntryLaws.DeleteExact`,
  `EntryLaws.DeletedPathCanLeadOn`), and a listed file need not be found
  (`EntryLaws.FolderAgreesExactly`, `EntryLaws.ListedFileCanBeHidden`). Such a
  device is also where a transfer or a create can end the uniqueness of sibling
  names (`SiblingLaws.SendKeepsUniqueExactly`).
* `create_folder_mtp("/name")` always fails; the root needs `//name`
  (`EntryLaws.CreateNeedsParent`, `EntryLaws.CreateBelowRoot`).
* `read_file("/")` finds nothing although `get_storage_bypath("/")` is the root
  (`PathLaws.ReadWalkAgrees`).
* `msc_copy` tests `f_from` where it means `f_to`, never returns its code 3, and
  returns 0 for an incomplete copy when the short write falls in the last,
  partial chunk (`MscCopy.MscCopy`, `MscCopy.ShortCopySucceeds`).
* `split_string` goes on one character behind a hit, not behind the whole
  delimiter (`Tokenizer.LongDelimiter`).
* Only in the free-threaded build, and only if a rise from zero needs an
  activation, does the lock count stay at zero after the decision to exit
  (`ShutdownMonitor.ZeroIsFinalExactly`).
* The descriptor walk moves by kind, not by length, so a known descriptor of
  another length puts it out of step (`UsbDescriptors.AlignedExactly`), and a
  device whose language ID is zero is asked for it before every string
  (`HubTree.LanguageAtMostOnceExactly`).

## Model

| member | source | states |
|---|---|---|
| Tokenizer.FindIsFirst | jusbpmp/jusbpmp-cpp/src/main/cpp/helperlib.cpp:200 | `Find` gives the first occurrence, and npos exactly when there is none |
| Tokenizer.SplitString | jusbpmp/jusbpmp-cpp/src/main/cpp/helperlib.cpp:182-220 | for any delimiter and flag the caller's vector grows by exactly the tokens of `Split`, and the returned count is that growth |
| Tokenizer.TokensAreFields | jusbpmp/jusbpmp-cpp/src/main/cpp/helperlib.cpp:200-217 | for every one-character delimiter the searching loop produces the character-by-character fields, or those fields with empty inner ones dropped and the last one always kept |
| Tokenizer.SplitKeepingEmpties | jusbpmp/jusbpmp-cpp/src/main/cpp/helperlib.cpp:195-217 | with empties kept no token contains the delimiter and joining the tokens gives the input back but for one leading `/` |
| Tokenizer.SplitDroppingEmpties | jusbpmp/jusbpmp-cpp/src/main/cpp/helperlib.cpp:207-217 | with empties dropped the tokens are the non-empty fields but for the last, and the last always |
| Tokenizer.SplitNothing | jusbpmp/jusbpmp-cpp/src/main/cpp/helperlib.cpp:184-192 | there are no tokens exactly for an empty input or an empty delimiter |
| Tokenizer.LongDelimiter | jusbpmp/jusbpmp-cpp/src/main/cpp/helperlib.cpp:213 | a longer delimiter is not skipped as a whole: the search goes on behind its first character |
| Tokenizer.JoinFields | jusbpmp/jusbpmp-cpp/src/main/cpp/helperlib.cpp:207-217 | joining the fields of any string gives the string back |
| Tokenizer.FieldsJoin | jusbpmp/jusbpmp-cpp/src/main/cpp/helperlib.cpp:207-217 | the fields of joined delimiter-free names are the names |
| Tokenizer.SplitOfJoin | jusbpmp/jusbpmp-cpp/src/main/cpp/helperlib.cpp:182-220 | joining non-empty names free of the delimiter and splitting again is the identity, provided the first does not begin with `/` |
| Paths.FindLast | jusbpmp/jusbpmp-cpp/src/main/cpp/usbdevice.cpp:126 | the last occurrence of the character, nothing after it |
| Paths.ComponentsOfPath | jusbpmp/jusbpmp-cpp/src/main/cpp/usbdevice.cpp:361-362 | the components of a non-empty path are its non-empty fields followed by its last field, empty or not; the removal of the leading `/` makes no difference |
| Paths.TransferComponents | jusbpmp/jusbpmp-cpp/src/main/cpp/usbdevice.cpp:125-178 | there are no components exactly for the empty path, so `vpath.size() - 1` wraps only there; the last component is the file name and all others are usable folder names |
| Paths.ComponentsOfChild | jusbpmp/jusbpmp-cpp/src/main/cpp/usbdevice.cpp:688-693 | appending `/` and a name to any path, the root spellings included, appends that name to its non-empty fields |
| Paths.ChildFileName | jusbpmp/jusbpmp-cpp/src/main/cpp/usbdevice.cpp:688-693 | the name so appended is what follows the last slash |
| Paths.ComponentsByEnding | jusbpmp/jusbpmp-cpp/src/main/cpp/usbdevice.cpp:361-375 | a trailing `/` shows up as one empty component at the end, and only there |
| Paths.ComponentsBelow | jusbpmp/jusbpmp-cpp/src/main/cpp/usbdevice.cpp:361-375 | the components of a path continued below another are those of both parts |
| Paths.ComponentsLower | jusbpmp/jusbpmp-cpp/src/main/cpp/usbdevice.cpp:448-455 | splitting commutes with lower-casing |
| Paths.LowerExactly | jusbpmp/jusbpmp-cpp/src/main/cpp/usbdevice.cpp:448-455 | two strings are equal after lower-casing if and only if they have, at every place, the same character or the two cases of one of the 26 letters, spelled out; what comes out has no capital letter |
| StorageTree.FirstMatchIsFirst | jusbpmp/jusbpmp-cpp/src/main/cpp/usbdevice.cpp:432-471 | the child found is exactly the first in the order of the enumeration that answers to the name up to case |
| StorageTree.FirstSame | jusbpmp/jusbpmp-cpp/src/main/cpp/usbdevice.cpp:238-248 | the first child that the device takes to have the name, with none before it |
| StorageTree.InsertFolderValid | jusbpmp/jusbpmp-cpp/src/main/cpp/usbdevice.cpp:505-515 | making a folder keeps the store a tree: unique parents, no storage listed twice, proper names |
| StorageTree.InsertFileValid | jusbpmp/jusbpmp-cpp/src/main/cpp/usbdevice.cpp:238-248 | storing a file, appended or in place of another, keeps the store a tree |
| StorageTree.DetachValid | jusbpmp/jusbpmp-cpp/src/main/cpp/usbdevice.cpp:635 | deleting keeps the store a tree |
| StorageTree.ResolveConcat | jusbpmp/jusbpmp-cpp/src/main/cpp/usbdevice.cpp:375-388 | walking names a ++ b is walking b from where a leads |
| StorageTree.ResolveInStore | jusbpmp/jusbpmp-cpp/src/main/cpp/usbdevice.cpp:375-402 | a walk that succeeds ends in a storage of the device and has no empty component |
| LookupLaws.ChildExactly | jusbpmp/jusbpmp-cpp/src/main/cpp/usbdevice.cpp:432-471 | what a search finds, without the search: the first entry of the folder that has the name up to case |
| LookupLaws.ResolveExactly | jusbpmp/jusbpmp-cpp/src/main/cpp/usbdevice.cpp:375-402 | what a walk finds, without the walk: a storage is its end if and only if there is a chain of storages, each the first in its folder with the next name |
| LookupLaws.LookupExactly | jusbpmp/jusbpmp-cpp/src/main/cpp/usbdevice.cpp:345-402 | what get_storage_bypath finds: the root for `/` and `//`; nothing for the empty path and any other path that ends in a slash; else the end of such a chain along the non-empty fields |
| LookupLaws.LookupFindsFirstNamed | jusbpmp/jusbpmp-cpp/src/main/cpp/usbdevice.cpp:345-402 | below a path that leads somewhere a name leads to the first entry that has it up to case |
| LookupLaws.LookupUpToCase | jusbpmp/jusbpmp-cpp/src/main/cpp/usbdevice.cpp:448-455 | paths that differ only in the case of letters lead to the same storage, in every tree |
| FolderLoop.ExtendsResolve | jusbpmp/jusbpmp-cpp/src/main/cpp/usbdevice.cpp:173-191 | in a grown tree every walk that led somewhere leads to the same storage |
| FolderLoop.ExtendsLookup | jusbpmp/jusbpmp-cpp/src/main/cpp/usbdevice.cpp:173-191 | the same for whole paths |
| FolderLoop.EnterOrMakeEffect | jusbpmp/jusbpmp-cpp/src/main/cpp/usbdevice.cpp:412-529 | one pass keeps the tree valid, only grows it, and hands out what the name then leads to; when it hands out nothing it has changed nothing |
| FolderLoop.MakeDirsGrows | jusbpmp/jusbpmp-cpp/src/main/cpp/usbdevice.cpp:173-191 | the folder loop keeps the tree valid and only grows it, however far it gets; when it completes the path leads to the folder it ended in |
| FolderLoop.MakeDirsOfResolved | jusbpmp/jusbpmp-cpp/src/main/cpp/usbdevice.cpp:173-191 | where all folders exist the loop changes nothing and ends where the path leads |
| FolderLoop.MakeDirsIdempotent | jusbpmp/jusbpmp-cpp/src/main/cpp/usbdevice.cpp:173-191 | a second run of a completed loop makes nothing and ends in the same folder |
| FolderLoop.MakeDirsExact | jusbpmp/jusbpmp-cpp/src/main/cpp/usbdevice.cpp:173-191 | the loop completes if and only if the whole path exists or the last storage it reaches is a folder; it makes exactly one folder for each missing name, and none at all when it does not complete |
| LoopResult.MakeDirsMakes | jusbpmp/jusbpmp-cpp/src/main/cpp/usbdevice.cpp:173-191 | a loop that completes has put one chain of folders, of exactly the missing names in their own spelling and with the next ids in turn, at the end of the last folder that was there, has changed nothing else, and ends in the last of them |
| LoopResult.MadeFolders | jusbpmp/jusbpmp-cpp/src/main/cpp/usbdevice.cpp:505-515 | each prefix of the path that was missing then leads to a new folder, the next of the new ids, whose name is exactly the last name of the prefix |
| FolderLoop.DepthResolves | jusbpmp/jusbpmp-cpp/src/main/cpp/usbdevice.cpp:173-191 | `Depth` is the length of the longest prefix that leads somewhere |
| FolderLoop.MakeDirsConcat | jusbpmp/jusbpmp-cpp/src/main/cpp/usbdevice.cpp:173-191 | running the loop over a ++ b is running it over a and then over b |
| FolderLoop.MakeDirsAddsNew | jusbpmp/jusbpmp-cpp/src/main/cpp/usbdevice.cpp:173-191 | whatever the loop adds to a folder is a storage that was not there before |
| FolderLoop.NowhereOrNew | jusbpmp/jusbpmp-cpp/src/main/cpp/usbdevice.cpp:173-191 | in a tree that has grown in that way a path that led nowhere leads nowhere or to a storage that was not there before |
| FolderLoop.MakeDirsKeepsSiblingsUnique | jusbpmp/jusbpmp-cpp/src/main/cpp/usbdevice.cpp:448-515 | uniqueness of sibling names up to case is kept by every run |
| PathLaws.LookupChild | jusbpmp/jusbpmp-cpp/src/main/cpp/usbdevice.cpp:345-402 | a path that leads somewhere, extended by a name, leads to the child of that name, for `/` and `//` as for any other path |
| PathLaws.ReadWalkAgrees | jusbpmp/jusbpmp-cpp/src/main/cpp/usbdevice.cpp:1105-1123 | the walk of read_file agrees with get_storage_bypath exactly except on the empty path, `/` and `//`; on the first it ends at the root and on the other two at nothing |
| PathLaws.InsertFileChild | jusbpmp/jusbpmp-cpp/src/main/cpp/usbdevice.cpp:238-248 | every lookup after a file is stored, in terms of the lookups before |
| PathLaws.InsertFileResolve | jusbpmp/jusbpmp-cpp/src/main/cpp/usbdevice.cpp:238-248 | every path leads where it led, a path to the replaced file leads to the new one, and a path that led nowhere may lead to nothing but the new file |
| PathLaws.StoredIsFound | jusbpmp/jusbpmp-cpp/src/main/cpp/usbdevice.cpp:238-248 | the stored file answers to its name exactly when no entry hides it that the device has under another name |
| PathLaws.SendStores | jusbpmp/jusbpmp-cpp/src/main/cpp/usbdevice.cpp:125-250 | a transfer that succeeds stores one new file of the requested name in a valid tree |
| PathLaws.SendThenFind | jusbpmp/jusbpmp-cpp/src/main/cpp/usbdevice.cpp:125-250 | after a transfer the path leads to the stored file if and only if, before it, the path led nowhere or to an entry of a name the device takes for the same; read_file reaches the same storage |
| PathLaws.SentFileExists | jusbpmp/jusbpmp-cpp/src/main/cpp/usbdevice.cpp:125-250 | a file sent under a path that led nowhere is found there and exists as a file |
| PathLaws.SentFileCanBeHidden | jusbpmp/jusbpmp-cpp/src/main/cpp/usbdevice.cpp:125-250 | an input on the other side: sent to `a` beside a folder `A`, the file is stored and the path leads to the folder |
| PathLaws.SendThenFindFoldingCase | jusbpmp/jusbpmp-cpp/src/main/cpp/usbdevice.cpp:125-250 | on a device that ignores case the sent file is always found |
| PathLaws.SendKeepsOtherPaths | jusbpmp/jusbpmp-cpp/src/main/cpp/usbdevice.cpp:125-250 | every path that led elsewhere than the destination still leads to the same storage |
| PathLaws.SendAddsOnlyNew | jusbpmp/jusbpmp-cpp/src/main/cpp/usbdevice.cpp:125-250 | a path that led nowhere leads nowhere or to a storage the transfer made |
| PathLaws.SendSucceedsExactly | jusbpmp/jusbpmp-cpp/src/main/cpp/usbdevice.cpp:125-250 | a transfer stores its file if and only if, in the tree before it, the destination does not end in `/`, the last storage its folders lead to is a folder, and, when all folders exist, no folder there has the file name in the eyes of the device |
| LoopResult.SendMakes | jusbpmp/jusbpmp-cpp/src/main/cpp/usbdevice.cpp:125-250 | a whole transfer: the missing folders and the file get the next ids in turn; the last folder that was there has the first of them at the end of its list, or the file at the end or in the place of the one it replaces; every other entry is as before and no other is new |
| LoopResult.SentFolders | jusbpmp/jusbpmp-cpp/src/main/cpp/usbdevice.cpp:505-515 | after a transfer the folders it has made are found under their exact names |
| PathLaws.FolderIsNotReplaced | jusbpmp/jusbpmp-cpp/src/main/cpp/usbdevice.cpp:238-248 | an input on the other side: a file sent to `A` where `A` is a folder is not stored |
| EntryLaws.CreateThenFind | jusbpmp/jusbpmp-cpp/src/main/cpp/usbdevice.cpp:681-720 | a created folder is found at its path if and only if the path led nowhere before; the tree only grows |
| EntryLaws.CreatedFolderCanBeHidden | jusbpmp/jusbpmp-cpp/src/main/cpp/usbdevice.cpp:681-720 | an input on the other side: `//a` is created beside a folder `A` and the path leads to `A` |
| EntryLaws.CreateThenFindFoldingCase | jusbpmp/jusbpmp-cpp/src/main/cpp/usbdevice.cpp:681-720 | on a device that ignores case the created folder is always found |
| EntryLaws.CreateAddsOnlyNew | jusbpmp/jusbpmp-cpp/src/main/cpp/usbdevice.cpp:681-720 | a path that led nowhere leads nowhere or to the created folder |
| EntryLaws.CreateSucceedsExactly | jusbpmp/jusbpmp-cpp/src/main/cpp/usbdevice.cpp:688-712 | a create makes its folder if and only if there are a parent path and a name, the parent is a folder, and the device takes no entry of it for that name |
| EntryLaws.CreateBelow | jusbpmp/jusbpmp-cpp/src/main/cpp/usbdevice.cpp:688-712 | the same for parent, slash and name, with what is made: just the one folder, under exactly that name, at the end of the list |
| EntryLaws.CreateNeedsParent | jusbpmp/jusbpmp-cpp/src/main/cpp/usbdevice.cpp:688-697 | a path whose only slash is in front, one without a slash, and one with a slash at the end is never created |
| EntryLaws.CreateBelowRoot | jusbpmp/jusbpmp-cpp/src/main/cpp/usbdevice.cpp:688-712 | the spelling `//name` creates a folder directly below the root |
| EntryLaws.DeleteKeeps | jusbpmp/jusbpmp-cpp/src/main/cpp/usbdevice.cpp:625-642 | a path that does not go through the deleted storage leads where it led, or nowhere as before |
| EntryLaws.DeleteUnreachable | jusbpmp/jusbpmp-cpp/src/main/cpp/usbdevice.cpp:625-642 | no path leads to or through the deleted storage any more |
| EntryLaws.DeleteExact | jusbpmp/jusbpmp-cpp/src/main/cpp/usbdevice.cpp:625-642 | the deleted path leads nowhere if and only if no other entry of its folder answers to its last name, and then neither does any path below it |
| EntryLaws.DeleteThenFind | jusbpmp/jusbpmp-cpp/src/main/cpp/usbdevice.cpp:625-642 | the same for path strings, with the paths below it spelled out |
| EntryLaws.DetachExactly | jusbpmp/jusbpmp-cpp/src/main/cpp/usbdevice.cpp:635 | the one list that holds the deleted storage loses it, every other list keeps its order, and every entry its name and kind |
| EntryLaws.FoundHasParent | jusbpmp/jusbpmp-cpp/src/main/cpp/usbdevice.cpp:625-642 | whatever a path leads to, other than the root itself, can be deleted |
| EntryLaws.DeletedPathCanLeadOn | jusbpmp/jusbpmp-cpp/src/main/cpp/usbdevice.cpp:625-642 | an input on the other side: with `A` and `a` in the root, deleting what `a` leads to leaves `a` leading to the other |
| EntryLaws.DeleteExactWhenUnique | jusbpmp/jusbpmp-cpp/src/main/cpp/usbdevice.cpp:625-642 | with sibling names unique up to case every path through the deleted storage leads nowhere and every other is unchanged |
| EntryLaws.ListsSplitChildren | jusbpmp/jusbpmp-cpp/src/main/cpp/usbdevice.cpp:842-852 | every child is on exactly one of the two lists |
| EntryLaws.NamesOfKindMembers | jusbpmp/jusbpmp-cpp/src/main/cpp/usbdevice.cpp:842-852 | a name is on a list exactly when a child of that kind has exactly that name |
| EntryLaws.NamesOfItems | jusbpmp/jusbpmp-cpp/src/main/cpp/usbdevice.cpp:842-852 | whatever identifiers stand beside them, the names on a list are those of its kind, in order |
| EntryLaws.ItemsListExactly | jusbpmp/jusbpmp-cpp/src/main/cpp/usbdevice.cpp:807-852 | the items are exactly the entries of that kind in the order of the folder, each with its own name and identifier |
| EntryLaws.FileOrFolder | jusbpmp/jusbpmp-cpp/src/main/cpp/usbdevice.cpp:644-679 | a path that leads somewhere exists as a file or as a folder, and not as both; any other as neither |
| EntryLaws.ListingAgreesExactly | jusbpmp/jusbpmp-cpp/src/main/cpp/usbdevice.cpp:644-679 | for one name and kind: it is listed if and only if the joined path leads to an entry of that kind and exactly that name, if and only if a child of that name and kind, when there is one, is not hidden behind another |
| EntryLaws.FolderAgreesExactly | jusbpmp/jusbpmp-cpp/src/main/cpp/usbdevice.cpp:644-679 | for a whole folder: listing and lookup agree on all names and both kinds if and only if any two children whose names are equal up to case have the same name and the same kind |
| EntryLaws.ListedFileCanBeHidden | jusbpmp/jusbpmp-cpp/src/main/cpp/usbdevice.cpp:644-679 | an input on the other side: a file `a` behind a folder `A` is listed and not found |
| SiblingLaws.InsertFileUniqueExactly | jusbpmp/jusbpmp-cpp/src/main/cpp/usbdevice.cpp:238-248 | a stored file keeps sibling names unique up to case if and only if no entry answers to its name that the device has under another name |
| SiblingLaws.SendKeepsUniqueExactly | jusbpmp/jusbpmp-cpp/src/main/cpp/usbdevice.cpp:125-250 | on a tree of unique names a transfer keeps them unique if and only if the file is found at its path; always on a device that ignores case |
| SiblingLaws.CreateKeepsUniqueExactly | jusbpmp/jusbpmp-cpp/src/main/cpp/usbdevice.cpp:681-720 | the same for a created folder |
| SiblingLaws.DeleteKeepsUnique | jusbpmp/jusbpmp-cpp/src/main/cpp/usbdevice.cpp:625-642 | a delete always keeps them unique |
| WmdmDevice.Device.CopyTo | jusbpmp/jusbpmp-cpp/src/main/cpp/usbdevice.cpp:371 | the copy holds one more reference on the same storage; copying NULL succeeds |
| WmdmDevice.Device.SafeRelease | jusbpmp/jusbpmp-cpp/src/main/cpp/defines.h:35-41 | one reference less, the variable becomes NULL |
| WmdmDevice.Device.QueryInterface | jusbpmp/jusbpmp-cpp/src/main/cpp/usbdevice.cpp:482 | one more reference on success, nothing on failure |
| WmdmDevice.Device.EnumStorage | jusbpmp/jusbpmp-cpp/src/main/cpp/usbdevice.cpp:430 | a live enumerator over the children in order, for folders only |
| WmdmDevice.Device.Next | jusbpmp/jusbpmp-cpp/src/main/cpp/usbdevice.cpp:434 | storages are handed out in order, each with a reference, then NULL |
| WmdmDevice.Device.QueryUniqueId | jusbpmp/jusbpmp-cpp/src/main/cpp/usbdevice.cpp:812-830 | the identifier of the storage or none; the metadata object is given back |
| WmdmDevice.Device.InsertNewFolder | jusbpmp/jusbpmp-cpp/src/main/cpp/usbdevice.cpp:505-515 | the assumed effect of inserting a folder |
| WmdmDevice.Device.InsertNewFile | jusbpmp/jusbpmp-cpp/src/main/cpp/usbdevice.cpp:238-248 | the assumed effect of Insert3 with overwrite |
| WmdmDevice.Device.Delete | jusbpmp/jusbpmp-cpp/src/main/cpp/usbdevice.cpp:635 | the assumed effect of Delete; a storage no folder lists is refused |
| UsbDevice.UsbDevice.SearchStorage | jusbpmp/jusbpmp-cpp/src/main/cpp/usbdevice.cpp:432-471 | the first matching child, with one reference; every other storage is given back, also when a call fails |
| UsbDevice.UsbDevice.CreateSubstorage | jusbpmp/jusbpmp-cpp/src/main/cpp/usbdevice.cpp:472-529 | the new folder with one reference, or nothing changed and nothing held |
| UsbDevice.UsbDevice.GetSubstorage | jusbpmp/jusbpmp-cpp/src/main/cpp/usbdevice.cpp:412-543 | whatever fails: reference counts change by one on the storage handed out and by nothing else, all enumerators are released, and a storage handed out is the one `EnterOrMake` (or the lookup) says; without a failing call the code is 1 for a name not found in a folder and negative where there is no folder or none can be made |
| UsbDevice.UsbDevice.WalkStep | jusbpmp/jusbpmp-cpp/src/main/cpp/usbdevice.cpp:375-388 | one reference is traded for one on the next storage |
| UsbDevice.UsbDevice.Walk | jusbpmp/jusbpmp-cpp/src/main/cpp/usbdevice.cpp:171-191 | a completed walk is the resolver's (or the folder loop's) result; one that stops has done a prefix of it and holds nothing; without a failing call it stops only where the specification does |
| UsbDevice.UsbDevice.GetStorageByPath | jusbpmp/jusbpmp-cpp/src/main/cpp/usbdevice.cpp:337-410 | refines `Lookup`: a storage handed out is the one the path leads to, without a failing call it is handed out exactly when the path leads somewhere; one reference gained on it and none elsewhere; the codes are 0, 1 and 12, and 1000 is never returned |
| UsbDevice.UsbDevice.LogIdentifier | jusbpmp/jusbpmp-cpp/src/main/cpp/usbdevice.cpp:251-266 | whatever fails, the second interface and the metadata object of the new storage are given back |
| UsbDevice.UsbDevice.StoreFile | jusbpmp/jusbpmp-cpp/src/main/cpp/usbdevice.cpp:200-270 | the file is stored as `InsertFile` says or nothing changes; all references, metadata objects included, are given back |
| UsbDevice.UsbDevice.StoreInFolder | jusbpmp/jusbpmp-cpp/src/main/cpp/usbdevice.cpp:193-287 | as StoreFile, also giving up the folder |
| UsbDevice.UsbDevice.TransferFile | jusbpmp/jusbpmp-cpp/src/main/cpp/usbdevice.cpp:100-296 | when the file was stored the tree is that of SendMakes and SentFolders: missing folders under their exact names, the file, nothing else; when it was not, that of a prefix of the folder loop; reference counts, metadata objects and progress interfaces are as before; without a failing call the file is stored exactly under the condition of SendSucceedsExactly, the return code is non-zero only for a missing root storage and no folder in dest, and so it tells whether the file was stored if and only if one of the two conditions holds |
| UsbDevice.UsbDevice.ReadFile | jusbpmp/jusbpmp-cpp/src/main/cpp/usbdevice.cpp:1038-1177 | the storage whose content is copied is the one `ReadWalk` leads to, once, and no other; nothing changes and nothing is held; once it has come to Read the code is 0 even when Read fails; without a failing call it is non-zero only for a missing root storage and an empty path |
| UsbDevice.UsbDevice.DeleteItem | jusbpmp/jusbpmp-cpp/src/main/cpp/usbdevice.cpp:625-642 | true means that exactly the storage the path led to has been detached, false that nothing has changed; without a failing call every storage found but the root is deleted |
| UsbDevice.UsbDevice.ExistItem | jusbpmp/jusbpmp-cpp/src/main/cpp/usbdevice.cpp:644-679 | without a failing call the answer is whether the path leads to an entry of that kind |
| UsbDevice.UsbDevice.CreateFolderMtp | jusbpmp/jusbpmp-cpp/src/main/cpp/usbdevice.cpp:681-720 | true means the folder was inserted as `CreateFolder` says, false that nothing has changed; without a failing call it is true exactly under the condition of CreateSucceedsExactly |
| UsbDevice.UsbDevice.ListStorages | jusbpmp/jusbpmp-cpp/src/main/cpp/usbdevice.cpp:794-856 | both lists grow by the names of their kind, in order, of the children gone over, each with its identifier, or `0` after a failed call |
| UsbDevice.UsbDevice.ParseFolder | jusbpmp/jusbpmp-cpp/src/main/cpp/usbdevice.cpp:767-870 | without a failing call the code is 0 exactly when the path exists as a folder, and then each list has grown by exactly the entries of its kind in order, with their names and identifiers; otherwise by those of a prefix; nothing is held |
| UsbDevice.FolderLoopOnlyGrows | jusbpmp/jusbpmp-cpp/src/main/cpp/usbdevice.cpp:173-191 | wherever a transfer's folder loop stops, the tree is valid, has grown, keeps sibling uniqueness, every path that led somewhere leads to the same storage, and every other leads nowhere or to a new one |
| ShutdownMonitor.StepKeepsInv | jusbpmp/jusbpmp-cpp/src/main/cpp/AppAtlModule.cpp:23-58 | every step keeps the invariant behind the wake-up property |
| ShutdownMonitor.NoWakeupIsLost | jusbpmp/jusbpmp-cpp/src/main/cpp/AppAtlModule.cpp:23-58 | in every state of every run, a parked monitor with count zero after an unlock to zero has the event signalled or a thread about to signal it |
| ShutdownMonitor.CountIsBalance | jusbpmp/jusbpmp-cpp/src/main/cpp/AppAtlModule.cpp:23-25 | in every state of every run the lock count is what the locks and unlocks so far leave of it |
| ShutdownMonitor.InFlightSince | jusbpmp/jusbpmp-cpp/src/main/cpp/AppAtlModule.cpp:23-32 | a thread about to store the flag or to signal is one whose unlock brought the count to zero, and it has stored the flag before it signals |
| ShutdownMonitor.StaysInFlight | jusbpmp/jusbpmp-cpp/src/main/cpp/AppAtlModule.cpp:23-32 | every unlock that brings the count to zero is followed up until its thread has signalled |
| ShutdownMonitor.SuspendedSince | jusbpmp/jusbpmp-cpp/src/main/cpp/AppAtlModule.cpp:48-51 | class objects are suspended from the monitor's suspension on, for good |
| ShutdownMonitor.LockRefusedExactly | jusbpmp/jusbpmp-cpp/src/main/cpp/AppAtlModule.cpp:48-51 | a lock is refused exactly at count zero after a suspension, where a rise from zero needs an activation |
| ShutdownMonitor.FlagMeansStored | jusbpmp/jusbpmp-cpp/src/main/cpp/AppAtlModule.cpp:39-47 | while the monitor is checking, the flag is set exactly when a thread has stored it since the last reset |
| ShutdownMonitor.ShutdownDecision | jusbpmp/jusbpmp-cpp/src/main/cpp/AppAtlModule.cpp:39-54 | the monitor exits only after a timed wait that ended unsignalled, then a reading of the flag with no store since its last reset, then a reading of the count that found zero; the second readings in the free-threaded build |
| ShutdownMonitor.ZeroIsFinalExactly | jusbpmp/jusbpmp-cpp/src/main/cpp/AppAtlModule.cpp:47-54 | after the decision the count is zero in every later state of every run if and only if the build is free-threaded and a rise from zero needs an activation |
| ShutdownMonitor.LockAfterDecision | jusbpmp/jusbpmp-cpp/src/main/cpp/AppAtlModule.cpp:47-54 | in every other build there is a run that locks the module after the decision |
| ShutdownMonitor.FinishingDecreases | jusbpmp/jusbpmp-cpp/src/main/cpp/AppAtlModule.cpp:23-58 | every step that neither locks nor unlocks leaves strictly less to do |
| ShutdownMonitor.ExitIsInevitable | jusbpmp/jusbpmp-cpp/src/main/cpp/AppAtlModule.cpp:23-58 | from any state with count zero after an unlock: every continuation without locking is no longer than the work left, keeps the count at zero, and has either come to the end or can go on |
| ShutdownMonitor.CanStillShutDown | jusbpmp/jusbpmp-cpp/src/main/cpp/AppAtlModule.cpp:23-58 | so the run can be continued to the end |
| AppAtlModule.AppAtlModule.Unlock | jusbpmp/jusbpmp-cpp/src/main/cpp/AppAtlModule.cpp:23-32 | among any steps of other threads: the count goes down by one, and when it reaches zero the flag is stored and then the event signalled; the recorded run stays a run of the step system |
| AppAtlModule.AppAtlModule.WaitUntilQuiet | jusbpmp/jusbpmp-cpp/src/main/cpp/AppAtlModule.cpp:41-45 | the monitor's own statements are a number of resets of the flag each followed by a woken wait, and then, if the loop ends, one more reset and a wait that timed out |
| AppAtlModule.AppAtlModule.NothingGoesOn | jusbpmp/jusbpmp-cpp/src/main/cpp/AppAtlModule.cpp:47-51 | the monitor's own statements are a reading of the flag and, only when that found it clear, a later reading of the count; the answer is yes exactly when the one found the flag clear and the other the count zero |
| AppAtlModule.AppAtlModule.MonitorShutdown | jusbpmp/jusbpmp-cpp/src/main/cpp/AppAtlModule.cpp:35-58 | statement by statement, among any steps of other threads, the monitor takes a run of the step system, and returns only at its end |
| AppAtlModule.ExitedAfterDecision | jusbpmp/jusbpmp-cpp/src/main/cpp/AppAtlModule.cpp:35-58 | a monitor that has returned took a shutdown decision, and the count is zero where the build keeps it so |
| AppAtlModule.ParkedIsWoken | jusbpmp/jusbpmp-cpp/src/main/cpp/AppAtlModule.cpp:37-39 | a parked monitor that could shut down has the event set or a thread about to set it |
| UsbDescriptors.Word | jusbpmp/jusbpmp-cpp/src/main/cpp/displayusb.c:157 | the two bytes are recovered from the 16-bit value |
| UsbDescriptors.EncodedBytes | jusbpmp/jusbpmp-cpp/src/main/cpp/displayusb.c:196-248 | the bytes of each kind of descriptor, one by one, with the kinds 2, 4, 5 and 0x21 |
| UsbDescriptors.KindsByByte | jusbpmp/jusbpmp-cpp/src/main/cpp/displayusb.c:198-258 | the second byte alone says as what a descriptor is shown and how far the walk moves |
| UsbDescriptors.StringIndexByByte | jusbpmp/jusbpmp-cpp/src/main/cpp/displayusb.c:209-227 | the string asked for is that of the seventh byte of a configuration and the ninth of an interface, and none for any other kind |
| UsbDescriptors.DescriptorRoundTrip | jusbpmp/jusbpmp-cpp/src/main/cpp/displayusb.c:196-258 | a well-formed descriptor is shown with all its fields and the walk moves exactly past it |
| UsbDescriptors.WalkRoundTrip | jusbpmp/jusbpmp-cpp/src/main/cpp/displayusb.c:196-260 | well-formed descriptors laid out in a row and followed by a zero byte are all shown in order, and the walk ends on that zero |
| UsbDescriptors.ReplyRoundTrip | jusbpmp/jusbpmp-cpp/src/main/cpp/displayusb.c:187-260 | a reply consisting of well-formed descriptors is shown completely, the zero coming from the cleared buffer |
| UsbDescriptors.AlignedExactly | jusbpmp/jusbpmp-cpp/src/main/cpp/displayusb.c:198-258 | over any layout of length-prefixed descriptors the walk stops at every boundary, nowhere else, and ends at the end, if and only if the known kinds have their standard length |
| UsbDescriptors.WalkBound | jusbpmp/jusbpmp-cpp/src/main/cpp/displayusb.c:187-260 | on arbitrary bytes the walk ends within 254 of the end of the reply, after at most as many passes as the reply has bytes |
| UsbDescriptors.WalkBoundIsTight | jusbpmp/jusbpmp-cpp/src/main/cpp/displayusb.c:187-260 | a reply of 256 bytes exists whose walk ends at index 510 |
| UsbDescriptors.DeviceRoundTrip | jusbpmp/jusbpmp-cpp/src/main/cpp/displayusb.c:149-176 | the device descriptor's eighteen bytes give back all its fields |
| UsbDescriptors.DeviceBytes | jusbpmp/jusbpmp-cpp/src/main/cpp/displayusb.c:149-176 | the bytes of a device descriptor, one by one; the strings asked for are those of its bytes 14, 15 and 16 |
| HubTree.LanguageFetchedOnce | jusbpmp/jusbpmp-cpp/src/main/cpp/displayusb.c:115-147 | under a non-zero language ID string descriptor 0 is asked for once, first, and only if some index is non-zero; every string is asked for under that ID |
| HubTree.ZeroLanguageRefetched | jusbpmp/jusbpmp-cpp/src/main/cpp/displayusb.c:121-132 | under a zero language ID it is asked for again before every string |
| HubTree.LanguageAtMostOnceExactly | jusbpmp/jusbpmp-cpp/src/main/cpp/displayusb.c:115-147 | it is asked for at most once if and only if the ID is non-zero or at most one string is wanted |
| HubTree.EveryStringAsked | jusbpmp/jusbpmp-cpp/src/main/cpp/displayusb.c:133-146 | under any language ID, zero included, the strings asked for are those of the non-zero indices, in order, each with the ID split low byte first |
| HubTraversal.AskedOfDevice | jusbpmp/jusbpmp-cpp/src/main/cpp/displayusb.c:280-304 | the language ID is carried from the device descriptor through the whole configuration |
| HubTraversal.LanguageOncePerPort | jusbpmp/jusbpmp-cpp/src/main/cpp/displayusb.c:280-304 | the same as LanguageFetchedOnce for everything asked at one port |
| PortReports.DeviceDescribed | jusbpmp/jusbpmp-cpp/src/main/cpp/displayusb.c:280-304 | at a port the device descriptor is shown, the configuration asked for, and every descriptor of it shown, in order and once; each when exactly the strings up to its own have been asked for |
| PortReports.EveryDeviceDescribed | jusbpmp/jusbpmp-cpp/src/main/cpp/displayusb.c:264-330 | over a whole traversal something is said at exactly the ports of the tree with a device, at each once and in order, and what is said there describes the device attached to that port |
| HubTraversal.TraversalIsPreorder | jusbpmp/jusbpmp-cpp/src/main/cpp/displayusb.c:264-330 | every event of a traversal fits the innermost open hub at its true depth, handles are closed in nested order, the ports come in preorder, the hubs are opened in preorder, and the place at the end is that at the start |
| HubTraversal.EveryPortOnce | jusbpmp/jusbpmp-cpp/src/main/cpp/displayusb.c:264-330 | the visited addresses are exactly the addresses of the tree, each once, in order |
| HubTraversal.EveryHubOnce | jusbpmp/jusbpmp-cpp/src/main/cpp/displayusb.c:264-330 | the hubs opened are exactly the hubs of the tree, each once, in order; no handle is given out twice and each is closed once |
| DisplayUsb.DisplayStringDescriptor | jusbpmp/jusbpmp-cpp/src/main/cpp/displayusb.c:115-147 | the requests made and the language ID handed back |
| DisplayUsb.DisplayDeviceDescriptor | jusbpmp/jusbpmp-cpp/src/main/cpp/displayusb.c:149-176 | all eighteen bytes are read and no other; the fields shown are those of the format and the requests those for the three indices |
| DisplayUsb.ShowConfiguration | jusbpmp/jusbpmp-cpp/src/main/cpp/displayusb.c:201-213 | the fields shown, the request made, and where the pointer ends |
| DisplayUsb.ShowInterface | jusbpmp/jusbpmp-cpp/src/main/cpp/displayusb.c:214-228 | the fields shown, the request made, and where the pointer ends |
| DisplayUsb.ShowEndpoint | jusbpmp/jusbpmp-cpp/src/main/cpp/displayusb.c:229-237 | the fields shown and where the pointer ends |
| DisplayUsb.ShowHid | jusbpmp/jusbpmp-cpp/src/main/cpp/displayusb.c:238-248 | the fields shown and where the pointer ends |
| DisplayUsb.ShowUnknown | jusbpmp/jusbpmp-cpp/src/main/cpp/displayusb.c:249-256 | the bytes shown are those of the descriptor, from its start |
| DisplayUsb.DisplayConfigurationDescriptor | jusbpmp/jusbpmp-cpp/src/main/cpp/displayusb.c:178-262 | on any reply the loop ends, reads no index above 510 or below 0, records the trace of the walk, and hands back the language ID carried through all its strings |
| DisplayUsb.GetPortData | jusbpmp/jusbpmp-cpp/src/main/cpp/displayusb.c:264-330 | for any finite tree and up to 255 ports the recursion ends, records the trace of the hub - the one of EveryPortOnce, EveryHubOnce and EveryDeviceDescribed - and leaves the same handles open |
| MscCopy.ChunkEndsRise | jusbpmp/jusbpmp-cpp/src/main/cpp/usbdevice.cpp:1209-1228 | the reported positions rise strictly, stay within size and capacity, and end at the size when the file fits |
| MscCopy.ChunkEndsExactly | jusbpmp/jusbpmp-cpp/src/main/cpp/usbdevice.cpp:1209-1228 | the positions are the multiples of 1024 and the size, up to the end of the source or before the first that does not fit |
| MscCopy.ReportedExactly | jusbpmp/jusbpmp-cpp/src/main/cpp/usbdevice.cpp:1226 | a position is reported unchanged if and only if it fits a 32-bit long |
| MscCopy.ReportedAs | jusbpmp/jusbpmp-cpp/src/main/cpp/usbdevice.cpp:1226 | what is reported for any position: its last 32 bits, as a signed number widened to 64 bits |
| MscCopy.CopyChunk | jusbpmp/jusbpmp-cpp/src/main/cpp/usbdevice.cpp:1210-1227 | one pass, by how it ends |
| MscCopy.CopyLoop | jusbpmp/jusbpmp-cpp/src/main/cpp/usbdevice.cpp:1209-1228 | the target is a prefix of the source throughout; unless the last write was short as many bytes are written as the last position says; without a read error the positions are a first part of the chunk ends, and all of them when there was no abort either |
| MscCopy.MscCopy | jusbpmp/jusbpmp-cpp/src/main/cpp/usbdevice.cpp:1180-1245 | the target is always a prefix of the source, as long as the last position says or, after a short write, as the capacity; the calls are one begin with the size (minus one as unsigned from 0x80000000 bytes on), the positions as they are below that, one end; code 0 means the target equals the source if and only if the source fits; without abort and read error code 0 is returned exactly when the source fits or the short write falls in a last chunk of less than 1024 bytes; codes 2 and 3 are never returned |
| MscCopy.WholeChunkFails | jusbpmp/jusbpmp-cpp/src/main/cpp/usbdevice.cpp:1198-1244 | 1024 bytes copied to room for 500 give 4 |
| MscCopy.ShortCopySucceeds | jusbpmp/jusbpmp-cpp/src/main/cpp/usbdevice.cpp:1198-1244 | an input where code 0 is returned for an incomplete copy: ten bytes, room for five |

## Left out

- UsbDevice.UsbDevice.TransferFile: the empty destination is not modelled, because the loop bound `vpath.size() - 1` wraps there and the code indexes past the vector.
- UsbDevice.UsbDevice.DeleteItem: a NULL root storage together with a path that names the root is not modelled, because the code dereferences NULL there; the same holds for CreateFolderMtp and ParseFolder.
- UsbDevice.UsbDevice.GetSubstorage: the out-parameter starts as NULL, as it does at every call; one that already holds a storage is not modelled.
- WmdmDevice.Device.GetName: names longer than the MAX_PATH buffer are covered by the possibility that the call fails.
- MscCopy.MscCopy: a target that could not be opened is not modelled, because the code goes on with a NULL file; that both files stay open when 4 is returned is not modelled either.
- DisplayUsb.GetPortData: requests to the host controller driver succeed; a string descriptor 0 that is not returned is a device of language ID zero.
- DisplayUsb.GetPortData: a connection status is only compared with "connected"; its text is not modelled, and the table of texts covers six of the nine statuses.
- DisplayUsb.ShowInterface: the class name beside the class byte is printing and is not modelled.
- ShutdownMonitor.ShutdownDecision: time is not modelled; a timed wait may end at any moment the event is unsignalled. Memory is sequentially consistent and the lock count does not overflow.
- ShutdownMonitor.NoWakeupIsLost: a signal after the event has been closed, and to which thread the quit message goes, are not modelled.
- AppAtlModule.AppAtlModule.MonitorShutdown: the outer loop need not end, so it is followed for a given number of polls of the event; the laws of whole runs are not bounded in this way.
- The storage tree is one value held by the device object and addressed by ids rather than a heap object for each storage; two COM objects for one storage are not told apart.
- UsbDevice.UsbDevice.LogIdentifier: does not model memory; the code never frees the identifier string it is given there.
- File contents on an MTP device, what is in the metadata of a file, and the calls a progress notifier receives; only the references to these objects are modelled.
- Entries that are neither file nor folder, or both.
- The mass-storage variants of delete, exist and list, which are single calls of the operating system.
- Device discovery, COM activation, JNI marshalling, verbose output, and the code that is compiled out.
- The Java classes, which pass everything on.
