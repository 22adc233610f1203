# GpgFrontend core, modelled in Dafny

This project models five parts of GpgFrontend in Dafny and proves properties of each model:

- **The secure byte buffer `GFBuffer`.** It holds bytes in a secure allocation shared through an `Impl`. The model covers its constructors, comparisons, slicing, appending, resizing, zeroizing and combining.
- **The module SDK's marshaling helpers.** These carry strings, string maps, string lists and event parameter lists across the module ABI. They use NUL-terminated C strings, `char*` arrays and linked `GFModuleEventParam` nodes. The model covers what each helper allocates, what it releases, and with which allocation routine.
- **The module `Event` and its `Impl`.** This is an identifier, a trigger id and a `QMap` of parameters. It can be converted into the C `GFModuleEvent` layout.
- **The key table model.** One row per key, eleven columns, and a check flag per row.
- **The key tree's column and display-mode flag enumerations.** These are bit sets over an unsigned 32-bit int.

Shared representations:

- **Text.** A `QString` is its UTF-8 bytes, `Text = seq<bv8>`.
- **QMap.** A `QMap<QString, QString>` is a sequence of entries whose keys strictly ascend in byte order (`OrderedMap.Entries`).
- **The process heap.** As the SDK helpers see it, the heap is an `Allocator` (`heap.dfy`):
  - a map from block identities to blocks, each tagged with the routine that allocated it (`Sma` for `SMAMalloc`, `NewArray` for `new[]`);
  - a counter for fresh identities;
  - a log of faulty releases: freeing a block that is not live, or freeing it with a routine other than the one that allocated it.

Each helper is proved to do three things:

- read back what it was given;
- release exactly the blocks it should;
- log the faults the source's choice of routine causes.

The files are:

| file | module | models |
|---|---|---|
| `bytes.dfy` | `Bytes` | byte order, `memcmp`, `strnlen`, C strings |
| `ordered_map.dfy` | `OrderedMap` | `QMap` insert and lookup, building a map from a sequence of insertions |
| `heap.dfy` | `MarshalHeap` | the allocator, releases and faults |
| `secure_buffer.dfy` | `SecureBuffer` | `GFBuffer` and its `Impl` |
| `sdk_private.dfy` | `SdkPrivate` | the SDK's marshaling helpers |
| `event.dfy` | `ModuleEvent` | `Event`, `Event::Impl` and `ToModuleEvent` |
| `key_table.dfy` | `KeyTable` | `GpgKeyTableModel` |
| `key_tree_flags.dfy` | `KeyTreeFlags` | `GpgKeyTreeColumn` and `GpgKeyTreeDisplayMode` |

## Model

| member | source | states |
|---|---|---|
| SecureBuffer.Impl.Empty | src/core/model/GFBuffer.cpp:42-53 | An Impl made without a size holds no bytes and no allocation. |
| SecureBuffer.Impl.constructor | src/core/model/GFBuffer.cpp:42-53 | An Impl of a given size holds that many bytes. It has an allocation exactly when the size is not 0. |
| SecureBuffer.Impl.CopyIn | src/core/model/GFBuffer.cpp:161-164 | A copy into the allocation replaces exactly the bytes at the offset and keeps the rest. |
| SecureBuffer.CappedCString | src/core/model/GFBuffer.cpp:102-108 | The text read from a C string is NUL-free. It is a prefix of the memory. It ends at the first NUL or at the 16 MiB cap. |
| SecureBuffer.GFBuffer.constructor | src/core/model/GFBuffer.cpp:85 | A default buffer is empty, has no storage, and shares with no one. |
| SecureBuffer.GFBuffer.OfSize | src/core/model/GFBuffer.cpp:87 | A buffer of a given size holds that many bytes. A size of 0 means no storage. |
| SecureBuffer.GFBuffer.FromBytes | src/core/model/GFBuffer.cpp:91-100 | A buffer made from a byte array or a string holds exactly those bytes. |
| SecureBuffer.GFBuffer.FromCString | src/core/model/GFBuffer.cpp:102-108 | A null pointer gives an empty buffer without storage. Otherwise the buffer holds the C string's text, capped at 16 MiB. |
| SecureBuffer.GFBuffer.FromRaw | src/core/model/GFBuffer.cpp:110-115 | The buffer holds the first `size` bytes at the pointer, or none for a null pointer. |
| SecureBuffer.GFBuffer.Copy | src/core/model/GFBuffer.cpp:250 | A copy shares the original's Impl, so it holds the same bytes. |
| SecureBuffer.GFBuffer.Move | src/core/model/GFBuffer.cpp:241 | A moved-to buffer takes the storage. The moved-from buffer holds nothing afterwards. |
| SecureBuffer.GFBuffer.CopyAssign | src/core/model/GFBuffer.cpp:252 | After copy assignment, the target shares the source's Impl and bytes. |
| SecureBuffer.GFBuffer.MoveAssign | src/core/model/GFBuffer.cpp:243-248 | Self-assignment changes nothing. Otherwise the target takes the source's storage and the source is left without one. |
| SecureBuffer.GFBuffer.Size | src/core/model/GFBuffer.cpp:141 | The size is the number of bytes held. It is 0 exactly when there is no storage. |
| SecureBuffer.GFBuffer.Empty | src/core/model/GFBuffer.cpp:150 | Empty holds exactly when the buffer holds no bytes. |
| SecureBuffer.GFBuffer.Resize | src/core/model/GFBuffer.cpp:128-139 | The new size is the one asked for, and the common prefix is kept. Storage exists exactly when the size is not 0. |
| SecureBuffer.GFBuffer.AppendAsWritten | src/core/model/GFBuffer.cpp:152-165 | A self-append (through a shared Impl) of a non-empty buffer writes past the allocation, and only that case does. Every other append gives the old bytes followed by the argument's. |
| SecureBuffer.GFBuffer.Append | src/core/model/GFBuffer.cpp:152-165 | The result is the old bytes followed by the argument's old bytes, also when the argument shares this storage. Appending an empty buffer changes nothing. |
| SecureBuffer.GFBuffer.AppendRaw | src/core/model/GFBuffer.cpp:167-173 | The raw bytes are added at the end. |
| SecureBuffer.LeftOf | src/core/model/GFBuffer.cpp:175-182 | The first min(len, size) bytes, and none for a non-positive length. |
| SecureBuffer.MidOf | src/core/model/GFBuffer.cpp:184-193 | At most `len` bytes from `pos`, stopping at the end. None for a negative position, a position past the end, or a non-positive length. |
| SecureBuffer.RightOf | src/core/model/GFBuffer.cpp:195-205 | The last min(len, size) bytes, and none for a non-positive length. |
| SecureBuffer.LeftMidPartition | src/core/model/GFBuffer.cpp:175-193 | For every split point k, Left(k) followed by Mid(k, size - k) is the whole content. |
| SecureBuffer.LeftRightPartition | src/core/model/GFBuffer.cpp:175-205 | For every split point k, Left(k) followed by Right(size - k) is the whole content. |
| SecureBuffer.GFBuffer.Left | src/core/model/GFBuffer.cpp:175-182 | The result is a fresh, unshared buffer holding LeftOf the content. |
| SecureBuffer.GFBuffer.Mid | src/core/model/GFBuffer.cpp:184-193 | The result is a fresh, unshared buffer holding MidOf the content. |
| SecureBuffer.GFBuffer.Right | src/core/model/GFBuffer.cpp:195-205 | The result is a fresh, unshared buffer holding RightOf the content. |
| SecureBuffer.GFBuffer.Zeroize | src/core/model/GFBuffer.cpp:207-211 | Every byte becomes 0. The size and the storage are kept. |
| SecureBuffer.GFBuffer.Combine | src/core/model/GFBuffer.cpp:254-272 | The result is the old bytes followed by every input's bytes, in order. Empty inputs change nothing. |
| SecureBuffer.TotalSize | src/core/model/GFBuffer.cpp:255-259 | Combine's first loop sums exactly the length of the concatenated inputs. |
| SecureBuffer.GFBuffer.CopyEach | src/core/model/GFBuffer.cpp:264-271 | Combine's copy loop leaves the old prefix followed by the inputs, in order. |
| SecureBuffer.ConcatPrefix | src/core/model/GFBuffer.cpp:264-271 | The inputs copied so far never extend past the total Combine reserved. |
| SecureBuffer.GFBuffer.Equals | src/core/model/GFBuffer.cpp:117-120 | Two buffers are equal exactly when they hold the same bytes. |
| SecureBuffer.GFBuffer.NotEquals | src/core/model/GFBuffer.cpp:237-239 | Exactly when the bytes differ. |
| Bytes.MemCmp | src/core/model/GFBuffer.cpp:119 | The comparison is zero exactly on equal prefixes, and negative exactly when the prefix is below in byte order. |
| Bytes.BelowByCommonPart | src/core/model/GFBuffer.cpp:230-235 | Comparing the common length first, and then the lengths, is exactly lexicographic byte order. |
| SecureBuffer.GFBuffer.Less | src/core/model/GFBuffer.cpp:230-235 | operator< is lexicographic byte order on the contents. |
| Bytes.Strnlen | src/core/model/GFBuffer.cpp:104 | The count stops at the first NUL or at the cap. The bytes counted are NUL-free. |
| SecureBuffer.GFBuffer.EqualsCString | src/core/model/GFBuffer.cpp:220-223 | Equality with a C string holds exactly when the buffer holds the string's capped text. |
| SecureBuffer.GFBuffer.NotEqualsCStringAsWritten | src/core/model/GFBuffer.cpp:225-228 | As written, operator!= holds exactly when the lengths match and the texts are empty or differ. |
| SecureBuffer.GFBuffer.NotEqualsCString | src/core/model/GFBuffer.cpp:225-228 | The corrected operator!= is exactly the negation of equality with the C string. |
| SecureBuffer.EmptyIsEqualAndUnequalToEmpty | src/core/model/GFBuffer.cpp:220-228 | As written, an empty buffer is both == and != an empty C string. The corrected operator is not. |
| SecureBuffer.PrefixIsNeitherEqualNorUnequal | src/core/model/GFBuffer.cpp:220-228 | As written, "a" is neither == nor != "ab". The corrected operator says !=. |
| SecureBuffer.SelfAppendOverruns | src/core/model/GFBuffer.cpp:155-164 | As written, appending a one-byte buffer to itself overruns. |
| SecureBuffer.SelfAppendDoubles | src/core/model/GFBuffer.cpp:155-164 | With the corrected Append, a one-byte buffer appended to itself holds that byte twice. |
| Bytes.CStringOfTerminated | src/sdk/private/GFSDKPrivat.cpp:39-53 | A NUL-free text followed by a NUL reads back as a C string as exactly that text. |
| Bytes.CStringOfAppendedNul | src/sdk/private/GFSDKPrivat.cpp:39-53 | Any text followed by a NUL reads back as a C string as the text up to its first NUL, which is what strcpy copies. |
| MarshalHeap.Allocator.Alloc | src/sdk/private/GFSDKPrivat.cpp:41-42 | An allocation adds one fresh block, tagged with its routine, and changes nothing else. |
| MarshalHeap.Allocator.Free | src/sdk/private/GFSDKPrivat.cpp:51 | A release removes the block. A fault is logged exactly when the block was not live or was allocated by another routine. |
| MarshalHeap.ReadCString | src/sdk/private/GFSDKPrivat.cpp:50 | A null pointer reads as empty. A C string read from the heap is NUL-free and is the block's bytes before the first NUL. |
| MarshalHeap.FaultFreeIfOwned | src/sdk/private/GFSDKPrivat.cpp:51 | Releasing distinct blocks, all owned by the releasing routine, logs no fault. |
| MarshalHeap.FaultFreeOnlyIfOwned | src/sdk/private/GFSDKPrivat.cpp:51 | A sequence of releases with no fault names only blocks owned by the releasing routine. |
| MarshalHeap.FaultsOfMismatched | src/sdk/private/GFSDKPrivat.cpp:51 | Releasing blocks of another routine logs one mismatch per block, in order. |
| SdkPrivate.GFStrDup | src/sdk/private/GFSDKPrivat.cpp:39-47 | One new SMAMalloc'd block holds the string's bytes and a NUL. Nothing else changes. |
| SdkPrivate.GFUnStrDup | src/sdk/private/GFSDKPrivat.cpp:49-57 | Returns the text before the first NUL and releases the block through SMAFree. A fault is logged exactly when that release is one. |
| SdkPrivate.StrDupRoundTrip | src/sdk/private/GFSDKPrivat.cpp:39-57 | GFUnStrDup(GFStrDup(s)) is s up to its first NUL, and all of s when s holds none. The heap is restored with no fault. |
| SdkPrivate.PairsOfFlatten | src/sdk/private/GFSDKPrivat.cpp:59-89 | Reading a flattened map's slots back in pairs gives exactly its entries. |
| SdkPrivate.StringsToArray | src/sdk/private/GFSDKPrivat.cpp:72-86 | An array of slots is laid out, and each slot points at a new block holding the strcpy copy of its text. Nothing older changes. |
| SdkPrivate.CopyInto | src/sdk/private/GFSDKPrivat.cpp:79-81 | One pass of the loop fills the next slot and keeps the earlier ones. |
| SdkPrivate.QMapToCharArrayAsWritten | src/sdk/private/GFSDKPrivat.cpp:70-89 | As written, the size is twice the entry count. Keys and values alternate in key order, and every block comes from new[]. |
| SdkPrivate.QMapToCharArray | src/sdk/private/GFSDKPrivat.cpp:70-89 | The same layout, with the strings from SMAMalloc. |
| SdkPrivate.LoopSlots | src/sdk/private/GFSDKPrivat.cpp:61-64 | The slots the loop reads: the first `size`, and also slot `size` when an odd size leaves it inside the array. |
| SdkPrivate.CharArrayToQMap | src/sdk/private/GFSDKPrivat.cpp:59-68 | The map is the pairs of slots inserted in order, so a later key wins. Exactly the slot strings are released, and the array itself stays live. The faults are those SMAFree logs. With an odd size, slot `size` is read as the last value, inserted and released when it lies inside the array. The call overruns exactly when that slot lies past the array's end. |
| SdkPrivate.ReadPairs | src/sdk/private/GFSDKPrivat.cpp:61-65 | The loop builds the collected pairs and releases every pointer it reads. |
| SdkPrivate.ReadPair | src/sdk/private/GFSDKPrivat.cpp:62-64 | One pass inserts the key and value at slots 2j and 2j+1, and releases both. |
| SdkPrivate.ReadTail | src/sdk/private/GFSDKPrivat.cpp:61-63 | An unpaired last key is read, released and dropped. The read past the end is reported. |
| SdkPrivate.QStringListToCharArray | src/sdk/private/GFSDKPrivat.cpp:120-134 | An SMAMalloc'd array with one SMAMalloc'd NUL-terminated copy per item, in order. |
| SdkPrivate.CharArrayToQStringList | src/sdk/private/GFSDKPrivat.cpp:108-118 | The non-null slots are read in order. Every slot string and then the array are released, with the faults SMAFree logs. |
| SdkPrivate.TakePresent | src/sdk/private/GFSDKPrivat.cpp:110-115 | One pass appends the text of a non-null slot, releases that slot, and skips a null slot. |
| SdkPrivate.ReleaseArray | src/sdk/private/GFSDKPrivat.cpp:116 | The array is released after its slots. |
| SdkPrivate.ReadStringArray | src/sdk/private/GFSDKPrivat.cpp:120-134 | A laid-out array of NUL-free texts reads back slot by slot as those texts. |
| SdkPrivate.ArrayReleaseOrder | src/sdk/private/GFSDKPrivat.cpp:108-134 | The slots and the array together name each block of the layout exactly once. |
| SdkPrivate.StringArrayUnwinds | src/sdk/private/GFSDKPrivat.cpp:108-134 | Reading back an array built by one routine returns its texts. Releasing the array restores the heap with no fault. |
| SdkPrivate.StringListRoundTrip | src/sdk/private/GFSDKPrivat.cpp:108-134 | A list sent to the array and read back returns each item up to its first NUL. The heap is restored with no fault. |
| SdkPrivate.EntriesReadBack | src/sdk/private/GFSDKPrivat.cpp:59-89 | A map with NUL-free keys and values survives flattening, strcpy and pairing unchanged. |
| SdkPrivate.StringArrayDrains | src/sdk/private/GFSDKPrivat.cpp:59-68 | Draining a laid-out map array reads back its texts and leaves only the array block behind. |
| SdkPrivate.StringArrayDrainFaults | src/sdk/private/GFSDKPrivat.cpp:59-89 | Draining logs no fault for SMAMalloc'd strings. It logs one mismatch per string, in slot order, for strings from new[]. |
| SdkPrivate.MapRoundTrip | src/sdk/private/GFSDKPrivat.cpp:59-89 | A map sent out and read back is returned (exactly, when NUL-free), with no overrun and no fault. Only the array is left live. |
| SdkPrivate.MapRoundTripAsWritten | src/sdk/private/GFSDKPrivat.cpp:59-89 | As written, the map comes back with no overrun, but each of the 2n string releases is a mismatch. |
| SdkPrivate.ChainEnd | src/sdk/private/GFSDKPrivat.cpp:97 | The list walk stops exactly after the last node. |
| SdkPrivate.ParamPairs | src/sdk/private/GFSDKPrivat.cpp:98 | Each node contributes its name and value texts, in list order. |
| SdkPrivate.DrainOrderAsWrittenIds | src/sdk/private/GFSDKPrivat.cpp:97-103 | The releases as written name exactly the values and the nodes. |
| SdkPrivate.DrainOrderIds | src/sdk/private/GFSDKPrivat.cpp:97-103 | The corrected releases name exactly the values, the names and the nodes. |
| SdkPrivate.DrainOrderAsWrittenDistinct | src/sdk/private/GFSDKPrivat.cpp:97-103 | As written, no block is released twice. |
| SdkPrivate.DrainOrderDistinct | src/sdk/private/GFSDKPrivat.cpp:97-103 | In the corrected drain, no block is released twice. |
| SdkPrivate.DrainStart | src/sdk/private/GFSDKPrivat.cpp:93-94 | Before the walk, the map is empty and nothing has been released. |
| SdkPrivate.ConvertEventParamsToMapAsWritten | src/sdk/private/GFSDKPrivat.cpp:91-106 | As written, the map inserts each node's name and value in list order, so a later name wins. Each value and then its node are released; the names are not. |
| SdkPrivate.DrainNodeAsWritten | src/sdk/private/GFSDKPrivat.cpp:98-102 | One pass reads the value and releases it, inserts the pair, moves to the next node and releases the current one. |
| SdkPrivate.ConvertEventParamsToMap | src/sdk/private/GFSDKPrivat.cpp:91-106 | The same map. Each value, name and node is released. |
| SdkPrivate.DrainNode | src/sdk/private/GFSDKPrivat.cpp:98-102 | One pass of the corrected walk releases the name as well. |
| SdkPrivate.DrainAsWrittenLeaksNames | src/sdk/private/GFSDKPrivat.cpp:97-103 | As written, a well-formed list drains with no fault, but every name block stays live. |
| SdkPrivate.DrainReleasesEverything | src/sdk/private/GFSDKPrivat.cpp:97-103 | The corrected walk releases every value, name and node, with no fault. |
| OrderedMap.Find | src/core/module/Event.cpp:45-51 | The lookup is the stored value when the key is present, and none otherwise. |
| OrderedMap.Insert | src/core/module/Event.cpp:73-75 | The key maps to the value, every other key is unchanged, and the keys stay ascending. |
| OrderedMap.CollectKeys | src/sdk/private/GFSDKPrivat.cpp:59-68 | The map built by repeated insertion holds exactly the keys inserted. |
| OrderedMap.CollectLastWins | src/sdk/private/GFSDKPrivat.cpp:59-68 | The value kept for a key is the one inserted last. |
| OrderedMap.CollectOfEntries | src/core/module/Event.cpp:42 | Inserting a map's entries in order into an empty map rebuilds it exactly. |
| ModuleEvent.EventImpl.constructor | src/core/module/Event.cpp:38-43 | The identifier, trigger id and parameters are those given. |
| ModuleEvent.EventImpl.Get | src/core/module/Event.cpp:45-51 | operator[] gives some value exactly when the key is present, and then the stored value. |
| ModuleEvent.EventImpl.IdentifierEquals | src/core/module/Event.cpp:53-55 | Impl's operator== holds exactly when the identifiers match, whatever the parameters. |
| ModuleEvent.EventImpl.IdentifierDiffers | src/core/module/Event.cpp:57-59 | Impl's operator!= is exactly the negation of operator==. |
| ModuleEvent.EventImpl.IdentifierBelow | src/core/module/Event.cpp:61-63 | Impl's operator< is the identifiers' string order. It never holds between events that operator== calls equal. |
| ModuleEvent.IdentifierOrder | src/core/module/Event.cpp:61-63 | Impl's operator< is a strict total order: irreflexive, asymmetric and transitive. Of any two events, one is below the other or operator== calls them equal. |
| ModuleEvent.EventImpl.GetIdentifier | src/core/module/Event.cpp:67 | Returns the identifier given at construction. |
| ModuleEvent.EventImpl.GetTriggerIdentifier | src/core/module/Event.cpp:69-71 | Returns the trigger id given at construction. |
| ModuleEvent.EventImpl.AddParameter | src/core/module/Event.cpp:73-79 | The key now maps to the value, and every other lookup is unchanged. |
| ModuleEvent.EventImpl.ToModuleEvent | src/core/module/Event.cpp:96-135 | A new SMAMalloc'd record holds copies of the identifier and the trigger id. A linked node list follows, in key order, each node holding copies of its key and value. Only new blocks are added, and no fault is logged. |
| ModuleEvent.NewRecord | src/core/module/Event.cpp:97-101 | The record, with its two strings and no parameters yet. |
| ModuleEvent.AppendParam | src/core/module/Event.cpp:107-118 | One pass allocates a node, a name and a value, and links the node from the record or the previous node. |
| ModuleEvent.AppendLaid | src/core/module/Event.cpp:107-118 | One pass extends the laid-out list by one node and adds only new blocks. |
| ModuleEvent.AppendedLaid | src/core/module/Event.cpp:107-118 | Appending parameter n to a layout of n parameters gives a layout of n + 1. |
| ModuleEvent.AppendedInOrder | src/core/module/Event.cpp:108-116 | The stores of one pass, in the source's order, give the appended heap. |
| ModuleEvent.AppendedGrown | src/core/module/Event.cpp:107-118 | Appending keeps every older block and adds blocks only at the counter. |
| ModuleEvent.ParamCopies | src/core/module/Event.cpp:112-113 | What a C-string reader gets back for each parameter: its key and value up to the first NUL. |
| ModuleEvent.LaidStrings | src/core/module/Event.cpp:112-113 | The laid-out names and values read back as the parameter copies. |
| ModuleEvent.LaidLinks | src/core/module/Event.cpp:110-116 | Each laid-out node holds its own name and value and links to the next, and the last links to null. |
| ModuleEvent.LaidOwned | src/core/module/Event.cpp:108-113 | Every node, name and value block comes from SMAMalloc. |
| ModuleEvent.LaidChain | src/core/module/Event.cpp:96-135 | The laid-out list is a well-formed parameter chain with separate blocks. |
| ModuleEvent.StridesSeparate | src/core/module/Event.cpp:108-113 | Nodes, names and values occupy pairwise different blocks. |
| ModuleEvent.StridesCover | src/core/module/Event.cpp:107-118 | Every block between the first node and the last value is a node, a name or a value. |
| ModuleEvent.DrainedLayout | src/core/module/Event.cpp:96-135 | Releasing every node, name and value leaves only the record and its two strings. |
| ModuleEvent.LaidDrainAsWritten | src/core/module/Event.cpp:96-135 | Draining a laid-out list as written logs no fault and leaves the names live. |
| ModuleEvent.LaidDrain | src/core/module/Event.cpp:96-135 | The corrected drain of a laid-out list logs no fault and leaves only the record and its two strings on top of the heap as it was before. |
| ModuleEvent.FlattenThenDrain | src/core/module/Event.cpp:96-135 | ToModuleEvent followed by the corrected ConvertEventParamsToMap returns the parameters (exactly, when NUL-free). The heap keeps only the record and its strings, with no fault. |
| ModuleEvent.FlattenThenDrainAsWritten | src/core/module/Event.cpp:96-135 | The same round trip as written returns the same map, but every name block stays live. |
| ModuleEvent.ParamCopiesOfNulFree | src/core/module/Event.cpp:112-113 | NUL-free parameters come back whole. |
| ModuleEvent.Event.constructor | src/core/module/Event.cpp:145-147 | A new Event owns a fresh Impl with the given identifier, trigger id and parameters. |
| ModuleEvent.Event.Equals | src/core/module/Event.cpp:151-153 | operator== compares Impl addresses. Handles on one Impl agree on the identifier. |
| ModuleEvent.Event.NotEquals | src/core/module/Event.cpp:155-157 | Event's operator!= is exactly the negation of operator==. |
| ModuleEvent.Event.AddParameter | src/core/module/Event.cpp:173-175 | Forwards to the Impl: the key now maps to the value. |
| ModuleEvent.SameIdentifierDistinct | src/core/module/Event.cpp:151-157 | Two events made with the same identifier are unequal as Events, but equal under Impl's operator==. |
| KeyTable.KeyTableModel.constructor | src/core/model/GpgKeyTableModel.cpp:37-49 | The model holds the keys and the channel, with one unchecked flag per key. |
| KeyTable.KeyTableModel.RowCount | src/core/model/GpgKeyTableModel.cpp:51-53 | One row per key. |
| KeyTable.KeyTableModel.ColumnCountOf | src/core/model/GpgKeyTableModel.cpp:55-58 | One column per header. |
| KeyTable.KeyTableModel.HeaderData | src/core/model/GpgKeyTableModel.cpp:134-142 | The section's header text exactly for the horizontal display role, and nothing otherwise. |
| KeyTable.TypeSymbol | src/core/model/GpgKeyTableModel.cpp:77-83 | "pub/sec" exactly for keys with secret material. It contains "#" exactly when such a key has no primary secret key, and ends in "^" exactly when it has a card key. |
| KeyTable.DisplayValue | src/core/model/GpgKeyTableModel.cpp:70-114 | Column by column: the row number, the type symbol, then name, email, usages, owner trust, key id, creation date, algorithm, subkey count and comment. Empty exactly outside the eleven columns. |
| KeyTable.KeyTableModel.Data | src/core/model/GpgKeyTableModel.cpp:60-132 | Nothing for an invalid index or an empty table. The check state in column 0, the display values, and AlignCenter for exactly the centred columns. Nothing for any other role. |
| KeyTable.Flags | src/core/model/GpgKeyTableModel.cpp:144-152 | No flags exactly for an invalid index. User-checkable exactly in column 0. Selectable and enabled otherwise, and nothing more. |
| KeyTable.KeyTableModel.SetData | src/core/model/GpgKeyTableModel.cpp:154-165 | Succeeds exactly for the check role in column 0. Then only that row's flag changes, to whether the value is Checked. Otherwise nothing changes. |
| KeyTable.KeyTableModel.GetAllKeyIds | src/core/model/GpgKeyTableModel.cpp:167-173 | The key ids, one per row, in row order. |
| KeyTable.AsSize | src/core/model/GpgKeyTableModel.cpp:176 | Taking the key list's size() as an unsigned size_t: a negative row compared with it becomes a huge value. A non-negative row is unchanged. |
| KeyTable.KeyTableModel.GetKeyIDByRow | src/core/model/GpgKeyTableModel.cpp:175-179 | The row's key id for an in-range row. The empty string for a row at or past the key count, and, with an unsigned size(), for a negative row too. |
| KeyTable.KeyTableModel.IsPrivateKeyByRow | src/core/model/GpgKeyTableModel.cpp:181-184 | True exactly for an in-range row whose key has secret material. |
| KeyTreeFlags.ColumnOr | src/core/model/GpgKeyTreeModel.h:53-58 | A column is in the union exactly when it is in either operand. |
| KeyTreeFlags.ColumnOrAssign | src/core/model/GpgKeyTreeModel.h:60-64 | The updated operand and the returned reference are both the union. |
| KeyTreeFlags.ColumnAnd | src/core/model/GpgKeyTreeModel.h:66-71 | A column is in the intersection exactly when it is in both operands. |
| KeyTreeFlags.ColumnAndAssign | src/core/model/GpgKeyTreeModel.h:73-77 | The updated operand and the returned reference are both the intersection. |
| KeyTreeFlags.ColumnNot | src/core/model/GpgKeyTreeModel.h:79-82 | A column is in the complement exactly when it is not in the operand. |
| KeyTreeFlags.DisplayOr | src/core/model/GpgKeyTreeModel.h:92-97 | A mode is in the union exactly when it is in either operand. |
| KeyTreeFlags.DisplayOrAssign | src/core/model/GpgKeyTreeModel.h:99-103 | The updated operand and the returned reference are both the union. |
| KeyTreeFlags.DisplayAnd | src/core/model/GpgKeyTreeModel.h:105-109 | True exactly when some single bit is set in both operands. |
| KeyTreeFlags.SharedBit | src/core/model/GpgKeyTreeModel.h:105-109 | A non-zero intersection has a single-bit witness, and such a witness makes it non-zero. |
| KeyTreeFlags.NamedColumnsAreBits | src/core/model/GpgKeyTreeModel.h:42-51 | Each named column is one bit, no two share it, and none is bit 0. |
| KeyTreeFlags.NamedDisplayModesAreBits | src/core/model/GpgKeyTreeModel.h:84-90 | Each named display mode is one bit, and no two overlap. |
| KeyTreeFlags.ColumnAllAndNone | src/core/model/GpgKeyTreeModel.h:42-82 | kALL is the identity of &, kNONE is the identity of | and absorbing for &, ~ swaps them, and ~~c is c. |
| KeyTreeFlags.ColumnRemove | src/core/model/GpgKeyTreeModel.h:66-82 | `s & ~c` no longer holds c. Together with `s & c` it rebuilds s. |
| KeyTreeFlags.DisplayAndFacts | src/core/model/GpgKeyTreeModel.h:84-109 | & with kNONE is false and & with kALL is true for any other mode. & is symmetric, and m & m holds exactly when m is not kNONE. |

## Left out

- **Allocation routines.** `SMAMalloc`, `SMAFree`, `SMASecMalloc`, `SMASecRealloc`, `SMASecFree` and `OPENSSL_cleanse` are foreign calls and are not part of this model. They are modelled abstractly:
  - an allocation never fails and never reuses an identity;
  - `SMAFree(nullptr)` does nothing;
  - a release through the wrong routine is logged as a fault instead of being undefined behaviour.
- **Uninitialised memory.** The slots of a fresh `new char*[n]` or an `SMAMalloc`'d node are modelled as null until they are set. The bytes `GFBuffer(size)` and `Resize` leave unspecified are arbitrary.
- **Block sizes.** The model keeps only the bytes strcpy writes (the text up to its first NUL, and the NUL). For a key holding a NUL, `QMapToCharArray` allocates more than that.
- **Encoding.** `QString` to UTF-8 and back is treated as a bijection on byte sequences, with no validation or replacement of malformed UTF-8.
- **String order.** `QString`'s `operator<` compares UTF-16 code units. The model uses the order of the UTF-8 bytes instead, in `ModuleEvent.EventImpl.IdentifierBelow` and in the `QMap` key order. The two orders disagree only when one character lies in U+E000 to U+FFFF and the other is a supplementary character (U+10000 and above). UTF-16 puts the supplementary character first, because its surrogate code units lie below U+E000; UTF-8 puts it last.
- **Event callbacks and threads.** `Event::Impl::ExecuteCallback`, `Event::ExecuteCallback`, the callback, the thread it is invoked on, and logging are left out. They are thread dispatch.
- **The trigger id.** It comes from `QUuid::createUuid()` and is a constructor parameter here, since it is random.
- **Event's forwarding members.** `Event::operator<` compares `Impl` addresses, and addresses have no order in the model. `Event::GetIdentifier`, `Event::GetTriggerIdentifier`, `Event::ToModuleEvent` and `operator QString` forward to the `Impl` members modelled above.
- **The Qt version switch.** `ToModuleEvent` has two loops, one per Qt version, that do the same thing. It is modelled once.
- **GFBuffer accessors.** `ConvertToQByteArray`, `ConvertToQString` and `Data` expose the bytes that `Contents()` denotes. They are not separate members.
- **Impl lifetime.** `GFBuffer::Impl`'s destructor, which releases the storage through `SMASecFree`, is not modelled. Neither are its deleted copy operations or its move constructor and move assignment (src/core/model/GFBuffer.cpp:55-82). The model has no destruction, and only `GFBuffer`'s own copies and moves.
- **Shared storage.** A `GFBuffer` copy shares its `Impl`, because the copy constructor and copy assignment are defaulted (src/core/model/GFBuffer.cpp:250-252). A copy is therefore not independent of its original.
- SecureBuffer.GFBuffer.Combine: requires that no input shares this buffer's storage. With such an input, the copy loop reads a size that already includes the resize, as in Append's self branch; the model does not cover that case.
- SecureBuffer.GFBuffer.Resize: takes a natural number. A negative `ssize_t` reaches the allocator as a huge size and is not modelled.
- SecureBuffer.GFBuffer.Less: requires both buffers to hold an `Impl`. On a moved-from buffer the source reads through a null pointer.
- SecureBuffer.GFBuffer.Append, SecureBuffer.GFBuffer.AppendRaw, SecureBuffer.GFBuffer.Left, SecureBuffer.GFBuffer.Mid, SecureBuffer.GFBuffer.Right, SecureBuffer.GFBuffer.Combine: require the buffer to hold an `Impl`. On a moved-from buffer, the source returns before touching the `Impl` in these cases, which the model does not cover:
  - an empty `o` in `Append` (src/core/model/GFBuffer.cpp:153);
  - a zero size in `AppendRaw` (:168);
  - `len <= 0` in `Left` and `Right` (:176, :196);
  - `pos < 0 || len <= 0` in `Mid` (:185);
  - no new bytes in `Combine` (:260).
- SecureBuffer.GFBuffer.AppendRaw: takes the bytes as a sequence. The `ssize_t` size, including a negative size, is not modelled. Neither is a `buffer` that points into this buffer's own storage: `Resize` may reallocate that storage before `memcpy` reads `buffer` (src/core/model/GFBuffer.cpp:170-172).
- SecureBuffer.GFBuffer.AppendAsWritten: reports the overrun of a self-append as a result instead of modelling the memory it corrupts.
- SdkPrivate.CharArrayToQMap: with an odd size whose slot `size` lies past the end of the array, the last key is read and released. The model then stops where the source would read outside the array, and reports `overrun`. When slot `size` lies inside the array, it is read like any other slot.
- **GpgKey.** `GpgKey` and its sub-keys are not part of this model. A key is the record of the values its accessors return, including `GetUsagesByKey` and the creation date already formatted.
- KeyTable.KeyTableModel.Data: requires an index within the table, as the source indexes its vectors without checking.
- KeyTable.KeyTableModel.HeaderData: requires a section within the headers for the horizontal display role, as the source indexes without checking. Header texts are untranslated.
- KeyTable.KeyTableModel.SetData: the `dataChanged` signal is not modelled. `QVariant` equality with `Qt::Checked` is modelled as equality with the number 2.
- KeyTable.AsSize, KeyTable.KeyTableModel.GetKeyIDByRow, KeyTable.KeyTableModel.IsPrivateKeyByRow: the type of `GpgKeyList` is not part of this model. The model assumes its `size()` is an unsigned `size_t`, so a negative row fails the check `size() <= row` (src/core/model/GpgKeyTableModel.cpp:176) and gives "" or false. With a signed container size, a negative row passes that check and indexes the list out of range.
- KeyTable.KeyTableModel.RowCount: the `int` cast of the key count is not modelled.
- **Flag types.** `GpgKeyTreeColumn` and `GpgKeyTreeDisplayMode` share the type `Flags`, so the model does not reject a mix of the two enumerations where C++ would.
- **Smaller accessors.** `GetGpgContextChannel` returns the `channel` field. The log line in the constructor is left out.

## Findings

| source | as written | input that shows it | evidently intended | confidence | as-written member | corrected member |
|---|---|---|---|---|---|---|
| src/core/model/GFBuffer.cpp:155-164 | The self branch appends a copy that shares this `Impl`, and memcpy takes its size after `Resize` has doubled it, so it copies 2n bytes into n bytes of room. | a one-byte buffer appended to itself | the old bytes twice | not executed | SecureBuffer.SelfAppendOverruns | SecureBuffer.SelfAppendDoubles |
| src/core/model/GFBuffer.cpp:225-228 | `operator!=(const char*)` is true only for equal lengths and different (or empty) bytes. | "a" != "ab" is false, and "" != "" is true | the negation of `operator==(const char*)` | not executed | SecureBuffer.PrefixIsNeitherEqualNorUnequal | SecureBuffer.GFBuffer.NotEqualsCString |
| src/sdk/private/GFSDKPrivat.cpp:97-103 | `ConvertEventParamsToMap` releases each value and node but never a name, although `ToModuleEvent` allocated each name with `GFStrDup`. | an event with one parameter | every name released too | not executed | SdkPrivate.DrainAsWrittenLeaksNames | SdkPrivate.DrainReleasesEverything |
| src/sdk/private/GFSDKPrivat.cpp:79-84 | `QMapToCharArray` allocates the strings with `new[]`, but `CharArrayToQMap` releases them through `SMAFree` (line 51). | a map with one entry: two mismatched releases | the strings allocated through `SMAMalloc`, as `QStringListToCharArray` does | not executed | SdkPrivate.MapRoundTripAsWritten | SdkPrivate.MapRoundTrip |
