/**
 * The helpers that carry strings, maps, lists and the event parameter list
 * across the module ABI as C strings, `char*` arrays and linked nodes, with
 * the allocation and release each of them performs.
 */
module SdkPrivate {
  import opened Bytes
  import opened OrderedMap
  import opened MarshalHeap

  // ---------------------------------------------------------------------
  // Value-level views
  // ---------------------------------------------------------------------

  /** Keys and values of a map, alternating, as the map is laid out in a `char*` array. */
  function Flatten(es: seq<Entry>): (ts: seq<Text>)
    ensures |ts| == 2 * |es|
    ensures forall k :: 0 <= k < |es| ==> ts[2 * k] == es[k].0 && ts[2 * k + 1] == es[k].1
  {
    if es == [] then []
    else Flatten(es[..|es| - 1]) + [es[|es| - 1].0, es[|es| - 1].1]
  }

  /** Even slots as keys, odd slots as values; a trailing unpaired text is dropped. */
  function Pairs(ts: seq<Text>): seq<Entry>
  {
    seq(|ts| / 2, k requires 0 <= k < |ts| / 2 => (ts[2 * k], ts[2 * k + 1]))
  }

  /** Reading a flattened map back pairs up exactly its entries. */
  lemma PairsOfFlatten(es: seq<Entry>)
    ensures Pairs(Flatten(es)) == es
  {
    var ps := Pairs(Flatten(es));
    assert |ps| == |es|;
    forall k | 0 <= k < |es| ensures ps[k] == es[k] {
      assert ps[k] == (Flatten(es)[2 * k], Flatten(es)[2 * k + 1]);
    }
  }

  /** The pair read from slots 2j and 2j + 1 is entry j. */
  lemma PairsStep(ts: seq<Text>, j: nat)
    requires 2 * j + 2 <= |ts|
    ensures Pairs(ts[..2 * j + 2]) == Pairs(ts[..2 * j]) + [(ts[2 * j], ts[2 * j + 1])]
  {
    var a, b := Pairs(ts[..2 * j + 2]), Pairs(ts[..2 * j]);
    assert |a| == j + 1 && |b| == j;
    forall k | 0 <= k < j ensures a[k] == b[k] {
      assert a[k] == (ts[2 * k], ts[2 * k + 1]) == b[k];
    }
  }

  /** Reading slots 2j and 2j + 1 inserts one more entry into the map read so far. */
  lemma CollectPairsStep(ts: seq<Text>, j: nat)
    requires 2 * j + 2 <= |ts|
    ensures Collect(Pairs(ts[..2 * j + 2])) == Insert(Collect(Pairs(ts[..2 * j])), ts[2 * j], ts[2 * j + 1])
  {
    var ps := Pairs(ts[..2 * j + 2]);
    PairsStep(ts, j);
    CollectStep(ps, j);
    assert ps[..j] == Pairs(ts[..2 * j]) && ps[..j + 1] == ps;
  }

  /** An unpaired last slot 2j adds no entry. */
  lemma PairsOdd(ts: seq<Text>, j: nat)
    requires 2 * j + 1 == |ts|
    ensures Pairs(ts) == Pairs(ts[..2 * j])
  {
    var a, b := Pairs(ts), Pairs(ts[..2 * j]);
    assert |a| == j && |b| == j;
    forall k | 0 <= k < j ensures a[k] == b[k] {
      assert a[k] == (ts[2 * k], ts[2 * k + 1]) == b[k];
    }
  }

  lemma Parity(j: nat)
    ensures (2 * j) % 2 == 0 && (2 * j + 1) % 2 == 1
  {
  }

  /** What strcpy puts in each slot: every text up to its first NUL. */
  function StrCopies(ts: seq<Text>): (cs: seq<Text>)
    ensures |cs| == |ts| && forall k :: 0 <= k < |ts| ==> cs[k] == UpToNul(ts[k])
  {
    if ts == [] then [] else StrCopies(ts[..|ts| - 1]) + [UpToNul(ts[|ts| - 1])]
  }

  /** No text holds a NUL. */
  predicate AllNulFree(ts: seq<Text>)
  {
    forall k :: 0 <= k < |ts| ==> NulFree(ts[k])
  }

  /** Copying NUL-free texts loses nothing. */
  lemma StrCopiesOfNulFree(ts: seq<Text>)
    requires AllNulFree(ts)
    ensures StrCopies(ts) == ts
  {
    forall k | 0 <= k < |ts| ensures StrCopies(ts)[k] == ts[k] {
      UpToNulOfNulFree(ts[k]);
    }
  }

  /** Keys and values of a map, none holding a NUL. */
  predicate EntriesNulFree(es: seq<Entry>)
  {
    forall k :: 0 <= k < |es| ==> NulFree(es[k].0) && NulFree(es[k].1)
  }

  lemma FlattenNulFree(es: seq<Entry>)
    requires EntriesNulFree(es)
    ensures AllNulFree(Flatten(es))
  {
    var ts := Flatten(es);
    forall j | 0 <= j < |ts| ensures NulFree(ts[j]) {
      var k := j / 2;
      assert j == 2 * k || j == 2 * k + 1;
      assert NulFree(es[k].0) && NulFree(es[k].1);
      assert ts[2 * k] == es[k].0 && ts[2 * k + 1] == es[k].1;
    }
  }

  // ---------------------------------------------------------------------
  // Heap-level views
  // ---------------------------------------------------------------------

  /** The blocks live before are live after, unchanged, and every other live block lies in [lo, hi). */
  predicate Grown(before: Live, after: Live, lo: nat, hi: nat)
  {
    (forall id :: id in before ==> id in after && after[id] == before[id]) &&
    (forall id :: id in after ==> id in before || lo <= id < hi)
  }

  /** The slots of an array laid out at `base`: slot k points at block base + 1 + k. */
  function SlotPtrs(base: nat, n: nat): (ps: seq<Ptr>)
    ensures |ps| == n && forall k :: 0 <= k < n ==> ps[k] == Addr(base + 1 + k)
  {
    seq(n, (k: nat) => Addr(base + 1 + k))
  }

  /**
   * `arr` is a live array of |texts| slots allocated by `arrayRoutine`;
   * slot k points at block arr + 1 + k, allocated by `stringRoutine` and
   * holding texts[k] followed by a NUL.
   */
  predicate StringArray(live: Live, arr: Ptr, texts: seq<Text>, arrayRoutine: Routine, stringRoutine: Routine)
  {
    arr.Addr? && arr.id in live && live[arr.id] == Block(arrayRoutine, Slots(SlotPtrs(arr.id, |texts|))) &&
    forall id :: arr.id < id <= arr.id + |texts| ==>
      id in live && live[id] == Block(stringRoutine, Chars(texts[id - arr.id - 1] + [0]))
  }

  /** `arr` is readable as a `char**` of at least `size` slots (nothing is read when size <= 0). */
  predicate SlotArray(live: Live, arr: Ptr, size: int)
  {
    size <= 0 || (arr.Addr? && arr.id in live && live[arr.id].cell.Slots? && size <= |live[arr.id].cell.ptrs|)
  }

  /** The first `size` slots of `arr`. */
  function SlotsOf(live: Live, arr: Ptr, size: int): (ps: seq<Ptr>)
    requires SlotArray(live, arr, size)
    ensures |ps| == if size <= 0 then 0 else size
  {
    if size <= 0 then [] else live[arr.id].cell.ptrs[..size]
  }

  /** Every slot is null or a live C string, and no block is named twice. */
  predicate ReadableSlots(live: Live, ps: seq<Ptr>)
  {
    Distinct(ps) && forall k :: 0 <= k < |ps| ==> Readable(live, ps[k])
  }

  /** The texts of the non-null pointers of `ps`, in order. */
  function ReadPresent(live: Live, ps: seq<Ptr>): seq<Text>
    requires forall k :: 0 <= k < |ps| ==> Readable(live, ps[k])
  {
    if ps == [] then []
    else
      var last := ps[|ps| - 1];
      ReadPresent(live, ps[..|ps| - 1]) + (if last.Null? then [] else [ReadCString(live, last)])
  }

  /** One more pointer: one more text unless it is null. */
  lemma ReadPresentStep(live: Live, ps: seq<Ptr>, i: nat)
    requires i < |ps| && forall k :: 0 <= k < |ps| ==> Readable(live, ps[k])
    ensures ReadPresent(live, ps[..i + 1]) == ReadPresent(live, ps[..i]) + (if ps[i].Null? then [] else [ReadCString(live, ps[i])])
  {
    assert ps[..i + 1][..i] == ps[..i];
  }

  /** With no null pointer, the present texts are all the texts. */
  lemma {:induction false} ReadPresentAll(live: Live, ps: seq<Ptr>)
    requires forall k :: 0 <= k < |ps| ==> ps[k].Addr? && Readable(live, ps[k])
    ensures ReadPresent(live, ps) == ReadAll(live, ps)
  {
    if ps != [] {
      ReadPresentAll(live, ps[..|ps| - 1]);
    }
  }

  /** The identities named by the first k pointers are among those named by all of them. */
  lemma IdsPrefix(ps: seq<Ptr>, k: nat)
    requires k <= |ps|
    ensures Ids(ps[..k]) <= Ids(ps)
  {
    forall id | id in Ids(ps[..k]) ensures id in Ids(ps) {
      var i :| 0 <= i < k && ps[..k][i].Addr? && ps[..k][i].id == id;
      assert ps[i] == ps[..k][i];
    }
  }

  /**
   * A string array as laid out by StringsToArray, of NUL-free texts, reads
   * back slot by slot as those texts; its slots are distinct live strings.
   */
  lemma ReadStringArray(live: Live, arr: Ptr, texts: seq<Text>, arrayRoutine: Routine, stringRoutine: Routine)
    requires StringArray(live, arr, texts, arrayRoutine, stringRoutine) && AllNulFree(texts)
    ensures SlotArray(live, arr, |texts|) && SlotsOf(live, arr, |texts|) == SlotPtrs(arr.id, |texts|)
    ensures ReadableSlots(live, SlotPtrs(arr.id, |texts|))
    ensures ReadAll(live, SlotPtrs(arr.id, |texts|)) == texts
  {
    var ps := SlotPtrs(arr.id, |texts|);
    assert live[arr.id].cell.ptrs[..|texts|] == ps;
    forall k | 0 <= k < |texts| ensures Readable(live, ps[k]) && ReadCString(live, ps[k]) == texts[k] {
      assert ps[k].id == arr.id + 1 + k;
      CStringOfTerminated(texts[k]);
    }
  }

  /**
   * The slots of a string array, followed by the array itself, name each
   * block of the layout once: exactly the identities arr .. arr + |texts|.
   * The slots are owned by the strings' routine, the array by its own.
   */
  lemma ArrayReleaseOrder(live: Live, arr: Ptr, texts: seq<Text>, arrayRoutine: Routine, stringRoutine: Routine)
    requires StringArray(live, arr, texts, arrayRoutine, stringRoutine)
    ensures Distinct(SlotPtrs(arr.id, |texts|) + [arr])
    ensures OwnedBy(live, SlotPtrs(arr.id, |texts|), stringRoutine)
    ensures forall k :: 0 <= k < |texts| ==> SlotPtrs(arr.id, |texts|)[k].Addr? && live[SlotPtrs(arr.id, |texts|)[k].id].routine == stringRoutine
    ensures forall id :: id in Ids(SlotPtrs(arr.id, |texts|) + [arr]) <==> arr.id <= id <= arr.id + |texts|
    ensures forall id :: id in Ids(SlotPtrs(arr.id, |texts|)) <==> arr.id < id <= arr.id + |texts|
  {
    var slots := SlotPtrs(arr.id, |texts|);
    var order := slots + [arr];
    forall k | 0 <= k < |slots| && slots[k].Addr?
      ensures slots[k].id in live && live[slots[k].id].routine == stringRoutine
    {
      assert slots[k].id == arr.id + 1 + k;
    }
    forall id | arr.id <= id <= arr.id + |texts| ensures id in Ids(order) {
      if id == arr.id {
        assert order[|texts|] == arr;
      } else {
        assert order[id - arr.id - 1] == Addr(id);
      }
    }
    forall id | arr.id < id <= arr.id + |texts| ensures id in Ids(slots) {
      assert slots[id - arr.id - 1] == Addr(id);
    }
  }

  // ---------------------------------------------------------------------
  // The helpers
  // ---------------------------------------------------------------------

  /**
   * GFStrDup: an SMAMalloc'd block of |s| + 1 bytes holding the UTF-8 bytes
   * of the string and a terminating NUL.
   */
  method GFStrDup(h: Allocator, s: Text) returns (p: Ptr)
    requires h.Valid()
    modifies h
    ensures h.Valid() && p == Addr(old(h.next)) && h.next == old(h.next) + 1
    ensures h.live == old(h.live)[p.id := Block(Sma, Chars(s + [0]))] && h.faults == old(h.faults)
  {
    p := h.Alloc(Sma, Chars(s + [0]));
  }

  /** GFUnStrDup (both overloads): the text before the first NUL; the block is released through SMAFree. */
  method GFUnStrDup(h: Allocator, p: Ptr) returns (t: Text)
    requires h.Valid() && Readable(h.live, p)
    modifies h
    ensures h.Valid() && t == ReadCString(old(h.live), p)
    ensures h.live == old(h.live) - PtrIds(p) && h.next == old(h.next)
    ensures h.faults == old(h.faults) + FreeFaults(old(h.live), p, Sma)
  {
    t := ReadCString(h.live, p);
    h.Free(p, Sma);
  }

  /**
   * GFUnStrDup on the k-th pointer of a planned sequence of releases, the
   * first k of which are done: it reads the text that pointer named before
   * any release, and the state moves on to the first k + 1 releases done.
   */
  method GFUnStrDupNth(h: Allocator, p: Ptr, ghost ps: seq<Ptr>, ghost k: nat, ghost live0: Live, ghost faults0: seq<Fault>)
    returns (t: Text)
    requires h.Valid() && k < |ps| && p == ps[k] && Distinct(ps) && Readable(live0, p)
    requires Released(h.live, h.faults, live0, faults0, ps[..k], Sma)
    modifies h
    ensures t == ReadCString(live0, p)
    ensures h.Valid() && h.next == old(h.next)
    ensures Released(h.live, h.faults, live0, faults0, ps[..k + 1], Sma)
  {
    ReleaseNext(live0, faults0, ps, Sma, k);
    ReadAfterRelease(live0, Ids(ps[..k]), p);
    t := GFUnStrDup(h, p);
  }

  /**
   * GFUnStrDup(GFStrDup(s)) gives back s up to its first NUL (all of s when
   * it holds none), and leaves the heap as it was, with no fault.
   */
  method StrDupRoundTrip(h: Allocator, s: Text) returns (t: Text)
    requires h.Valid()
    modifies h
    ensures t == UpToNul(s) && (NulFree(s) ==> t == s)
    ensures h.Valid() && h.live == old(h.live) && h.faults == old(h.faults)
  {
    var p := GFStrDup(h, s);
    CStringOfAppendedNul(s);
    t := GFUnStrDup(h, p);
    assert h.live == old(h.live);
    if NulFree(s) {
      UpToNulOfNulFree(s);
    }
  }

  /** n null pointers: the slots of a `new char*[n]` or an SMAMalloc'd array before they are set. */
  function Nulls(n: nat): (ps: seq<Ptr>)
    ensures |ps| == n && forall k :: 0 <= k < n ==> ps[k] == Null
  {
    seq(n, _ => Null)
  }

  /**
   * An array of |copies| slots at `arr`, the first `filled` of which point at
   * the blocks just after it, block arr + 1 + k holding copies[k] and a NUL.
   */
  predicate Filled(live: Live, arr: Ptr, copies: seq<Text>, filled: nat, arrayRoutine: Routine, stringRoutine: Routine)
    requires filled <= |copies|
  {
    arr.Addr? && arr.id in live &&
    live[arr.id] == Block(arrayRoutine, Slots(SlotPtrs(arr.id, filled) + Nulls(|copies| - filled))) &&
    forall id :: arr.id < id < arr.id + 1 + filled ==>
      id in live && live[id] == Block(stringRoutine, Chars(copies[id - arr.id - 1] + [0]))
  }

  /** A fresh array of null slots, just past every older block, is filled nowhere yet. */
  lemma FilledNone(before: Live, live: Live, arr: Ptr, copies: seq<Text>, arrayRoutine: Routine, stringRoutine: Routine)
    requires arr.Addr? && live == before[arr.id := Block(arrayRoutine, Slots(Nulls(|copies|)))]
    requires forall id :: id in before ==> id < arr.id
    ensures Filled(live, arr, copies, 0, arrayRoutine, stringRoutine)
    ensures Grown(before, live, arr.id, arr.id + 1)
  {
    assert SlotPtrs(arr.id, 0) + Nulls(|copies|) == Nulls(|copies|);
  }

  /** A completely filled array is a string array. */
  lemma FilledAll(live: Live, arr: Ptr, copies: seq<Text>, arrayRoutine: Routine, stringRoutine: Routine)
    requires Filled(live, arr, copies, |copies|, arrayRoutine, stringRoutine)
    ensures StringArray(live, arr, copies, arrayRoutine, stringRoutine)
  {
    assert SlotPtrs(arr.id, |copies|) + Nulls(0) == SlotPtrs(arr.id, |copies|);
  }

  /**
   * The loop shared by QMapToCharArray and QStringListToCharArray: one array
   * of |texts| slots, then for each text in order a block of |text| + 1
   * bytes that strcpy fills, its pointer stored in the next slot.
   */
  method StringsToArray(h: Allocator, texts: seq<Text>, arrayRoutine: Routine, stringRoutine: Routine)
    returns (arr: Ptr)
    requires h.Valid()
    modifies h
    ensures h.Valid() && arr == Addr(old(h.next)) && h.next == old(h.next) + 1 + |texts|
    ensures StringArray(h.live, arr, StrCopies(texts), arrayRoutine, stringRoutine)
    ensures Grown(old(h.live), h.live, arr.id, h.next) && h.faults == old(h.faults)
  {
    var n := |texts|;
    ghost var copies := StrCopies(texts);
    // The slots of a fresh array hold no string yet; null stands for that.
    arr := h.Alloc(arrayRoutine, Slots(Nulls(n)));
    FilledNone(old(h.live), h.live, arr, copies, arrayRoutine, stringRoutine);
    var index := 0;
    while index < n
      invariant 0 <= index <= n
      invariant h.Valid() && h.next == arr.id + 1 + index && h.faults == old(h.faults)
      invariant Filled(h.live, arr, copies, index, arrayRoutine, stringRoutine)
      invariant Grown(old(h.live), h.live, arr.id, h.next)
      invariant forall id :: id in old(h.live) ==> id < arr.id
    {
      CopyInto(h, arr, texts, index, arrayRoutine, stringRoutine, old(h.live));
      index := index + 1;
    }
    FilledAll(h.live, arr, copies, arrayRoutine, stringRoutine);
  }

  /** One pass of StringsToArray's loop: a copy of texts[index] in a new block, stored in slot `index`. */
  method CopyInto(h: Allocator, arr: Ptr, texts: seq<Text>, index: nat, arrayRoutine: Routine, stringRoutine: Routine,
                  ghost live0: Live)
    requires h.Valid() && index < |texts| && arr.Addr? && h.next == arr.id + 1 + index
    requires Filled(h.live, arr, StrCopies(texts), index, arrayRoutine, stringRoutine)
    requires (forall id :: id in live0 ==> id < arr.id) && Grown(live0, h.live, arr.id, h.next)
    modifies h
    ensures h.Valid() && h.next == old(h.next) + 1 && h.faults == old(h.faults)
    ensures Filled(h.live, arr, StrCopies(texts), index + 1, arrayRoutine, stringRoutine)
    ensures Grown(live0, h.live, arr.id, h.next)
  {
    ghost var copies, before := StrCopies(texts), h.live;
    var s := h.Alloc(stringRoutine, Chars(UpToNul(texts[index]) + [0]));
    var slots := h.live[arr.id].cell.ptrs;
    assert slots == SlotPtrs(arr.id, index) + Nulls(|copies| - index);
    h.Store(arr, Slots(slots[index := s]));
    assert slots[index := s] == SlotPtrs(arr.id, index + 1) + Nulls(|copies| - index - 1);
    FillStep(before, arr, copies, index, arrayRoutine, stringRoutine, live0);
  }

  /** Storing the next copy keeps the array filled one slot further, and the heap grown within bounds. */
  lemma FillStep(live: Live, arr: Ptr, copies: seq<Text>, index: nat, arrayRoutine: Routine, stringRoutine: Routine,
                 live0: Live)
    requires index < |copies| && Filled(live, arr, copies, index, arrayRoutine, stringRoutine)
    requires (forall id :: id in live0 ==> id < arr.id) && Grown(live0, live, arr.id, arr.id + 1 + index)
    ensures var after := live[arr.id + 1 + index := Block(stringRoutine, Chars(copies[index] + [0]))]
                            [arr.id := Block(arrayRoutine, Slots(SlotPtrs(arr.id, index + 1) + Nulls(|copies| - index - 1)))];
      Filled(after, arr, copies, index + 1, arrayRoutine, stringRoutine) && Grown(live0, after, arr.id, arr.id + 2 + index)
  {
  }

  /**
   * QMapToCharArray as the source has it: size = 2 * entries, keys and
   * values alternating in ascending key order, and every block, strings
   * included, allocated with new[].
   */
  method QMapToCharArrayAsWritten(h: Allocator, es: Entries) returns (arr: Ptr, size: int)
    requires h.Valid()
    modifies h
    ensures size == 2 * |es|
    ensures h.Valid() && arr == Addr(old(h.next)) && h.next == old(h.next) + 1 + size
    ensures StringArray(h.live, arr, StrCopies(Flatten(es)), NewArray, NewArray)
    ensures Grown(old(h.live), h.live, arr.id, h.next) && h.faults == old(h.faults)
  {
    size := 2 * |es|;
    arr := StringsToArray(h, Flatten(es), NewArray, NewArray);
  }

  /**
   * QMapToCharArray with the strings allocated through SMAMalloc, the
   * routine its reader CharArrayToQMap releases them with.
   */
  method QMapToCharArray(h: Allocator, es: Entries) returns (arr: Ptr, size: int)
    requires h.Valid()
    modifies h
    ensures size == 2 * |es|
    ensures h.Valid() && arr == Addr(old(h.next)) && h.next == old(h.next) + 1 + size
    ensures StringArray(h.live, arr, StrCopies(Flatten(es)), NewArray, Sma)
    ensures Grown(old(h.live), h.live, arr.id, h.next) && h.faults == old(h.faults)
  {
    size := 2 * |es|;
    arr := StringsToArray(h, Flatten(es), NewArray, Sma);
  }

  /**
   * With an odd `size`, the last pass of CharArrayToQMap's loop reads its
   * value from slot `size`; this holds when that slot lies inside the array.
   */
  predicate ReadsPastSize(live: Live, arr: Ptr, size: int)
    requires SlotArray(live, arr, size)
  {
    size > 0 && size % 2 == 1 && size < |live[arr.id].cell.ptrs|
  }

  /**
   * The slots CharArrayToQMap's loop reads: the first `size`, and slot
   * `size` too when an odd size leaves the last key's value inside the array.
   */
  function LoopSlots(live: Live, arr: Ptr, size: int): (ps: seq<Ptr>)
    requires SlotArray(live, arr, size)
    ensures ReadsPastSize(live, arr, size) ==> ps == SlotsOf(live, arr, size) + [live[arr.id].cell.ptrs[size]]
    ensures !ReadsPastSize(live, arr, size) ==> ps == SlotsOf(live, arr, size)
  {
    if ReadsPastSize(live, arr, size) then
      var ptrs := live[arr.id].cell.ptrs;
      assert ptrs[..size + 1] == ptrs[..size] + [ptrs[size]];
      ptrs[..size + 1]
    else SlotsOf(live, arr, size)
  }

  /**
   * CharArrayToQMap: slots 0, 2, 4, ... are keys and the slot after each its
   * value; each string is read and released through GFUnStrDup, and a later
   * key replaces an earlier one. The array itself is not released. With an
   * odd size the last key's value is read from slot `size`: inside the
   * array that pair is read, inserted and released like the others; when
   * slot `size` is past the end of the array, the last key is read and
   * released and the read past the end is `overrun`, where the model stops.
   */
  method CharArrayToQMap(h: Allocator, arr: Ptr, size: int) returns (m: Entries, overrun: bool)
    requires h.Valid() && SlotArray(h.live, arr, size)
    requires ReadableSlots(h.live, LoopSlots(h.live, arr, size))
    modifies h
    ensures overrun <==> size > 0 && size % 2 == 1 && !ReadsPastSize(old(h.live), arr, size)
    ensures m == Collect(Pairs(ReadAll(old(h.live), LoopSlots(old(h.live), arr, size))))
    ensures h.Valid() && h.live == old(h.live) - Ids(LoopSlots(old(h.live), arr, size)) && h.next == old(h.next)
    ensures h.faults == old(h.faults) + FaultsOf(old(h.live), LoopSlots(old(h.live), arr, size), Sma)
  {
    LoopSlotsParity(h.live, arr, size);
    m, overrun := ReadPairs(h, LoopSlots(h.live, arr, size));
  }

  /** The loop reads an odd number of slots exactly when an odd size leaves the last value past the array. */
  lemma LoopSlotsParity(live: Live, arr: Ptr, size: int)
    requires SlotArray(live, arr, size)
    ensures |LoopSlots(live, arr, size)| % 2 == 1 <==> size > 0 && size % 2 == 1 && !ReadsPastSize(live, arr, size)
  {
    if ReadsPastSize(live, arr, size) {
      assert |LoopSlots(live, arr, size)| == size + 1;
    }
  }

  /**
   * The loop of CharArrayToQMap over the pointers `ps`: a key and then its
   * value, each read and released through GFUnStrDup, inserted into the map;
   * an unpaired last key is read and released and then sets `overrun`.
   */
  method ReadPairs(h: Allocator, ps: seq<Ptr>) returns (m: Entries, overrun: bool)
    requires h.Valid() && ReadableSlots(h.live, ps)
    modifies h
    ensures overrun <==> |ps| % 2 == 1
    ensures m == Collect(Pairs(ReadAll(old(h.live), ps)))
    ensures h.Valid() && h.live == old(h.live) - Ids(ps) && h.next == old(h.next)
    ensures h.faults == old(h.faults) + FaultsOf(old(h.live), ps, Sma)
  {
    ghost var live0, faults0 := h.live, h.faults;
    m, overrun := [], false;
    var i := 0;
    ghost var j := 0;
    while i + 1 < |ps|
      invariant 0 <= i <= |ps| && i == 2 * j
      invariant m == Collect(Pairs(ReadAll(live0, ps)[..i]))
      invariant h.Valid() && h.next == old(h.next)
      invariant Released(h.live, h.faults, live0, faults0, ps[..i], Sma)
    {
      m := ReadPair(h, ps, i, j, m, live0, faults0);
      i, j := i + 2, j + 1;
    }
    overrun := ReadTail(h, ps, i, j, live0, faults0);
  }

  /** One pass of CharArrayToQMap's loop: the key in slot 2j and its value in slot 2j + 1. */
  method ReadPair(h: Allocator, ps: seq<Ptr>, i: nat, ghost j: nat, m: Entries, ghost live0: Live, ghost faults0: seq<Fault>)
    returns (m': Entries)
    requires h.Valid() && i == 2 * j && i + 2 <= |ps| && ReadableSlots(live0, ps)
    requires m == Collect(Pairs(ReadAll(live0, ps)[..2 * j]))
    requires Released(h.live, h.faults, live0, faults0, ps[..2 * j], Sma)
    modifies h
    ensures m' == Collect(Pairs(ReadAll(live0, ps)[..2 * j + 2]))
    ensures h.Valid() && h.next == old(h.next)
    ensures Released(h.live, h.faults, live0, faults0, ps[..2 * j + 2], Sma)
  {
    var key := GFUnStrDupNth(h, ps[i], ps, i, live0, faults0);
    var value := GFUnStrDupNth(h, ps[i + 1], ps, i + 1, live0, faults0);
    CollectPairsStep(ReadAll(live0, ps), j);
    m' := Insert(m, key, value);
  }

  /**
   * After the last whole pair: with an odd count the unpaired key in slot i
   * is read and released, and its value would be read one past the end.
   */
  method ReadTail(h: Allocator, ps: seq<Ptr>, i: nat, ghost j: nat, ghost live0: Live, ghost faults0: seq<Fault>)
    returns (overrun: bool)
    requires h.Valid() && i == 2 * j && i <= |ps| <= i + 1 && ReadableSlots(live0, ps)
    requires Released(h.live, h.faults, live0, faults0, ps[..i], Sma)
    modifies h
    ensures overrun <==> |ps| % 2 == 1
    ensures Pairs(ReadAll(live0, ps)) == Pairs(ReadAll(live0, ps)[..i])
    ensures h.Valid() && h.next == old(h.next)
    ensures Released(h.live, h.faults, live0, faults0, ps, Sma)
  {
    Parity(j);
    overrun := false;
    if i < |ps| {
      var key := GFUnStrDupNth(h, ps[i], ps, i, live0, faults0);
      PairsOdd(ReadAll(live0, ps), j);
      assert ps[..i + 1] == ps;
      overrun := true;
    } else {
      assert ps[..i] == ps && ReadAll(live0, ps)[..i] == ReadAll(live0, ps);
    }
  }

  /**
   * QStringListToCharArray: an SMAMalloc'd array of |list| slots, each an
   * SMAMalloc'd NUL-terminated copy of the item.
   */
  method QStringListToCharArray(h: Allocator, list: seq<Text>) returns (arr: Ptr)
    requires h.Valid()
    modifies h
    ensures h.Valid() && arr == Addr(old(h.next)) && h.next == old(h.next) + 1 + |list|
    ensures StringArray(h.live, arr, StrCopies(list), Sma, Sma)
    ensures Grown(old(h.live), h.live, arr.id, h.next) && h.faults == old(h.faults)
  {
    arr := StringsToArray(h, list, Sma, Sma);
  }

  /**
   * CharArrayToQStringList: the non-null slots among the first `size`, read
   * in order and each released through GFUnStrDup; then the array itself is
   * released through SMAFree.
   */
  method CharArrayToQStringList(h: Allocator, arr: Ptr, size: int) returns (list: seq<Text>)
    requires h.Valid() && SlotArray(h.live, arr, size)
    requires ReadableSlots(h.live, SlotsOf(h.live, arr, size))
    modifies h
    ensures list == ReadPresent(old(h.live), SlotsOf(old(h.live), arr, size))
    ensures h.Valid() && h.next == old(h.next)
    ensures h.live == old(h.live) - Ids(SlotsOf(old(h.live), arr, size) + [arr])
    ensures h.faults == old(h.faults) + FaultsOf(old(h.live), SlotsOf(old(h.live), arr, size) + [arr], Sma)
  {
    var slots := if size > 0 then h.live[arr.id].cell.ptrs[..size] else [];
    assert slots == SlotsOf(h.live, arr, size);
    ghost var live0, faults0 := h.live, h.faults;
    ArrayAfterSlots(live0, arr, size);
    list := [];
    var i := 0;
    while i < size
      invariant 0 <= i <= |slots|
      invariant list == ReadPresent(live0, slots[..i])
      invariant h.Valid() && h.next == old(h.next)
      invariant Released(h.live, h.faults, live0, faults0, slots[..i], Sma)
    {
      list := TakePresent(h, slots, i, list, live0, faults0);
      i := i + 1;
    }
    assert slots[..i] == slots;
    ReleaseArray(h, slots, arr, live0, faults0);
  }

  /** A slot array's own block is not among the strings in its slots. */
  lemma ArrayAfterSlots(live: Live, arr: Ptr, size: int)
    requires SlotArray(live, arr, size) && ReadableSlots(live, SlotsOf(live, arr, size))
    ensures Distinct(SlotsOf(live, arr, size) + [arr])
  {
    var slots := SlotsOf(live, arr, size);
    if arr.Addr? {
      forall k | 0 <= k < |slots| && slots[k].Addr? ensures slots[k].id != arr.id {
        assert HoldsCString(live, slots[k]);
      }
    }
    DistinctSnoc(slots + [arr]);
  }

  /** One pass of CharArrayToQStringList's loop: slot i, unless null, is read and released. */
  method TakePresent(h: Allocator, slots: seq<Ptr>, i: nat, list: seq<Text>, ghost live0: Live, ghost faults0: seq<Fault>)
    returns (list': seq<Text>)
    requires h.Valid() && i < |slots| && ReadableSlots(live0, slots)
    requires list == ReadPresent(live0, slots[..i])
    requires Released(h.live, h.faults, live0, faults0, slots[..i], Sma)
    modifies h
    ensures list' == ReadPresent(live0, slots[..i + 1])
    ensures h.Valid() && h.next == old(h.next)
    ensures Released(h.live, h.faults, live0, faults0, slots[..i + 1], Sma)
  {
    ReadPresentStep(live0, slots, i);
    if slots[i] != Null {
      var value := GFUnStrDupNth(h, slots[i], slots, i, live0, faults0);
      list' := list + [value];
    } else {
      ReleaseNext(live0, faults0, slots, Sma, i);
      list' := list;
    }
  }

  /** The last step of CharArrayToQStringList: the array itself is released through SMAFree. */
  method ReleaseArray(h: Allocator, slots: seq<Ptr>, arr: Ptr, ghost live0: Live, ghost faults0: seq<Fault>)
    requires h.Valid() && Distinct(slots + [arr])
    requires Released(h.live, h.faults, live0, faults0, slots, Sma)
    modifies h
    ensures h.Valid() && h.next == old(h.next)
    ensures Released(h.live, h.faults, live0, faults0, slots + [arr], Sma)
  {
    ghost var order := slots + [arr];
    assert order[..|slots|] == slots && order[|slots|] == arr && order[..|slots| + 1] == order;
    ReleaseNext(live0, faults0, order, Sma, |slots|);
    h.Free(arr, Sma);
  }

  /**
   * QStringListToCharArray followed by CharArrayToQStringList with the same
   * size gives back the list (each item up to its first NUL), releases every
   * block the first made, each through SMAFree as allocated, with no fault.
   */
  method StringListRoundTrip(h: Allocator, list: seq<Text>) returns (back: seq<Text>)
    requires h.Valid()
    modifies h
    ensures back == StrCopies(list) && (AllNulFree(list) ==> back == list)
    ensures h.Valid() && h.live == old(h.live) && h.faults == old(h.faults)
  {
    var arr := QStringListToCharArray(h, list);
    StringArrayUnwinds(old(h.live), h.live, arr, StrCopies(list), Sma);
    back := CharArrayToQStringList(h, arr, |list|);
    if AllNulFree(list) {
      StrCopiesOfNulFree(list);
    }
  }

  /** Releasing exactly the blocks allocated above `before` gives `before` back. */
  lemma Unwound(before: Live, live: Live, gone: set<nat>, lo: nat, hi: nat)
    requires (forall id :: id in before ==> id < lo) && Grown(before, live, lo, hi)
    requires forall id :: id in gone <==> lo <= id < hi
    ensures live - gone == before
  {
  }

  /** Releasing every block allocated above `before` except the first leaves that one behind. */
  lemma UnwoundButFirst(before: Live, live: Live, gone: set<nat>, lo: nat, hi: nat)
    requires (forall id :: id in before ==> id < lo) && Grown(before, live, lo, hi) && lo in live
    requires forall id :: id in gone <==> lo < id < hi
    ensures live - gone == before[lo := live[lo]]
  {
  }

  /**
   * A string array of NUL-free texts, allocated just above `before`, when
   * read back by CharArrayToQStringList: its texts come back in order and
   * releasing its slots and then the array through `routine`, the routine
   * that allocated all of them, restores `before` and records no fault.
   */
  lemma StringArrayUnwinds(before: Live, live: Live, arr: Ptr, texts: seq<Text>, routine: Routine)
    requires StringArray(live, arr, texts, routine, routine) && AllNulFree(texts)
    requires (forall id :: id in before ==> id < arr.id) && Grown(before, live, arr.id, arr.id + 1 + |texts|)
    ensures SlotArray(live, arr, |texts|) && ReadableSlots(live, SlotsOf(live, arr, |texts|))
    ensures ReadPresent(live, SlotsOf(live, arr, |texts|)) == texts
    ensures live - Ids(SlotsOf(live, arr, |texts|) + [arr]) == before
    ensures FaultsOf(live, SlotsOf(live, arr, |texts|) + [arr], routine) == []
  {
    var slots := SlotPtrs(arr.id, |texts|);
    ReadStringArray(live, arr, texts, routine, routine);
    ArrayReleaseOrder(live, arr, texts, routine, routine);
    ReadPresentAll(live, slots);
    Unwound(before, live, Ids(slots + [arr]), arr.id, arr.id + 1 + |texts|);
    ArrayOwned(live, arr, texts, routine);
    FaultFreeIfOwned(live, slots + [arr], routine);
  }

  /** The slots of a string array and the array itself, all allocated by one routine, are owned by it. */
  lemma ArrayOwned(live: Live, arr: Ptr, texts: seq<Text>, routine: Routine)
    requires StringArray(live, arr, texts, routine, routine)
    ensures OwnedBy(live, SlotPtrs(arr.id, |texts|) + [arr], routine)
  {
    var slots := SlotPtrs(arr.id, |texts|);
    forall k | 0 <= k < |slots| + 1 && (slots + [arr])[k].Addr?
      ensures (slots + [arr])[k].id in live && live[(slots + [arr])[k].id].routine == routine
    {
      if k < |slots| {
        assert (slots + [arr])[k] == slots[k] == Addr(arr.id + 1 + k);
      }
    }
  }

  /** The entries of a map with NUL-free keys and values survive flattening, copying and reading back. */
  lemma EntriesReadBack(es: Entries)
    requires EntriesNulFree(es)
    ensures Collect(Pairs(StrCopies(Flatten(es)))) == es
  {
    FlattenNulFree(es);
    StrCopiesOfNulFree(Flatten(es));
    PairsOfFlatten(es);
    CollectOfEntries(es);
  }

  /** One mismatch for each of the n blocks first, first + 1, ...: allocated by `owner`, released by `routine`. */
  function Mismatches(first: nat, n: nat, owner: Routine, routine: Routine): (fs: seq<Fault>)
    ensures |fs| == n && forall k :: 0 <= k < n ==> fs[k] == Mismatch(first + k, owner, routine)
  {
    seq(n, (k: nat) => Mismatch(first + k, owner, routine))
  }

  /**
   * A string array of NUL-free texts, allocated just above `before`, when
   * read back by CharArrayToQMap: its texts come back in order and releasing
   * its slots leaves only the array itself behind.
   */
  lemma StringArrayDrains(before: Live, live: Live, arr: Ptr, texts: seq<Text>, arrayRoutine: Routine, stringRoutine: Routine)
    requires StringArray(live, arr, texts, arrayRoutine, stringRoutine) && AllNulFree(texts)
    requires (forall id :: id in before ==> id < arr.id) && Grown(before, live, arr.id, arr.id + 1 + |texts|)
    ensures SlotArray(live, arr, |texts|) && ReadableSlots(live, SlotsOf(live, arr, |texts|))
    ensures ReadAll(live, SlotsOf(live, arr, |texts|)) == texts
    ensures live - Ids(SlotsOf(live, arr, |texts|)) == before[arr.id := Block(arrayRoutine, Slots(SlotPtrs(arr.id, |texts|)))]
  {
    ReadStringArray(live, arr, texts, arrayRoutine, stringRoutine);
    ArrayReleaseOrder(live, arr, texts, arrayRoutine, stringRoutine);
    UnwoundButFirst(before, live, Ids(SlotPtrs(arr.id, |texts|)), arr.id, arr.id + 1 + |texts|);
  }

  /**
   * Releasing the slots of a string array through SMAFree records no fault
   * when the strings were SMAMalloc'd, and one mismatch per string, in slot
   * order, when they were allocated with new[].
   */
  lemma StringArrayDrainFaults(live: Live, arr: Ptr, texts: seq<Text>, arrayRoutine: Routine, stringRoutine: Routine)
    requires StringArray(live, arr, texts, arrayRoutine, stringRoutine)
    ensures SlotArray(live, arr, |texts|) && SlotsOf(live, arr, |texts|) == SlotPtrs(arr.id, |texts|)
    ensures stringRoutine == Sma ==> FaultsOf(live, SlotsOf(live, arr, |texts|), Sma) == []
    ensures stringRoutine != Sma ==>
      FaultsOf(live, SlotsOf(live, arr, |texts|), Sma) == Mismatches(arr.id + 1, |texts|, stringRoutine, Sma)
  {
    var slots := SlotPtrs(arr.id, |texts|);
    assert live[arr.id].cell.ptrs[..|texts|] == slots;
    ArrayReleaseOrder(live, arr, texts, arrayRoutine, stringRoutine);
    if stringRoutine == Sma {
      FaultFreeIfOwned(live, slots, Sma);
    } else {
      FaultsOfMismatched(live, slots, stringRoutine, Sma);
      var fs, expected := FaultsOf(live, slots, Sma), Mismatches(arr.id + 1, |texts|, stringRoutine, Sma);
      forall k | 0 <= k < |texts| ensures fs[k] == expected[k] {
        assert slots[k].id == arr.id + 1 + k;
      }
      assert |fs| == |expected|;
    }
  }

  /**
   * QMapToCharArray followed by CharArrayToQMap with the size it reported:
   * the map comes back (each key and value up to its first NUL), no
   * overrun, every string released with no fault; the array is left live.
   */
  method MapRoundTrip(h: Allocator, es: Entries) returns (back: Entries, arr: Ptr, overrun: bool)
    requires h.Valid()
    modifies h
    ensures back == Collect(Pairs(StrCopies(Flatten(es)))) && (EntriesNulFree(es) ==> back == es) && !overrun
    ensures h.Valid() && arr == Addr(old(h.next))
    ensures h.live == old(h.live)[arr.id := Block(NewArray, Slots(SlotPtrs(arr.id, 2 * |es|)))]
    ensures h.faults == old(h.faults)
  {
    var size;
    arr, size := QMapToCharArray(h, es);
    StringArrayDrains(old(h.live), h.live, arr, StrCopies(Flatten(es)), NewArray, Sma);
    StringArrayDrainFaults(h.live, arr, StrCopies(Flatten(es)), NewArray, Sma);
    Parity(|es|);
    back, overrun := CharArrayToQMap(h, arr, size);
    if EntriesNulFree(es) {
      EntriesReadBack(es);
    }
  }

  /**
   * The same round trip through QMapToCharArray as the source has it: the
   * map comes back, but every one of the 2 * |es| string releases is a
   * mismatch, an SMAFree of a block that new[] allocated.
   */
  method MapRoundTripAsWritten(h: Allocator, es: Entries) returns (back: Entries, arr: Ptr, overrun: bool)
    requires h.Valid()
    modifies h
    ensures back == Collect(Pairs(StrCopies(Flatten(es)))) && (EntriesNulFree(es) ==> back == es) && !overrun
    ensures h.Valid() && arr == Addr(old(h.next))
    ensures h.live == old(h.live)[arr.id := Block(NewArray, Slots(SlotPtrs(arr.id, 2 * |es|)))]
    ensures h.faults == old(h.faults) + Mismatches(arr.id + 1, 2 * |es|, NewArray, Sma)
  {
    var size;
    arr, size := QMapToCharArrayAsWritten(h, es);
    StringArrayDrains(old(h.live), h.live, arr, StrCopies(Flatten(es)), NewArray, NewArray);
    StringArrayDrainFaults(h.live, arr, StrCopies(Flatten(es)), NewArray, NewArray);
    Parity(|es|);
    back, overrun := CharArrayToQMap(h, arr, size);
    if EntriesNulFree(es) {
      EntriesReadBack(es);
    }
  }

  // ---------------------------------------------------------------------
  // The event parameter list
  // ---------------------------------------------------------------------

  /** Node k of a list, or null past its end. */
  function NodeAt(nodes: seq<Ptr>, k: nat): (p: Ptr)
    ensures k < |nodes| ==> p == nodes[k]
    ensures k >= |nodes| ==> p == Null
  {
    if k < |nodes| then nodes[k] else Null
  }

  /** Node k of a list is live and holds names[k], values[k] and a link to node k + 1, or null when it is the last. */
  predicate NodeHolds(live: Live, names: seq<Ptr>, values: seq<Ptr>, nodes: seq<Ptr>, k: nat)
  {
    |names| == |nodes| && |values| == |nodes| && k < |nodes| &&
    nodes[k].Addr? && nodes[k].id in live &&
    live[nodes[k].id].cell == ParamNode(names[k], values[k], NodeAt(nodes, k + 1))
  }

  /**
   * A list of GFModuleEventParam nodes: every node holds its name and value,
   * C strings or null, and links to the next node; the last links to null.
   */
  predicate ParamChain(live: Live, names: seq<Ptr>, values: seq<Ptr>, nodes: seq<Ptr>)
  {
    |names| == |nodes| && |values| == |nodes| &&
    (forall k :: 0 <= k < |nodes| ==> Readable(live, names[k]) && Readable(live, values[k])) &&
    (forall k :: 0 <= k < |nodes| ==> NodeHolds(live, names, values, nodes, k))
  }

  /** A list ends where its last node links to null, and nowhere before. */
  lemma ChainEnd(live: Live, names: seq<Ptr>, values: seq<Ptr>, nodes: seq<Ptr>, j: nat)
    requires ParamChain(live, names, values, nodes) && j <= |nodes| && NodeAt(nodes, j) == Null
    ensures j == |nodes| == |names| == |values|
    ensures names[..j] == names && values[..j] == values && nodes[..j] == nodes
  {
    forall k | 0 <= k < |nodes| ensures NodeAt(nodes, k).Addr? {
      assert NodeHolds(live, names, values, nodes, k);
    }
  }

  /** The (name, value) texts of the nodes, in list order. */
  function ParamPairs(live: Live, names: seq<Ptr>, values: seq<Ptr>): (es: seq<Entry>)
    requires |names| == |values|
    requires forall k :: 0 <= k < |names| ==> Readable(live, names[k]) && Readable(live, values[k])
    ensures |es| == |names|
    ensures forall k :: 0 <= k < |names| ==> es[k] == (ReadCString(live, names[k]), ReadCString(live, values[k]))
  {
    if names == [] then []
    else
      var n := |names| - 1;
      ParamPairs(live, names[..n], values[..n]) + [(ReadCString(live, names[n]), ReadCString(live, values[n]))]
  }

  /** The releases ConvertEventParamsToMap performs as the source has it: each node's value, then the node. */
  function DrainOrderAsWritten(values: seq<Ptr>, nodes: seq<Ptr>): (ps: seq<Ptr>)
    requires |values| == |nodes|
    ensures |ps| == 2 * |nodes|
  {
    if nodes == [] then []
    else
      var n := |nodes| - 1;
      DrainOrderAsWritten(values[..n], nodes[..n]) + [values[n], nodes[n]]
  }

  /** The releases with the names released as well: each node's value, its name, then the node. */
  function DrainOrder(names: seq<Ptr>, values: seq<Ptr>, nodes: seq<Ptr>): (ps: seq<Ptr>)
    requires |names| == |nodes| && |values| == |nodes|
    ensures |ps| == 3 * |nodes|
  {
    if nodes == [] then []
    else
      var n := |nodes| - 1;
      DrainOrder(names[..n], values[..n], nodes[..n]) + [values[n], names[n], nodes[n]]
  }

  /** The releases of the source's drain name exactly the values and the nodes. */
  lemma {:induction false} DrainOrderAsWrittenIds(values: seq<Ptr>, nodes: seq<Ptr>)
    requires |values| == |nodes|
    ensures Ids(DrainOrderAsWritten(values, nodes)) == Ids(values) + Ids(nodes)
  {
    if nodes != [] {
      var n := |nodes| - 1;
      DrainOrderAsWrittenIds(values[..n], nodes[..n]);
      IdsConcat(DrainOrderAsWritten(values[..n], nodes[..n]), [values[n], nodes[n]]);
      IdsConcat([values[n]], [nodes[n]]);
      IdsSingle(values[n]);
      IdsSingle(nodes[n]);
      assert [values[n]] + [nodes[n]] == [values[n], nodes[n]];
      IdsStep(values, n);
      IdsStep(nodes, n);
      assert values[..n + 1] == values && nodes[..n + 1] == nodes;
    }
  }

  /** The releases of the corrected drain name exactly the values, the names and the nodes. */
  lemma {:induction false} DrainOrderIds(names: seq<Ptr>, values: seq<Ptr>, nodes: seq<Ptr>)
    requires |names| == |nodes| && |values| == |nodes|
    ensures Ids(DrainOrder(names, values, nodes)) == Ids(values) + Ids(names) + Ids(nodes)
  {
    if nodes != [] {
      var n := |nodes| - 1;
      DrainOrderIds(names[..n], values[..n], nodes[..n]);
      IdsConcat(DrainOrder(names[..n], values[..n], nodes[..n]), [values[n], names[n], nodes[n]]);
      IdsConcat([values[n]], [names[n]]);
      IdsConcat([values[n], names[n]], [nodes[n]]);
      IdsSingle(values[n]);
      IdsSingle(names[n]);
      IdsSingle(nodes[n]);
      assert [values[n]] + [names[n]] == [values[n], names[n]];
      assert [values[n], names[n]] + [nodes[n]] == [values[n], names[n], nodes[n]];
      IdsStep(values, n);
      IdsStep(names, n);
      IdsStep(nodes, n);
      assert values[..n + 1] == values && names[..n + 1] == names && nodes[..n + 1] == nodes;
    }
  }

  /**
   * What the source's drain needs: every node and value is a block of its
   * own, and no name is a node or a value (null names and values aside).
   * Names may be shared, since that drain never releases them.
   */
  predicate SeparateAsWritten(names: seq<Ptr>, values: seq<Ptr>, nodes: seq<Ptr>)
  {
    Distinct(values) && Distinct(nodes) &&
    Ids(names) !! Ids(values) && Ids(names) !! Ids(nodes) && Ids(values) !! Ids(nodes)
  }

  /**
   * Every node, name and value is a block of its own: none is named twice,
   * within its sequence or across them (null names and values aside).
   */
  predicate Separate(names: seq<Ptr>, values: seq<Ptr>, nodes: seq<Ptr>)
  {
    Distinct(names) && SeparateAsWritten(names, values, nodes)
  }

  /** In a distinct sequence, pointer j names none of the blocks before it. */
  lemma DistinctAt(ps: seq<Ptr>, j: nat)
    requires Distinct(ps) && j < |ps|
    ensures ps[j].Addr? ==> ps[j].id !in Ids(ps[..j])
  {
    assert forall k :: 0 <= k < j ==> ps[..j][k] == ps[k];
  }

  /** What pass j of either drain reads or releases lies outside the blocks named before position j. */
  lemma FreshAt(names: seq<Ptr>, values: seq<Ptr>, nodes: seq<Ptr>, j: nat)
    requires |names| == |nodes| && |values| == |nodes| && j < |nodes| && Separate(names, values, nodes)
    ensures values[j].Addr? ==> values[j].id !in Ids(values[..j]) + Ids(names[..j]) + Ids(nodes[..j]) + Ids(names) + Ids(nodes)
    ensures names[j].Addr? ==> names[j].id !in Ids(values[..j]) + Ids(names[..j]) + Ids(nodes[..j]) + Ids(values) + Ids(nodes)
    ensures nodes[j].Addr? ==> nodes[j].id !in Ids(values[..j]) + Ids(names[..j]) + Ids(nodes[..j]) + Ids(values) + Ids(names)
  {
    DistinctAt(names, j);
    DistinctAt(values, j);
    DistinctAt(nodes, j);
    IdsPrefix(names, j);
    IdsPrefix(values, j);
    IdsPrefix(nodes, j);
    if names[j].Addr? { InIds(names, j); }
    if values[j].Addr? { InIds(values, j); }
    if nodes[j].Addr? { InIds(nodes, j); }
  }

  /** In the source's drain, pass j reads and releases blocks the earlier passes left alone. */
  lemma DrainStepFreshAsWritten(names: seq<Ptr>, values: seq<Ptr>, nodes: seq<Ptr>, j: nat)
    requires |names| == |nodes| && |values| == |nodes| && j < |nodes| && SeparateAsWritten(names, values, nodes)
    ensures var done := DrainOrderAsWritten(values[..j], nodes[..j]);
      (values[j].Addr? ==> values[j].id !in Ids(done)) && (nodes[j].Addr? ==> nodes[j].id !in Ids(done)) &&
      (names[j].Addr? ==> names[j].id !in Ids(done + [values[j]])) &&
      (nodes[j].Addr? ==> nodes[j].id !in Ids(done + [values[j]]))
  {
    var done := DrainOrderAsWritten(values[..j], nodes[..j]);
    DrainOrderAsWrittenIds(values[..j], nodes[..j]);
    IdsConcat(done, [values[j]]);
    IdsSingle(values[j]);
    DistinctAt(values, j);
    DistinctAt(nodes, j);
    IdsPrefix(values, j);
    IdsPrefix(nodes, j);
    if names[j].Addr? { InIds(names, j); }
    if values[j].Addr? { InIds(values, j); }
    if nodes[j].Addr? { InIds(nodes, j); }
  }

  /** In the corrected drain, pass j reads and releases blocks the earlier passes left alone. */
  lemma DrainStepFresh(names: seq<Ptr>, values: seq<Ptr>, nodes: seq<Ptr>, j: nat)
    requires |names| == |nodes| && |values| == |nodes| && j < |nodes| && Separate(names, values, nodes)
    ensures var done := DrainOrder(names[..j], values[..j], nodes[..j]);
      (values[j].Addr? ==> values[j].id !in Ids(done)) && (nodes[j].Addr? ==> nodes[j].id !in Ids(done)) &&
      (names[j].Addr? ==> names[j].id !in Ids(done + [values[j]])) &&
      (nodes[j].Addr? ==> nodes[j].id !in Ids(done + [values[j]] + [names[j]]))
  {
    var done := DrainOrder(names[..j], values[..j], nodes[..j]);
    DrainOrderIds(names[..j], values[..j], nodes[..j]);
    IdsConcat(done, [values[j]]);
    IdsConcat(done + [values[j]], [names[j]]);
    IdsSingle(values[j]);
    IdsSingle(names[j]);
    FreshAt(names, values, nodes, j);
  }

  /**
   * GFUnStrDup of a pointer that the releases `done` left alone: it reads
   * the text it named before them, and `done` grows by that release.
   */
  method GFUnStrDupAfter(h: Allocator, p: Ptr, ghost done: seq<Ptr>, ghost live0: Live, ghost faults0: seq<Fault>)
    returns (t: Text)
    requires h.Valid() && Readable(live0, p) && (p.Addr? ==> p.id !in Ids(done))
    requires Released(h.live, h.faults, live0, faults0, done, Sma)
    modifies h
    ensures t == ReadCString(live0, p)
    ensures h.Valid() && h.next == old(h.next)
    ensures Released(h.live, h.faults, live0, faults0, done + [p], Sma)
  {
    ReadAfterRelease(live0, Ids(done), p);
    ReleasedSnoc(h.live, h.faults, live0, faults0, done, p, Sma);
    t := GFUnStrDup(h, p);
  }

  /** SMAFree after the releases `done`: `done` grows by that release. */
  method ReleaseAfter(h: Allocator, p: Ptr, ghost done: seq<Ptr>, ghost live0: Live, ghost faults0: seq<Fault>)
    requires h.Valid() && Released(h.live, h.faults, live0, faults0, done, Sma)
    modifies h
    ensures h.Valid() && h.next == old(h.next)
    ensures Released(h.live, h.faults, live0, faults0, done + [p], Sma)
  {
    ReleasedSnoc(h.live, h.faults, live0, faults0, done, p, Sma);
    h.Free(p, Sma);
  }

  /** One more node: one more (name, value) pair, one more insertion. */
  lemma ParamPairsStep(live: Live, names: seq<Ptr>, values: seq<Ptr>, j: nat)
    requires |names| == |values| && j < |names|
    requires forall k :: 0 <= k < |names| ==> Readable(live, names[k]) && Readable(live, values[k])
    ensures Collect(ParamPairs(live, names[..j + 1], values[..j + 1]))
         == Insert(Collect(ParamPairs(live, names[..j], values[..j])), ReadCString(live, names[j]), ReadCString(live, values[j]))
  {
    assert names[..j + 1][..j] == names[..j] && values[..j + 1][..j] == values[..j];
    var ps := ParamPairs(live, names[..j + 1], values[..j + 1]);
    assert ps[..j] == ParamPairs(live, names[..j], values[..j]);
  }

  /** The releases of the first j + 1 passes of the source's drain. */
  lemma DrainOrderAsWrittenStep(values: seq<Ptr>, nodes: seq<Ptr>, j: nat)
    requires |values| == |nodes| && j < |nodes|
    ensures DrainOrderAsWritten(values[..j + 1], nodes[..j + 1])
         == DrainOrderAsWritten(values[..j], nodes[..j]) + [values[j]] + [nodes[j]]
  {
    assert values[..j + 1][..j] == values[..j] && nodes[..j + 1][..j] == nodes[..j];
  }

  /** The releases of the first j + 1 passes of the corrected drain. */
  lemma DrainOrderStep(names: seq<Ptr>, values: seq<Ptr>, nodes: seq<Ptr>, j: nat)
    requires |names| == |nodes| && |values| == |nodes| && j < |nodes|
    ensures DrainOrder(names[..j + 1], values[..j + 1], nodes[..j + 1])
         == DrainOrder(names[..j], values[..j], nodes[..j]) + [values[j]] + [names[j]] + [nodes[j]]
  {
    assert names[..j + 1][..j] == names[..j] && values[..j + 1][..j] == values[..j] && nodes[..j + 1][..j] == nodes[..j];
  }

  /** Before the first pass of either drain: nothing read, nothing released. */
  lemma DrainStart(live0: Live, faults0: seq<Fault>, names: seq<Ptr>, values: seq<Ptr>, nodes: seq<Ptr>)
    requires ParamChain(live0, names, values, nodes)
    ensures Collect(ParamPairs(live0, names[..0], values[..0])) == []
    ensures Released(live0, faults0, live0, faults0, DrainOrderAsWritten(values[..0], nodes[..0]), Sma)
    ensures Released(live0, faults0, live0, faults0, DrainOrder(names[..0], values[..0], nodes[..0]), Sma)
  {
    assert names[..0] == [] && values[..0] == [] && nodes[..0] == [];
    assert Ids([]) == {};
  }

  /**
   * ConvertEventParamsToMap as the source has it: for each node in turn the
   * value is read and released through GFUnStrDup, the name is read and the
   * pair inserted (a later node's name replaces an earlier one's value), and
   * the node is released through SMAFree. The names are never released.
   */
  method ConvertEventParamsToMapAsWritten(h: Allocator, params: Ptr, ghost names: seq<Ptr>, ghost values: seq<Ptr>,
                                          ghost nodes: seq<Ptr>)
    returns (m: Entries)
    requires h.Valid() && ParamChain(h.live, names, values, nodes) && params == NodeAt(nodes, 0)
    requires SeparateAsWritten(names, values, nodes)
    modifies h
    ensures m == Collect(ParamPairs(old(h.live), names, values))
    ensures h.Valid() && h.next == old(h.next)
    ensures Released(h.live, h.faults, old(h.live), old(h.faults), DrainOrderAsWritten(values, nodes), Sma)
  {
    ghost var live0, faults0 := h.live, h.faults;
    DrainStart(live0, faults0, names, values, nodes);
    m := [];
    var current := params;
    ghost var j := 0;
    while current != Null
      invariant 0 <= j <= |nodes| && current == NodeAt(nodes, j)
      invariant m == Collect(ParamPairs(live0, names[..j], values[..j]))
      invariant h.Valid() && h.next == old(h.next)
      invariant Released(h.live, h.faults, live0, faults0, DrainOrderAsWritten(values[..j], nodes[..j]), Sma)
      decreases |nodes| - j
    {
      m, current := DrainNodeAsWritten(h, current, names, values, nodes, j, m, live0, faults0);
      j := j + 1;
    }
    ChainEnd(live0, names, values, nodes, j);
  }

  /** One pass of the source's drain loop, over node j. */
  method DrainNodeAsWritten(h: Allocator, current: Ptr, ghost names: seq<Ptr>, ghost values: seq<Ptr>, ghost nodes: seq<Ptr>,
                            ghost j: nat, m: Entries, ghost live0: Live, ghost faults0: seq<Fault>)
    returns (m': Entries, next: Ptr)
    requires h.Valid() && ParamChain(live0, names, values, nodes) && SeparateAsWritten(names, values, nodes)
    requires j < |nodes| && current == nodes[j]
    requires m == Collect(ParamPairs(live0, names[..j], values[..j]))
    requires Released(h.live, h.faults, live0, faults0, DrainOrderAsWritten(values[..j], nodes[..j]), Sma)
    modifies h
    ensures m' == Collect(ParamPairs(live0, names[..j + 1], values[..j + 1])) && next == NodeAt(nodes, j + 1)
    ensures h.Valid() && h.next == old(h.next)
    ensures Released(h.live, h.faults, live0, faults0, DrainOrderAsWritten(values[..j + 1], nodes[..j + 1]), Sma)
  {
    ghost var done := DrainOrderAsWritten(values[..j], nodes[..j]);
    DrainStepFreshAsWritten(names, values, nodes, j);
    assert NodeHolds(live0, names, values, nodes, j);
    var node := h.live[current.id].cell;
    var value := GFUnStrDupAfter(h, node.value, done, live0, faults0);
    ReadAfterRelease(live0, Ids(done + [values[j]]), names[j]);
    var key := ReadCString(h.live, node.name);
    next := node.next;
    ReleaseAfter(h, current, done + [values[j]], live0, faults0);
    DrainOrderAsWrittenStep(values, nodes, j);
    ParamPairsStep(live0, names, values, j);
    m' := Insert(m, key, value);
  }

  /**
   * ConvertEventParamsToMap with the name released too: after the value,
   * the name is read and released through GFUnStrDup, then the node.
   */
  method ConvertEventParamsToMap(h: Allocator, params: Ptr, ghost names: seq<Ptr>, ghost values: seq<Ptr>,
                                 ghost nodes: seq<Ptr>)
    returns (m: Entries)
    requires h.Valid() && ParamChain(h.live, names, values, nodes) && params == NodeAt(nodes, 0)
    requires Separate(names, values, nodes)
    modifies h
    ensures m == Collect(ParamPairs(old(h.live), names, values))
    ensures h.Valid() && h.next == old(h.next)
    ensures Released(h.live, h.faults, old(h.live), old(h.faults), DrainOrder(names, values, nodes), Sma)
  {
    ghost var live0, faults0 := h.live, h.faults;
    DrainStart(live0, faults0, names, values, nodes);
    m := [];
    var current := params;
    ghost var j := 0;
    while current != Null
      invariant 0 <= j <= |nodes| && current == NodeAt(nodes, j)
      invariant m == Collect(ParamPairs(live0, names[..j], values[..j]))
      invariant h.Valid() && h.next == old(h.next)
      invariant Released(h.live, h.faults, live0, faults0, DrainOrder(names[..j], values[..j], nodes[..j]), Sma)
      decreases |nodes| - j
    {
      m, current := DrainNode(h, current, names, values, nodes, j, m, live0, faults0);
      j := j + 1;
    }
    ChainEnd(live0, names, values, nodes, j);
  }

  /** One pass of the corrected drain loop, over node j. */
  method DrainNode(h: Allocator, current: Ptr, ghost names: seq<Ptr>, ghost values: seq<Ptr>, ghost nodes: seq<Ptr>,
                   ghost j: nat, m: Entries, ghost live0: Live, ghost faults0: seq<Fault>)
    returns (m': Entries, next: Ptr)
    requires h.Valid() && ParamChain(live0, names, values, nodes) && Separate(names, values, nodes)
    requires j < |nodes| && current == nodes[j]
    requires m == Collect(ParamPairs(live0, names[..j], values[..j]))
    requires Released(h.live, h.faults, live0, faults0, DrainOrder(names[..j], values[..j], nodes[..j]), Sma)
    modifies h
    ensures m' == Collect(ParamPairs(live0, names[..j + 1], values[..j + 1])) && next == NodeAt(nodes, j + 1)
    ensures h.Valid() && h.next == old(h.next)
    ensures Released(h.live, h.faults, live0, faults0, DrainOrder(names[..j + 1], values[..j + 1], nodes[..j + 1]), Sma)
  {
    ghost var done := DrainOrder(names[..j], values[..j], nodes[..j]);
    DrainStepFresh(names, values, nodes, j);
    assert NodeHolds(live0, names, values, nodes, j);
    var node := h.live[current.id].cell;
    var value := GFUnStrDupAfter(h, node.value, done, live0, faults0);
    var key := GFUnStrDupAfter(h, node.name, done + [values[j]], live0, faults0);
    next := node.next;
    ReleaseAfter(h, current, done + [values[j]] + [names[j]], live0, faults0);
    DrainOrderStep(names, values, nodes, j);
    ParamPairsStep(live0, names, values, j);
    m' := Insert(m, key, value);
  }

  /** Node, name and value blocks that are live and were allocated through SMAMalloc. */
  predicate ParamsOwned(live: Live, names: seq<Ptr>, values: seq<Ptr>, nodes: seq<Ptr>)
  {
    OwnedBy(live, names, Sma) && OwnedBy(live, values, Sma) && OwnedBy(live, nodes, Sma)
  }

  /** A sequence whose every named block is owned by `routine` is owned pointer by pointer. */
  lemma OwnedByIds(live: Live, ps: seq<Ptr>, routine: Routine, a: seq<Ptr>, b: seq<Ptr>, c: seq<Ptr>)
    requires OwnedBy(live, a, routine) && OwnedBy(live, b, routine) && OwnedBy(live, c, routine)
    requires Ids(ps) <= Ids(a) + Ids(b) + Ids(c)
    ensures OwnedBy(live, ps, routine)
  {
    forall k | 0 <= k < |ps| && ps[k].Addr? ensures ps[k].id in live && live[ps[k].id].routine == routine {
      InIds(ps, k);
      var id := ps[k].id;
      if id in Ids(a) {
        var i :| 0 <= i < |a| && a[i].Addr? && a[i].id == id;
      } else if id in Ids(b) {
        var i :| 0 <= i < |b| && b[i].Addr? && b[i].id == id;
      } else {
        var i :| 0 <= i < |c| && c[i].Addr? && c[i].id == id;
      }
    }
  }

  /** The releases of the first j passes of the source's drain name no block twice. */
  lemma {:induction false} DrainOrderAsWrittenDistinct(names: seq<Ptr>, values: seq<Ptr>, nodes: seq<Ptr>, j: nat)
    requires |names| == |nodes| && |values| == |nodes| && j <= |nodes| && SeparateAsWritten(names, values, nodes)
    ensures Distinct(DrainOrderAsWritten(values[..j], nodes[..j]))
  {
    if j > 0 {
      var i := j - 1;
      var d := DrainOrderAsWritten(values[..i], nodes[..i]);
      DrainOrderAsWrittenDistinct(names, values, nodes, i);
      DrainOrderAsWrittenStep(values, nodes, i);
      DrainStepFreshAsWritten(names, values, nodes, i);
      var d1 := d + [values[i]];
      var d2 := d1 + [nodes[i]];
      assert d1[..|d1| - 1] == d && d2[..|d2| - 1] == d1;
      DistinctSnoc(d1);
      DistinctSnoc(d2);
    }
  }

  /** The releases of the first j passes of the corrected drain name no block twice. */
  lemma {:induction false} DrainOrderDistinct(names: seq<Ptr>, values: seq<Ptr>, nodes: seq<Ptr>, j: nat)
    requires |names| == |nodes| && |values| == |nodes| && j <= |nodes| && Separate(names, values, nodes)
    ensures Distinct(DrainOrder(names[..j], values[..j], nodes[..j]))
  {
    if j > 0 {
      var i := j - 1;
      var d := DrainOrder(names[..i], values[..i], nodes[..i]);
      DrainOrderDistinct(names, values, nodes, i);
      DrainOrderStep(names, values, nodes, i);
      DrainStepFresh(names, values, nodes, i);
      var d1 := d + [values[i]];
      var d2 := d1 + [names[i]];
      var d3 := d2 + [nodes[i]];
      assert d1[..|d1| - 1] == d && d2[..|d2| - 1] == d1 && d3[..|d3| - 1] == d2;
      assert d2 == d + [values[i], names[i]];
      DistinctSnoc(d1);
      DistinctSnoc(d2);
      DistinctSnoc(d3);
    }
  }

  /**
   * The source's drain of a list whose blocks are all distinct SMAMalloc'd
   * blocks records no fault, releases exactly the values and the nodes, and
   * leaves every name live: the names leak.
   */
  lemma DrainAsWrittenLeaksNames(live0: Live, names: seq<Ptr>, values: seq<Ptr>, nodes: seq<Ptr>)
    requires |names| == |nodes| && |values| == |nodes| && SeparateAsWritten(names, values, nodes)
    requires ParamsOwned(live0, names, values, nodes)
    ensures FaultsOf(live0, DrainOrderAsWritten(values, nodes), Sma) == []
    ensures live0 - Ids(DrainOrderAsWritten(values, nodes)) == live0 - (Ids(values) + Ids(nodes))
    ensures forall k :: 0 <= k < |names| && names[k].Addr? ==>
      names[k].id in live0 - Ids(DrainOrderAsWritten(values, nodes))
  {
    var n := |nodes|;
    assert names[..n] == names && values[..n] == values && nodes[..n] == nodes;
    DrainOrderAsWrittenDistinct(names, values, nodes, n);
    DrainOrderAsWrittenIds(values, nodes);
    OwnedByIds(live0, DrainOrderAsWritten(values, nodes), Sma, values, nodes, names);
    FaultFreeIfOwned(live0, DrainOrderAsWritten(values, nodes), Sma);
    forall k | 0 <= k < |names| && names[k].Addr? ensures names[k].id in live0 - (Ids(values) + Ids(nodes)) {
      InIds(names, k);
    }
  }

  /**
   * The corrected drain of a list whose blocks are all distinct SMAMalloc'd
   * blocks records no fault and releases every value, name and node.
   */
  lemma DrainReleasesEverything(live0: Live, names: seq<Ptr>, values: seq<Ptr>, nodes: seq<Ptr>)
    requires |names| == |nodes| && |values| == |nodes| && Separate(names, values, nodes)
    requires ParamsOwned(live0, names, values, nodes)
    ensures FaultsOf(live0, DrainOrder(names, values, nodes), Sma) == []
    ensures live0 - Ids(DrainOrder(names, values, nodes)) == live0 - (Ids(values) + Ids(names) + Ids(nodes))
  {
    var n := |nodes|;
    assert names[..n] == names && values[..n] == values && nodes[..n] == nodes;
    DrainOrderDistinct(names, values, nodes, n);
    DrainOrderIds(names, values, nodes);
    OwnedByIds(live0, DrainOrder(names, values, nodes), Sma, values, names, nodes);
    FaultFreeIfOwned(live0, DrainOrder(names, values, nodes), Sma);
  }
}


