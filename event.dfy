/**
 * The module event: an identifier, a trigger id fixed when the event is
 * made, and a parameter map ordered by key in which a later write to a key
 * replaces the earlier one; and its flattening into the GFModuleEvent
 * record and the linked list of GFModuleEventParam nodes that cross the
 * module boundary.
 *
 * The trigger id is a freshly generated UUID in the program; here it is a
 * parameter of the constructor.
 */
module ModuleEvent {
  import opened Bytes
  import opened OrderedMap
  import opened MarshalHeap
  import opened SdkPrivate

  // ---------------------------------------------------------------------
  // The flat form ToModuleEvent lays out
  // ---------------------------------------------------------------------

  /**
   * Every third block from `base + off`: ToModuleEvent allocates, for each
   * parameter in turn, the node, then its name, then its value, right after
   * the record, the identifier and the trigger id.
   */
  function Stride(base: nat, off: nat, n: nat): (ps: seq<Ptr>)
    ensures |ps| == n && forall k :: 0 <= k < n ==> ps[k] == Addr(base + off + 3 * k)
  {
    seq(n, (k: nat) => Addr(base + off + 3 * k))
  }

  /** The parameter nodes of a record laid out at `base`. */
  function NodePtrs(base: nat, n: nat): seq<Ptr> { Stride(base, 3, n) }

  /** The name strings of a record laid out at `base`. */
  function NamePtrs(base: nat, n: nat): seq<Ptr> { Stride(base, 4, n) }

  /** The value strings of a record laid out at `base`. */
  function ValuePtrs(base: nat, n: nat): seq<Ptr> { Stride(base, 5, n) }

  /**
   * Node k of the first n, laid out at `base`: an SMAMalloc'd node holding
   * the SMAMalloc'd copies of the k-th key and value and a link to node k + 1,
   * null for the last node built so far.
   */
  predicate NodeLaid(live: Live, base: nat, es: seq<Entry>, n: nat, k: nat)
    requires k < n <= |es|
  {
    var node := base + 3 + 3 * k;
    node in live && live[node] == Block(Sma, ParamNode(Addr(node + 1), Addr(node + 2), if k + 1 < n then Addr(node + 3) else Null)) &&
    node + 1 in live && live[node + 1] == Block(Sma, Chars(es[k].0 + [0])) &&
    node + 2 in live && live[node + 2] == Block(Sma, Chars(es[k].1 + [0]))
  }

  /**
   * A GFModuleEvent at `base` with its identifier and trigger id copies right
   * after it, and the list of its first n parameters; `params` is null while
   * the list is empty and the first node afterwards.
   */
  predicate EventLaid(live: Live, base: nat, ident: Text, trig: Text, es: seq<Entry>, n: nat)
    requires n <= |es|
  {
    base in live && live[base] == Block(Sma, EventRecord(Addr(base + 1), Addr(base + 2), if n == 0 then Null else Addr(base + 3))) &&
    base + 1 in live && live[base + 1] == Block(Sma, Chars(ident + [0])) &&
    base + 2 in live && live[base + 2] == Block(Sma, Chars(trig + [0])) &&
    forall k :: 0 <= k < n ==> NodeLaid(live, base, es, n, k)
  }

  /**
   * The heap after parameter n is appended: its node, name and value are
   * new, and the record (for the first) or the previous node (otherwise)
   * now links to the new node.
   */
  function Appended(live: Live, base: nat, es: seq<Entry>, n: nat): Live
    requires n < |es|
  {
    var node := base + 3 + 3 * n;
    var grown := live[node := Block(Sma, ParamNode(Addr(node + 1), Addr(node + 2), Null))]
                     [node + 1 := Block(Sma, Chars(es[n].0 + [0]))]
                     [node + 2 := Block(Sma, Chars(es[n].1 + [0]))];
    if n == 0 then grown[base := Block(Sma, EventRecord(Addr(base + 1), Addr(base + 2), Addr(node)))]
    else grown[node - 3 := Block(Sma, ParamNode(Addr(node - 2), Addr(node - 1), Addr(node)))]
  }

  /** Appending parameter n to a record with n parameters laid out gives one with n + 1. */
  lemma AppendedLaid(live: Live, base: nat, ident: Text, trig: Text, es: seq<Entry>, n: nat)
    requires n < |es| && EventLaid(live, base, ident, trig, es, n)
    requires forall id :: id in live ==> id < base + 3 + 3 * n
    ensures EventLaid(Appended(live, base, es, n), base, ident, trig, es, n + 1)
  {
    var after, m := Appended(live, base, es, n), n + 1;
    forall k | 0 <= k < m ensures NodeLaid(after, base, es, m, k) {
      if k < n {
        assert NodeLaid(live, base, es, n, k);
      }
    }
  }

  /** One pass of ToModuleEvent's loop: parameter n is allocated, copied and linked. */
  method AppendParam(h: Allocator, event: Ptr, last: Ptr, key: Text, value: Text,
                     ghost base: nat, ghost ident: Text, ghost trig: Text, ghost es: seq<Entry>, ghost n: nat)
    returns (node: Ptr)
    requires h.Valid() && n < |es| && es[n] == (key, value) && EventLaid(h.live, base, ident, trig, es, n)
    requires event == Addr(base) && last == (if n == 0 then Null else Addr(base + 3 * n)) && h.next == base + 3 + 3 * n
    modifies h
    ensures h.Valid() && node == Addr(base + 3 + 3 * n) && h.next == old(h.next) + 3 && h.faults == old(h.faults)
    ensures h.live == Appended(old(h.live), base, es, n)
  {
    ghost var before := h.live;
    if n > 0 {
      assert NodeLaid(before, base, es, n, n - 1);
    }
    node := h.Alloc(Sma, ParamNode(Null, Null, Null));
    var record := h.live[event.id].cell;
    if record.params == Null {
      h.Store(event, EventRecord(record.eventId, record.triggerId, node));
    }
    ghost var linked := h.live;
    var name := GFStrDup(h, key);
    var copy := GFStrDup(h, value);
    h.Store(node, ParamNode(name, copy, Null));
    if last != Null {
      var previous := h.live[last.id].cell;
      h.Store(last, ParamNode(previous.name, previous.value, node));
    }
    AppendedInOrder(before, linked, h.live, base, es, n);
  }

  /** The heap after the stores of one pass of ToModuleEvent's loop, in the order the source makes them. */
  lemma AppendedInOrder(before: Live, linked: Live, after: Live, base: nat, es: seq<Entry>, n: nat)
    requires n < |es|
    requires var node := base + 3 + 3 * n;
      linked == (var l := before[node := Block(Sma, ParamNode(Null, Null, Null))];
                 if n == 0 then l[base := Block(Sma, EventRecord(Addr(base + 1), Addr(base + 2), Addr(node)))] else l) &&
      (var l := linked[node + 1 := Block(Sma, Chars(es[n].0 + [0]))][node + 2 := Block(Sma, Chars(es[n].1 + [0]))]
                      [node := Block(Sma, ParamNode(Addr(node + 1), Addr(node + 2), Null))];
       after == if n == 0 then l else l[node - 3 := Block(Sma, ParamNode(Addr(node - 2), Addr(node - 1), Addr(node)))])
    ensures after == Appended(before, base, es, n)
  {
  }

  /** The record, with copies of the identifier and the trigger id and no parameters yet. */
  method NewRecord(h: Allocator, ident: Text, trig: Text, ghost es: seq<Entry>) returns (event: Ptr)
    requires h.Valid()
    modifies h
    ensures h.Valid() && event == Addr(old(h.next)) && h.next == old(h.next) + 3 && h.faults == old(h.faults)
    ensures Grown(old(h.live), h.live, event.id, h.next)
    ensures EventLaid(h.live, event.id, ident, trig, es, 0)
  {
    event := h.Alloc(Sma, EventRecord(Null, Null, Null));
    var id := GFStrDup(h, ident);
    var copy := GFStrDup(h, trig);
    h.Store(event, EventRecord(id, copy, Null));
  }

  /** One pass of ToModuleEvent's loop, with what it keeps of the layout. */
  method AppendLaid(h: Allocator, event: Ptr, last: Ptr, ghost ident: Text, ghost trig: Text, es: seq<Entry>, n: nat,
                    ghost live0: Live)
    returns (node: Ptr)
    requires h.Valid() && event.Addr? && n < |es| && EventLaid(h.live, event.id, ident, trig, es, n)
    requires last == (if n == 0 then Null else Addr(event.id + 3 * n)) && h.next == event.id + 3 + 3 * n
    requires Grown(live0, h.live, event.id, h.next) && forall id :: id in live0 ==> id < event.id
    modifies h
    ensures h.Valid() && node == Addr(event.id + 3 + 3 * n) && h.next == old(h.next) + 3 && h.faults == old(h.faults)
    ensures Grown(live0, h.live, event.id, h.next)
    ensures EventLaid(h.live, event.id, ident, trig, es, n + 1)
  {
    AppendedLaid(h.live, event.id, ident, trig, es, n);
    AppendedGrown(live0, h.live, event.id, es, n);
    node := AppendParam(h, event, last, es[n].0, es[n].1, event.id, ident, trig, es, n);
  }

  /** A parameter's key and value as a C-string reader gets them back: up to the first NUL. */
  function ParamCopies(es: seq<Entry>): (cs: seq<Entry>)
    ensures |cs| == |es| && forall k :: 0 <= k < |es| ==> cs[k] == (UpToNul(es[k].0), UpToNul(es[k].1))
  {
    seq(|es|, (k: int) requires 0 <= k < |es| => (UpToNul(es[k].0), UpToNul(es[k].1)))
  }

  /** Every id of a stride lies `off` above `base` plus a multiple of three. */
  lemma StrideIds(base: nat, off: nat, n: nat)
    ensures forall id :: id in Ids(Stride(base, off, n)) ==> id >= base + off && (id - base - off) % 3 == 0 && id < base + off + 3 * n
  {
  }

  /** Strides at different offsets name different blocks, and no stride names a block twice. */
  lemma StridesSeparate(base: nat, n: nat)
    ensures Separate(NamePtrs(base, n), ValuePtrs(base, n), NodePtrs(base, n))
  {
    StrideIds(base, 3, n);
    StrideIds(base, 4, n);
    StrideIds(base, 5, n);
  }

  /** The parameter strings of a laid-out record are readable and read back as the copies of the keys and values. */
  lemma LaidStrings(live: Live, base: nat, ident: Text, trig: Text, es: seq<Entry>)
    requires EventLaid(live, base, ident, trig, es, |es|)
    ensures forall k :: 0 <= k < |es| ==>
      Readable(live, NamePtrs(base, |es|)[k]) && Readable(live, ValuePtrs(base, |es|)[k])
    ensures ParamPairs(live, NamePtrs(base, |es|), ValuePtrs(base, |es|)) == ParamCopies(es)
  {
    var n := |es|;
    var names, values := NamePtrs(base, n), ValuePtrs(base, n);
    forall k | 0 <= k < n
      ensures Readable(live, names[k]) && Readable(live, values[k])
      ensures ReadCString(live, names[k]) == UpToNul(es[k].0) && ReadCString(live, values[k]) == UpToNul(es[k].1)
    {
      assert NodeLaid(live, base, es, n, k);
      CStringOfAppendedNul(es[k].0);
      CStringOfAppendedNul(es[k].1);
    }
  }

  /** The nodes of a laid-out record link up in order, each holding its own name and value. */
  lemma LaidLinks(live: Live, base: nat, ident: Text, trig: Text, es: seq<Entry>)
    requires EventLaid(live, base, ident, trig, es, |es|)
    ensures forall k :: 0 <= k < |es| ==>
      NodeHolds(live, NamePtrs(base, |es|), ValuePtrs(base, |es|), NodePtrs(base, |es|), k)
  {
    var n := |es|;
    forall k | 0 <= k < n
      ensures NodeHolds(live, NamePtrs(base, n), ValuePtrs(base, n), NodePtrs(base, n), k)
    {
      assert NodeLaid(live, base, es, n, k);
    }
  }

  /** Every block of a laid-out parameter list was allocated through SMAMalloc. */
  lemma LaidOwned(live: Live, base: nat, ident: Text, trig: Text, es: seq<Entry>)
    requires EventLaid(live, base, ident, trig, es, |es|)
    ensures ParamsOwned(live, NamePtrs(base, |es|), ValuePtrs(base, |es|), NodePtrs(base, |es|))
  {
    var n := |es|;
    forall k | 0 <= k < n
      ensures base + 3 + 3 * k in live && live[base + 3 + 3 * k].routine == Sma
      ensures base + 4 + 3 * k in live && live[base + 4 + 3 * k].routine == Sma
      ensures base + 5 + 3 * k in live && live[base + 5 + 3 * k].routine == Sma
    {
      assert NodeLaid(live, base, es, n, k);
    }
  }

  /**
   * A record laid out with all its parameters carries a parameter list in
   * the shape ConvertEventParamsToMap walks: it starts at `params`, its
   * blocks are distinct SMAMalloc'd blocks, and it holds the key and value
   * copies in ascending key order.
   */
  lemma LaidChain(live: Live, base: nat, ident: Text, trig: Text, es: seq<Entry>)
    requires EventLaid(live, base, ident, trig, es, |es|)
    ensures var names, values, nodes := NamePtrs(base, |es|), ValuePtrs(base, |es|), NodePtrs(base, |es|);
      ParamChain(live, names, values, nodes) && Separate(names, values, nodes) &&
      ParamsOwned(live, names, values, nodes) &&
      live[base].cell.params == NodeAt(nodes, 0) &&
      ParamPairs(live, names, values) == ParamCopies(es)
  {
    LaidStrings(live, base, ident, trig, es);
    LaidLinks(live, base, ident, trig, es);
    LaidOwned(live, base, ident, trig, es);
    StridesSeparate(base, |es|);
  }

  /** Appending a parameter adds only blocks at and above the counter, and keeps every older block. */
  lemma AppendedGrown(live0: Live, live: Live, base: nat, es: seq<Entry>, n: nat)
    requires n < |es| && Grown(live0, live, base, base + 3 + 3 * n)
    requires forall id :: id in live0 ==> id < base
    ensures Grown(live0, Appended(live, base, es, n), base, base + 6 + 3 * n)
  {
  }

  /** Every block from the first node to the last value is a node, a name or a value. */
  lemma StridesCover(base: nat, n: nat)
    ensures forall id :: base + 3 <= id < base + 3 + 3 * n ==>
      id in Ids(ValuePtrs(base, n)) + Ids(NamePtrs(base, n)) + Ids(NodePtrs(base, n))
  {
    forall id | base + 3 <= id < base + 3 + 3 * n
      ensures id in Ids(ValuePtrs(base, n)) + Ids(NamePtrs(base, n)) + Ids(NodePtrs(base, n))
    {
      var k, r := (id - base - 3) / 3, (id - base - 3) % 3;
      assert id == base + 3 + 3 * k + r;
      if r == 0 {
        assert NodePtrs(base, n)[k].id == id;
      } else if r == 1 {
        assert NamePtrs(base, n)[k].id == id;
      } else {
        assert ValuePtrs(base, n)[k].id == id;
      }
    }
  }

  /**
   * What is left of a flattened event once its parameter list is drained:
   * the blocks that were there before, and the record with its identifier
   * and trigger id; the record's `params` still holds the first node's
   * address (null for no parameters), which is no longer live.
   */
  function EventLeft(live0: Live, base: nat, ident: Text, trig: Text, es: seq<Entry>): Live
  {
    live0[base := Block(Sma, EventRecord(Addr(base + 1), Addr(base + 2), if es == [] then Null else Addr(base + 3)))]
         [base + 1 := Block(Sma, Chars(ident + [0]))]
         [base + 2 := Block(Sma, Chars(trig + [0]))]
  }

  /** Releasing every node, name and value of a laid-out record leaves only the record and its two strings. */
  lemma DrainedLayout(live0: Live, built: Live, base: nat, ident: Text, trig: Text, es: seq<Entry>)
    requires Grown(live0, built, base, base + 3 + 3 * |es|) && forall id :: id in live0 ==> id < base
    requires EventLaid(built, base, ident, trig, es, |es|)
    ensures var n := |es|;
      built - (Ids(ValuePtrs(base, n)) + Ids(NamePtrs(base, n)) + Ids(NodePtrs(base, n))) == EventLeft(live0, base, ident, trig, es)
  {
    var n := |es|;
    var gone := Ids(ValuePtrs(base, n)) + Ids(NamePtrs(base, n)) + Ids(NodePtrs(base, n));
    StrideIds(base, 3, n);
    StrideIds(base, 4, n);
    StrideIds(base, 5, n);
    StridesCover(base, n);
    var left, expected := built - gone, EventLeft(live0, base, ident, trig, es);
    forall id ensures (id in left <==> id in expected) && (id in left ==> left[id] == expected[id]) {
      if id in live0 {
        assert id < base && id in built && id !in gone;
      } else if base <= id < base + 3 {
        assert id in built && id !in gone;
      } else if id in built {
        assert base + 3 <= id < base + 3 + 3 * n;
        assert id in gone;
      }
    }
  }

  /**
   * Draining the list of a laid-out record as the source does records no
   * fault and leaves every name live.
   */
  lemma LaidDrainAsWritten(built: Live, base: nat, ident: Text, trig: Text, es: seq<Entry>)
    requires EventLaid(built, base, ident, trig, es, |es|)
    ensures var n := |es|;
      var order := DrainOrderAsWritten(ValuePtrs(base, n), NodePtrs(base, n));
      FaultsOf(built, order, Sma) == [] && forall k :: 0 <= k < n ==> NamePtrs(base, n)[k].id in built - Ids(order)
  {
    var n := |es|;
    LaidChain(built, base, ident, trig, es);
    DrainAsWrittenLeaksNames(built, NamePtrs(base, n), ValuePtrs(base, n), NodePtrs(base, n));
  }

  /**
   * Draining the list of a laid-out record with the names released too
   * records no fault and leaves only the record and its two strings.
   */
  lemma LaidDrain(live0: Live, built: Live, base: nat, ident: Text, trig: Text, es: seq<Entry>)
    requires Grown(live0, built, base, base + 3 + 3 * |es|) && forall id :: id in live0 ==> id < base
    requires EventLaid(built, base, ident, trig, es, |es|)
    ensures var n := |es|;
      var order := DrainOrder(NamePtrs(base, n), ValuePtrs(base, n), NodePtrs(base, n));
      FaultsOf(built, order, Sma) == [] && built - Ids(order) == EventLeft(live0, base, ident, trig, es)
  {
    var n := |es|;
    LaidChain(built, base, ident, trig, es);
    DrainReleasesEverything(built, NamePtrs(base, n), ValuePtrs(base, n), NodePtrs(base, n));
    DrainedLayout(live0, built, base, ident, trig, es);
  }

  // ---------------------------------------------------------------------
  // Event::Impl and Event
  // ---------------------------------------------------------------------

  /** Event::Impl: the state an Event shares between its handles. */
  class EventImpl {
    /** The event identifier. */
    const identifier: Text
    /** The trigger id, set once when the event is made. */
    const triggerId: Text
    /** The parameters, ordered by key. */
    var data: Entries

    /** The identifier is stored and the initial parameters are inserted in key order into an empty map. */
    constructor (eventId: Text, params: Entries, trigger: Text)
      ensures identifier == eventId && triggerId == trigger && data == params
    {
      identifier, triggerId := eventId, trigger;
      if params != [] {
        CollectOfEntries(params);
        data := Collect(params);
      } else {
        data := [];
      }
    }

    /** operator[]: the value stored under `key`, or none. */
    function Get(key: Text): (r: Option<Text>)
      reads this
      ensures r.Some? <==> key in ToMap(data)
      ensures r.Some? ==> r.value == ToMap(data)[key]
    {
      Find(data, key)
    }

    /** operator== against an Event: the identifiers match, whatever the trigger ids and parameters. */
    function IdentifierEquals(other: Event): (r: bool)
      reads this, other.p
      ensures r <==> identifier == other.p.identifier
    {
      identifier == other.p.identifier
    }

    /** operator!= against an Event: exactly when operator== does not hold. */
    function IdentifierDiffers(other: Event): (r: bool)
      reads this, other.p
      ensures r <==> !IdentifierEquals(other)
    {
      !(identifier == other.p.identifier)
    }

    /**
     * operator< against an Event: the identifiers in string order, so never
     * between events that operator== calls equal.
     */
    function IdentifierBelow(other: Event): (r: bool)
      reads this, other.p
      ensures r <==> Below(identifier, other.p.identifier)
      ensures r ==> !IdentifierEquals(other)
    {
      BelowAsymmetricIf(identifier, other.p.identifier);
      Below(identifier, other.p.identifier)
    }

    /** GetIdentifier. */
    function GetIdentifier(): (r: Text)
      ensures r == identifier
    {
      identifier
    }

    /** GetTriggerIdentifier: the trigger id given at construction, whatever happened since. */
    function GetTriggerIdentifier(): (r: Text)
      ensures r == triggerId
    {
      triggerId
    }

    /** AddParameter (both overloads): `key` now maps to `value` and every other key is as it was. */
    method AddParameter(key: Text, value: Text)
      modifies this
      ensures data == Insert(old(data), key, value)
      ensures ToMap(data) == ToMap(old(data))[key := value]
      ensures forall k :: k != key ==> Find(data, k) == Find(old(data), k)
    {
      data := Insert(data, key, value);
    }

    /**
     * ToModuleEvent: an SMAMalloc'd record holding copies of the identifier
     * and the trigger id, and one SMAMalloc'd node per parameter, in key
     * order, each holding copies of its key and value; `params` is null for
     * no parameters and the last node links to null.
     */
    method ToModuleEvent(h: Allocator) returns (event: Ptr)
      requires h.Valid()
      modifies h
      ensures h.Valid() && event == Addr(old(h.next)) && h.next == old(h.next) + 3 + 3 * |data| && h.faults == old(h.faults)
      ensures Grown(old(h.live), h.live, old(h.next), h.next)
      ensures EventLaid(h.live, old(h.next), identifier, triggerId, data, |data|)
    {
      event := NewRecord(h, identifier, triggerId, data);
      var last := Null;
      var i := 0;
      while i < |data|
        invariant 0 <= i <= |data| && h.Valid()
        invariant h.next == event.id + 3 + 3 * i && h.faults == old(h.faults)
        invariant last == if i == 0 then Null else Addr(event.id + 3 * i)
        invariant Grown(old(h.live), h.live, event.id, h.next)
        invariant EventLaid(h.live, event.id, identifier, triggerId, data, i)
      {
        last := AppendLaid(h, event, last, identifier, triggerId, data, i, old(h.live));
        i := i + 1;
      }
    }
  }

  lemma BelowAsymmetricIf(a: Text, b: Text)
    ensures Below(a, b) ==> a != b && !Below(b, a)
  {
    if Below(a, b) {
      BelowAsymmetric(a, b);
      BelowIrreflexive(a);
    }
  }

  /**
   * Impl's operator< orders events strictly and totally by identifier:
   * irreflexive, asymmetric, transitive, and any two events are equal under
   * operator== or ordered one way or the other.
   */
  lemma {:induction false} IdentifierOrder(a: Event, b: Event, c: Event)
    ensures !a.p.IdentifierBelow(a)
    ensures a.p.IdentifierBelow(b) ==> !b.p.IdentifierBelow(a)
    ensures a.p.IdentifierBelow(b) && b.p.IdentifierBelow(c) ==> a.p.IdentifierBelow(c)
    ensures a.p.IdentifierEquals(b) || a.p.IdentifierBelow(b) || b.p.IdentifierBelow(a)
  {
    var x, y, z := a.p.identifier, b.p.identifier, c.p.identifier;
    BelowIrreflexive(x);
    if Below(x, y) {
      BelowAsymmetric(x, y);
      if Below(y, z) { BelowTransitive(x, y, z); }
    }
    BelowTotal(x, y);
  }

  /** Event: a handle on an Impl; its comparisons compare the handles' Impls by address. */
  class Event {
    const p: EventImpl

    constructor (eventId: Text, params: Entries, trigger: Text)
      ensures fresh(p) && p.identifier == eventId && p.triggerId == trigger && p.data == params
    {
      p := new EventImpl(eventId, params, trigger);
    }

    /** operator==: the same Impl; two handles on one Impl agree on the identifier too. */
    predicate Equals(other: Event)
      ensures Equals(other) ==> p.identifier == other.p.identifier
    {
      p == other.p
    }

    /** operator!=: exactly when operator== does not hold. */
    predicate NotEquals(other: Event)
      ensures NotEquals(other) <==> !Equals(other)
    {
      p != other.p
    }

    /** AddParameter, through to the Impl. */
    method AddParameter(key: Text, value: Text)
      modifies p
      ensures p.data == Insert(old(p.data), key, value)
    {
      p.AddParameter(key, value);
    }
  }

  /**
   * Two events made with the same identifier are different events: Event's
   * operator== compares Impl addresses, while the Impl's own operator==,
   * which compares identifiers, holds between them.
   */
  method SameIdentifierDistinct(eventId: Text, params: Entries, trigger1: Text, trigger2: Text)
    returns (a: Event, b: Event)
    ensures a.p.identifier == b.p.identifier == eventId
    ensures !a.Equals(b) && a.NotEquals(b) && a.p.IdentifierEquals(b)
  {
    a := new Event(eventId, params, trigger1);
    b := new Event(eventId, params, trigger2);
  }

  // ---------------------------------------------------------------------
  // Flattening then draining
  // ---------------------------------------------------------------------

  /**
   * ToModuleEvent followed by ConvertEventParamsToMap on its `params`: the
   * map comes back (each key and value up to its first NUL), no release
   * faults, and only the record with its identifier and trigger id is left.
   */
  method FlattenThenDrain(h: Allocator, e: EventImpl) returns (event: Ptr, m: Entries)
    requires h.Valid()
    modifies h
    ensures m == Collect(ParamCopies(e.data))
    ensures EntriesNulFree(e.data) ==> m == e.data
    ensures h.Valid() && event == Addr(old(h.next)) && h.faults == old(h.faults)
    ensures h.live == EventLeft(old(h.live), event.id, e.identifier, e.triggerId, e.data)
  {
    ghost var live0 := h.live;
    event := e.ToModuleEvent(h);
    ghost var built, n := h.live, |e.data|;
    ghost var names, values, nodes := NamePtrs(event.id, n), ValuePtrs(event.id, n), NodePtrs(event.id, n);
    LaidChain(built, event.id, e.identifier, e.triggerId, e.data);
    var params := h.live[event.id].cell.params;
    m := ConvertEventParamsToMap(h, params, names, values, nodes);
    LaidDrain(live0, built, event.id, e.identifier, e.triggerId, e.data);
    if EntriesNulFree(e.data) {
      ParamCopiesOfNulFree(e.data);
      CollectOfEntries(e.data);
    }
  }

  /**
   * The same with ConvertEventParamsToMap as the source has it: the map
   * comes back and no release faults, but every parameter name is still
   * live.
   */
  method FlattenThenDrainAsWritten(h: Allocator, e: EventImpl) returns (event: Ptr, m: Entries)
    requires h.Valid()
    modifies h
    ensures m == Collect(ParamCopies(e.data))
    ensures EntriesNulFree(e.data) ==> m == e.data
    ensures h.Valid() && event == Addr(old(h.next)) && h.faults == old(h.faults)
    ensures forall k :: 0 <= k < |e.data| ==> NamePtrs(event.id, |e.data|)[k].id in h.live
  {
    event := e.ToModuleEvent(h);
    ghost var built, n := h.live, |e.data|;
    ghost var names, values, nodes := NamePtrs(event.id, n), ValuePtrs(event.id, n), NodePtrs(event.id, n);
    LaidChain(built, event.id, e.identifier, e.triggerId, e.data);
    var params := h.live[event.id].cell.params;
    m := ConvertEventParamsToMapAsWritten(h, params, names, values, nodes);
    LaidDrainAsWritten(built, event.id, e.identifier, e.triggerId, e.data);
    if EntriesNulFree(e.data) {
      ParamCopiesOfNulFree(e.data);
      CollectOfEntries(e.data);
    }
  }

  /** Keys and values without NUL come back whole. */
  lemma ParamCopiesOfNulFree(es: seq<Entry>)
    requires EntriesNulFree(es)
    ensures ParamCopies(es) == es
  {
    forall k | 0 <= k < |es| ensures ParamCopies(es)[k] == es[k] {
      UpToNulOfNulFree(es[k].0);
      UpToNulOfNulFree(es[k].1);
    }
  }
}
