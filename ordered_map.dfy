/**
 * QMap<QString, QString>: unique keys kept in ascending key order. The key
 * order is the byte order `Below` on the keys' UTF-8 encodings.
 */
module OrderedMap {
  import opened Bytes

  datatype Option<T> = None | Some(value: T)

  type Entry = (Text, Text)

  /** Keys strictly ascending, hence unique. */
  predicate Ascending(es: seq<Entry>)
  {
    forall i, j :: 0 <= i < j < |es| ==> Below(es[i].0, es[j].0)
  }

  /** The contents of a QMap, in iteration order. */
  type Entries = es: seq<Entry> | Ascending(es)

  /** The key -> value mapping a sequence of entries denotes. */
  function ToMap(es: seq<Entry>): map<Text, Text>
  {
    if es == [] then map[] else ToMap(es[1..])[es[0].0 := es[0].1]
  }

  /** Lookup by key (QMap::find): the stored value, or none when the key is absent. */
  function Find(es: seq<Entry>, key: Text): (r: Option<Text>)
    ensures r == if key in ToMap(es) then Some(ToMap(es)[key]) else None
  {
    if es == [] then None
    else if es[0].0 == key then Some(es[0].1)
    else Find(es[1..], key)
  }

  /**
   * QMap::insert / operator[] assignment: `key` maps to `value` afterwards,
   * an existing value for `key` is overwritten, and the order is kept.
   */
  function Insert(es: Entries, key: Text, value: Text): (r: Entries)
    ensures ToMap(r) == ToMap(es)[key := value]
    ensures forall i :: 0 <= i < |r| ==> r[i] == (key, value) || r[i] in es
    decreases |es|
  {
    if es == [] then [(key, value)]
    else if es[0].0 == key then
      assert es[1..] == es[1..];
      [(key, value)] + es[1..]
    else if Below(key, es[0].0) then
      PrependAscending(es, key, value);
      [(key, value)] + es
    else
      var tail := Insert(es[1..], key, value);
      ConsAscending(es, tail, key, value);
      var r := [es[0]] + tail;
      assert r[1..] == tail;
      r
  }

  /** A key below the first key of an ascending sequence may go in front of it. */
  lemma PrependAscending(es: Entries, key: Text, value: Text)
    requires es != [] && Below(key, es[0].0)
    ensures Ascending([(key, value)] + es)
  {
    var r := [(key, value)] + es;
    forall i, j | 0 <= i < j < |r| ensures Below(r[i].0, r[j].0) {
      if i == 0 && j > 1 { BelowTransitive(key, es[0].0, es[j - 1].0); }
    }
  }

  /**
   * The first entry of an ascending sequence stays in front of a tail made
   * of later entries and a key above it.
   */
  lemma ConsAscending(es: Entries, tail: Entries, key: Text, value: Text)
    requires es != [] && es[0].0 != key && !Below(key, es[0].0)
    requires forall i :: 0 <= i < |tail| ==> tail[i] == (key, value) || tail[i] in es[1..]
    ensures Ascending([es[0]] + tail)
  {
    var r := [es[0]] + tail;
    BelowTotal(key, es[0].0);
    forall i, j | 0 <= i < j < |r| ensures Below(r[i].0, r[j].0) {
      if i == 0 {
        assert r[j] == tail[j - 1];
        if tail[j - 1] != (key, value) {
          var k :| 1 <= k < |es| && es[k] == tail[j - 1];
        }
      }
    }
  }

  /** No pair after position `i` has the key of pair `i`. */
  predicate LastFor(pairs: seq<Entry>, i: int)
    requires 0 <= i < |pairs|
  {
    forall j :: i < j < |pairs| ==> pairs[j].0 != pairs[i].0
  }

  /**
   * The map built by inserting `pairs` one after another into an empty QMap.
   */
  function Collect(pairs: seq<Entry>): Entries
  {
    if pairs == [] then []
    else
      var last := pairs[|pairs| - 1];
      Insert(Collect(pairs[..|pairs| - 1]), last.0, last.1)
  }

  /** One more pair is one more insertion. */
  lemma CollectStep(pairs: seq<Entry>, k: nat)
    requires k < |pairs|
    ensures Collect(pairs[..k + 1]) == Insert(Collect(pairs[..k]), pairs[k].0, pairs[k].1)
  {
    assert pairs[..k + 1][..k] == pairs[..k];
  }

  /** Collect keeps exactly the distinct keys of `pairs`. */
  lemma {:induction false} CollectKeys(pairs: seq<Entry>)
    ensures forall k :: k in ToMap(Collect(pairs)) <==> exists i :: 0 <= i < |pairs| && pairs[i].0 == k
  {
    if pairs != [] {
      var init, last := pairs[..|pairs| - 1], pairs[|pairs| - 1];
      CollectKeys(init);
      var before, m := ToMap(Collect(init)), ToMap(Collect(pairs));
      assert m == before[last.0 := last.1];
      forall k ensures k in m <==> exists i :: 0 <= i < |pairs| && pairs[i].0 == k {
        if k == last.0 {
          assert pairs[|pairs| - 1].0 == k;
        } else if k in before {
          var i :| 0 <= i < |init| && init[i].0 == k;
          assert pairs[i].0 == k;
        } else {
          forall i | 0 <= i < |pairs| ensures pairs[i].0 != k {
            if i < |init| { assert init[i] == pairs[i]; }
          }
        }
      }
    }
  }

  /** In Collect, the value of the last pair with a given key wins. */
  lemma {:induction false} CollectLastWins(pairs: seq<Entry>, i: nat)
    requires i < |pairs| && LastFor(pairs, i)
    ensures pairs[i].0 in ToMap(Collect(pairs)) && ToMap(Collect(pairs))[pairs[i].0] == pairs[i].1
  {
    var init, last := pairs[..|pairs| - 1], pairs[|pairs| - 1];
    assert ToMap(Collect(pairs)) == ToMap(Collect(init))[last.0 := last.1];
    if i < |init| {
      assert init[i] == pairs[i];
      assert LastFor(init, i) by {
        forall j | i < j < |init| ensures init[j].0 != init[i].0 { assert init[j] == pairs[j]; }
      }
      CollectLastWins(init, i);
    }
  }

  /** Inserting a key above every present key appends it. */
  lemma {:induction false} InsertAbove(es: Entries, key: Text, value: Text)
    requires forall i :: 0 <= i < |es| ==> Below(es[i].0, key)
    ensures Insert(es, key, value) == es + [(key, value)]
  {
    if es != [] {
      BelowAsymmetric(es[0].0, key);
      BelowIrreflexive(key);
      assert es[0].0 != key && !Below(key, es[0].0);
      var rest: Entries := es[1..];
      assert forall i :: 0 <= i < |rest| ==> Below(rest[i].0, key) by {
        forall i | 0 <= i < |rest| ensures Below(rest[i].0, key) { assert rest[i] == es[i + 1]; }
      }
      InsertAbove(rest, key, value);
      assert Insert(es, key, value) == [es[0]] + Insert(rest, key, value);
      assert [es[0]] + (rest + [(key, value)]) == es + [(key, value)];
    }
  }

  /** Re-inserting the entries of a QMap in iteration order rebuilds it exactly. */
  lemma {:induction false} CollectOfEntries(es: Entries)
    ensures Collect(es) == es
  {
    if es != [] {
      var init := es[..|es| - 1];
      CollectOfEntries(init);
      InsertAbove(init, es[|es| - 1].0, es[|es| - 1].1);
      assert init + [es[|es| - 1]] == es;
    }
  }
}
