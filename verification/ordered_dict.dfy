/** A Python `dict` keyed by stack positions, with its insertion order, and the
    scan-and-store fold both index builders of the tool perform. */
module OrderedDict {
  import opened Wrappers
  import opened Sorting

  /** `order` lists the keys in insertion order; `entries` holds the values. */
  datatype Dict<V> = Dict(order: seq<nat>, entries: map<nat, V>) {

    /** Every key is listed exactly once. */
    ghost predicate Valid() {
      && Distinct(order)
      && (forall k :: k in entries <==> k in order)
    }

    /** `d[k] = v`: an overwritten key keeps its place, a new key goes last. */
    function Put(k: nat, v: V): (d: Dict<V>)
      requires Valid()
      ensures d.Valid()
      ensures d.entries == entries[k := v]
      ensures k in entries ==> d.order == order
      ensures k !in entries ==> d.order == order + [k]
    {
      if k in entries then Dict(order, entries[k := v]) else Dict(order + [k], entries[k := v])
    }

    /** `d.values()`, in insertion order. */
    function Values(): (vs: seq<V>)
      requires Valid()
      ensures |vs| == |order|
      ensures forall i :: 0 <= i < |vs| ==> vs[i] == entries[order[i]]
    {
      seq(|order|, i requires 0 <= i < |order| => entries[order[i]])
    }
  }

  function Empty<V>(): (d: Dict<V>)
    ensures d.Valid() && d.entries == map[]
  {
    Dict([], map[])
  }

  /** The values listed by `Values` are exactly the stored values. */
  lemma ValuesAreStored<V>(d: Dict<V>)
    requires d.Valid()
    ensures forall v :: v in d.Values() <==> v in d.entries.Values
  {
    var vs := d.Values();
    forall v | v in d.entries.Values
      ensures v in vs
    {
      var k :| k in d.entries && d.entries[k] == v;
      var i :| 0 <= i < |d.order| && d.order[i] == k;
      assert vs[i] == v;
    }
  }

  /** A dict that stores no value under two keys lists no value twice. */
  lemma ValuesDistinct<V>(d: Dict<V>)
    requires d.Valid()
    requires forall k1, k2 :: k1 in d.entries && k2 in d.entries && d.entries[k1] == d.entries[k2] ==> k1 == k2
    ensures forall i, j :: 0 <= i < j < |d.Values()| ==> d.Values()[i] != d.Values()[j]
  {
    var vs := d.Values();
    forall i, j | 0 <= i < j < |vs|
      ensures vs[i] != vs[j]
    {
      assert d.order[i] != d.order[j];
    }
  }

  /** One scanned item: the item, and the position its pattern yielded, if any. */
  datatype Entry<T> = Entry(key: Option<nat>, value: T)

  /** Some entry of `es` is stored under position `k`. */
  ghost predicate Occurs<T>(es: seq<Entry<T>>, k: nat) {
    exists i :: 0 <= i < |es| && es[i].key == Some(k)
  }

  /** Entry `i` of `es` has a position and no later entry has the same one. */
  ghost predicate LastWith<T>(es: seq<Entry<T>>, i: int) {
    && 0 <= i < |es|
    && es[i].key.Some?
    && forall j :: i < j < |es| ==> es[j].key != es[i].key
  }

  /** The facts `Index` promises about the dict built from `es`. */
  ghost predicate Indexes<T>(d: Dict<T>, es: seq<Entry<T>>) {
    && d.Valid()
    && (forall k :: k in d.entries <==> Occurs(es, k))
    && (forall k :: k in d.entries ==> Entry(Some(k), d.entries[k]) in es)
    && (forall i :: LastWith(es, i) ==>
          es[i].key.value in d.entries && d.entries[es[i].key.value] == es[i].value)
  }

  /** One pass of the loop body `if match: d[position] = item`. */
  function Store<T>(d: Dict<T>, e: Entry<T>): Dict<T>
    requires d.Valid()
  {
    match e.key
    case None => d
    case Some(k) => d.Put(k, e.value)
  }

  /** The loop `for item in items: if match: d[position] = item` over an
      empty dict. The keys are the positions that occur; each value is the
      last item carrying its key; a duplicate overwrites silently. */
  function Index<T>(es: seq<Entry<T>>): (d: Dict<T>)
    ensures d.Valid()
    ensures forall k :: k in d.entries <==> Occurs(es, k)
    ensures forall k :: k in d.entries ==> Entry(Some(k), d.entries[k]) in es
    ensures forall i :: LastWith(es, i) ==>
              es[i].key.value in d.entries && d.entries[es[i].key.value] == es[i].value
    decreases |es|
  {
    if es == [] then Empty()
    else
      var p := es[..|es| - 1];
      var e := es[|es| - 1];
      var prev := Index(p);
      assert es == p + [e];
      IndexStep(p, e, prev);
      Store(prev, e)
  }

  /** One iteration of the loop keeps the facts `Index` promises. */
  lemma IndexStep<T>(p: seq<Entry<T>>, e: Entry<T>, prev: Dict<T>)
    requires Indexes(prev, p)
    ensures Indexes(Store(prev, e), p + [e])
  {
    var es := p + [e];
    var d := Store(prev, e);
    forall k
      ensures k in d.entries <==> Occurs(es, k)
    {
      if Occurs(es, k) {
        var i :| 0 <= i < |es| && es[i].key == Some(k);
        if i < |p| {
          assert es[i] == p[i];
        }
      }
      if Occurs(p, k) {
        var i :| 0 <= i < |p| && p[i].key == Some(k);
        assert es[i] == p[i];
      }
      if e.key == Some(k) {
        assert es[|p|] == e;
      }
    }
    forall k | k in d.entries
      ensures Entry(Some(k), d.entries[k]) in es
    {
      if e.key != Some(k) {
        assert Entry(Some(k), prev.entries[k]) in p;
      }
    }
    forall i | LastWith(es, i)
      ensures es[i].key.value in d.entries && d.entries[es[i].key.value] == es[i].value
    {
      if i < |p| {
        assert es[i] == p[i];
        assert e.key != es[i].key by {
          assert es[|p|] == e;
        }
        assert forall j :: i < j < |p| ==> p[j] == es[j];
        assert LastWith(p, i);
      }
    }
  }

  /** Position `a` is found in `es` before position `b` is. */
  ghost predicate FirstBefore<T>(es: seq<Entry<T>>, a: nat, b: nat) {
    exists i :: 0 <= i < |es| && es[i].key == Some(a) && forall j :: 0 <= j <= i ==> es[j].key != Some(b)
  }

  /** `d` lists its keys in the order their first entries appear in `es`. */
  ghost predicate InScanOrder<T>(d: Dict<T>, es: seq<Entry<T>>) {
    forall a, b :: 0 <= a < b < |d.order| ==> FirstBefore(es, d.order[a], d.order[b])
  }

  /** `Index` lists its keys in the order their first entries were scanned:
      an overwrite does not move a key. This is the order `d.values()` and
      hence the push follow. */
  lemma {:induction false} IndexOrder<T>(es: seq<Entry<T>>)
    ensures InScanOrder(Index(es), es)
  {
    if es != [] {
      var p := es[..|es| - 1];
      var e := es[|es| - 1];
      var prev := Index(p);
      assert Index(es) == Store(prev, e);
      assert es == p + [e];
      IndexOrder(p);
      OrderStep(p, e, prev);
    }
  }

  /** One iteration of the loop keeps keys in first-scanned order. */
  lemma OrderStep<T>(p: seq<Entry<T>>, e: Entry<T>, prev: Dict<T>)
    requires Indexes(prev, p)
    requires InScanOrder(prev, p)
    ensures InScanOrder(Store(prev, e), p + [e])
  {
    var d := Store(prev, e);
    forall a, b | 0 <= a < b < |d.order|
      ensures FirstBefore(p + [e], d.order[a], d.order[b])
    {
      if b < |prev.order| {
        assert d.order[a] == prev.order[a] && d.order[b] == prev.order[b];
        FirstBeforeExtends(p, e, prev.order[a], prev.order[b]);
      } else {
        var k := e.key.value;
        assert d.order[b] == k && k !in prev.entries;
        assert prev.order[a] in prev.entries;
        FirstBeforeNew(p, e, prev.order[a], k);
      }
    }
  }

  lemma FirstBeforeExtends<T>(p: seq<Entry<T>>, e: Entry<T>, a: nat, b: nat)
    requires FirstBefore(p, a, b)
    ensures FirstBefore(p + [e], a, b)
  {
    var i :| 0 <= i < |p| && p[i].key == Some(a) && forall j :: 0 <= j <= i ==> p[j].key != Some(b);
    var es := p + [e];
    assert forall j :: 0 <= j <= i ==> es[j] == p[j];
    assert es[i].key == Some(a);
  }

  lemma FirstBeforeNew<T>(p: seq<Entry<T>>, e: Entry<T>, a: nat, b: nat)
    requires Occurs(p, a) && !Occurs(p, b)
    ensures FirstBefore(p + [e], a, b)
  {
    var i :| 0 <= i < |p| && p[i].key == Some(a);
    var es := p + [e];
    assert forall j :: 0 <= j <= i ==> es[j] == p[j];
    assert es[i].key == Some(a);
  }
}
