/** The prefix table as the serialization adapter sees it: one map per
    address family, with at most one value per exact prefix. Its trie
    storage and longest-prefix matching are not part of this model; only the
    operations the adapter calls are: `new`, `insert`, `len`, and the
    contents that `iter` enumerates. */
module Tables {
  import opened Wrappers
  import opened Networks

  datatype Table<V> = Table(v4: map<Network, V>, v6: map<Network, V>)
  {
    /** Every prefix sits in the part of its own address family. */
    predicate Valid()
    {
      && (forall n :: n in v4 ==> n.V4?)
      && (forall n :: n in v6 ==> n.V6?)
    }

    /** The per-family entry counts, `(len_ipv4, len_ipv6)`. */
    function Len(): (nat, nat)
    {
      (|v4|, |v6|)
    }

    /** All entries of both families, as one map. */
    function Entries(): map<Network, V>
    {
      v4 + v6
    }

    /** The value stored under exactly this prefix, if any. */
    function ExactMatch(n: Network): Option<V>
    {
      if n in Entries() then Some(Entries()[n]) else None
    }

    /** Stores `v` under `n` and hands back the value it replaced. */
    function Insert(n: Network, v: V): (r: (Table<V>, Option<V>))
      requires Valid()
      ensures r.0.Valid()
      ensures r.1 == ExactMatch(n)
      ensures r.0.Entries() == Entries()[n := v]
      ensures r.0.ExactMatch(n) == Some(v)
      ensures forall m :: m != n ==> r.0.ExactMatch(m) == ExactMatch(m)
    {
      var previous := ExactMatch(n);
      if n.V4? then (Table(v4[n := v], v6), previous)
      else (Table(v4, v6[n := v]), previous)
    }
  }

  /** A fresh table with no entries in either family. */
  function New<V>(): (t: Table<V>)
    ensures t.Valid()
    ensures t.Len() == (0, 0)
    ensures forall n :: t.ExactMatch(n) == None
  {
    Table(map[], map[])
  }

  /** The two families never share a key, so the counts add up to the whole. */
  lemma LenIsEntryCount<V>(t: Table<V>)
    requires t.Valid()
    ensures |t.Entries()| == t.Len().0 + t.Len().1
  {
  }

  /** A valid table is determined by its entries. */
  lemma EqualEntries<V>(a: Table<V>, b: Table<V>)
    requires a.Valid() && b.Valid()
    requires forall n :: a.ExactMatch(n) == b.ExactMatch(n)
    ensures a == b
  {
    forall n
      ensures n in a.v4 <==> n in b.v4
      ensures n in a.v4 ==> a.v4[n] == b.v4[n]
      ensures n in a.v6 <==> n in b.v6
      ensures n in a.v6 ==> a.v6[n] == b.v6[n]
    {
      assert a.ExactMatch(n) == b.ExactMatch(n);
    }
    assert a.v4 == b.v4;
    assert a.v6 == b.v6;
  }

  /** A table in which exactly one prefix has a value holds one entry. */
  lemma SingleEntry<V>(t: Table<V>, n: Network, v: V)
    requires forall m :: t.ExactMatch(m) == if m == n then Some(v) else None
    ensures t.Entries() == map[n := v]
  {
    forall m ensures m in t.Entries() <==> m == n {
      assert t.ExactMatch(m) == if m == n then Some(v) else None;
    }
    assert t.ExactMatch(n) == Some(v);
  }

  /** `items` lists every entry of `m` exactly once, in some order: what the
      table's iterator yields. */
  ghost predicate IsEnumeration<V>(m: map<Network, V>, items: seq<(Network, V)>)
  {
    && (forall i :: 0 <= i < |items| ==> items[i].0 in m && m[items[i].0] == items[i].1)
    && (forall n :: n in m ==> exists i :: 0 <= i < |items| && items[i].0 == n)
    && (forall i, j :: 0 <= i < j < |items| ==> items[i].0 != items[j].0)
  }

  /** Dropping the last item of an enumeration enumerates the map without its key. */
  lemma EnumerationInit<V>(m: map<Network, V>, items: seq<(Network, V)>)
    requires IsEnumeration(m, items)
    requires |items| > 0
    ensures IsEnumeration(m - {items[|items| - 1].0}, items[..|items| - 1])
  {
  }

  /** An enumeration has exactly as many items as the map has entries. */
  lemma {:induction false} EnumerationLength<V>(m: map<Network, V>, items: seq<(Network, V)>)
    requires IsEnumeration(m, items)
    ensures |items| == |m|
    decreases |items|
  {
    if |items| == 0 {
      assert m.Keys == {};
    } else {
      var last := items[|items| - 1].0;
      EnumerationInit(m, items);
      EnumerationLength(m - {last}, items[..|items| - 1]);
      assert (m - {last}).Keys == m.Keys - {last};
    }
  }

  /** Appending a key's entry to an enumeration of the map without that key
      enumerates the whole map. */
  lemma EnumerationSnoc<V>(m: map<Network, V>, rest: seq<(Network, V)>, n: Network)
    requires n in m
    requires IsEnumeration(m - {n}, rest)
    ensures IsEnumeration(m, rest + [(n, m[n])])
  {
    var items := rest + [(n, m[n])];
    assert forall i :: 0 <= i < |rest| ==> items[i] == rest[i];
    forall k | k in m
      ensures exists i :: 0 <= i < |items| && items[i].0 == k
    {
      if k == n {
        assert items[|rest|].0 == k;
      } else {
        assert k in m - {n};
        var i :| 0 <= i < |rest| && rest[i].0 == k;
        assert items[i].0 == k;
      }
    }
  }

  /** Every finite map has an enumeration, so the premise the encoder's lemmas
      put on `iter` can always be met. */
  lemma {:induction false} EnumerationExists<V>(m: map<Network, V>) returns (items: seq<(Network, V)>)
    ensures IsEnumeration(m, items)
    decreases |m|
  {
    if m == map[] {
      items := [];
    } else {
      var n :| n in m;
      assert (m - {n}).Keys == m.Keys - {n};
      var rest := EnumerationExists(m - {n});
      EnumerationSnoc(m, rest, n);
      items := rest + [(n, m[n])];
    }
  }
}
