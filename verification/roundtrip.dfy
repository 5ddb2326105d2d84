/** Encode-then-decode reproduces the table, provided the framework's key
    and value decoders invert its encoders. */
module RoundTrip {
  import opened Wrappers
  import opened Networks
  import opened Tables
  import opened WireFormat
  import opened Serialize
  import opened Deserialize

  /** Whatever the serializer manages to encode, the codec decodes back. */
  ghost predicate Inverts<V(!new), K, W>(ser: Serializer<V, K, W>, codec: Codec<K, W, V>)
  {
    && (forall n :: ser.key(n).Success? ==> codec.decodeKey(ser.key(n).value) == Success(n))
    && (forall v :: ser.value(v).Success? ==> codec.decodeValue(ser.value(v).value) == Success(v))
  }

  /** In an enumeration the last (indeed the only) occurrence of a prefix
      carries the map's value for it. */
  lemma {:induction false} EnumerationLastValue<V>(m: map<Network, V>, items: seq<(Network, V)>, n: Network)
    requires IsEnumeration(m, items)
    ensures LastValue(items, n) == if n in m then Some(m[n]) else None
    decreases |items|
  {
    if |items| == 0 {
      assert m.Keys == {};
    } else {
      var last := items[|items| - 1];
      if last.0 != n {
        EnumerationInit(m, items);
        EnumerationLastValue(m - {last.0}, items[..|items| - 1], n);
      }
    }
  }

  /** Inserting an enumeration of a table into a fresh table rebuilds it. */
  lemma FoldEnumerationRebuilds<V>(t: Table<V>, items: seq<(Network, V)>)
    requires t.Valid()
    requires IsEnumeration(t.Entries(), items)
    ensures FoldInsert(New(), items) == t
  {
    forall n
      ensures FoldInsert(New(), items).ExactMatch(n) == t.ExactMatch(n)
    {
      FoldInsertLastWins(New(), items, n);
      EnumerationLastValue(t.Entries(), items, n);
    }
    EqualEntries(FoldInsert(New(), items), t);
  }

  /** Decoding the encoding of a table, whatever order `iter` used, gives the
      table back. */
  lemma DecodeInvertsEncode<V(!new), K, W>(t: Table<V>, items: seq<(Network, V)>, ser: Serializer<V, K, W>, codec: Codec<K, W, V>)
    requires t.Valid()
    requires IsEnumeration(t.Entries(), items)
    requires Inverts(ser, codec)
    requires Encode(t, items, ser).Success?
    ensures Decode(Encode(t, items, ser).value, codec) == Success(t)
  {
    var entries := Encode(t, items, ser).value.entries;
    forall i | 0 <= i < |entries|
      ensures DecodeEntry(codec, entries[i]) == Success(items[i])
    {
      assert EncodeEntry(ser, items[i]) == Success(entries[i]);
    }
    TraverseAllSucceed(entries, items, e => DecodeEntry(codec, e));
    FoldEnumerationRebuilds(t, items);
  }

  /** The serializer used by the round-trip test, with prefixes and values
      carried through unchanged. */
  function PlainSerializer(): (ser: Serializer<int, Network, int>)
    ensures forall n :: ser.key(n) == Success(n)
    ensures forall v :: ser.value(v) == Success(v)
    ensures forall h :: ser.open(h) == Pass
    ensures ser.finish == Pass
  {
    Serializer(h => Pass, n => Success(n), v => Success(v), Pass)
  }

  function PlainCodec(): (codec: Codec<Network, int, int>)
    ensures Inverts(PlainSerializer(), codec)
  {
    Codec(k => Success(k), w => Success(w))
  }

  /** The four prefixes of the round-trip test. */
  const Loopback1: Network := V4(0x7F00_0001, 32)            // 127.0.0.1/32
  const Doc: Network := V6(0x2001_0db8_0000_0000_0000_0000_0000_0000, 32)  // 2001:db8::/32
  const Loopback2: Network := V4(0x7F00_0002, 32)            // 127.0.0.2/32
  const LoopbackNet: Network := V4(0x7F00_0000, 8)           // 127.0.0.0/8

  /** The test's entries. */
  const TestEntries: map<Network, int> := map[Loopback1 := 1, Doc := 2, Loopback2 := 3, LoopbackNet := 4]

  /** The table of the round-trip test, one map per family. */
  const TestTable: Table<int> := Table(map[Loopback1 := 1, Loopback2 := 3, LoopbackNet := 4], map[Doc := 2])

  /** The test builds its table by four insertions into a fresh table; the
      result is `TestTable`, which holds the four entries. */
  lemma TestTableByInsertion()
    ensures New().Insert(Loopback1, 1).0.Insert(Doc, 2).0.Insert(Loopback2, 3).0.Insert(LoopbackNet, 4).0 == TestTable
  {
  }

  /** The test's table is valid, holds the four entries, and in it
      127.0.0.0/8 holds 4 and 2001:db8::/32 holds 2. */
  lemma TestTableContents()
    ensures TestTable.Valid()
    ensures TestTable.Entries() == TestEntries
    ensures TestTable.Len() == (3, 1)
    ensures TestTable.ExactMatch(LoopbackNet) == Some(4)
    ensures TestTable.ExactMatch(Doc) == Some(2)
  {
    TestTableFamilies();
    TestTableSizes();
    assert TestTable.Entries() == TestEntries by {
      assert TestTable.Entries().Keys == TestEntries.Keys;
    }
  }

  /** Each of the test's prefixes sits in its own family's part. */
  lemma TestTableFamilies()
    ensures TestTable.v4.Keys == {Loopback1, Loopback2, LoopbackNet}
    ensures TestTable.v6.Keys == {Doc}
    ensures TestTable.Valid()
  {
  }

  /** The test's table holds three IPv4 prefixes and one IPv6 prefix. */
  lemma TestTableSizes()
    ensures TestTable.Len() == (3, 1)
  {
    assert Loopback1 != Loopback2 && Loopback1 != LoopbackNet && Loopback2 != LoopbackNet;
    assert |TestTable.v4.Keys| == |{Loopback1, Loopback2, LoopbackNet}| == 3;
    assert |TestTable.v6.Keys| == |{Doc}| == 1;
  }

  /** The pass-through serializer encodes every table in every order. */
  lemma PlainSerializerEncodes(t: Table<int>, items: seq<(Network, int)>)
    ensures Encode(t, items, PlainSerializer()).Success?
  {
    var ser := PlainSerializer();
    forall i | 0 <= i < |items|
      ensures EncodeEntry(ser, items[i]).Success?
    {
      assert ser.key(items[i].0).Success? && ser.value(items[i].1).Success?;
    }
  }

  /** A table with three IPv4 and one IPv6 entries encodes under the
      pass-through serializer with a size hint of four. */
  lemma FourEntrySizeHint(t: Table<int>, items: seq<(Network, int)>)
    requires t.Valid() && t.Len() == (3, 1)
    ensures Encode(t, items, PlainSerializer()).Success?
    ensures Encode(t, items, PlainSerializer()).value.sizeHint == Some(4)
  {
    PlainSerializerEncodes(t, items);
  }

  /** Iterated in any order that lists each of its entries once, such a table
      encodes to exactly four entries. */
  lemma FourEntryCount(t: Table<int>, items: seq<(Network, int)>)
    requires t.Valid() && t.Len() == (3, 1)
    requires IsEnumeration(t.Entries(), items)
    ensures Encode(t, items, PlainSerializer()).Success?
    ensures |Encode(t, items, PlainSerializer()).value.entries| == 4
  {
    PlainSerializerEncodes(t, items);
    EmittedCountMatchesSizeHint(t, items, PlainSerializer());
  }

  /** Under the pass-through serializer and codec, every valid table
      iterated in any order that lists each entry once makes the round trip. */
  lemma PlainRoundTrip(t: Table<int>, items: seq<(Network, int)>)
    requires t.Valid()
    requires IsEnumeration(t.Entries(), items)
    ensures Encode(t, items, PlainSerializer()).Success?
    ensures Decode(Encode(t, items, PlainSerializer()).value, PlainCodec()) == Success(t)
  {
    PlainSerializerEncodes(t, items);
    DecodeInvertsEncode(t, items, PlainSerializer(), PlainCodec());
  }

  /** The round-trip test: the table built by the test's four insertions
      (`TestTable`, by `TestTableByInsertion`) decodes back from its encoding
      to an equal table, in which 127.0.0.0/8 holds 4 and 2001:db8::/32
      holds 2. The iteration order is left open: `items` is any listing of
      the four entries, each once. */
  lemma TestSerde(t: Table<int>, items: seq<(Network, int)>)
    requires t == TestTable
    requires IsEnumeration(t.Entries(), items)
    ensures Encode(t, items, PlainSerializer()).Success?
    ensures Decode(Encode(t, items, PlainSerializer()).value, PlainCodec()) == Success(t)
    ensures t.ExactMatch(LoopbackNet) == Some(4)
    ensures t.ExactMatch(Doc) == Some(2)
  {
    TestTableContents();
    PlainRoundTrip(t, items);
  }

  /** The test's encoding, in any such order, is a map of four entries with a
      size hint of four. */
  lemma TestSerdeEncoding(t: Table<int>, items: seq<(Network, int)>)
    requires t == TestTable
    requires IsEnumeration(t.Entries(), items)
    ensures Encode(t, items, PlainSerializer()).Success?
    ensures Encode(t, items, PlainSerializer()).value.sizeHint == Some(4)
    ensures |Encode(t, items, PlainSerializer()).value.entries| == 4
  {
    TestTableContents();
    FourEntrySizeHint(t, items);
    FourEntryCount(t, items);
  }

  /** The empty table encodes to an empty map with a zero size hint, which
      decodes to an empty table; so does a unit input. */
  lemma EmptyRoundTrip<K, W, V>(ser: Serializer<V, K, W>, codec: Codec<K, W, V>)
    requires ser.open(Some(0)).Pass? && ser.finish.Pass?
    ensures Encode(New(), [], ser) == Success(Map(Some(0), []))
    ensures Decode(Map(Some(0), []), codec) == Success(New())
    ensures Decode(Unit, codec) == Success(New())
  {
  }
}
