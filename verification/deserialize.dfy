/** The decoder: `IpNetworkTableVisitor` and `Deserialize for
    IpNetworkTable<T>`. The framework reports the shape of the input; a unit
    becomes a fresh empty table, and a map becomes a fresh table filled by
    inserting every decoded pair in order, so that a later duplicate prefix
    overwrites an earlier one. Any key or value that fails to decode fails
    the whole decode, and no table is returned. */
module Deserialize {
  import opened Wrappers
  import opened Networks
  import opened Tables
  import opened WireFormat

  /** The per-entry decoders the framework supplies: one for the prefix and
      one for the value type. */
  datatype Codec<!K, !W, V> = Codec(
    decodeKey: K -> Result<Network, Error>,
    decodeValue: W -> Result<V, Error>)

  /** One `next_entry` step: the key is decoded before the value. */
  function DecodeEntry<K, W, V>(codec: Codec<K, W, V>, entry: (K, W)): (r: Result<(Network, V), Error>)
    ensures r.Success? <==> codec.decodeKey(entry.0).Success? && codec.decodeValue(entry.1).Success?
    ensures r.Success? ==> r.value == (codec.decodeKey(entry.0).value, codec.decodeValue(entry.1).value)
    ensures codec.decodeKey(entry.0).Failure? ==> r == Failure(codec.decodeKey(entry.0).error)
    ensures codec.decodeKey(entry.0).Success? && codec.decodeValue(entry.1).Failure? ==>
              r == Failure(codec.decodeValue(entry.1).error)
  {
    match codec.decodeKey(entry.0)
    case Failure(e) => Failure(e)
    case Success(n) =>
      match codec.decodeValue(entry.1)
      case Failure(e) => Failure(e)
      case Success(v) => Success((n, v))
  }

  /** Inserting each pair in turn, discarding the replaced values: a left
      fold of `insert`, written by recursion on the last pair. */
  function FoldInsert<V>(t: Table<V>, pairs: seq<(Network, V)>): (r: Table<V>)
    requires t.Valid()
    ensures r.Valid()
  {
    if |pairs| == 0 then t
    else
      var last := pairs[|pairs| - 1];
      FoldInsert(t, pairs[..|pairs| - 1]).Insert(last.0, last.1).0
  }

  /** The value paired with the last occurrence of `n` in `pairs`, if any. */
  function LastValue<V>(pairs: seq<(Network, V)>, n: Network): Option<V>
  {
    if |pairs| == 0 then None
    else if pairs[|pairs| - 1].0 == n then Some(pairs[|pairs| - 1].1)
    else LastValue(pairs[..|pairs| - 1], n)
  }

  /** `LastValue` read by position: `n` holds `v` iff some pair `(n, v)` is
      followed by no other pair on `n`. */
  lemma {:induction false} LastValueSpec<V>(pairs: seq<(Network, V)>, n: Network, v: V)
    ensures LastValue(pairs, n) == Some(v) <==>
              exists i :: 0 <= i < |pairs| && pairs[i] == (n, v)
                          && forall j :: i < j < |pairs| ==> pairs[j].0 != n
  {
    if |pairs| > 0 {
      var init := pairs[..|pairs| - 1];
      var last := pairs[|pairs| - 1];
      LastValueSpec(init, n, v);
      if last.0 == n {
        if LastValue(pairs, n) == Some(v) {
          assert pairs[|pairs| - 1] == (n, v);
        } else {
          forall i | 0 <= i < |pairs| && pairs[i] == (n, v)
            ensures exists j :: i < j < |pairs| && pairs[j].0 == n
          {
            assert i != |pairs| - 1;
            assert pairs[|pairs| - 1].0 == n;
          }
        }
      } else {
        if LastValue(pairs, n) == Some(v) {
          var i :| 0 <= i < |init| && init[i] == (n, v)
                   && forall j :: i < j < |init| ==> init[j].0 != n;
          assert pairs[i] == (n, v);
          assert forall j :: i < j < |pairs| ==> pairs[j].0 != n by {
            forall j | i < j < |pairs| ensures pairs[j].0 != n {
              if j < |init| { assert pairs[j] == init[j]; }
            }
          }
        } else {
          forall i | 0 <= i < |pairs| && pairs[i] == (n, v)
            ensures exists j :: i < j < |pairs| && pairs[j].0 == n
          {
            assert i < |init| && init[i] == (n, v);
            var j :| i < j < |init| && init[j].0 == n;
            assert pairs[j] == init[j];
          }
        }
      }
    }
  }

  /** The fold takes one more pair by one more `insert`. */
  lemma FoldInsertSnoc<V>(t: Table<V>, pairs: seq<(Network, V)>, n: Network, v: V)
    requires t.Valid()
    ensures FoldInsert(t, pairs + [(n, v)]) == FoldInsert(t, pairs).Insert(n, v).0
  {
    assert (pairs + [(n, v)])[..|pairs|] == pairs;
  }

  /** Last write wins: after the fold, each prefix holds the value of its last
      occurrence among the pairs, and prefixes that do not occur keep their
      value from the starting table. */
  lemma {:induction false} FoldInsertLastWins<V>(t: Table<V>, pairs: seq<(Network, V)>, n: Network)
    requires t.Valid()
    ensures FoldInsert(t, pairs).ExactMatch(n) ==
              if LastValue(pairs, n).Some? then LastValue(pairs, n) else t.ExactMatch(n)
  {
    if |pairs| > 0 {
      FoldInsertLastWins(t, pairs[..|pairs| - 1], n);
    }
  }

  /** `visit_unit`: a fresh table with no entries. */
  function VisitUnit<V>(): (r: Result<Table<V>, Error>)
    ensures r.Success? && r.value.Valid()
    ensures r.value.Len() == (0, 0)
    ensures forall n :: r.value.ExactMatch(n) == None
  {
    Success(New())
  }

  /** `visit_map`, stated as collect-then-build: decode every entry, and only
      if all succeed fold them into a fresh table. */
  function DecodeMap<K, W, V>(entries: seq<(K, W)>, codec: Codec<K, W, V>): (r: Result<Table<V>, Error>)
    ensures r.Success? <==> forall i :: 0 <= i < |entries| ==> DecodeEntry(codec, entries[i]).Success?
    ensures r.Failure? ==>
              exists i :: FirstFailureAt(entries, e => DecodeEntry(codec, e), i)
                          && r.error == DecodeEntry(codec, entries[i]).error
    ensures r.Success? ==> r.value.Valid()
  {
    TraverseSpec(entries, e => DecodeEntry(codec, e));
    match Traverse(entries, e => DecodeEntry(codec, e))
    case Failure(e) => Failure(e)
    case Success(pairs) => Success(FoldInsert(New(), pairs))
  }

  /** `deserialize`: dispatch on the shape the framework found. */
  function Decode<K, W, V>(wire: Wire<K, W>, codec: Codec<K, W, V>): (r: Result<Table<V>, Error>)
    ensures r.Success? ==> r.value.Valid()
    ensures wire.Unit? ==> r.Success? && r.value.Len() == (0, 0)
    ensures wire.Unexpected? ==> r == Failure(InvalidType)
    ensures wire.Map? ==>
              (r.Success? <==> forall i :: 0 <= i < |wire.entries| ==> DecodeEntry(codec, wire.entries[i]).Success?)
  {
    match wire
    case Unit => VisitUnit()
    case Map(_, entries) => DecodeMap(entries, codec)
    case Unexpected => Failure(InvalidType)
  }

  /** `visit_map` as written: inserts each pair into a local table as soon as
      it is decoded and returns at the first error. The half-built table is
      dropped on that path, so the outcome is exactly the collect-then-build
      `DecodeMap`. */
  method VisitMap<K, W, V>(entries: seq<(K, W)>, codec: Codec<K, W, V>) returns (r: Result<Table<V>, Error>)
    ensures r == DecodeMap(entries, codec)
  {
    var table: Table<V> := New();
    ghost var pairs: seq<(Network, V)> := [];
    for i := 0 to |entries|
      invariant Traverse(entries[..i], e => DecodeEntry(codec, e)) == Success(pairs)
      invariant table == FoldInsert(New(), pairs)
    {
      var next := DecodeEntry(codec, entries[i]);
      VisitStep(entries, codec, i, pairs);
      if next.Failure? {
        return Failure(next.error);
      }
      var (key, value) := next.value;
      var (updated, _) := table.Insert(key, value);
      FoldInsertSnoc(New(), pairs, key, value);
      table := updated;
      pairs := pairs + [(key, value)];
    }
    VisitEnd(entries, codec, pairs);
    r := Success(table);
  }

  /** After the last round of `visit_map`, the table built so far is the decode. */
  lemma VisitEnd<K, W, V>(entries: seq<(K, W)>, codec: Codec<K, W, V>, pairs: seq<(Network, V)>)
    requires Traverse(entries[..|entries|], e => DecodeEntry(codec, e)) == Success(pairs)
    ensures DecodeMap(entries, codec) == Success(FoldInsert(New(), pairs))
  {
    assert entries[..|entries|] == entries;
  }

  /** One round of `visit_map`: a failing entry after a clean prefix is the
      result of the whole decode, and a good entry extends the decoded pairs. */
  lemma VisitStep<K, W, V>(entries: seq<(K, W)>, codec: Codec<K, W, V>, i: nat, pairs: seq<(Network, V)>)
    requires i < |entries|
    requires Traverse(entries[..i], e => DecodeEntry(codec, e)) == Success(pairs)
    ensures DecodeEntry(codec, entries[i]).Failure? ==>
              DecodeMap(entries, codec) == Failure(DecodeEntry(codec, entries[i]).error)
    ensures DecodeEntry(codec, entries[i]).Success? ==>
              Traverse(entries[..i + 1], e => DecodeEntry(codec, e)) ==
                Success(pairs + [DecodeEntry(codec, entries[i]).value])
  {
    var decode := e => DecodeEntry(codec, e);
    TraverseSnoc(entries[..i], entries[i], decode);
    assert entries[..i + 1] == entries[..i] + [entries[i]];
    if DecodeEntry(codec, entries[i]).Failure? {
      TraversePrefixFailure(entries, i + 1, decode);
    }
  }

  /** `deserialize` as written, with the visitor's two callbacks. */
  method DeserializeTable<K, W, V>(wire: Wire<K, W>, codec: Codec<K, W, V>) returns (r: Result<Table<V>, Error>)
    ensures r == Decode(wire, codec)
  {
    match wire {
      case Unit => r := VisitUnit();
      case Map(_, entries) => r := VisitMap(entries, codec);
      case Unexpected => r := Failure(InvalidType);
    }
  }

  /** A decoded map is exactly its decoded pairs with the last value winning:
      a prefix is present iff some entry decoded to it, and then it holds the
      value of its last such entry. Nothing comes from anywhere else. */
  lemma DecodeMapLastWins<K, W, V>(entries: seq<(K, W)>, codec: Codec<K, W, V>, n: Network)
    requires DecodeMap(entries, codec).Success?
    ensures DecodeMap(entries, codec).value.ExactMatch(n) ==
              LastValue(Traverse(entries, e => DecodeEntry(codec, e)).value, n)
  {
    var pairs := Traverse(entries, e => DecodeEntry(codec, e)).value;
    FoldInsertLastWins(New(), pairs, n);
  }

  /** All or nothing: the first entry that fails to decode decides the
      error, whatever pairs before it had already been inserted. */
  lemma FirstBadEntryFailsDecode<K, W, V>(hint: Option<nat>, entries: seq<(K, W)>, codec: Codec<K, W, V>, i: nat)
    requires i < |entries|
    requires DecodeEntry(codec, entries[i]).Failure?
    requires forall j :: 0 <= j < i ==> DecodeEntry(codec, entries[j]).Success?
    ensures Decode(Map(hint, entries), codec) == Failure(DecodeEntry(codec, entries[i]).error)
  {
  }

  /** Two entries that decode to the same prefix leave one entry, holding the
      later value. */
  lemma OverwriteOnDuplicate<K, W, V>(hint: Option<nat>, k1: K, w1: W, k2: K, w2: W, codec: Codec<K, W, V>,
                                      n: Network, a: V, b: V)
    requires codec.decodeKey(k1) == Success(n) && codec.decodeValue(w1) == Success(a)
    requires codec.decodeKey(k2) == Success(n) && codec.decodeValue(w2) == Success(b)
    ensures Decode(Map(hint, [(k1, w1), (k2, w2)]), codec).Success?
    ensures Decode(Map(hint, [(k1, w1), (k2, w2)]), codec).value.ExactMatch(n) == Some(b)
    ensures |Decode(Map(hint, [(k1, w1), (k2, w2)]), codec).value.Entries()| == 1
  {
    var entries := [(k1, w1), (k2, w2)];
    var pairs := [(n, a), (n, b)];
    TraverseAllSucceed(entries, pairs, e => DecodeEntry(codec, e));
    var t := DecodeMap(entries, codec).value;
    forall m
      ensures t.ExactMatch(m) == if m == n then Some(b) else None
    {
      DecodeMapLastWins(entries, codec, m);
      LastOfTwo(n, a, b, m);
    }
    SingleEntry(t, n, b);
  }

  /** Of two pairs on the same prefix, the second one is the last. */
  lemma LastOfTwo<V>(n: Network, a: V, b: V, m: Network)
    ensures LastValue([(n, a), (n, b)], m) == if m == n then Some(b) else None
  {
    var pairs := [(n, a), (n, b)];
    assert pairs[..1] == [(n, a)];
    if m != n {
      assert LastValue(pairs, m) == LastValue([(n, a)], m);
      assert [(n, a)][..0] == [];
      assert LastValue([(n, a)], m) == LastValue([], m);
    }
  }
}
