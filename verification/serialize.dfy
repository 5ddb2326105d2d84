/** The encoder: `Serialize for IpNetworkTable<T>`. It opens a map sized by
    the table's two entry counts, writes one entry per item of the table's
    iterator, and closes the map; the first failing step ends the encoding
    with its error. */
module Serialize {
  import opened Wrappers
  import opened Networks
  import opened Tables
  import opened WireFormat

  /** The serializer capability the framework hands to the adapter.
      `open` is `serialize_map` given the size hint, `key` and `value` are
      the two halves of `serialize_entry`, and `finish` is `end`. Each may
      fail, for instance on an unencodable value or a failing sink. */
  datatype Serializer<!V, K, W> = Serializer(
    open: Option<nat> -> Outcome<Error>,
    key: Network -> Result<K, Error>,
    value: V -> Result<W, Error>,
    finish: Outcome<Error>)

  /** One `serialize_entry` call: the key is written before the value. */
  function EncodeEntry<V, K, W>(ser: Serializer<V, K, W>, item: (Network, V)): (r: Result<(K, W), Error>)
    ensures r.Success? <==> ser.key(item.0).Success? && ser.value(item.1).Success?
    ensures r.Success? ==> r.value == (ser.key(item.0).value, ser.value(item.1).value)
    ensures ser.key(item.0).Failure? ==> r == Failure(ser.key(item.0).error)
    ensures ser.key(item.0).Success? && ser.value(item.1).Failure? ==> r == Failure(ser.value(item.1).error)
  {
    match ser.key(item.0)
    case Failure(e) => Failure(e)
    case Success(k) =>
      match ser.value(item.1)
      case Failure(e) => Failure(e)
      case Success(w) => Success((k, w))
  }

  /** The size hint passed to `serialize_map`: `len_ipv4 + len_ipv6`, which
      for a valid table is its number of entries. */
  function SizeHint<V>(t: Table<V>): (h: Option<nat>)
    ensures h == Some(t.Len().0 + t.Len().1)
    ensures t.Valid() ==> h == Some(|t.Entries()|)
  {
    var (lenIpv4, lenIpv6) := t.Len();
    assert t.Valid() ==> lenIpv4 + lenIpv6 == |t.Entries()| by {
      if t.Valid() {
        LenIsEntryCount(t);
      }
    }
    Some(lenIpv4 + lenIpv6)
  }

  /** The encoding of `t`, where `items` is what `t.iter()` yields. */
  function Encode<V, K, W>(t: Table<V>, items: seq<(Network, V)>, ser: Serializer<V, K, W>)
    : (r: Result<Wire<K, W>, Error>)
    ensures r.Success? <==>
              && ser.open(SizeHint(t)).Pass?
              && (forall i :: 0 <= i < |items| ==> EncodeEntry(ser, items[i]).Success?)
              && ser.finish.Pass?
    ensures r.Success? ==>
              && r.value.Map?
              && r.value.sizeHint == Some(t.Len().0 + t.Len().1)
              && |r.value.entries| == |items|
              && forall i :: 0 <= i < |items| ==> EncodeEntry(ser, items[i]) == Success(r.value.entries[i])
    ensures ser.open(SizeHint(t)).Fail? ==> r == Failure(ser.open(SizeHint(t)).error)
    ensures ser.open(SizeHint(t)).Pass? && r.Failure? ==>
              || (exists i :: FirstFailureAt(items, x => EncodeEntry(ser, x), i)
                               && r.error == EncodeEntry(ser, items[i]).error)
              || ((forall i :: 0 <= i < |items| ==> EncodeEntry(ser, items[i]).Success?)
                  && r.error == ser.finish.error)
  {
    TraverseSpec(items, x => EncodeEntry(ser, x));
    var hint := SizeHint(t);
    match ser.open(hint)
    case Fail(e) => Failure(e)
    case Pass =>
      match Traverse(items, x => EncodeEntry(ser, x))
      case Failure(e) => Failure(e)
      case Success(entries) =>
        match ser.finish
        case Fail(e) => Failure(e)
        case Pass => Success(Map(hint, entries))
  }

  /** The encoder as written: a loop over the items with an early return at
      the first failing write. It produces exactly `Encode`. */
  method SerializeTable<V, K, W>(t: Table<V>, items: seq<(Network, V)>, ser: Serializer<V, K, W>)
    returns (r: Result<Wire<K, W>, Error>)
    ensures r == Encode(t, items, ser)
  {
    var hint := SizeHint(t);
    var started := ser.open(hint);
    if started.Fail? {
      return Failure(started.error);
    }
    var entries: seq<(K, W)> := [];
    for i := 0 to |items|
      invariant Traverse(items[..i], x => EncodeEntry(ser, x)) == Success(entries)
    {
      TraverseSnoc(items[..i], items[i], x => EncodeEntry(ser, x));
      assert items[..i + 1] == items[..i] + [items[i]];
      var written := EncodeEntry(ser, items[i]);
      if written.Failure? {
        TraversePrefixFailure(items, i + 1, x => EncodeEntry(ser, x));
        return Failure(written.error);
      }
      entries := entries + [written.value];
    }
    assert items[..|items|] == items;
    if ser.finish.Fail? {
      return Failure(ser.finish.error);
    }
    r := Success(Map(hint, entries));
  }

  /** If `iter` enumerates every entry once, the encoder emits exactly as
      many entries as the size hint announced. */
  lemma EmittedCountMatchesSizeHint<V, K, W>(t: Table<V>, items: seq<(Network, V)>, ser: Serializer<V, K, W>)
    requires t.Valid()
    requires IsEnumeration(t.Entries(), items)
    requires Encode(t, items, ser).Success?
    ensures Encode(t, items, ser).value.sizeHint == Some(|Encode(t, items, ser).value.entries|)
  {
    EnumerationLength(t.Entries(), items);
    LenIsEntryCount(t);
  }
}
