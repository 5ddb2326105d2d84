# Serialization adapter for the IP network table

This project models the serde adapter of the `ip_network_table` crate
(`src/serde_support.rs`): how an `IpNetworkTable<T>` — a table from IPv4 and
IPv6 network prefixes to values — is written out through a generic
serialization framework, and how it is rebuilt from the framework's input.

- **Encoder** (`Serialize for IpNetworkTable<T>`): reads the two per-family
  entry counts, opens a map whose size hint is their sum, writes one
  `(network, value)` entry per item of the table's iterator in iterator
  order, and closes the map. The first step that fails ends the encoding
  with its error.
- **Decoder** (`IpNetworkTableVisitor`, `Deserialize for IpNetworkTable<T>`):
  a unit input gives a fresh empty table; a map input gives a fresh table
  filled by inserting every decoded `(IpNetwork, T)` pair in order, so that a
  later duplicate prefix silently overwrites an earlier one; any other shape
  is an invalid-type error. Any key or value that fails to decode fails the
  whole decode and no table is returned.

Layout:

| file | module | contents |
|---|---|---|
| `wrappers.dfy` | `Wrappers` | `Option`, `Result`, `Outcome`; `Traverse`, the short-circuiting loop behind every `?` in a loop |
| `networks.dfy` | `Networks` | the prefix key: `V4(address, length)` or `V6(address, length)` with the address and length ranges of each family |
| `table.dfy` | `Tables` | the table as one map per family, with `New`, `Insert`, `Len`, `ExactMatch`; `IsEnumeration`, the contract of `iter` |
| `wire.dfy` | `WireFormat` | the shape the framework presents: `Unit`, `Map(sizeHint, entries)` or `Unexpected`; the error type |
| `serialize.dfy` | `Serialize` | the serializer capability, `Encode` (the encoder as a function) and `SerializeTable` (the encoder's loop) |
| `deserialize.dfy` | `Deserialize` | the per-entry codec, `Decode`/`DecodeMap` (collect every pair, then fold `insert`) and `VisitMap`/`DeserializeTable` (the visitor's eager-insert loop) |
| `roundtrip.dfy` | `RoundTrip` | decode after encode gives the table back; the four-entry round-trip test |

The framework is replaced by parameters. The serializer is a record of four
fallible steps: `open` (`serialize_map`, given the size hint), `key` and
`value` (the two halves of `serialize_entry`) and `finish` (`end`). The
decoder side is a record of two fallible decoders, one for the prefix and one
for the value. The table's iterator is the `items` argument of `Encode`. Its
real order lives in the table code and is not modelled. The lemmas that need
it to list every entry once take `IsEnumeration(t.Entries(), items)` as a
premise, and `Tables.EnumerationExists` shows that premise can always be met.
The round trip holds when the decoders invert the encoders (`RoundTrip.Inverts`).

Each of the two loops in the source is modelled twice. One copy is a method
that follows the code: `SerializeTable` returns early from its loop, and
`VisitMap` inserts into a local table as it goes and returns early on an
error. The other copy is a pure function: `Encode`, and `DecodeMap`, which
decodes every entry first and builds the table only when all of them succeed.
Each method is proved to return exactly what its function returns. So the
eager inserts in `visit_map` are never visible: a decode that fails returns an
error and no table.

The unit case deserves a remark. The adapter accepts a unit input because
`visit_unit` returns an empty table. Whether a given format hands a unit or
null to the visitor when `deserialize_map` is asked for is the format's
choice. Some formats reject it before the visitor is reached. The model
starts from the shape the visitor receives.

## Model

| member | source | states |
|---|---|---|
| `Serialize.Encode` | src/serde_support.rs:19-24 | the size hint is `Some(len_ipv4 + len_ipv6)`; on success the output is a map with exactly one entry per iterated item, in iteration order, each the encoding of that item; encoding succeeds iff opening, every entry and closing succeed; if opening fails that error is returned, otherwise the error is that of the first failing entry or, when every entry succeeded, that of `end` |
| `Serialize.EncodeEntry` | src/serde_support.rs:22 | an entry write succeeds iff both the key and the value encode, and then writes exactly those two encodings; the key is written first, so a failing key decides the error, and when only the value fails the value's error is returned |
| `Serialize.SizeHint` | src/serde_support.rs:19-20 | the hint is `Some` of the two per-family counts summed, which for a valid table is its number of entries |
| `Serialize.SerializeTable` | src/serde_support.rs:15-25 | the encoder's loop with its early returns produces exactly `Encode` |
| `Serialize.EmittedCountMatchesSizeHint` | src/serde_support.rs:19-23 | when the iterator lists every entry once, the number of entries emitted equals the size hint |
| `Tables.LenIsEntryCount` | src/serde_support.rs:19-20 | the two per-family counts add up to the number of entries in the table, because no prefix is in both families |
| `Tables.EnumerationLength` | src/serde_support.rs:21 | an iteration that lists every entry exactly once has as many items as the table has entries |
| `Tables.EnumerationExists` | src/serde_support.rs:21 | every table has such an iteration |
| `Tables.New` | src/serde_support.rs:61 | a new table is valid, has counts `(0, 0)` and no prefix has a value |
| `Tables.EqualEntries` | src/serde_support.rs:103-106 | two tables with the same value for every exact prefix are equal, which is the equality the test asserts |
| `Wrappers.TraverseSpec` | src/serde_support.rs:62 | a loop of `?` steps succeeds iff every step succeeds, then yields every result in order, and otherwise carries the error of the first failing step |
| `Deserialize.DecodeEntry` | src/serde_support.rs:62 | an entry decodes iff both its key and its value decode, and then yields exactly the decoded pair; the key is decoded first, so a bad key decides the error, and when only the value fails the value's error is returned |
| `Tables.Table.Insert` | src/serde_support.rs:63 | inserting stores the value under that exact prefix in the part of its family, leaves every other prefix unchanged, and hands back the value it replaced, which the decoder drops |
| `Deserialize.FoldInsert` | src/serde_support.rs:61-64 | repeated `insert` keeps every prefix in the part of its own address family |
| `Deserialize.LastValueSpec` | src/serde_support.rs:62-64 | the value recorded for a prefix is that of an occurrence with no later occurrence of the same prefix, and a prefix with no occurrence has none |
| `Deserialize.FoldInsertLastWins` | src/serde_support.rs:62-64 | after inserting the pairs in order, each prefix holds the value of its last occurrence, and prefixes that do not occur keep their earlier value; the values `insert` hands back play no part |
| `Deserialize.VisitUnit` | src/serde_support.rs:50-55 | a unit input gives a valid table with zero IPv4 and zero IPv6 entries and no values |
| `Deserialize.DecodeMap` | src/serde_support.rs:57-66 | a map input decodes iff every entry decodes; on failure the error is that of the first entry that failed; on success the table is valid |
| `Deserialize.VisitMap` | src/serde_support.rs:57-66 | the visitor's eager-insert loop with its early return yields exactly `DecodeMap`, so no partly filled table escapes |
| `Deserialize.Decode` | src/serde_support.rs:73-78 | the decoder's result is always a valid table; a unit input succeeds with zero counts; a map input succeeds iff all its entries decode; any other shape fails with an invalid-type error |
| `Deserialize.DeserializeTable` | src/serde_support.rs:69-79 | dispatching to the visitor's callbacks yields exactly `Decode` |
| `Deserialize.DecodeMapLastWins` | src/serde_support.rs:61-65 | a successfully decoded map holds, for each prefix, the value of its last decoded occurrence, and nothing else: the result starts from a fresh table, never an existing one |
| `Deserialize.FirstBadEntryFailsDecode` | src/serde_support.rs:62-65 | if entry `i` is the first that fails to decode, the whole decode fails with its error, however many pairs were inserted before it |
| `Deserialize.OverwriteOnDuplicate` | src/serde_support.rs:63 | two entries decoding to the same prefix leave a single entry holding the later value |
| `RoundTrip.FoldEnumerationRebuilds` | src/serde_support.rs:61-64 | inserting an enumeration of a table into a fresh table rebuilds that table |
| `RoundTrip.DecodeInvertsEncode` | src/serde_support.rs:89-107 | for every valid table and every iteration order that lists each entry once, decoding a successful encoding gives back an equal table, provided the decoders invert the encoders |
| `RoundTrip.PlainSerializer` | src/serde_support.rs:98 | the test's serializer opens and closes the map without failing and writes every prefix and value through unchanged |
| `RoundTrip.PlainCodec` | src/serde_support.rs:98-101 | the test's pass-through codec inverts the pass-through serializer |
| `RoundTrip.TestTableByInsertion` | src/serde_support.rs:91-96 | the test's four insertions into a fresh table build `TestTable` |
| `RoundTrip.TestTableContents` | src/serde_support.rs:93-96 | the test's table holds the four entries; 127.0.0.0/8 holds 4 and 2001:db8::/32 holds 2 |
| `RoundTrip.PlainRoundTrip` | src/serde_support.rs:98-106 | under the test's pass-through serializer and codec, every valid table in every iteration order that lists each entry once encodes successfully and decodes back to an equal table |
| `RoundTrip.TestSerde` | src/serde_support.rs:89-107 | whatever order the iterator lists the test table's four entries in, it encodes successfully and decodes back to an equal table, in which 127.0.0.0/8 holds 4 and 2001:db8::/32 holds 2 |
| `RoundTrip.TestSerdeEncoding` | src/serde_support.rs:91-101 | in every such order the test table encodes to a map with size hint 4 and exactly four entries |
| `RoundTrip.EmptyRoundTrip` | src/serde_support.rs:50-55 | the empty table encodes to an empty map with size hint 0, which decodes to an empty table, and so does a unit input |

## Left out

- The serialization framework's own machinery is not modelled. That covers `Serializer`/`Deserializer` dispatch, `MapAccess`, token formats and the `expecting` message (lines 46-48). The framework appears only as the shape it presents and as fallible encode and decode steps.
- A structural error inside a map, such as a truncated map, is not a separate case. An error that `next_entry` raises is modelled as the key or value decoder failing on that entry.
- `PhantomData`, the visitor's constructor and the generic trait bounds (lines 28-38) have no behaviour, so they are not modelled.
- The table's trie storage, longest-prefix matching and the real `iter` order belong to crate files that are not part of this model. The table is one map per family, and `iter` is any listing of every entry exactly once.
- CIDR text parsing and formatting belong to the `ip_network` crate. Prefix decoding is an abstract fallible function. Its inverse property is a premise of the round trip, not a proved fact. The rule that host bits must be zero is not modelled either.
- Serializer steps are stateless: `key` and `value` give one outcome per prefix and per value, and `finish` one outcome per run. A sink that fails on its k-th write after accepting an equal value earlier cannot be expressed, and the partial output a sink holds after an error is not modelled. Only the result of the encode is.
- Counts are unbounded `nat`s. The `usize` sum `len_ipv4 + len_ipv6` cannot overflow for a table that fits in memory.
