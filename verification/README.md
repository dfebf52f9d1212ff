# datom-rs, modelled in Dafny

This project models the deterministic core of datom-rs, a Datomic-style fact store. The database is a set of
datoms. Each datom is an entity, an attribute, a value, the transaction time `t` and whether it adds or retracts
the fact. Every datom is kept as a byte-string key in up to four sorted indexes: EAVT, AEVT, AVET and VAET.
Storage is an ordered set of such keys. A snapshot (`Database`) reads the keys of one range and keeps the datoms
with `t` at or before its own.

The model has four layers, one Dafny module per source file or concept.

- **Key encoding.** `Bytes`, `Ids`, `Values`, `Datoms` and `Serial` cover:
  - the tagged `Value` encoding;
  - the 16-byte big-endian `ID`;
  - the `Index` and `DatomType` byte codes;
  - the four datom key layouts and the transaction-record key;
  - the prefix ranges the queries scan.
- **Storage and iteration.** This layer covers:
  - `SortedKeys` and `RedBlackSet`: the in-memory red-black set and its two-ended range cursor;
  - `MergeIters`: the k-way merge;
  - `StorageErrors` and `Backends`: the tiered backend and its error ordering;
  - `DatomIterators`: the snapshot filter of `DatomIterator`/`SledDatomIter`, and `AttributeIterator`.
- **Snapshot reads.** This layer covers:
  - `Databases`: the range each query scans;
  - `Resolution`: `EID::resolve`;
  - `Builtins`: the builtin entity table;
  - `LiveSets`: the add/remove fold;
  - `EntityResults`: results and their equalities;
  - `Entities`: `get_with_options`, `reverse_get` and `attributes`.
- **Write path.** `Facts`, `Transactions`, `Schemas` and `Connections` cover:
  - `Fact::datom`;
  - the `Transaction` builder;
  - `AttributeSchema::tx`;
  - `latest_t`, `as_of`, `db`, `transact_tx` and `transact`.

The connection and its storage are values. A transaction returns the connection as it leaves it, together with
the result. Rust panics are explicit outcomes, not preconditions:
- `Parse.Panic` for the decoders;
- `Panicked` for a query whose key computation or decoding panics.

The older revision of the crate, under `src/`, is modelled separately; see the last part of the table.

A few facts of the code shape the write path and the snapshots:
- `as_of` accepts any `t` and never fails (datom/src/types/connection.rs:88-93);
- `Transaction::datoms` converts each fact on its own, so nothing checks facts against each other and there are no
  temporary identifiers (datom/src/types/transaction.rs:59-68);
- `transact_tx` reads the latest `t` and then inserts with no lock in between, so nothing fences writes from a
  second connection (datom/src/types/connection.rs:106-144);
- a storage error is a `ConcurrencyError`, an `IOError` or a `Miscellaneous` error
  (datom/src/types/storage_error.rs:14-26);
- `latest_t` reads the last transaction record from storage on every call and nothing caches it
  (datom/src/types/connection.rs:78-85).

## Model

| member | source | states |
|---|---|---|
| Bytes.U64RoundTrip | datom/src/serial.rs:36-39 | reading back the 8 big-endian bytes of a u64 gives the number |
| Bytes.U64Order | datom/src/serial.rs:60-68 | the 8-byte big-endian form of t orders keys as the numbers order |
| Bytes.I64RoundTrip | datom/src/serial.rs:41-44 | reading back the 8 big-endian bytes of an i64 (two's complement) gives the number |
| Bytes.SignedRoundTrip | datom/src/types/value.rs:38-44 | the big-endian two's-complement bytes of any integer read back as that integer |
| Bytes.SignedBytesMinimal | datom/src/types/value.rs:38-44 | the two's-complement form is minimal: dropping its first byte changes the value, unless it is one byte long |
| Ids.IdBytes | datom/src/types/id.rs:105-115 | an ID's byte form is 16 bytes long |
| Ids.IdRoundTrip | datom/src/types/id.rs:79-115 | ID to bytes to ID is the identity, and so is ID to u128 to ID |
| Ids.IdBytesRoundTrip | datom/src/types/id.rs:99-115 | any 16 bytes to ID and back are the same 16 bytes |
| Ids.IdOrder | datom/src/types/id.rs:23-24 | the derived ID order is the byte order of the 16-byte form, both ways |
| Ids.IdBytesInjective | datom/src/types/id.rs:105-115 | two IDs have equal bytes exactly when they are equal |
| Ids.NewId | datom/src/types/id.rs:28-38 | a new ID's first four bytes are the seconds since the epoch as a big-endian u32; the other twelve bytes come from the random UUID |
| Ids.NewIdTimeOrdered | datom/src/types/id.rs:28-38 | IDs minted in a later second within one 32-bit epoch sort after earlier ones |
| Values.ValueBytes | datom/src/types/value.rs:29-68 | the encoding starts with the variant's tag byte (String 0 … Boolean 4) |
| Values.FromBytes | datom/src/types/value.rs:71-110 | the decoder panics exactly on empty input; a decoded value carries the tag it was read from; it is None exactly for: a tag above 4, a decimal shorter than 9 bytes, an ID that is not 17 bytes, or a boolean that is not 2 bytes ending in 0 or 1 |
| Values.RoundTrip | datom/src/types/value.rs:206-215 | decoding the encoding of any value gives the value |
| Values.ValueBytesInjective | datom/src/types/value.rs:29-68 | two values have equal encodings exactly when they are equal |
| Values.FixedKindsCanonical | datom/src/types/value.rs:92-107 | whatever decodes to a string, ID or boolean is exactly that value's encoding |
| Values.IntegerVectors | datom/src/types/value.rs:222-284 | "" is [0]; 0, 127, 255, 32767 and 65535 encode as the unit tests expect |
| Values.FixedWidthVectors | datom/src/types/value.rs:287-344 | the decimal 0, the null ID, true and false encode as the unit tests expect |
| Values.DecodeVectors | datom/src/types/value.rs:302-350 | the inputs the unit tests reject decode to None; a bare integer tag reads as 0 |
| Datoms.IndexByte | datom/src/types/index.rs:48-55 | index bytes are at most 3, so never 255 |
| Datoms.IndexFromByte | datom/src/types/index.rs:58-66 | a byte decodes exactly when it is at most 3, to the index with that byte; any other byte panics |
| Datoms.IndexByteRoundTrip | datom/src/types/index.rs:48-66 | every index decodes from its own byte |
| Datoms.DatomTypeByte | datom/src/types/datom_type.rs:16-21 | the datom-type byte is 0 or 1 |
| Datoms.DatomTypeFromByte | datom/src/types/datom_type.rs:24-30 | a byte decodes exactly when it is 0 or 1, to the type with that byte; any other byte panics |
| Datoms.DatomTypeByteRoundTrip | datom/src/types/datom_type.rs:16-30 | every datom type decodes from its own byte |
| Serial.ValueField | datom/src/serial.rs:19-25 | the value field is the value's length as 8 big-endian bytes, then the value |
| Serial.Serialize | datom/src/serial.rs:60-101 | every datom key starts with its index's byte |
| Serial.SerializeTr | datom/src/serial.rs:104-112 | a transaction record key is 17 bytes: 255, then t, then the millisecond timestamp |
| Serial.ReadByte | datom/src/serial.rs:27-29 | reads one byte and returns the rest; empty input panics |
| Serial.ReadId | datom/src/serial.rs:31-34 | reads 16 bytes as an ID and returns the rest; shorter input panics |
| Serial.ReadU64 | datom/src/serial.rs:36-39 | reads 8 big-endian bytes and returns the rest; shorter input panics |
| Serial.ReadI64 | datom/src/serial.rs:41-44 | reads 8 big-endian two's-complement bytes as an i64 (its bytes followed by the rest are the input) and returns the rest; shorter input panics |
| Serial.ReadValue | datom/src/serial.rs:46-51 | reads a length, then exactly that many bytes as a value, and returns the rest |
| Serial.ReadDatomType | datom/src/serial.rs:53-57 | reads one byte as a datom type; any byte other than 0 or 1 panics |
| Serial.DeserializeUnknown | datom/src/serial.rs:354-358 | the index is read from the first byte, and the datom is decoded in that index's layout |
| Serial.DeserializeTr | datom/src/serial.rs:313-321 | input shorter than 17 bytes panics; any longer input decodes, skipping the first byte unread, with t the u64 of bytes 1-8 and the timestamp the i64 of bytes 9-16 |
| Serial.ReadValueOf | datom/src/serial.rs:19-25 | the value field is self-delimiting: reading it from the field followed by any bytes gives the value and exactly those bytes |
| Serial.DeserializeRoundTrip | datom/src/serial.rs:245-331 | decoding a datom's key in its own index gives the datom |
| Serial.EavtRoundTrip | datom/src/serial.rs:245-259 | the EAVT decoder inverts the EAVT layout |
| Serial.AevtRoundTrip | datom/src/serial.rs:262-276 | the AEVT decoder inverts the AEVT layout |
| Serial.AvetRoundTrip | datom/src/serial.rs:279-293 | the AVET decoder inverts the AVET layout |
| Serial.VaetRoundTrip | datom/src/serial.rs:296-310 | the VAET decoder inverts the VAET layout |
| Serial.DeserializeUnknownRoundTrip | datom/src/serial.rs:335-358 | decoding any datom key without knowing its index gives the datom and the index |
| Serial.TrRoundTrip | datom/src/serial.rs:104-112 | decoding a record key gives t and the timestamp back |
| Serial.EavtEntityRange | datom/src/serial.rs:135-147 | the range runs from the entity's 17-byte prefix to that of the next ID; it panics exactly for the largest ID |
| Serial.EavtEntityAttributeRange | datom/src/serial.rs:151-164 | the 33-byte prefix of entity and attribute to that of the next attribute; it panics exactly for the largest attribute ID |
| Serial.IndexRangeSelects | datom/src/serial.rs:120-122 | a key is in an index's range exactly when its first byte is the index byte |
| Serial.TrRangeSelects | datom/src/serial.rs:217-219 | no datom key is in the record range; a record key is in it unless it is the range's own all-255 end |
| Serial.EavtEntityRangeSelects | datom/src/serial.rs:135-147 | a datom's EAVT key is in the entity's range exactly when the datom is of that entity |
| Serial.EavtEntityAttributeRangeSelects | datom/src/serial.rs:151-164 | a datom's EAVT key is in the range exactly when it is of that entity and that attribute |
| Serial.PrefixSuccessor | datom/src/serial.rs:168-214 | the corrected range end: no longer than the start, with the same first byte |
| Serial.PrefixSuccessorSelects | datom/src/serial.rs:168-214 | the range from a key to its prefix successor holds exactly the keys that extend it |
| Serial.ValueFieldPrefix | datom/src/serial.rs:19-25 | one value field is a prefix of another field followed by any bytes exactly when the two values are equal |
| Serial.RangeEndAsWritten | datom/src/serial.rs:175-187 | the loop as written keeps the start's length (its trailing 255 bytes are left in place) |
| Serial.AvetAttributeValueRangeSelects | datom/src/serial.rs:168-189 | with the corrected end, a datom's AVET key is in the range exactly when it has that attribute and that value |
| Serial.VaetValueAttributeRangeSelects | datom/src/serial.rs:193-214 | with the corrected end, a datom's VAET key is in the range exactly when it has that value and that attribute |
| Serial.AvetRangeAsWrittenOverreaches | datom/src/serial.rs:168-189 | the range as written for integer 255 also holds the AVET keys of integer 256, which the corrected range excludes |
| Serial.VaetRangeAsWrittenOverreaches | datom/src/serial.rs:193-214 | the range as written for attribute 255 also holds the VAET keys of attribute 256 |
| Serial.TypeFieldOrder | datom/src/serial.rs:60-68 | the t-and-type tail of a key orders by t first, then by datom type |
| Serial.SameFactOrder | datom/src/types/entity.rs:67-68 | in every index, two datoms of one fact order by their t, and at equal t by their datom type |
| Serial.ReadTypeFieldOf | datom/src/serial.rs:36-57 | the t-and-type tail of a key reads back as t, then the datom type, leaving exactly what followed |
| Serial.ReadIdOf | datom/src/serial.rs:31-34 | an ID's 16 bytes followed by anything read back as the ID and exactly what followed |
| Serial.AvetEndAsWritten | datom/src/serial.rs:175-187 | for integer 255 the loop as written ends the range at the start with its last byte raised by one, keeping the 255 after it |
| Serial.VaetEndAsWritten | datom/src/serial.rs:200-212 | for the value true and attribute 255 the loop as written keeps the trailing 255 in the range end |
| SortedKeys.Reverse | datom/src/backends/redblacktreeset.rs:57-73 | the reversal keeps the length and mirrors each position |
| SortedKeys.Filter | datom/src/backends/redblacktreeset.rs:77-86 | keeping the keys in a half-open range keeps their order |
| RedBlackSet.AddOne | datom/src/backends/redblacktreeset.rs:29-32 | `add_one(v)` is above v |
| RedBlackSet.AddOneIsLeast | datom/src/backends/redblacktreeset.rs:29-32 | it is the least key above v: every key above v is at or above it |
| RedBlackSet.InsertOne | datom/src/backends/redblacktreeset.rs:88-93 | inserting one key keeps the set sorted and adds exactly that key |
| RedBlackSet.InsertAll | datom/src/backends/redblacktreeset.rs:88-93 | after `insert(is)` the set is the old set together with `is`, sorted |
| RedBlackSet.InsertAllIdempotent | datom/src/backends/redblacktreeset.rs:88-93 | inserting the same batch again changes nothing |
| RedBlackSet.InsertAllOrderIrrelevant | datom/src/backends/redblacktreeset.rs:88-93 | only the keys of a batch matter, not their order or repeats |
| RedBlackSet.InsertAllCommutes | datom/src/backends/redblacktreeset.rs:88-93 | two batches give the same set in either order |
| RedBlackSet.Range | datom/src/backends/redblacktreeset.rs:77-86 | a new cursor has exactly the snapshot's keys in the half-open range still to yield |
| RedBlackSet.Next | datom/src/backends/redblacktreeset.rs:37-53 | a step never errs; it yields a key of the snapshot taken when the range was opened; it ends exactly when nothing is left between the cursors |
| RedBlackSet.NextBack | datom/src/backends/redblacktreeset.rs:57-73 | the same, from the back |
| RedBlackSet.NextPopsFront | datom/src/backends/redblacktreeset.rs:37-53 | `next` yields the least remaining key and removes it; it ends exactly when none is left |
| RedBlackSet.NextBackPopsBack | datom/src/backends/redblacktreeset.rs:57-73 | `next_back` yields the greatest remaining key and removes it |
| RedBlackSet.DrainForwardIsRemaining | datom/src/backends/redblacktreeset.rs:37-53 | draining forward yields the remaining keys in ascending order |
| RedBlackSet.DrainBackwardIsReversed | datom/src/backends/redblacktreeset.rs:57-73 | draining backward yields them in descending order |
| RedBlackSet.RangeScan | datom/src/backends/redblacktreeset.rs:37-86 | a range yields exactly the stored keys s ≤ x < e, ascending forward, and the reverse backward |
| RedBlackSet.StepRemovesYielded | datom/src/backends/redblacktreeset.rs:37-73 | a step from either end yields a remaining key and removes only it |
| RedBlackSet.WalkYieldsEachOnce | datom/src/backends/redblacktreeset.rs:37-73 | interleaving `next` and `next_back` never yields a key twice; the yielded and remaining keys split the range |
| RedBlackSet.ReversedRangeEmpty | datom/src/backends/redblacktreeset.rs:44-45 | a range whose end is below its start yields nothing |
| RedBlackSet.Step | datom/src/backends/redblacktreeset.rs:37-73 | one `next` or `next_back` keeps the snapshot it reads |
| RedBlackSet.Walk | datom/src/backends/redblacktreeset.rs:37-73 | a run of interleaved `next` and `next_back` calls keeps the snapshot it reads |
| MergeIters.Merged | datom/src/merge_iters.rs:7-51 | the intended merge of ascending sources is ordered in the iteration direction; it holds exactly the keys of all sources; each output names a source that holds its key |
| MergeIters.MergedBackwardIsReverse | datom/src/merge_iters.rs:55-77 | merging from the back yields the forward merge reversed |
| MergeIters.Step | datom/src/merge_iters.rs:29-51 | one `next`: it ends exactly when the pending map is empty, and each item shrinks what is left |
| MergeIters.New | datom/src/merge_iters.rs:82-88 | a new merge is well formed, with no map filled yet |
| MergeIters.NextIn | datom/src/merge_iters.rs:29-77 | `next`/`next_back` leave a well-formed merge whose map for that direction is filled |
| MergeIters.IterateNew | datom/src/merge_iters.rs:29-88 | iterating a new merge to the end yields the merge as written |
| MergeIters.StepPopsLeast | datom/src/merge_iters.rs:40-50 | with disjoint sources each step pops the least (greatest, backward) pending key, which came from the source it names, and refills from that source |
| MergeIters.DrainIsMerge | datom/src/merge_iters.rs:29-77 | with disjoint sources the drained output is ordered and holds exactly the pending and unread keys |
| MergeIters.DrainProvenance | datom/src/merge_iters.rs:46-50 | every drained item is paired with the index of a source holding its key |
| MergeIters.AsWrittenMergesDisjoint | datom/src/merge_iters.rs:10-17 | when no key is in two sources, the merge as written is the ordered union, with provenance |
| MergeIters.AsWrittenIsMergedWhenDisjoint | datom/src/merge_iters.rs:10-17 | when no key is in two sources, the merge as written is the intended merge |
| MergeIters.AsWrittenLosesKeys | datom/src/merge_iters.rs:33-38 | with sources [1,3] and [1,2] the merge as written yields only 1 and 2 |
| MergeIters.CachedKeyLost | datom/src/merge_iters.rs:33-38 | with sources [1,2] and [1] the merge as written yields only 1 |
| MergeIters.MergedKeepsKeys | datom/src/merge_iters.rs:7-18 | the intended merge of [1,3] and [1,2] yields 1, 2 and 3 |
| MergeIters.Fill | datom/src/merge_iters.rs:33-38 | the first fill pulls at most once from each source; nothing is created, so the pending and unread keys do not grow |
| MergeIters.CollectIsDrain | datom/src/merge_iters.rs:29-77 | once a direction's map is filled, iterating to the end is draining that map and the sources |
| StorageErrors.ErrorEq | datom/src/backends/tiered.rs:34-41 | two storage errors of the three variants are equal exactly when their variants are, whatever their payloads |
| StorageErrors.ErrorCmp | datom/src/backends/tiered.rs:51-60 | the comparison has an answer exactly when neither error is an IOError; it is Equal exactly for equal errors, and Less exactly for a ConcurrencyError against a Miscellaneous error |
| StorageErrors.ErrorCmpAntisymmetric | datom/src/backends/tiered.rs:51-60 | swapping the operands flips the ordering, and a pair without an answer stays without one |
| StorageErrors.ErrorCmpTransitive | datom/src/backends/tiered.rs:51-60 | where it answers, the ordering is transitive, strictly so when either step is strict |
| Backends.MergeScans | datom/src/backends/tiered.rs:63-66 | the merge of two sorted scans is sorted and holds exactly the keys of both |
| Backends.Scan | datom/src/backends/tiered.rs:63-66 | a scan succeeds exactly when no tier fails, and then yields, sorted, exactly the stored keys in the range; otherwise the first failure |
| Backends.ScanCoversAll | datom/src/backends/redblacktreeset.rs:77-86 | scanning a range that covers every stored key yields them all |
| Backends.TieredScanLosesCachedKey | datom/src/backends/tiered.rs:63-66 | a tier b holding a copy of one of a's keys makes the scan as written drop a's next key, which the intended scan keeps |
| Backends.TieredScanOfSuperset | datom/src/backends/tiered.rs:63-66 | over a store whose b holds a subset of a, the intended scan yields a's keys |
| Backends.Insert | datom/src/backends/tiered.rs:68-72 | insert writes to a and then to b; it succeeds exactly when no tier refuses writes, and then adds the batch; otherwise the error is the first refusing tier's, and the store keeps its old keys and gains at most the batch; on a's refusal b is untouched, and when only b refuses, a holds the batch; reads fail or succeed as before; the store's id is kept |
| Backends.InsertIdempotent | datom/src/backends/tiered.rs:68-72 | inserting a batch twice is inserting it once |
| Backends.InsertCommutes | datom/src/backends/tiered.rs:68-72 | two batches commute |
| Backends.InsertStopsAtB | datom/src/backends/tiered.rs:68-72 | a tiered store whose b refuses writes keeps a batch in a and returns b's error |
| Backends.ScanAsWrittenOfCache | datom/src/backends/tiered.rs:63-66 | the scan as written of a=[1,2] over b=[1] yields only [1] |
| Backends.ScanOfCache | datom/src/backends/tiered.rs:63-66 | the intended scan of a=[1,2] over b=[1] yields [1] and [2] |
| DatomIterators.Decode | datom/src/types/datom_iterator.rs:29 | a key decodes exactly when `deserialize_unknown` succeeds on it, and panics exactly when that panics |
| DatomIterators.Next | datom/src/types/datom_iterator.rs:22-55 | a yielded datom has t at or before the snapshot's; an exhausted iterator yields None |
| DatomIterators.CollectForward | datom/src/types/datom_iterator.rs:22-37 | forward, the iterator skips storage errors and keeps the decoded datoms with t at or before its own, in key order; the first undecodable key ends it |
| DatomIterators.NextMirror | datom/src/sled/datom_iter.rs:39-55 | `next_back` is `next` over the reversed items |
| DatomIterators.CollectBackward | datom/src/types/datom_iterator.rs:39-55 | draining backward is draining forward over the reversed items |
| DatomIterators.AtOrBefore | datom/src/types/datom_iterator.rs:30 | the snapshot filter keeps exactly the datoms with t at or before the snapshot's |
| DatomIterators.AtOrBeforeSorted | datom/src/types/datom_iterator.rs:22-55 | filtering keeps the key order |
| DatomIterators.AttributeNext | datom/src/types/attribute_iterator.rs:27-38 | a reported attribute had not been seen and is marked seen |
| DatomIterators.FirstSeenMeans | datom/src/types/attribute_iterator.rs:28-34 | an attribute is reported exactly when it is unseen and the first datom of it met from the back is an Addition |
| DatomIterators.FirstSeenDistinct | datom/src/types/attribute_iterator.rs:29-31 | no attribute is reported twice |
| DatomIterators.CollectAttributesIsFirstSeen | datom/src/types/attribute_iterator.rs:27-38 | draining the attribute iterator reports the first-seen Additions of the backward scan |
| DatomIterators.Collect | datom/src/types/datom_iterator.rs:22-55 | a `for` loop over the iterator yields datoms or panics; it never reads an invalid key as something else |
| DatomIterators.DecodeAll | datom/src/types/datom_iterator.rs:29 | when every key decodes, all are decoded, in order |
| DatomIterators.CollectAttributes | datom/src/types/attribute_iterator.rs:27-38 | a `for` loop over the attribute iterator yields attributes or panics |
| LiveSets.LiveMeans | datom/src/types/entity.rs:69-76 | a key survives the add/remove fold exactly when its last datom is an Addition |
| LiveSets.LiveFromAdditions | datom/src/types/entity.rs:69-76 | every key that survives was added by some datom |
| LiveSets.LiveByTime | datom/src/types/entity.rs:67-76 | when each key's datoms come in time order, a key survives exactly when some Addition of it is later than every Retraction of it |
| Errors.FromStorage | datom/src/types/query_error.rs:24-28 | a storage error becomes a query error through a connection error |
| Errors.Lift | datom/src/types/transaction_error.rs:31 | a query error becomes a transaction error, and a success is kept |
| Databases.NewConnection | datom/src/types/connection.rs:70-75 | a new connection keeps its storage and takes the fresh ID |
| Databases.DistinctConnections | datom/src/types/connection.rs:52-54 | connections are equal exactly when their IDs are, so two opened with different IDs differ |
| Databases.AllDatoms | datom/src/types/database.rs:23-30 | `datoms(i)` scans `index_range(i)` at the snapshot's t, failing only on a storage error |
| Databases.DatomsForEntity | datom/src/types/database.rs:34-41 | scans `eavt_entity_range(e)` at the snapshot's t; fails on a storage error or a panicking range |
| Databases.DatomsForEntityAttribute | datom/src/types/database.rs:46-57 | scans `eavt_entity_attribute_range(e, a)` at the snapshot's t |
| Databases.DatomsForAttributeValue | datom/src/types/database.rs:62-75 | scans the AVET range of (a, v) at the snapshot's t, failing only on a storage error |
| Databases.DatomsForValueAttribute | datom/src/types/database.rs:80-93 | scans the VAET range of (v, a) at the snapshot's t, failing only on a storage error |
| Databases.DatomsForEntitySees | datom/src/types/database.rs:34-41 | a stored EAVT key is scanned for its own entity and for no other |
| Databases.DatomsForEntityAttributeSees | datom/src/types/database.rs:46-57 | a stored EAVT key is scanned for its own entity and attribute and for no other pair |
| Databases.DatomsForAttributeValueSees | datom/src/types/database.rs:62-75 | over the corrected AVET range, a stored AVET key is scanned for its own attribute and value and for no other pair |
| Databases.DatomsForValueAttributeSees | datom/src/types/database.rs:80-93 | over the corrected VAET range, a stored VAET key is scanned for its own value and attribute and for no other pair |
| Databases.ScanReads | datom/src/types/datom_iterator.rs:22-37 | over a well-formed store, reading a range inside one index yields exactly the visible datoms whose keys lie in it |
| Databases.ScanInOrder | datom/src/types/datom_iterator.rs:22-37 | those datoms come in the index's key order |
| Databases.ScanBackward | datom/src/types/datom_iterator.rs:39-55 | read from the back they come in descending key order |
| Databases.EntityReads | datom/src/types/database.rs:34-41 | `datoms_for_entity(e)` reads every visible datom of e, and only those, in EAVT order |
| Databases.EntityReadsBackward | datom/src/types/database.rs:34-41 | read from the back, it yields the same datoms in descending EAVT order |
| Databases.EntityAttributeReads | datom/src/types/database.rs:46-57 | `datoms_for_entity_attribute(e, a)` reads every visible datom of e and a, and only those, in EAVT order |
| Databases.AttributeValueReads | datom/src/types/database.rs:62-75 | over the corrected AVET range, `datoms_for_attribute_value(a, v)` reads every visible datom of a and v, and only those, in AVET order |
| Databases.ValueAttributeReads | datom/src/types/database.rs:80-93 | over the corrected VAET range, `datoms_for_value_attribute(v, a)` reads every visible datom of v and a, and only those, in VAET order |
| Databases.ReadAll | datom/src/types/datom_iterator.rs:22-37 | looping over the iterator yields the snapshot's readable datoms, each at or before its t; a panic becomes `Panicked` |
| Databases.DatomKeyOf | datom/src/serial.rs:232-239 | every serialized datom is a datom key, not a record key |
| Builtins.Attribute | datom/src/builtin_idents.rs:74-178 | a builtin row holds its ID and ident, its value type and cardinality when it has them, and `unique` only for IDENT |
| Builtins.Entity | datom/src/builtin_idents.rs:72-180 | a row found under a key describes the entity of that key (which keys have rows is `Builtins.KeysCover`) |
| Builtins.BuiltinValue | datom/src/builtin_idents.rs:72-180 | the builtin value of an attribute on an entity is that of its row, if any |
| Builtins.BuiltinByIdent | datom/src/builtin_idents.rs:183-191 | looking up an ident finds the ID of a row with that ident, and None when no row has it |
| Builtins.KeysCover | datom/src/builtin_idents.rs:72-191 | the table has a row exactly for the keys the by-ident lookup visits: fourteen distinct IDs, because fifteen constants name them and TYPE_REF equals TYPE_BOOLEAN |
| Builtins.NoDuplicates | datom/src/builtin_idents.rs:199-221 | the thirteen IDs the unit test lists are pairwise distinct |
| Builtins.TypeRefIsTypeBoolean | datom/src/builtin_idents.rs:57-60 | TYPE_REF and TYPE_BOOLEAN are one ID, whose row has the ident "db.type/boolean" |
| Builtins.RowsNameThemselves | datom/src/builtin_idents.rs:74-178 | every row maps the ID attribute to its own key |
| Builtins.SchemaAttributes | datom/src/builtin_idents.rs:74-130 | the seven schema attributes have cardinality one; only IDENT is unique; CARDINALITY and VALUE_TYPE are typed TYPE_REF |
| Builtins.IdentsDistinct | datom/src/builtin_idents.rs:183-191 | no two rows share an ident |
| Builtins.BuiltinByIdentExact | datom/src/builtin_idents.rs:183-191 | the lookup answers k exactly for k's own ident |
| Builtins.NotAnIdent | datom/src/builtin_idents.rs:183-191 | a string that is no row's ident is not found |
| Builtins.IdentLookup | datom/src/types/eid.rs:51-55 | looking up a row's ident yields that row's ID |
| Builtins.NonIdentVectors | datom/src/builtin_idents.rs:167-191 | "db.type/ref" and other strings that are no row's ident are not found |
| Builtins.DbIdBytes | datom/src/types/value.rs:312-316 | the builtin ID attribute encodes as the bytes 248, 66, 64, … the unit test expects |
| Builtins.FindIdent | datom/src/builtin_idents.rs:183-191 | looking an ident up among some keys finds a key whose row has that ident, or None when no row among them has it |
| Resolution.MaxByT | datom/src/types/eid.rs:33-35 | `max_by(by_t)` is None exactly on no datoms; otherwise a datom of greatest t, the last one of that t |
| Resolution.LastMaxUnique | datom/src/types/eid.rs:33-35 | only one position is the last of greatest t |
| Resolution.LatestEntity | datom/src/types/eid.rs:56-60 | over the corrected AVET range, the entity of the latest datom found, or UnresolvedEID |
| Resolution.ResolveIdent | datom/src/types/eid.rs:50-61 | a builtin ident resolves to its builtin ID without reading storage |
| Resolution.Resolve | datom/src/types/eid.rs:47-71 | a resolved ID resolves to itself; an interned ident resolves as the owned one; a unique reference whose attribute fails fails with that error |
| Resolution.DbEntity | datom/src/types/database.rs:96-103 | `entity(eid)` resolves against the snapshot and keeps its connection and t |
| Resolution.LatestEntityMeans | datom/src/types/eid.rs:56-69 | over the corrected AVET range, a lookup finds an entity exactly when some visible AVET datom has that attribute and value (of either type), and then it is the entity of one of greatest t |
| Resolution.ResolveIdentMeans | datom/src/types/eid.rs:56-60 | a non-builtin ident resolves exactly when some visible datom states it as an IDENT, to the entity of the latest one |
| Resolution.ResolveUniqueMeans | datom/src/types/eid.rs:63-69 | over the corrected AVET range, a unique reference whose attribute resolves finds the entity of the latest AVET datom with that value |
| Resolution.InternedResolvesAsIdent | datom/src/types/eid.rs:62 | an interned ident resolves exactly as the owned ident |
| Resolution.LastMaxIndex | datom/src/types/eid.rs:56-60 | the position `max_by` stops at holds a greatest t, and every later datom has a smaller t |
| EntityResults.EntityEq | datom/src/types/entity.rs:20-24 | entities are equal on connection, t and ID, and equal entities hash equally on (t, ID) |
| EntityResults.EntityEqEquivalence | datom/src/types/entity.rs:20-24 | entity equality is an equivalence |
| EntityResults.Compare | datom/src/types/entity_result.rs:65-74 | what equality compares has the result's variant |
| EntityResults.ResultEqMeans | datom/src/types/entity_result.rs:65-82 | equal results hash equally; different variants are unequal; values and refs compare payloads; NotFound equals NotFound |
| EntityResults.RepeatedEqMeans | datom/src/types/entity_result.rs:65-74 | two Repeated results are equal exactly when each item of either equals some item of the other |
| EntityResults.ResultEqEquivalence | datom/src/types/entity_result.rs:65-76 | result equality is an equivalence, as `Eq` requires |
| EntityResults.FromValue | datom/src/types/entity_result.rs:119-123 | `From<Value>` gives a result equal to that value and to no other |
| EntityResults.FromEntity | datom/src/types/entity_result.rs:125-129 | `From<Entity>` gives a ref equal to the entity and to its ID |
| EntityResults.CrossEqualities | datom/src/types/entity_result.rs:84-117 | comparing with a value, entity or list holds only for the matching variant; comparing with an ID is exactly `is_ref_to` |
| Entities.Wrap | datom/src/types/entity.rs:80-87 | a value becomes a Ref exactly when the attribute is typed TYPE_REF and the value is an ID, and then refers to that ID in the same snapshot |
| Entities.Fallback | datom/src/types/entity.rs:110-124 | only NotFound falls back, to the builtin table's value when there is one |
| Entities.ReadOne | datom/src/types/entity.rs:92-109 | no datoms read as NotFound, and a single-valued read is never Repeated |
| Entities.ReadMany | datom/src/types/entity.rs:65-91 | a many-valued read is Repeated and holds every value the fold leaves |
| Entities.Decide | datom/src/types/entity.rs:65-109 | the read is Repeated exactly for a many-valued attribute, and fails only on a storage error or a panic |
| Entities.GetWithOptions | datom/src/types/entity.rs:33-125 | resolution errors propagate; the ID attribute reads as the entity's own ID; skipping cardinality never yields Repeated; a Repeated result means the attribute is many-valued |
| Entities.IsRepeated | datom/src/types/entity.rs:45-48 | skipping the cardinality makes it single-valued |
| Entities.AttributeType | datom/src/types/entity.rs:49-64 | skipping the type gives no type |
| Entities.Get | datom/src/types/entity.rs:128-130 | `get` is `get_with_options` with neither option skipped, and so has its outcomes |
| Entities.DecideOneMeans | datom/src/types/entity.rs:92-109 | on a well-formed store a single-valued read is NotFound without datoms; otherwise exactly one datom is decisive, and the read is its value, or NotFound if it is a Retraction |
| Entities.DecideManyMeans | datom/src/types/entity.rs:65-91 | a many-valued read holds exactly the values that some Addition asserts later than every Retraction of them |
| Entities.GetOneAbsent | datom/src/types/entity.rs:92-124 | a single-valued attribute without datoms reads as the builtin fallback |
| Entities.GetOneAsserted | datom/src/types/entity.rs:92-109 | a single-valued attribute whose decisive datom is an Addition reads as that datom's value |
| Entities.GetOneRetracted | datom/src/types/entity.rs:96-124 | a single-valued attribute whose decisive datom is a Retraction reads as the builtin fallback |
| Entities.GetManyMeans | datom/src/types/entity.rs:65-91 | a many-valued attribute reads as exactly the values that stand in the snapshot |
| Entities.ReverseGet | datom/src/types/entity.rs:134-154 | over the corrected VAET range, the result is always Repeated refs of the same snapshot; resolution errors propagate |
| Entities.ReadReferrers | datom/src/types/entity.rs:141-153 | the fold's entities become refs of the snapshot |
| Entities.ReverseGetMeans | datom/src/types/entity.rs:134-154 | over the corrected VAET range, it refers to exactly the entities whose value of the attribute is this entity's ID and stands in the snapshot |
| Entities.ReverseGetReads | datom/src/types/entity.rs:134-154 | over the corrected VAET range, on a healthy store `reverse_get` folds exactly the snapshot's VAET datoms of this entity's ID and the attribute, in key order |
| Entities.AttributesAsWritten | datom/src/types/entity.rs:156-160 | `attributes` drained fails only on a storage error or a panic |
| Entities.AttributesAsWrittenScan | datom/src/types/attribute_iterator.rs:27-38 | `attributes` reports the first-seen Additions of the entity's EAVT datoms read from the back |
| Entities.FirstSeenLast | datom/src/types/attribute_iterator.rs:28-34 | read from the back, the attributes reported are those whose last datom in key order is an Addition |
| Entities.AttributesAsWrittenMeans | datom/src/types/entity.rs:156-160 | `attributes` reports exactly the attributes whose last EAVT datom in the snapshot is an Addition |
| Entities.LiveAttributes | datom/src/types/entity.rs:156-160 | the corrected attribute list fails only on a storage error or a panic |
| Entities.LiveAttributesMeans | datom/src/types/entity.rs:156-160 | the corrected list holds exactly the attributes with some value standing in the snapshot |
| Entities.AttributesAsWrittenMissesLiveValue | datom/src/types/attribute_iterator.rs:28-34 | after adding false, adding true and retracting true, `false` still stands, yet `attributes` omits the attribute; the corrected list has it |
| Entities.WrapAll | datom/src/types/entity.rs:80-87 | a set of values wraps to exactly the results of its members |
| Entities.ReadOneMeans | datom/src/types/entity.rs:92-109 | with no datom of the attribute the read is NotFound; otherwise one is decisive and the read is decided by it |
| Entities.DecideOneDecided | datom/src/types/entity.rs:92-109 | a single-valued read whose decisive datom is a Retraction is NotFound, and otherwise it is that datom's wrapped value |
| Entities.DecisiveUnique | datom/src/types/entity.rs:92-109 | at most one datom is decisive for an entity and attribute |
| Entities.GetSteps | datom/src/types/entity.rs:39-124 | once the attribute, cardinality and type are read, `get_with_options` is the decided read with the builtin fallback |
| Entities.LiveAttributesScan | datom/src/types/entity.rs:156-160 | the corrected attribute list is the attributes left by the add/remove fold over the entity's EAVT datoms |
| Entities.BooleanFieldOrder | datom/src/serial.rs:60-68 | the value field of false sorts before that of true, and the two are of one length |
| Entities.StaleHistoryOrder | datom/src/serial.rs:60-68 | in the three-datom history, the retraction of true comes after both additions in EAVT order |
| Entities.StaleFalseStands | datom/src/types/entity.rs:65-91 | in that history the value false stands |
| Entities.StaleLastIsRetraction | datom/src/types/attribute_iterator.rs:28-34 | in that history the attribute's last datom in key order is the retraction |
| Facts.FactDatom | datom/src/types/fact.rs:44-83 | the entity resolves before the attribute and their errors propagate; the datom carries t and the resolved IDs; only Add makes an Addition; Add and RetractValue keep their value and cannot otherwise fail; Retract carries the current plain value |
| Facts.RetractOutcome | datom/src/types/fact.rs:64-81 | once both resolve, Retract fails with the lookup's error, succeeds exactly when the lookup is a plain value, and otherwise fails with FailedToRetractRepeatedAttribute |
| Facts.RetractCurrentValue | datom/src/types/fact.rs:64-75 | retracting a single-valued attribute whose decisive datom is an Addition retracts that datom's value |
| Facts.RetractAbsentFails | datom/src/types/fact.rs:76-80 | retracting an attribute that has no datom and no builtin value fails |
| Facts.RetractRepeatedFails | datom/src/types/fact.rs:76-80 | retracting a many-valued attribute without a value always fails |
| Transactions.NewTransaction | datom/src/types/transaction.rs:23-25 | a new transaction has no facts |
| Transactions.PushFact | datom/src/types/transaction.rs:28-30 | the fact is appended and the earlier facts are kept |
| Transactions.AddFact | datom/src/types/transaction.rs:33-35 | appends one Add |
| Transactions.RetractValueFact | datom/src/types/transaction.rs:45-47 | appends one RetractValue |
| Transactions.RetractFact | datom/src/types/transaction.rs:50-52 | appends one Retract |
| Transactions.AddMany | datom/src/types/transaction.rs:38-42 | appends one Add per pair, all on the entity, in an unspecified order, and keeps the earlier facts |
| Transactions.Append | datom/src/types/transaction.rs:55-57 | the other transaction's facts follow the existing ones, in order |
| Transactions.DatomsOf | datom/src/types/transaction.rs:60-69 | succeeds exactly when every fact converts, then maps the facts in order, all at t; otherwise fails with the first failing fact's error |
| Transactions.DatomsOfAppend | datom/src/types/transaction.rs:60-69 | converting two fact lists in turn is converting their concatenation |
| Transactions.AppendDatoms | datom/src/types/transaction.rs:55-69 | the datoms of an appended transaction follow those of the first |
| Transactions.ResolvedAddsSucceed | datom/src/types/fact.rs:50-56 | a transaction of additions between resolved IDs converts fact by fact |
| Schemas.TypeId | datom/src/types/attribute_schema.rs:24-36 | Ref and Boolean map to the same ID |
| Schemas.TypeIdCollisions | datom/src/types/attribute_schema.rs:24-36 | two value types map to one ID exactly when they are equal or are Ref and Boolean |
| Schemas.NewSchema | datom/src/types/attribute_schema.rs:60-70 | a new schema has the fresh ID and no option set |
| Schemas.SetId | datom/src/types/attribute_schema.rs:73-76 | changes the ID only |
| Schemas.WithIdent | datom/src/types/attribute_schema.rs:80-83 | sets the ident only |
| Schemas.Many | datom/src/types/attribute_schema.rs:86-89 | sets `many` only |
| Schemas.WithValueType | datom/src/types/attribute_schema.rs:92-95 | sets the value type only |
| Schemas.WithDoc | datom/src/types/attribute_schema.rs:99-102 | sets the doc only |
| Schemas.Unique | datom/src/types/attribute_schema.rs:105-108 | sets `unique` only |
| Schemas.Component | datom/src/types/attribute_schema.rs:111-115 | sets `component` and forces the value type to Ref |
| Schemas.SchemaTxSize | datom/src/types/attribute_schema.rs:127-162 | `tx` has one fact more than the options set, and begins with Add(id, ID, id) |
| Schemas.SchemaTxOrder | datom/src/types/attribute_schema.rs:130-161 | every fact adds to the attribute itself, in the order ID, IDENT, CARDINALITY, VALUE_TYPE, DOC, UNIQUE, IS_COMPONENT |
| Schemas.SchemaTxDeclares | datom/src/types/attribute_schema.rs:131-160 | each schema attribute is declared with a value exactly when the schema sets that value |
| Schemas.NewSchemaTx | datom/src/types/attribute_schema.rs:127-130 | a fresh schema's `tx` is the single fact naming its ID |
| Schemas.Candidates | datom/src/types/attribute_schema.rs:131-160 | the seven optional facts, one per option, present exactly when the option is set |
| Schemas.Keep | datom/src/types/attribute_schema.rs:127-162 | the facts pushed are exactly the present candidates |
| Schemas.WithIdentDeclares | datom/src/types/attribute_schema.rs:80-83 | after `ident`, `tx` declares IDENT with the ident given and every other attribute as before |
| Schemas.ManyDeclares | datom/src/types/attribute_schema.rs:86-89 | after `many`, `tx` declares CARDINALITY as CARDINALITY_MANY and every other attribute as before |
| Schemas.WithValueTypeDeclares | datom/src/types/attribute_schema.rs:92-95 | after `value_type`, `tx` declares VALUE_TYPE with the type's entity and every other attribute as before |
| Schemas.WithDocDeclares | datom/src/types/attribute_schema.rs:99-102 | after `doc`, `tx` declares DOC with the text given and every other attribute as before |
| Schemas.UniqueDeclares | datom/src/types/attribute_schema.rs:105-108 | after `unique`, `tx` declares UNIQUE as true and every other attribute as before |
| Schemas.ComponentDeclares | datom/src/types/attribute_schema.rs:111-115 | after `component`, `tx` declares IS_COMPONENT as true and VALUE_TYPE as the reference type, and every other attribute as before |
| Connections.LatestT | datom/src/types/connection.rs:78-85 | a storage failure is a connection error; with no transaction record the latest t is 0 |
| Connections.LatestTMeans | datom/src/types/connection.rs:78-85 | over a store whose records tell t, `latest_t` reads t: the t of the last record in key order |
| Connections.NewConnectionAtZero | datom/src/types/connection.rs:70-85 | a connection opened on an empty in-memory store is at t 0 |
| Connections.RecordOrder | datom/src/serial.rs:104-112 | record keys order by t first |
| Connections.RecordInRange | datom/src/serial.rs:217-219 | every record key lies in the record range |
| Connections.AsOf | datom/src/types/connection.rs:88-93 | a snapshot at any t, with that t, which cannot fail |
| Connections.Db | datom/src/types/connection.rs:97-99 | `db` succeeds exactly when `latest_t` does, at that t |
| Connections.SchemaReadMeans | datom/src/types/connection.rs:114-118 | on a healthy store, reading a schema attribute of the attribute entity yields a plain value exactly when the snapshot states it |
| Connections.Entries | datom/src/types/connection.rs:110-139 | a datom's keys are its EAVT and AEVT keys, its AVET key when the unique read is `true`, and its VAET key when the type read is TYPE_REF |
| Connections.EntriesMeans | datom/src/types/connection.rs:110-139 | the keys are the datom's keys in exactly the indexes the two reads select |
| Connections.IndexKeysDiffer | datom/src/types/connection.rs:110-139 | a datom's keys in different indexes are different |
| Connections.IndexKeysMeans | datom/src/types/connection.rs:114-139 | on a healthy store the two schema reads succeed and the keys are those of the indexes the before-snapshot selects |
| Connections.BatchKeysMeans | datom/src/types/connection.rs:110-139 | on a healthy store the batch holds, in order, each datom's keys in the indexes selected for it |
| Connections.ClockError | datom/src/types/connection.rs:106 | a connection error from the clock stays a connection error; anything else is a failed query |
| Connections.Commit | datom/src/types/connection.rs:140-150 | the batch and one record at the new t go to storage in one insert, which succeeds exactly when the store takes writes; then the store holds the old keys, the batch and the record, and the result's snapshots are at the old t and the new t; a refused insert returns the store's error, keeps every old key and adds none but the batch's and the record's |
| Connections.CommitPartial | datom/src/types/connection.rs:144 | when the first tier takes writes and the second refuses them, the commit fails with the second's error yet leaves the batch and the record in the first tier |
| Connections.Write | datom/src/types/connection.rs:109-150 | a failed conversion or schema read is returned and nothing is written; with both in hand it is the commit; a failure on a store that takes writes leaves the connection unchanged, and a failure that changed it is the store's write error |
| Connections.TransactTx | datom/src/types/connection.rs:102-151 | commits at `latest_t + 1` against the snapshot before it; a clock error is returned; a failure on a store that takes writes leaves the connection unchanged, and a failure that changed it is the store's write error; a t that cannot grow panics; success needs readable, writable storage |
| Connections.TransactTxCommits | datom/src/types/connection.rs:102-151 | a successful transaction committed its datoms' keys at one past the latest t |
| Connections.TransactTxOk | datom/src/types/connection.rs:106-150 | a transaction whose datoms and keys are read commits them |
| Connections.TransactTxRejects | datom/src/types/connection.rs:109 | a fact that does not convert fails the transaction with its error, and nothing is written |
| Connections.TransactSucceeds | datom/src/types/connection.rs:102-151 | on a store whose reads succeed, a transaction succeeds exactly when the store takes writes, the latest t is read and can grow, and every fact converts |
| Connections.TransactWrites | datom/src/types/connection.rs:102-151 | the store afterwards holds the old keys, the record, and each datom's key in every index it belongs to; `before` is at the old t, `after` at the new one |
| Connections.DatomKeyInjective | datom/src/serial.rs:232-239 | two datom keys are equal only for the same datom in the same index |
| Connections.WroteKeepsPast | datom/src/types/connection.rs:140-144 | writing datoms at the new t changes nothing a snapshot at or before the old t sees |
| Connections.WroteVisible | datom/src/types/connection.rs:110-144 | each written datom is visible at the new t in each index it was written to |
| Connections.WroteAdvances | datom/src/types/connection.rs:140-144 | after the write, the latest t is the new t |
| Connections.TransactKeepsPast | datom/src/types/connection.rs:102-151 | a transaction changes nothing a snapshot at or before the latest t sees |
| Connections.TransactVisible | datom/src/types/connection.rs:102-151 | each datom of a successful transaction is visible at its t |
| Connections.TransactAdvances | datom/src/types/connection.rs:102-151 | a transaction on a consistent connection leaves it consistent at one past the latest t |
| Connections.TxOf | datom/src/types/transaction.rs:78-82 | a transaction is its own `tx`; a schema's `tx` has one fact per option set plus one, all additions on the attribute |
| Connections.Transact | datom/src/types/connection.rs:154-159 | `transact` keeps the connection's ID and, on a failure over a store that takes writes, the connection |
| Connections.TransactResolvedAdds | datom/src/types/connection.rs:154-159 | a transaction of additions between resolved IDs fails only when the store refuses writes or the clock fails or cannot grow, and writes each fact as its addition |
| Connections.TransactSchema | datom/src/types/attribute_schema.rs:127-163 | transacting a schema fails only when the store refuses writes or the clock fails or cannot grow, and writes one addition per fact of the schema at the new t |
| Connections.EmptyChronicle | datom/src/types/connection.rs:78-85 | a store without transaction records is at t 0 |
| Connections.SchemaReadAsserted | datom/src/types/connection.rs:114-118 | a schema read decided by an Addition reads its value |
| Connections.SchemaReadRetracted | datom/src/types/connection.rs:114-118 | a schema read decided by a Retraction reads the builtin value, if any |
| Connections.SchemaReadAbsent | datom/src/types/connection.rs:114-118 | a schema read without datoms reads the builtin value, if any |
| Connections.IndexKeys | datom/src/types/connection.rs:114-139 | a datom's keys are read only when both schema reads succeed, the unique read's error comes first, and the keys are the entries those reads select |
| Connections.KeyReadsMeans | datom/src/types/connection.rs:110-139 | on a healthy store every datom's keys read successfully, in the indexes it belongs to |
| OldValues.OldBytes | src/types/value.rs:34-76 | at least one byte; the first byte is 255 exactly for a repeated value, which is that one byte whatever it holds |
| OldValues.FromBytesAsWritten | src/types/value.rs:79-111 | panics exactly on an empty slice, a decimal tag with fewer than 8 bytes, an ID tag with fewer than 17 or a boolean tag with fewer than 2; None exactly for a tag above 4 or a boolean byte above 1; a decoded value is plain and has the tag it was read from |
| OldValues.OldFromBytes | src/types/value.rs:79-111 | the decoder with its decimal branch reading after the tag: the same outcomes, except that a decimal needs 9 bytes |
| OldValues.DecodersAgreeOffDecimals | src/types/value.rs:79-111 | the two decoders agree on every slice that does not start with the decimal tag |
| OldValues.OldRoundTrip | src/types/value.rs:34-111 | the corrected decoder gives back every plain value from its bytes, and None for a repeated value's byte |
| OldValues.AsWrittenRoundTrip | src/types/value.rs:34-111 | the decoder as written gives back every plain value but a decimal from its bytes |
| OldValues.AsWrittenDecimalScale | src/types/value.rs:90-99 | any decimal the decoder as written reads has the tag byte 2 as its exponent's top byte, so the exponent lies in [2·2^56, 3·2^56) |
| OldValues.DecimalLostAsWritten | src/types/value.rs:50-99 | a decimal whose exponent lies outside that band never decodes to itself |
| OldValues.DecimalZeroMisread | src/types/value.rs:50-99 | the decimal 0 is written as the tag and nine zero bytes, and read back with exponent 2^57 |
| OldValues.CurrentDecoderStricter | src/types/value.rs:79-111 | whatever today's decoder reads, the first revision's corrected decoder reads the same |
| OldValues.LenientTails | src/types/value.rs:100-108 | the first revision reads an ID or a boolean followed by a stray byte, which today's decoder refuses |
| OldValues.Normalize | src/types/value.rs:119 | each decimal has one representative: zero is (0, 0); any other has a mantissa without trailing zeros and denotes the same number |
| OldValues.SameNumberNormal | src/types/value.rs:119 | two decimals denote the same number exactly when their representatives are equal |
| OldValues.OldEqEquivalence | src/types/value.rs:114-126 | value equality is reflexive, symmetric and transitive, and on everything but decimals it is identity |
| OldValues.HashInputAsWritten | src/types/value.rs:128-143 | the bytes hashed for a plain value start with its tag |
| OldValues.HashSplitsEqualDecimals | src/types/value.rs:128-143 | 1.0 and 1 are equal values, yet the hasher is fed different bytes for them |
| OldValues.HashInput | src/types/value.rs:128-143 | the corrected hash input also starts with the tag |
| OldValues.HashAgreesWithEq | src/types/value.rs:114-143 | with the corrected input, equal plain values feed the hasher the same bytes, and values of different kinds never do |
| LegacySerial.OldValueField | src/serial.rs:13-19 | the value field is 8 length bytes followed by the value's bytes |
| LegacySerial.OldSerialize | src/serial.rs:49-155 | every key starts with its index's byte |
| LegacySerial.SameLayouts | src/serial.rs:49-155 | the first revision writes a datom of today's kind under the key today's code writes for it |
| LegacySerial.ReadOldValue | src/serial.rs:35-40 | a value read consumes more than the 8 length bytes, leaves a suffix of the input, and is what the value decoder reads from the bytes in between |
| LegacySerial.OldDeserializeUnknown | src/serial.rs:261-265 | a key read without its index has its first byte as index byte; an empty key or a first byte above 3 panics |
| LegacySerial.DecodeWrittenValue | src/serial.rs:35-40 | neither decoder panics on the bytes of a value; the corrected one reads a plain value back and refuses a repeated one |
| LegacySerial.ReadOldValueOf | src/serial.rs:13-40 | the value field is self-delimiting: read from the field followed by any bytes, it gives the decoded value and exactly those bytes |
| LegacySerial.OldDeserializeReads | src/serial.rs:161-236 | a key read in its own index gives its datom, with the value as the decoder reads the value's bytes; a refused value makes the key None |
| LegacySerial.OldDeserializeRoundTrip | src/serial.rs:148-236 | with the corrected decoder every plain datom's key reads back as the datom; a repeated value's key never reads back |
| LegacySerial.AsWrittenKeyRoundTrip | src/serial.rs:148-236 | as written, every key whose value is plain and not a decimal reads back as its datom |
| LegacySerial.DecimalKeyMisread | src/serial.rs:35-40 | as written, a key holding the decimal 0 reads back with exponent 2^57 |
| LegacySerial.OldDeserializeUnknownRoundTrip | src/serial.rs:261-265 | a plain datom's key read without its index gives the datom and the index |
| LegacySerial.AvetAttributeRange | src/serial.rs:133-145 | panics exactly for the largest attribute ID, where adding one overflows |
| LegacySerial.QueryRange | src/sled/database.rs:26-58 | a query panics exactly when the ID it adds one to is the largest |
| LegacySerial.PrefixedIdRange | src/serial.rs:96-145 | a range from a prefix and an ID to the prefix and the next ID holds exactly the keys continuing the prefix with that ID |
| LegacySerial.QueryRangeSelects | src/sled/database.rs:26-58 | each query's range holds a datom's key in an index exactly when the query is about that datom in that index |
| LegacySerial.EntityRangeSelects | src/serial.rs:96-108 | a key is in the entity's range exactly when it is the EAVT key of a datom of that entity |
| LegacySerial.EntityAttributeRangeSelects | src/serial.rs:114-127 | a key is in the range exactly when it is the EAVT key of a datom of that entity and attribute |
| LegacySerial.AttributeRangeSelects | src/serial.rs:133-145 | a key is in the range exactly when it is the AVET key of a datom of that attribute |
| LegacyEids.BuiltinByIdentIn | src/builtin_idents.rs:410-423 | a found ID belongs to a builtin row whose ident is the one asked for |
| LegacyEids.AnyOrderSameAnswer | src/builtin_idents.rs:410-423 | whatever order the table yields its rows in, the lookup gives the same answer as today's lookup |
| LegacyEids.ForAttribute | src/sled/database.rs:53-58 | the datoms returned are exactly the AVET datoms of the attribute |
| LegacyEids.FirstNaming | src/types/eid.rs:49-52 | None exactly when no datom names the ident; otherwise the entity of the first datom that does |
| LegacyEids.FirstWithValue | src/types/eid.rs:56-59 | None exactly when no datom holds an equal value; otherwise the entity of the first datom that does |
| LegacyEids.ResolveIdentAsWrittenMeans | src/types/eid.rs:43-53 | as written, an ident resolves exactly when it is a builtin's or a VAET datom names it, and then to that datom's entity; its only error is UnresolvedEID |
| LegacyEids.ResolveIdentMeans | src/types/eid.rs:43-53 | corrected, an ident resolves exactly when it is a builtin's or an AVET datom names it, and then to that datom's entity; its only error is UnresolvedEID |
| LegacyEids.NamingInAvet | src/types/eid.rs:49-52 | the search among the AVET datoms of `IDENT` finds exactly when some AVET datom names the ident |
| LegacyEids.ResolveUniqueMeans | src/types/eid.rs:54-60 | once its attribute resolves to an ID below the largest, a unique reference resolves exactly when an AVET datom of that attribute holds an equal value, and then to that datom's entity |
| LegacyEids.ValueInAvet | src/types/eid.rs:56-59 | the search for the value finds exactly when some AVET datom of the attribute holds an equal value |
| LegacyEids.ResolversAgreeOffIdents | src/types/eid.rs:40-62 | the resolver as written and the corrected one agree on every reference whose idents are all builtin |
| LegacyEids.IdentMissedAsWritten | src/types/eid.rs:43-53 | as written, with no VAET datom about `IDENT`, an ident that is no builtin's stays unresolved |
| SledConnections.SetT | src/sled/connection.rs:30-33 | `LATEST_T` is present afterwards and every other key keeps its value |
| SledConnections.Lock | src/sled/connection.rs:35-48 | the call spins exactly when the lock is held; otherwise the lock key holds "Locked" and nothing else changes |
| SledConnections.Unlock | src/sled/connection.rs:50-53 | the lock key is gone and nothing else changes |
| SledConnections.LockUnlock | src/sled/connection.rs:35-53 | locking a free tree and unlocking it gives the tree back |
| SledConnections.LatestT | src/sled/connection.rs:76-85 | 0 without a `LATEST_T` key; InvalidData exactly when its value is not 8 bytes; otherwise the u64 with those big-endian bytes |
| SledConnections.LatestTOfSetT | src/sled/connection.rs:30-85 | `latest_t` reads the t `set_t` wrote |
| SledConnections.AsOf | src/sled/connection.rs:87-92 | a snapshot at any t, over the same tree |
| SledConnections.Db | src/sled/connection.rs:94-96 | `db` succeeds exactly when `latest_t` does, and is then the snapshot at that t |
| SledConnections.DatomKeys | src/sled/connection.rs:108-124 | a datom gets its EAVT and AEVT keys, its AVET key exactly when the unique read is true, and its VAET key exactly when the type read is TYPE_REF; every key starts with an index byte |
| SledConnections.WriteDatom | src/sled/connection.rs:108-124 | one pass fails exactly when the datom's schema read fails, with that read's error |
| SledConnections.WriteDatomPuts | src/sled/connection.rs:109-123 | one pass gives the datom's keys the empty value and leaves every other key as it was |
| SledConnections.WriteAllWrites | src/sled/connection.rs:108-124 | the loop adds only keys of its datoms, with the empty value, and a key that is no datom's keeps its value |
| SledConnections.WriteAllReads | src/sled/connection.rs:108-124 | a loop that completes found every schema read successful |
| SledConnections.WriteAllCompletes | src/sled/connection.rs:108-124 | a loop that completes wrote every key of every datom with the empty value |
| SledConnections.WriteAllStops | src/sled/connection.rs:108-124 | a loop that stops stopped at the first datom whose schema read failed, with that error |
| SledConnections.TransactAsWritten | src/sled/connection.rs:98-135 | the call spins exactly when the lock is held; a commit frees the lock and its t is one past the old one; a failure leaves the lock held |
| SledConnections.Transact | src/sled/connection.rs:98-135 | with the unlock on every way out, the call spins exactly when the lock is held and every call that ends frees it |
| SledConnections.TransactCommits | src/sled/connection.rs:102-131 | a commit found the lock free and its old t in the tree, leaves its new t there with the lock freed, wrote the datoms the conversion gave for the new t, and every one of their schema reads succeeded |
| SledConnections.TransactWritesKeys | src/sled/connection.rs:108-125 | after a commit every key of every datom is in the tree with the empty value |
| SledConnections.TransactWritesNothingElse | src/sled/connection.rs:102-133 | a commit adds no key but `LATEST_T` and its datoms' keys, and every other key keeps its value |
| SledConnections.TransactSteps | src/sled/connection.rs:102-133 | a commit took the lock, read the latest t, completed the loop, set the new t and removed the lock, in that order |
| SledConnections.DatomKeyNotMeta | src/sled/connection.rs:21-22 | no datom key is `LATEST_T` or the lock key |
| SledConnections.WriteAllKeepsLock | src/sled/connection.rs:108-124 | the loop leaves a held lock held |
| SledConnections.LockLeftHeldAsWritten | src/sled/connection.rs:102-135 | as written, after a failed call every later call spins |
| SledConnections.FailedConversionLocksOut | src/sled/connection.rs:102-107 | a conversion failing on an empty tree returns its error, leaves only the lock behind, and the next call spins |
| SledConnections.TransactAgrees | src/sled/connection.rs:98-135 | the corrected call ends as the call as written does, with the same result, and then removes the lock; a commit is the same in both |
| SledConnections.TransactFreesLock | src/sled/connection.rs:98-135 | once corrected, the call after any call that ended does not spin |
| SledConnections.DbAfterTransact | src/sled/connection.rs:94-135 | after a commit `db` is the snapshot at the new t, and before it was at the old t |
| SledConnections.TransactKeepsIdentOutOfVaet | src/sled/connection.rs:111-123 | when the schema reads do not make `IDENT` a reference, a commit keeps a tree free of VAET keys that read as datoms about `IDENT` |
| SledConnections.IdentUnresolvedAsWritten | src/types/eid.rs:43-53 | as written, over a tree with no VAET key about `IDENT`, an ident that is no builtin's does not resolve |
| SledConnections.IdentResolvesOnceWritten | src/types/eid.rs:43-53 | corrected, an ident whose datom's AVET key is in the tree, no later than the snapshot, resolves |
| SledConnections.TransactedIdentResolves | src/sled/connection.rs:108-124 | once corrected, an ident named by a committed datom, with `IDENT` read as unique, resolves at the new t |
| SledConnections.TransactedIdentAsWritten | src/types/eid.rs:43-53 | as written, a committed transaction naming a new ident still leaves it unresolved at the new t |

## Left out

- Language bindings (C, Java, Node), generated headers and build scripts: glue around opaque handles.
- The sled backend and sled I/O calls: storage is the abstract sorted key set. A backend whose reads and writes fail is a `Failing` store, and one that reads but refuses writes is a `ReadOnly` store; each stands for any I/O error.
- datom/src/backends/btreeset.rs: its writes are unimplemented and its read is a plain range.
- Concurrency: the `ArcSwap` in the red-black backend is a plain value, and `Send`/`Sync` are not modelled.
- The random parts of `ID::new`, `Connection::new` and `AttributeSchema::new`, and the clock behind `Utc::now()`, are inputs: the seconds and UUID, the fresh ID, and the record's millisecond timestamp.
- Floating-point value conversions and `BigDecimal` arithmetic: a decimal is its (mantissa, scale) pair, compared structurally.
- UTF-8: strings are byte sequences; lossy decoding is not modelled.
- Error `Display` and diagnostics, `Debug` impls and module wiring.
- datom/src/storage.rs and the trait files: used only as signatures. The model has one batch insert (`Backends.Insert`), as datom/src/backends/redblacktreeset.rs:88 has.
- datom/src/backends/tiered.rs:63-66 calls `MergeIters::new` with two arguments while datom/src/merge_iters.rs:82-88 takes one list; the model merges the two scans as a two-source merge.
- A `Repeated` result comes from a hash set, so it is a set here and its item order is not modelled.
- EntityResults.RepeatedEqMeans: the source compares two `Repeated` vectors item by item in the hash set's iteration order, so two results with the same items in different orders compare unequal there; here they are sets and compare equal.
- Serial.DeserializeTr: the millisecond timestamp is kept as an i64; the panic of chrono's `Utc.timestamp_millis` for milliseconds outside its date range is not modelled.
- StorageErrors.ErrorCmp: datom/src/backends/tiered.rs:51-60 matches only `ConcurrencyError` and `Miscellaneous` pairs and has no arm for `IOError`, so the model gives no ordering for a pair with an `IOError`.
- Entities.AttributesAsWritten: only the drained iterator is modelled; the state between `next` calls is in `DatomIterators.AttributeNext`.
- Connections.Transact: its own contract states only what every transaction keeps. What a schema transaction writes is `Connections.TransactSchema`.
- Connections.LatestT: a record key too short to decode is a panic; a storage error read from the scan is widened to a connection error, as `?` does.
- Databases.DatomsForAttributeValue and Databases.DatomsForValueAttribute scan the corrected AVET and VAET ranges; the ranges as written are `Serial.AvetAttributeValueRangeAsWritten` and `Serial.VaetValueAttributeRangeAsWritten` (see Findings).
- Backends.Scan merges the tiers with the corrected merge; the merge as written is `Backends.ScanAsWritten` (see Findings).
- Databases.DatomsForAttributeValueSees: holds over the corrected AVET range; over the range as written the scan can also return keys of the next value or attribute (`Serial.AvetRangeAsWrittenOverreaches`).
- Databases.AttributeValueReads: holds over the corrected AVET range; over the range as written the scan can also return keys of the next value or attribute (`Serial.AvetRangeAsWrittenOverreaches`).
- Databases.DatomsForValueAttributeSees: holds over the corrected VAET range; over the range as written the scan can also return keys of the next value or attribute (`Serial.VaetRangeAsWrittenOverreaches`).
- Databases.ValueAttributeReads: holds over the corrected VAET range; over the range as written the scan can also return keys of the next value or attribute (`Serial.VaetRangeAsWrittenOverreaches`).
- Resolution.LatestEntity: holds over the corrected AVET range; over the range as written the scan can also return keys of the next value or attribute (`Serial.AvetRangeAsWrittenOverreaches`).
- Resolution.LatestEntityMeans: holds over the corrected AVET range; over the range as written the scan can also return keys of the next value or attribute (`Serial.AvetRangeAsWrittenOverreaches`).
- Resolution.ResolveUniqueMeans: holds over the corrected AVET range; over the range as written the scan can also return keys of the next value or attribute (`Serial.AvetRangeAsWrittenOverreaches`).
- Entities.ReverseGet: holds over the corrected VAET range; over the range as written the scan can also return keys of the next value or attribute (`Serial.VaetRangeAsWrittenOverreaches`).
- Entities.ReverseGetMeans: holds over the corrected VAET range; over the range as written the scan can also return keys of the next value or attribute (`Serial.VaetRangeAsWrittenOverreaches`).
- Entities.ReverseGetReads: holds over the corrected VAET range; over the range as written the scan can also return keys of the next value or attribute (`Serial.VaetRangeAsWrittenOverreaches`).
- Values stored in keys have fewer than 2^64 bytes (`Serial.Storable`), since the length prefix is a u64.
- Lemmas about a read path require a well-formed store, one holding only keys the write path makes, and IDs below the largest one, whose range panics.
- src/sled/entity.rs, src/sled/attribute_iter.rs, src/types/fact.rs, src/types/transaction.rs, src/types/attribute_schema.rs and src/types/entity_result.rs of the first revision: the same logic as their datom/src counterparts, which model them.
- src/sled/datom_iter.rs is not part of this model: its filter on t is the `Reads` relation between a tree, a t and the datoms a snapshot sees.
- The first revision's schema reads (`unique` and `type` of an attribute) and the conversion of a transaction to datoms are parameters of `SledConnections.Transact`.
- `connect`, the sled I/O errors and the errors of `compare_and_swap` are not modelled: the tree is a map and every write succeeds.
- SledConnections.TransactAsWritten: `t_before + 1` overflowing a u64 is a panic, as in a debug build; the wrap-around of a release build is not modelled.
- Serial.EavtEntityRange: adding one to the largest entity ID, a u128, is a panic, as in a debug build; the wrap-around of a release build is not modelled.
- Serial.EavtEntityAttributeRange: adding one to the largest attribute ID, a u128, is a panic, as in a debug build; the wrap-around of a release build is not modelled.
- LegacySerial.AvetAttributeRange: adding one to the largest attribute ID, a u128, is a panic, as in a debug build; the wrap-around of a release build is not modelled.
- LegacySerial.QueryRange: adding one to the largest ID, a u128, is a panic, as in a debug build; the wrap-around of a release build is not modelled.
- Connections.TransactTx: `t_before + 1` on the largest u64 (datom/src/types/connection.rs:107) is a panic, as in a debug build; the wrap-around of a release build is not modelled.
- src/sled/database.rs imports `avet_attribute_value_range` and `vaet_value_attribute_range`, which src/serial.rs does not define, so the first revision's `attribute_value` and `value_attribute` queries are left out.
- The first revision's `Repeated` value is a hash set; only its tag byte is modelled, and its entries are not.
- LegacyEids.BuiltinByIdentIn: the table's iteration order is a parameter, since a hash map's order is unspecified.
- src/types/id.rs, src/types/index.rs, src/types/datom_type.rs, src/query_error.rs and src/transaction_error.rs of the first revision are not part of this model; their datom/src counterparts are used.
- SledConnections.LockLeftHeldAsWritten is a consequence of the contracts of `TransactAsWritten` and `Lock`, so its body is empty.

## Findings

| source | as written | input that shows it | evidently intended | confidence | as-written member | corrected member |
|---|---|---|---|---|---|---|
| datom/src/merge_iters.rs:33-38 | the first fill inserts each source's first key into a map from key to source, so when two sources start with the same key one entry replaces the other and that source is never pulled again | sources [1,3] and [1,2] merge to 1, 2 | every key of every source comes out once, in order | not executed | MergeIters.AsWrittenLosesKeys | MergeIters.Merged |
| datom/src/serial.rs:168-189 | the end of the AVET range adds one to the last byte that is not 255 and keeps the 255 bytes after it | attribute a and integer 255: the range also holds the AVET keys of integer 256 | the range ends at the successor of the prefix, so it holds only keys of that value | not executed | Serial.AvetRangeAsWrittenOverreaches | Serial.AvetAttributeValueRangeSelects |
| datom/src/serial.rs:193-214 | the end of the VAET range has the same carry error | value true and attribute 255: the range also holds the VAET keys of attribute 256 | the range holds only keys of that value and attribute | not executed | Serial.VaetRangeAsWrittenOverreaches | Serial.VaetValueAttributeRangeSelects |
| datom/src/types/attribute_iterator.rs:28-34 | walking the history backwards, only the latest datom of each attribute is looked at | add false, add true, retract true: false still stands, but the attribute is skipped | an attribute is listed when some value of it stands | not executed | Entities.AttributesAsWrittenMissesLiveValue | Entities.LiveAttributesMeans |
| src/types/value.rs:90-99 | the decimal branch reads its exponent from bytes 0-7, the tag included, instead of bytes 1-8 | the decimal 0 reads back with exponent 2^57 | a decimal reads back as written | not executed | OldValues.DecimalZeroMisread | OldValues.OldRoundTrip |
| src/types/value.rs:128-143 | the hash of a decimal hashes its mantissa and scale, while equality compares the numbers | 1.0 and 1 are equal but feed the hasher different bytes | equal values hash alike | not executed | OldValues.HashSplitsEqualDecimals | OldValues.HashAgreesWithEq |
| src/sled/connection.rs:102-133 | a `?` between taking the lock and removing it returns with the lock still held | a conversion that fails on an empty tree: every later call spins | every call that ends frees the lock | not executed | SledConnections.FailedConversionLocksOut | SledConnections.TransactFreesLock |
| src/types/eid.rs:43-53 | an ident is looked up among the VAET datoms of `IDENT`, but `IDENT` has string values and is unique, so its datoms are written to AVET, never VAET | a committed datom naming a new ident: that ident still does not resolve | an ident is found in the AVET index | not executed | SledConnections.TransactedIdentAsWritten | SledConnections.TransactedIdentResolves |
