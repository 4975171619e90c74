# Producer/consumer state table of sonic-swss-common

This project models the state table that connects a `ProducerStateTable` and a
`ConsumerStateTable` in sonic-swss-common. It also proves properties of that
model.

- **Producers.** A producer calls `set(key, fields)` and `del(key)`. Each call
  marks the key as pending and coalesces the mutation into one entry per key:
  - a second `set` merges its fields into the pending SET, and the last writer
    wins for each field;
  - a `del` discards whatever was pending and leaves a DEL with no fields;
  - a `set` after a pending DEL starts from an empty field list.
- **Consumers.** A consumer's `pop` takes one pending key, removes it, and
  returns its key, its op (`"SET"` or `"DEL"`) and its field/value list. With
  nothing pending, `pop` returns an empty key and an empty op. `pops` repeats
  this until it holds `POP_BATCH_SIZE` tuples or nothing is pending.

Modules:

- `FieldValues`:
  - field/value lists;
  - the last-writer-wins merge (`Merge`, built on `Upsert`);
  - `ToMap`, which is how the unit tests read a popped list (`mm[fvField(fv)] = fvValue(fv)`).
- `StateTable`:
  - the `Table` class: the pending key set and the coalesced entry of each pending key;
  - the producer operations `Set` and `Del`, and the consumer operations `Pop` and `Pops`;
  - `AfterSet` and `AfterDel`, the pure functions that state the new entries;
  - the coalescing lemmas over any run of producer calls on one key.
- `TestHelpers`:
  - the helpers of the unit tests: `getMaxFields`, `key`, `field`, `value`,
    `IsDigit`, `readNumberAtEOL` and `validateFields`;
  - the proof that every name the producers write reads back as its number.
- `StateTableTests`: the single-threaded scenarios `double_set`, `set_del`,
  `set_del_set` and `singlethread`, each as a method whose contract is what
  the test expects.

In the source, a test's `select` is woken by the store's notifications. The
model abstracts this: the table counts as ready exactly when some key is
pending, and a `select` that times out stands for "nothing pending".

**Order of pops.** The consumer class is a `TableName_KeySet`, and neither
consumerstatetable.h nor the tests fix an order between keys. So `Pop` takes
some pending key, chosen nondeterministically. Each pop delivers a pending key
with its coalesced entry and removes it. A `Pops` whose batch size is at least
the number of pending keys delivers every pending key exactly once.

**Where a merged field goes.** When a set merges into an already-pending
SET, a field that is already there keeps its position and a new field goes at
the end. The server-side script that does the merge is not part of this
model, so that position is a modelling choice. No test observes it: the
tests that merge (double_set) read the entry only through the map they build
from it and through its length.

The order of a set on a clean key is observed: in singlethread
(tests/redis_state_ut.cpp:385-388), validateFields checks that position i
holds field(i) and value(i). The order of a set after a pending DEL is not
observed by any test (set_del_set reads the entry only through its size and
the map), and the model keeps it anyway (SetStartsFresh, MergeIntoEmpty).

## Model

| member | source | states |
|---|---|---|
| StateTable.Table.constructor | common/consumerstatetable.h:14-16 | A new table over an empty store has nothing pending and no entries, and keeps its batch size. |
| StateTable.Table.Set | tests/redis_state_ut.cpp:93 | Producer set: the key becomes pending. Its entry becomes the coalesced SET given by AfterSet. The table invariant is kept: the pending set equals the entries' keys, and every entry is well formed. |
| StateTable.Table.Del | tests/redis_state_ut.cpp:98 | Producer del: the key becomes pending and its entry is a DEL without fields. The invariant is kept. |
| StateTable.Table.Pop | common/consumerstatetable.h:18-20 | With nothing pending: the empty key and op, and no change. Otherwise: some pending key, delivered with its op name and its coalesced fields, and removed from both the pending set and the entries. |
| StateTable.Table.Pops | common/consumerstatetable.h:14-23 | Returns min(POP_BATCH_SIZE, pending count) tuples, never more than POP_BATCH_SIZE. No key repeats. Each tuple is a pending key delivered with its old entry. Exactly the returned keys leave the pending set and the entries. When POP_BATCH_SIZE is at least the pending count, the batch's keys are exactly the keys that were pending. |
| StateTable.BatchCovers | common/consumerstatetable.h:22-23 | A batch that leaves nothing pending took every key that was pending, and only those. |
| StateTable.OpName | tests/redis_state_ut.cpp:119-126 | The op string kfvOp gives the consumer: "SET" or "DEL". It has no contract of its own; SetDel, SetDelSet and DoubleSet state the op each pop gives. |
| StateTable.Delivered | common/consumerstatetable.h:18-20 | The tuple a pop hands over: the key, the op name and the coalesced fields. It has no contract of its own; Pop and Pops state that every popped tuple is Delivered of its old entry. |
| StateTable.AfterSet | tests/redis_state_ut.cpp:159-212 | Only the set key changes, and its op becomes SET. Well-formed entries stay well formed. Reading the new fields gives the previously pending SET fields (none after a DEL) overwritten by the new ones. |
| StateTable.AfterDel | tests/redis_state_ut.cpp:245-266 | Only the deleted key changes, and well-formed entries stay well formed. |
| StateTable.BatchAppend | common/consumerstatetable.h:22-23 | One more pop extends a batch: the batch keeps distinct keys, and its tuples are still the delivered entries. |
| StateTable.CoalescingFrame | tests/redis_state_ut.cpp:158-192 | Any run of producer calls on one key leaves exactly one pending entry for that key. No other key changes, and every entry stays well formed. |
| StateTable.Coalescing | tests/redis_state_ut.cpp:158-340 | After any run of calls on one key, its entry is a DEL exactly when the last call was a del. Reading its fields gives each field's last value since the last del, on top of what was pending if there was no del. |
| StateTable.CoalescingOp | tests/redis_state_ut.cpp:245-262 | After any run of calls on one key, the key is pending, and it is a DEL exactly when the last call was a del. |
| StateTable.CoalescingFields | tests/redis_state_ut.cpp:158-340 | After any run of calls on one key, reading its fields gives each field's last value since the last del, on top of the fields already pending when the run has no del. |
| StateTable.CoalescedFieldCount | tests/redis_state_ut.cpp:196-197 | The coalesced entry holds one pair per distinct field written since the last del. When the run has no del, the fields of an already-pending SET count too. |
| StateTable.SetStartsFresh | tests/redis_state_ut.cpp:298-329 | For a list that names each field once, a set on a clean key, or on one whose pending op is DEL, leaves exactly the given fields in the given order. |
| FieldValues.ToMap | tests/redis_state_ut.cpp:199-203 | The reader's map has exactly the field names of the list as its keys. |
| FieldValues.ToMapAppend | tests/redis_state_ut.cpp:199-203 | Reading a concatenation: a pair of the later list overrides the same field of the earlier one. |
| FieldValues.Upsert | tests/redis_state_ut.cpp:169-177 | Writing one pair adds its field name to the names and removes none. |
| FieldValues.UpsertNew | tests/redis_state_ut.cpp:169-177 | A pair for a field not yet present is appended at the end. |
| FieldValues.UpsertInPlace | tests/redis_state_ut.cpp:169-177 | A pair for a field already present replaces its first occurrence in place. The length is unchanged and no other pair moves. |
| FieldValues.UpsertNoDup | tests/redis_state_ut.cpp:196-197 | Writing a pair into a list without repeated fields leaves a list without repeated fields. |
| FieldValues.UpsertMap | tests/redis_state_ut.cpp:199-212 | Reading after writing a pair gives the old map with just that field overwritten. |
| FieldValues.Merge | tests/redis_state_ut.cpp:169-177 | The names after a merge are the old names together with the update's names. |
| FieldValues.MergeNoDup | tests/redis_state_ut.cpp:196-197 | A merge never introduces a repeated field. |
| FieldValues.MergeMap | tests/redis_state_ut.cpp:199-212 | Reading a merge gives the old map overridden by the update's map (last writer wins). |
| FieldValues.NoDupCount | tests/redis_state_ut.cpp:197 | A list without repeated fields has as many pairs as field names. |
| FieldValues.MergeFresh | tests/redis_state_ut.cpp:301-329 | Merging pairs whose fields are all new keeps them all, in call order, after the old ones. |
| FieldValues.MergeIntoEmpty | tests/redis_state_ut.cpp:301-329 | For an update list that names each field once, merging into an empty entry yields the update list itself. |
| TestHelpers.GetMaxFields | tests/redis_state_ut.cpp:24-27 | With C division toward zero, the result is at least 1 exactly when i > -30. For i >= 0 the result is the r with 30(r-1) <= i < 30r. |
| TestHelpers.NatToString | tests/redis_state_ut.cpp:29-43 | to_string of a non-negative number: a non-empty run of digits spelling the number. It is "0" for 0 and has no leading zero otherwise. |
| TestHelpers.IntToString | tests/redis_state_ut.cpp:31 | to_string of any int: a minus sign before NatToString of the magnitude. It has no contract of its own; ReadPrefixedNumber states that it reads back as the absolute value. |
| TestHelpers.Key | tests/redis_state_ut.cpp:29-32 | key(i). It has no contract of its own; ReadKey states that it reads back as abs(i), and KeyInjective that different numbers give different keys. |
| TestHelpers.Field | tests/redis_state_ut.cpp:34-37 | field(i). It has no contract of its own; ReadField and FieldInjective state its properties. |
| TestHelpers.Value | tests/redis_state_ut.cpp:39-43 | value(i), empty for 0. It has no contract of its own; ReadValue states that it reads back as abs(i). |
| TestHelpers.IsDigit | tests/redis_state_ut.cpp:45-48 | An ASCII decimal digit. It has no contract of its own; FindDigit and DigitRun are stated in terms of it. |
| TestHelpers.ReadNumberAtEOL | tests/redis_state_ut.cpp:50-59 | readNumberAtEOL: 0 for the empty string, otherwise the value of the digit run at the first digit. It has no contract of its own; ReadPrefixedNumber, ReadKey, ReadField and ReadValue state what it gives back. |
| TestHelpers.ReadNumberAtEOLSucceeds | tests/redis_state_ut.cpp:57 | The `EXPECT_TRUE(is)`: the string is empty or holds a digit. It has no contract of its own; ReadKey, ReadField and ReadValue state that it holds for every name the producers write. |
| TestHelpers.FindDigit | tests/redis_state_ut.cpp:53 | The position of the first digit: every character before it is a non-digit. |
| TestHelpers.DigitRun | tests/redis_state_ut.cpp:54-56 | The longest prefix made only of digits: the sequence of characters the stream extraction consumes. |
| TestHelpers.ReadPrefixedNumber | tests/redis_state_ut.cpp:50-59 | A number written after a prefix without digits reads back as its absolute value, and the read succeeds. |
| TestHelpers.ReadKey | tests/redis_state_ut.cpp:29-59 | readNumberAtEOL(key(i)) succeeds and gives back abs(i). |
| TestHelpers.ReadField | tests/redis_state_ut.cpp:34-59 | readNumberAtEOL(field(i)) succeeds and gives back abs(i). |
| TestHelpers.ReadValue | tests/redis_state_ut.cpp:39-59 | readNumberAtEOL(value(i)) succeeds and gives back abs(i), including the empty value(0). |
| TestHelpers.KeyInjective | tests/redis_state_ut.cpp:29-32 | Different non-negative numbers give different key names. |
| TestHelpers.FieldInjective | tests/redis_state_ut.cpp:34-37 | Different non-negative numbers give different field names. |
| TestHelpers.FieldsFor | tests/redis_state_ut.cpp:85-89 | The list a producer builds for one key: field(j) with value(j) at position j. It has no contract of its own; MakeFields is proved equal to it, FieldsForNoDup shows it repeats no field, and ProducedFieldsValid shows it passes validateFields. |
| TestHelpers.FieldsForNoDup | tests/redis_state_ut.cpp:83-89 | The list a producer writes for one key never repeats a field. |
| TestHelpers.FieldsValid | tests/redis_state_ut.cpp:61-73 | Every expectation of validateFields. It has no contract of its own; ValidateFields is proved to report exactly this predicate. |
| TestHelpers.ValidateFields | tests/redis_state_ut.cpp:61-73 | Reports success exactly when the key's number reads, the entry has getMaxFields(number) pairs, and the field and value at every position i both read back as i. |
| TestHelpers.ProducedFieldsValid | tests/redis_state_ut.cpp:61-89 | An entry written the way the producers write it passes validateFields. |
| StateTableTests.MakeFields | tests/redis_state_ut.cpp:160-165 | The building loop yields field(j) with value(j) for every j below the count. |
| StateTableTests.MakeEvenFields | tests/redis_state_ut.cpp:171-176 | The stride-2 loop yields ceil(limit/2) pairs, with field(2m) and value(2m) at position m. |
| StateTableTests.EvenFieldsBelowFour | tests/redis_state_ut.cpp:171-176 | With limit 4, that loop writes field 0 and field 2. |
| StateTableTests.TwoSetsMap | tests/redis_state_ut.cpp:158-212 | Sets of {a, b} then {a, c} on a clean key, for distinct field names: a SET with three pairs mapping each field to its last value. |
| StateTableTests.DoubleSetEntry | tests/redis_state_ut.cpp:158-212 | The entry that double_set leaves behind is a SET with three pairs, field 0..2 mapped to value 0..2. |
| StateTableTests.DoubleSet | tests/redis_state_ut.cpp:146-220 | double_set: the table is ready, and one pop gives key "TheKey", op "SET", 2 + 2/2 pairs and the expected values. Afterwards the table is not ready. |
| StateTableTests.SetDel | tests/redis_state_ut.cpp:222-273 | set_del: one pop gives ("TheKey", "DEL", no fields). Afterwards the table is not ready. |
| StateTableTests.SetDelSet | tests/redis_state_ut.cpp:275-348 | set_del_set: one pop gives "TheKey" and op SET with exactly field 0 and field 2. The fields from before the del are gone. Afterwards the table is not ready. |
| StateTableTests.SetDelSetEntry | tests/redis_state_ut.cpp:287-310 | A set, a del, then a set on a clean key leave one entry: a SET holding exactly the last set's fields. |
| StateTableTests.EmptyPops | common/consumerstatetable.h:19-20 | Popping a table with nothing pending gives the empty key and op, again and again. |
| StateTableTests.ProduceSets | tests/redis_state_ut.cpp:359-372 | After n sets, exactly key(0) .. key(n-1) are pending. Each holds the SET of getMaxFields(its number) fields. |
| StateTableTests.KeysBelowStep | tests/redis_state_ut.cpp:359-372 | key(i) is new to key(0) .. key(i-1), so the pending set grows by one each time. |
| StateTableTests.ConsumeSets | tests/redis_state_ut.cpp:374-395 | The consumer loop pops exactly n entries, all SET and all passing validateFields, and leaves the table empty. |
| StateTableTests.ProduceDels | tests/redis_state_ut.cpp:397-402 | After n dels on a drained table, exactly key(0) .. key(n-1) are pending, each a DEL without fields. |
| StateTableTests.ConsumeDels | tests/redis_state_ut.cpp:404-416 | The consumer loop pops exactly n entries, all DEL. |
| StateTableTests.SingleThread | tests/redis_state_ut.cpp:350-424 | singlethread, for any number of operations n: n SETs pop, all valid, then n DELs. So numberOfKeysSet <= numberOfKeyDeleted. |

## Left out

- Redis itself: DBConnector, the transactions, and the server-side scripts are the store and are not modelled. The table's state lives in the `Table` object. The constructor stands for a table over a store just emptied by FLUSHALL (`clearDB`).
- Select and Selectable are not modelled beyond "ready". Readiness is "some key is pending". Return codes such as `Select::OBJECT`, `Select::TIMEOUT` and the final `EXPECT_EQ(ret, Selectable::DATA)` are not modelled, nor is the one-second timeout.
- Threads are not modelled: the `test` and `multitable` scenarios, `producerWorker` and `consumerWorker` need concurrent producers and consumers.
- The `prefix` argument of `pop` and `pops` (default `EMPTY_PREFIX`) is not modelled. The model pops the key as stored.
- The numeric value of `POP_BATCH_SIZE` is set in the constructor's implementation, which is not part of this model. The model takes it as a constructor argument greater than zero.
- Output to `cout` (progress marks) is left out.
- TestHelpers.ReadNumberAtEOL: reads an unbounded natural number. It does not model the 32-bit `int` overflow of `is >> ret` for digit runs above INT_MAX. When no digit is present, it returns 0 where the source leaves `ret` uninitialised. ReadNumberAtEOLSucceeds models the `EXPECT_TRUE(is)`.
- TestHelpers.GetMaxFields and the loop counters use unbounded integers. `int` and `unsigned int` widths do not matter for the numbers the tests use.
- StateTable.Table.Pop: promises no order between keys, because the consumer class is a key set and neither consumerstatetable.h nor the tests fix an order between keys.
- ProducerStateTable is not part of this model. Its `set` and `del` are modelled from what the tests observe. The position of a merged field in the list is a modelling choice, because the merge happens in ProducerStateTable's server-side script, which this model does not include.
- The fields of an empty pop: the header promises only an empty key and op. The model also returns no fields.
- StateTableTests.SingleThread: NUMBER_OF_OPS (1000) is generalised to any n.
- A non-empty key is not required of producers, because neither the consumer header nor the tests reject an empty key.
