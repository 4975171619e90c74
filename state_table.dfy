/** The shared state of one producer/consumer state table: the set of pending
    keys (the table's key set) and, for each pending key, its coalesced entry.
    Producers call Set and Del; consumers call Pop and Pops. */
module StateTable {
  import opened FieldValues

  /** The operation a pending entry will be delivered with. */
  datatype Op = SetOp | DelOp

  const SET_COMMAND: string := "SET"
  const DEL_COMMAND: string := "DEL"

  /** The op string a consumer sees. */
  function OpName(op: Op): string
  {
    match op
    case SetOp => SET_COMMAND
    case DelOp => DEL_COMMAND
  }

  /** The coalesced, not yet consumed mutation of one key. */
  datatype PendingEntry = PendingEntry(op: Op, fieldsValues: seq<FieldValue>)

  /** What a pop hands to the consumer (KeyOpFieldsValuesTuple: kfvKey, kfvOp,
      kfvFieldsValues). */
  datatype KeyOpFieldsValues = KeyOpFieldsValues(key: string, op: string, fieldsValues: seq<FieldValue>)

  /** The result of a pop when nothing is pending: empty key and empty op. */
  const EMPTY_RESULT: KeyOpFieldsValues := KeyOpFieldsValues("", "", [])

  /** A delete carries no fields; a field name occurs at most once. */
  predicate EntryValid(e: PendingEntry)
  {
    (e.op == DelOp ==> e.fieldsValues == []) && NoDupFields(e.fieldsValues)
  }

  predicate EntriesValid(entries: map<string, PendingEntry>)
  {
    forall k | k in entries :: EntryValid(entries[k])
  }

  /** The fields a set on `key` merges into: those of a pending SET, and none
      when the key is clean or its pending op is DEL. */
  function StartFields(entries: map<string, PendingEntry>, key: string): seq<FieldValue>
  {
    if key in entries && entries[key].op == SetOp then entries[key].fieldsValues else []
  }

  /** The entries after a producer's set(key, fields). */
  function AfterSet(entries: map<string, PendingEntry>, key: string, fields: seq<FieldValue>): (r: map<string, PendingEntry>)
    ensures r.Keys == entries.Keys + {key}
    ensures forall k | k in entries && k != key :: r[k] == entries[k]
    ensures r[key].op == SetOp
    ensures EntriesValid(entries) ==> EntriesValid(r)
    ensures EntriesValid(entries) ==>
      ToMap(r[key].fieldsValues) == ToMap(StartFields(entries, key)) + ToMap(fields)
  {
    var start := StartFields(entries, key);
    assert EntriesValid(entries) ==>
      NoDupFields(Merge(start, fields)) && ToMap(Merge(start, fields)) == ToMap(start) + ToMap(fields)
    by {
      if EntriesValid(entries) {
        MergeNoDup(start, fields);
        MergeMap(start, fields);
      }
    }
    entries[key := PendingEntry(SetOp, Merge(start, fields))]
  }

  /** The entries after a producer's del(key): whatever was pending is
      discarded and a DEL without fields takes its place. */
  function AfterDel(entries: map<string, PendingEntry>, key: string): (r: map<string, PendingEntry>)
    ensures r.Keys == entries.Keys + {key}
    ensures forall k | k in entries && k != key :: r[k] == entries[k]
    ensures EntriesValid(entries) ==> EntriesValid(r)
  {
    entries[key := PendingEntry(DelOp, [])]
  }

  /** The tuple a pop returns for a pending key and its entry. */
  function Delivered(key: string, e: PendingEntry): KeyOpFieldsValues
  {
    KeyOpFieldsValues(key, OpName(e.op), e.fieldsValues)
  }

  /** The keys of a batch of popped tuples. */
  function KeysOf(batch: seq<KeyOpFieldsValues>): set<string>
  {
    set i | 0 <= i < |batch| :: batch[i].key
  }

  /** No key occurs twice in a batch. */
  predicate DistinctKeys(batch: seq<KeyOpFieldsValues>)
  {
    forall i, j :: 0 <= i < j < |batch| ==> batch[i].key != batch[j].key
  }

  function Min(a: nat, b: nat): nat
  {
    if a <= b then a else b
  }

  /** The table as the store holds it. */
  class Table {
    /** How many entries one call of Pops takes at most. */
    const popBatchSize: nat
    /** The keys with a pending mutation. */
    var pending: set<string>
    /** The coalesced mutation of each pending key. */
    var entries: map<string, PendingEntry>

    ghost predicate Valid()
      reads this
    {
      popBatchSize > 0 && pending == entries.Keys && EntriesValid(entries)
    }

    /** A table in an empty store. */
    constructor (batchSize: nat)
      requires batchSize > 0
      ensures Valid()
      ensures popBatchSize == batchSize && pending == {} && entries == map[]
    {
      popBatchSize := batchSize;
      pending := {};
      entries := map[];
    }

    /** Producer set: marks the key pending and merges the fields into its
        entry, starting afresh after a pending DEL. */
    method Set(key: string, fields: seq<FieldValue>)
      requires Valid()
      modifies this
      ensures Valid()
      ensures pending == old(pending) + {key}
      ensures entries == AfterSet(old(entries), key, fields)
    {
      entries := AfterSet(entries, key, fields);
      pending := pending + {key};
    }

    /** Producer del: marks the key pending with op DEL and no fields. */
    method Del(key: string)
      requires Valid()
      modifies this
      ensures Valid()
      ensures pending == old(pending) + {key}
      ensures entries == AfterDel(old(entries), key)
    {
      entries := AfterDel(entries, key);
      pending := pending + {key};
    }

    /** Consumer pop: takes some pending key, returns its entry and forgets
        it; with nothing pending returns the empty key and op and changes
        nothing. */
    method Pop() returns (kco: KeyOpFieldsValues)
      requires Valid()
      modifies this
      ensures Valid()
      ensures old(pending) == {} ==>
        kco == EMPTY_RESULT && pending == old(pending) && entries == old(entries)
      ensures old(pending) != {} ==>
        && kco.key in old(pending)
        && kco == Delivered(kco.key, old(entries)[kco.key])
        && pending == old(pending) - {kco.key}
        && entries == old(entries) - {kco.key}
    {
      if pending == {} {
        kco := EMPTY_RESULT;
      } else {
        var k :| k in pending;
        kco := Delivered(k, entries[k]);
        pending := pending - {k};
        entries := entries - {k};
      }
    }

    /** Consumer pops: pops until the batch holds popBatchSize entries or
        nothing is pending. */
    method Pops() returns (vkco: seq<KeyOpFieldsValues>)
      requires Valid()
      modifies this
      ensures Valid()
      ensures |vkco| <= popBatchSize
      ensures |vkco| == Min(popBatchSize, |old(pending)|)
      ensures DistinctKeys(vkco)
      ensures forall i :: 0 <= i < |vkco| ==>
        vkco[i].key in old(pending) && vkco[i] == Delivered(vkco[i].key, old(entries)[vkco[i].key])
      ensures pending == old(pending) - KeysOf(vkco)
      ensures entries == old(entries) - KeysOf(vkco)
      ensures popBatchSize >= |old(pending)| ==> KeysOf(vkco) == old(pending)
    {
      vkco := [];
      while |vkco| < popBatchSize && pending != {}
        invariant Valid()
        invariant |vkco| <= popBatchSize
        invariant |pending| + |vkco| == |old(pending)|
        invariant BatchFrom(vkco, old(pending), old(entries), pending, entries)
        decreases |pending|
      {
        ghost var pendingBefore, entriesBefore := pending, entries;
        var kco := Pop();
        BatchAppend(vkco, kco, old(pending), old(entries), pendingBefore, entriesBefore, pending, entries);
        vkco := vkco + [kco];
      }
      BatchCovers(vkco, old(pending), old(entries), pending, entries);
    }
  }

  /** A batch popped so far from a table whose pending keys were `pending0`
      and entries `entries0`, leaving `pending` and `entries`. */
  ghost predicate BatchFrom(batch: seq<KeyOpFieldsValues>,
                            pending0: set<string>, entries0: map<string, PendingEntry>,
                            pending: set<string>, entries: map<string, PendingEntry>)
  {
    && DistinctKeys(batch)
    && (forall i :: 0 <= i < |batch| ==>
          batch[i].key in entries0 && batch[i] == Delivered(batch[i].key, entries0[batch[i].key]))
    && pending == pending0 - KeysOf(batch)
    && entries == entries0 - KeysOf(batch)
  }

  /** A batch that leaves nothing pending took every key that was pending. */
  lemma BatchCovers(batch: seq<KeyOpFieldsValues>,
                    pending0: set<string>, entries0: map<string, PendingEntry>,
                    pending: set<string>, entries: map<string, PendingEntry>)
    requires BatchFrom(batch, pending0, entries0, pending, entries)
    requires pending0 == entries0.Keys
    ensures pending == {} ==> KeysOf(batch) == pending0
  {
    forall k | k in KeysOf(batch) ensures k in pending0 {
      var i :| 0 <= i < |batch| && batch[i].key == k;
    }
    if pending == {} {
      forall k | k in pending0 ensures k in KeysOf(batch) {
        assert k !in pending;
      }
    }
  }

  lemma KeysOfAppend(batch: seq<KeyOpFieldsValues>, kco: KeyOpFieldsValues)
    ensures KeysOf(batch + [kco]) == KeysOf(batch) + {kco.key}
  {
    assert forall i :: 0 <= i < |batch| ==> (batch + [kco])[i] == batch[i];
    assert (batch + [kco])[|batch|] == kco;
  }

  /** One more pop extends the batch. */
  lemma BatchAppend(batch: seq<KeyOpFieldsValues>, kco: KeyOpFieldsValues,
                    pending0: set<string>, entries0: map<string, PendingEntry>,
                    pendingBefore: set<string>, entriesBefore: map<string, PendingEntry>,
                    pendingAfter: set<string>, entriesAfter: map<string, PendingEntry>)
    requires BatchFrom(batch, pending0, entries0, pendingBefore, entriesBefore)
    requires pending0 == entries0.Keys && pendingBefore == entriesBefore.Keys
    requires kco.key in pendingBefore && kco == Delivered(kco.key, entriesBefore[kco.key])
    requires pendingAfter == pendingBefore - {kco.key} && entriesAfter == entriesBefore - {kco.key}
    ensures BatchFrom(batch + [kco], pending0, entries0, pendingAfter, entriesAfter)
  {
    KeysOfAppend(batch, kco);
    assert kco.key !in KeysOf(batch);
    var b := batch + [kco];
    forall i | 0 <= i < |b| ensures b[i].key in entries0 && b[i] == Delivered(b[i].key, entries0[b[i].key]) {
      if i < |batch| { assert b[i] == batch[i]; }
    }
    forall i, j | 0 <= i < j < |b| ensures b[i].key != b[j].key {
      if j < |batch| { assert b[i] == batch[i] && b[j] == batch[j]; }
      else { assert b[i] == batch[i] && b[i].key in KeysOf(batch); }
    }
  }

  /** One producer call on a fixed key. */
  datatype Mutation = SetFields(fields: seq<FieldValue>) | Delete

  function Apply(entries: map<string, PendingEntry>, key: string, m: Mutation): map<string, PendingEntry>
  {
    match m
    case SetFields(f) => AfterSet(entries, key, f)
    case Delete => AfterDel(entries, key)
  }

  /** The entries after a run of producer calls on `key`, first to last. */
  function ApplyAll(entries: map<string, PendingEntry>, key: string, ms: seq<Mutation>): map<string, PendingEntry>
    decreases |ms|
  {
    if ms == [] then entries
    else Apply(ApplyAll(entries, key, ms[..|ms| - 1]), key, ms[|ms| - 1])
  }

  /** The run contains a delete. */
  predicate HasDelete(ms: seq<Mutation>)
    decreases |ms|
  {
    ms != [] && (ms[|ms| - 1] == Delete || HasDelete(ms[..|ms| - 1]))
  }

  /** The fields of all sets after the last delete of the run, in call order. */
  function FieldsSinceDelete(ms: seq<Mutation>): seq<FieldValue>
    decreases |ms|
  {
    if ms == [] then []
    else
      match ms[|ms| - 1]
      case Delete => []
      case SetFields(f) => FieldsSinceDelete(ms[..|ms| - 1]) + f
  }

  /** What a reader of the entry expects before the run: the pending SET's
      fields if the run has no delete, nothing otherwise. */
  function Base(entries: map<string, PendingEntry>, key: string, ms: seq<Mutation>): map<string, string>
  {
    if HasDelete(ms) then map[] else ToMap(StartFields(entries, key))
  }

  /** Any run of producer calls on one key leaves exactly one pending entry
      for it, touches no other key and keeps every entry well formed. */
  lemma {:induction false} CoalescingFrame(entries: map<string, PendingEntry>, key: string, ms: seq<Mutation>)
    requires EntriesValid(entries)
    requires ms != []
    ensures ApplyAll(entries, key, ms).Keys == entries.Keys + {key}
    ensures forall k | k in entries && k != key :: ApplyAll(entries, key, ms)[k] == entries[k]
    ensures EntriesValid(ApplyAll(entries, key, ms))
    decreases |ms|
  {
    var init := ms[..|ms| - 1];
    if init != [] {
      CoalescingFrame(entries, key, init);
    }
  }

  /** Coalescing: after a run of producer calls on one key, its entry is a DEL
      exactly when the last call was a delete, and reading its fields gives
      the last value written for each field since the last delete, on top of
      the fields already pending when the run has no delete. */
  lemma Coalescing(entries: map<string, PendingEntry>, key: string, ms: seq<Mutation>)
    requires EntriesValid(entries)
    requires ms != []
    ensures ApplyAll(entries, key, ms)[key].op == DelOp <==> ms[|ms| - 1] == Delete
    ensures ToMap(ApplyAll(entries, key, ms)[key].fieldsValues)
         == Base(entries, key, ms) + ToMap(FieldsSinceDelete(ms))
  {
    CoalescingOp(entries, key, ms);
    CoalescingFields(entries, key, ms);
  }

  /** The entry's op is decided by the last call alone. */
  lemma CoalescingOp(entries: map<string, PendingEntry>, key: string, ms: seq<Mutation>)
    requires ms != []
    ensures key in ApplyAll(entries, key, ms)
    ensures ApplyAll(entries, key, ms)[key].op == DelOp <==> ms[|ms| - 1] == Delete
  {
    assert ApplyAll(entries, key, ms) == Apply(ApplyAll(entries, key, ms[..|ms| - 1]), key, ms[|ms| - 1]);
  }

  lemma {:induction false} CoalescingFields(entries: map<string, PendingEntry>, key: string, ms: seq<Mutation>)
    requires EntriesValid(entries)
    requires ms != []
    ensures ToMap(ApplyAll(entries, key, ms)[key].fieldsValues)
         == Base(entries, key, ms) + ToMap(FieldsSinceDelete(ms))
    decreases |ms|
  {
    var init, last := ms[..|ms| - 1], ms[|ms| - 1];
    var before := ApplyAll(entries, key, init);
    assert ApplyAll(entries, key, ms) == Apply(before, key, last);
    match last
    case Delete =>
      assert HasDelete(ms) && FieldsSinceDelete(ms) == [];
      EmptyUnion(map[]);
    case SetFields(f) =>
      assert FieldsSinceDelete(ms) == FieldsSinceDelete(init) + f;
      assert HasDelete(ms) == HasDelete(init);
      ToMapAppend(FieldsSinceDelete(init), f);
      if init == [] {
        FirstSet(entries, key, f);
      } else {
        CoalescingFrame(entries, key, init);
        CoalescingOp(entries, key, init);
        CoalescingFields(entries, key, init);
        if before[key].op == SetOp {
          LaterSet(before, key, f, Base(entries, key, init), ToMap(FieldsSinceDelete(init)));
        } else {
          assert init[|init| - 1] == Delete;
          assert HasDelete(init) && FieldsSinceDelete(init) == [];
          SetAfterDel(before, key, f);
        }
      }
  }

  lemma FirstSet(entries: map<string, PendingEntry>, key: string, f: seq<FieldValue>)
    requires EntriesValid(entries)
    ensures ToMap(AfterSet(entries, key, f)[key].fieldsValues)
         == ToMap(StartFields(entries, key)) + (map[] + ToMap(f))
  {
    EmptyUnion(ToMap(f));
  }

  lemma LaterSet(before: map<string, PendingEntry>, key: string, f: seq<FieldValue>,
                 base: map<string, string>, since: map<string, string>)
    requires EntriesValid(before) && key in before && before[key].op == SetOp
    requires ToMap(before[key].fieldsValues) == base + since
    ensures ToMap(AfterSet(before, key, f)[key].fieldsValues) == base + (since + ToMap(f))
  {
    assert StartFields(before, key) == before[key].fieldsValues;
    UnionAssoc(base, since, ToMap(f));
  }

  lemma SetAfterDel(before: map<string, PendingEntry>, key: string, f: seq<FieldValue>)
    requires EntriesValid(before) && key in before && before[key].op == DelOp
    ensures ToMap(AfterSet(before, key, f)[key].fieldsValues) == map[] + (map[] + ToMap(f))
  {
    assert StartFields(before, key) == [];
    EmptyUnion(ToMap(f));
  }

  lemma EmptyUnion(m: map<string, string>)
    ensures map[] + m == m
  {
  }

  /** Coalescing never repeats a field: the entry holds one pair per field
      name written (so sets of {f0, f1} then {f0, f2} leave three fields). */
  lemma CoalescedFieldCount(entries: map<string, PendingEntry>, key: string, ms: seq<Mutation>)
    requires EntriesValid(entries)
    requires ms != []
    ensures |ApplyAll(entries, key, ms)[key].fieldsValues|
         == |Base(entries, key, ms).Keys + Names(FieldsSinceDelete(ms))|
  {
    CoalescingFrame(entries, key, ms);
    Coalescing(entries, key, ms);
    NoDupCount(ApplyAll(entries, key, ms)[key].fieldsValues);
  }

  /** A set on a key that is clean (never pending, or already popped) or whose
      pending op is DEL starts from empty: the entry holds exactly the given
      fields, in the given order. */
  lemma SetStartsFresh(entries: map<string, PendingEntry>, key: string, fields: seq<FieldValue>)
    requires key !in entries || entries[key].op == DelOp
    requires NoDupFields(fields)
    ensures AfterSet(entries, key, fields)[key] == PendingEntry(SetOp, fields)
  {
    MergeIntoEmpty(fields);
  }
}
