/** Field/value lists of a table entry and the last-writer-wins merge that
    coalesces repeated producer sets on one key. */
module FieldValues {

  /** One field/value pair of an entry (a FieldValueTuple, read with fvField
      and fvValue). */
  datatype FieldValue = FieldValue(field: string, value: string)

  /** The field names that occur in a list. */
  function Names(fvs: seq<FieldValue>): set<string>
  {
    set j | 0 <= j < |fvs| :: fvs[j].field
  }

  /** No field name occurs twice in the list. */
  predicate NoDupFields(fvs: seq<FieldValue>)
  {
    forall i, j :: 0 <= i < j < |fvs| ==> fvs[i].field != fvs[j].field
  }

  /** The map a reader obtains by assigning the pairs from first to last, so
      that for a repeated field the later pair wins (the `mm[fvField(fv)] =
      fvValue(fv)` loop of the tests). */
  function ToMap(fvs: seq<FieldValue>): (m: map<string, string>)
    ensures m.Keys == Names(fvs)
  {
    if fvs == [] then map[]
    else
      NamesSplit(fvs);
      map[fvs[0].field := fvs[0].value] + ToMap(fvs[1..])
  }

  lemma NamesSplit(fvs: seq<FieldValue>)
    requires fvs != []
    ensures Names(fvs) == {fvs[0].field} + Names(fvs[1..])
  {
    forall f | f in Names(fvs) ensures f in {fvs[0].field} + Names(fvs[1..]) {
      var j :| 0 <= j < |fvs| && fvs[j].field == f;
      if j > 0 { assert fvs[1..][j - 1] == fvs[j]; }
    }
    forall f | f in Names(fvs[1..]) ensures f in Names(fvs) {
      var j :| 0 <= j < |fvs[1..]| && fvs[1..][j].field == f;
      assert fvs[j + 1] == fvs[1..][j];
    }
  }

  /** Writes one pair: an existing field is overwritten where it stands, a new
      field is appended at the end. */
  function Upsert(fvs: seq<FieldValue>, x: FieldValue): (r: seq<FieldValue>)
    ensures Names(r) == Names(fvs) + {x.field}
  {
    if fvs == [] then
      NamesSplit([x]);
      [x]
    else
      NamesSplit(fvs);
      var r := if fvs[0].field == x.field then [x] + fvs[1..] else [fvs[0]] + Upsert(fvs[1..], x);
      NamesSplit(r);
      assert r[1..] == if fvs[0].field == x.field then fvs[1..] else Upsert(fvs[1..], x);
      r
  }

  /** A field not yet present goes to the end. */
  lemma {:induction false} UpsertNew(fvs: seq<FieldValue>, x: FieldValue)
    requires x.field !in Names(fvs)
    ensures Upsert(fvs, x) == fvs + [x]
  {
    if fvs != [] {
      NamesSplit(fvs);
      UpsertNew(fvs[1..], x);
      assert [fvs[0]] + (fvs[1..] + [x]) == fvs + [x];
    }
  }

  /** A field already present keeps its position; no other field moves. */
  lemma {:induction false} UpsertInPlace(fvs: seq<FieldValue>, x: FieldValue)
    requires x.field in Names(fvs)
    ensures |Upsert(fvs, x)| == |fvs|
    ensures forall j :: 0 <= j < |fvs| ==>
      Upsert(fvs, x)[j] == if fvs[j].field == x.field && x.field !in Names(fvs[..j]) then x else fvs[j]
  {
    NamesSplit(fvs);
    if fvs[0].field == x.field {
      UpsertAtHead(fvs, x);
    } else {
      UpsertInPlace(fvs[1..], x);
      UpsertPastHead(fvs, x);
    }
  }

  lemma UpsertAtHead(fvs: seq<FieldValue>, x: FieldValue)
    requires fvs != [] && fvs[0].field == x.field
    ensures |Upsert(fvs, x)| == |fvs|
    ensures forall j :: 0 <= j < |fvs| ==>
      Upsert(fvs, x)[j] == if fvs[j].field == x.field && x.field !in Names(fvs[..j]) then x else fvs[j]
  {
    assert Upsert(fvs, x) == [x] + fvs[1..];
    assert Names(fvs[..0]) == {};
    forall j | 0 < j < |fvs| ensures x.field in Names(fvs[..j]) {
      assert fvs[..j][0] == fvs[0];
    }
  }

  lemma UpsertPastHead(fvs: seq<FieldValue>, x: FieldValue)
    requires fvs != [] && fvs[0].field != x.field
    requires |Upsert(fvs[1..], x)| == |fvs[1..]|
    requires forall j :: 0 <= j < |fvs[1..]| ==>
      Upsert(fvs[1..], x)[j] == if fvs[1..][j].field == x.field && x.field !in Names(fvs[1..][..j]) then x else fvs[1..][j]
    ensures |Upsert(fvs, x)| == |fvs|
    ensures forall j :: 0 <= j < |fvs| ==>
      Upsert(fvs, x)[j] == if fvs[j].field == x.field && x.field !in Names(fvs[..j]) then x else fvs[j]
  {
    var r := Upsert(fvs, x);
    assert r == [fvs[0]] + Upsert(fvs[1..], x);
    forall j | 0 < j < |fvs|
      ensures r[j] == if fvs[j].field == x.field && x.field !in Names(fvs[..j]) then x else fvs[j]
    {
      PrefixNames(fvs, j);
      assert fvs[1..][j - 1] == fvs[j];
    }
  }

  lemma PrefixNames(fvs: seq<FieldValue>, j: nat)
    requires 0 < j <= |fvs|
    ensures Names(fvs[..j]) == {fvs[0].field} + Names(fvs[1..][..j - 1])
  {
    assert fvs[..j] != [] && fvs[..j][1..] == fvs[1..][..j - 1];
    NamesSplit(fvs[..j]);
  }

  /** Without repeated fields, writing one pair keeps the list free of
      repeats. */
  lemma {:induction false} UpsertNoDup(fvs: seq<FieldValue>, x: FieldValue)
    requires NoDupFields(fvs)
    ensures NoDupFields(Upsert(fvs, x))
  {
    if fvs != [] {
      NamesSplit(fvs);
      var r := Upsert(fvs, x);
      assert fvs[0].field !in Names(fvs[1..]);
      if fvs[0].field == x.field {
        forall i, j | 0 <= i < j < |r| ensures r[i].field != r[j].field {
          assert r[j] == fvs[j];
          if i > 0 { assert r[i] == fvs[i]; }
        }
      } else {
        assert NoDupFields(fvs[1..]);
        UpsertNoDup(fvs[1..], x);
        var rest := Upsert(fvs[1..], x);
        assert r == [fvs[0]] + rest;
        forall i, j | 0 <= i < j < |r| ensures r[i].field != r[j].field {
          assert r[j] == rest[j - 1];
          if i > 0 { assert r[i] == rest[i - 1]; }
          else { assert rest[j - 1].field in Names(rest); }
        }
      }
    }
  }

  /** Without repeated fields, writing one pair overwrites exactly that field
      of the map a reader sees. */
  lemma {:induction false} UpsertMap(fvs: seq<FieldValue>, x: FieldValue)
    requires NoDupFields(fvs)
    ensures ToMap(Upsert(fvs, x)) == ToMap(fvs)[x.field := x.value]
  {
    if fvs != [] {
      NamesSplit(fvs);
      var r := Upsert(fvs, x);
      var f0 := fvs[0];
      assert f0.field !in Names(fvs[1..]);
      if f0.field == x.field {
        assert r[1..] == fvs[1..];
        OverwriteHead(x.field, f0.value, x.value, ToMap(fvs[1..]));
      } else {
        assert NoDupFields(fvs[1..]);
        UpsertMap(fvs[1..], x);
        assert r[1..] == Upsert(fvs[1..], x);
        OverwriteTail(f0.field, f0.value, ToMap(fvs[1..]), x.field, x.value);
      }
    }
  }

  lemma OverwriteHead(k: string, v0: string, v: string, b: map<string, string>)
    requires k !in b
    ensures (map[k := v0] + b)[k := v] == map[k := v] + b
  {
  }

  lemma OverwriteTail(k0: string, v0: string, b: map<string, string>, k: string, v: string)
    ensures map[k0 := v0] + b[k := v] == (map[k0 := v0] + b)[k := v]
  {
  }

  lemma UpdateAsUnion(a: map<string, string>, k: string, v: string, c: map<string, string>)
    ensures a[k := v] + c == a + (map[k := v] + c)
  {
    assert a[k := v] == a + map[k := v];
    UnionAssoc(a, map[k := v], c);
  }

  /** Applies the pairs of `updates` in order on top of `fvs`. */
  function Merge(fvs: seq<FieldValue>, updates: seq<FieldValue>): (r: seq<FieldValue>)
    ensures Names(r) == Names(fvs) + Names(updates)
    decreases |updates|
  {
    if updates == [] then fvs
    else
      NamesSplit(updates);
      Merge(Upsert(fvs, updates[0]), updates[1..])
  }

  /** Without repeated fields to start with, a merge keeps the list free of
      repeats. */
  lemma {:induction false} MergeNoDup(fvs: seq<FieldValue>, updates: seq<FieldValue>)
    requires NoDupFields(fvs)
    ensures NoDupFields(Merge(fvs, updates))
    decreases |updates|
  {
    if updates != [] {
      UpsertNoDup(fvs, updates[0]);
      MergeNoDup(Upsert(fvs, updates[0]), updates[1..]);
    }
  }

  /** Without repeated fields to start with, reading a merge gives the old map
      overwritten, field by field, by the updates (last writer wins). */
  lemma {:induction false} MergeMap(fvs: seq<FieldValue>, updates: seq<FieldValue>)
    requires NoDupFields(fvs)
    ensures ToMap(Merge(fvs, updates)) == ToMap(fvs) + ToMap(updates)
    decreases |updates|
  {
    if updates != [] {
      var u := updates[0];
      UpsertMap(fvs, u);
      UpsertNoDup(fvs, u);
      MergeMap(Upsert(fvs, u), updates[1..]);
      UpdateAsUnion(ToMap(fvs), u.field, u.value, ToMap(updates[1..]));
    }
  }

  lemma UnionAssoc(a: map<string, string>, b: map<string, string>, c: map<string, string>)
    ensures (a + b) + c == a + (b + c)
  {
  }

  /** In a list without repeated fields there is one pair per field name. */
  lemma {:induction false} NoDupCount(fvs: seq<FieldValue>)
    requires NoDupFields(fvs)
    ensures |Names(fvs)| == |fvs|
  {
    if fvs != [] {
      NamesSplit(fvs);
      assert NoDupFields(fvs[1..]);
      NoDupCount(fvs[1..]);
      assert fvs[0].field !in Names(fvs[1..]);
    }
  }

  /** Merging a list whose fields are all new keeps every pair, in order. */
  lemma {:induction false} MergeFresh(fvs: seq<FieldValue>, updates: seq<FieldValue>)
    requires NoDupFields(fvs + updates)
    ensures Merge(fvs, updates) == fvs + updates
    decreases |updates|
  {
    if updates != [] {
      var x := updates[0];
      assert x == (fvs + updates)[|fvs|];
      assert x.field !in Names(fvs) by {
        forall j | 0 <= j < |fvs| ensures fvs[j].field != x.field {
          assert fvs[j] == (fvs + updates)[j];
        }
      }
      assert fvs + updates == (fvs + [x]) + updates[1..];
      UpsertNew(fvs, x);
      MergeFresh(fvs + [x], updates[1..]);
    }
  }

  /** Merging into an empty entry yields the update list itself when it names
      each field once. */
  lemma MergeIntoEmpty(updates: seq<FieldValue>)
    requires NoDupFields(updates)
    ensures Merge([], updates) == updates
  {
    assert [] + updates == updates;
    MergeFresh([], updates);
  }

  /** Reading a concatenation: pairs of the second list win over the first. */
  lemma {:induction false} ToMapAppend(p: seq<FieldValue>, q: seq<FieldValue>)
    ensures ToMap(p + q) == ToMap(p) + ToMap(q)
  {
    if p == [] {
      assert p + q == q;
    } else {
      assert (p + q)[1..] == p[1..] + q;
      ToMapAppend(p[1..], q);
      UnionAssoc(map[p[0].field := p[0].value], ToMap(p[1..]), ToMap(q));
    }
  }
}
