/**
 The keyed upserts both scripts perform on `packets["commands"]` and on
 `packets["events"]`: for one class, create its group if absent, overwrite the
 group's `name`, then assign each entity id its fresh value. The same code
 serves both kinds, so it is stated here once, over a "group write": the
 class id, the class name and the entity fields to assign, in source order.
 */
module Upserts {

  import opened OrderedMaps
  import opened Entities

  /** One class's dictionary: the key `name` plus one key per entity id. */
  type Group = OMap<Json>

  /** `packets["commands"]` or `packets["events"]`: class id to class dictionary. */
  type GroupMap = OMap<Group>

  /** One assignment `group[key] = value`. */
  datatype Field = Field(key: string, value: Json)

  /** What one class of the vendor description writes into one kind's group map. */
  datatype GroupWrite = GroupWrite(id: string, name: string, fields: seq<Field>)

  ghost predicate GroupsValid(m: GroupMap)
  {
    Valid(m) && forall g :: g in m.vals ==> Valid(m.vals[g])
  }

  /** `m[gid][k]`, or `None` when either key is missing. */
  function Cell(m: GroupMap, gid: string, k: string): Option<Json>
  {
    if gid in m.vals then Get(m.vals[gid], k) else None
  }

  /** Create-if-absent, then overwrite `name`; every other key keeps its value and position. */
  function UpsertGroup(m: GroupMap, gid: string, name: string): (r: GroupMap)
    ensures r.vals.Keys == m.vals.Keys + {gid}
    ensures Cell(r, gid, "name") == Some(JStr(name))
    ensures forall g, k :: g != gid || k != "name" ==> Cell(r, g, k) == Cell(m, g, k)
    ensures forall g :: g != gid ==> Get(r, g) == Get(m, g)
    ensures gid !in m.vals ==> r.keys == m.keys + [gid] && r.vals[gid].keys == ["name"]
    ensures gid in m.vals ==> r.keys == m.keys && IsPrefix(m.vals[gid].keys, r.vals[gid].keys)
    ensures gid in m.vals && "name" in m.vals[gid].vals ==> r.vals[gid].keys == m.vals[gid].keys
    ensures GroupsValid(m) ==> GroupsValid(r)
  {
    var created := if gid in m.vals then m else Put(m, gid, Empty());
    Put(created, gid, Put(created.vals[gid], "name", JStr(name)))
  }

  /** `m[gid][f.key] = f.value`: the entity is replaced wholesale. */
  function PutEntity(m: GroupMap, gid: string, f: Field): (r: GroupMap)
    requires gid in m.vals
    ensures r.vals.Keys == m.vals.Keys && r.keys == m.keys
    ensures Cell(r, gid, f.key) == Some(f.value)
    ensures forall g, k :: g != gid || k != f.key ==> Cell(r, g, k) == Cell(m, g, k)
    ensures forall g :: g != gid ==> Get(r, g) == Get(m, g)
    ensures IsPrefix(m.vals[gid].keys, r.vals[gid].keys)
    ensures f.key in m.vals[gid].vals ==> r.vals[gid].keys == m.vals[gid].keys
    ensures GroupsValid(m) ==> GroupsValid(r)
  {
    Put(m, gid, Put(m.vals[gid], f.key, f.value))
  }

  /** The inner loop: assign every field, in order, into the existing group `gid`. */
  function PutEntities(m: GroupMap, gid: string, fs: seq<Field>): (r: GroupMap)
    requires gid in m.vals
    ensures r.vals.Keys == m.vals.Keys && r.keys == m.keys
    ensures forall g :: g != gid ==> Get(r, g) == Get(m, g)
    ensures IsPrefix(m.vals[gid].keys, r.vals[gid].keys)
    ensures GroupsValid(m) ==> GroupsValid(r)
    decreases |fs|
  {
    if fs == [] then m
    else
      var before := PutEntities(m, gid, fs[..|fs| - 1]);
      var r := PutEntity(before, gid, fs[|fs| - 1]);
      PrefixTransitive(m.vals[gid].keys, before.vals[gid].keys, r.vals[gid].keys);
      r
  }

  /** One class: the group upsert, then its entities. */
  function ApplyGroupWrite(m: GroupMap, w: GroupWrite): (r: GroupMap)
    ensures r.vals.Keys == m.vals.Keys + {w.id}
    ensures forall g :: g != w.id ==> Get(r, g) == Get(m, g)
    ensures IsPrefix(m.keys, r.keys)
    ensures w.id in m.vals ==> IsPrefix(m.vals[w.id].keys, r.vals[w.id].keys)
  {
    var up := UpsertGroup(m, w.id, w.name);
    var r := PutEntities(up, w.id, w.fields);
    assert w.id in m.vals ==> IsPrefix(m.vals[w.id].keys, r.vals[w.id].keys) by {
      if w.id in m.vals {
        PrefixTransitive(m.vals[w.id].keys, up.vals[w.id].keys, r.vals[w.id].keys);
      }
    }
    r
  }

  /** The outer loop: every class of the description, in order. */
  function ApplyWrites(m: GroupMap, ws: seq<GroupWrite>): (r: GroupMap)
    decreases |ws|
  {
    if ws == [] then m else ApplyGroupWrite(ApplyWrites(m, ws[..|ws| - 1]), ws[|ws| - 1])
  }

  // ---------------------------------------------------------------------
  // Reference definition: the value under a key is the one written last.
  // ---------------------------------------------------------------------

  /** The value of the last field with key `k`, if any. */
  function LastField(fs: seq<Field>, k: string): Option<Json>
    decreases |fs|
  {
    if fs == [] then None
    else if fs[|fs| - 1].key == k then Some(fs[|fs| - 1].value)
    else LastField(fs[..|fs| - 1], k)
  }

  /** All assignments one class makes to its group, in the order they happen. */
  function Cells(w: GroupWrite): seq<Field>
  {
    [Field("name", JStr(w.name))] + w.fields
  }

  /** The last value the writes `ws` assign to `m[gid][k]`, if they assign one. */
  function Written(ws: seq<GroupWrite>, gid: string, k: string): Option<Json>
    decreases |ws|
  {
    if ws == [] then None
    else
      var w := ws[|ws| - 1];
      if w.id == gid && LastField(Cells(w), k).Some? then LastField(Cells(w), k)
      else Written(ws[..|ws| - 1], gid, k)
  }

  ghost predicate Touched(ws: seq<GroupWrite>, gid: string)
  {
    exists i :: 0 <= i < |ws| && ws[i].id == gid
  }

  lemma {:induction false} LastFieldAppend(a: seq<Field>, b: seq<Field>, k: string)
    ensures LastField(a + b, k) == if LastField(b, k).Some? then LastField(b, k) else LastField(a, k)
    decreases |b|
  {
    if b != [] {
      assert (a + b)[..|a + b| - 1] == a + b[..|b| - 1];
      LastFieldAppend(a, b[..|b| - 1], k);
    } else {
      assert a + b == a;
    }
  }

  /** After the inner loop, each key holds the last value assigned to it, or what it held before. */
  lemma {:induction false} PutEntitiesCells(m: GroupMap, gid: string, fs: seq<Field>, g: string, k: string)
    requires gid in m.vals
    ensures Cell(PutEntities(m, gid, fs), g, k)
         == if g == gid && LastField(fs, k).Some? then LastField(fs, k) else Cell(m, g, k)
    decreases |fs|
  {
    if fs != [] {
      PutEntitiesCells(m, gid, fs[..|fs| - 1], g, k);
    }
  }

  lemma ApplyGroupWriteCells(m: GroupMap, w: GroupWrite, g: string, k: string)
    ensures Cell(ApplyGroupWrite(m, w), g, k)
         == if g == w.id && LastField(Cells(w), k).Some? then LastField(Cells(w), k) else Cell(m, g, k)
  {
    PutEntitiesCells(UpsertGroup(m, w.id, w.name), w.id, w.fields, g, k);
    LastFieldAppend([Field("name", JStr(w.name))], w.fields, k);
  }

  /**
   The whole pass, key by key: every (class id, key) pair the description
   writes holds its last written value; every other pair is as before.
   */
  lemma {:induction false} ApplyWritesCells(m: GroupMap, ws: seq<GroupWrite>, g: string, k: string)
    ensures Cell(ApplyWrites(m, ws), g, k) == if Written(ws, g, k).Some? then Written(ws, g, k) else Cell(m, g, k)
    decreases |ws|
  {
    if ws != [] {
      ApplyWritesCells(m, ws[..|ws| - 1], g, k);
      ApplyGroupWriteCells(ApplyWrites(m, ws[..|ws| - 1]), ws[|ws| - 1], g, k);
    }
  }

  /** A group exists afterwards exactly when it existed before or the description has that class. */
  lemma TouchedSplit(ws: seq<GroupWrite>, g: string)
    requires ws != []
    ensures Touched(ws, g) <==> Touched(ws[..|ws| - 1], g) || ws[|ws| - 1].id == g
  {
    var init := ws[..|ws| - 1];
    if Touched(init, g) {
      var i :| 0 <= i < |init| && init[i].id == g;
      assert ws[i].id == g;
    }
    if Touched(ws, g) && ws[|ws| - 1].id != g {
      var i :| 0 <= i < |ws| && ws[i].id == g;
      assert init[i].id == g;
    }
  }

  lemma {:induction false} ApplyWritesPresence(m: GroupMap, ws: seq<GroupWrite>, g: string)
    ensures g in ApplyWrites(m, ws).vals <==> g in m.vals || Touched(ws, g)
    decreases |ws|
  {
    if ws != [] {
      var init := ws[..|ws| - 1];
      var before := ApplyWrites(m, init);
      ApplyWritesPresence(m, init, g);
      TouchedSplit(ws, g);
      assert ApplyWrites(m, ws).vals.Keys == before.vals.Keys + {ws[|ws| - 1].id};
    }
  }

  /** A group whose class id the description does not have is left exactly as it was. */
  lemma {:induction false} ApplyWritesUntouched(m: GroupMap, ws: seq<GroupWrite>, g: string)
    requires !Touched(ws, g)
    ensures Get(ApplyWrites(m, ws), g) == Get(m, g)
    decreases |ws|
  {
    if ws != [] {
      var init := ws[..|ws| - 1];
      assert !Touched(init, g) by {
        forall i | 0 <= i < |init| ensures init[i].id != g {
          assert init[i] == ws[i];
        }
      }
      ApplyWritesUntouched(m, init, g);
      assert ws[|ws| - 1].id != g;
    }
  }

  /**
   Existing keys keep their positions, at both levels: the old class order is
   an initial segment of the new one, and so is each old group's key order.
   */
  lemma {:induction false} ApplyWritesOrder(m: GroupMap, ws: seq<GroupWrite>)
    ensures IsPrefix(m.keys, ApplyWrites(m, ws).keys)
    ensures forall g :: g in m.vals ==> g in ApplyWrites(m, ws).vals && IsPrefix(m.vals[g].keys, ApplyWrites(m, ws).vals[g].keys)
    decreases |ws|
  {
    if ws != [] {
      var init := ws[..|ws| - 1];
      var w := ws[|ws| - 1];
      var before := ApplyWrites(m, init);
      var up := UpsertGroup(before, w.id, w.name);
      var r := ApplyWrites(m, ws);
      ApplyWritesOrder(m, init);
      assert IsPrefix(before.keys, r.keys);
      PrefixTransitive(m.keys, before.keys, r.keys);
      forall g | g in m.vals
        ensures g in r.vals && IsPrefix(m.vals[g].keys, r.vals[g].keys)
      {
        if g == w.id {
          PrefixTransitive(before.vals[g].keys, up.vals[g].keys, r.vals[g].keys);
          PrefixTransitive(m.vals[g].keys, before.vals[g].keys, r.vals[g].keys);
        } else {
          assert Get(r, g) == Get(before, g);
        }
      }
    }
  }

  /** Every key the description would create already exists: then no key order changes. */
  ghost predicate AllPresent(m: GroupMap, ws: seq<GroupWrite>)
  {
    forall g, k :: Written(ws, g, k).Some? ==> Cell(m, g, k).Some?
  }

  lemma WrittenName(ws: seq<GroupWrite>, i: nat)
    requires i < |ws|
    ensures Written(ws, ws[i].id, "name").Some?
    decreases |ws|
  {
    var w := ws[|ws| - 1];
    LastFieldAppend([Field("name", JStr(w.name))], w.fields, "name");
    if i < |ws| - 1 && !(w.id == ws[i].id && LastField(Cells(w), "name").Some?) {
      WrittenName(ws[..|ws| - 1], i);
    }
  }

  lemma {:induction false} AllPresentPrefix(m: GroupMap, ws: seq<GroupWrite>)
    requires ws != [] && AllPresent(m, ws)
    ensures AllPresent(m, ws[..|ws| - 1])
  {
    var init := ws[..|ws| - 1];
    forall g, k | Written(init, g, k).Some?
      ensures Cell(m, g, k).Some?
    {
      assert Written(ws, g, k).Some?;
    }
  }

  /** The inner loop creates no key when every key it assigns is already in the group. */
  lemma {:induction false} PutEntitiesStable(m: GroupMap, gid: string, fs: seq<Field>)
    requires gid in m.vals
    requires forall i :: 0 <= i < |fs| ==> Cell(m, gid, fs[i].key).Some?
    ensures PutEntities(m, gid, fs).vals[gid].keys == m.vals[gid].keys
    decreases |fs|
  {
    if fs != [] {
      var init := fs[..|fs| - 1];
      var f := fs[|fs| - 1];
      assert forall i :: 0 <= i < |init| ==> init[i] == fs[i];
      PutEntitiesStable(m, gid, init);
      PutEntitiesCells(m, gid, init, gid, f.key);
    }
  }

  /** Under `AllPresent`, every cell the last write assigns already exists before it. */
  lemma LastWriteCellsPresent(m: GroupMap, ws: seq<GroupWrite>)
    requires ws != [] && AllPresent(m, ws)
    ensures var w := ws[|ws| - 1];
      var before := ApplyWrites(m, ws[..|ws| - 1]);
      && w.id in before.vals && "name" in before.vals[w.id].vals
      && forall i :: 0 <= i < |w.fields| ==> Cell(before, w.id, w.fields[i].key).Some?
  {
    var init := ws[..|ws| - 1];
    var w := ws[|ws| - 1];
    WrittenName(ws, |ws| - 1);
    ApplyWritesCells(m, init, w.id, "name");
    forall i | 0 <= i < |w.fields|
      ensures Cell(ApplyWrites(m, init), w.id, w.fields[i].key).Some?
    {
      var k := w.fields[i].key;
      LastFieldIn(w.fields, i);
      LastFieldAppend([Field("name", JStr(w.name))], w.fields, k);
      assert Written(ws, w.id, k).Some?;
      ApplyWritesCells(m, init, w.id, k);
    }
  }

  /** When every written cell already exists, applying the writes changes no key order at either level. */
  lemma {:induction false} ApplyWritesStable(m: GroupMap, ws: seq<GroupWrite>)
    requires AllPresent(m, ws)
    ensures ApplyWrites(m, ws).keys == m.keys
    ensures forall g :: g in m.vals ==> g in ApplyWrites(m, ws).vals && ApplyWrites(m, ws).vals[g].keys == m.vals[g].keys
    decreases |ws|
  {
    if ws != [] {
      var init := ws[..|ws| - 1];
      var w := ws[|ws| - 1];
      AllPresentPrefix(m, ws);
      ApplyWritesStable(m, init);
      LastWriteCellsPresent(m, ws);
      var before := ApplyWrites(m, init);
      var up := UpsertGroup(before, w.id, w.name);
      assert forall i :: 0 <= i < |w.fields| ==> Cell(up, w.id, w.fields[i].key).Some?;
      PutEntitiesStable(up, w.id, w.fields);
      var r := PutEntities(up, w.id, w.fields);
      assert r == ApplyWrites(m, ws);
      forall g | g in m.vals
        ensures g in r.vals && r.vals[g].keys == m.vals[g].keys
      {
        if g != w.id {
          assert Get(r, g) == Get(before, g);
        }
      }
    }
  }

  lemma {:induction false} LastFieldIn(fs: seq<Field>, i: nat)
    requires i < |fs|
    ensures LastField(fs, fs[i].key).Some?
    decreases |fs|
  {
    if i < |fs| - 1 && fs[|fs| - 1].key != fs[i].key {
      LastFieldIn(fs[..|fs| - 1], i);
    }
  }

  /** Running the same writes twice gives the same group map, key order included. */
  lemma ApplyWritesIdempotent(m: GroupMap, ws: seq<GroupWrite>)
    ensures ApplyWrites(ApplyWrites(m, ws), ws) == ApplyWrites(m, ws)
  {
    var r1 := ApplyWrites(m, ws);
    var r2 := ApplyWrites(r1, ws);
    forall g, k | Written(ws, g, k).Some?
      ensures Cell(r1, g, k).Some?
    {
      ApplyWritesCells(m, ws, g, k);
    }
    ApplyWritesStable(r1, ws);
    forall g
      ensures g in r2.vals <==> g in r1.vals
    {
      ApplyWritesPresence(r1, ws, g);
      ApplyWritesPresence(m, ws, g);
    }
    forall g, k
      ensures Cell(r2, g, k) == Cell(r1, g, k)
    {
      ApplyWritesCells(r1, ws, g, k);
      ApplyWritesCells(m, ws, g, k);
    }
    GroupMapExtensionality(r1, r2);
  }

  lemma GroupMapExtensionality(a: GroupMap, b: GroupMap)
    requires a.keys == b.keys
    requires forall g :: g in a.vals <==> g in b.vals
    requires forall g :: g in a.vals ==> a.vals[g].keys == b.vals[g].keys
    requires forall g, k :: Cell(a, g, k) == Cell(b, g, k)
    ensures a == b
  {
    forall g | g in a.vals
      ensures a.vals[g] == b.vals[g]
    {
      forall k
        ensures Get(a.vals[g], k) == Get(b.vals[g], k)
      {
        assert Cell(a, g, k) == Cell(b, g, k);
      }
      Extensionality(a.vals[g], b.vals[g]);
    }
    forall g
      ensures Get(a, g) == Get(b, g)
    {
    }
    Extensionality(a, b);
  }

  /** The pass keeps the ordered-dictionary invariant at both levels. */
  lemma {:induction false} ApplyWritesValid(m: GroupMap, ws: seq<GroupWrite>)
    requires GroupsValid(m)
    ensures GroupsValid(ApplyWrites(m, ws))
    decreases |ws|
  {
    if ws != [] {
      ApplyWritesValid(m, ws[..|ws| - 1]);
    }
  }

  /** A class's cells when its entity ids are distinct and none of them is "name". */
  lemma {:induction false} DistinctCells(w: GroupWrite, k: string)
    requires forall a, b :: 0 <= a < b < |w.fields| ==> w.fields[a].key != w.fields[b].key
    requires forall a :: 0 <= a < |w.fields| ==> w.fields[a].key != "name"
    ensures k == "name" ==> LastField(Cells(w), k) == Some(JStr(w.name))
    ensures forall j :: 0 <= j < |w.fields| && w.fields[j].key == k ==> LastField(Cells(w), k) == Some(w.fields[j].value)
    ensures k != "name" && (forall j :: 0 <= j < |w.fields| ==> w.fields[j].key != k) ==> LastField(Cells(w), k) == None
  {
    LastFieldAppend([Field("name", JStr(w.name))], w.fields, k);
    if j :| 0 <= j < |w.fields| && w.fields[j].key == k {
      LastFieldDistinct(w.fields, j);
    } else {
      LastFieldAbsent(w.fields, k);
    }
  }

  lemma {:induction false} LastFieldDistinct(fs: seq<Field>, j: nat)
    requires j < |fs|
    requires forall a, b :: 0 <= a < b < |fs| ==> fs[a].key != fs[b].key
    ensures LastField(fs, fs[j].key) == Some(fs[j].value)
    decreases |fs|
  {
    if j < |fs| - 1 {
      LastFieldDistinct(fs[..|fs| - 1], j);
    }
  }

  lemma {:induction false} LastFieldAbsent(fs: seq<Field>, k: string)
    requires forall a :: 0 <= a < |fs| ==> fs[a].key != k
    ensures LastField(fs, k) == None
    decreases |fs|
  {
    if fs != [] {
      LastFieldAbsent(fs[..|fs| - 1], k);
    }
  }

  /** The group of a class that alone decides its cells: name, each entity, and every other key as before. */
  lemma GroupAfterWrites(m: GroupMap, ws: seq<GroupWrite>, w: GroupWrite)
    requires forall a, b :: 0 <= a < b < |w.fields| ==> w.fields[a].key != w.fields[b].key
    requires forall a :: 0 <= a < |w.fields| ==> w.fields[a].key != "name"
    requires forall k :: Written(ws, w.id, k) == LastField(Cells(w), k)
    ensures w.id in ApplyWrites(m, ws).vals
    ensures Cell(ApplyWrites(m, ws), w.id, "name") == Some(JStr(w.name))
    ensures forall j :: 0 <= j < |w.fields| ==> Cell(ApplyWrites(m, ws), w.id, w.fields[j].key) == Some(w.fields[j].value)
    ensures forall k :: k != "name" && (forall j :: 0 <= j < |w.fields| ==> w.fields[j].key != k) ==>
      Cell(ApplyWrites(m, ws), w.id, k) == Cell(m, w.id, k)
  {
    var r := ApplyWrites(m, ws);
    ApplyWritesCells(m, ws, w.id, "name");
    DistinctCells(w, "name");
    forall j | 0 <= j < |w.fields|
      ensures Cell(r, w.id, w.fields[j].key) == Some(w.fields[j].value)
    {
      ApplyWritesCells(m, ws, w.id, w.fields[j].key);
      DistinctCells(w, w.fields[j].key);
    }
    forall k | k != "name" && (forall j :: 0 <= j < |w.fields| ==> w.fields[j].key != k)
      ensures Cell(r, w.id, k) == Cell(m, w.id, k)
    {
      ApplyWritesCells(m, ws, w.id, k);
      DistinctCells(w, k);
    }
  }
}
