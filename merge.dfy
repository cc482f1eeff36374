/**
 The merge pass both generator scripts run over one protocol's packets: for
 each class (group) of the vendor description, if it has commands, upsert its
 commands group and assign each command its fresh value; then, if it has
 events, do the same in the events map.
 */
module Merge {

  import opened OrderedMaps
  import opened SourceApi
  import opened Entities
  import opened Upserts

  /** `protocols[pid]["packets"]`: the two group maps the merge writes. */
  datatype Protocol = Protocol(commands: GroupMap, events: GroupMap)

  /** `json_definition["protocols"]`: protocol id to that protocol's packets. */
  type Document = OMap<Protocol>

  ghost predicate ProtocolValid(p: Protocol)
  {
    GroupsValid(p.commands) && GroupsValid(p.events)
  }

  function CommandField(c: SourceCommand): Field
  {
    Field(c.id, CommandValue(c))
  }

  function EventField(e: SourceEvent): Field
  {
    Field(e.id, EventValue(e))
  }

  function CommandFields(cs: seq<SourceCommand>): (r: seq<Field>)
    ensures |r| == |cs|
  {
    seq(|cs|, i requires 0 <= i < |cs| => CommandField(cs[i]))
  }

  function EventFields(es: seq<SourceEvent>): (r: seq<Field>)
    ensures |r| == |es|
  {
    seq(|es|, i requires 0 <= i < |es| => EventField(es[i]))
  }

  /** What a class writes into the commands map: nothing unless it has a `command` list. */
  function CommandWrite(g: SourceGroup): Option<GroupWrite>
  {
    if g.commands.Some? then Some(GroupWrite(g.id, g.name, CommandFields(g.commands.value))) else None
  }

  function EventWrite(g: SourceGroup): Option<GroupWrite>
  {
    if g.events.Some? then Some(GroupWrite(g.id, g.name, EventFields(g.events.value))) else None
  }

  /** One class of the description, commands first and then events. */
  function MergeGroup(p: Protocol, g: SourceGroup): Protocol
  {
    Protocol(
      if g.commands.Some? then ApplyGroupWrite(p.commands, CommandWrite(g).value) else p.commands,
      if g.events.Some? then ApplyGroupWrite(p.events, EventWrite(g).value) else p.events)
  }

  /** The protocol after merging the classes `gs` in order. */
  function Merged(p: Protocol, gs: seq<SourceGroup>): Protocol
    decreases |gs|
  {
    if gs == [] then p else MergeGroup(Merged(p, gs[..|gs| - 1]), gs[|gs| - 1])
  }

  /** The body of the scripts' `if "command" in class_def:` block: group upsert, then every command in order. */
  method MergeCommands(m: GroupMap, g: SourceGroup) returns (r: GroupMap)
    requires g.commands.Some?
    ensures r == ApplyGroupWrite(m, CommandWrite(g).value)
  {
    r := UpsertGroup(m, g.id, g.name);
    r := PutFields(r, g.id, CommandFields(g.commands.value));
  }

  /** The body of the `if "event" in class_def:` block. */
  method MergeEvents(m: GroupMap, g: SourceGroup) returns (r: GroupMap)
    requires g.events.Some?
    ensures r == ApplyGroupWrite(m, EventWrite(g).value)
  {
    r := UpsertGroup(m, g.id, g.name);
    r := PutFields(r, g.id, EventFields(g.events.value));
  }

  /** The inner loop of the scripts: `group[entity_id] = value` for each entity in order. */
  method PutFields(m: GroupMap, gid: string, fs: seq<Field>) returns (r: GroupMap)
    requires gid in m.vals
    ensures r == PutEntities(m, gid, fs)
  {
    r := m;
    for j := 0 to |fs|
      invariant gid in r.vals
      invariant r == PutEntities(m, gid, fs[..j])
    {
      assert fs[..j + 1][..j] == fs[..j];
      r := PutEntity(r, gid, fs[j]);
    }
    assert fs[..|fs|] == fs;
  }

  /** The outer loop of the scripts over the classes of one protocol. */
  method MergeGroups(p: Protocol, gs: seq<SourceGroup>) returns (r: Protocol)
    ensures r == Merged(p, gs)
  {
    r := p;
    for i := 0 to |gs|
      invariant r == Merged(p, gs[..i])
    {
      var g := gs[i];
      var commands := r.commands;
      if g.commands.Some? {
        commands := MergeCommands(commands, g);
      }
      var events := r.events;
      if g.events.Some? {
        events := MergeEvents(events, g);
      }
      assert gs[..i + 1][..i] == gs[..i];
      r := Protocol(commands, events);
    }
    assert gs[..|gs|] == gs;
  }

  // ---------------------------------------------------------------------
  // The pass as writes: each kind's map sees only its classes' writes.
  // ---------------------------------------------------------------------

  function CommandWrites(gs: seq<SourceGroup>): seq<GroupWrite>
    decreases |gs|
  {
    if gs == [] then []
    else
      var g := gs[|gs| - 1];
      CommandWrites(gs[..|gs| - 1]) + (if g.commands.Some? then [CommandWrite(g).value] else [])
  }

  function EventWrites(gs: seq<SourceGroup>): seq<GroupWrite>
    decreases |gs|
  {
    if gs == [] then []
    else
      var g := gs[|gs| - 1];
      EventWrites(gs[..|gs| - 1]) + (if g.events.Some? then [EventWrite(g).value] else [])
  }

  lemma WrittenSnoc(ws: seq<GroupWrite>, w: GroupWrite, gid: string, k: string)
    ensures Written(ws + [w], gid, k)
         == if w.id == gid && LastField(Cells(w), k).Some? then LastField(Cells(w), k) else Written(ws, gid, k)
  {
    assert (ws + [w])[..|ws + [w]| - 1] == ws;
  }

  lemma ApplyWritesSnoc(m: GroupMap, ws: seq<GroupWrite>, w: GroupWrite)
    ensures ApplyWrites(m, ws + [w]) == ApplyGroupWrite(ApplyWrites(m, ws), w)
  {
    assert (ws + [w])[..|ws + [w]| - 1] == ws;
  }

  /** The commands map after the pass is the commands map with the classes' command writes applied. */
  lemma {:induction false} MergedAsWrites(p: Protocol, gs: seq<SourceGroup>)
    ensures Merged(p, gs).commands == ApplyWrites(p.commands, CommandWrites(gs))
    ensures Merged(p, gs).events == ApplyWrites(p.events, EventWrites(gs))
    decreases |gs|
  {
    if gs != [] {
      var init := gs[..|gs| - 1];
      var g := gs[|gs| - 1];
      MergedAsWrites(p, init);
      if g.commands.Some? {
        ApplyWritesSnoc(p.commands, CommandWrites(init), CommandWrite(g).value);
      } else {
        assert CommandWrites(gs) == CommandWrites(init);
      }
      if g.events.Some? {
        ApplyWritesSnoc(p.events, EventWrites(init), EventWrite(g).value);
      } else {
        assert EventWrites(gs) == EventWrites(init);
      }
    }
  }

  // ---------------------------------------------------------------------
  // Properties of the pass, in the description's terms.
  // ---------------------------------------------------------------------

  /** Merging the same description twice gives the same packets as merging it once. */
  lemma MergedIdempotent(p: Protocol, gs: seq<SourceGroup>)
    ensures Merged(Merged(p, gs), gs) == Merged(p, gs)
  {
    var once := Merged(p, gs);
    MergedAsWrites(p, gs);
    MergedAsWrites(once, gs);
    ApplyWritesIdempotent(p.commands, CommandWrites(gs));
    ApplyWritesIdempotent(p.events, EventWrites(gs));
  }

  /** Every class and key already present keeps its position; the dictionaries stay well formed. */
  lemma MergedOrder(p: Protocol, gs: seq<SourceGroup>)
    ensures IsPrefix(p.commands.keys, Merged(p, gs).commands.keys)
    ensures IsPrefix(p.events.keys, Merged(p, gs).events.keys)
    ensures forall g :: g in p.commands.vals ==>
      g in Merged(p, gs).commands.vals && IsPrefix(p.commands.vals[g].keys, Merged(p, gs).commands.vals[g].keys)
    ensures forall g :: g in p.events.vals ==>
      g in Merged(p, gs).events.vals && IsPrefix(p.events.vals[g].keys, Merged(p, gs).events.vals[g].keys)
    ensures ProtocolValid(p) ==> ProtocolValid(Merged(p, gs))
  {
    MergedAsWrites(p, gs);
    ApplyWritesOrder(p.commands, CommandWrites(gs));
    ApplyWritesOrder(p.events, EventWrites(gs));
    if ProtocolValid(p) {
      ApplyWritesValid(p.commands, CommandWrites(gs));
      ApplyWritesValid(p.events, EventWrites(gs));
    }
  }

  /** A class id that no class with commands carries: its commands group is exactly as before (or still absent). */
  lemma {:induction false} CommandsGroupUntouched(p: Protocol, gs: seq<SourceGroup>, gid: string)
    requires forall i :: 0 <= i < |gs| && gs[i].id == gid ==> gs[i].commands.None?
    ensures Get(Merged(p, gs).commands, gid) == Get(p.commands, gid)
    decreases |gs|
  {
    if gs != [] {
      var init := gs[..|gs| - 1];
      var g := gs[|gs| - 1];
      assert forall i :: 0 <= i < |init| ==> init[i] == gs[i];
      CommandsGroupUntouched(p, init, gid);
      var before := Merged(p, init);
      assert Merged(p, gs) == MergeGroup(before, g);
      if g.commands.Some? {
        assert g.id != gid;
        assert Get(ApplyGroupWrite(before.commands, CommandWrite(g).value), gid) == Get(before.commands, gid);
      }
    }
  }

  lemma {:induction false} EventsGroupUntouched(p: Protocol, gs: seq<SourceGroup>, gid: string)
    requires forall i :: 0 <= i < |gs| && gs[i].id == gid ==> gs[i].events.None?
    ensures Get(Merged(p, gs).events, gid) == Get(p.events, gid)
    decreases |gs|
  {
    if gs != [] {
      var init := gs[..|gs| - 1];
      var g := gs[|gs| - 1];
      assert forall i :: 0 <= i < |init| ==> init[i] == gs[i];
      EventsGroupUntouched(p, init, gid);
      var before := Merged(p, init);
      assert Merged(p, gs) == MergeGroup(before, g);
      if g.events.Some? {
        assert g.id != gid;
        assert Get(ApplyGroupWrite(before.events, EventWrite(g).value), gid) == Get(before.events, gid);
      }
    }
  }

  // With distinct class ids, what each key of a class's group holds afterwards.

  lemma {:induction false} CommandWritesNone(gs: seq<SourceGroup>, gid: string, k: string)
    requires forall a :: 0 <= a < |gs| ==> gs[a].id != gid
    ensures Written(CommandWrites(gs), gid, k) == None
    decreases |gs|
  {
    if gs != [] {
      var init := gs[..|gs| - 1];
      var g := gs[|gs| - 1];
      assert forall i :: 0 <= i < |init| ==> init[i] == gs[i];
      CommandWritesNone(init, gid, k);
      if g.commands.Some? {
        WrittenSnoc(CommandWrites(init), CommandWrite(g).value, gid, k);
      } else {
        assert CommandWrites(gs) == CommandWrites(init);
      }
    }
  }

  lemma {:induction false} EventWritesNone(gs: seq<SourceGroup>, gid: string, k: string)
    requires forall a :: 0 <= a < |gs| ==> gs[a].id != gid
    ensures Written(EventWrites(gs), gid, k) == None
    decreases |gs|
  {
    if gs != [] {
      var init := gs[..|gs| - 1];
      var g := gs[|gs| - 1];
      assert forall i :: 0 <= i < |init| ==> init[i] == gs[i];
      EventWritesNone(init, gid, k);
      if g.events.Some? {
        WrittenSnoc(EventWrites(init), EventWrite(g).value, gid, k);
      } else {
        assert EventWrites(gs) == EventWrites(init);
      }
    }
  }

  /** With distinct class ids, class `i` alone decides every key of its commands group. */
  lemma {:induction false} CommandWritesByClass(gs: seq<SourceGroup>, i: nat, k: string)
    requires i < |gs| && gs[i].commands.Some?
    requires forall a, b :: 0 <= a < b < |gs| ==> gs[a].id != gs[b].id
    ensures Written(CommandWrites(gs), gs[i].id, k) == LastField(Cells(CommandWrite(gs[i]).value), k)
    decreases |gs|
  {
    var init := gs[..|gs| - 1];
    var g := gs[|gs| - 1];
    assert forall a :: 0 <= a < |init| ==> init[a] == gs[a];
    if g.commands.Some? {
      WrittenSnoc(CommandWrites(init), CommandWrite(g).value, gs[i].id, k);
    } else {
      assert CommandWrites(gs) == CommandWrites(init);
    }
    if i == |gs| - 1 {
      CommandWritesNone(init, gs[i].id, k);
    } else {
      assert g.id != gs[i].id;
      CommandWritesByClass(init, i, k);
    }
  }

  lemma {:induction false} EventWritesByClass(gs: seq<SourceGroup>, i: nat, k: string)
    requires i < |gs| && gs[i].events.Some?
    requires forall a, b :: 0 <= a < b < |gs| ==> gs[a].id != gs[b].id
    ensures Written(EventWrites(gs), gs[i].id, k) == LastField(Cells(EventWrite(gs[i]).value), k)
    decreases |gs|
  {
    var init := gs[..|gs| - 1];
    var g := gs[|gs| - 1];
    assert forall a :: 0 <= a < |init| ==> init[a] == gs[a];
    if g.events.Some? {
      WrittenSnoc(EventWrites(init), EventWrite(g).value, gs[i].id, k);
    } else {
      assert EventWrites(gs) == EventWrites(init);
    }
    if i == |gs| - 1 {
      EventWritesNone(init, gs[i].id, k);
    } else {
      assert g.id != gs[i].id;
      EventWritesByClass(init, i, k);
    }
  }

  /**
   With distinct ids, after the pass the group of a class with commands has
   that class's name, each of its commands replaced by exactly the fresh
   value, and every other key (hand-added ones included) as before.
   */
  lemma CommandsGroupAfterMerge(p: Protocol, gs: seq<SourceGroup>, i: nat)
    requires i < |gs| && gs[i].commands.Some?
    requires DistinctIds(gs)
    ensures gs[i].id in Merged(p, gs).commands.vals
    ensures Cell(Merged(p, gs).commands, gs[i].id, "name") == Some(JStr(gs[i].name))
    ensures forall j :: 0 <= j < |gs[i].commands.value| ==>
      Cell(Merged(p, gs).commands, gs[i].id, gs[i].commands.value[j].id) == Some(CommandValue(gs[i].commands.value[j]))
    ensures forall k :: k != "name" && (forall j :: 0 <= j < |gs[i].commands.value| ==> gs[i].commands.value[j].id != k) ==>
      Cell(Merged(p, gs).commands, gs[i].id, k) == Cell(p.commands, gs[i].id, k)
  {
    var cs := gs[i].commands.value;
    var w := CommandWrite(gs[i]).value;
    assert forall a :: 0 <= a < |w.fields| ==> w.fields[a] == CommandField(cs[a]);
    forall k
      ensures Written(CommandWrites(gs), w.id, k) == LastField(Cells(w), k)
    {
      CommandWritesByClass(gs, i, k);
    }
    MergedAsWrites(p, gs);
    GroupAfterWrites(p.commands, CommandWrites(gs), w);
  }

  /**
   With distinct ids, after the pass the group of a class with events has
   that class's name, each of its events replaced by exactly the fresh
   value, and every other key (hand-added ones included) as before.
   */
  lemma EventsGroupAfterMerge(p: Protocol, gs: seq<SourceGroup>, i: nat)
    requires i < |gs| && gs[i].events.Some?
    requires DistinctIds(gs)
    ensures gs[i].id in Merged(p, gs).events.vals
    ensures Cell(Merged(p, gs).events, gs[i].id, "name") == Some(JStr(gs[i].name))
    ensures forall j :: 0 <= j < |gs[i].events.value| ==>
      Cell(Merged(p, gs).events, gs[i].id, gs[i].events.value[j].id) == Some(EventValue(gs[i].events.value[j]))
    ensures forall k :: k != "name" && (forall j :: 0 <= j < |gs[i].events.value| ==> gs[i].events.value[j].id != k) ==>
      Cell(Merged(p, gs).events, gs[i].id, k) == Cell(p.events, gs[i].id, k)
  {
    var es := gs[i].events.value;
    var w := EventWrite(gs[i]).value;
    assert forall a :: 0 <= a < |w.fields| ==> w.fields[a] == EventField(es[a]);
    forall k
      ensures Written(EventWrites(gs), w.id, k) == LastField(Cells(w), k)
    {
      EventWritesByClass(gs, i, k);
    }
    MergedAsWrites(p, gs);
    GroupAfterWrites(p.events, EventWrites(gs), w);
  }

}
