/**
 The Cypress EZ-Serial generator: one parsed API description (`groups`)
 merged into the single protocol `cypress-ezserial`.
 */
module CypressEzserial {

  import opened OrderedMaps
  import opened SourceApi
  import opened Entities
  import opened Upserts
  import opened Merge

  const ProtocolId: string := "cypress-ezserial"

  /**
   The document after the script's loop over `api["groups"]`: only the
   `cypress-ezserial` protocol changes, to the merge of the groups into it;
   no protocol is added or moved.
   */
  function MergedEzserial(doc: Document, groups: seq<SourceGroup>): (r: Document)
    requires ProtocolId in doc.vals
    ensures r.keys == doc.keys && r.vals.Keys == doc.vals.Keys
    ensures Get(r, ProtocolId) == Some(Merged(doc.vals[ProtocolId], groups))
    ensures forall pid :: pid != ProtocolId ==> Get(r, pid) == Get(doc, pid)
  {
    Put(doc, ProtocolId, Merged(doc.vals[ProtocolId], groups))
  }

  /** The whole script between loading and saving. */
  method MergeEzserial(doc: Document, groups: seq<SourceGroup>) returns (r: Document)
    requires ProtocolId in doc.vals
    ensures r == MergedEzserial(doc, groups)
  {
    var p := MergeGroups(doc.vals[ProtocolId], groups);
    r := Put(doc, ProtocolId, p);
  }

  /** Running the script twice on the same description gives the document of running it once. */
  lemma EzserialIdempotent(doc: Document, groups: seq<SourceGroup>)
    requires ProtocolId in doc.vals
    ensures MergedEzserial(MergedEzserial(doc, groups), groups) == MergedEzserial(doc, groups)
  {
    var once := MergedEzserial(doc, groups);
    var twice := MergedEzserial(once, groups);
    MergedIdempotent(doc.vals[ProtocolId], groups);
    Extensionality(twice, once);
  }

  /** Groups and keys already in the protocol keep their positions; well-formed dictionaries stay well formed. */
  lemma EzserialOrder(doc: Document, groups: seq<SourceGroup>)
    requires ProtocolId in doc.vals
    ensures var before := doc.vals[ProtocolId];
      var after := MergedEzserial(doc, groups).vals[ProtocolId];
      && IsPrefix(before.commands.keys, after.commands.keys)
      && IsPrefix(before.events.keys, after.events.keys)
      && (forall g :: g in before.commands.vals ==>
            g in after.commands.vals && IsPrefix(before.commands.vals[g].keys, after.commands.vals[g].keys))
      && (forall g :: g in before.events.vals ==>
            g in after.events.vals && IsPrefix(before.events.vals[g].keys, after.events.vals[g].keys))
      && (ProtocolValid(before) ==> ProtocolValid(after))
  {
    MergedOrder(doc.vals[ProtocolId], groups);
  }

  /**
   A group with `commands`: in the saved document its commands group has the
   group's name, each command holds exactly its fresh value, and every other
   key is as it was in the loaded document.
   */
  lemma EzserialCommandsAfterMerge(doc: Document, groups: seq<SourceGroup>, i: nat)
    requires ProtocolId in doc.vals
    requires i < |groups| && groups[i].commands.Some?
    requires DistinctIds(groups)
    ensures var before := doc.vals[ProtocolId].commands;
      var after := MergedEzserial(doc, groups).vals[ProtocolId].commands;
      var cs := groups[i].commands.value;
      && groups[i].id in after.vals
      && Cell(after, groups[i].id, "name") == Some(JStr(groups[i].name))
      && (forall j :: 0 <= j < |cs| ==> Cell(after, groups[i].id, cs[j].id) == Some(CommandValue(cs[j])))
      && (forall k :: k != "name" && (forall j :: 0 <= j < |cs| ==> cs[j].id != k) ==>
            Cell(after, groups[i].id, k) == Cell(before, groups[i].id, k))
  {
    CommandsGroupAfterMerge(doc.vals[ProtocolId], groups, i);
  }

  /** The same for a group with `events`. */
  lemma EzserialEventsAfterMerge(doc: Document, groups: seq<SourceGroup>, i: nat)
    requires ProtocolId in doc.vals
    requires i < |groups| && groups[i].events.Some?
    requires DistinctIds(groups)
    ensures var before := doc.vals[ProtocolId].events;
      var after := MergedEzserial(doc, groups).vals[ProtocolId].events;
      var es := groups[i].events.value;
      && groups[i].id in after.vals
      && Cell(after, groups[i].id, "name") == Some(JStr(groups[i].name))
      && (forall j :: 0 <= j < |es| ==> Cell(after, groups[i].id, es[j].id) == Some(EventValue(es[j])))
      && (forall k :: k != "name" && (forall j :: 0 <= j < |es| ==> es[j].id != k) ==>
            Cell(after, groups[i].id, k) == Cell(before, groups[i].id, k))
  {
    EventsGroupAfterMerge(doc.vals[ProtocolId], groups, i);
  }

  /** A group id that no group with commands carries: that commands group is as loaded (or still absent). */
  lemma EzserialCommandsUntouched(doc: Document, groups: seq<SourceGroup>, gid: string)
    requires ProtocolId in doc.vals
    requires forall i :: 0 <= i < |groups| && groups[i].id == gid ==> groups[i].commands.None?
    ensures Get(MergedEzserial(doc, groups).vals[ProtocolId].commands, gid) == Get(doc.vals[ProtocolId].commands, gid)
  {
    CommandsGroupUntouched(doc.vals[ProtocolId], groups, gid);
  }

  /** A group id that no group with events carries: that events group is as loaded (or still absent). */
  lemma EzserialEventsUntouched(doc: Document, groups: seq<SourceGroup>, gid: string)
    requires ProtocolId in doc.vals
    requires forall i :: 0 <= i < |groups| && groups[i].id == gid ==> groups[i].events.None?
    ensures Get(MergedEzserial(doc, groups).vals[ProtocolId].events, gid) == Get(doc.vals[ProtocolId].events, gid)
  {
    EventsGroupUntouched(doc.vals[ProtocolId], groups, gid);
  }
}
