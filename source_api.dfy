/**
 The vendor API description after parsing, in one shape for both vendors.

 The Silicon Labs BGAPI description is XML: a class has `@index` and `@name`,
 optional `command` and `event` lists, and each of those has `params/param`
 (and, for commands, an optional `returns/param`). The Cypress EZ-Serial
 description is JSON: a group has `id` and `name`, optional `commands` and
 `events` lists, and each entry has `parameters` (and optionally `returns`).
 Both name a parameter by `name` and `type`. Identifiers are strings.
 */
module SourceApi {

  import opened OrderedMaps

  /** One parameter as the merge reads it: only its name and type. */
  datatype SourceParam = SourceParam(name: string, typ: string)

  /**
   The `returns` entry of a command is three-state: the key is missing, it is
   present but null (an empty XML element / JSON `null`), or it holds a list.
   */
  datatype Returns = NoReturns | NullReturns | ReturnList(params: seq<SourceParam>)

  /** `params` (or `parameters`) is present on every entity; `None` stands for null. */
  datatype SourceCommand = SourceCommand(id: string, name: string, params: Option<seq<SourceParam>>, returnParams: Returns)

  datatype SourceEvent = SourceEvent(id: string, name: string, params: Option<seq<SourceParam>>)

  /** `None` means the `command`/`commands` (or `event`/`events`) key is absent from the class. */
  datatype SourceGroup = SourceGroup(
    id: string,
    name: string,
    commands: Option<seq<SourceCommand>>,
    events: Option<seq<SourceEvent>>)

  /**
   The assumption the per-class lemmas make: class ids are distinct; within a
   class, command ids are distinct among its commands and event ids among its
   events (a command and an event may share an id); and no entity id is the
   string "name", which would collide with the class's own `name` key.
   */
  ghost predicate DistinctIds(gs: seq<SourceGroup>)
  {
    && (forall i, j :: 0 <= i < j < |gs| ==> gs[i].id != gs[j].id)
    && (forall i :: 0 <= i < |gs| ==> CommandIdsDistinct(gs[i].commands) && EventIdsDistinct(gs[i].events))
  }

  ghost predicate CommandIdsDistinct(cs: Option<seq<SourceCommand>>)
  {
    cs.Some? ==>
      && (forall i, j :: 0 <= i < j < |cs.value| ==> cs.value[i].id != cs.value[j].id)
      && (forall i :: 0 <= i < |cs.value| ==> cs.value[i].id != "name")
  }

  ghost predicate EventIdsDistinct(es: Option<seq<SourceEvent>>)
  {
    es.Some? ==>
      && (forall i, j :: 0 <= i < j < |es.value| ==> es.value[i].id != es.value[j].id)
      && (forall i :: 0 <= i < |es.value| ==> es.value[i].id != "name")
  }
}
