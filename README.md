# perilib-generators merge pass, in Dafny

The two generator scripts of perilib-generators fold a parsed vendor API
description into the protocol definitions document (`perilib-definitions/*.json`),
which is loaded and kept as nested insertion-ordered dictionaries:

- `silabs_bgapi/build_perilib_json.py` merges five Silicon Labs BGAPI
  descriptions (technologies `ble`, `gecko`, `dumo`, `wifi121`, `wifi110`),
  each into the protocol its technology maps to through `id_map`;
- `cypress_ezserial/build_perilib_json.py` merges the EZ-Serial description
  into the single protocol `cypress-ezserial`.

For every class (group) of a description, in order: if it has commands, the
class's commands group is created when absent, its `name` is overwritten, and
each command id is assigned a fresh `{name, command_args[, response_args]}`
value; then, if it has events, the same happens in the events map with
`{name, event_args}`. A null parameter list becomes `[]`, otherwise each
parameter becomes `{name, type}` in order. `response_args` is written only when
the command has `returns` (null gives `[]`).

The model:

- `ordered_maps.dfy` (`OrderedMaps`): an ordered dictionary as a key-order
  sequence plus a map. Assigning an existing key keeps its position; a new key
  is appended.
- `source_api.dfy` (`SourceApi`): one normalised shape for both parsed
  descriptions (class/group, command, event, parameter, three-state `returns`).
- `entities.dfy` (`Entities`): JSON values, the fresh entity values the merge
  builds, and decoders that read a stored entity back. Round-trip lemmas show
  what a stored entity holds and that nothing else is in it.
- `upserts.dfy` (`Upserts`): the keyed upserts on one kind's group map, stated
  once for commands and events as a sequence of "group writes", with a
  reference "last write wins" definition (`Written`) and the frame, order,
  stability, validity and idempotence lemmas proved against it.
- `merge.dfy` (`Merge`): the shared merge pass over one protocol's packets, as
  loops (`MergeGroups`, `MergeCommands`, `MergeEvents`, `PutFields`) proved
  equal to the fold `Merged`, and lemmas stating the pass in the description's
  terms.
- `silabs_bgapi.dfy` (`SilabsBgapi`): `id_map` routing over the technologies.
- `cypress_ezserial.dfy` (`CypressEzserial`): the single-protocol script.

The document is handled as a value: each loop threads the current document
through its iterations and returns the new one, which is what the scripts'
in-place updates of the one global `json_definition` amount to (nothing else
holds a reference to it).

The scripts replace every command and event wholesale
(`silabs_bgapi/build_perilib_json.py:98`, `cypress_ezserial/build_perilib_json.py:68`):
hand-added parameter fields such as `shortdesc`/`format` and an earlier
`response_args` are discarded, and parameter lists are neither merged by
position nor kept when they shrink. The model does the same.

## Model

| member | source | states |
|---|---|---|
| OrderedMaps.Put | silabs_bgapi/build_perilib_json.py:11 | an `OrderedDict` assignment stores the value under the key, leaves other keys alone, keeps an existing key's position, appends a new key, and keeps keys distinct |
| Entities.ParamValue | silabs_bgapi/build_perilib_json.py:71 | a projected parameter is an object with exactly the keys `name` then `type` |
| Entities.ProjectRoundTrip | silabs_bgapi/build_perilib_json.py:71 | projecting a parameter list keeps its length and order and each element reads back as exactly that parameter's name and type |
| Entities.ProjectAt | cypress_ezserial/build_perilib_json.py:41 | element i of a projected list has exactly the keys `name`, `type` and reads back as parameter i |
| Entities.ArgsValue | silabs_bgapi/build_perilib_json.py:67-71 | the args value is a list; `[]` for null params, otherwise as long as the params |
| Entities.ArgsRoundTrip | cypress_ezserial/build_perilib_json.py:37-41 | the args value reads back as the parameters, null read as the empty list |
| Entities.ResponseValue | silabs_bgapi/build_perilib_json.py:81-87 | a `response_args` value exists exactly when the command has `returns` |
| Entities.CommandValue | cypress_ezserial/build_perilib_json.py:34-56 | a fresh command has keys `name`, `command_args` and, exactly when the source has `returns`, `response_args`, in that order |
| Entities.CommandRoundTrip | silabs_bgapi/build_perilib_json.py:64-87 | a fresh command holds exactly the source name, its params (null as `[]`) and, exactly when `returns` is present, the returns (null as `[]`); nothing of an older value |
| Entities.EventValue | cypress_ezserial/build_perilib_json.py:83-90 | a fresh event has exactly the keys `name`, `event_args`; never `command_args` or `response_args` |
| Entities.EventRoundTrip | silabs_bgapi/build_perilib_json.py:113-120 | a fresh event holds exactly the source name and its params (null as `[]`) |
| Upserts.UpsertGroup | silabs_bgapi/build_perilib_json.py:56-60 | the group exists afterwards, is appended with only `name` when it was absent, has the class name under `name`; every other class and key keeps its value and position |
| Upserts.PutEntity | silabs_bgapi/build_perilib_json.py:98 | the entity key holds exactly the new value; no other cell changes; the group's key order is extended, unchanged for an existing key |
| Upserts.PutEntities | silabs_bgapi/build_perilib_json.py:62-98 | the inner loop changes only the named group, extends its key order and keeps the dictionaries well formed |
| Upserts.ApplyGroupWrite | silabs_bgapi/build_perilib_json.py:52-98 | one class adds at most its own group, changes no other group and keeps existing key order |
| Upserts.ApplyWritesCells | silabs_bgapi/build_perilib_json.py:47-130 | after the pass each cell holds the value written to it last, or its old value when nothing wrote it |
| Upserts.ApplyWritesPresence | silabs_bgapi/build_perilib_json.py:56-57 | a group exists afterwards exactly when it existed before or some class wrote it |
| Upserts.ApplyWritesUntouched | silabs_bgapi/build_perilib_json.py:105-106 | a group no class names is unchanged |
| Upserts.ApplyWritesOrder | cypress_ezserial/build_perilib_json.py:26-27 | existing groups and keys keep their positions; new ones only follow them |
| Upserts.ApplyWritesStable | cypress_ezserial/build_perilib_json.py:75-79 | when every written key already exists, no key order changes at either level |
| Upserts.ApplyWritesIdempotent | silabs_bgapi/build_perilib_json.py:47-130 | applying the same writes twice equals applying them once, key order included |
| Upserts.ApplyWritesValid | silabs_bgapi/build_perilib_json.py:57 | well-formed ordered dictionaries stay well formed |
| Upserts.GroupAfterWrites | silabs_bgapi/build_perilib_json.py:60-98 | a class that alone writes its group (the last write to each key of the group is its own), with distinct entity ids other than `name`, leaves there its name, each of its entity values, and every other key as before |
| Merge.PutFields | cypress_ezserial/build_perilib_json.py:32-68 | the entity loop equals assigning each field in order into the group |
| Merge.MergeCommands | silabs_bgapi/build_perilib_json.py:52-98 | the commands block equals the group upsert followed by each command's fresh value |
| Merge.MergeEvents | silabs_bgapi/build_perilib_json.py:101-130 | the events block equals the group upsert followed by each event's fresh value |
| Merge.MergeGroups | silabs_bgapi/build_perilib_json.py:47-130 | the class loop equals the fold `Merged` of the per-class merge |
| Merge.MergedAsWrites | cypress_ezserial/build_perilib_json.py:17-100 | the commands map sees exactly the writes of the groups that have commands, the events map those of the groups that have events |
| Merge.MergedIdempotent | silabs_bgapi/build_perilib_json.py:43-130 | merging the same description twice gives the packets of merging it once |
| Merge.MergedOrder | silabs_bgapi/build_perilib_json.py:56-57 | existing groups and keys keep their positions in both maps; validity is preserved |
| Merge.CommandsGroupUntouched | silabs_bgapi/build_perilib_json.py:52 | a class id carried by no class with commands leaves that commands group as it was |
| Merge.EventsGroupUntouched | silabs_bgapi/build_perilib_json.py:101 | a class id carried by no class with events leaves that events group as it was |
| Merge.CommandsGroupAfterMerge | silabs_bgapi/build_perilib_json.py:56-98 | a class with commands: its group exists, has the class name, each command is exactly its fresh value, other keys are unchanged |
| Merge.EventsGroupAfterMerge | silabs_bgapi/build_perilib_json.py:105-130 | a class with events: its group exists, has the class name, each event is exactly its fresh value, other keys are unchanged |
| SilabsBgapi.IdMapInjective | silabs_bgapi/build_perilib_json.py:34-40 | distinct technologies route to distinct protocols |
| SilabsBgapi.MergeTechnology | silabs_bgapi/build_perilib_json.py:56 | one technology rewrites only `protocols[id_map[t]]`, to the merge of its classes; no protocol is added or moved |
| SilabsBgapi.MergeBgapi | silabs_bgapi/build_perilib_json.py:43-130 | the technology loop equals the fold over the technologies in load order |
| SilabsBgapi.MergedTechnologiesRouting | silabs_bgapi/build_perilib_json.py:43-47 | with distinct technologies, each routed protocol holds the merge of its own description into its old packets; every other protocol is unchanged |
| SilabsBgapi.BgapiRouting | silabs_bgapi/build_perilib_json.py:34-56 | the script writes only under `protocols[id_map[t]]`, each the merge of technology t; protocol order is unchanged |
| SilabsBgapi.BgapiIdempotent | silabs_bgapi/build_perilib_json.py:42-130 | running the script twice on the same descriptions gives the document of running it once |
| CypressEzserial.MergedEzserial | cypress_ezserial/build_perilib_json.py:26 | only `protocols["cypress-ezserial"]` changes, to the merge of the groups; protocol order is unchanged |
| CypressEzserial.MergeEzserial | cypress_ezserial/build_perilib_json.py:17-100 | the script's loop equals `MergedEzserial` |
| CypressEzserial.EzserialIdempotent | cypress_ezserial/build_perilib_json.py:16-100 | merging the same description twice equals merging it once |
| CypressEzserial.EzserialOrder | cypress_ezserial/build_perilib_json.py:75-76 | existing group ids keep their positions in both maps, and every existing group keeps its keys in their positions; validity is preserved |
| CypressEzserial.EzserialCommandsAfterMerge | cypress_ezserial/build_perilib_json.py:26-68 | a group with commands: its commands group exists, has the group name, each command is exactly its fresh value, other keys are as loaded |
| CypressEzserial.EzserialEventsAfterMerge | cypress_ezserial/build_perilib_json.py:75-100 | a group with events: its events group exists, has the group name, each event is exactly its fresh value, other keys are as loaded |
| CypressEzserial.EzserialCommandsUntouched | cypress_ezserial/build_perilib_json.py:22 | a group id carried by no group with commands leaves that commands group as loaded |
| CypressEzserial.EzserialEventsUntouched | cypress_ezserial/build_perilib_json.py:71 | a group id carried by no group with events leaves that events group as loaded |

## Left out

- File I/O and parsing (`open`, `json.load`, `json.dump`, `xmltodict.parse` with `force_list`): the parsed descriptions and the loaded document are inputs, the saved document is the result.
- Console output, including the `param_str` strings and the `int(...)` conversions in the "NO RESPONSE" message, which only affect what is printed. On a non-numeric id that `int(...)` raises and ends the script before `json.dump` (silabs_bgapi/build_perilib_json.py:95 before 133-134, cypress_ezserial/build_perilib_json.py:65 before 103-104), so no definitions file is written; the model always returns the merged document.
- Id typing: all class, group and entity ids are strings; EZ-Serial ids that are JSON numbers would not match string keys of the loaded document, a serialisation effect not modelled.
- Missing keys that make the scripts raise `KeyError` (a protocol id, `packets`, `commands`/`events`, `params`/`parameters`) are preconditions or are excluded by the types; a technology outside `id_map` is excluded by `SilabsBgapi.Routable`.
- A `command`/`commands` (or `event`/`events`) key that is present but null makes the scripts fail while iterating; the model has only "absent" and "a list".
- Keys of the document other than `protocols[*]["packets"]["commands"|"events"]` are never written by the scripts and are not represented.
- JSON floats; numbers are integers.
- The in-place update of the one global document is modelled as a value threaded through the loops; there is no aliasing in the scripts.
- Merge.CommandsGroupAfterMerge: assumes distinct class ids and distinct entity ids other than `name`; without that the later write wins, which `Upserts.ApplyWritesCells` states in general.
- Merge.EventsGroupAfterMerge: the same assumption as for commands.
- CypressEzserial.EzserialCommandsAfterMerge: the same assumption as for commands.
- CypressEzserial.EzserialEventsAfterMerge: the same assumption as for commands.
- SilabsBgapi.MergedTechnologiesRouting: assumes distinct technology keys, which a dictionary guarantees.
