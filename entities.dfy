/**
 JSON values of the definitions document and the fresh entity values the
 merge builds from the vendor description: a parameter becomes
 `{name, type}`, a command `{name, command_args[, response_args]}`, an event
 `{name, event_args}`.
 */
module Entities {

  import opened OrderedMaps
  import opened SourceApi

  /** A JSON value as loaded with `object_pairs_hook=OrderedDict`. */
  datatype Json =
    | JNull
    | JBool(b: bool)
    | JNum(n: int)
    | JStr(s: string)
    | JArr(items: seq<Json>)
    | JObj(fields: OMap<Json>)

  /** `OrderedDict({"name": param[name], "type": param[type]})`. */
  function ParamValue(p: SourceParam): (r: Json)
    ensures r.JObj? && Valid(r.fields) && r.fields.keys == ["name", "type"]
  {
    JObj(Put(Put(Empty(), "name", JStr(p.name)), "type", JStr(p.typ)))
  }

  /** The list comprehension over a parameter list: one `{name, type}` per parameter, in order. */
  function Project(ps: seq<SourceParam>): (r: seq<Json>)
    ensures |r| == |ps|
  {
    seq(|ps|, i requires 0 <= i < |ps| => ParamValue(ps[i]))
  }

  /** A null parameter list becomes `[]`; a list is projected. */
  function ArgsValue(ps: Option<seq<SourceParam>>): (r: Json)
    ensures r.JArr?
    ensures ps.None? ==> r.items == []
    ensures ps.Some? ==> |r.items| == |ps.value|
  {
    match ps
    case None => JArr([])
    case Some(list) => JArr(Project(list))
  }

  /** The value written under `response_args`, if that key is written at all. */
  function ResponseValue(r: Returns): (v: Option<Json>)
    ensures v.None? <==> r.NoReturns?
  {
    match r
    case NoReturns => None
    case NullReturns => Some(JArr([]))
    case ReturnList(ps) => Some(JArr(Project(ps)))
  }

  /** The fresh value stored for a command; `response_args` is written only when the source has `returns`. */
  function CommandValue(c: SourceCommand): (r: Json)
    ensures r.JObj? && Valid(r.fields)
    ensures r.fields.keys == ["name", "command_args"] + (if c.returnParams.NoReturns? then [] else ["response_args"])
    ensures "response_args" in r.fields.vals <==> !c.returnParams.NoReturns?
  {
    var named := Put(Empty(), "name", JStr(c.name));
    var base := Put(named, "command_args", ArgsValue(c.params));
    assert base.keys == ["name", "command_args"];
    var rsp := ResponseValue(c.returnParams);
    if rsp.None? then JObj(base) else JObj(Put(base, "response_args", rsp.value))
  }

  /** The fresh value stored for an event. */
  function EventValue(e: SourceEvent): (r: Json)
    ensures r.JObj? && Valid(r.fields)
    ensures r.fields.keys == ["name", "event_args"]
    ensures "command_args" !in r.fields.vals && "response_args" !in r.fields.vals
  {
    JObj(Put(Put(Empty(), "name", JStr(e.name)), "event_args", ArgsValue(e.params)))
  }

  // ---------------------------------------------------------------------
  // Reading entities back. These are the partners of the builders above:
  // a decoder accepts exactly the documented key sets and nothing more.
  // ---------------------------------------------------------------------

  /** A parameter object with exactly the keys `name` and `type`, both strings. */
  function DecodeParam(j: Json): Option<SourceParam>
  {
    if j.JObj? && j.fields.keys == ["name", "type"] then
      match (Get(j.fields, "name"), Get(j.fields, "type"))
      case (Some(JStr(n)), Some(JStr(t))) => Some(SourceParam(n, t))
      case _ => None
    else None
  }

  function DecodeParams(items: seq<Json>): Option<seq<SourceParam>>
  {
    if items == [] then Some([])
    else match (DecodeParam(items[0]), DecodeParams(items[1..]))
      case (Some(p), Some(rest)) => Some([p] + rest)
      case _ => None
  }

  function DecodeArgs(j: Json): Option<seq<SourceParam>>
  {
    if j.JArr? then DecodeParams(j.items) else None
  }

  /** What a stored command says: its name, its arguments, and its response arguments if it has the key. */
  datatype CommandEntry = CommandEntry(name: string, commandArgs: seq<SourceParam>, responseArgs: Option<seq<SourceParam>>)

  datatype EventEntry = EventEntry(name: string, eventArgs: seq<SourceParam>)

  /** The parameter list stored under key `k`, if there is one. */
  function DecodeField(f: OMap<Json>, k: string): Option<seq<SourceParam>>
  {
    if k in f.vals then DecodeArgs(f.vals[k]) else None
  }

  /** A string stored under key `k`, if there is one. */
  function StringField(f: OMap<Json>, k: string): Option<string>
  {
    if k in f.vals && f.vals[k].JStr? then Some(f.vals[k].s) else None
  }

  function DecodeCommand(j: Json): Option<CommandEntry>
  {
    if !j.JObj? then None
    else
      var f := j.fields;
      var name := StringField(f, "name");
      var args := DecodeField(f, "command_args");
      if name.None? || args.None? then None
      else if f.keys == ["name", "command_args"] then
        Some(CommandEntry(name.value, args.value, None))
      else if f.keys == ["name", "command_args", "response_args"] && DecodeField(f, "response_args").Some? then
        Some(CommandEntry(name.value, args.value, DecodeField(f, "response_args")))
      else None
  }

  function DecodeEvent(j: Json): Option<EventEntry>
  {
    if !j.JObj? then None
    else
      var f := j.fields;
      var name := StringField(f, "name");
      var args := DecodeField(f, "event_args");
      if name.Some? && args.Some? && f.keys == ["name", "event_args"] then
        Some(EventEntry(name.value, args.value))
      else None
  }

  /** A null parameter list reads back as the empty list. */
  function OrEmpty(ps: Option<seq<SourceParam>>): seq<SourceParam>
  {
    if ps.Some? then ps.value else []
  }

  /** The response arguments a command is stored with: none, empty, or the list. */
  function ResponseOf(r: Returns): Option<seq<SourceParam>>
  {
    match r
    case NoReturns => None
    case NullReturns => Some([])
    case ReturnList(ps) => Some(ps)
  }

  lemma ParamRoundTrip(p: SourceParam)
    ensures DecodeParam(ParamValue(p)) == Some(p)
  {
  }

  /** Projection keeps length and order and loses neither name nor type. */
  lemma {:induction false} ProjectRoundTrip(ps: seq<SourceParam>)
    ensures DecodeParams(Project(ps)) == Some(ps)
  {
    if ps != [] {
      assert Project(ps)[1..] == Project(ps[1..]);
      ProjectRoundTrip(ps[1..]);
      ParamRoundTrip(ps[0]);
      assert [ps[0]] + ps[1..] == ps;
    }
  }

  /** Element `i` of a projected list is exactly `{name: ps[i].name, type: ps[i].typ}`. */
  lemma ProjectAt(ps: seq<SourceParam>, i: nat)
    requires i < |ps|
    ensures Project(ps)[i].JObj?
    ensures Project(ps)[i].fields.keys == ["name", "type"]
    ensures DecodeParam(Project(ps)[i]) == Some(ps[i])
  {
    ParamRoundTrip(ps[i]);
  }

  lemma ArgsRoundTrip(ps: Option<seq<SourceParam>>)
    ensures DecodeArgs(ArgsValue(ps)) == Some(OrEmpty(ps))
  {
    if ps.Some? {
      ProjectRoundTrip(ps.value);
    }
  }

  /**
   A stored command carries exactly the source's name, its parameters (null
   read as empty) and, exactly when the source has `returns`, its response
   parameters (null read as empty). Nothing of any earlier value remains.
   */
  lemma CommandRoundTrip(c: SourceCommand)
    ensures DecodeCommand(CommandValue(c)) == Some(CommandEntry(c.name, OrEmpty(c.params), ResponseOf(c.returnParams)))
  {
    var f := CommandValue(c).fields;
    ArgsRoundTrip(c.params);
    assert StringField(f, "name") == Some(c.name);
    assert DecodeField(f, "command_args") == Some(OrEmpty(c.params));
    match c.returnParams
    case NoReturns =>
    case NullReturns =>
      assert DecodeField(f, "response_args") == Some([]);
    case ReturnList(ps) =>
      ProjectRoundTrip(ps);
      assert DecodeField(f, "response_args") == Some(ps);
  }

  /** A stored event carries exactly the source's name and its parameters (null read as empty). */
  lemma EventRoundTrip(e: SourceEvent)
    ensures DecodeEvent(EventValue(e)) == Some(EventEntry(e.name, OrEmpty(e.params)))
  {
    ArgsRoundTrip(e.params);
  }
}
