/**
 The Silicon Labs BGAPI generator: five parsed API descriptions (one per
 technology), each merged into the protocol its technology key maps to.
 */
module SilabsBgapi {

  import opened OrderedMaps
  import opened SourceApi
  import opened Merge

  /** The parsed descriptions, keyed by technology in load order. */
  type Api = OMap<seq<SourceGroup>>

  /** Technology key to protocol id. */
  const IdMap: map<string, string> := map[
    "ble" := "silabs-bgapi-ble-ble1xx",
    "gecko" := "silabs-bgapi-ble-gecko",
    "dumo" := "silabs-bgapi-dumo-bt121",
    "wifi121" := "silabs-bgapi-wifi-wf121",
    "wifi110" := "silabs-bgapi-wifi-wgm110"
  ]

  /** Distinct technologies are routed to distinct protocols. */
  lemma IdMapInjective()
    ensures forall a, b :: a in IdMap && b in IdMap && a != b ==> IdMap[a] != IdMap[b]
  {
  }

  /**
   What the script needs of its inputs to run without `KeyError`: every
   technology is in `id_map` and its protocol exists in the document.
   */
  ghost predicate Routable(doc: Document, ts: seq<string>, api: Api)
  {
    forall t :: t in ts ==> t in api.vals && t in IdMap && IdMap[t] in doc.vals
  }

  /** One technology: the merge pass over `protocols[id_map[t]]`, written back under the same key. */
  function MergeTechnology(doc: Document, t: string, classes: seq<SourceGroup>): (r: Document)
    requires t in IdMap && IdMap[t] in doc.vals
    ensures r.keys == doc.keys && r.vals.Keys == doc.vals.Keys
    ensures Get(r, IdMap[t]) == Some(Merged(doc.vals[IdMap[t]], classes))
    ensures forall pid :: pid != IdMap[t] ==> Get(r, pid) == Get(doc, pid)
  {
    Put(doc, IdMap[t], Merged(doc.vals[IdMap[t]], classes))
  }

  /** The document after merging the technologies `ts` in order. */
  function MergedTechnologies(doc: Document, api: Api, ts: seq<string>): (r: Document)
    requires Routable(doc, ts, api)
    ensures r.keys == doc.keys && r.vals.Keys == doc.vals.Keys
    decreases |ts|
  {
    if ts == [] then doc
    else
      var t := ts[|ts| - 1];
      var before := MergedTechnologies(doc, api, ts[..|ts| - 1]);
      MergeTechnology(before, t, api.vals[t])
  }

  /** The whole script between loading and saving: every technology of the description, in order. */
  method MergeBgapi(doc: Document, api: Api) returns (r: Document)
    requires Valid(api) && Routable(doc, api.keys, api)
    ensures r == MergedTechnologies(doc, api, api.keys)
  {
    r := doc;
    for i := 0 to |api.keys|
      invariant Routable(doc, api.keys[..i], api)
      invariant r == MergedTechnologies(doc, api, api.keys[..i])
    {
      var t := api.keys[i];
      var pid := IdMap[t];
      var p := MergeGroups(r.vals[pid], api.vals[t]);
      assert api.keys[..i + 1][..i] == api.keys[..i];
      r := Put(r, pid, p);
    }
    assert api.keys[..|api.keys|] == api.keys;
  }

  /**
   Routing: each technology's protocol holds exactly the merge of that
   technology's description into its old packets; every other protocol is
   unchanged; no protocol is added or moved.
   */
  lemma {:induction false} MergedTechnologiesRouting(doc: Document, api: Api, ts: seq<string>)
    requires Routable(doc, ts, api)
    requires forall a, b :: 0 <= a < b < |ts| ==> ts[a] != ts[b]
    ensures forall a :: 0 <= a < |ts| ==>
      Get(MergedTechnologies(doc, api, ts), IdMap[ts[a]]) == Some(Merged(doc.vals[IdMap[ts[a]]], api.vals[ts[a]]))
    ensures forall pid :: (forall a :: 0 <= a < |ts| ==> IdMap[ts[a]] != pid) ==>
      Get(MergedTechnologies(doc, api, ts), pid) == Get(doc, pid)
    decreases |ts|
  {
    if ts != [] {
      var init := ts[..|ts| - 1];
      var t := ts[|ts| - 1];
      assert forall a :: 0 <= a < |init| ==> init[a] == ts[a];
      assert Routable(doc, init, api);
      MergedTechnologiesRouting(doc, api, init);
      IdMapInjective();
      var before := MergedTechnologies(doc, api, init);
      var r := MergedTechnologies(doc, api, ts);
      assert Get(before, IdMap[t]) == Get(doc, IdMap[t]);
      forall a | 0 <= a < |ts|
        ensures Get(r, IdMap[ts[a]]) == Some(Merged(doc.vals[IdMap[ts[a]]], api.vals[ts[a]]))
      {
        if a < |ts| - 1 {
          assert IdMap[ts[a]] != IdMap[t];
        }
      }
    }
  }

  /** The script's pass, protocol by protocol. */
  lemma BgapiRouting(doc: Document, api: Api)
    requires Valid(api) && Routable(doc, api.keys, api)
    ensures MergedTechnologies(doc, api, api.keys).keys == doc.keys
    ensures forall t :: t in api.vals ==>
      Get(MergedTechnologies(doc, api, api.keys), IdMap[t]) == Some(Merged(doc.vals[IdMap[t]], api.vals[t]))
    ensures forall pid :: (forall t :: t in api.vals ==> IdMap[t] != pid) ==>
      Get(MergedTechnologies(doc, api, api.keys), pid) == Get(doc, pid)
  {
    MergedTechnologiesRouting(doc, api, api.keys);
    forall t | t in api.vals
      ensures exists a :: 0 <= a < |api.keys| && api.keys[a] == t
    {
      assert t in api.keys;
    }
  }

  /** Running the script twice on the same descriptions gives the document of running it once. */
  lemma BgapiIdempotent(doc: Document, api: Api)
    requires Valid(api) && Routable(doc, api.keys, api)
    ensures MergedTechnologies(MergedTechnologies(doc, api, api.keys), api, api.keys) == MergedTechnologies(doc, api, api.keys)
  {
    var once := MergedTechnologies(doc, api, api.keys);
    assert Routable(once, api.keys, api);
    var twice := MergedTechnologies(once, api, api.keys);
    BgapiRouting(doc, api);
    BgapiRouting(once, api);
    forall pid
      ensures Get(twice, pid) == Get(once, pid)
    {
      if t :| t in api.vals && IdMap[t] == pid {
        MergedIdempotent(doc.vals[pid], api.vals[t]);
      }
    }
    Extensionality(twice, once);
  }
}
