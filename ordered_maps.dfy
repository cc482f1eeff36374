/**
 The insertion-ordered string-keyed dictionary (Python's `OrderedDict`) that
 both generator scripts load the definitions document into and update in
 place. Assigning to a key that is already present keeps that key's position;
 assigning to a new key appends it at the end.
 */
module OrderedMaps {

  datatype Option<+T> = None | Some(value: T)

  /** `keys` is the iteration order, `vals` the contents. */
  datatype OMap<V> = OMap(keys: seq<string>, vals: map<string, V>)

  /** The representation invariant: every key listed once, and exactly the keys of `vals`. */
  ghost predicate Valid<V>(m: OMap<V>)
  {
    && (forall i, j :: 0 <= i < j < |m.keys| ==> m.keys[i] != m.keys[j])
    && (forall k :: k in m.vals <==> k in m.keys)
  }

  function Empty<V>(): (r: OMap<V>)
    ensures Valid(r) && r.keys == [] && r.vals == map[]
  {
    OMap([], map[])
  }

  /** Lookup; `None` where Python would raise `KeyError`. */
  function Get<V>(m: OMap<V>, k: string): Option<V>
  {
    if k in m.vals then Some(m.vals[k]) else None
  }

  /** `m[k] = v` on an `OrderedDict`. */
  function Put<V>(m: OMap<V>, k: string, v: V): (r: OMap<V>)
    ensures Get(r, k) == Some(v)
    ensures forall k' :: k' != k ==> Get(r, k') == Get(m, k')
    ensures k in m.vals ==> r.keys == m.keys
    ensures k !in m.vals ==> r.keys == m.keys + [k]
    ensures Valid(m) ==> Valid(r)
  {
    if k in m.vals then OMap(m.keys, m.vals[k := v])
    else OMap(m.keys + [k], m.vals[k := v])
  }

  /** `a` is an initial segment of `b`: the keys of `a` keep their positions in `b`. */
  predicate IsPrefix(a: seq<string>, b: seq<string>)
  {
    |a| <= |b| && b[..|a|] == a
  }

  lemma PrefixTransitive(a: seq<string>, b: seq<string>, c: seq<string>)
    requires IsPrefix(a, b) && IsPrefix(b, c)
    ensures IsPrefix(a, c)
  {
    assert c[..|a|] == c[..|b|][..|a|];
  }

  /** Two ordered maps with the same key order and the same lookups are equal. */
  lemma Extensionality<V>(a: OMap<V>, b: OMap<V>)
    requires a.keys == b.keys
    requires forall k :: Get(a, k) == Get(b, k)
    ensures a == b
  {
    assert forall k :: k in a.vals <==> Get(a, k).Some?;
    assert forall k :: k in b.vals <==> Get(b, k).Some?;
    assert a.vals.Keys == b.vals.Keys;
    forall k | k in a.vals
      ensures a.vals[k] == b.vals[k]
    {
      assert Get(a, k) == Get(b, k);
    }
    assert a.vals == b.vals;
  }
}
