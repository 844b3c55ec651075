/** A string-keyed dictionary that remembers insertion order, as a Python
    `dict` does: iteration visits keys in the order they were first inserted,
    and assigning to a key already present keeps its position. */
module OrderedDict {
  import opened JsonValue

  /** `keys` is the iteration order; `values` holds the entries. */
  datatype Dict<V> = Dict(keys: seq<string>, values: map<string, V>)

  /** Keys are distinct and are exactly the keys of the map. */
  ghost predicate Valid<V>(d: Dict<V>) {
    && (forall i, j :: 0 <= i < j < |d.keys| ==> d.keys[i] != d.keys[j])
    && (forall k :: k in d.values <==> k in d.keys)
  }

  function Empty<V>(): (d: Dict<V>)
    ensures Valid(d)
    ensures forall k :: Get(d, k) == None
    ensures |Items(d)| == 0
  {
    Dict([], map[])
  }

  /** `d[k]` when present. */
  function Get<V>(d: Dict<V>, k: string): Option<V> {
    if k in d.values then Some(d.values[k]) else None
  }

  /** `d.items()`: each key once, in iteration order, with its value. */
  function Items<V>(d: Dict<V>): (s: seq<(string, V)>)
    requires Valid(d)
    ensures |s| == |d.keys|
    ensures forall i :: 0 <= i < |s| ==> s[i].0 == d.keys[i] && Get(d, s[i].0) == Some(s[i].1)
  {
    seq(|d.keys|, i requires 0 <= i < |d.keys| && d.keys[i] in d.values => (d.keys[i], d.values[d.keys[i]]))
  }

  /** `d[k] = v`: a new key goes to the end of the iteration order, an
      existing key keeps its place; every other entry is untouched. */
  function Assign<V>(d: Dict<V>, k: string, v: V): (r: Dict<V>)
    requires Valid(d)
    ensures Valid(r)
    ensures Get(r, k) == Some(v)
    ensures forall j :: j != k ==> Get(r, j) == Get(d, j)
    ensures k in d.values ==> r.keys == d.keys
    ensures k !in d.values ==> r.keys == d.keys + [k]
  {
    Dict(if k in d.values then d.keys else d.keys + [k], d.values[k := v])
  }

  /** The position of a key in iteration order. */
  function IndexOf(keys: seq<string>, k: string): (i: nat)
    requires k in keys
    ensures i < |keys| && keys[i] == k
    ensures forall j :: 0 <= j < i ==> keys[j] != k
  {
    if keys[0] == k then 0 else 1 + IndexOf(keys[1..], k)
  }

  /** Assigning to a present key replaces its item in place. */
  lemma AssignExistingItems<V>(d: Dict<V>, k: string, v: V)
    requires Valid(d) && k in d.values
    ensures Items(Assign(d, k, v)) == Items(d)[IndexOf(d.keys, k) := (k, v)]
  {
    var r := Assign(d, k, v);
    var i := IndexOf(d.keys, k);
    var after, before := Items(r), Items(d)[i := (k, v)];
    assert |after| == |before|;
    forall j | 0 <= j < |after|
      ensures after[j] == before[j]
    {
      if j != i {
        assert d.keys[j] != d.keys[i];
        assert after[j] == (r.keys[j], r.values[r.keys[j]]);
      }
    }
  }

  /** Assigning to an absent key appends one item. */
  lemma AssignNewItems<V>(d: Dict<V>, k: string, v: V)
    requires Valid(d) && k !in d.values
    ensures Items(Assign(d, k, v)) == Items(d) + [(k, v)]
  {
    var r := Assign(d, k, v);
    forall j | 0 <= j < |d.keys|
      ensures Items(r)[j] == Items(d)[j]
    {
      assert d.keys[j] != k;
    }
  }

  /** The keys of a member list, in order, repeats included. */
  function KeysOf<V>(ps: seq<(string, V)>): (ks: seq<string>)
    ensures |ks| == |ps|
    ensures forall i :: 0 <= i < |ps| ==> ks[i] == ps[i].0
  {
    seq(|ps|, i requires 0 <= i < |ps| => ps[i].0)
  }

  /** Appending a key leaves the first position of every earlier key alone,
      and a key seen for the first time is found at the end. */
  lemma IndexOfAppend(ks: seq<string>, x: string)
    ensures forall k :: k in ks ==> IndexOf(ks + [x], k) == IndexOf(ks, k)
    ensures x !in ks ==> IndexOf(ks + [x], x) == |ks|
  {
    forall k | k in ks
      ensures IndexOf(ks + [x], k) == IndexOf(ks, k)
    {
      assert (ks + [x])[IndexOf(ks, k)] == k;
    }
  }

  /** `keys` lists keys in the order of their first position in `ks`. */
  ghost predicate FirstSeenOrder(keys: seq<string>, ks: seq<string>) {
    forall i, j :: 0 <= i < j < |keys| && keys[i] in ks && keys[j] in ks ==>
      IndexOf(ks, keys[i]) < IndexOf(ks, keys[j])
  }

  /** Assigning member `k` after members `ks` keeps the keys in the order in
      which they first appear. */
  lemma AssignKeepsOrder<V>(d: Dict<V>, ks: seq<string>, k: string, v: V)
    requires Valid(d) && (forall j :: j in d.values <==> j in ks)
    requires FirstSeenOrder(d.keys, ks)
    ensures FirstSeenOrder(Assign(d, k, v).keys, ks + [k])
  {
    IndexOfAppend(ks, k);
    var r := Assign(d, k, v);
    forall i, j | 0 <= i < j < |r.keys|
      ensures IndexOf(ks + [k], r.keys[i]) < IndexOf(ks + [k], r.keys[j])
    {
      assert r.keys[i] == d.keys[i] && r.keys[i] in ks;
      if j == |d.keys| {
        assert r.keys[j] == k && k !in ks;
      } else {
        assert r.keys[j] == d.keys[j] && r.keys[j] in ks;
      }
    }
  }

  /** The dictionary a JSON object decodes to: members inserted one by one in
      file order, so a repeated key keeps its first position and its last value. */
  function FromPairs<V>(ps: seq<(string, V)>): (r: Dict<V>)
    ensures Valid(r)
    ensures forall k :: k in r.values <==> k in KeysOf(ps)
    ensures forall i :: 0 <= i < |ps| && (forall j :: i < j < |ps| ==> ps[j].0 != ps[i].0) ==>
              Get(r, ps[i].0) == Some(ps[i].1)
    ensures FirstSeenOrder(r.keys, KeysOf(ps))
  {
    if ps == [] then Empty() else
    var prev := FromPairs(ps[..|ps| - 1]);
    FromPairsStep(ps, prev);
    Assign(prev, ps[|ps| - 1].0, ps[|ps| - 1].1)
  }

  /** Assigning the last member to the dictionary the other members decode
      to gives the key set, the values and the order `FromPairs` promises. */
  lemma FromPairsStep<V>(ps: seq<(string, V)>, prev: Dict<V>)
    requires ps != []
    requires var p := ps[..|ps| - 1];
             && Valid(prev)
             && (forall k :: k in prev.values <==> k in KeysOf(p))
             && (forall i :: 0 <= i < |p| && (forall j :: i < j < |p| ==> p[j].0 != p[i].0) ==>
                   Get(prev, p[i].0) == Some(p[i].1))
             && FirstSeenOrder(prev.keys, KeysOf(p))
    ensures var r := Assign(prev, ps[|ps| - 1].0, ps[|ps| - 1].1);
            && (forall k :: k in r.values <==> k in KeysOf(ps))
            && (forall i :: 0 <= i < |ps| && (forall j :: i < j < |ps| ==> ps[j].0 != ps[i].0) ==>
                  Get(r, ps[i].0) == Some(ps[i].1))
            && FirstSeenOrder(r.keys, KeysOf(ps))
  {
    var p, x := ps[..|ps| - 1], ps[|ps| - 1];
    assert ps == p + [x];
    assert KeysOf(ps) == KeysOf(p) + [x.0];
    AssignKeepsOrder(prev, KeysOf(p), x.0, x.1);
    AssignLastWins(p, x, prev);
  }

  /** When the members `p` have given `prev` the last value of each key,
      assigning one more member `x` gives the members `p + [x]` theirs. */
  lemma AssignLastWins<V>(p: seq<(string, V)>, x: (string, V), prev: Dict<V>)
    requires Valid(prev)
    requires forall i :: 0 <= i < |p| && (forall j :: i < j < |p| ==> p[j].0 != p[i].0) ==>
               Get(prev, p[i].0) == Some(p[i].1)
    ensures var ps, r := p + [x], Assign(prev, x.0, x.1);
            forall i :: 0 <= i < |ps| && (forall j :: i < j < |ps| ==> ps[j].0 != ps[i].0) ==>
              Get(r, ps[i].0) == Some(ps[i].1)
  {
    var ps, r := p + [x], Assign(prev, x.0, x.1);
    forall i | 0 <= i < |ps| && (forall j :: i < j < |ps| ==> ps[j].0 != ps[i].0)
      ensures Get(r, ps[i].0) == Some(ps[i].1)
    {
      if i < |p| {
        assert ps[i] == p[i] && ps[|p|] == x;
        forall j | i < j < |p|
          ensures p[j].0 != p[i].0
        {
          assert p[j] == ps[j];
        }
      }
    }
  }
}
