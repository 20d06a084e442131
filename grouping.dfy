/** Python's insertion-ordered `dict` whose values are lists, as the voice
    catalogue and the sample plan use it: the keys in insertion order and the
    list stored under each key. */
module Grouping {

  datatype Groups<T> = Groups(keys: seq<string>, entries: map<string, seq<T>>)

  /** The keys are distinct and are exactly the dictionary's domain. */
  ghost predicate Valid<T>(g: Groups<T>) {
    && (forall i, j :: 0 <= i < j < |g.keys| ==> g.keys[i] != g.keys[j])
    && (forall k :: k in g.entries ==> k in g.keys)
    && (forall i :: 0 <= i < |g.keys| ==> g.keys[i] in g.entries)
  }

  /** No key maps to an empty list. */
  ghost predicate NoEmptyGroup<T>(g: Groups<T>) {
    forall k :: k in g.entries ==> |g.entries[k]| > 0
  }

  function Empty<T>(): (g: Groups<T>)
    ensures Valid(g) && NoEmptyGroup(g) && g.keys == []
  {
    Groups([], map[])
  }

  /** `d.get(k, [])`. */
  function Get<T>(g: Groups<T>, k: string): seq<T> {
    if k in g.entries then g.entries[k] else []
  }

  /** `if k not in d: d[k] = []` followed by `d[k].append(x)`: a key is
      created, at the end of the key order, only when it is absent. */
  function Append<T>(g: Groups<T>, k: string, x: T): (r: Groups<T>)
    requires Valid(g)
    ensures Valid(r)
    ensures k in r.entries
    ensures forall k' :: Get(r, k') == if k' == k then Get(g, k) + [x] else Get(g, k')
    ensures g.keys <= r.keys
    ensures NoEmptyGroup(g) ==> NoEmptyGroup(r)
  {
    if k in g.entries then Groups(g.keys, g.entries[k := g.entries[k] + [x]])
    else Groups(g.keys + [k], g.entries[k := [x]])
  }

  /** `d[k] = xs`: an existing key keeps its place, a new one goes last. */
  function Put<T>(g: Groups<T>, k: string, xs: seq<T>): (r: Groups<T>)
    requires Valid(g)
    ensures Valid(r)
    ensures k in r.entries
    ensures forall k' :: Get(r, k') == if k' == k then xs else Get(g, k')
    ensures r.keys == if k in g.entries then g.keys else g.keys + [k]
  {
    if k in g.entries then Groups(g.keys, g.entries[k := xs])
    else Groups(g.keys + [k], g.entries[k := xs])
  }

  /** Appending each (key, value) pair of `ps` in turn. */
  function AppendAll<T>(g: Groups<T>, ps: seq<(string, T)>): (r: Groups<T>)
    requires Valid(g)
    ensures Valid(r)
    decreases |ps|
  {
    if ps == [] then g
    else Append(AppendAll(g, ps[..|ps| - 1]), ps[|ps| - 1].0, ps[|ps| - 1].1)
  }

  lemma AppendAllSnoc<T>(g: Groups<T>, ps: seq<(string, T)>, p: (string, T))
    requires Valid(g)
    ensures AppendAll(g, ps + [p]) == Append(AppendAll(g, ps), p.0, p.1)
  {
    assert (ps + [p])[..|ps|] == ps;
  }

  /** Storing a one-element list under an absent key is appending to it. */
  lemma PutNewIsAppend<T>(g: Groups<T>, k: string, x: T)
    requires Valid(g) && k !in g.entries
    ensures Put(g, k, [x]) == Append(g, k, x)
  {
  }

  /** The values of the pairs in `ps` whose key is `k`, in order. */
  function ValuesFor<T>(ps: seq<(string, T)>, k: string): seq<T>
    decreases |ps|
  {
    if ps == [] then []
    else ValuesFor(ps[..|ps| - 1], k) + (if ps[|ps| - 1].0 == k then [ps[|ps| - 1].1] else [])
  }

  lemma {:induction false} ValuesForConcat<T>(a: seq<(string, T)>, b: seq<(string, T)>, k: string)
    ensures ValuesFor(a + b, k) == ValuesFor(a, k) + ValuesFor(b, k)
    decreases |b|
  {
    if b == [] {
      assert a + b == a;
    } else {
      assert (a + b)[..|a + b| - 1] == a + b[..|b| - 1];
      ValuesForConcat(a, b[..|b| - 1], k);
    }
  }

  /** Appending pairs appends, under every key, exactly the values paired
      with that key, in order; nothing already stored is lost. */
  lemma {:induction false} AppendAllGet<T>(g: Groups<T>, ps: seq<(string, T)>, k: string)
    requires Valid(g)
    ensures Get(AppendAll(g, ps), k) == Get(g, k) + ValuesFor(ps, k)
    decreases |ps|
  {
    if ps != [] {
      AppendAllGet(g, ps[..|ps| - 1], k);
    }
  }

  /** Starting from an empty dictionary, each key holds exactly the values
      paired with it, in order. */
  lemma AppendAllFromEmpty<T>(ps: seq<(string, T)>, k: string)
    ensures Get(AppendAll(Empty(), ps), k) == ValuesFor(ps, k)
  {
    AppendAllGet(Empty(), ps, k);
  }

  /** Existing keys keep their positions: the old key order is a prefix. */
  lemma {:induction false} AppendAllKeepsKeys<T>(g: Groups<T>, ps: seq<(string, T)>)
    requires Valid(g)
    ensures g.keys <= AppendAll(g, ps).keys
    decreases |ps|
  {
    if ps != [] {
      AppendAllKeepsKeys(g, ps[..|ps| - 1]);
    }
  }

  /** After appending, a key is present exactly when it was present before
      or some pair carried it; and no key is ever left with an empty list. */
  lemma {:induction false} AppendAllDomain<T>(g: Groups<T>, ps: seq<(string, T)>, k: string)
    requires Valid(g) && NoEmptyGroup(g)
    ensures NoEmptyGroup(AppendAll(g, ps))
    ensures k in AppendAll(g, ps).entries <==> k in g.entries || |ValuesFor(ps, k)| > 0
    decreases |ps|
  {
    if ps != [] {
      var ps' := ps[..|ps| - 1];
      AppendAllDomain(g, ps', k);
      var h := AppendAll(g, ps');
      var r := AppendAll(g, ps);
      forall k' | k' in r.entries
        ensures |r.entries[k']| > 0
      {
        assert Get(r, k') == r.entries[k'];
        if k' != ps[|ps| - 1].0 {
          assert Get(h, k') == r.entries[k'];
          assert k' in h.entries;
        }
      }
      assert Get(r, k) == Get(h, k) + (if k == ps[|ps| - 1].0 then [ps[|ps| - 1].1] else []);
    }
  }

  lemma {:induction false} AppendAllConcat<T>(g: Groups<T>, a: seq<(string, T)>, b: seq<(string, T)>)
    requires Valid(g)
    ensures AppendAll(g, a + b) == AppendAll(AppendAll(g, a), b)
    decreases |b|
  {
    if b == [] {
      assert a + b == a;
    } else {
      assert (a + b)[..|a + b| - 1] == a + b[..|b| - 1];
      AppendAllConcat(g, a, b[..|b| - 1]);
    }
  }

  /** `keys` followed by each name of `names` it does not already hold, in
      order of first appearance. */
  function WithNewKeys(keys: seq<string>, names: seq<string>): seq<string>
    decreases |names|
  {
    if names == [] then keys
    else
      var s := WithNewKeys(keys, names[..|names| - 1]);
      if names[|names| - 1] in s then s else s + [names[|names| - 1]]
  }

  /** The old keys stay a prefix, and a key is listed exactly when it was
      already listed or some name carries it. */
  lemma {:induction false} WithNewKeysMembers(keys: seq<string>, names: seq<string>, x: string)
    ensures keys <= WithNewKeys(keys, names)
    ensures x in WithNewKeys(keys, names) <==> x in keys || x in names
    decreases |names|
  {
    if names != [] {
      var init := names[..|names| - 1];
      WithNewKeysMembers(keys, init, x);
      assert names == init + [names[|names| - 1]];
    }
  }

  /** The keys of the pairs, in order. */
  function KeysOf<T>(ps: seq<(string, T)>): (ks: seq<string>)
    ensures |ks| == |ps| && forall i :: 0 <= i < |ps| ==> ks[i] == ps[i].0
  {
    seq(|ps|, i requires 0 <= i < |ps| => ps[i].0)
  }

  /** Appending pairs adds the new keys after the old ones, each where its
      first pair comes. */
  lemma {:induction false} AppendAllKeys<T>(g: Groups<T>, ps: seq<(string, T)>)
    requires Valid(g)
    ensures AppendAll(g, ps).keys == WithNewKeys(g.keys, KeysOf(ps))
    decreases |ps|
  {
    if ps != [] {
      var init := ps[..|ps| - 1];
      AppendAllKeys(g, init);
      assert KeysOf(ps)[..|ps| - 1] == KeysOf(init);
    }
  }

  /** Sum of the list lengths over `keys`, in key order. */
  function Total<T>(g: Groups<T>, keys: seq<string>): nat
    decreases |keys|
  {
    if keys == [] then 0
    else Total(g, keys[..|keys| - 1]) + |Get(g, keys[|keys| - 1])|
  }
}
