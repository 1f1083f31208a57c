/**
 * Python dicts with string keys and string values, as the scraper builds them:
 * the entries in insertion order. Assigning to a present key replaces its value
 * in place; assigning to a new key appends it; update() assigns each entry of
 * its argument in order.
 */
module PyDict {
  import opened Base

  datatype Entry = Entry(key: string, value: string)

  type Dict = seq<Entry>

  function Keys(d: Dict): seq<string> {
    seq(|d|, i requires 0 <= i < |d| => d[i].key)
  }

  predicate DistinctKeys(d: Dict) {
    forall i, j :: 0 <= i < j < |d| ==> d[i].key != d[j].key
  }

  /** d.get(k): the value of the first entry with key `k`. */
  function Get(d: Dict, k: string): (r: Option<string>)
    ensures r.Some? <==> k in Keys(d)
  {
    if d == [] then None
    else
      assert Keys(d) == [d[0].key] + Keys(d[1..]);
      if d[0].key == k then Some(d[0].value) else Get(d[1..], k)
  }

  /** With distinct keys, each entry is what Get finds under its key. */
  lemma {:induction false} GetEntry(d: Dict, i: nat)
    requires DistinctKeys(d) && i < |d|
    ensures Get(d, d[i].key) == Some(d[i].value)
  {
    if i > 0 {
      GetEntry(d[1..], i - 1);
    }
  }

  /** d[k] = v: a present key keeps its position and takes the new value, a new key goes last. */
  function Set(d: Dict, k: string, v: string): (r: Dict)
    ensures |r| == if k in Keys(d) then |d| else |d| + 1
  {
    if d == [] then [Entry(k, v)]
    else
      assert Keys(d) == [d[0].key] + Keys(d[1..]);
      if d[0].key == k then [Entry(k, v)] + d[1..]
      else [d[0]] + Set(d[1..], k, v)
  }

  /**
   * After d[k] = v, `k` maps to `v` and every other key to what it mapped to
   * before; the keys keep their order, and a new key is appended.
   */
  lemma SetFacts(d: Dict, k: string, v: string)
    ensures Get(Set(d, k, v), k) == Some(v)
    ensures forall k' :: k' != k ==> Get(Set(d, k, v), k') == Get(d, k')
    ensures k in Keys(d) ==> Keys(Set(d, k, v)) == Keys(d)
    ensures k !in Keys(d) ==> Set(d, k, v) == d + [Entry(k, v)]
  {
    forall k' ensures Get(Set(d, k, v), k') == if k' == k then Some(v) else Get(d, k') {
      SetGet(d, k, v, k');
    }
    SetShape(d, k, v);
  }

  lemma {:induction false} SetGet(d: Dict, k: string, v: string, k': string)
    ensures Get(Set(d, k, v), k') == if k' == k then Some(v) else Get(d, k')
  {
    if d != [] && d[0].key != k {
      SetGet(d[1..], k, v, k');
      assert Set(d, k, v)[1..] == Set(d[1..], k, v);
    } else if d != [] {
      assert Set(d, k, v)[1..] == d[1..];
    }
  }

  lemma {:induction false} SetShape(d: Dict, k: string, v: string)
    ensures k in Keys(d) ==> Keys(Set(d, k, v)) == Keys(d)
    ensures k !in Keys(d) ==> Set(d, k, v) == d + [Entry(k, v)]
  {
    if d != [] {
      assert d == [d[0]] + d[1..];
      KeysCons(d[0], d[1..]);
      if d[0].key == k {
        KeysCons(Entry(k, v), d[1..]);
      } else {
        SetShape(d[1..], k, v);
        KeysCons(d[0], Set(d[1..], k, v));
        assert [d[0]] + (d[1..] + [Entry(k, v)]) == d + [Entry(k, v)];
      }
    }
  }

  /** The keys of a dict with one more entry in front. */
  lemma KeysCons(e: Entry, d: Dict)
    ensures Keys([e] + d) == [e.key] + Keys(d)
  {
  }

  /** Assigning keeps the keys distinct. */
  lemma SetDistinct(d: Dict, k: string, v: string)
    requires DistinctKeys(d)
    ensures DistinctKeys(Set(d, k, v))
  {
    var r := Set(d, k, v);
    SetFacts(d, k, v);
    if k in Keys(d) {
      forall i, j | 0 <= i < j < |r| ensures r[i].key != r[j].key {
        assert r[i].key == Keys(r)[i] == Keys(d)[i] == d[i].key;
        assert r[j].key == Keys(r)[j] == Keys(d)[j] == d[j].key;
      }
    } else {
      forall i, j | 0 <= i < j < |r| ensures r[i].key != r[j].key {
        if j == |d| {
          assert r[i].key == Keys(d)[i];
        }
      }
    }
  }

  /** d.update(e): assign every entry of `e`, in order. */
  function Update(d: Dict, e: Dict): (r: Dict)
    ensures |d| <= |r| <= |d| + |e|
    decreases |e|
  {
    if e == [] then d else Update(Set(d, e[0].key, e[0].value), e[1..])
  }

  /** After d.update(e), a key of `e` maps to its value in `e`; any other key keeps its value in `d`. */
  lemma {:induction false} UpdateGet(d: Dict, e: Dict, k: string)
    requires DistinctKeys(e)
    ensures Get(Update(d, e), k) == if k in Keys(e) then Get(e, k) else Get(d, k)
    decreases |e|
  {
    if e != [] {
      assert Keys(e) == [e[0].key] + Keys(e[1..]);
      SetFacts(d, e[0].key, e[0].value);
      UpdateGet(Set(d, e[0].key, e[0].value), e[1..], k);
    }
  }

  /** d.update(e) keeps the keys of `d` first and in their order, and adds only keys of `e`. */
  lemma {:induction false} UpdateKeys(d: Dict, e: Dict)
    ensures |Update(d, e)| >= |d| && Keys(Update(d, e))[..|d|] == Keys(d)
    ensures forall k :: k in Keys(Update(d, e)) ==> k in Keys(d) || k in Keys(e)
    decreases |e|
  {
    if e != [] {
      var d' := Set(d, e[0].key, e[0].value);
      var u := Update(d', e[1..]);
      assert u == Update(d, e);
      UpdateKeys(d', e[1..]);
      SetKeys(d, e[0].key, e[0].value);
      assert Keys(u)[..|d|] == Keys(u)[..|d'|][..|d|];
      forall k | k in Keys(u) ensures k in Keys(d) || k in Keys(e) {
        if k !in Keys(d') {
          assert k in Keys(e[1..]);
          var i :| 0 <= i < |e[1..]| && Keys(e[1..])[i] == k;
          assert Keys(e)[i + 1] == k;
        } else if k !in Keys(d) {
          var i :| 0 <= i < |d'| && Keys(d')[i] == k;
          assert i == |d| && k == e[0].key == Keys(e)[0];
        }
      }
    }
  }

  /** d[k] = v keeps the keys of `d` in their order, followed by `k` if it is new. */
  lemma SetKeys(d: Dict, k: string, v: string)
    ensures |Set(d, k, v)| >= |d| && Keys(Set(d, k, v))[..|d|] == Keys(d)
    ensures forall i :: |d| <= i < |Set(d, k, v)| ==> i == |d| && Keys(Set(d, k, v))[i] == k
  {
    var r := Set(d, k, v);
    SetFacts(d, k, v);
    if k !in Keys(d) {
      assert Keys(r)[..|d|] == Keys(d);
    }
  }

  /**
   * d.update(e) with distinct keys, none of them already in `d`, appends the
   * entries of `e` after those of `d`, in the order of `e`.
   */
  lemma {:induction false} UpdateFresh(d: Dict, e: Dict)
    requires DistinctKeys(e)
    requires forall i :: 0 <= i < |e| ==> e[i].key !in Keys(d)
    ensures Update(d, e) == d + e
    decreases |e|
  {
    if e != [] {
      SetShape(d, e[0].key, e[0].value);
      FreshRest(d, e);
      UpdateFresh(d + [e[0]], e[1..]);
      assert (d + [e[0]]) + e[1..] == d + e;
    }
  }

  /** After the first entry of `e` is appended to `d`, the remaining keys of `e` are still new. */
  lemma FreshRest(d: Dict, e: Dict)
    requires e != [] && DistinctKeys(e)
    requires forall i :: 0 <= i < |e| ==> e[i].key !in Keys(d)
    ensures DistinctKeys(e[1..])
    ensures forall i :: 0 <= i < |e[1..]| ==> e[1..][i].key !in Keys(d + [e[0]])
  {
    KeysAppend(d, [e[0]]);
    forall i | 0 <= i < |e[1..]| ensures e[1..][i].key !in Keys(d + [e[0]]) {
      assert e[1..][i] == e[i + 1];
      assert e[i + 1].key != e[0].key;
    }
  }

  /** The keys of two dicts one after the other. */
  lemma KeysAppend(d: Dict, x: Dict)
    ensures Keys(d + x) == Keys(d) + Keys(x)
  {
  }

  /** Updating keeps the keys distinct. */
  lemma {:induction false} UpdateDistinct(d: Dict, e: Dict)
    requires DistinctKeys(d)
    ensures DistinctKeys(Update(d, e))
    decreases |e|
  {
    if e != [] {
      SetDistinct(d, e[0].key, e[0].value);
      UpdateDistinct(Set(d, e[0].key, e[0].value), e[1..]);
    }
  }
}
