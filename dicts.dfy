/** Python's insertion-ordered `dict`, as a sequence of key/value pairs.
    `d[k] = v` on a key already present replaces the value where the key
    stands; on a new key it appends the pair at the end. Iterating over
    `d.keys()` visits the keys in that order. */
module Dicts {
  import opened Maybe

  type Dict<V> = seq<(string, V)>

  /** `list(d.keys())`. */
  function Keys<V>(d: Dict<V>): (ks: seq<string>)
    ensures |ks| == |d|
    ensures forall i :: 0 <= i < |d| ==> ks[i] == d[i].0
  {
    seq(|d|, i requires 0 <= i < |d| => d[i].0)
  }

  /** What every Python dict satisfies: no key occurs twice. */
  predicate DistinctKeys<V>(d: Dict<V>) {
    forall i, j :: 0 <= i < j < |d| ==> d[i].0 != d[j].0
  }

  lemma KeysAppend<V>(a: Dict<V>, b: Dict<V>)
    ensures Keys(a + b) == Keys(a) + Keys(b)
  {
  }

  /** Where `k` stands in `d`: its first position. */
  function IndexOf<V>(d: Dict<V>, k: string): (i: nat)
    requires k in Keys(d)
    ensures i < |d| && d[i].0 == k
    ensures forall j :: 0 <= j < i ==> d[j].0 != k
  {
    if d[0].0 == k then 0
    else
      assert Keys(d[1..]) == Keys(d)[1..];
      1 + IndexOf(d[1..], k)
  }

  /** `d.get(k)`: the value stored under `k`, or None. */
  function Get<V>(d: Dict<V>, k: string): Option<V> {
    if k in Keys(d) then Some(d[IndexOf(d, k)].1) else None
  }

  /** In a dict, the pair at position `i` is what a lookup of its key finds. */
  lemma GetAt<V>(d: Dict<V>, i: nat)
    requires DistinctKeys(d) && i < |d|
    ensures Get(d, d[i].0) == Some(d[i].1)
  {
    assert d[i].0 in Keys(d);
    var p := IndexOf(d, d[i].0);
    assert p <= i;
  }

  /** A lookup in `a + b` looks in `a` first, then in `b`. */
  lemma GetAppend<V>(a: Dict<V>, b: Dict<V>, k: string)
    ensures Get(a + b, k) == if k in Keys(a) then Get(a, k) else Get(b, k)
  {
    var ab := a + b;
    assert Keys(ab) == Keys(a) + Keys(b);
    if k in Keys(a) {
      var p, q := IndexOf(ab, k), IndexOf(a, k);
      assert ab[q] == a[q];
      assert p <= q;
      assert ab[p] == a[p];
    } else if k in Keys(b) {
      var p, q := IndexOf(ab, k), IndexOf(b, k);
      assert ab[|a| + q] == b[q];
      assert forall j :: 0 <= j < |a| ==> ab[j] == a[j];
      assert p >= |a|;
      assert ab[p] == b[p - |a|];
    }
  }

  /** `d[k] = v`. */
  function Set<V>(d: Dict<V>, k: string, v: V): Dict<V> {
    if k in Keys(d) then d[IndexOf(d, k) := (k, v)] else d + [(k, v)]
  }

  /** What `d[k] = v` does to a dict: the keys stay in place and a new key is
      appended at the end; `k` now maps to `v`; every other key `k2` keeps
      its value; and no key is duplicated. */
  lemma SetSpec<V>(d: Dict<V>, k: string, v: V, k2: string)
    requires DistinctKeys(d)
    ensures Keys(Set(d, k, v)) == if k in Keys(d) then Keys(d) else Keys(d) + [k]
    ensures Get(Set(d, k, v), k2) == if k2 == k then Some(v) else Get(d, k2)
    ensures DistinctKeys(Set(d, k, v))
  {
    var r := Set(d, k, v);
    if k in Keys(d) {
      var p := IndexOf(d, k);
      assert Keys(r) == Keys(d);
      assert DistinctKeys(r) by {
        forall i, j | 0 <= i < j < |r| ensures r[i].0 != r[j].0 {
          assert r[i].0 == d[i].0 && r[j].0 == d[j].0;
        }
      }
      if k2 == k {
        GetAt(r, p);
      } else if k2 in Keys(d) {
        var q := IndexOf(d, k2);
        GetAt(d, q);
        GetAt(r, q);
      }
    } else {
      assert Keys(r) == Keys(d) + [k];
      if k2 == k {
        GetAt(r, |d|);
      } else {
        GetAppend(d, [(k, v)], k2);
      }
    }
  }

  /** The dict left by assigning the pairs of `kvs`, in order, into `d`. */
  function SetAll<V>(d: Dict<V>, kvs: Dict<V>): Dict<V> {
    if kvs == [] then d
    else Set(SetAll(d, kvs[..|kvs| - 1]), kvs[|kvs| - 1].0, kvs[|kvs| - 1].1)
  }

  /** Assigning keys that are new and pairwise distinct simply appends them. */
  lemma {:induction false} SetAllFresh<V>(d: Dict<V>, kvs: Dict<V>)
    requires DistinctKeys(d + kvs)
    ensures SetAll(d, kvs) == d + kvs
    decreases |kvs|
  {
    if kvs != [] {
      var init, last := kvs[..|kvs| - 1], kvs[|kvs| - 1];
      assert d + init == (d + kvs)[..|d + kvs| - 1];
      SetAllFresh(d, init);
      assert last.0 !in Keys(d + init) by {
        forall i | 0 <= i < |d + init| ensures (d + init)[i].0 != last.0 {
          assert (d + kvs)[i] == (d + init)[i];
          assert (d + kvs)[|d + kvs| - 1] == last;
        }
      }
      assert d + kvs == (d + init) + [last];
    }
  }

  /** After assigning `kvs` into `d`: the keys are those of `d` and of
      `kvs`; a key never assigned keeps its value from `d`; and a dict stays
      a dict. */
  lemma {:induction false} SetAllKeys<V>(d: Dict<V>, kvs: Dict<V>, k: string)
    requires DistinctKeys(d)
    ensures DistinctKeys(SetAll(d, kvs))
    ensures k in Keys(SetAll(d, kvs)) <==> k in Keys(d) || k in Keys(kvs)
    ensures k !in Keys(kvs) ==> Get(SetAll(d, kvs), k) == Get(d, k)
    decreases |kvs|
  {
    if kvs != [] {
      var init, last := kvs[..|kvs| - 1], kvs[|kvs| - 1];
      var r0 := SetAll(d, init);
      SetAllKeys(d, init, k);
      SetSpec(r0, last.0, last.1, k);
      assert SetAll(d, kvs) == Set(r0, last.0, last.1);
      assert k in Keys(kvs) <==> k in Keys(init) || k == last.0 by {
        assert Keys(kvs) == Keys(init) + [last.0];
      }
      assert k in Keys(Set(r0, last.0, last.1)) <==> k in Keys(r0) || k == last.0;
    }
  }

  /** A key holds the value of its LAST assignment. */
  lemma {:induction false} SetAllLast<V>(d: Dict<V>, kvs: Dict<V>, i: nat)
    requires DistinctKeys(d) && i < |kvs|
    requires forall j :: i < j < |kvs| ==> kvs[j].0 != kvs[i].0
    ensures Get(SetAll(d, kvs), kvs[i].0) == Some(kvs[i].1)
    decreases |kvs|
  {
    var init, last := kvs[..|kvs| - 1], kvs[|kvs| - 1];
    SetAllKeys(d, init, last.0);
    SetSpec(SetAll(d, init), last.0, last.1, kvs[i].0);
    if i < |init| {
      assert init[i] == kvs[i];
      assert forall j :: i < j < |init| ==> init[j] == kvs[j];
      SetAllLast(d, init, i);
    }
  }

  /** After assigning `kvs` into `d`: the keys are those of `d` and of `kvs`;
      a key assigned at least once holds the value of its LAST assignment;
      a key never assigned keeps its value from `d`; and a dict stays a dict. */
  lemma SetAllLastWins<V>(d: Dict<V>, kvs: Dict<V>, k: string)
    requires DistinctKeys(d)
    ensures DistinctKeys(SetAll(d, kvs))
    ensures k in Keys(SetAll(d, kvs)) <==> k in Keys(d) || k in Keys(kvs)
    ensures k !in Keys(kvs) ==> Get(SetAll(d, kvs), k) == Get(d, k)
    ensures forall i :: 0 <= i < |kvs| && kvs[i].0 == k &&
                        (forall j :: i < j < |kvs| ==> kvs[j].0 != k) ==>
                        Get(SetAll(d, kvs), k) == Some(kvs[i].1)
  {
    SetAllKeys(d, kvs, k);
    forall i | 0 <= i < |kvs| && kvs[i].0 == k && (forall j :: i < j < |kvs| ==> kvs[j].0 != k)
      ensures Get(SetAll(d, kvs), k) == Some(kvs[i].1)
    {
      SetAllLast(d, kvs, i);
    }
  }

  /** Building a dict from pairs keeps one entry per distinct key, so it has
      as many entries as there are distinct keys. */
  lemma DistinctKeysSize<V>(d: Dict<V>)
    requires DistinctKeys(d)
    ensures |d| == |set i | 0 <= i < |d| :: d[i].0|
  {
    if d != [] {
      var rest := d[1..];
      DistinctKeysSize(rest);
      var s := set i | 0 <= i < |d| :: d[i].0;
      var t := set i | 0 <= i < |rest| :: rest[i].0;
      assert s == {d[0].0} + t by {
        forall x | x in s ensures x in {d[0].0} + t {
          var i :| 0 <= i < |d| && d[i].0 == x;
          if i > 0 { assert rest[i - 1].0 == x; }
        }
        forall x | x in t ensures x in s {
          var i :| 0 <= i < |rest| && rest[i].0 == x;
          assert d[i + 1].0 == x;
        }
      }
      assert d[0].0 !in t;
    }
  }

  /** Appending entries whose keys are new keeps a dict a dict. */
  lemma DistinctAppend<V>(a: Dict<V>, b: Dict<V>)
    requires DistinctKeys(a) && DistinctKeys(b)
    requires forall i :: 0 <= i < |b| ==> b[i].0 !in Keys(a)
    ensures DistinctKeys(a + b)
  {
    forall i, j | 0 <= i < j < |a + b| ensures (a + b)[i].0 != (a + b)[j].0 {
      if j >= |a| && i < |a| {
        assert (a + b)[j] == b[j - |a|];
        assert Keys(a)[i] == (a + b)[i].0;
      }
    }
  }
}
