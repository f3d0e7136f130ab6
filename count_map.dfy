/**
 A Python `defaultdict(lambda: 0)` of word counts as a value: the counts,
 and the keys in the dictionary's insertion order (the order `.keys()`,
 `.copy().keys()` and `.items()` walk). A missing key reads as 0.
 */
module CountMaps {

  predicate Distinct(s: seq<string>) {
    forall i, j :: 0 <= i < j < |s| ==> s[i] != s[j]
  }

  datatype CountMap = CountMap(keys: seq<string>, count: map<string, nat>) {
    /** The keys are listed once each, and exactly the keys of `count` are listed. */
    ghost predicate Valid() {
      Distinct(keys) && forall k :: k in count <==> k in keys
    }
  }

  /** `defaultdict(lambda: 0)`: nothing stored yet. */
  const Empty: CountMap := CountMap([], map[])

  /** The count a key of the bare map `m` reads as, 0 when absent. */
  function Look(m: map<string, nat>, k: string): nat {
    if k in m then m[k] else 0
  }

  /** The count a key reads as, 0 when absent (without inserting it). */
  function Get(c: CountMap, k: string): nat {
    Look(c.count, k)
  }

  /** `c[k] += n`: an absent key is first inserted at the end with 0. */
  function Add(c: CountMap, k: string, n: nat): (r: CountMap)
    requires c.Valid()
    ensures r.Valid()
    ensures k in r.count && Get(r, k) == Get(c, k) + n
    ensures forall j :: j != k ==> (j in r.count <==> j in c.count) && Get(r, j) == Get(c, j)
    ensures r.keys == if k in c.count then c.keys else c.keys + [k]
  {
    if k in c.count then CountMap(c.keys, c.count[k := c.count[k] + n])
    else CountMap(c.keys + [k], c.count[k := n])
  }

  /** `s` with every occurrence of `k` taken out, the rest in order. */
  function RemoveFrom(s: seq<string>, k: string): (r: seq<string>)
    ensures forall j :: j in r <==> j in s && j != k
    ensures Distinct(s) ==> Distinct(r)
  {
    if s == [] then []
    else if s[0] == k then RemoveFrom(s[1..], k)
    else
      var t := RemoveFrom(s[1..], k);
      assert Distinct(s) ==> s[0] !in s[1..] && Distinct(s[1..]);
      [s[0]] + t
  }

  /** Taking `k` out of a list with a given first key. */
  lemma RemoveFromCons(j: string, t: seq<string>, k: string)
    ensures RemoveFrom([j] + t, k) == (if j == k then [] else [j]) + RemoveFrom(t, k)
  {
    var s := [j] + t;
    assert s[0] == j && s[1..] == t;
  }

  /** Taking `k` out works piece by piece, so the other keys keep their order. */
  lemma {:induction false} RemoveFromConcat(a: seq<string>, b: seq<string>, k: string)
    ensures RemoveFrom(a + b, k) == RemoveFrom(a, k) + RemoveFrom(b, k)
  {
    if a == [] {
      assert a + b == b;
    } else {
      var j, t := a[0], a[1..];
      assert a == [j] + t && a + b == [j] + (t + b);
      var keep := if j == k then [] else [j];
      calc {
        RemoveFrom(a + b, k);
        { RemoveFromCons(j, t + b, k); }
        keep + RemoveFrom(t + b, k);
        { RemoveFromConcat(t, b, k); }
        keep + (RemoveFrom(t, k) + RemoveFrom(b, k));
        (keep + RemoveFrom(t, k)) + RemoveFrom(b, k);
        { RemoveFromCons(j, t, k); }
        RemoveFrom(a, k) + RemoveFrom(b, k);
      }
    }
  }

  /** In a list of distinct keys, taking `k` out cuts out its one position
      and leaves the keys before and after it in order. */
  lemma RemoveFromAt(s: seq<string>, k: string, i: int)
    requires Distinct(s) && 0 <= i < |s| && s[i] == k
    ensures RemoveFrom(s, k) == s[..i] + s[i + 1..]
  {
    assert s == s[..i] + ([k] + s[i + 1..]);
    assert k !in s[..i] && k !in s[i + 1..];
    RemoveFromConcat(s[..i], [k] + s[i + 1..], k);
    RemoveFromCons(k, s[i + 1..], k);
    RemoveFromAbsent(s[..i], k);
    RemoveFromAbsent(s[i + 1..], k);
  }

  /** `del c[k]`, which Python only allows on a present key. */
  function Delete(c: CountMap, k: string): (r: CountMap)
    requires c.Valid() && k in c.count
    ensures r.Valid()
    ensures k !in r.count
    ensures forall j :: j != k ==> (j in r.count <==> j in c.count) && Get(r, j) == Get(c, j)
    ensures r.keys == RemoveFrom(c.keys, k)
  {
    CountMap(RemoveFrom(c.keys, k), c.count - {k})
  }

  /** `del c[k]` cuts `k` out of the insertion order and keeps the keys
      before and after it in order. */
  lemma DeleteOrder(c: CountMap, k: string)
    requires c.Valid() && k in c.count
    ensures exists i :: 0 <= i < |c.keys| && c.keys[i] == k && Delete(c, k).keys == c.keys[..i] + c.keys[i + 1..]
  {
    var i :| 0 <= i < |c.keys| && c.keys[i] == k;
    RemoveFromAt(c.keys, k, i);
  }

  // ---------------------------------------------------------------------
  // Totals: `sum(c.values())`

  /** The counts of the listed keys, added up. */
  function SumOf(ks: seq<string>, m: map<string, nat>): nat {
    if ks == [] then 0 else Look(m, ks[0]) + SumOf(ks[1..], m)
  }

  /** The sum of all counts. */
  function Total(c: CountMap): nat {
    SumOf(c.keys, c.count)
  }

  /** Two maps that agree on the listed keys have the same sum over them. */
  lemma {:induction false} SumAgree(ks: seq<string>, m1: map<string, nat>, m2: map<string, nat>)
    requires forall k :: k in ks ==> Look(m1, k) == Look(m2, k)
    ensures SumOf(ks, m1) == SumOf(ks, m2)
  {
    if ks != [] {
      SumAgree(ks[1..], m1, m2);
    }
  }

  /** Listing one more key adds its count. */
  lemma {:induction false} SumAppend(ks: seq<string>, k: string, m: map<string, nat>)
    ensures SumOf(ks + [k], m) == SumOf(ks, m) + Look(m, k)
  {
    if ks != [] {
      assert (ks + [k])[1..] == ks[1..] + [k];
      SumAppend(ks[1..], k, m);
    }
  }

  /** Over keys listed once each, changing one listed key's count changes
      the sum by the difference. */
  lemma {:induction false} SumUpdate(ks: seq<string>, k: string, v: nat, m: map<string, nat>)
    requires Distinct(ks) && k in ks
    ensures SumOf(ks, m[k := v]) == SumOf(ks, m) - Look(m, k) + v
  {
    if ks[0] == k {
      SumAgree(ks[1..], m[k := v], m);
    } else {
      SumUpdate(ks[1..], k, v, m);
    }
  }

  /** Taking a key out of the list takes its count out of the sum. */
  lemma {:induction false} SumRemove(ks: seq<string>, k: string, m: map<string, nat>)
    requires Distinct(ks) && k in ks
    ensures SumOf(RemoveFrom(ks, k), m) == SumOf(ks, m) - Look(m, k)
  {
    if ks[0] == k {
      assert k !in ks[1..];
      RemoveFromAbsent(ks[1..], k);
    } else {
      SumRemove(ks[1..], k, m);
    }
  }

  lemma {:induction false} RemoveFromAbsent(s: seq<string>, k: string)
    requires k !in s
    ensures RemoveFrom(s, k) == s
  {
    if s != [] {
      RemoveFromAbsent(s[1..], k);
    }
  }

  /** `c[k] += n` raises the total by exactly `n`. */
  lemma TotalAdd(c: CountMap, k: string, n: nat)
    requires c.Valid()
    ensures Total(Add(c, k, n)) == Total(c) + n
  {
    if k in c.count {
      SumUpdate(c.keys, k, c.count[k] + n, c.count);
    } else {
      SumAgree(c.keys, c.count[k := n], c.count);
      SumAppend(c.keys, k, c.count[k := n]);
    }
  }

  /** `del c[k]` lowers the total by exactly the deleted count. */
  lemma TotalDelete(c: CountMap, k: string)
    requires c.Valid() && k in c.count
    ensures Total(Delete(c, k)) == Total(c) - c.count[k]
  {
    var ks := RemoveFrom(c.keys, k);
    SumAgree(ks, c.count - {k}, c.count);
    SumRemove(c.keys, k, c.count);
  }
}
