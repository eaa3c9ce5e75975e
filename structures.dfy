/** The synchronized containers shared by the tracker and the node: a map and
    a list, each guarded by a lock in the source. Every operation runs under
    that lock, so here each method is one atomic step on the container's
    state. */
module Structures {
  import opened Common

  /** A map whose methods mutate the underlying map `M` in place. */
  class SynchronizedMap<K(==), V> {
    var M: map<K, V>

    /** NewSynchronizedMap: an empty map. */
    constructor ()
      ensures M == map[]
    {
      M := map[];
    }

    /** Get: the value stored under key, reported with ok = true, or ok = false
        when the key is absent. */
    method Get(key: K) returns (val: Option<V>)
      ensures val.Some? <==> key in M
      ensures val.Some? ==> val.value == M[key]
    {
      if key in M {
        val := Some(M[key]);
      } else {
        val := None;
      }
    }

    /** Put: key now maps to val; every other key keeps its entry. */
    method Put(key: K, val: V)
      modifies this
      ensures M == old(M)[key := val]
    {
      M := M[key := val];
    }

    /** Delete: key is gone; every other key keeps its entry. Deleting an
        absent key changes nothing. */
    method Delete(key: K)
      modifies this
      ensures M == old(M) - {key}
      ensures key !in old(M) ==> M == old(M)
    {
      M := M - {key};
    }

    method Len() returns (n: nat)
      ensures n == |M|
    {
      n := |M|;
    }

    /** Keys: every key exactly once, in the map's iteration order (which the
        source leaves unspecified). */
    method Keys() returns (keys: seq<K>)
      ensures |keys| == |M| && Distinct(keys)
      ensures forall k :: k in keys <==> k in M
    {
      keys := [];
      var rest := M.Keys;
      while rest != {}
        invariant rest <= M.Keys
        invariant forall k :: k in keys <==> k in M && k !in rest
        invariant Distinct(keys)
        invariant |keys| + |rest| == |M.Keys|
        decreases rest
      {
        var k :| k in rest;
        keys := keys + [k];
        rest := rest - {k};
      }
    }

    /** Values: one value per entry; `order` names the entry each came from. */
    method Values() returns (values: seq<V>, ghost order: seq<K>)
      ensures |values| == |order| == |M| && Distinct(order)
      ensures forall k :: k in order <==> k in M
      ensures forall i :: 0 <= i < |order| ==> order[i] in M && values[i] == M[order[i]]
      ensures |values| == |M| && forall k :: k in M ==> M[k] in values
    {
      values, order := [], [];
      var rest := M.Keys;
      while rest != {}
        invariant rest <= M.Keys
        invariant |values| == |order|
        invariant forall k :: k in order <==> k in M && k !in rest
        invariant Distinct(order)
        invariant |order| + |rest| == |M.Keys|
        invariant forall i :: 0 <= i < |order| ==> order[i] in M && values[i] == M[order[i]]
        decreases rest
      {
        var k :| k in rest;
        values, order := values + [M[k]], order + [k];
        rest := rest - {k};
      }
      forall k | k in M ensures M[k] in values {
        var i :| 0 <= i < |order| && order[i] == k;
        assert values[i] == M[k];
      }
    }

    /** Contains: true exactly when Get would report ok. */
    method Contains(key: K) returns (ok: bool)
      ensures ok <==> key in M
    {
      ok := key in M;
    }

    /** ForEach: f is applied exactly once to every entry; `order` is the
        iteration order and `results` what each call produced. */
    method ForEach<R>(f: (K, V) -> R) returns (results: seq<R>, ghost order: seq<K>)
      ensures |results| == |order| == |M| && Distinct(order)
      ensures forall k :: k in order <==> k in M
      ensures forall i :: 0 <= i < |order| ==> order[i] in M && results[i] == f(order[i], M[order[i]])
      ensures |results| == |M| && forall k :: k in M ==> f(k, M[k]) in results
    {
      results, order := [], [];
      var rest := M.Keys;
      while rest != {}
        invariant rest <= M.Keys
        invariant |results| == |order|
        invariant forall k :: k in order <==> k in M && k !in rest
        invariant Distinct(order)
        invariant |order| + |rest| == |M.Keys|
        invariant forall i :: 0 <= i < |order| ==> order[i] in M && results[i] == f(order[i], M[order[i]])
        decreases rest
      {
        var k :| k in rest;
        results, order := results + [f(k, M[k])], order + [k];
        rest := rest - {k};
      }
      forall k | k in M ensures f(k, M[k]) in results {
        var i :| 0 <= i < |order| && order[i] == k;
        assert results[i] == f(k, M[k]);
      }
    }
  }

  /** After Put(k, v), Get(k) reports v; after Delete(k), Get(k) reports
      absence; a different key is unaffected by either. */
  method MapClient<K(==), V>(m: SynchronizedMap<K, V>, k: K, other: K, v: V)
    requires k != other
    modifies m
    ensures m.M == (old(m.M)[k := v]) - {k}
  {
    var before := m.Get(other);
    m.Put(k, v);
    var got := m.Get(k);
    assert got == Some(v);
    var c := m.Contains(k);
    assert c;
    var still := m.Get(other);
    assert still == before;
    m.Delete(k);
    got := m.Get(k);
    assert got == None;
    still := m.Get(other);
    assert still == before;
  }

  /** The index of the first occurrence of v in s. */
  function IndexOf<V(==)>(s: seq<V>, v: V): (i: nat)
    requires v in s
    ensures i < |s| && s[i] == v
    ensures forall j :: 0 <= j < i ==> s[j] != v
  {
    if s[0] == v then 0 else 1 + IndexOf(s[1..], v)
  }

  /** Removal by moving the last element into slot i and dropping the tail. */
  function SwapRemove<V>(s: seq<V>, i: nat): seq<V>
    requires i < |s|
  {
    s[i := s[|s| - 1]][..|s| - 1]
  }

  /** Swap-with-last removal takes out exactly one copy of s[i]: one element
      fewer, every other element still there, and only slot i changes. */
  lemma SwapRemoveDropsOne<V>(s: seq<V>, i: nat)
    requires i < |s|
    ensures |SwapRemove(s, i)| == |s| - 1
    ensures multiset(SwapRemove(s, i)) == multiset(s) - multiset{s[i]}
    ensures forall j :: 0 <= j < |s| - 1 && j != i ==> SwapRemove(s, i)[j] == s[j]
  {
    SwapRemoveCount(s, i);
  }

  lemma SwapRemoveCount<V>(s: seq<V>, i: nat)
    requires i < |s|
    ensures multiset(SwapRemove(s, i)) + multiset{s[i]} == multiset(s)
  {
    var n := |s| - 1;
    var t, r := s[i := s[n]], SwapRemove(s, i);
    assert multiset(t) == multiset(s) - multiset{s[i]} + multiset{s[n]};
    assert t == r + [s[n]];
    assert s[i] in multiset(s);
    forall x ensures (multiset(r) + multiset{s[i]})[x] == multiset(s)[x] {
      assert multiset(t)[x] == multiset(r)[x] + multiset{s[n]}[x];
    }
  }

  /** A list whose methods mutate the underlying slice `L` in place. */
  class SynchronizedList<V(==)> {
    var L: seq<V>

    /** NewSynchronizedList: an empty list; the size only reserves capacity. */
    constructor (initialSize: nat)
      ensures L == []
    {
      L := [];
    }

    /** Add: appends at the end. */
    method Add(val: V)
      modifies this
      ensures L == old(L) + [val]
    {
      L := L + [val];
    }

    /** Remove: the first occurrence of val is overwritten by the last element
        and the list is shortened by one; when val is absent nothing changes. */
    method Remove(val: V)
      modifies this
      ensures val in old(L) ==> L == SwapRemove(old(L), IndexOf(old(L), val))
      ensures val !in old(L) ==> L == old(L)
    {
      var i := 0;
      while i < |L|
        invariant 0 <= i <= |L|
        invariant L == old(L)
        invariant forall j :: 0 <= j < i ==> L[j] != val
      {
        if L[i] == val {
          L := L[i := L[|L| - 1]];
          L := L[..|L| - 1];
          return;
        }
        i := i + 1;
      }
    }

    method Len() returns (n: nat)
      ensures n == |L|
    {
      n := |L|;
    }

    /** Contains: whether some element equals val. */
    method Contains(val: V) returns (found: bool)
      ensures found <==> exists i :: 0 <= i < |L| && L[i] == val
    {
      var i := 0;
      while i < |L|
        invariant 0 <= i <= |L|
        invariant forall j :: 0 <= j < i ==> L[j] != val
      {
        if L[i] == val {
          return true;
        }
        i := i + 1;
      }
      return false;
    }

    /** ForEach: f is applied to the elements in index order. */
    method ForEach<R>(f: V -> R) returns (results: seq<R>)
      ensures |results| == |L|
      ensures forall i :: 0 <= i < |L| ==> results[i] == f(L[i])
    {
      results := [];
      var i := 0;
      while i < |L|
        invariant 0 <= i <= |L|
        invariant |results| == i
        invariant forall j :: 0 <= j < i ==> results[j] == f(L[j])
      {
        results := results + [f(L[i])];
        i := i + 1;
      }
    }
  }

  /** Removing a present value shortens the list by one and removes exactly
      one copy of it from the multiset of elements. */
  method ListClient<V(==)>(l: SynchronizedList<V>, v: V)
    requires v in l.L
    modifies l
    ensures |l.L| == |old(l.L)| - 1
    ensures multiset(l.L) == multiset(old(l.L)) - multiset{v}
  {
    l.Remove(v);
    SwapRemoveDropsOne(old(l.L), IndexOf(old(l.L), v));
  }
}
