/** The registry of advice instances: an immutable pair of arrays, keys in
    ascending order beside the advice they name, replaced by a new pair on
    every change; lookups use binary search. */
module AdviceManager {
  import opened Common

  /** The entries of a registry: each key with its advice. */
  predicate Ascending<A>(es: seq<(int, A)>)
  {
    forall i, j :: 0 <= i < j < |es| ==> es[i].0 <= es[j].0
  }

  /** Distinct keys, in ascending order. */
  predicate Increasing<A>(es: seq<(int, A)>)
  {
    forall i, j :: 0 <= i < j < |es| ==> es[i].0 < es[j].0
  }

  /** Every key is below `bound`. */
  predicate Below<A>(es: seq<(int, A)>, bound: int)
  {
    forall i :: 0 <= i < |es| ==> es[i].0 < bound
  }

  /** A key above every key of the entries is not in their map. */
  lemma {:induction false} AsMapBelow<A>(es: seq<(int, A)>, bound: int)
    requires forall i :: 0 <= i < |es| ==> es[i].0 < bound
    ensures bound !in AsMap(es)
    decreases |es|
  {
    if es != [] {
      AsMapBelow(es[..|es| - 1], bound);
    }
  }

  /** A key of no entry is not in their map. */
  lemma {:induction false} AsMapAbsent<A>(es: seq<(int, A)>, key: int)
    requires key !in KeysOf(es)
    ensures key !in AsMap(es)
    decreases |es|
  {
    if es != [] {
      assert KeysOf(es[..|es| - 1]) == KeysOf(es)[..|es| - 1];
      AsMapAbsent(es[..|es| - 1], key);
    }
  }

  /** The keys of `es`. */
  function KeysOf<A>(es: seq<(int, A)>): (r: seq<int>)
    ensures |r| == |es| && forall i :: 0 <= i < |es| ==> r[i] == es[i].0
  {
    seq(|es|, i requires 0 <= i < |es| => es[i].0)
  }

  /** Where `add` puts a new key: before the first key not below it. */
  function Position<A>(es: seq<(int, A)>, key: int): (p: nat)
    ensures p <= |es|
    ensures forall i :: 0 <= i < p ==> es[i].0 < key
    ensures p < |es| ==> es[p].0 >= key
    decreases |es|
  {
    if es == [] || es[0].0 >= key then 0 else 1 + Position(es[1..], key)
  }

  /** The entries whose key is not `key`, in order. */
  function Without<A>(es: seq<(int, A)>, key: int): (r: seq<(int, A)>)
    ensures |r| <= |es|
    decreases |es|
  {
    if es == [] then []
    else Without(es[..|es| - 1], key) + (if es[|es| - 1].0 != key then [es[|es| - 1]] else [])
  }

  /** What the entries map each key to (the later entry wins). */
  function AsMap<A>(es: seq<(int, A)>): map<int, A>
    decreases |es|
  {
    if es == [] then map[] else AsMap(es[..|es| - 1])[es[|es| - 1].0 := es[|es| - 1].1]
  }

  /** The entries kept are entries with another key. */
  lemma {:induction false} WithoutMembers<A>(es: seq<(int, A)>, key: int, i: nat)
    requires i < |Without(es, key)|
    ensures Without(es, key)[i] in es && Without(es, key)[i].0 != key
    decreases |es|
  {
    var init := es[..|es| - 1];
    if i < |Without(init, key)| {
      WithoutMembers(init, key, i);
    }
  }

  /** Inserting at `Position` keeps the keys in ascending order. */
  lemma InsertKeepsAscending<A>(es: seq<(int, A)>, key: int, a: A)
    requires Ascending(es)
    ensures var p := Position(es, key); Ascending(es[..p] + [(key, a)] + es[p..])
  {
    var p := Position(es, key);
    var r := es[..p] + [(key, a)] + es[p..];
    forall i, j | 0 <= i < j < |r|
      ensures r[i].0 <= r[j].0
    {
      if j == p {
        assert r[i] == es[i];
      } else if i == p {
        assert r[j] == es[j - 1];
        assert es[p].0 >= key;
        assert es[p].0 <= es[j - 1].0;
      }
    }
  }

  /** Dropping entries keeps the keys in ascending order. */
  lemma {:induction false} WithoutKeepsAscending<A>(es: seq<(int, A)>, key: int)
    requires Ascending(es)
    ensures Ascending(Without(es, key))
    decreases |es|
  {
    if es != [] {
      var init := es[..|es| - 1];
      WithoutKeepsAscending(init, key);
      var w := Without(init, key);
      forall k | 0 <= k < |w|
        ensures w[k].0 <= es[|es| - 1].0
      {
        WithoutMembers(init, key, k);
        var i :| 0 <= i < |init| && init[i] == w[k];
        assert es[i] == init[i];
      }
    }
  }

  /** Without duplicate keys, removing a key's entries removes it from the
      map and keeps the others. */
  lemma {:induction false} WithoutAsMap<A>(es: seq<(int, A)>, key: int)
    ensures AsMap(Without(es, key)) == AsMap(es) - {key}
    decreases |es|
  {
    if es != [] {
      var init := es[..|es| - 1];
      var last := es[|es| - 1];
      var w := Without(init, key);
      WithoutAsMap(init, key);
      var m := AsMap(init);
      assert AsMap(es) == m[last.0 := last.1];
      if last.0 != key {
        assert Without(es, key) == w + [last];
        assert (w + [last])[..|w|] == w;
        assert AsMap(w + [last]) == AsMap(w)[last.0 := last.1];
        MapUpdateRemove(m, last.0, last.1, key);
      } else {
        assert Without(es, key) == w + [];
        assert w + [] == w;
        MapUpdateRemoveSame(m, key, last.1);
      }
    }
  }

  lemma MapUpdateRemove<A>(m: map<int, A>, k: int, v: A, key: int)
    requires k != key
    ensures (m - {key})[k := v] == m[k := v] - {key}
  {
  }

  lemma MapUpdateRemoveSame<A>(m: map<int, A>, key: int, v: A)
    ensures m[key := v] - {key} == m - {key}
  {
  }

  /** The entry a binary search finds names what the map holds, when keys
      are distinct. */
  lemma {:induction false} EntryInMap<A>(es: seq<(int, A)>, i: nat)
    requires i < |es|
    requires forall j, k :: 0 <= j < k < |es| ==> es[j].0 != es[k].0
    ensures es[i].0 in AsMap(es) && AsMap(es)[es[i].0] == es[i].1
    decreases |es|
  {
    if i < |es| - 1 {
      EntryInMap(es[..|es| - 1], i);
    }
  }

  /** Keys paired with the advice beside them. */
  function Zip<A>(ks: seq<int>, vs: seq<A>): (r: seq<(int, A)>)
    requires |ks| == |vs|
    ensures |r| == |ks| && forall i :: 0 <= i < |r| ==> r[i] == (ks[i], vs[i])
  {
    seq(|ks|, i requires 0 <= i < |ks| => (ks[i], vs[i]))
  }

  /** Inserting into both arrays at one place inserts the pair there. */
  lemma ZipInsert<A>(ks: seq<int>, vs: seq<A>, p: nat, k: int, v: A)
    requires |ks| == |vs| && p <= |ks|
    ensures Zip(ks[..p] + [k] + ks[p..], vs[..p] + [v] + vs[p..]) == Zip(ks, vs)[..p] + [(k, v)] + Zip(ks, vs)[p..]
  {
    var l := Zip(ks[..p] + [k] + ks[p..], vs[..p] + [v] + vs[p..]);
    var t := Zip(ks, vs)[..p] + [(k, v)] + Zip(ks, vs)[p..];
    forall j | 0 <= j < |t|
      ensures l[j] == t[j]
    {
      if j < p {
        assert t[j] == Zip(ks, vs)[j];
      } else if j > p {
        assert t[j] == Zip(ks, vs)[j - 1];
      }
    }
  }

  /** `b` is `a` with `x` inserted at `p`, stated index by index. */
  lemma Spliced<T>(a: seq<T>, b: seq<T>, p: nat, x: T)
    requires p <= |a| && |b| == |a| + 1
    requires forall j :: 0 <= j < p ==> b[j] == a[j]
    requires b[p] == x
    requires forall j :: p <= j < |a| ==> b[j + 1] == a[j]
    ensures b == a[..p] + [x] + a[p..]
  {
  }

  /** Inserting the key after every key below it puts the entry at
      `Position`. */
  lemma InsertAt<A>(ks: seq<int>, vs: seq<A>, p: nat, k: int, v: A)
    requires |ks| == |vs| && p <= |ks|
    requires forall j :: 0 <= j < p ==> ks[j] < k
    requires p < |ks| ==> ks[p] >= k
    ensures var es := Zip(ks, vs); var q := Position(es, k);
      Zip(ks[..p] + [k] + ks[p..], vs[..p] + [v] + vs[p..]) == es[..q] + [(k, v)] + es[q..]
  {
    PositionIs(Zip(ks, vs), k, p);
    ZipInsert(ks, vs, p, k, v);
  }

  /** Entries that agree with the arrays at every index are their zip. */
  lemma ZipEqual<A>(ks: seq<int>, vs: seq<A>, es: seq<(int, A)>)
    requires |ks| == |vs| == |es|
    requires forall m :: 0 <= m < |es| ==> es[m] == (ks[m], vs[m])
    ensures Zip(ks, vs) == es
  {
  }

  class ActiveInstances<A(0)> {
    const instances: array<A>
    const keys: array<int>

    ghost predicate Valid()
      reads this
    {
      instances.Length == keys.Length
    }

    /** The entries, key beside advice. */
    ghost function Entries(): (es: seq<(int, A)>)
      requires Valid()
      reads this, keys, instances
      ensures |es| == keys.Length
    {
      Zip(keys[..], instances[..])
    }

    constructor (instances: array<A>, keys: array<int>)
      requires instances.Length == keys.Length
      ensures Valid() && this.instances == instances && this.keys == keys
    {
      this.instances := instances;
      this.keys := keys;
    }

    /** `lookup`: binary search for the key; an advice with that key, or
        none when no entry has it. */
    method Lookup(key: int) returns (r: Option<A>)
      requires Valid() && Ascending(Entries())
      ensures r.None? <==> key !in KeysOf(Entries())
      ensures r.Some? ==> (key, r.value) in Entries()
    {
      ghost var es := Entries();
      var lo, hi := 0, keys.Length - 1;
      while lo <= hi
        invariant 0 <= lo <= hi + 1 <= keys.Length
        invariant forall i :: 0 <= i < lo ==> es[i].0 < key
        invariant forall i :: hi < i < keys.Length ==> es[i].0 > key
      {
        var mid := lo + (hi - lo) / 2;
        assert es[mid] == (keys[mid], instances[mid]);
        if key < keys[mid] {
          hi := mid - 1;
        } else if key > keys[mid] {
          lo := mid + 1;
        } else {
          assert KeysOf(es)[mid] == key;
          return Some(instances[mid]);
        }
      }
      forall i | 0 <= i < keys.Length
        ensures KeysOf(es)[i] != key
      {
      }
      r := None;
    }

    /** `add`: a new registry with the advice inserted before the first key
        not below its own; this one is unchanged. */
    method Add(advice: A, key: int) returns (r: ActiveInstances<A>)
      requires Valid()
      ensures fresh(r) && fresh(r.keys) && fresh(r.instances) && r.Valid()
      ensures var p := Position(Entries(), key); r.Entries() == Entries()[..p] + [(key, advice)] + Entries()[p..]
    {
      var newInstances := new A[instances.Length + 1];
      var newKeys := new int[keys.Length + 1];
      var p := CopyBelow(key, newInstances, newKeys);
      CopyAbove(p, advice, key, newInstances, newKeys);
      r := new ActiveInstances(newInstances, newKeys);
      InsertAt(keys[..], instances[..], p, key, advice);
    }

    /** The first loop of `add`: the entries whose keys are below `key`,
        copied; the position where they end. */
    method CopyBelow(key: int, newInstances: array<A>, newKeys: array<int>) returns (p: nat)
      requires Valid() && newInstances.Length == instances.Length + 1 && newKeys.Length == keys.Length + 1
      requires newInstances != instances && newKeys != keys
      requires newInstances as object != keys && newKeys as object != instances && newInstances as object != newKeys
      modifies newInstances, newKeys
      ensures p <= keys.Length
      ensures forall j :: 0 <= j < p ==> keys[j] < key
      ensures p < keys.Length ==> keys[p] >= key
      ensures forall j :: 0 <= j < p ==> newKeys[j] == keys[j] && newInstances[j] == instances[j]
    {
      p := 0;
      while p < keys.Length && keys[p] < key
        invariant 0 <= p <= keys.Length
        invariant forall j :: 0 <= j < p ==> keys[j] < key
        invariant forall j :: 0 <= j < p ==> newKeys[j] == keys[j] && newInstances[j] == instances[j]
      {
        newInstances[p] := instances[p];
        newKeys[p] := keys[p];
        p := p + 1;
      }
    }

    /** The rest of `add`: the new entry at `p`, then the remaining entries
        one place further on. */
    method CopyAbove(p: nat, advice: A, key: int, newInstances: array<A>, newKeys: array<int>)
      requires Valid() && newInstances.Length == instances.Length + 1 && newKeys.Length == keys.Length + 1
      requires newInstances != instances && newKeys != keys && p <= keys.Length
      requires newInstances as object != keys && newKeys as object != instances && newInstances as object != newKeys
      requires forall j :: 0 <= j < p ==> newKeys[j] == keys[j] && newInstances[j] == instances[j]
      modifies newInstances, newKeys
      ensures newKeys[..] == keys[..p] + [key] + keys[p..]
      ensures newInstances[..] == instances[..p] + [advice] + instances[p..]
    {
      newInstances[p] := advice;
      newKeys[p] := key;
      var i := p;
      while i < keys.Length
        invariant p <= i <= keys.Length
        invariant forall j :: 0 <= j < p ==> newKeys[j] == keys[j] && newInstances[j] == instances[j]
        invariant newKeys[p] == key && newInstances[p] == advice
        invariant forall j :: p <= j < i ==> newKeys[j + 1] == keys[j] && newInstances[j + 1] == instances[j]
      {
        newInstances[i + 1] := instances[i];
        newKeys[i + 1] := keys[i];
        i := i + 1;
      }
      Spliced(keys[..], newKeys[..], p, key);
      Spliced(instances[..], newInstances[..], p, advice);
    }

    /** `remove`: a new registry without any entry of the key, the others
        in order; this one is unchanged. */
    method Remove(key: int) returns (r: ActiveInstances<A>)
      requires Valid()
      ensures fresh(r) && r.Valid()
      ensures r.Entries() == Without(Entries(), key)
    {
      var extractedInstances := new A[instances.Length];
      var extractedKeys := new int[keys.Length];
      var count := Extract(key, extractedInstances, extractedKeys);
      var newInstances := CopyOf(extractedInstances, count);
      var newKeys := CopyOf(extractedKeys, count);
      r := new ActiveInstances(newInstances, newKeys);
      ZipEqual(newKeys[..], newInstances[..], Without(Entries(), key));
    }

    /** The loop of `remove`: every entry without the key, copied to the
        front of the arrays in order; how many there are. */
    method Extract(key: int, extractedInstances: array<A>, extractedKeys: array<int>) returns (count: nat)
      requires Valid() && extractedInstances.Length == instances.Length && extractedKeys.Length == keys.Length
      requires extractedInstances != instances && extractedKeys != keys
      requires extractedInstances as object != keys && extractedKeys as object != instances
      requires extractedInstances as object != extractedKeys
      modifies extractedInstances, extractedKeys
      ensures count == |Without(Entries(), key)| <= keys.Length
      ensures forall m :: 0 <= m < count ==> Without(Entries(), key)[m] == (extractedKeys[m], extractedInstances[m])
    {
      ghost var es := Entries();
      count := 0;
      assert es[..0] == [];
      for i := 0 to keys.Length
        invariant count == |Without(es[..i], key)| <= i
        invariant forall m :: 0 <= m < count ==> Without(es[..i], key)[m] == (extractedKeys[m], extractedInstances[m])
      {
        WithoutSnoc(es, key, i);
        assert es[i] == (keys[i], instances[i]);
        if keys[i] != key {
          extractedInstances[count] := instances[i];
          extractedKeys[count] := keys[i];
          count := count + 1;
        }
      }
      assert es[..keys.Length] == es;
    }
  }

  /** `System.arraycopy` of the first `n` elements into a new array of
      that size. */
  method CopyOf<T(0)>(a: array<T>, n: nat) returns (b: array<T>)
    requires n <= a.Length
    ensures fresh(b) && b[..] == a[..n]
  {
    b := new T[n];
    forall j | 0 <= j < n {
      b[j] := a[j];
    }
  }

  /** One more entry considered by `remove`'s loop. */
  lemma WithoutSnoc<A>(es: seq<(int, A)>, key: int, i: nat)
    requires i < |es|
    ensures Without(es[..i + 1], key) == Without(es[..i], key) + (if es[i].0 != key then [es[i]] else [])
  {
    assert es[..i + 1][..i] == es[..i];
  }

  lemma PositionIs<A>(es: seq<(int, A)>, key: int, p: nat)
    requires p <= |es|
    requires forall j :: 0 <= j < p ==> es[j].0 < key
    requires p < |es| ==> es[p].0 >= key
    ensures Position(es, key) == p
  {
  }

  /** The advice instance manager: the current registry and the id
      generator. */
  class Manager<A(0)> {
    var active: ActiveInstances<A>
    var seed: int

    /** The keys are distinct and ascending, and every one was issued
        before `seed`. */
    ghost predicate Valid()
      reads this, active, active.keys, active.instances
    {
      && active.Valid()
      && Increasing(active.Entries())
      && Below(active.Entries(), seed)
    }

    /** What the registry maps each id to. */
    ghost function Registered(): map<int, A>
      requires Valid()
      reads this, active, active.keys, active.instances
    {
      AsMap(active.Entries())
    }

    constructor (seed: int)
      ensures Valid() && Registered() == map[] && this.seed == seed
    {
      var instances := new A[0];
      var keys := new int[0];
      active := new ActiveInstances(instances, keys);
      this.seed := seed;
    }

    /** `register`: a fresh id, above every id issued before, names the
        advice from now on. */
    method Register(advice: A) returns (id: int)
      requires Valid()
      modifies this
      ensures Valid()
      ensures id == old(seed) && seed == old(seed) + 1 && id !in old(Registered())
      ensures Registered() == old(Registered())[id := advice]
    {
      id := seed;
      seed := seed + 1;
      ghost var es := active.Entries();
      Appended(es, id, advice);
      active := active.Add(advice, id);
    }

    /** `lookup`: the advice the id names, none once removed or never
        issued. */
    method Lookup(id: int) returns (r: Option<A>)
      requires Valid()
      ensures r == if id in Registered() then Some(Registered()[id]) else None
    {
      r := active.Lookup(id);
      if r.None? {
        AsMapAbsent(active.Entries(), id);
      } else {
        ghost var es := active.Entries();
        ghost var i :| 0 <= i < |es| && es[i] == (id, r.value);
        EntryInMap(es, i);
      }
    }

    /** `remove`: the id no longer names any advice. */
    method Remove(id: int)
      requires Valid()
      modifies this
      ensures Valid() && seed == old(seed)
      ensures Registered() == old(Registered()) - {id}
    {
      ghost var es := active.Entries();
      WithoutAsMap(es, id);
      active := active.Remove(id);
      ghost var kept := active.Entries();
      forall i, j | 0 <= i < j < |kept|
        ensures kept[i].0 < kept[j].0
      {
        WithoutIncreasing(es, id, i, j);
      }
      forall i | 0 <= i < |kept|
        ensures kept[i].0 < seed
      {
        WithoutMembers(es, id, i);
      }
    }
  }

  /** An id above every key goes last, and the registry maps it to its
      advice from then on. */
  lemma Appended<A>(es: seq<(int, A)>, id: int, a: A)
    requires Increasing(es) && Below(es, id)
    ensures Position(es, id) == |es|
    ensures es[..|es|] + [(id, a)] + es[|es|..] == es + [(id, a)]
    ensures Increasing(es + [(id, a)]) && Below(es + [(id, a)], id + 1)
    ensures id !in AsMap(es) && AsMap(es + [(id, a)]) == AsMap(es)[id := a]
  {
    PositionIs(es, id, |es|);
    AsMapBelow(es, id);
    assert es[..|es|] == es && es[|es|..] == [];
    assert (es + [(id, a)])[..|es|] == es;
  }

  /** Dropping entries keeps distinct keys strictly ascending. */
  lemma {:induction false} WithoutIncreasing<A>(es: seq<(int, A)>, key: int, i: nat, j: nat)
    requires Increasing(es)
    requires i < j < |Without(es, key)|
    ensures Without(es, key)[i].0 < Without(es, key)[j].0
    decreases |es|
  {
    var init := es[..|es| - 1];
    var w := Without(init, key);
    if j < |w| {
      WithoutIncreasing(init, key, i, j);
    } else {
      WithoutMembers(init, key, i);
      assert Without(es, key)[j] == es[|es| - 1];
    }
  }
}
