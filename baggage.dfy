/** The baggage store: a map from namespace to a multimap from key to a set
    of values, all byte strings. A namespace with no values, and a key with
    no values, are not stored; every operation keeps it so, and ignores a
    null namespace or key. */
module Baggage {
  import opened Common
  import opened PivotTracingUtils

  type Bytes = seq<Byte>

  /** One namespace: each key's set of values. */
  type Multimap = map<Bytes, set<Bytes>>

  type Contents = map<Bytes, Multimap>

  /** No namespace is empty and no key is mapped to no value. */
  predicate Stored(c: Contents)
  {
    forall n :: n in c ==> c[n] != map[] && forall k :: k in c[n] ==> c[n][k] != {}
  }

  /** The values under namespace `n` and key `k`. */
  function GetOf(c: Contents, n: Bytes, k: Bytes): set<Bytes>
  {
    if n in c && k in c[n] then c[n][k] else {}
  }

  /** Two stored contents with the same values everywhere are equal: the
      values under each namespace and key are the whole state. */
  lemma ViewDetermines(a: Contents, b: Contents)
    requires Stored(a) && Stored(b)
    requires forall n, k :: GetOf(a, n, k) == GetOf(b, n, k)
    ensures a == b
  {
    forall n | n in a
      ensures n in b && a[n] == b[n]
    {
      var k :| k in a[n];
      assert GetOf(a, n, k) != {};
      forall k' | k' in a[n]
        ensures k' in b[n] && a[n][k'] == b[n][k']
      {
        assert GetOf(a, n, k') != {};
      }
      forall k' | k' in b[n]
        ensures k' in a[n]
      {
        assert GetOf(b, n, k') != {};
      }
    }
    forall n | n in b
      ensures n in a
    {
      var k :| k in b[n];
      assert GetOf(b, n, k) != {};
    }
  }

  /** A namespace is there exactly when some key in it has a value. */
  lemma NamespaceHolds(c: Contents, n: Bytes)
    requires Stored(c)
    ensures n in c <==> exists k :: GetOf(c, n, k) != {}
  {
    if n in c {
      var k :| k in c[n];
      assert GetOf(c, n, k) != {};
    }
  }

  /** The contents with the values of namespace `n` and key `k` set to `vs`. */
  function WithValues(c: Contents, n: Bytes, k: Bytes, vs: set<Bytes>): Contents
  {
    var m := if n in c then c[n] else map[];
    if vs != {} then c[n := m[k := vs]]
    else if m.Keys <= {k} then c - {n}
    else c[n := m - {k}]
  }

  /** Setting the values of one namespace and key keeps the contents stored
      and changes no other values. */
  lemma WithValuesView(c: Contents, n: Bytes, k: Bytes, vs: set<Bytes>)
    requires Stored(c)
    ensures Stored(WithValues(c, n, k, vs))
    ensures forall n', k' :: GetOf(WithValues(c, n, k, vs), n', k') == if n' == n && k' == k then vs else GetOf(c, n', k')
  {
    WithValuesStored(c, n, k, vs);
    var r := WithValues(c, n, k, vs);
    forall n', k' ensures GetOf(r, n', k') == if n' == n && k' == k then vs else GetOf(c, n', k') {
      if n' == n {
        WithValuesAt(c, n, k, vs, k');
      }
    }
  }

  lemma WithValuesStored(c: Contents, n: Bytes, k: Bytes, vs: set<Bytes>)
    requires Stored(c)
    ensures Stored(WithValues(c, n, k, vs))
  {
    var m := if n in c then c[n] else map[];
    var r := WithValues(c, n, k, vs);
    if vs != {} {
      assert k in r[n];
    } else if !(m.Keys <= {k}) {
      var j :| j in m.Keys && j !in {k};
      assert j in r[n];
    }
  }

  lemma WithValuesAt(c: Contents, n: Bytes, k: Bytes, vs: set<Bytes>, k': Bytes)
    ensures GetOf(WithValues(c, n, k, vs), n, k') == if k' == k then vs else GetOf(c, n, k')
  {
    var m := if n in c then c[n] else map[];
    if k' != k && vs == {} && m.Keys <= {k} {
      assert k' !in m;
    }
  }

  lemma RemoveKeyEmpty(m: Multimap, k: Bytes)
    ensures (m - {k} == map[]) <==> m.Keys <= {k}
  {
    if !(m.Keys <= {k}) {
      var j :| j in m.Keys && j !in {k};
      assert j in (m - {k}).Keys;
    }
  }

  /** The union of two namespaces, key by key. */
  function UnionOf(a: Multimap, b: Multimap): (r: Multimap)
    ensures forall k :: (k in r <==> k in a || k in b)
    ensures forall k :: k in r ==> r[k] == (if k in a then a[k] else {}) + (if k in b then b[k] else {})
  {
    map k | k in a.Keys + b.Keys :: (if k in a then a[k] else {}) + (if k in b then b[k] else {})
  }

  /** `moveEntries` as written: the namespace of `to` is looked up first,
      then `from` is removed from the baggage, and its values are put into
      what was looked up, which is no longer in the baggage when `from` is
      `to`. */
  function MovedAsWritten(c: Contents, from: Bytes, to: Bytes): Contents
  {
    if from !in c then c
    else if to !in c then (c - {from})[to := c[from]]
    else if from == to then c - {from}
    else (c - {from})[to := UnionOf(c[to], c[from])]
  }

  /** Moving a namespace onto itself as written loses that namespace. */
  lemma MoveOntoItselfLoses(c: Contents, n: Bytes)
    requires Stored(c) && n in c
    ensures n !in MovedAsWritten(c, n, n)
    ensures exists k :: GetOf(c, n, k) != {} && GetOf(MovedAsWritten(c, n, n), n, k) == {}
  {
    var k :| k in c[n];
    assert GetOf(c, n, k) != {};
  }

  /** Between two different namespaces the code as written moves the
      values as intended. */
  lemma MoveAsWrittenElsewhere(c: Contents, from: Bytes, to: Bytes)
    requires Stored(c) && from != to
    ensures Stored(MovedAsWritten(c, from, to))
    ensures forall n, k :: GetOf(MovedAsWritten(c, from, to), n, k) ==
                 if n == from then {}
                 else if n == to then GetOf(c, to, k) + GetOf(c, from, k)
                 else GetOf(c, n, k)
  {
    if from in c {
      MovedStored(c, from, to);
      var r := MovedAsWritten(c, from, to);
      forall n, k ensures GetOf(r, n, k) ==
                 if n == from then {}
                 else if n == to then GetOf(c, to, k) + GetOf(c, from, k)
                 else GetOf(c, n, k)
      {
        if n == to {
          MovedTo(c, from, to, k);
        }
      }
    }
  }

  lemma MovedStored(c: Contents, from: Bytes, to: Bytes)
    requires Stored(c) && from != to && from in c
    ensures Stored(MovedAsWritten(c, from, to))
  {
    if to in c {
      UnionStored(c[to], c[from]);
    }
  }

  /** The union of two stored namespaces is a stored namespace. */
  lemma UnionStored(a: Multimap, b: Multimap)
    requires a != map[] || b != map[]
    requires forall k :: k in a ==> a[k] != {}
    requires forall k :: k in b ==> b[k] != {}
    ensures UnionOf(a, b) != map[] && forall k :: k in UnionOf(a, b) ==> UnionOf(a, b)[k] != {}
  {
    var k :| k in a || k in b;
    assert k in UnionOf(a, b);
  }

  lemma MovedTo(c: Contents, from: Bytes, to: Bytes, k: Bytes)
    requires Stored(c) && from != to && from in c
    ensures GetOf(MovedAsWritten(c, from, to), to, k) == GetOf(c, to, k) + GetOf(c, from, k)
  {
  }

  /** The contents with the namespace `data` merged into namespace `n`:
      put in as is when absent, united key by key otherwise. */
  function MergedInto(c: Contents, n: Bytes, data: Multimap): Contents
  {
    if n !in c then c[n := data] else c[n := UnionOf(c[n], data)]
  }

  /** Merging one namespace keeps the contents stored and adds its values
      under that namespace only. */
  lemma MergedIntoView(c: Contents, n: Bytes, data: Multimap)
    requires Stored(c) && data != map[] && forall k :: k in data ==> data[k] != {}
    ensures Stored(MergedInto(c, n, data))
    ensures forall n', k :: GetOf(MergedInto(c, n, data), n', k) == GetOf(c, n', k) + (if n' == n && k in data then data[k] else {})
  {
    var r := MergedInto(c, n, data);
    if n in c {
      UnionStored(c[n], data);
    }
    forall n', k' ensures GetOf(r, n', k') == GetOf(c, n', k') + (if n' == n && k' in data then data[k'] else {}) {
    }
  }

  /** `c` holds, besides the values of `c0`, those of `theirs` outside the
      namespaces still to do. */
  ghost predicate MergedExcept(c: Contents, c0: Contents, theirs: Contents, todo: set<Bytes>)
  {
    forall n, k :: GetOf(c, n, k) == GetOf(c0, n, k) + (if n in todo then {} else GetOf(theirs, n, k))
  }

  /** Merging one more of their namespaces. */
  lemma MergeStep(c: Contents, c0: Contents, theirs: Contents, todo: set<Bytes>, n: Bytes)
    requires MergedExcept(c, c0, theirs, todo) && n in todo && n in theirs
    ensures MergedExcept(MergedInto(c, n, theirs[n]), c0, theirs, todo - {n})
  {
    var r := MergedInto(c, n, theirs[n]);
    forall n', k ensures GetOf(r, n', k) == GetOf(c0, n', k) + (if n' in todo - {n} then {} else GetOf(theirs, n', k)) {
      assert GetOf(c, n', k) == GetOf(c0, n', k) + (if n' in todo then {} else GetOf(theirs, n', k));
      assert GetOf(r, n', k) == GetOf(c, n', k) + (if n' == n && k in theirs[n] then theirs[n][k] else {});
    }
  }

  /** The namespace `replace` builds: the old keys without `k`, then `k`
      with `vs` when there are any; stored in place of `n`, or `n` removed
      when it is left empty. */
  lemma ReplacedNamespace(c: Contents, n: Bytes, k: Bytes, vs: set<Bytes>)
    ensures var d := if n in c then c[n] - {k} else map[];
      var d' := if vs != {} then d[k := vs] else d;
      WithValues(c, n, k, vs) == if d' == map[] then c - {n} else c[n := d']
  {
    var m := if n in c then c[n] else map[];
    var d := if n in c then c[n] - {k} else map[];
    RemoveKeyEmpty(m, k);
    if vs != {} {
      assert d[k := vs] == m[k := vs];
      assert k in d[k := vs];
    }
  }

  class BaggageImpl {
    var contents: Contents

    ghost predicate Valid()
      reads this
    {
      Stored(contents)
    }

    constructor ()
      ensures Valid() && contents == map[]
    {
      contents := map[];
    }

    /** `contains`: some value under the namespace and key. */
    function Contains(ns: Option<Bytes>, key: Option<Bytes>): (r: bool)
      requires Valid()
      reads this
      ensures r <==> ns.Some? && key.Some? && GetOf(contents, ns.value, key.value) != {}
    {
      ns.Some? && key.Some? && ns.value in contents && key.value in contents[ns.value]
    }

    /** `hasNamespace`: some value under the namespace. */
    function HasNamespace(ns: Option<Bytes>): (r: bool)
      requires Valid()
      reads this
      ensures r <==> ns.Some? && exists k :: GetOf(contents, ns.value, k) != {}
    {
      if ns.None? then false
      else
        NamespaceHolds(contents, ns.value);
        ns.value in contents
    }

    /** `get`: the values under the namespace and key; none when either is
        null. */
    function Get(ns: Option<Bytes>, key: Option<Bytes>): (r: set<Bytes>)
      reads this
      ensures ns.None? || key.None? ==> r == {}
      ensures ns.Some? && key.Some? ==> r == GetOf(contents, ns.value, key.value)
    {
      if ns.None? && key.None? then {}
      else if ns.None? || key.None? then {}
      else if ns.value in contents && key.value in contents[ns.value] then contents[ns.value][key.value]
      else {}
    }

    /** `keys`: the keys of a namespace that have values. */
    function Keys(ns: Option<Bytes>): (r: set<Bytes>)
      requires Valid()
      reads this
      ensures forall k :: k in r <==> ns.Some? && GetOf(contents, ns.value, k) != {}
    {
      if ns.Some? && ns.value in contents then contents[ns.value].Keys else {}
    }

    /** `isEmpty`: no value anywhere. */
    function IsEmpty(): (r: bool)
      requires Valid()
      reads this
      ensures r <==> forall n, k :: GetOf(contents, n, k) == {}
    {
      if contents == map[] then true
      else
        var n :| n in contents;
        NamespaceHolds(contents, n);
        false
    }

    /** `remove`: the key has no value any more; nothing else changes. */
    method Remove(ns: Option<Bytes>, key: Option<Bytes>)
      requires Valid()
      modifies this
      ensures Valid()
      ensures ns.None? || key.None? ==> contents == old(contents)
      ensures ns.Some? && key.Some? ==> contents == WithValues(old(contents), ns.value, key.value, {})
    {
      if ns.Some? && key.Some? {
        WithValuesView(contents, ns.value, key.value, {});
        if ns.value in contents {
          RemoveKeyEmpty(contents[ns.value], key.value);
          var namespaceData := contents[ns.value] - {key.value};
          if namespaceData == map[] {
            contents := contents - {ns.value};
          } else {
            contents := contents[ns.value := namespaceData];
          }
        }
      }
    }

    /** `removeAll`: the namespace has no value any more. */
    method RemoveAll(ns: Option<Bytes>)
      requires Valid()
      modifies this
      ensures Valid()
      ensures forall n, k :: GetOf(contents, n, k) == if ns == Some(n) then {} else GetOf(old(contents), n, k)
    {
      if ns.Some? {
        contents := contents - {ns.value};
      }
      forall n, k
        ensures GetOf(contents, n, k) == if ns == Some(n) then {} else GetOf(old(contents), n, k)
      {
      }
    }

    /** `replace` with one value: a null value removes the key; otherwise
        the key holds exactly that value. */
    method Replace(ns: Option<Bytes>, key: Option<Bytes>, value: Option<Bytes>)
      requires Valid()
      modifies this
      ensures Valid()
      ensures ns.None? || key.None? ==> contents == old(contents)
      ensures ns.Some? && key.Some? ==>
        contents == WithValues(old(contents), ns.value, key.value, if value.Some? then {value.value} else {})
    {
      if ns.Some? && key.Some? {
        if value.None? {
          Remove(ns, key);
        } else {
          WithValuesView(contents, ns.value, key.value, {value.value});
          var namespaceData := if ns.value in contents then contents[ns.value] - {key.value} else map[];
          assert namespaceData[key.value := {value.value}] == (if ns.value in contents then contents[ns.value] else map[])[key.value := {value.value}];
          contents := contents[ns.value := namespaceData[key.value := {value.value}]];
        }
      }
    }

    /** `replace` with several values: the key holds exactly the non-null
        ones, and a namespace left with no value is removed. */
    method ReplaceAll(ns: Option<Bytes>, key: Option<Bytes>, values: Option<seq<Option<Bytes>>>)
      requires Valid()
      modifies this
      ensures Valid()
      ensures ns.None? || key.None? ==> contents == old(contents)
      ensures ns.Some? && key.Some? ==>
        contents == WithValues(old(contents), ns.value, key.value,
                               if values.Some? then NonNull(values.value) else {})
    {
      if ns.Some? && key.Some? {
        if values.None? {
          Remove(ns, key);
        } else {
          var namespaceData := if ns.value in contents then contents[ns.value] - {key.value} else map[];
          var added := NonNullValues(values.value);
          WithValuesView(contents, ns.value, key.value, added);
          ReplacedNamespace(contents, ns.value, key.value, added);
          if added != {} {
            namespaceData := namespaceData[key.value := added];
          }
          if namespaceData == map[] {
            contents := contents - {ns.value};
          } else {
            contents := contents[ns.value := namespaceData];
          }
        }
      }
    }

    /** `add`: the value joins the key's values; a null anything is
        ignored. */
    method Add(ns: Option<Bytes>, key: Option<Bytes>, value: Option<Bytes>)
      requires Valid()
      modifies this
      ensures Valid()
      ensures ns.None? || key.None? || value.None? ==> contents == old(contents)
      ensures ns.Some? && key.Some? && value.Some? ==>
        contents == WithValues(old(contents), ns.value, key.value, GetOf(old(contents), ns.value, key.value) + {value.value})
    {
      if ns.Some? && key.Some? && value.Some? {
        var namespaceData := if ns.value in contents then contents[ns.value] else map[];
        var values := if key.value in namespaceData then namespaceData[key.value] else {};
        contents := contents[ns.value := namespaceData[key.value := values + {value.value}]];
        assert contents == WithValues(old(contents), ns.value, key.value, GetOf(old(contents), ns.value, key.value) + {value.value});
      }
    }

    /** `moveEntries`: the values of `from` join those of `to` and `from` is
        then empty; moving a namespace onto itself leaves it in place. */
    method MoveEntries(from: Option<Bytes>, to: Option<Bytes>)
      requires Valid()
      modifies this
      ensures Valid()
      ensures from.None? || to.None? || from == to ==> contents == old(contents)
      ensures from.Some? && to.Some? && from != to ==>
        forall n, k :: GetOf(contents, n, k) ==
          if n == from.value then {}
          else if n == to.value then GetOf(old(contents), to.value, k) + GetOf(old(contents), from.value, k)
          else GetOf(old(contents), n, k)
    {
      if from.None? || to.None? || from.value !in contents || from == to {
        if from.Some? && to.Some? && from != to {
          MoveAsWrittenElsewhere(contents, from.value, to.value);
        }
        return;
      }
      MoveAsWrittenElsewhere(contents, from.value, to.value);
      var moved := contents[from.value];
      if to.value !in contents {
        contents := (contents - {from.value})[to.value := moved];
      } else {
        var target := contents[to.value];
        contents := (contents - {from.value})[to.value := UnionOf(target, moved)];
      }
    }

    /** `merge`: every namespace and key holds the values of both sides. */
    method Merge(other: BaggageImpl?)
      requires Valid() && (other != null ==> other.Valid())
      modifies this
      ensures Valid()
      ensures other == null ==> contents == old(contents)
      ensures other != null ==>
        forall n, k :: GetOf(contents, n, k) == GetOf(old(contents), n, k) + GetOf(old(other.contents), n, k)
    {
      if other == null {
        return;
      }
      var theirs := other.contents;
      var todo := theirs.Keys;
      while todo != {}
        invariant Valid() && todo <= theirs.Keys
        invariant MergedExcept(contents, old(contents), theirs, todo)
        decreases todo
      {
        var n :| n in todo;
        MergeStep(contents, old(contents), theirs, todo, n);
        MergeNamespace(n, theirs[n]);
        todo := todo - {n};
      }
    }

    /** One namespace of a merge: put in as is when absent, united key by
        key otherwise. */
    method MergeNamespace(n: Bytes, data: Multimap)
      requires Valid() && data != map[] && forall k :: k in data ==> data[k] != {}
      modifies this
      ensures Valid()
      ensures contents == MergedInto(old(contents), n, data)
    {
      MergedIntoView(contents, n, data);
      if n !in contents {
        contents := contents[n := data];
      } else {
        contents := contents[n := UnionOf(contents[n], data)];
      }
    }

    /** `split`: a new baggage with a copy of the contents. */
    method Split() returns (r: BaggageImpl)
      requires Valid()
      ensures fresh(r) && r.Valid() && r.contents == contents
    {
      r := new BaggageImpl();
      r.contents := contents;
    }
  }

  /** The non-null values of a sequence. */
  function NonNull(vs: seq<Option<Bytes>>): (r: set<Bytes>)
    ensures forall v :: v in r <==> Some(v) in vs
    decreases |vs|
  {
    if vs == [] then {}
    else NonNull(vs[..|vs| - 1]) + (if vs[|vs| - 1].Some? then {vs[|vs| - 1].value} else {})
  }

  /** The loop of `replace` collecting the non-null values. */
  method NonNullValues(values: seq<Option<Bytes>>) returns (added: set<Bytes>)
    ensures added == NonNull(values)
  {
    added := {};
    for i := 0 to |values|
      invariant added == NonNull(values[..i])
    {
      assert values[..i + 1][..i] == values[..i];
      if values[i].Some? {
        added := added + {values[i].value};
      }
    }
    assert values[..|values|] == values;
  }
}
