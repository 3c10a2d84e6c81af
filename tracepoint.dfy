/** A hard-coded tracepoint: it declares the names of the variables it
    exports, advice is woven into it (each advice observing some of those
    variables) and unwoven again by id, and invoking it hands every woven
    advice its observed values. */
module Tracepoint {
  import opened Common

  /** One woven advice: its id, the advice, and for each variable it
      observes the position of that variable among the exports. */
  datatype Woven<Adv> = Woven(id: int, advice: Adv, observed: seq<nat>)

  datatype WeaveError =
    | NotExported(name: string)
    | DuplicateId(id: int)

  /** The ids of the woven advice, in order. */
  function Ids<Adv>(ws: seq<Woven<Adv>>): (r: seq<int>)
    ensures |r| == |ws| && forall i :: 0 <= i < |ws| ==> r[i] == ws[i].id
  {
    seq(|ws|, i requires 0 <= i < |ws| => ws[i].id)
  }

  /** The woven advice without the first one with the id. */
  function Unwoven<Adv>(ws: seq<Woven<Adv>>, id: int): (r: seq<Woven<Adv>>)
    decreases |ws|
  {
    if ws == [] then []
    else if ws[0].id == id then ws[1..]
    else [ws[0]] + Unwoven(ws[1..], id)
  }

  /** With distinct ids, unweaving drops exactly the advice with that id
      and keeps the others in order. */
  lemma {:induction false} UnwovenDropsOnlyId<Adv>(ws: seq<Woven<Adv>>, id: int)
    requires forall i, j :: 0 <= i < j < |ws| ==> ws[i].id != ws[j].id
    ensures id !in Ids(Unwoven(ws, id))
    ensures id in Ids(ws) ==> |Unwoven(ws, id)| == |ws| - 1
    ensures id !in Ids(ws) ==> Unwoven(ws, id) == ws
    ensures forall w :: w in ws && w.id != id ==> w in Unwoven(ws, id)
    ensures forall w :: w in Unwoven(ws, id) ==> w in ws && w.id != id
    decreases |ws|
  {
    UnwovenKeeps(ws, id);
    UnwovenWithin(ws, id);
    UnwovenNoId(ws, id);
    UnwovenLength(ws, id);
    var u := Unwoven(ws, id);
    forall i | 0 <= i < |u| ensures Ids(u)[i] != id {
      assert u[i] in u;
    }
    if id !in Ids(ws) {
      UnwovenAbsent(ws, id);
    }
  }

  /** Advice with another id survives unweaving. */
  lemma {:induction false} UnwovenKeeps<Adv>(ws: seq<Woven<Adv>>, id: int)
    ensures forall w :: w in ws && w.id != id ==> w in Unwoven(ws, id)
    decreases |ws|
  {
    if ws != [] {
      UnwovenKeeps(ws[1..], id);
      forall w | w in ws && w.id != id ensures w in Unwoven(ws, id) {
        if w != ws[0] {
          assert w in ws[1..];
        }
      }
    }
  }

  /** Unweaving adds nothing. */
  lemma {:induction false} UnwovenWithin<Adv>(ws: seq<Woven<Adv>>, id: int)
    ensures forall w :: w in Unwoven(ws, id) ==> w in ws
    decreases |ws|
  {
    if ws != [] {
      UnwovenWithin(ws[1..], id);
    }
  }

  /** With distinct ids, nothing left after unweaving has the id. */
  lemma {:induction false} UnwovenNoId<Adv>(ws: seq<Woven<Adv>>, id: int)
    requires forall i, j :: 0 <= i < j < |ws| ==> ws[i].id != ws[j].id
    ensures forall w :: w in Unwoven(ws, id) ==> w.id != id
    decreases |ws|
  {
    if ws != [] {
      var tail := ws[1..];
      forall i, j | 0 <= i < j < |tail| ensures tail[i].id != tail[j].id {
        assert tail[i] == ws[i + 1] && tail[j] == ws[j + 1];
      }
      UnwovenNoId(tail, id);
      if ws[0].id == id {
        forall w | w in tail ensures w.id != id {
          var i :| 0 <= i < |tail| && tail[i] == w;
          assert ws[i + 1] == w;
        }
      }
    }
  }

  /** Unweaving an id that is woven removes exactly one advice. */
  lemma {:induction false} UnwovenLength<Adv>(ws: seq<Woven<Adv>>, id: int)
    ensures id in Ids(ws) ==> |Unwoven(ws, id)| == |ws| - 1
    decreases |ws|
  {
    if ws != [] && ws[0].id != id {
      UnwovenLength(ws[1..], id);
      if id in Ids(ws) {
        var i :| 0 <= i < |ws| && Ids(ws)[i] == id;
        assert i > 0 && Ids(ws[1..])[i - 1] == id;
      }
    }
  }

  /** The first advice with the id is the one at `i`: unweaving cuts it
      out. */
  lemma {:induction false} UnwovenAt<Adv>(ws: seq<Woven<Adv>>, id: int, i: nat, c: seq<Woven<Adv>>)
    requires i < |ws| && ws[i].id == id && forall m :: 0 <= m < i ==> ws[m].id != id
    requires |c| == |ws| - 1
    requires forall k :: 0 <= k < i ==> c[k] == ws[k]
    requires forall k :: i <= k < |c| ==> c[k] == ws[k + 1]
    ensures Unwoven(ws, id) == c && id in Ids(ws)
    decreases i
  {
    assert Ids(ws)[i] == id;
    if i == 0 {
      assert c == ws[1..];
    } else {
      forall k | 0 <= k < i - 1
        ensures c[1..][k] == ws[1..][k]
      {
        assert c[1..][k] == c[k + 1];
      }
      forall k | i - 1 <= k < |c| - 1
        ensures c[1..][k] == ws[1..][k + 1]
      {
        assert c[1..][k] == c[k + 1];
      }
      UnwovenAt(ws[1..], id, i - 1, c[1..]);
      assert c == [ws[0]] + c[1..];
    }
  }

  /** No advice has the id: unweaving changes nothing. */
  lemma {:induction false} UnwovenAbsent<Adv>(ws: seq<Woven<Adv>>, id: int)
    requires forall m :: 0 <= m < |ws| ==> ws[m].id != id
    ensures Unwoven(ws, id) == ws && id !in Ids(ws)
    decreases |ws|
  {
    if ws != [] {
      UnwovenAbsent(ws[1..], id);
    }
  }

  /** Unweaving the advice just woven, under an id not yet in use, restores
      the tracepoint. */
  lemma {:induction false} UnweaveUndoesWeave<Adv>(ws: seq<Woven<Adv>>, w: Woven<Adv>)
    requires w.id !in Ids(ws)
    ensures Unwoven(ws + [w], w.id) == ws
    decreases |ws|
  {
    if ws == [] {
      assert ws + [w] == [w];
    } else {
      assert (ws + [w])[0] == ws[0] && (ws + [w])[1..] == ws[1..] + [w];
      assert Ids(ws)[0] == ws[0].id;
      assert Ids(ws)[1..] == Ids(ws[1..]);
      UnweaveUndoesWeave(ws[1..], w);
    }
  }

  /** The values an advice observes: the exports at its positions. */
  function Projected(exports: seq<Value>, observed: seq<nat>): (r: seq<Value>)
    requires forall i :: 0 <= i < |observed| ==> observed[i] < |exports|
    ensures |r| == |observed| && forall i :: 0 <= i < |r| ==> r[i] == exports[observed[i]]
  {
    seq(|observed|, i requires 0 <= i < |observed| => exports[observed[i]])
  }

  /** Every position of every woven advice is below `n`. */
  predicate Within<Adv>(ws: seq<Woven<Adv>>, n: nat)
  {
    forall j, i :: 0 <= j < |ws| && 0 <= i < |ws[j].observed| ==> ws[j].observed[i] < n
  }

  /** The calls an invocation makes: each woven advice in order, with its
      observed values. */
  function Calls<Adv>(ws: seq<Woven<Adv>>, exports: seq<Value>): (r: seq<(Adv, seq<Value>)>)
    requires Within(ws, |exports|)
    ensures |r| == |ws|
    decreases |ws|
  {
    if ws == [] then []
    else Calls(ws[..|ws| - 1], exports) + [(ws[|ws| - 1].advice, Projected(exports, ws[|ws| - 1].observed))]
  }

  /** Call `i` goes to the `i`-th woven advice, with the exports it
      observes. */
  lemma {:induction false} CallsAdvise<Adv>(ws: seq<Woven<Adv>>, exports: seq<Value>, i: nat)
    requires Within(ws, |exports|) && i < |ws|
    ensures Calls(ws, exports)[i] == (ws[i].advice, Projected(exports, ws[i].observed))
    decreases |ws|
  {
    if i < |ws| - 1 {
      CallsAdvise(ws[..|ws| - 1], exports, i);
    }
  }

  /** Every woven advice has an id issued before `seed`, in the order
      issued. */
  ghost predicate Issued<Adv>(ws: seq<Woven<Adv>>, seed: int)
  {
    && (forall i :: 0 <= i < |ws| ==> ws[i].id < seed)
    && (forall i, j :: 0 <= i < j < |ws| ==> ws[i].id < ws[j].id)
  }

  /** An id not yet issued is not woven. */
  lemma IssuedFresh<Adv>(ws: seq<Woven<Adv>>, seed: int)
    requires Issued(ws, seed)
    ensures seed !in Ids(ws)
  {
  }

  /** Appending advice under the next id keeps the ids issued and
      ascending, and its positions within the exports keeps them all
      within. */
  lemma AppendIssued<Adv>(ws: seq<Woven<Adv>>, a: Woven<Adv>, seed: int, n: nat)
    requires a.id == seed && forall i :: 0 <= i < |a.observed| ==> a.observed[i] < n
    ensures Issued(ws, seed) ==> Issued(ws + [a], seed + 1)
    ensures Within(ws, n) ==> Within(ws + [a], n)
  {
    var c := ws + [a];
    assert forall i :: 0 <= i < |ws| ==> c[i] == ws[i];
  }

  /** The loop of `weave` that looks each observed name up among the
      exports. */
  method ResolveNames(exported: seq<string>, toObserve: seq<string>) returns (r: Result<seq<nat>, string>)
    ensures r == Resolve(exported, toObserve)
  {
    var indices: seq<nat> := [];
    for i := 0 to |toObserve|
      invariant Resolve(exported, toObserve[..i]) == Ok(indices)
    {
      assert toObserve[..i + 1][..i] == toObserve[..i];
      var k := FirstIndex(exported, toObserve[i]);
      if k == -1 {
        ResolvePrefixFails(exported, toObserve, i + 1);
        return Err(toObserve[i]);
      }
      indices := indices + [k];
    }
    assert toObserve[..|toObserve|] == toObserve;
    r := Ok(indices);
  }

  /** The loop of `weave` that looks for an advice already woven under the
      id. */
  method HasId<Adv>(woven: array<Woven<Adv>>, id: int) returns (b: bool)
    ensures b <==> id in Ids(woven[..])
  {
    for j := 0 to woven.Length
      invariant forall m :: 0 <= m < j ==> woven[m].id != id
    {
      if woven[j].id == id {
        assert Ids(woven[..])[j] == id;
        return true;
      }
    }
    b := false;
  }

  /** A copy of `woven` with `a` added at the end. */
  method Appended<Adv>(woven: array<Woven<Adv>>, a: Woven<Adv>) returns (r: array<Woven<Adv>>)
    ensures fresh(r) && r[..] == woven[..] + [a]
  {
    r := new Woven<Adv>[woven.Length + 1](i => a);
    forall i | 0 <= i < woven.Length {
      r[i] := woven[i];
    }
  }

  /** A copy of `woven` without the advice at `i`. */
  method CutOut<Adv>(woven: array<Woven<Adv>>, i: nat) returns (r: array<Woven<Adv>>)
    requires i < woven.Length
    ensures fresh(r) && r.Length == woven.Length - 1
    ensures forall k :: 0 <= k < i ==> r[k] == woven[k]
    ensures forall k :: i <= k < r.Length ==> r[k] == woven[k + 1]
  {
    var w := woven[i];
    r := new Woven<Adv>[woven.Length - 1](k => w);
    forall k | 0 <= k < i {
      r[k] := woven[k];
    }
    forall k | i <= k < r.Length {
      r[k] := woven[k + 1];
    }
  }

  /** The inner loop of `Advise`: the values at the advice's positions. */
  method Observe(exports: seq<Value>, positions: seq<nat>) returns (observed: seq<Value>)
    requires forall i :: 0 <= i < |positions| ==> positions[i] < |exports|
    ensures observed == Projected(exports, positions)
  {
    var values := new Value[|positions|];
    for i := 0 to values.Length
      invariant forall m :: 0 <= m < i ==> values[m] == exports[positions[m]]
    {
      values[i] := exports[positions[i]];
    }
    observed := values[..];
  }

  class HardcodedTracepoint<Adv> {
    const id: string
    const exported: seq<string>
    var woven: array<Woven<Adv>>
    var seed: int

    /** Every woven advice observes exported variables only. */
    ghost predicate Valid()
      reads this, woven
    {
      Within(woven[..], |exported|)
    }

    /** Every woven advice has an id issued before `seed`, in the order
        issued. */
    ghost predicate IdsIssued()
      reads this, woven
    {
      Issued(woven[..], seed)
    }

    constructor (id: string, exported: seq<string>)
      ensures Valid() && IdsIssued() && woven[..] == [] && seed == 0
      ensures this.id == id && this.exported == exported
    {
      this.id := id;
      this.exported := exported;
      woven := new Woven<Adv>[0];
      seed := 0;
    }

    /** `weave`: resolve the observed names, fail on a name that is not
        exported (using up no id), else take the next id and append the
        advice, failing if that id is already woven. */
    method Weave(advice: Adv, toObserve: seq<string>) returns (r: Result<int, WeaveError>)
      requires Valid()
      modifies this
      ensures Valid()
      ensures Resolve(exported, toObserve).Err? ==>
                r == Err(NotExported(Resolve(exported, toObserve).error)) && woven == old(woven) && seed == old(seed)
      ensures Resolve(exported, toObserve).Ok? ==> seed == old(seed) + 1
      ensures Resolve(exported, toObserve).Ok? && old(seed) in Ids(old(woven[..])) ==>
                r == Err(DuplicateId(old(seed))) && woven == old(woven)
      ensures Resolve(exported, toObserve).Ok? && old(seed) !in Ids(old(woven[..])) ==>
                r == Ok(old(seed)) && woven[..] == old(woven[..]) + [Woven(old(seed), advice, Resolve(exported, toObserve).value)]
      ensures old(IdsIssued()) ==> IdsIssued()
      ensures old(IdsIssued()) ==> (r.Err? ==> r.error.NotExported?)
    {
      var indices := ResolveNames(exported, toObserve);
      if indices.Err? {
        return Err(NotExported(indices.error));
      }
      ResolvedWithin(exported, toObserve);
      var a := Woven(seed, advice, indices.value);
      if IdsIssued() {
        IssuedFresh(woven[..], seed);
      }
      AppendIssued(woven[..], a, seed, |exported|);
      seed := seed + 1;
      var duplicate := HasId(woven, a.id);
      if duplicate {
        return Err(DuplicateId(a.id));
      }
      woven := Appended(woven, a);
      r := Ok(a.id);
    }

    /** `unweave`: drop the advice with the id, the others keeping their
        order; false (the source throws) when no advice has the id. */
    method Unweave(id: int) returns (found: bool)
      requires Valid()
      modifies this
      ensures Valid() && seed == old(seed)
      ensures found <==> id in Ids(old(woven[..]))
      ensures woven[..] == Unwoven(old(woven[..]), id)
      ensures old(IdsIssued()) ==> IdsIssued()
    {
      ghost var ws := woven[..];
      for i := 0 to woven.Length
        invariant forall m :: 0 <= m < i ==> ws[m].id != id
      {
        if woven[i].id == id {
          var newWoven := CutOut(woven, i);
          UnwovenAt(ws, id, i, newWoven[..]);
          UnwovenIssued(ws, i, newWoven[..], seed, |exported|);
          woven := newWoven;
          return true;
        }
      }
      UnwovenAbsent(ws, id);
      found := false;
    }

    /** `hasWovenAdvice`: whether any advice is woven here. */
    method HasWovenAdvice() returns (r: bool)
      ensures r <==> Ids(woven[..]) != []
    {
      r := woven.Length != 0;
    }

    /** `Advise`: with as many values as declared exports, call every woven
        advice in order with the values it observes; otherwise call none. */
    method Advise(exports: seq<Value>) returns (calls: seq<(Adv, seq<Value>)>)
      requires Valid()
      ensures |exports| != |exported| ==> calls == []
      ensures |exports| == |exported| ==> calls == Calls(woven[..], exports)
    {
      if |exports| != |exported| {
        return [];
      }
      var ws := woven;
      calls := [];
      for j := 0 to ws.Length
        invariant calls == Calls(ws[..j], exports)
      {
        assert ws[..j + 1][..j] == ws[..j];
        var w := ws[j];
        var observed := Observe(exports, w.observed);
        calls := calls + [(w.advice, observed)];
      }
      assert ws[..ws.Length] == ws[..];
    }
  }

  /** Cutting one advice out keeps the issued ids below the seed and
      ascending. */
  lemma UnwovenIssued<Adv>(ws: seq<Woven<Adv>>, i: nat, c: seq<Woven<Adv>>, seed: int, n: nat)
    requires i < |ws| && |c| == |ws| - 1
    requires forall k :: 0 <= k < i ==> c[k] == ws[k]
    requires forall k :: i <= k < |c| ==> c[k] == ws[k + 1]
    ensures Within(ws, n) ==> Within(c, n)
    ensures Issued(ws, seed) ==> Issued(c, seed)
  {
    if Within(ws, n) {
      forall k, j | 0 <= k < |c| && 0 <= j < |c[k].observed|
        ensures c[k].observed[j] < n
      {
        if k < i {
          assert c[k] == ws[k];
        } else {
          assert c[k] == ws[k + 1];
        }
      }
    }
  }
}
