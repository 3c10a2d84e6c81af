/** Bookkeeping of dynamic instrumentation: which modifications are installed
    on which classes, and the pending change set (modifications to add, to
    remove, classes to refresh) that the next install applies. The change
    set's three sets are fields of the manager here; the instrumentation agent
    and its error list are left to the caller. */
module DynamicManager {

  /** A dynamic modification, identified by `id`, and the classes it
      rewrites. */
  datatype Modification = Modification(id: nat, affects: set<string>)

  datatype Pending = Pending(toRefresh: set<string>, toAdd: set<Modification>, toRemove: set<Modification>)

  type Multimap = map<string, set<Modification>>

  /** `Multimap.get`: the empty collection for an absent key. */
  function Get(mm: Multimap, c: string): set<Modification>
  {
    if c in mm then mm[c] else {}
  }

  /** A hash multimap never keeps a key without values. */
  predicate NoEmpty(mm: Multimap)
  {
    forall c :: c in mm ==> mm[c] != {}
  }

  /** The modifications of `ms` that rewrite class `c`. */
  function Touching(ms: set<Modification>, c: string): set<Modification>
  {
    set m | m in ms && c in m.affects
  }

  /** Every class some modification of `ms` rewrites. */
  function Classes(ms: set<Modification>): set<string>
  {
    set m, c | m in ms && c in m.affects :: c
  }

  /** `ChangeSet.add`: adding cancels a pending removal, otherwise queues. */
  function PendingAdd(p: Pending, m: Modification): (r: Pending)
    ensures r.toRefresh == p.toRefresh
    ensures m in p.toRemove ==> r.toRemove == p.toRemove - {m} && r.toAdd == p.toAdd
    ensures m !in p.toRemove ==> r.toRemove == p.toRemove && r.toAdd == p.toAdd + {m}
  {
    if m in p.toRemove then p.(toRemove := p.toRemove - {m}) else p.(toAdd := p.toAdd + {m})
  }

  /** `ChangeSet.remove`: removing cancels a pending add, otherwise queues. */
  function PendingRemove(p: Pending, m: Modification): (r: Pending)
    ensures r.toRefresh == p.toRefresh
    ensures m in p.toAdd ==> r.toAdd == p.toAdd - {m} && r.toRemove == p.toRemove
    ensures m !in p.toAdd ==> r.toAdd == p.toAdd && r.toRemove == p.toRemove + {m}
  {
    if m in p.toAdd then p.(toAdd := p.toAdd - {m}) else p.(toRemove := p.toRemove + {m})
  }

  /** Adding a modification that was not queued to add and then removing it
      leaves the change set as it was. */
  lemma AddThenRemove(p: Pending, m: Modification)
    requires m !in p.toAdd
    ensures PendingRemove(PendingAdd(p, m), m) == p
  {
    if m in p.toRemove {
      assert p.toRemove - {m} + {m} == p.toRemove;
    } else {
      assert p.toAdd + {m} - {m} == p.toAdd;
    }
  }

  /** Removing a modification that was not queued to remove and then adding
      it back leaves the change set as it was. */
  lemma RemoveThenAdd(p: Pending, m: Modification)
    requires m !in p.toRemove
    ensures PendingAdd(PendingRemove(p, m), m) == p
  {
    if m in p.toAdd {
      assert p.toAdd - {m} + {m} == p.toAdd;
    } else {
      assert p.toRemove + {m} - {m} == p.toRemove;
    }
  }

  /** `affects`: the classes to refresh and every class a pending
      modification rewrites. */
  function Affects(p: Pending): set<string>
  {
    p.toRefresh + Classes(p.toAdd) + Classes(p.toRemove)
  }

  /** What class `c` carries once the pending changes are applied: its
      installed modifications, less the pending removals, plus the pending
      additions. */
  function Applied(mm: Multimap, p: Pending, c: string): set<Modification>
  {
    (Get(mm, c) - Touching(p.toRemove, c)) + Touching(p.toAdd, c)
  }

  /** A class that no pending change concerns keeps what it has. */
  lemma UnaffectedUnchanged(mm: Multimap, p: Pending, c: string)
    requires c !in Affects(p)
    ensures Applied(mm, p, c) == Get(mm, c)
  {
    forall m | m in p.toAdd ensures m.affects <= Classes(p.toAdd) {
      ClassesCover(p.toAdd, m);
    }
    forall m | m in p.toRemove ensures m.affects <= Classes(p.toRemove) {
      ClassesCover(p.toRemove, m);
    }
  }

  /** `addAll`: the modifications are added one after another. */
  function PendingAddAll(p: Pending, ms: seq<Modification>): Pending
    decreases |ms|
  {
    if ms == [] then p else PendingAddAll(PendingAdd(p, ms[0]), ms[1..])
  }

  /** `removeAll`: the modifications are removed one after another. */
  function PendingRemoveAll(p: Pending, ms: seq<Modification>): Pending
    decreases |ms|
  {
    if ms == [] then p else PendingRemoveAll(PendingRemove(p, ms[0]), ms[1..])
  }

  /** Every modification installed on a class rewrites that class. */
  predicate Consistent(mm: Multimap)
  {
    forall c, m :: c in mm && m in mm[c] ==> c in m.affects
  }

  /** Every installed modification. */
  function AllInstalled(mm: Multimap): set<Modification>
  {
    set c, m | c in mm && m in mm[c] :: m
  }

  /** After `clear`, the next install concerns every class that had a
      modification, and hands each affected class nothing. */
  lemma ClearUninstallsAll(mm: Multimap)
    requires NoEmpty(mm) && Consistent(mm)
    ensures mm.Keys <= Affects(Pending({}, {}, AllInstalled(mm)))
    ensures forall c :: c in Affects(Pending({}, {}, AllInstalled(mm))) ==>
      Applied(map[], Pending({}, {}, AllInstalled(mm)), c) == {}
  {
    forall c | c in mm ensures c in Classes(AllInstalled(mm)) {
      var m :| m in mm[c];
      assert m in AllInstalled(mm);
      ClassesCover(AllInstalled(mm), m);
    }
  }

  lemma TouchingOneMore(ms: set<Modification>, m: Modification, c: string)
    ensures Touching(ms + {m}, c) == Touching(ms, c) + (if c in m.affects then {m} else {})
  {
  }

  /** `r` has the keys of `mm`, each with the modifications of `done`
      that rewrite it removed (or, when `added`, added). */
  ghost predicate ChangedIn(r: Multimap, mm: Multimap, done: set<Modification>, added: bool)
  {
    && r.Keys == mm.Keys
    && forall c :: c in r ==> r[c] == if added then mm[c] + Touching(done, c) else mm[c] - Touching(done, c)
  }

  lemma ChangedInStep(next: Multimap, now: Multimap, mm: Multimap, done: set<Modification>, m: Modification, added: bool)
    requires ChangedIn(now, mm, done, added) && next.Keys == now.Keys
    requires forall c :: c in next ==> next[c] == if c !in m.affects then now[c] else if added then now[c] + {m} else now[c] - {m}
    ensures ChangedIn(next, mm, done + {m}, added)
  {
    forall c | c in next
      ensures next[c] == if added then mm[c] + Touching(done + {m}, c) else mm[c] - Touching(done + {m}, c)
    {
      TouchingOneMore(done, m, c);
    }
  }

  /** `now` is `before` with the modifications of `done` removed from (or,
      when `added`, added to) every class they rewrite. */
  ghost predicate Changed(now: Multimap, before: Multimap, done: set<Modification>, added: bool)
  {
    forall c :: Get(now, c) == if added then Get(before, c) + Touching(done, c) else Get(before, c) - Touching(done, c)
  }

  /** Removing (adding) one more modification from (to) its classes. */
  lemma ChangedStep(next: Multimap, now: Multimap, before: Multimap, done: set<Modification>, m: Modification, added: bool)
    requires Changed(now, before, done, added)
    requires forall c :: Get(next, c) == if c !in m.affects then Get(now, c) else if added then Get(now, c) + {m} else Get(now, c) - {m}
    ensures Changed(next, before, done + {m}, added)
  {
    forall c ensures Get(next, c) == if added then Get(before, c) + Touching(done + {m}, c) else Get(before, c) - Touching(done + {m}, c) {
      TouchingOneMore(done, m, c);
    }
  }

  lemma ClassesOneMore(ms: set<Modification>, m: Modification)
    ensures Classes(ms + {m}) == Classes(ms) + m.affects
  {
    forall c | c in m.affects ensures c in Classes(ms + {m}) {
      assert m in ms + {m};
    }
  }

  lemma ClassesCover(ms: set<Modification>, m: Modification)
    requires m in ms
    ensures m.affects <= Classes(ms)
  {
    forall c | c in m.affects ensures c in Classes(ms) {
    }
  }

  /** Take `m` off every class it rewrites. */
  method DropOne(mm: Multimap, m: Modification) returns (r: Multimap)
    requires m.affects <= mm.Keys
    ensures r.Keys == mm.Keys
    ensures forall c :: c in r ==> r[c] == if c in m.affects then mm[c] - {m} else mm[c]
  {
    r := mm;
    var classes := m.affects;
    while classes != {}
      invariant classes <= m.affects && r.Keys == mm.Keys
      invariant forall c :: c in r ==> r[c] == if c in m.affects - classes then mm[c] - {m} else mm[c]
    {
      var c :| c in classes;
      r := r[c := r[c] - {m}];
      classes := classes - {c};
    }
  }

  /** Put `m` on every class it rewrites. */
  method AddOne(mm: Multimap, m: Modification) returns (r: Multimap)
    requires m.affects <= mm.Keys
    ensures r.Keys == mm.Keys
    ensures forall c :: c in r ==> r[c] == if c in m.affects then mm[c] + {m} else mm[c]
  {
    r := mm;
    var classes := m.affects;
    while classes != {}
      invariant classes <= m.affects && r.Keys == mm.Keys
      invariant forall c :: c in r ==> r[c] == if c in m.affects - classes then mm[c] + {m} else mm[c]
    {
      var c :| c in classes;
      r := r[c := r[c] + {m}];
      classes := classes - {c};
    }
  }

  /** The removal loop of `changes`: every modification of `ms` comes off
      the classes it rewrites. */
  method DropEach(mm: Multimap, ms: set<Modification>) returns (r: Multimap)
    requires Classes(ms) <= mm.Keys
    ensures r.Keys == mm.Keys
    ensures forall c :: c in r ==> r[c] == mm[c] - Touching(ms, c)
  {
    r := mm;
    var todo := ms;
    ghost var done: set<Modification> := {};
    while todo != {}
      invariant todo <= ms && done == ms - todo
      invariant ChangedIn(r, mm, done, false)
    {
      var m :| m in todo;
      ClassesCover(ms, m);
      ghost var now := r;
      r := DropOne(r, m);
      ChangedInStep(r, now, mm, done, m, false);
      todo := todo - {m};
      done := done + {m};
    }
  }

  /** The addition loop of `changes`: every modification of `ms` goes onto
      the classes it rewrites. */
  method AddEach(mm: Multimap, ms: set<Modification>) returns (r: Multimap)
    requires Classes(ms) <= mm.Keys
    ensures r.Keys == mm.Keys
    ensures forall c :: c in r ==> r[c] == mm[c] + Touching(ms, c)
  {
    r := mm;
    var todo := ms;
    ghost var done: set<Modification> := {};
    while todo != {}
      invariant todo <= ms && done == ms - todo
      invariant ChangedIn(r, mm, done, true)
    {
      var m :| m in todo;
      ClassesCover(ms, m);
      ghost var now := r;
      r := AddOne(r, m);
      ChangedInStep(r, now, mm, done, m, true);
      todo := todo - {m};
      done := done + {m};
    }
  }

  class DynamicManager {
    var toRefresh: set<string>
    var toAdd: set<Modification>
    var toRemove: set<Modification>
    var installed: Multimap

    ghost predicate Valid()
      reads this
    {
      NoEmpty(installed) && Consistent(installed)
    }

    function PendingChanges(): Pending
      reads this
    {
      Pending(toRefresh, toAdd, toRemove)
    }

    constructor ()
      ensures Valid()
      ensures PendingChanges() == Pending({}, {}, {}) && installed == map[]
    {
      toRefresh, toAdd, toRemove := {}, {}, {};
      installed := map[];
    }

    method Add(m: Modification)
      modifies this
      ensures PendingChanges() == PendingAdd(old(PendingChanges()), m)
      ensures installed == old(installed)
    {
      if m in toRemove {
        toRemove := toRemove - {m};
      } else {
        toAdd := toAdd + {m};
      }
    }

    method Remove(m: Modification)
      modifies this
      ensures PendingChanges() == PendingRemove(old(PendingChanges()), m)
      ensures installed == old(installed)
    {
      if m in toAdd {
        toAdd := toAdd - {m};
      } else {
        toRemove := toRemove + {m};
      }
    }

    method AddAll(ms: seq<Modification>)
      modifies this
      ensures PendingChanges() == PendingAddAll(old(PendingChanges()), ms)
      ensures installed == old(installed)
    {
      for i := 0 to |ms|
        invariant PendingAddAll(PendingChanges(), ms[i..]) == PendingAddAll(old(PendingChanges()), ms)
        invariant installed == old(installed)
      {
        assert ms[i..][1..] == ms[i + 1..];
        Add(ms[i]);
      }
    }

    method RemoveAll(ms: seq<Modification>)
      modifies this
      ensures PendingChanges() == PendingRemoveAll(old(PendingChanges()), ms)
      ensures installed == old(installed)
    {
      for i := 0 to |ms|
        invariant PendingRemoveAll(PendingChanges(), ms[i..]) == PendingRemoveAll(old(PendingChanges()), ms)
        invariant installed == old(installed)
      {
        assert ms[i..][1..] == ms[i + 1..];
        Remove(ms[i]);
      }
    }

    method Refresh(className: string)
      modifies this
      ensures PendingChanges() == old(PendingChanges()).(toRefresh := old(toRefresh) + {className})
      ensures installed == old(installed)
    {
      toRefresh := toRefresh + {className};
    }

    /** `reset`: queue the removal of everything installed on the class. */
    method Reset(className: string)
      modifies this
      ensures PendingChanges() == old(PendingChanges()).(toRemove := old(toRemove) + Get(old(installed), className))
      ensures installed == old(installed)
    {
      toRemove := toRemove + Get(installed, className);
    }

    /** `cancel` / `cancelPending`: forget the pending changes. */
    method Cancel()
      modifies this
      ensures PendingChanges() == Pending({}, {}, {})
      ensures installed == old(installed)
    {
      toRemove, toAdd, toRefresh := {}, {}, {};
    }

    /** `clear`: drop the pending changes, queue the removal of every
        installed modification, and forget what is installed. */
    method Clear()
      modifies this
      ensures Valid()
      ensures PendingChanges() == Pending({}, {}, set c, m | c in old(installed) && m in old(installed)[c] :: m)
      ensures installed == map[]
    {
      Cancel();
      toRemove := set c, m | c in installed && m in installed[c] :: m;
      installed := map[];
    }

    /** `affects`, by the source's loops over the pending sets. */
    method AffectedClasses() returns (affected: set<string>)
      ensures affected == Affects(PendingChanges())
    {
      affected := toRefresh;
      var todo := toAdd;
      while todo != {}
        invariant todo <= toAdd
        invariant affected == toRefresh + Classes(toAdd - todo)
      {
        var m :| m in todo;
        ClassesOneMore(toAdd - todo, m);
        assert toAdd - (todo - {m}) == (toAdd - todo) + {m};
        affected := affected + m.affects;
        todo := todo - {m};
      }
      todo := toRemove;
      while todo != {}
        invariant todo <= toRemove
        invariant affected == toRefresh + Classes(toAdd) + Classes(toRemove - todo)
      {
        var m :| m in todo;
        ClassesOneMore(toRemove - todo, m);
        assert toRemove - (todo - {m}) == (toRemove - todo) + {m};
        affected := affected + m.affects;
        todo := todo - {m};
      }
      assert toAdd - {} == toAdd && toRemove - {} == toRemove;
    }

    /** `changes`: for every affected class, what it will carry once the
        pending changes are applied. */
    method Changes() returns (toInstall: Multimap)
      ensures toInstall.Keys == Affects(PendingChanges())
      ensures forall c :: c in toInstall ==> toInstall[c] == Applied(installed, PendingChanges(), c)
    {
      var affected := AffectedClasses();
      toInstall := map c | c in affected :: Get(installed, c);
      toInstall := DropEach(toInstall, toRemove);
      toInstall := AddEach(toInstall, toAdd);
    }

    /** `installed.remove(c, m)`. */
    method Unput(c: string, m: Modification)
      requires Valid()
      modifies this
      ensures Valid() && PendingChanges() == old(PendingChanges())
      ensures forall d :: Get(installed, d) == if d == c then Get(old(installed), d) - {m} else Get(old(installed), d)
    {
      if c in installed {
        var rest := installed[c] - {m};
        if rest == {} {
          installed := installed - {c};
        } else {
          installed := installed[c := rest];
        }
      }
    }

    /** `installed.put(c, m)`. */
    method Put(c: string, m: Modification)
      requires Valid() && c in m.affects
      modifies this
      ensures Valid() && PendingChanges() == old(PendingChanges())
      ensures forall d :: Get(installed, d) == if d == c then Get(old(installed), d) + {m} else Get(old(installed), d)
    {
      installed := installed[c := Get(installed, c) + {m}];
    }

    /** Take `m` off every class it rewrites. */
    method UnputEach(m: Modification)
      requires Valid()
      modifies this
      ensures Valid() && PendingChanges() == old(PendingChanges())
      ensures forall c :: Get(installed, c) == if c in m.affects then Get(old(installed), c) - {m} else Get(old(installed), c)
    {
      var classes := m.affects;
      while classes != {}
        invariant Valid() && classes <= m.affects
        invariant PendingChanges() == old(PendingChanges())
        invariant forall c :: Get(installed, c) == if c in m.affects - classes then Get(old(installed), c) - {m} else Get(old(installed), c)
      {
        var c :| c in classes;
        Unput(c, m);
        classes := classes - {c};
      }
    }

    /** Put `m` on every class it rewrites. */
    method PutEach(m: Modification)
      requires Valid()
      modifies this
      ensures Valid() && PendingChanges() == old(PendingChanges())
      ensures forall c :: Get(installed, c) == if c in m.affects then Get(old(installed), c) + {m} else Get(old(installed), c)
    {
      var classes := m.affects;
      while classes != {}
        invariant Valid() && classes <= m.affects
        invariant PendingChanges() == old(PendingChanges())
        invariant forall c :: Get(installed, c) == if c in m.affects - classes then Get(old(installed), c) + {m} else Get(old(installed), c)
      {
        var c :| c in classes;
        Put(c, m);
        classes := classes - {c};
      }
    }

    /** `persist`: apply the pending changes to what is installed, then
        forget them. */
    method Persist()
      requires Valid()
      modifies this
      ensures Valid()
      ensures forall c :: Get(installed, c) == Applied(old(installed), old(PendingChanges()), c)
      ensures PendingChanges() == Pending({}, {}, {})
    {
      UnputAll(toRemove);
      PutAll(toAdd);
      toRemove, toAdd, toRefresh := {}, {}, {};
    }

    /** The first loop of `persist`: every modification of `ms` leaves
        the classes it rewrites. */
    method UnputAll(ms: set<Modification>)
      requires Valid()
      modifies this
      ensures Valid() && PendingChanges() == old(PendingChanges())
      ensures Changed(installed, old(installed), ms, false)
    {
      var todo := ms;
      ghost var done: set<Modification> := {};
      while todo != {}
        invariant Valid() && todo <= ms && done == ms - todo
        invariant PendingChanges() == old(PendingChanges())
        invariant Changed(installed, old(installed), done, false)
      {
        var m :| m in todo;
        ghost var now := installed;
        UnputEach(m);
        ChangedStep(installed, now, old(installed), done, m, false);
        todo := todo - {m};
        done := done + {m};
      }
    }

    /** The second loop of `persist`: every modification of `ms` joins the
        classes it rewrites. */
    method PutAll(ms: set<Modification>)
      requires Valid()
      modifies this
      ensures Valid() && PendingChanges() == old(PendingChanges())
      ensures Changed(installed, old(installed), ms, true)
    {
      var todo := ms;
      ghost var done: set<Modification> := {};
      while todo != {}
        invariant Valid() && todo <= ms && done == ms - todo
        invariant PendingChanges() == old(PendingChanges())
        invariant Changed(installed, old(installed), done, true)
      {
        var m :| m in todo;
        ghost var now := installed;
        PutEach(m);
        ChangedStep(installed, now, old(installed), done, m, true);
        todo := todo - {m};
        done := done + {m};
      }
    }

    /** `install`: with an agent, hand it the pending changes and persist
        them; without one, nothing happens. When the agent throws (a class
        it cannot compile or reload), `persist` is skipped: `thrown` is set
        and the pending and installed modifications stay as they were. */
    method Install(hasAgent: bool, agentFails: bool) returns (handedToAgent: Multimap, thrown: bool)
      requires Valid()
      modifies this
      ensures Valid()
      ensures thrown <==> hasAgent && agentFails
      ensures !hasAgent ==> handedToAgent == map[]
      ensures hasAgent ==> handedToAgent.Keys == Affects(old(PendingChanges()))
      ensures !hasAgent || agentFails ==> PendingChanges() == old(PendingChanges()) && installed == old(installed)
      ensures hasAgent && !agentFails ==> forall c :: c in handedToAgent ==> Get(installed, c) == handedToAgent[c]
      ensures hasAgent && !agentFails ==> forall c :: c !in handedToAgent ==> Get(installed, c) == Get(old(installed), c)
      ensures hasAgent && !agentFails ==> PendingChanges() == Pending({}, {}, {})
    {
      handedToAgent, thrown := map[], false;
      if hasAgent {
        handedToAgent := Changes();
        if agentFails {
          thrown := true;
          return;
        }
        ghost var p := PendingChanges();
        ghost var before := installed;
        Persist();
        forall c | c !in handedToAgent ensures Get(installed, c) == Get(before, c) {
          UnaffectedUnchanged(before, p, c);
        }
      }
    }
  }
}
