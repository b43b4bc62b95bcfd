/** What enabling a unit hands to the service manager, given the services that are registered already:
    which names, in which order, and how often. Module UnitPool has the methods that do it. */
module Enabling {
  import opened Seqs
  import opened Dependencies
  import opened Visiting

  /** The registered services after the names in a list have been handed over: those that the manager
      accepts. */
  function After(refused: set<string>, registered: set<string>, log: seq<string>): set<string> {
    registered + (Names(log) - refused)
  }

  ghost function Enabled(world: World, rank: map<string, nat>, name: string, registered: set<string>): Outcome
    requires Sound(world, rank) && name in rank
    decreases rank[name], 1, 0
  {
    if !world.HasFile(name) then Outcome(false, [])
    else
      var unit := world.UnitOf(name);
      var first := Required(world, rank, name, unit.needs, registered);
      if !first.ok then first
      else
        var middle := After(world.refused, registered, first.log);
        var second := Wanted(world, rank, name, unit.wants, middle);
        Outcome(true, first.log + second + if name in After(world.refused, middle, second) then [] else [name])
  }

  /** The loop over the required units: a loaded one is taken as it is. */
  ghost function Required(world: World, rank: map<string, nat>, name: string, names: seq<string>,
                          registered: set<string>): Outcome
    requires Sound(world, rank) && name in rank
    requires forall d :: d in names && world.Reads(d) ==> d in rank && rank[d] < rank[name]
    decreases rank[name], 0, |names|
  {
    if names == [] then Outcome(true, [])
    else if names[0] in world.loaded then Required(world, rank, name, names[1..], registered)
    else if names[0] !in world.library then Outcome(false, [])
    else
      assert names[0] in names && world.Reads(names[0]);
      var one := Enabled(world, rank, names[0], registered);
      if !one.ok then one
      else
        var rest := Required(world, rank, name, names[1..], After(world.refused, registered, one.log));
        Outcome(rest.ok, one.log + rest.log)
  }

  /** The loop over the wanted units: all are enabled, loaded or not, and failures are ignored. */
  ghost function Wanted(world: World, rank: map<string, nat>, name: string, names: seq<string>,
                        registered: set<string>): (log: seq<string>)
    requires Sound(world, rank) && name in rank && forall d :: d in names ==> d in rank && rank[d] < rank[name]
    decreases rank[name], 0, |names|
  {
    if names == [] then []
    else
      var one := Enabled(world, rank, names[0], registered).log;
      one + Wanted(world, rank, name, names[1..], After(world.refused, registered, one))
  }

  /** One turn of the loop over the required units. */
  ghost function RequiredOne(world: World, rank: map<string, nat>, d: string, registered: set<string>): Outcome
    requires Sound(world, rank) && (world.Reads(d) ==> d in rank)
  {
    if d in world.loaded then Outcome(true, [])
    else if d !in world.library then Outcome(false, [])
    else Enabled(world, rank, d, registered)
  }

  lemma RequiredNext(world: World, rank: map<string, nat>, name: string, names: seq<string>, i: nat,
                     registered: set<string>)
    requires Sound(world, rank) && i < |names| && name in rank
    requires forall d :: d in names && world.Reads(d) ==> d in rank && rank[d] < rank[name]
    ensures forall d :: d in names[i..] ==> d in names
    ensures forall d :: d in names[i + 1..] ==> d in names
    ensures var one := RequiredOne(world, rank, names[i], registered);
            var rest := Required(world, rank, name, names[i + 1..], After(world.refused, registered, one.log));
            Required(world, rank, name, names[i..], registered)
              == if one.ok then Outcome(rest.ok, one.log + rest.log) else one
  {
    hide Enabled, Below;
    assert names[i..][1..] == names[i + 1..];
    AfterNothing(world.refused, registered);
    WithEmpty(Required(world, rank, name, names[i + 1..], registered).log);
  }

  lemma NothingRequired(world: World, rank: map<string, nat>, name: string, registered: set<string>)
    requires Sound(world, rank) && name in rank
    ensures Required(world, rank, name, [], registered) == Outcome(true, [])
    ensures Wanted(world, rank, name, [], registered) == []
  {
  }

  lemma WantedNext(world: World, rank: map<string, nat>, name: string, names: seq<string>, i: nat,
                   registered: set<string>)
    requires Sound(world, rank) && i < |names| && name in rank
    requires forall d :: d in names ==> d in rank && rank[d] < rank[name]
    ensures forall d :: d in names[i..] ==> d in names
    ensures forall d :: d in names[i + 1..] ==> d in names
    ensures var one := Enabled(world, rank, names[i], registered).log;
            Wanted(world, rank, name, names[i..], registered)
              == one + Wanted(world, rank, name, names[i + 1..], After(world.refused, registered, one))
  {
    hide Enabled, Below;
    assert names[i..][1..] == names[i + 1..];
  }

  /** The same turn, as far as files are copied. */
  lemma CopiedNext(world: World, rank: map<string, nat>, name: string, names: seq<string>, i: nat,
                   registered: set<string>)
    requires Sound(world, rank) && i < |names| && name in rank
    requires forall d :: d in names && world.Reads(d) ==> d in rank && rank[d] < rank[name]
    ensures forall d :: d in names[i..] ==> d in names
    ensures forall d :: d in names[i + 1..] ==> d in names
    ensures CopiedNeeds(world, rank, name, names[i..])
         == CopiedOne(world, rank, names[i])
            + if RequiredOne(world, rank, names[i], registered).ok
              then CopiedNeeds(world, rank, name, names[i + 1..]) else {}
  {
    hide Enabled, Copied, CanEnable, Below;
    var rest := names[i..];
    assert rest[1..] == names[i + 1..] && rest[..1] == [names[i]];
    assert AllCan(world, rank, rest[..1]) <==> RequiredOne(world, rank, names[i], registered).ok by {
      if world.Reads(names[i]) {
        SucceedsIff(world, rank, names[i], registered);
      }
    }
  }

  lemma CopiedWantsNext(world: World, rank: map<string, nat>, name: string, names: seq<string>, i: nat)
    requires Sound(world, rank) && i < |names| && name in rank
    requires forall d :: d in names ==> d in rank && rank[d] < rank[name]
    ensures forall d :: d in names[i..] ==> d in names
    ensures forall d :: d in names[i + 1..] ==> d in names
    ensures CopiedWants(world, rank, name, names[i..])
         == Copied(world, rank, names[i]) + CopiedWants(world, rank, name, names[i + 1..])
  {
    hide Copied, Below;
    assert names[i..][1..] == names[i + 1..];
  }

  /** What is copied in all, by the part that is reached. */
  lemma CopiedInAll(world: World, rank: map<string, nat>, name: string, registered: set<string>)
    requires Sound(world, rank) && name in rank
    ensures !world.HasFile(name) ==> Copied(world, rank, name) == {}
    ensures world.HasFile(name) ==>
              var unit := world.UnitOf(name);
              Copied(world, rank, name)
              == {name} + CopiedNeeds(world, rank, name, unit.needs)
                 + if Required(world, rank, name, unit.needs, registered).ok
                   then CopiedWants(world, rank, name, unit.wants) else {}
  {
    if world.HasFile(name) {
      RequiredIs(world, rank, name, world.UnitOf(name).needs, registered);
      RequiredIff(world, rank, name, world.UnitOf(name).needs);
    }
  }

  lemma NothingCopied(world: World, rank: map<string, nat>, name: string)
    requires Sound(world, rank) && name in rank
    ensures CopiedNeeds(world, rank, name, []) == {} && CopiedWants(world, rank, name, []) == {}
  {
  }

  lemma AfterNothing(refused: set<string>, registered: set<string>)
    ensures After(refused, registered, []) == registered
  {
  }

  lemma AfterConcat(refused: set<string>, registered: set<string>, a: seq<string>, b: seq<string>)
    ensures After(refused, registered, a + b) == After(refused, After(refused, registered, a), b)
  {
  }

  // ---- the units that come up, less those that are registered by then

  /** Of the units that come up in order, those whose services are handed over. */
  function Handed(world: World, registered: set<string>, visits: seq<string>): (log: seq<string>)
    decreases |visits|
  {
    if visits == [] then []
    else if visits[0] in registered then Handed(world, registered, visits[1..])
    else [visits[0]] + Handed(world, After(world.refused, registered, [visits[0]]), visits[1..])
  }

  lemma {:induction false} HandedConcat(world: World, registered: set<string>, a: seq<string>, b: seq<string>)
    ensures Handed(world, registered, a + b)
         == Handed(world, registered, a)
            + Handed(world, After(world.refused, registered, Handed(world, registered, a)), b)
    decreases |a|
  {
    hide After;
    if a == [] {
      WithEmpty(b);
      AfterNothing(world.refused, registered);
      WithEmpty(Handed(world, registered, b));
    } else {
      TailOfAppend(a, b);
      if a[0] in registered {
        HandedConcat(world, registered, a[1..], b);
      } else {
        var next := After(world.refused, registered, [a[0]]);
        var more := Handed(world, next, a[1..]);
        HandedConcat(world, next, a[1..], b);
        AfterConcat(world.refused, registered, [a[0]], more);
        Assoc([a[0]], more, Handed(world, After(world.refused, next, more), b));
      }
    }
  }

  lemma HandedOne(world: World, registered: set<string>, name: string)
    ensures Handed(world, registered, [name]) == if name in registered then [] else [name]
    ensures Handed(world, registered, []) == []
  {
  }

  lemma {:induction false} EnabledIs(world: World, rank: map<string, nat>, name: string, registered: set<string>)
    requires Sound(world, rank) && name in rank
    ensures var v := Visited(world, rank, name);
            Enabled(world, rank, name, registered) == Outcome(v.ok, Handed(world, registered, v.log))
    decreases rank[name], 1, 0
  {
    hide Handed, After;
    HandedOne(world, registered, name);
    if world.HasFile(name) {
      var unit := world.UnitOf(name);
      var first := VisitedNeeds(world, rank, name, unit.needs);
      RequiredIs(world, rank, name, unit.needs, registered);
      if first.ok {
        var second := VisitedWants(world, rank, name, unit.wants);
        var middle := After(world.refused, registered, Handed(world, registered, first.log));
        WantedIs(world, rank, name, unit.wants, middle);
        HandedConcat(world, registered, first.log, second);
        HandedConcat(world, registered, first.log + second, [name]);
        AfterConcat(world.refused, registered, Handed(world, registered, first.log), Handed(world, middle, second));
        HandedOne(world, After(world.refused, middle, Handed(world, middle, second)), name);
      }
    }
  }

  lemma {:induction false} RequiredIs(world: World, rank: map<string, nat>, name: string, names: seq<string>,
                                      registered: set<string>)
    requires Sound(world, rank) && name in rank
    requires forall d :: d in names && world.Reads(d) ==> d in rank && rank[d] < rank[name]
    ensures var v := VisitedNeeds(world, rank, name, names);
            Required(world, rank, name, names, registered) == Outcome(v.ok, Handed(world, registered, v.log))
    decreases rank[name], 0, |names|
  {
    hide Enabled, Visited, Handed, After, Below;
    HandedOne(world, registered, name);
    if names != [] {
      Cons(names);
      if names[0] in world.loaded {
        RequiredIs(world, rank, name, names[1..], registered);
      } else if names[0] in world.library {
        var one := Visited(world, rank, names[0]);
        EnabledIs(world, rank, names[0], registered);
        if one.ok {
          RequiredIs(world, rank, name, names[1..],
                     After(world.refused, registered, Handed(world, registered, one.log)));
          HandedConcat(world, registered, one.log, VisitedNeeds(world, rank, name, names[1..]).log);
        }
      }
    }
  }

  lemma {:induction false} WantedIs(world: World, rank: map<string, nat>, name: string, names: seq<string>,
                                    registered: set<string>)
    requires Sound(world, rank) && name in rank && forall d :: d in names ==> d in rank && rank[d] < rank[name]
    ensures Wanted(world, rank, name, names, registered)
         == Handed(world, registered, VisitedWants(world, rank, name, names))
    decreases rank[name], 0, |names|
  {
    hide Enabled, Visited, Handed, After, Below;
    HandedOne(world, registered, name);
    if names != [] {
      Cons(names);
      var one := Visited(world, rank, names[0]).log;
      EnabledIs(world, rank, names[0], registered);
      WantedIs(world, rank, name, names[1..], After(world.refused, registered, Handed(world, registered, one)));
      HandedConcat(world, registered, one, VisitedWants(world, rank, name, names[1..]));
    }
  }

  // ---- the laws

  lemma {:induction false} HandedMember(world: World, registered: set<string>, visits: seq<string>, m: string)
    ensures m in Handed(world, registered, visits) <==> m in visits && m !in registered
    decreases |visits|
  {
    if visits != [] {
      Cons(visits);
      if visits[0] in registered {
        HandedMember(world, registered, visits[1..], m);
      } else {
        HandedMember(world, After(world.refused, registered, [visits[0]]), visits[1..], m);
      }
    }
  }

  /** An accepted name is handed over once, a refused one each time that its unit comes up. */
  lemma {:induction false} HandedCount(world: World, registered: set<string>, visits: seq<string>, m: string)
    ensures multiset(Handed(world, registered, visits))[m]
         == if m in registered then 0
            else if m in world.refused then multiset(visits)[m]
            else if m in visits then 1
            else 0
    decreases |visits|
  {
    if visits != [] {
      Cons(visits);
      var next := After(world.refused, registered, [visits[0]]);
      if visits[0] in registered {
        HandedCount(world, registered, visits[1..], m);
      } else {
        HandedCount(world, next, visits[1..], m);
        assert m in next <==> m in registered || (m == visits[0] && m !in world.refused);
      }
    }
  }

  lemma {:induction false} HandedInOrder(world: World, registered: set<string>, visits: seq<string>, done: set<string>,
                                         all: set<string>)
    requires RequiresFirst(world, done, visits) && done <= all && registered <= all
    ensures RequiresFirst(world, all, Handed(world, registered, visits))
    decreases |visits|
  {
    hide World.Known, World.UnitOf;
    if visits != [] {
      if visits[0] in registered {
        HandedInOrder(world, registered, visits[1..], done + {visits[0]}, all);
      } else {
        var next := After(world.refused, registered, [visits[0]]);
        HandedInOrder(world, next, visits[1..], done + {visits[0]}, all + {visits[0]});
        CutAppend([visits[0]], Handed(world, next, visits[1..]));
      }
    }
  }

  /** Enabling succeeds exactly when the unit can be enabled, whatever is registered. */
  lemma SucceedsIff(world: World, rank: map<string, nat>, name: string, registered: set<string>)
    requires Sound(world, rank) && name in rank
    ensures Enabled(world, rank, name, registered).ok <==> CanEnable(world, rank, name)
  {
    EnabledIs(world, rank, name, registered);
    Visiting.SucceedsIff(world, rank, name);
  }

  /** A service is handed over if and only if it is not registered yet, some chain of dependencies
      leads to its unit, and that can be enabled. */
  lemma RegisteredIff(world: World, rank: map<string, nat>, name: string, registered: set<string>, m: string)
    requires Sound(world, rank) && name in rank
    ensures m in Enabled(world, rank, name, registered).log <==>
              && m !in registered
              && m in rank && CanEnable(world, rank, m) && exists chain :: Leads(world, rank, name, chain, m)
  {
    EnabledIs(world, rank, name, registered);
    HandedMember(world, registered, Visited(world, rank, name).log, m);
    VisitedIff(world, rank, name, m);
  }

  /** A service is handed over only when every unit that it requires is loaded, was registered before,
      or has been handed over. */
  lemma RegisteredAfterRequired(world: World, rank: map<string, nat>, name: string, registered: set<string>, k: nat,
                                r: string)
    requires Sound(world, rank) && name in rank && k < |Enabled(world, rank, name, registered).log|
    ensures var log := Enabled(world, rank, name, registered).log;
            && world.Known(log[k])
            && (r in world.UnitOf(log[k]).needs ==> r in world.loaded || r in registered || r in log[..k])
  {
    EnabledIs(world, rank, name, registered);
    VisitedInOrder(world, rank, name, {});
    HandedInOrder(world, registered, Visited(world, rank, name).log, {}, registered);
    RequiresFirstAt(world, registered, Enabled(world, rank, name, registered).log, k, r);
  }

  /** If the manager accepts what it is handed, no service is handed over twice, and none that was
      registered before: not even when several units require the same one. */
  lemma NeverTwice(world: World, rank: map<string, nat>, name: string, registered: set<string>)
    requires Sound(world, rank) && name in rank && world.refused == {}
    ensures NoDuplicates(Enabled(world, rank, name, registered).log)
    ensures forall m :: m in Enabled(world, rank, name, registered).log ==> m !in registered
  {
    hide Enabled, Visited, Handed;
    EnabledIs(world, rank, name, registered);
    var visits := Visited(world, rank, name).log;
    forall m ensures multiset(Handed(world, registered, visits))[m] <= (if m in registered then 0 else 1) {
      HandedCount(world, registered, visits, m);
    }
    NoDuplicatesCounts(Handed(world, registered, visits));
  }

  /** In general a service is handed over twice only if the manager refuses it: never exactly when no
      refused one is at the end of two chains of dependencies. */
  lemma OnceIff(world: World, rank: map<string, nat>, name: string, registered: set<string>)
    requires Sound(world, rank) && name in rank
    ensures NoDuplicates(Enabled(world, rank, name, registered).log) <==>
              forall m :: m in world.refused && m !in registered ==> OneChain(world, rank, name, m)
  {
    hide Enabled, Visited, Handed, OneChain;
    EnabledIs(world, rank, name, registered);
    var visits := Visited(world, rank, name).log;
    NoDuplicatesCounts(Handed(world, registered, visits));
    forall m ensures multiset(Handed(world, registered, visits))[m] <= 1 <==>
                       (m in world.refused && m !in registered ==> OneChain(world, rank, name, m)) {
      HandedCount(world, registered, visits, m);
      VisitedOnceIff(world, rank, name, m);
    }
  }

  /** Every service that is handed over has its unit file in the active directory, and so does a unit
      that was enabled. */
  lemma HandedCopied(world: World, rank: map<string, nat>, name: string, registered: set<string>)
    requires Sound(world, rank) && name in rank
    ensures Names(Enabled(world, rank, name, registered).log) <= Copied(world, rank, name)
    ensures Enabled(world, rank, name, registered).ok ==> name in Copied(world, rank, name)
  {
    hide Enabled, Copied;
    forall m | m in Enabled(world, rank, name, registered).log ensures m in Copied(world, rank, name) {
      RegisteredIff(world, rank, name, registered, m);
      CopiedIff(world, rank, name, m);
    }
    SucceedsIff(world, rank, name, registered);
    if Enabled(world, rank, name, registered).ok {
      assert CanEnable(world, rank, name);
      assert world.HasFile(name);
      assert Leads(world, rank, name, [], name);
      CopiedIff(world, rank, name, name);
      assert name in Copied(world, rank, name);
    }
  }
}
