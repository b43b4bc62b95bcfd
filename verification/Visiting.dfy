/** The units that enabling brings to the point where their services would be registered, in order:
    whether enabling succeeds, what comes before what, and how often a unit comes up. Whether a service
    is registered already plays no part in it. */
module Visiting {
  import opened Seqs
  import opened Dependencies

  /** Whether enabling succeeds, and names of units in order. */
  datatype Outcome = Outcome(ok: bool, log: seq<string>)

  ghost function Visited(world: World, rank: map<string, nat>, name: string): Outcome
    requires Sound(world, rank) && name in rank
    decreases rank[name], 1, 0
  {
    if !world.HasFile(name) then Outcome(false, [])
    else
      var unit := world.UnitOf(name);
      var first := VisitedNeeds(world, rank, name, unit.needs);
      if !first.ok then first
      else Outcome(true, first.log + VisitedWants(world, rank, name, unit.wants) + [name])
  }

  /** The loop over the required units: a loaded one is taken as it is. */
  ghost function VisitedNeeds(world: World, rank: map<string, nat>, name: string, names: seq<string>): Outcome
    requires Sound(world, rank) && name in rank
    requires forall d :: d in names && world.Reads(d) ==> d in rank && rank[d] < rank[name]
    decreases rank[name], 0, |names|
  {
    if names == [] then Outcome(true, [])
    else if names[0] in world.loaded then VisitedNeeds(world, rank, name, names[1..])
    else if names[0] !in world.library then Outcome(false, [])
    else
      assert names[0] in names && world.Reads(names[0]);
      var one := Visited(world, rank, names[0]);
      if !one.ok then one
      else
        var rest := VisitedNeeds(world, rank, name, names[1..]);
        Outcome(rest.ok, one.log + rest.log)
  }

  /** The loop over the wanted units: all are enabled, loaded or not, and failures are ignored. */
  ghost function VisitedWants(world: World, rank: map<string, nat>, name: string, names: seq<string>):
    (log: seq<string>)
    requires Sound(world, rank) && name in rank && forall d :: d in names ==> d in rank && rank[d] < rank[name]
    decreases rank[name], 0, |names|
  {
    if names == [] then []
    else Visited(world, rank, names[0]).log + VisitedWants(world, rank, name, names[1..])
  }

  // ---- when it succeeds

  /** A unit can be enabled if it has a file and so can every required unit that is not loaded. */
  ghost predicate CanEnable(world: World, rank: map<string, nat>, name: string)
    requires Sound(world, rank) && name in rank
    decreases rank[name]
  {
    && world.HasFile(name)
    && forall r :: r in world.UnitOf(name).needs ==>
         r in world.loaded || (world.Reads(r) && CanEnable(world, rank, r))
  }

  ghost predicate AllCan(world: World, rank: map<string, nat>, names: seq<string>)
    requires Sound(world, rank) && forall r :: r in names && world.Reads(r) ==> r in rank
  {
    forall r :: r in names ==> r in world.loaded || (world.Reads(r) && CanEnable(world, rank, r))
  }

  lemma {:induction false} SucceedsIff(world: World, rank: map<string, nat>, name: string)
    requires Sound(world, rank) && name in rank
    ensures Visited(world, rank, name).ok <==> CanEnable(world, rank, name)
    decreases rank[name], 1, 0
  {
    if world.HasFile(name) {
      RequiredIff(world, rank, name, world.UnitOf(name).needs);
    }
  }

  lemma {:induction false} RequiredIff(world: World, rank: map<string, nat>, name: string, names: seq<string>)
    requires Sound(world, rank) && name in rank
    requires forall d :: d in names && world.Reads(d) ==> d in rank && rank[d] < rank[name]
    ensures VisitedNeeds(world, rank, name, names).ok <==> AllCan(world, rank, names)
    decreases rank[name], 0, |names|
  {
    hide Visited, CanEnable, Below;
    if names != [] {
      Cons(names);
      RequiredIff(world, rank, name, names[1..]);
      if names[0] !in world.loaded && names[0] in world.library {
        SucceedsIff(world, rank, names[0]);
      }
    }
  }

  // ---- the order

  /** Each unit in the list comes after those that it requires, unless they are loaded or were done
      before. */
  ghost predicate RequiresFirst(world: World, done: set<string>, log: seq<string>)
    decreases |log|
  {
    log != [] ==>
    && world.Known(log[0])
    && (forall r :: r in world.UnitOf(log[0]).needs ==> r in world.loaded || r in done)
    && RequiresFirst(world, done + {log[0]}, log[1..])
  }

  function Names(log: seq<string>): set<string> {
    set n | n in log
  }

  lemma {:induction false} RequiresFirstConcat(world: World, done: set<string>, a: seq<string>, b: seq<string>)
    requires RequiresFirst(world, done, a) && RequiresFirst(world, done + Names(a), b)
    ensures RequiresFirst(world, done, a + b)
    decreases |a|
  {
    hide World.Known, World.UnitOf;
    if a == [] {
      WithEmpty(b);
      assert done + Names(a) == done;
    } else {
      Cons(a);
      TailOfAppend(a, b);
      assert done + {a[0]} + Names(a[1..]) == done + Names(a);
      RequiresFirstConcat(world, done + {a[0]}, a[1..], b);
    }
  }

  lemma {:induction false} VisitedInOrder(world: World, rank: map<string, nat>, name: string, done: set<string>)
    requires Sound(world, rank) && name in rank
    ensures RequiresFirst(world, done, Visited(world, rank, name).log)
    ensures Visited(world, rank, name).ok ==> name in Visited(world, rank, name).log
    decreases rank[name], 1, 0
  {
    if world.HasFile(name) {
      var unit := world.UnitOf(name);
      var first := VisitedNeeds(world, rank, name, unit.needs);
      RequiredInOrder(world, rank, name, unit.needs, done);
      if first.ok {
        var second := VisitedWants(world, rank, name, unit.wants);
        WantedInOrder(world, rank, name, unit.wants, done + Names(first.log));
        hide Visited, VisitedNeeds, VisitedWants;
        RequiresFirstConcat(world, done, first.log, second);
        assert RequiresFirst(world, done + Names(first.log + second), [name]);
        RequiresFirstConcat(world, done, first.log + second, [name]);
      }
    }
  }

  lemma {:induction false} RequiredInOrder(world: World, rank: map<string, nat>, name: string,
                                           names: seq<string>, done: set<string>)
    requires Sound(world, rank) && name in rank
    requires forall d :: d in names && world.Reads(d) ==> d in rank && rank[d] < rank[name]
    ensures var o := VisitedNeeds(world, rank, name, names);
            && RequiresFirst(world, done, o.log)
            && (o.ok ==> forall r :: r in names ==> r in world.loaded || r in o.log)
    decreases rank[name], 0, |names|
  {
    hide Visited, RequiresFirst, Below;
    if names == [] {
      NoneFirst(world, done);
    } else if names[0] in world.loaded {
      Cons(names);
      RequiredInOrder(world, rank, name, names[1..], done);
    } else if names[0] in world.library {
      Cons(names);
      var one := Visited(world, rank, names[0]);
      VisitedInOrder(world, rank, names[0], done);
      if one.ok {
        RequiredInOrder(world, rank, name, names[1..], done + Names(one.log));
        RequiresFirstConcat(world, done, one.log, VisitedNeeds(world, rank, name, names[1..]).log);
      }
    } else {
      NoneFirst(world, done);
    }
  }

  lemma NoneFirst(world: World, done: set<string>)
    ensures RequiresFirst(world, done, [])
  {
  }

  lemma {:induction false} WantedInOrder(world: World, rank: map<string, nat>, name: string, names: seq<string>,
                                         done: set<string>)
    requires Sound(world, rank) && name in rank && forall d :: d in names ==> d in rank && rank[d] < rank[name]
    ensures RequiresFirst(world, done, VisitedWants(world, rank, name, names))
    decreases rank[name], 0, |names|
  {
    hide Visited, RequiresFirst, Below;
    if names == [] {
      NoneFirst(world, done);
    } else {
      var one := Visited(world, rank, names[0]);
      VisitedInOrder(world, rank, names[0], done);
      WantedInOrder(world, rank, name, names[1..], done + Names(one.log));
      RequiresFirstConcat(world, done, one.log, VisitedWants(world, rank, name, names[1..]));
    }
  }

  lemma {:induction false} RequiresFirstAt(world: World, done: set<string>, log: seq<string>, k: nat, r: string)
    requires RequiresFirst(world, done, log) && k < |log|
    ensures world.Known(log[k])
    ensures r in world.UnitOf(log[k]).needs ==> r in world.loaded || r in done || r in log[..k]
    decreases |log|
  {
    hide World.Known, World.UnitOf;
    if k > 0 {
      RequiresFirstAt(world, done + {log[0]}, log[1..], k - 1, r);
      TakeCons(log, k - 1);
    }
  }

  // ---- how often

  /** The units that enabling one unit enables in turn. */
  ghost function Steps(world: World, rank: map<string, nat>, name: string): (steps: seq<string>)
    requires Sound(world, rank) && name in rank
    ensures forall k :: 0 <= k < |steps| ==> steps[k] in rank && rank[steps[k]] < rank[name]
  {
    if !world.HasFile(name) then []
    else
      var unit := world.UnitOf(name);
      RequiredSteps(world, rank, name, unit.needs) + if AllCan(world, rank, unit.needs) then unit.wants else []
  }

  /** The required units that are not loaded, up to the first that cannot be enabled. */
  ghost function RequiredSteps(world: World, rank: map<string, nat>, name: string,
                               names: seq<string>): (steps: seq<string>)
    requires Sound(world, rank) && name in rank
    requires forall d :: d in names && world.Reads(d) ==> d in rank && rank[d] < rank[name]
    ensures forall k :: 0 <= k < |steps| ==> steps[k] in rank && rank[steps[k]] < rank[name]
  {
    if names == [] then []
    else if names[0] in world.loaded then RequiredSteps(world, rank, name, names[1..])
    else if names[0] !in world.library then []
    else
      assert names[0] in names && world.Reads(names[0]);
      [names[0]]
      + if CanEnable(world, rank, names[0]) then RequiredSteps(world, rank, name, names[1..]) else []
  }

  /** A chain of dependencies that enabling follows, by position, leads from one unit to another. */
  ghost predicate Leads(world: World, rank: map<string, nat>, name: string, chain: seq<nat>, target: string)
    requires Sound(world, rank) && name in rank
    decreases |chain|
  {
    if chain == [] then name == target
    else
      var steps := Steps(world, rank, name);
      chain[0] < |steps| && Leads(world, rank, steps[chain[0]], chain[1..], target)
  }

  ghost function Logs(world: World, rank: map<string, nat>, names: seq<string>): (log: seq<string>)
    requires Sound(world, rank) && forall k :: 0 <= k < |names| ==> names[k] in rank
  {
    if names == [] then [] else Visited(world, rank, names[0]).log + Logs(world, rank, names[1..])
  }

  lemma {:induction false} LogsConcat(world: World, rank: map<string, nat>, a: seq<string>, b: seq<string>)
    requires Sound(world, rank) && forall k :: 0 <= k < |a| ==> a[k] in rank
    requires forall k :: 0 <= k < |b| ==> b[k] in rank
    ensures forall k :: 0 <= k < |a + b| ==> (a + b)[k] in rank
    ensures Logs(world, rank, a + b) == Logs(world, rank, a) + Logs(world, rank, b)
    decreases |a|
  {
    hide Visited, World.Known, Below;
    if a == [] {
      WithEmpty(b);
    } else {
      TailOfAppend(a, b);
      LogsConcat(world, rank, a[1..], b);
      Assoc(Visited(world, rank, a[0]).log, Logs(world, rank, a[1..]), Logs(world, rank, b));
    }
  }

  lemma {:induction false} RequiredLogs(world: World, rank: map<string, nat>, name: string, names: seq<string>)
    requires Sound(world, rank) && name in rank
    requires forall d :: d in names && world.Reads(d) ==> d in rank && rank[d] < rank[name]
    ensures VisitedNeeds(world, rank, name, names).log == Logs(world, rank, RequiredSteps(world, rank, name, names))
  {
    hide Visited, CanEnable, Below;
    if names != [] {
      Cons(names);
      RequiredLogs(world, rank, name, names[1..]);
      if names[0] !in world.loaded && names[0] in world.library {
        SucceedsIff(world, rank, names[0]);
        var rest := if CanEnable(world, rank, names[0]) then RequiredSteps(world, rank, name, names[1..]) else [];
        CutAppend([names[0]], rest);
        WithEmpty(Visited(world, rank, names[0]).log);
      }
    }
  }

  lemma {:induction false} WantedLogs(world: World, rank: map<string, nat>, name: string, names: seq<string>)
    requires Sound(world, rank) && name in rank && forall d :: d in names ==> d in rank && rank[d] < rank[name]
    ensures VisitedWants(world, rank, name, names) == Logs(world, rank, names)
  {
    hide Visited, Below;
    if names != [] {
      Cons(names);
      WantedLogs(world, rank, name, names[1..]);
    }
  }

  /** The list is what the steps leave, one after the other, and the unit itself if it succeeds. */
  lemma LogOfSteps(world: World, rank: map<string, nat>, name: string)
    requires Sound(world, rank) && name in rank
    ensures Visited(world, rank, name).log
         == Logs(world, rank, Steps(world, rank, name)) + if CanEnable(world, rank, name) then [name] else []
  {
    SucceedsIff(world, rank, name);
    if world.HasFile(name) {
      var unit := world.UnitOf(name);
      RequiredIff(world, rank, name, unit.needs);
      RequiredLogs(world, rank, name, unit.needs);
      WantedLogs(world, rank, name, unit.wants);
      var steps := RequiredSteps(world, rank, name, unit.needs);
      LogsConcat(world, rank, steps, unit.wants);
      WithEmpty(steps);
      WithEmpty(Logs(world, rank, steps));
    }
  }

  lemma {:induction false} LogsMember(world: World, rank: map<string, nat>, names: seq<string>, m: string)
    requires Sound(world, rank) && forall k :: 0 <= k < |names| ==> names[k] in rank
    ensures m in Logs(world, rank, names) <==> exists k :: 0 <= k < |names| && m in Visited(world, rank, names[k]).log
  {
    hide Visited, Below, World.Known;
    if names != [] {
      LogsMember(world, rank, names[1..], m);
      if m in Logs(world, rank, names[1..]) {
        var k :| 0 <= k < |names[1..]| && m in Visited(world, rank, names[1..][k]).log;
        assert names[k + 1] == names[1..][k];
      }
      if k :| 0 <= k < |names| && m in Visited(world, rank, names[k]).log {
        if k > 0 {
          assert names[1..][k - 1] == names[k];
        }
      }
    }
  }

  lemma LeadsNext(world: World, rank: map<string, nat>, name: string, k: nat, chain: seq<nat>, m: string)
    requires Sound(world, rank) && name in rank && k < |Steps(world, rank, name)|
    requires Leads(world, rank, Steps(world, rank, name)[k], chain, m)
    ensures Leads(world, rank, name, [k] + chain, m)
  {
    hide Steps;
    CutAppend([k], chain);
  }

  /** Every service in the list belongs to a unit that some chain leads to. */
  lemma {:induction false} ChainOf(world: World, rank: map<string, nat>, name: string,
                                   m: string) returns (chain: seq<nat>)
    requires Sound(world, rank) && name in rank && m in Visited(world, rank, name).log
    ensures m in rank && CanEnable(world, rank, m) && Leads(world, rank, name, chain, m)
    decreases rank[name]
  {
    hide Visited, CanEnable, Steps, World.Known, Below;
    var steps := Steps(world, rank, name);
    LogOfSteps(world, rank, name);
    if m == name && CanEnable(world, rank, name) {
      chain := [];
    } else {
      LogsMember(world, rank, steps, m);
      var k :| 0 <= k < |steps| && m in Visited(world, rank, steps[k]).log;
      var rest := ChainOf(world, rank, steps[k], m);
      LeadsNext(world, rank, name, k, rest, m);
      chain := [k] + rest;
    }
  }

  lemma {:induction false} ChainLogged(world: World, rank: map<string, nat>, name: string, chain: seq<nat>, m: string)
    requires Sound(world, rank) && name in rank && Leads(world, rank, name, chain, m)
    ensures m in rank && (CanEnable(world, rank, m) ==> m in Visited(world, rank, name).log)
    ensures chain != [] ==> rank[m] < rank[name]
    decreases rank[name]
  {
    hide Visited, CanEnable, Steps, World.Known, Below;
    var steps := Steps(world, rank, name);
    LogOfSteps(world, rank, name);
    if chain != [] {
      ChainLogged(world, rank, steps[chain[0]], chain[1..], m);
      LogsMember(world, rank, steps, m);
    }
  }

  /** A unit comes up if and only if some chain leads to it and it can be enabled. */
  lemma VisitedIff(world: World, rank: map<string, nat>, name: string, m: string)
    requires Sound(world, rank) && name in rank
    ensures m in Visited(world, rank, name).log <==>
              m in rank && CanEnable(world, rank, m) && exists chain :: Leads(world, rank, name, chain, m)
  {
    hide Visited, CanEnable, Steps, World.Known;
    if m in Visited(world, rank, name).log {
      var chain := ChainOf(world, rank, name, m);
    }
    if chain :| Leads(world, rank, name, chain, m) {
      ChainLogged(world, rank, name, chain, m);
    }
  }

  /** Two chains lead to the same unit, which can be enabled. */
  ghost predicate Meet(world: World, rank: map<string, nat>, name: string, a: seq<nat>, b: seq<nat>, m: string)
    requires Sound(world, rank) && name in rank
  {
    && m in rank && CanEnable(world, rank, m)
    && Leads(world, rank, name, a, m) && Leads(world, rank, name, b, m)
  }

  /** The unit is not at the end of two different chains. */
  ghost predicate OneChain(world: World, rank: map<string, nat>, name: string, m: string)
    requires Sound(world, rank) && name in rank
  {
    forall a, b :: Meet(world, rank, name, a, b, m) ==> a == b
  }

  /** At most one of the steps brings the unit up. */
  ghost predicate Apart(world: World, rank: map<string, nat>, names: seq<string>, m: string)
    requires Sound(world, rank) && forall k :: 0 <= k < |names| ==> names[k] in rank
  {
    forall i, j :: 0 <= i < j < |names| && m in Visited(world, rank, names[i]).log
                   ==> m !in Visited(world, rank, names[j]).log
  }

  /** No step brings the unit up twice. */
  ghost predicate EachOnce(world: World, rank: map<string, nat>, names: seq<string>, m: string)
    requires Sound(world, rank) && forall k :: 0 <= k < |names| ==> names[k] in rank
  {
    forall k :: 0 <= k < |names| ==> multiset(Visited(world, rank, names[k]).log)[m] <= 1
  }

  lemma {:induction false} LogsOnce(world: World, rank: map<string, nat>, names: seq<string>, m: string)
    requires Sound(world, rank) && forall k :: 0 <= k < |names| ==> names[k] in rank
    ensures multiset(Logs(world, rank, names))[m] <= 1
       <==> Apart(world, rank, names, m) && EachOnce(world, rank, names, m)
  {
    hide Visited, Below;
    if names != [] {
      var rest := names[1..];
      LogsOnce(world, rank, rest, m);
      LogsMember(world, rank, rest, m);
      assert forall k :: 0 <= k < |rest| ==> rest[k] == names[k + 1];
      assert forall k :: 1 <= k < |names| ==> names[k] == rest[k - 1];
    }
  }

  lemma MeetNext(world: World, rank: map<string, nat>, name: string, k: nat, a: seq<nat>, b: seq<nat>, m: string)
    requires Sound(world, rank) && name in rank && k < |Steps(world, rank, name)|
    requires Meet(world, rank, Steps(world, rank, name)[k], a, b, m)
    ensures Meet(world, rank, name, [k] + a, [k] + b, m)
  {
    hide Steps, CanEnable;
    LeadsNext(world, rank, name, k, a, m);
    LeadsNext(world, rank, name, k, b, m);
  }

  /** Chains of a unit are unique if those of its steps are and the steps are apart. */
  lemma OneChainFromSteps(world: World, rank: map<string, nat>, name: string, m: string)
    requires Sound(world, rank) && name in rank && Apart(world, rank, Steps(world, rank, name), m)
    requires forall k :: 0 <= k < |Steps(world, rank, name)| ==> OneChain(world, rank, Steps(world, rank, name)[k], m)
    ensures OneChain(world, rank, name, m)
  {
    hide Visited, CanEnable, Steps;
    var steps := Steps(world, rank, name);
    forall a, b | Meet(world, rank, name, a, b, m) ensures a == b {
      ChainLogged(world, rank, name, a, m);
      ChainLogged(world, rank, name, b, m);
      if a != [] && b != [] {
        ChainLogged(world, rank, steps[a[0]], a[1..], m);
        ChainLogged(world, rank, steps[b[0]], b[1..], m);
        assert a[0] == b[0] ==> Meet(world, rank, steps[a[0]], a[1..], b[1..], m);
        Cons(a);
        Cons(b);
      }
    }
  }

  lemma StepsFromOneChain(world: World, rank: map<string, nat>, name: string, k: nat, m: string)
    requires Sound(world, rank) && name in rank && k < |Steps(world, rank, name)| && OneChain(world, rank, name, m)
    ensures OneChain(world, rank, Steps(world, rank, name)[k], m)
  {
    hide Steps, CanEnable;
    forall a, b | Meet(world, rank, Steps(world, rank, name)[k], a, b, m) ensures a == b {
      MeetNext(world, rank, name, k, a, b, m);
      assert [k] + a == [k] + b;
      CutAppend([k], a);
      CutAppend([k], b);
    }
  }

  lemma TwoChains(world: World, rank: map<string, nat>, name: string, i: nat, j: nat, m: string)
    returns (a: seq<nat>, b: seq<nat>)
    requires Sound(world, rank) && name in rank && i < j < |Steps(world, rank, name)|
    requires m in Visited(world, rank, Steps(world, rank, name)[i]).log
    requires m in Visited(world, rank, Steps(world, rank, name)[j]).log
    ensures Meet(world, rank, name, a, b, m) && a != b
  {
    hide Visited, Steps, CanEnable;
    var steps := Steps(world, rank, name);
    var x := ChainOf(world, rank, steps[i], m);
    var y := ChainOf(world, rank, steps[j], m);
    LeadsNext(world, rank, name, i, x, m);
    LeadsNext(world, rank, name, j, y, m);
    a, b := [i] + x, [j] + y;
    assert a[0] == i && b[0] == j;
  }

  lemma ApartFromOneChain(world: World, rank: map<string, nat>, name: string, m: string)
    requires Sound(world, rank) && name in rank && OneChain(world, rank, name, m)
    ensures Apart(world, rank, Steps(world, rank, name), m)
  {
    hide Visited, Steps, CanEnable;
    var steps := Steps(world, rank, name);
    forall i, j | 0 <= i < j < |steps| && m in Visited(world, rank, steps[i]).log
      ensures m !in Visited(world, rank, steps[j]).log
    {
      if m in Visited(world, rank, steps[j]).log {
        var a, b := TwoChains(world, rank, name, i, j, m);
      }
    }
  }

  /** A unit is not below itself. */
  lemma NotBelowItself(world: World, rank: map<string, nat>, name: string)
    requires Sound(world, rank) && name in rank
    ensures name !in Logs(world, rank, Steps(world, rank, name))
  {
    hide Visited, Steps, CanEnable;
    var steps := Steps(world, rank, name);
    LogsMember(world, rank, steps, name);
    if k :| 0 <= k < |steps| && name in Visited(world, rank, steps[k]).log {
      var chain := ChainOf(world, rank, steps[k], name);
      ChainLogged(world, rank, steps[k], chain, name);
    }
  }

  /** A unit comes up once for every chain of dependencies that leads to it: not more than once if and
      only if it is not at the end of two. */
  lemma {:induction false} VisitedOnceIff(world: World, rank: map<string, nat>, name: string, m: string)
    requires Sound(world, rank) && name in rank
    ensures multiset(Visited(world, rank, name).log)[m] <= 1 <==> OneChain(world, rank, name, m)
    decreases rank[name]
  {
    hide Visited, Steps, CanEnable, OneChain, Apart;
    var steps := Steps(world, rank, name);
    LogOfSteps(world, rank, name);
    NotBelowItself(world, rank, name);
    LogsOnce(world, rank, steps, m);
    forall k | 0 <= k < |steps|
      ensures multiset(Visited(world, rank, steps[k]).log)[m] <= 1 <==> OneChain(world, rank, steps[k], m)
      ensures OneChain(world, rank, name, m) ==> OneChain(world, rank, steps[k], m)
    {
      VisitedOnceIff(world, rank, steps[k], m);
      if OneChain(world, rank, name, m) {
        StepsFromOneChain(world, rank, name, k, m);
      }
    }
    if OneChain(world, rank, name, m) {
      ApartFromOneChain(world, rank, name, m);
    } else if Apart(world, rank, steps, m) && forall k :: 0 <= k < |steps| ==> OneChain(world, rank, steps[k], m) {
      OneChainFromSteps(world, rank, name, m);
    }
  }

  // ---- the unit files that are copied to the active directory

  /** The file of a unit is copied before anything else, so also where enabling fails afterwards. */
  ghost function Copied(world: World, rank: map<string, nat>, name: string): (names: set<string>)
    requires Sound(world, rank) && name in rank
    decreases rank[name], 1, 0
  {
    if !world.HasFile(name) then {}
    else
      var unit := world.UnitOf(name);
      {name} + CopiedNeeds(world, rank, name, unit.needs)
      + if AllCan(world, rank, unit.needs) then CopiedWants(world, rank, name, unit.wants) else {}
  }

  /** One turn of the loop over the required units. */
  ghost function CopiedOne(world: World, rank: map<string, nat>, d: string): (names: set<string>)
    requires Sound(world, rank) && (world.Reads(d) ==> d in rank)
  {
    if world.Reads(d) then Copied(world, rank, d) else {}
  }

  ghost function CopiedNeeds(world: World, rank: map<string, nat>, name: string, names: seq<string>):
    (copied: set<string>)
    requires Sound(world, rank) && name in rank
    requires forall d :: d in names && world.Reads(d) ==> d in rank && rank[d] < rank[name]
    decreases rank[name], 0, |names|
  {
    if names == [] then {}
    else
      assert names[0] in names;
      (if world.Reads(names[0]) then Copied(world, rank, names[0]) else {})
      + if AllCan(world, rank, names[..1]) then CopiedNeeds(world, rank, name, names[1..]) else {}
  }

  ghost function CopiedWants(world: World, rank: map<string, nat>, name: string, names: seq<string>):
    (copied: set<string>)
    requires Sound(world, rank) && name in rank && forall d :: d in names ==> d in rank && rank[d] < rank[name]
    decreases rank[name], 0, |names|
  {
    if names == [] then {} else Copied(world, rank, names[0]) + CopiedWants(world, rank, name, names[1..])
  }

  /** Some step copies the file. */
  ghost predicate CopiedBy(world: World, rank: map<string, nat>, steps: seq<string>, m: string)
    requires Sound(world, rank) && forall k :: 0 <= k < |steps| ==> steps[k] in rank
  {
    exists k :: 0 <= k < |steps| && m in Copied(world, rank, steps[k])
  }

  lemma CopiedByConcat(world: World, rank: map<string, nat>, a: seq<string>, b: seq<string>, m: string)
    requires Sound(world, rank) && forall k :: 0 <= k < |a| ==> a[k] in rank
    requires forall k :: 0 <= k < |b| ==> b[k] in rank
    ensures forall k :: 0 <= k < |a + b| ==> (a + b)[k] in rank
    ensures CopiedBy(world, rank, a + b, m) <==> CopiedBy(world, rank, a, m) || CopiedBy(world, rank, b, m)
  {
    hide Copied, Sound;
    var s := a + b;
    if k :| 0 <= k < |s| && m in Copied(world, rank, s[k]) {
      if k < |a| {
        assert a[k] == s[k];
      } else {
        assert b[k - |a|] == s[k];
      }
    }
    if k :| 0 <= k < |a| && m in Copied(world, rank, a[k]) {
      assert s[k] == a[k];
    }
    if k :| 0 <= k < |b| && m in Copied(world, rank, b[k]) {
      assert s[|a| + k] == b[k];
    }
  }

  lemma {:induction false} CopiedNeedsBy(world: World, rank: map<string, nat>, name: string, names: seq<string>,
                                         m: string)
    requires Sound(world, rank) && name in rank
    requires forall d :: d in names && world.Reads(d) ==> d in rank && rank[d] < rank[name]
    ensures m in CopiedNeeds(world, rank, name, names)
       <==> CopiedBy(world, rank, RequiredSteps(world, rank, name, names), m)
  {
    hide Copied, CanEnable, Below;
    if names != [] {
      CopiedNeedsBy(world, rank, name, names[1..], m);
      assert names[..1] == [names[0]];
      if world.Reads(names[0]) {
        var rest := if CanEnable(world, rank, names[0]) then RequiredSteps(world, rank, name, names[1..]) else [];
        CopiedByConcat(world, rank, [names[0]], rest, m);
        assert CopiedBy(world, rank, [names[0]], m) <==> m in Copied(world, rank, [names[0]][0]);
      }
    }
  }

  lemma {:induction false} CopiedWantsBy(world: World, rank: map<string, nat>, name: string, names: seq<string>,
                                         m: string)
    requires Sound(world, rank) && name in rank && forall d :: d in names ==> d in rank && rank[d] < rank[name]
    ensures m in CopiedWants(world, rank, name, names) <==> CopiedBy(world, rank, names, m)
  {
    hide Copied, Below;
    if names != [] {
      CopiedWantsBy(world, rank, name, names[1..], m);
      Cons(names);
      CopiedByConcat(world, rank, [names[0]], names[1..], m);
      assert CopiedBy(world, rank, [names[0]], m) <==> m in Copied(world, rank, [names[0]][0]);
    }
  }

  lemma CopiedSteps(world: World, rank: map<string, nat>, name: string, m: string)
    requires Sound(world, rank) && name in rank
    ensures m in Copied(world, rank, name) <==>
              world.HasFile(name) && (m == name || CopiedBy(world, rank, Steps(world, rank, name), m))
  {
    if world.HasFile(name) {
      var unit := world.UnitOf(name);
      CopiedNeedsBy(world, rank, name, unit.needs, m);
      CopiedWantsBy(world, rank, name, unit.wants, m);
      var steps := RequiredSteps(world, rank, name, unit.needs);
      CopiedByConcat(world, rank, steps, if AllCan(world, rank, unit.needs) then unit.wants else [], m);
    }
  }

  /** A file is copied if and only if it is there and some chain leads to its unit. */
  lemma {:induction false} CopiedIff(world: World, rank: map<string, nat>, name: string, m: string)
    requires Sound(world, rank) && name in rank
    ensures m in Copied(world, rank, name) <==>
              world.HasFile(m) && exists chain :: Leads(world, rank, name, chain, m)
    decreases rank[name]
  {
    hide Copied, CanEnable, Below;
    var steps := Steps(world, rank, name);
    CopiedSteps(world, rank, name, m);
    forall k | 0 <= k < |steps|
      ensures m in Copied(world, rank, steps[k]) <==>
                world.HasFile(m) && exists chain :: Leads(world, rank, steps[k], chain, m)
    {
      CopiedIff(world, rank, steps[k], m);
    }
    hide Steps;
    if m in Copied(world, rank, name) {
      if m == name {
        assert Leads(world, rank, name, [], m);
      } else {
        var k :| 0 <= k < |steps| && m in Copied(world, rank, steps[k]);
        var chain :| Leads(world, rank, steps[k], chain, m);
        LeadsNext(world, rank, name, k, chain, m);
      }
    }
    if world.HasFile(m) {
      if chain :| Leads(world, rank, name, chain, m) {
        if chain != [] {
          assert Leads(world, rank, steps[chain[0]], chain[1..], m);
        }
      }
    }
  }
}
