/** The pool of units: look-ups that insert, the two passes that set up dependencies, and the
    registration of services. */
module UnitPool {
  import opened Seqs
  import opened Wrappers
  import opened StringOrder
  import opened Dependencies
  import opened Visiting
  import opened Enabling

  class Unit {
    const name: string
    const file: UnitFile
    var startDependencies: seq<Unit>
    var waitDependencies: seq<Unit>

    /** The new unit enters the pool only under a name that has no entry, not even a null one. */
    constructor (pool: SystemDUnitPool, name: string, file: UnitFile)
      modifies pool`units
      ensures this.name == name && this.file == file && startDependencies == [] && waitDependencies == []
      ensures pool.units == if name in old(pool.units) then old(pool.units) else old(pool.units)[name := this]
    {
      this.name, this.file, startDependencies, waitDependencies := name, file, [], [];
      new;
      if name !in pool.units {
        pool.units := pool.units[name := this];
      }
    }

    method AddStartDependency(dependency: Unit)
      modifies this`startDependencies
      ensures startDependencies == old(startDependencies) + [dependency]
    {
      startDependencies := startDependencies + [dependency];
    }

    method AddWaitDependency(dependency: Unit)
      modifies this`waitDependencies
      ensures waitDependencies == old(waitDependencies) + [dependency]
    {
      waitDependencies := waitDependencies + [dependency];
    }
  }

  // ---- what the passes add

  /** The loaded units among some names, in order. */
  ghost function Resolved(loaded: map<string, Unit>, names: seq<string>): (units: seq<Unit>) {
    if names == [] then []
    else Resolved(loaded, names[..|names| - 1])
         + if names[|names| - 1] in loaded then [loaded[names[|names| - 1]]] else []
  }

  /** One unit as often as it gives a name. */
  ghost function PerMention(unit: Unit, names: seq<string>, name: string): (units: seq<Unit>) {
    if names == [] then []
    else PerMention(unit, names[..|names| - 1], name) + if names[|names| - 1] == name then [unit] else []
  }

  /** The two relations that are stated from the other side. */
  datatype Side = Before | RequiredBy

  ghost function Stated(unit: Unit, side: Side): seq<string> {
    if side == Before then unit.file.before else unit.file.requiredBy
  }

  /** The loaded units that give a name, in the order of the pool. */
  ghost function Stating(loaded: map<string, Unit>, order: seq<string>, side: Side, name: string): (units: seq<Unit>)
    requires forall k :: k in order ==> k in loaded
  {
    if order == [] then []
    else
      var unit := loaded[order[|order| - 1]];
      Stating(loaded, order[..|order| - 1], side, name) + PerMention(unit, Stated(unit, side), name)
  }

  /** What setup_own_dependencies makes of the wait dependencies of a unit. */
  ghost function OwnWaits(loaded: map<string, Unit>, waits: map<string, seq<Unit>>, name: string): (units: seq<Unit>)
    requires name in loaded && name in waits
  {
    waits[name] + Resolved(loaded, loaded[name].file.after)
  }

  /** The same for the start dependencies. */
  ghost function OwnStarts(loaded: map<string, Unit>, starts: map<string, seq<Unit>>, name: string): (units: seq<Unit>)
    requires name in loaded && name in starts
  {
    starts[name] + Resolved(loaded, loaded[name].file.needs) + Resolved(loaded, loaded[name].file.wants)
  }

  lemma NoneResolved(loaded: map<string, Unit>)
    ensures Resolved(loaded, []) == []
  {
  }

  lemma ResolvedNext(loaded: map<string, Unit>, names: seq<string>, i: nat)
    requires i < |names|
    ensures Resolved(loaded, names[..i + 1])
         == Resolved(loaded, names[..i]) + if names[i] in loaded then [loaded[names[i]]] else []
  {
    TakeNext(names, i);
    assert names[..i + 1][..i] == names[..i];
  }

  lemma PerMentionNext(unit: Unit, names: seq<string>, i: nat, name: string)
    requires i < |names|
    ensures PerMention(unit, names[..i + 1], name)
         == PerMention(unit, names[..i], name) + if names[i] == name then [unit] else []
  {
    TakeNext(names, i);
    assert names[..i + 1][..i] == names[..i];
  }

  lemma StatingNext(loaded: map<string, Unit>, order: seq<string>, i: nat, side: Side, name: string)
    requires i < |order| && forall k :: k in order ==> k in loaded
    ensures Stating(loaded, order[..i + 1], side, name)
         == Stating(loaded, order[..i], side, name) + PerMention(loaded[order[i]], Stated(loaded[order[i]], side), name)
  {
    TakeNext(order, i);
    assert order[..i + 1][..i] == order[..i];
  }

  // ---- what the lists hold, in any order

  lemma {:induction false} ResolvedCount(loaded: map<string, Unit>, names: seq<string>, v: Unit)
    requires forall k :: k in loaded ==> loaded[k].name == k
    requires v.name in loaded && loaded[v.name] == v
    ensures multiset(Resolved(loaded, names))[v] == multiset(names)[v.name]
  {
    if names != [] {
      var init, last := names[..|names| - 1], names[|names| - 1];
      Snoc(names);
      ResolvedCount(loaded, init, v);
      assert multiset(init + [last]) == multiset(init) + multiset{last};
    }
  }

  lemma {:induction false} PerMentionCount(unit: Unit, names: seq<string>, name: string, v: Unit)
    ensures multiset(PerMention(unit, names, name))[v] == if v == unit then multiset(names)[name] else 0
  {
    if names != [] {
      var init, last := names[..|names| - 1], names[|names| - 1];
      Snoc(names);
      PerMentionCount(unit, init, name, v);
      assert multiset(init + [last]) == multiset(init) + multiset{last};
    }
  }

  lemma {:induction false} StatingCount(loaded: map<string, Unit>, order: seq<string>, side: Side, name: string,
                                        v: Unit)
    requires (forall k :: k in loaded ==> loaded[k].name == k) && forall k :: k in order ==> k in loaded
    requires v.name in loaded && loaded[v.name] == v && NoDuplicates(order)
    ensures multiset(Stating(loaded, order, side, name))[v]
         == if v.name in order then multiset(Stated(v, side))[name] else 0
  {
    if order != [] {
      var init, last := order[..|order| - 1], order[|order| - 1];
      Snoc(order);
      NoDuplicatesConcat(init, [last]);
      StatingCount(loaded, init, side, name, v);
      var unit := loaded[last];
      PerMentionCount(unit, Stated(unit, side), name, v);
      hide Stated, NoDuplicates, PerMention;
      assert v == unit <==> v.name == last;
    }
  }

  /** How often LoadPool makes one unit a dependency of another: as often as that one names it in its
      own relation, plus as often as it names that one in the relation from the other side. */
  lemma EdgesCount(loaded: map<string, Unit>, order: seq<string>, waits: map<string, seq<Unit>>,
                   starts: map<string, seq<Unit>>,
                   name: string, v: Unit)
    requires (forall k :: k in loaded ==> loaded[k].name == k) && Lists(order, loaded.Keys)
    requires name in loaded && name in waits && name in starts && v.name in loaded && loaded[v.name] == v
    ensures var file := loaded[name].file;
            && multiset(OwnWaits(loaded, waits, name) + Stating(loaded, order, Before, name))[v]
               == multiset(waits[name])[v] + multiset(file.after)[v.name] + multiset(v.file.before)[name]
            && multiset(OwnStarts(loaded, starts, name) + Stating(loaded, order, RequiredBy, name))[v]
               == multiset(starts[name])[v] + multiset(file.needs)[v.name] + multiset(file.wants)[v.name]
                  + multiset(v.file.requiredBy)[name]
  {
    SortedDistinct(order);
    hide Sorted;
    var file := loaded[name].file;
    ResolvedCount(loaded, file.after, v);
    ResolvedCount(loaded, file.needs, v);
    ResolvedCount(loaded, file.wants, v);
    StatingCount(loaded, order, Before, name, v);
    StatingCount(loaded, order, RequiredBy, name, v);
  }

  // ---- the order of the lists

  /** Those of some names that are keys, in order. */
  function Among(names: seq<string>, keys: set<string>): (kept: seq<string>) {
    if names == [] then [] else (if names[0] in keys then [names[0]] else []) + Among(names[1..], keys)
  }

  lemma {:induction false} AmongSnoc(names: seq<string>, last: string, keys: set<string>)
    ensures Among(names + [last], keys) == Among(names, keys) + if last in keys then [last] else []
  {
    if names == [] {
      WithEmpty([last]);
      assert [last][1..] == [];
    } else {
      TailOfAppend(names, [last]);
      AmongSnoc(names[1..], last, keys);
    }
  }

  /** A relation of a unit's own adds the loaded units that it names, in its order. */
  lemma {:induction false} ResolvedInOrder(loaded: map<string, Unit>, names: seq<string>)
    requires forall k :: k in loaded ==> loaded[k].name == k
    ensures var units := Resolved(loaded, names);
            && |units| == |Among(names, loaded.Keys)|
            && forall i :: 0 <= i < |units| ==> units[i].name == Among(names, loaded.Keys)[i]
    decreases |names|
  {
    if names != [] {
      var init, last := names[..|names| - 1], names[|names| - 1];
      ResolvedInOrder(loaded, init);
      Snoc(names);
      AmongSnoc(init, last, loaded.Keys);
    }
  }

  lemma {:induction false} NamesConcat(a: seq<Unit>, b: seq<Unit>)
    ensures UnitNames(a + b) == UnitNames(a) + UnitNames(b)
    decreases |b|
  {
    if b == [] {
      WithEmpty(a);
      WithEmpty(UnitNames(a));
    } else {
      var init, last := b[..|b| - 1], b[|b| - 1];
      Snoc(b);
      Assoc(a, init, [last]);
      CutAppend(a + init, [last]);
      NamesConcat(a, init);
      Assoc(UnitNames(a), UnitNames(init), [last.name]);
    }
  }

  lemma ResolvedNames(loaded: map<string, Unit>, names: seq<string>)
    requires forall k :: k in loaded ==> loaded[k].name == k
    ensures UnitNames(Resolved(loaded, names)) == Among(names, loaded.Keys)
  {
    ResolvedInOrder(loaded, names);
    NamesAt(Resolved(loaded, names));
  }

  /** By name: a unit waits for the loaded units that it is After, and starts those that it Requires and
      then those that it Wants, behind what was there before. */
  lemma OwnNames(loaded: map<string, Unit>, waits: map<string, seq<Unit>>, starts: map<string, seq<Unit>>, name: string)
    requires forall k :: k in loaded ==> loaded[k].name == k
    requires name in loaded && name in waits && name in starts
    ensures var file, keys := loaded[name].file, loaded.Keys;
            && UnitNames(OwnWaits(loaded, waits, name)) == UnitNames(waits[name]) + Among(file.after, keys)
            && UnitNames(OwnStarts(loaded, starts, name))
               == UnitNames(starts[name]) + Among(file.needs, keys) + Among(file.wants, keys)
  {
    var file := loaded[name].file;
    ResolvedNames(loaded, file.after);
    ResolvedNames(loaded, file.needs);
    ResolvedNames(loaded, file.wants);
    NamesConcat(waits[name], Resolved(loaded, file.after));
    NamesConcat(starts[name], Resolved(loaded, file.needs));
    NamesConcat(starts[name] + Resolved(loaded, file.needs), Resolved(loaded, file.wants));
  }

  lemma {:induction false} PerMentionOnly(unit: Unit, names: seq<string>, name: string)
    ensures forall i :: 0 <= i < |PerMention(unit, names, name)| ==> PerMention(unit, names, name)[i] == unit
  {
    if names != [] {
      PerMentionOnly(unit, names[..|names| - 1], name);
    }
  }

  /** The relations from the other side add units in the order of the pool. */
  lemma {:induction false} StatingInOrder(loaded: map<string, Unit>, order: seq<string>, side: Side, name: string)
    requires (forall k :: k in loaded ==> loaded[k].name == k) && (forall k :: k in order ==> k in loaded)
    requires Sorted(order)
    ensures Ordered(Stating(loaded, order, side, name), order)
    decreases |order|
  {
    hide Less, Ordered, Stated;
    assert Ordered([], []) by {
      NoneInOrder();
    }
    if order != [] {
      var init, last := order[..|order| - 1], order[|order| - 1];
      StatingInOrder(loaded, init, side, name);
      var more := PerMention(loaded[last], Stated(loaded[last], side), name);
      PerMentionOnly(loaded[last], Stated(loaded[last], side), name);
      forall k | k in init ensures Less(k, last) && k in order {
        var i :| 0 <= i < |init| && init[i] == k;
        assert order[i] == k && order[|order| - 1] == last;
      }
      InOrderAppend(Stating(loaded, init, side, name), more, init, last);
      Snoc(order);
    }
  }

  /** The units stand in the order of their names, which are among these. */
  ghost predicate Ordered(units: seq<Unit>, names: seq<string>) {
    && (forall i :: 0 <= i < |units| ==> units[i].name in names)
    && forall i, j :: 0 <= i < j < |units| ==> units[i].name == units[j].name || Less(units[i].name, units[j].name)
  }

  lemma NoneInOrder()
    ensures Ordered([], [])
  {
  }

  lemma InOrderAppend(units: seq<Unit>, more: seq<Unit>, names: seq<string>, last: string)
    requires Ordered(units, names) && (forall k :: k in names ==> Less(k, last))
    requires forall i :: 0 <= i < |more| ==> more[i].name == last
    ensures Ordered(units + more, names + [last])
  {
    hide Less;
  }

  // ---- the traversal

  predicate Beyond(cursor: Option<string>, k: string) {
    cursor.None? || Less(cursor.value, k)
  }

  predicate UpTo(cursor: Option<string>, k: string) {
    cursor.Some? && (k == cursor.value || Less(k, cursor.value))
  }

  /** The keys that an iterator has still before it. */
  function Ahead(keys: set<string>, cursor: Option<string>): set<string> {
    set k | k in keys && Beyond(cursor, k)
  }

  /** How far the traversal is in the list of loaded units. */
  ghost predicate Passed(order: seq<string>, i: nat, cursor: Option<string>) {
    && i <= |order|
    && (forall j :: 0 <= j < i ==> UpTo(cursor, order[j]))
    && forall j :: i <= j < |order| ==> Beyond(cursor, order[j])
  }

  /** The next key is the next loaded unit or one without unit. */
  lemma PassedNext(order: seq<string>, i: nat, cursor: Option<string>, loaded: set<string>, keys: set<string>,
                   k: string)
    requires Lists(order, loaded) && Passed(order, i, cursor) && loaded <= keys
    requires IsLeast(k, Ahead(keys, cursor))
    ensures k in loaded ==> i < |order| && order[i] == k && Passed(order, i + 1, Some(k))
    ensures k !in loaded ==> Passed(order, i, Some(k))
  {
    hide Less;
    forall j | 0 <= j < i ensures Less(order[j], k) {
      assert UpTo(cursor, order[j]);
      if order[j] != cursor.value {
        Transitive(order[j], cursor.value, k);
      }
    }
    forall j | i <= j < |order| ensures order[j] == k || Less(k, order[j]) {
      assert order[j] in order;
      assert order[j] in Ahead(keys, cursor);
    }
    if k in order {
      var j :| 0 <= j < |order| && order[j] == k;
      Irreflexive(k);
      if i < j {
        Asymmetric(order[i], k);
      }
      forall n | i < n < |order| ensures Less(k, order[n]) {
        assert Less(order[i], order[n]);
      }
    }
  }

  lemma PassedAll(order: seq<string>, i: nat, cursor: Option<string>, loaded: set<string>, keys: set<string>)
    requires Lists(order, loaded) && Passed(order, i, cursor) && loaded <= keys
    ensures i < |order| ==> order[i] in Ahead(keys, cursor)
    ensures i <= |order|
  {
  }

  lemma PassedStart(order: seq<string>)
    ensures Passed(order, 0, None)
  {
  }

  lemma AheadShrinks(keys: set<string>, universe: set<string>, cursor: Option<string>, k: string)
    requires IsLeast(k, Ahead(keys, cursor)) && keys <= universe
    ensures Ahead(universe, Some(k)) < Ahead(universe, cursor)
  {
    Irreflexive(k);
    forall n | n in Ahead(universe, Some(k)) ensures n in Ahead(universe, cursor) {
      if cursor.Some? {
        Transitive(cursor.value, k, n);
      }
    }
    assert k !in Ahead(universe, Some(k));
  }

  // ---- the pool

  /** What RegisterService hands to the service manager: the service and the names it depends on. */
  datatype Registration = Registration(name: string, dependencies: seq<string>)

  function UnitNames(units: seq<Unit>): (names: seq<string>)
    ensures |names| == |units|
  {
    if units == [] then [] else UnitNames(units[..|units| - 1]) + [units[|units| - 1].name]
  }

  /** All names that a unit file mentions. */
  ghost function Mentions(file: UnitFile): seq<string> {
    file.after + file.needs + file.wants + file.before + file.requiredBy
  }

  /** No name that a loaded unit mentions lies outside these. */
  ghost predicate Closed(loaded: map<string, Unit>, universe: set<string>) {
    forall k, n :: k in loaded && n in Mentions(loaded[k].file) ==> n in universe
  }

  lemma MentionedIn(loaded: map<string, Unit>, universe: set<string>, name: string)
    requires Closed(loaded, universe) && name in loaded
    ensures var file := loaded[name].file;
            && (forall n :: n in file.after ==> n in universe) && (forall n :: n in file.needs ==> n in universe)
            && (forall n :: n in file.wants ==> n in universe) && (forall n :: n in file.before ==> n in universe)
            && (forall n :: n in file.requiredBy ==> n in universe)
  {
    forall n ensures n in Mentions(loaded[name].file) <==>
                     n in loaded[name].file.after || n in loaded[name].file.needs || n in loaded[name].file.wants
                     || n in loaded[name].file.before || n in loaded[name].file.requiredBy {
    }
  }

  class SystemDUnitPool {
    var units: map<string, Unit?>
    var registrations: seq<Registration>    // what the service manager was handed
    var registered: set<string>             // the services that it has
    const refused: set<string>              // names that it does not accept
    var active: set<string>                 // unit files in the active directory
    const library: map<string, UnitFile>    // unit files in the library

    ghost predicate Valid()
      reads this`units
    {
      forall k :: k in units && units[k] != null ==> units[k].name == k
    }

    /** The entries that hold a unit. */
    ghost function Loaded(): map<string, Unit>
      reads this`units
    {
      map k | k in units && units[k] != null :: units[k]
    }

    ghost function LoadedUnits(): set<Unit>
      reads this`units
    {
      set k | k in Loaded() :: Loaded()[k]
    }

    ghost function Waits(): map<string, seq<Unit>>
      reads this`units, LoadedUnits()
    {
      map k | k in Loaded() :: Loaded()[k].waitDependencies
    }

    ghost function Starts(): map<string, seq<Unit>>
      reads this`units, LoadedUnits()
    {
      map k | k in Loaded() :: Loaded()[k].startDependencies
    }

    /** operator[] of the map, also FindUnit: an unknown name gets a null entry. */
    method FindUnit(name: string) returns (unit: Unit?)
      requires Valid()
      modifies this`units
      ensures units == if name in old(units) then old(units) else old(units)[name := null]
      ensures unit == units[name]
      ensures Same() && Snap() == old(Snap())
      ensures unit != null <==> name in Loaded()
      ensures unit != null ==> Loaded()[name] == unit && unit in LoadedUnits() && unit.name == name
    {
      if name !in units {
        units := units[name := null];
      }
      unit := units[name];
    }

    /** Nothing but null entries is new. */
    twostate predicate Same()
      reads this`units, LoadedUnits()
    {
      && Valid() && Loaded() == old(Loaded()) && LoadedUnits() == old(LoadedUnits())
      && Waits() == old(Waits()) && Starts() == old(Starts())
    }

    /** AddWaitDependency, seen from the pool. */
    method AddWait(unit: Unit, dependency: Unit)
      requires Valid() && unit in LoadedUnits()
      modifies unit`waitDependencies
      ensures unit.name in Loaded() && Starts() == old(Starts())
      ensures Waits() == old(Waits())[unit.name := old(Waits())[unit.name] + [dependency]]
    {
      assert Loaded()[unit.name] == unit;
      unit.AddWaitDependency(dependency);
    }

    /** AddStartDependency, seen from the pool. */
    method AddStart(unit: Unit, dependency: Unit)
      requires Valid() && unit in LoadedUnits()
      modifies unit`startDependencies
      ensures unit.name in Loaded() && Waits() == old(Waits())
      ensures Starts() == old(Starts())[unit.name := old(Starts())[unit.name] + [dependency]]
    {
      assert Loaded()[unit.name] == unit;
      unit.AddStartDependency(dependency);
    }

    lemma LoadedUnit(unit: Unit)
      requires Valid() && unit in LoadedUnits()
      ensures unit.name in Loaded() && Loaded()[unit.name] == unit && unit.name in Waits() && unit.name in Starts()
    {
    }

    /** A loop of setup_own_dependencies: the loaded units among the names become wait dependencies. */
    method AddWaits(unit: Unit, names: seq<string>, ghost universe: set<string>)
      requires Valid() && units.Keys <= universe && unit in LoadedUnits()
      requires forall n :: n in names ==> n in universe
      modifies this`units, unit`waitDependencies
      ensures Valid() && units.Keys <= universe && Loaded() == old(Loaded())
      ensures LoadedUnits() == old(LoadedUnits()) && unit.name in Loaded()
      ensures Starts() == old(Starts())
      ensures Waits() == old(Waits())[unit.name := old(Waits())[unit.name] + Resolved(Loaded(), names)]
    {
      hide Valid, Loaded, LoadedUnits, Waits, Starts, Resolved;
      LoadedUnit(unit);
      ghost var loaded, all, waits, name := Loaded(), LoadedUnits(), Waits(), unit.name;
      NoneResolved(loaded);
      WithEmpty(waits[name]);
      for i := 0 to |names|
        invariant Valid() && units.Keys <= universe && Loaded() == loaded && LoadedUnits() == all
        invariant Starts() == old(Starts())
        invariant Waits() == waits[name := waits[name] + Resolved(loaded, names[..i])]
      {
        ResolvedNext(loaded, names, i);
        var other := FindUnit(names[i]);
        if other != null {
          Assoc(waits[name], Resolved(loaded, names[..i]), [other]);
          AddWait(unit, other);
        } else {
          WithEmpty(Resolved(loaded, names[..i]));
        }
      }
      assert names[..|names|] == names;
    }

    method AddStarts(unit: Unit, names: seq<string>, ghost universe: set<string>)
      requires Valid() && units.Keys <= universe && unit in LoadedUnits()
      requires forall n :: n in names ==> n in universe
      modifies this`units, unit`startDependencies
      ensures Valid() && units.Keys <= universe && Loaded() == old(Loaded())
      ensures LoadedUnits() == old(LoadedUnits()) && unit.name in Loaded()
      ensures Waits() == old(Waits())
      ensures Starts() == old(Starts())[unit.name := old(Starts())[unit.name] + Resolved(Loaded(), names)]
    {
      hide Valid, Loaded, LoadedUnits, Waits, Starts, Resolved;
      LoadedUnit(unit);
      ghost var loaded, all, starts, name := Loaded(), LoadedUnits(), Starts(), unit.name;
      NoneResolved(loaded);
      WithEmpty(starts[name]);
      for i := 0 to |names|
        invariant Valid() && units.Keys <= universe && Loaded() == loaded && LoadedUnits() == all
        invariant Waits() == old(Waits())
        invariant Starts() == starts[name := starts[name] + Resolved(loaded, names[..i])]
      {
        ResolvedNext(loaded, names, i);
        var other := FindUnit(names[i]);
        if other != null {
          Assoc(starts[name], Resolved(loaded, names[..i]), [other]);
          AddStart(unit, other);
        } else {
          WithEmpty(Resolved(loaded, names[..i]));
        }
      }
      assert names[..|names|] == names;
    }

    /** A loop of setup_other_dependencies: the unit becomes a wait dependency of those it names. */
    method GiveWaits(unit: Unit, names: seq<string>, ghost universe: set<string>)
      requires Valid() && units.Keys <= universe && forall n :: n in names ==> n in universe
      modifies this`units, LoadedUnits()
      ensures Valid() && units.Keys <= universe && Loaded() == old(Loaded())
      ensures LoadedUnits() == old(LoadedUnits()) && Starts() == old(Starts())
      ensures Waits().Keys == old(Waits()).Keys
      ensures forall k :: k in Waits() ==> Waits()[k] == old(Waits())[k] + PerMention(unit, names, k)
    {
      assert Waits().Keys == Loaded().Keys;
      hide Valid, Loaded, LoadedUnits, Waits, Starts, PerMention;
      ghost var all, waits := LoadedUnits(), Waits();
      NoMention(unit, waits);
      for i := 0 to |names|
        invariant Valid() && units.Keys <= universe && Loaded() == old(Loaded()) && LoadedUnits() == all
        invariant Starts() == old(Starts()) && Waits().Keys == waits.Keys
        invariant forall k :: k in waits ==> Waits()[k] == waits[k] + PerMention(unit, names[..i], k)
      {
        ghost var now := Waits();
        var other := FindUnit(names[i]);
        if other != null {
          AddWait(other, unit);
        }
        MentionsGiven(unit, names, i, waits, now, Waits());
      }
      assert names[..|names|] == names;
    }

    method GiveStarts(unit: Unit, names: seq<string>, ghost universe: set<string>)
      requires Valid() && units.Keys <= universe && forall n :: n in names ==> n in universe
      modifies this`units, LoadedUnits()
      ensures Valid() && units.Keys <= universe && Loaded() == old(Loaded())
      ensures LoadedUnits() == old(LoadedUnits()) && Waits() == old(Waits())
      ensures Starts().Keys == old(Starts()).Keys
      ensures forall k :: k in Starts() ==> Starts()[k] == old(Starts())[k] + PerMention(unit, names, k)
    {
      assert Starts().Keys == Loaded().Keys;
      hide Valid, Loaded, LoadedUnits, Waits, Starts, PerMention;
      ghost var all, starts := LoadedUnits(), Starts();
      NoMention(unit, starts);
      for i := 0 to |names|
        invariant Valid() && units.Keys <= universe && Loaded() == old(Loaded()) && LoadedUnits() == all
        invariant Waits() == old(Waits()) && Starts().Keys == starts.Keys
        invariant forall k :: k in starts ==> Starts()[k] == starts[k] + PerMention(unit, names[..i], k)
      {
        ghost var now := Starts();
        var other := FindUnit(names[i]);
        if other != null {
          AddStart(other, unit);
        }
        MentionsGiven(unit, names, i, starts, now, Starts());
      }
      assert names[..|names|] == names;
    }

    /** setup_own_dependencies */
    method SetupOwnDependencies(unit: Unit, ghost universe: set<string>)
      requires Valid() && units.Keys <= universe && Closed(Loaded(), universe) && unit in LoadedUnits()
      modifies this`units, unit
      ensures Valid() && units.Keys <= universe && Loaded() == old(Loaded())
      ensures LoadedUnits() == old(LoadedUnits()) && unit.name in Loaded()
      ensures Waits() == old(Waits())[unit.name := OwnWaits(Loaded(), old(Waits()), unit.name)]
      ensures Starts() == old(Starts())[unit.name := OwnStarts(Loaded(), old(Starts()), unit.name)]
    {
      assert Loaded()[unit.name] == unit;
      MentionedIn(Loaded(), universe, unit.name);
      AddWaits(unit, unit.file.after, universe);
      AddStarts(unit, unit.file.needs, universe);
      AddStarts(unit, unit.file.wants, universe);
    }

    /** setup_other_dependencies */
    method SetupOtherDependencies(unit: Unit, ghost universe: set<string>)
      requires Valid() && units.Keys <= universe && Closed(Loaded(), universe) && unit in LoadedUnits()
      modifies this`units, LoadedUnits()
      ensures Valid() && units.Keys <= universe && Loaded() == old(Loaded()) && LoadedUnits() == old(LoadedUnits())
      ensures Waits().Keys == old(Waits()).Keys && Starts().Keys == old(Starts()).Keys
      ensures forall k :: k in Waits() ==> Waits()[k] == old(Waits())[k] + PerMention(unit, Stated(unit, Before), k)
      ensures forall k :: k in Starts() ==>
                Starts()[k] == old(Starts())[k] + PerMention(unit, Stated(unit, RequiredBy), k)
    {
      assert Loaded()[unit.name] == unit;
      MentionedIn(Loaded(), universe, unit.name);
      GiveWaits(unit, unit.file.before, universe);
      GiveStarts(unit, unit.file.requiredBy, universe);
    }

    /** The increment of an iterator: the least key that it has not passed. */
    method NextKey(cursor: Option<string>) returns (key: string)
      requires Valid() && Ahead(units.Keys, cursor) != {}
      ensures Same() && IsLeast(key, Ahead(units.Keys, cursor)) && key in units
      ensures Loaded().Keys <= units.Keys && (key in Loaded() <==> units[key] != null)
      ensures units[key] != null ==>
                Loaded()[key] == units[key] && units[key] in LoadedUnits() && units[key].name == key
      ensures key in Loaded() ==> key in Starts() && Starts()[key] == Loaded()[key].startDependencies
    {
      LoadedFacts();
      key := First(Ahead(units.Keys, cursor));
    }

    lemma LoadedFacts()
      requires Valid()
      ensures Loaded().Keys <= units.Keys && Waits().Keys == Loaded().Keys == Starts().Keys
      ensures forall k :: k in units ==>
                if units[k] == null then k !in Loaded() else k in Loaded() && Loaded()[k] == units[k]
      ensures forall k :: k in Loaded() ==> Loaded()[k] in LoadedUnits() && Loaded()[k].name == k
      ensures forall k :: k in Loaded() ==> Starts()[k] == Loaded()[k].startDependencies
    {
    }

    /** The first pass, over a map that grows under the iterator. */
    method SetupOwnPass(ghost order: seq<string>, ghost universe: set<string>)
      requires Valid() && units.Keys <= universe && Closed(Loaded(), universe) && Lists(order, Loaded().Keys)
      modifies this`units, LoadedUnits()
      ensures Valid() && units.Keys <= universe && Loaded() == old(Loaded()) && LoadedUnits() == old(LoadedUnits())
      ensures OwnDone(Loaded(), order, |order|, old(Waits()), old(Starts()), Waits(), Starts())
    {
      hide Valid, Loaded, LoadedUnits, Waits, Starts, Closed, Lists, Less, Ahead, OwnDone, Passed, OwnWaits, OwnStarts;
      ghost var loaded, all, waits, starts, i := Loaded(), LoadedUnits(), Waits(), Starts(), 0;
      LoadedFacts();
      NoneOwn(loaded, order, waits, starts);
      var cursor := None;
      PassedStart(order);
      while Ahead(units.Keys, cursor) != {}
        invariant Valid() && units.Keys <= universe && Loaded() == loaded && LoadedUnits() == all
        invariant i <= |order| && Passed(order, i, cursor)
        invariant OwnDone(loaded, order, i, waits, starts, Waits(), Starts())
        decreases Ahead(universe, cursor)
      {
        var key := NextKey(cursor);
        PassedNext(order, i, cursor, loaded.Keys, units.Keys, key);
        AheadShrinks(units.Keys, universe, cursor, key);
        var unit := units[key];
        if unit != null {
          NextOwn(loaded, order, i, waits, starts, Waits(), Starts());
          SetupOwnDependencies(unit, universe);
          i := i + 1;
        }
        cursor := Some(key);
      }
      LoadedFacts();
      PassedAll(order, i, cursor, loaded.Keys, units.Keys);
    }

    /** The second pass. */
    method SetupOtherPass(ghost order: seq<string>, ghost universe: set<string>)
      requires Valid() && units.Keys <= universe && Closed(Loaded(), universe) && Lists(order, Loaded().Keys)
      modifies this`units, LoadedUnits()
      ensures Valid() && units.Keys <= universe && Loaded() == old(Loaded()) && LoadedUnits() == old(LoadedUnits())
      ensures OtherDone(Loaded(), order, |order|, old(Waits()), old(Starts()), Waits(), Starts())
    {
      hide Valid, Loaded, LoadedUnits, Waits, Starts, Closed, Lists, Less, Ahead, OtherDone, Passed;
      ghost var loaded, all, waits, starts, i := Loaded(), LoadedUnits(), Waits(), Starts(), 0;
      LoadedFacts();
      NoneOther(loaded, order, waits, starts);
      var cursor := None;
      PassedStart(order);
      while Ahead(units.Keys, cursor) != {}
        invariant Valid() && units.Keys <= universe && Loaded() == loaded && LoadedUnits() == all
        invariant i <= |order| && Passed(order, i, cursor)
        invariant OtherDone(loaded, order, i, waits, starts, Waits(), Starts())
        decreases Ahead(universe, cursor)
      {
        var key := NextKey(cursor);
        PassedNext(order, i, cursor, loaded.Keys, units.Keys, key);
        AheadShrinks(units.Keys, universe, cursor, key);
        var unit := units[key];
        if unit != null {
          ghost var nowWaits, nowStarts := Waits(), Starts();
          SetupOtherDependencies(unit, universe);
          NextOther(loaded, order, i, waits, starts, nowWaits, nowStarts, Waits(), Starts());
          i := i + 1;
        }
        cursor := Some(key);
      }
      LoadedFacts();
      PassedAll(order, i, cursor, loaded.Keys, units.Keys);
    }

    /** RegisterService, as far as the pool goes: the service manager is told the service's name and
        the names of its start dependencies. */
    method RegisterService(unit: Unit)
      requires Valid()
      modifies this`registrations, this`registered
      ensures Same()
      ensures registrations == old(registrations) + [Registration(unit.name, UnitNames(unit.startDependencies))]
      ensures registered == After(refused, old(registered), [unit.name])
    {
      var starts, dependencies := unit.startDependencies, [];
      for i := 0 to |starts|
        invariant dependencies == UnitNames(starts[..i])
        invariant registrations == old(registrations) && registered == old(registered)
      {
        TakeNext(starts, i);
        assert starts[..i + 1][..i] == starts[..i];
        dependencies := dependencies + [starts[i].name];
      }
      assert starts[..|starts|] == starts;
      registrations := registrations + [Registration(unit.name, dependencies)];
      if unit.name !in refused {
        registered := registered + {unit.name};
      }
    }

    /** The service manager has the unit's service. */
    predicate IsEnabled(unit: Unit)
      reads this`registered
    {
      unit.name in registered
    }

    /** query_register_unit over the pool, the third pass of LoadPool: every loaded unit whose service is
        not registered, in order. */
    method RegisterPass(ghost order: seq<string>)
      requires Valid() && Lists(order, Loaded().Keys)
      modifies this`registrations, this`registered
      ensures Same()
      ensures registrations == old(registrations) + Registered(Starts(), order, old(registered))
      ensures registered == After(refused, old(registered), order)
    {
      hide Valid, Loaded, LoadedUnits, Waits, Starts, Lists, Less, Ahead, Passed, Registered, UnitNames, After;
      ghost var loaded, starts, before, i := Loaded(), Starts(), registered, 0;
      var cursor := None;
      LoadedFacts();
      PassedStart(order);
      WithEmpty(registrations);
      assert order[..0] == [];
      NoneRegistered(starts, before);
      AfterNothing(refused, before);
      while Ahead(units.Keys, cursor) != {}
        invariant Same() && Loaded() == loaded && Starts() == starts
        invariant i <= |order| && Passed(order, i, cursor)
        invariant registrations == old(registrations) + Registered(starts, order[..i], before)
        invariant registered == After(refused, before, order[..i])
        decreases Ahead(units.Keys, cursor)
      {
        var key := NextKey(cursor);
        PassedNext(order, i, cursor, loaded.Keys, units.Keys, key);
        AheadShrinks(units.Keys, units.Keys, cursor, key);
        var unit := units[key];
        if unit != null {
          NextRegistered(starts, order, i, before);
          NextAfter(loaded.Keys, order, i, before, refused);
          if !IsEnabled(unit) {
            Assoc(old(registrations), Registered(starts, order[..i], before),
                  [Registration(key, UnitNames(starts[key]))]);
            RegisterService(unit);
          } else {
            WithEmpty(Registered(starts, order[..i], before));
          }
          i := i + 1;
        }
        cursor := Some(key);
      }
      PassedAll(order, i, cursor, loaded.Keys, units.Keys);
      assert order[..|order|] == order;
    }

    /** The dependencies that LoadPool sets up. */
    ghost predicate SetUp(order: seq<string>, waits: map<string, seq<Unit>>, starts: map<string, seq<Unit>>)
      reads this`units, LoadedUnits()
    {
      && Lists(order, Loaded().Keys) && waits.Keys == Loaded().Keys == starts.Keys
      && (forall k :: k in Loaded() ==>
            Waits()[k] == OwnWaits(Loaded(), waits, k) + Stating(Loaded(), order, Before, k))
      && forall k :: k in Loaded() ==>
           Starts()[k] == OwnStarts(Loaded(), starts, k) + Stating(Loaded(), order, RequiredBy, k)
    }

    /** LoadPool after the unit files have been read. Its listing of the pool dereferences every
        entry, so there are no null entries yet; the look-ups add some, and no unit goes away. */
    method LoadPool() returns (ghost order: seq<string>)
      requires Valid() && forall k :: k in units ==> units[k] != null
      modifies this`units, this`registrations, this`registered, LoadedUnits()
      ensures Valid() && Loaded() == old(Loaded()) && LoadedUnits() == old(LoadedUnits())
      ensures SetUp(order, old(Waits()), old(Starts()))
      ensures registrations == old(registrations) + Registered(Starts(), order, old(registered))
      ensures registered == After(refused, old(registered), order)
    {
      hide Lists, Less, OwnDone, OtherDone, OwnWaits, OwnStarts, Stating, Registered, Mentions, Closed;
      hide Valid, Loaded, LoadedUnits, Waits, Starts;
      ghost var loaded, waits, starts := Loaded(), Waits(), Starts();
      order := ListOf(loaded.Keys);
      ghost var universe := AllNames(loaded, units.Keys);
      SetupOwnPass(order, universe);
      ghost var ownWaits, ownStarts := Waits(), Starts();
      SetupOtherPass(order, universe);
      SetUpIs(loaded, order, waits, starts, ownWaits, ownStarts, Waits(), Starts());
      RegisterPass(order);
    }

    // ---- enabling

    ghost function Worldly(): World
      reads this`units, this`active
    {
      World(map k | k in Loaded() :: Loaded()[k].file, library, active + library.Keys, refused)
    }

    ghost function Snap(): Snapshot
      reads this, LoadedUnits()
    {
      Snapshot(Loaded(), Worldly(), registrations, registered, Starts())
    }

    /** CopyUnitFileToActive */
    method CopyUnitFileToActive(name: string) returns (ok: bool)
      requires Valid()
      modifies this`active
      ensures ok <==> name in old(active) || name in library
      ensures active == if ok then old(active) + {name} else old(active)
      ensures ok <==> Worldly().HasFile(name)
      ensures Snap() == old(Snap()) && LoadedUnits() == old(LoadedUnits())
    {
      if name !in active {
        if name !in library {
          return false;
        }
        active := active + {name};
      }
      return true;
    }

    /** ReadServiceUnit, for a name that has been looked up: the new unit stays out of the pool,
        because its name has an entry already. */
    method ReadServiceUnit(name: string) returns (unit: Unit?)
      requires Valid() && name in units
      modifies this`units
      ensures units == old(units)
      ensures unit == null <==> name !in library
      ensures unit != null ==> fresh(unit) && unit.name == name && unit.file == library[name]
      ensures unit != null ==> unit.startDependencies == [] && unit !in LoadedUnits()
      ensures Snap() == old(Snap()) && LoadedUnits() == old(LoadedUnits())
    {
      if name in library {
        unit := new Unit(this, name, library[name]);
      } else {
        unit := null;
      }
    }

    /** The unit of a name: the one in the pool, or a new one read from the library. */
    ghost predicate Belongs(unit: Unit)
      reads this`units, this`active
    {
      && Worldly().Known(unit.name) && unit.file == Worldly().UnitOf(unit.name)
      && if unit.name in Loaded() then Loaded()[unit.name] == unit else unit !in LoadedUnits()
    }

    /** AddStartDependency, while enabling. */
    method AddEnabled(unit: Unit, dependency: Unit, ghost rank: map<string, nat>)
      requires Valid() && Belongs(unit) && unit.name in rank
      modifies unit`startDependencies
      ensures Valid() && LoadedUnits() == old(LoadedUnits()) && Worldly() == old(Worldly()) && Belongs(unit)
      ensures Extends(old(Snap()), Snap(), rank, rank[unit.name] + 1, [])
      ensures UnitNames(unit.startDependencies) == UnitNames(old(unit.startDependencies)) + [dependency.name]
    {
      hide Announces;
      unit.AddStartDependency(dependency);
      var starts := unit.startDependencies;
      assert starts[..|starts| - 1] == old(unit.startDependencies);
      assert forall k :: k in Loaded() && (k !in rank || rank[k] >= rank[unit.name] + 1) ==> Loaded()[k] != unit;
    }

    /** One turn of the loop over the required units. */
    method EnableRequired(unit: Unit, name: string, ghost rank: map<string, nat>) returns (ok: bool)
      requires Valid() && Sound(Worldly(), rank) && Belongs(unit) && unit.name in rank
      requires Worldly().Reads(name) ==> name in rank && rank[name] < rank[unit.name]
      modifies this`units, this`active, this`registrations, this`registered,
               LoadedUnits()`startDependencies, unit`startDependencies
      ensures Valid() && LoadedUnits() == old(LoadedUnits()) && Worldly() == old(Worldly()) && Belongs(unit)
      ensures ok == RequiredOne(old(Worldly()), rank, name, old(registered)).ok
      ensures Extends(old(Snap()), Snap(), rank, rank[unit.name] + 1,
                      RequiredOne(old(Worldly()), rank, name, old(registered)).log)
      ensures active == old(active) + CopiedOne(old(Worldly()), rank, name)
      ensures UnitNames(unit.startDependencies) == UnitNames(old(unit.startDependencies)) + if ok then [name] else []
      decreases rank[unit.name], 0
    {
      hide Below, Enabled, Extends, UnitNames, Announces;
      ghost var snap, world, bound := Snap(), Worldly(), rank[unit.name] + 1;
      ghost var log := RequiredOne(world, rank, name, registered).log;
      ExtendsNothing(snap, rank, bound);
      WithEmpty(UnitNames(unit.startDependencies));
      var other := FindUnit(name);
      if other == null {
        other := ReadServiceUnit(name);
        if other == null {
          return false;
        }
        ok := EnableRead(unit, other, rank);
        if !ok {
          return false;
        }
      }
      assert Extends(snap, Snap(), rank, bound, log);
      ghost var enabled := Snap();
      AddEnabled(unit, other, rank);
      ExtendsTwice(snap, enabled, Snap(), rank, bound, bound, log, []);
      WithEmpty(log);
      return true;
    }

    /** Enable for another unit, which leaves this one alone. */
    method EnableRead(unit: Unit, other: Unit, ghost rank: map<string, nat>) returns (ok: bool)
      requires Valid() && Sound(Worldly(), rank) && Belongs(unit) && Belongs(other)
      requires unit.name in rank && other.name in rank && rank[other.name] < rank[unit.name]
      requires other.name !in Loaded() ==> other.startDependencies == []
      modifies this`units, this`active, this`registrations, this`registered,
               LoadedUnits()`startDependencies, other`startDependencies
      ensures Valid() && LoadedUnits() == old(LoadedUnits()) && Worldly() == old(Worldly()) && Belongs(unit)
      ensures ok == Enabled(old(Worldly()), rank, other.name, old(registered)).ok
      ensures Extends(old(Snap()), Snap(), rank, rank[unit.name] + 1,
                      Enabled(old(Worldly()), rank, other.name, old(registered)).log)
      ensures active == old(active) + Copied(old(Worldly()), rank, other.name)
      ensures unit.startDependencies == old(unit.startDependencies)
      decreases rank[other.name], 3
    {
      ok := Enable(other, rank);
    }

    /** One turn of the loop over the wanted units; a failure to enable one is ignored. */
    method EnableWanted(unit: Unit, name: string, ghost rank: map<string, nat>)
      requires Valid() && Sound(Worldly(), rank) && Belongs(unit) && unit.name in rank
      requires name in rank && rank[name] < rank[unit.name]
      modifies this`units, this`active, this`registrations, this`registered,
               LoadedUnits()`startDependencies, unit`startDependencies
      ensures Valid() && LoadedUnits() == old(LoadedUnits()) && Worldly() == old(Worldly()) && Belongs(unit)
      ensures Extends(old(Snap()), Snap(), rank, rank[unit.name] + 1,
                      Enabled(old(Worldly()), rank, name, old(registered)).log)
      ensures active == old(active) + Copied(old(Worldly()), rank, name)
      ensures UnitNames(unit.startDependencies) == UnitNames(old(unit.startDependencies)) + [name]
      decreases rank[unit.name], 0
    {
      hide Below, Enabled, Extends, UnitNames, Announces;
      ghost var snap, world, bound := Snap(), Worldly(), rank[unit.name] + 1;
      ghost var log := Enabled(world, rank, name, registered).log;
      var other := FindUnit(name);
      if other == null {
        other := ReadServiceUnit(name);
      }
      var _ := EnableRead(unit, other, rank);
      ghost var enabled := Snap();
      AddEnabled(unit, other, rank);
      ExtendsTwice(snap, enabled, Snap(), rank, bound, bound, log, []);
      WithEmpty(log);
    }

    /** RegisterService, while enabling. */
    method RegisterEnabled(unit: Unit, ghost rank: map<string, nat>, ghost earlier: seq<string>)
      requires Valid() && Belongs(unit) && unit.name in rank
      requires UnitNames(unit.startDependencies) == earlier + unit.file.needs + unit.file.wants
      requires unit.name !in Loaded() ==> earlier == []
      modifies this`registrations, this`registered
      ensures Valid() && LoadedUnits() == old(LoadedUnits()) && Worldly() == old(Worldly()) && Belongs(unit)
      ensures Extends(old(Snap()), Snap(), rank, rank[unit.name] + 1, [unit.name])
    {
      RegisterService(unit);
      ghost var r := registrations[|registrations| - 1];
      assert registrations[|old(registrations)|..] == [r];
      Assoc(earlier, unit.file.needs, unit.file.wants);
      assert Announces(Worldly(), r);
      assert RegisteredNames([r]) == [unit.name];
    }

    /** The loop over the required units, up to the first that cannot be enabled. */
    method EnableAllRequired(unit: Unit, ghost rank: map<string, nat>) returns (ok: bool)
      requires Valid() && Sound(Worldly(), rank) && Belongs(unit) && unit.name in rank
      requires Descends(Worldly(), rank, unit)
      modifies this`units, this`active, this`registrations, this`registered,
               LoadedUnits()`startDependencies, unit`startDependencies
      ensures Valid() && LoadedUnits() == old(LoadedUnits()) && Worldly() == old(Worldly()) && Belongs(unit)
      ensures var all := Required(old(Worldly()), rank, unit.name, unit.file.needs, old(registered));
              ok == all.ok && Extends(old(Snap()), Snap(), rank, rank[unit.name] + 1, all.log)
      ensures active == old(active) + CopiedNeeds(old(Worldly()), rank, unit.name, unit.file.needs)
      ensures ok ==> UnitNames(unit.startDependencies) == UnitNames(old(unit.startDependencies)) + unit.file.needs
      decreases rank[unit.name], 1
    {
      hide Below, Extends, UnitNames, Announces, Loaded, LoadedUnits, Valid, Starts, Required, After;
      hide CopiedOne, CopiedNeeds, Copying;
      ghost var snap, world, bound := Snap(), Worldly(), rank[unit.name] + 1;
      ghost var log, earlier := [], UnitNames(unit.startDependencies);
      var needs := unit.file.needs;
      ghost var first := Required(world, rank, unit.name, needs, registered);
      ghost var all := CopiedNeeds(world, rank, unit.name, needs);
      ExtendsNothing(snap, rank, bound);
      CopyingNothing(active, all);
      WithEmpty(first.log);
      WithEmpty(earlier);
      assert needs[0..] == needs && needs[..0] == [];
      for i := 0 to |needs|
        invariant Valid() && LoadedUnits() == old(LoadedUnits()) && Worldly() == world && Belongs(unit)
        invariant Extends(snap, Snap(), rank, bound, log)
        invariant UnitNames(unit.startDependencies) == earlier + needs[..i]
        invariant forall d :: d in needs[i..] ==> d in needs
        invariant var rest := Required(world, rank, unit.name, needs[i..], registered);
                  first == Outcome(rest.ok, log + rest.log)
        invariant Copying(old(active), active, CopiedNeeds(world, rank, unit.name, needs[i..]), all)
      {
        ghost var now, one, had := Snap(), RequiredOne(world, rank, needs[i], registered), active;
        ghost var more := if one.ok then CopiedNeeds(world, rank, unit.name, needs[i + 1..]) else {};
        RequiredNext(world, rank, unit.name, needs, i, registered);
        CopiedNext(world, rank, unit.name, needs, i, registered);
        var done := EnableRequired(unit, needs[i], rank);
        CopyingNext(old(active), had, active, CopiedOne(world, rank, needs[i]), more, all);
        ExtendsRegistered(now, Snap(), rank, bound, one.log);
        ExtendsTwice(snap, now, Snap(), rank, bound, bound, log, one.log);
        if !done {
          CopyingDone(old(active), active, all);
          return false;
        }
        Assoc(log, one.log, Required(world, rank, unit.name, needs[i + 1..], registered).log);
        log := log + one.log;
        TakeNext(needs, i);
        Assoc(earlier, needs[..i], [needs[i]]);
      }
      assert needs[..|needs|] == needs && needs[|needs|..] == [];
      NothingRequired(world, rank, unit.name, registered);
      NothingCopied(world, rank, unit.name);
      CopyingDone(old(active), active, all);
      WithEmpty(log);
      return true;
    }

    /** The loop over the wanted units. */
    method EnableAllWanted(unit: Unit, ghost rank: map<string, nat>)
      requires Valid() && Sound(Worldly(), rank) && Belongs(unit) && unit.name in rank
      requires Descends(Worldly(), rank, unit)
      modifies this`units, this`active, this`registrations, this`registered,
               LoadedUnits()`startDependencies, unit`startDependencies
      ensures Valid() && LoadedUnits() == old(LoadedUnits()) && Worldly() == old(Worldly()) && Belongs(unit)
      ensures Extends(old(Snap()), Snap(), rank, rank[unit.name] + 1,
                      Wanted(old(Worldly()), rank, unit.name, unit.file.wants, old(registered)))
      ensures active == old(active) + CopiedWants(old(Worldly()), rank, unit.name, unit.file.wants)
      ensures UnitNames(unit.startDependencies) == UnitNames(old(unit.startDependencies)) + unit.file.wants
      decreases rank[unit.name], 1
    {
      hide Below, Extends, UnitNames, Announces, Loaded, LoadedUnits, Valid, Starts, Wanted, After;
      hide Copied, CopiedWants, Copying;
      ghost var snap, world, bound := Snap(), Worldly(), rank[unit.name] + 1;
      ghost var log, earlier := [], UnitNames(unit.startDependencies);
      var wants := unit.file.wants;
      ghost var whole := Wanted(world, rank, unit.name, wants, registered);
      ghost var all := CopiedWants(world, rank, unit.name, wants);
      ExtendsNothing(snap, rank, bound);
      CopyingNothing(active, all);
      WithEmpty(whole);
      WithEmpty(earlier);
      assert wants[0..] == wants && wants[..0] == [];
      for i := 0 to |wants|
        invariant Valid() && LoadedUnits() == old(LoadedUnits()) && Worldly() == world && Belongs(unit)
        invariant Extends(snap, Snap(), rank, bound, log)
        invariant UnitNames(unit.startDependencies) == earlier + wants[..i]
        invariant forall d :: d in wants[i..] ==> d in wants
        invariant whole == log + Wanted(world, rank, unit.name, wants[i..], registered)
        invariant Copying(old(active), active, CopiedWants(world, rank, unit.name, wants[i..]), all)
      {
        ghost var now, one, had := Snap(), Enabled(world, rank, wants[i], registered).log, active;
        WantedNext(world, rank, unit.name, wants, i, registered);
        CopiedWantsNext(world, rank, unit.name, wants, i);
        EnableWanted(unit, wants[i], rank);
        CopyingNext(old(active), had, active, Copied(world, rank, wants[i]),
                    CopiedWants(world, rank, unit.name, wants[i + 1..]), all);
        ExtendsRegistered(now, Snap(), rank, bound, one);
        ExtendsTwice(snap, now, Snap(), rank, bound, bound, log, one);
        Assoc(log, one, Wanted(world, rank, unit.name, wants[i + 1..], registered));
        log := log + one;
        TakeNext(wants, i);
        Assoc(earlier, wants[..i], [wants[i]]);
      }
      assert wants[..|wants|] == wants && wants[|wants|..] == [];
      NothingRequired(world, rank, unit.name, registered);
      NothingCopied(world, rank, unit.name);
      CopyingDone(old(active), active, all);
      WithEmpty(log);
    }

    /** Enables a unit. The ranks need to cover only the units that are met on the way. */
    method Enable(unit: Unit, ghost rank: map<string, nat>) returns (ok: bool)
      requires Valid() && Sound(Worldly(), rank) && Belongs(unit) && unit.name in rank
      requires unit.name !in Loaded() ==> unit.startDependencies == []
      modifies this`units, this`active, this`registrations, this`registered,
               LoadedUnits()`startDependencies, unit`startDependencies
      ensures Valid() && LoadedUnits() == old(LoadedUnits()) && Worldly() == old(Worldly()) && Belongs(unit)
      ensures ok == Enabled(old(Worldly()), rank, unit.name, old(registered)).ok
      ensures Extends(old(Snap()), Snap(), rank, rank[unit.name] + 1,
                      Enabled(old(Worldly()), rank, unit.name, old(registered)).log)
      ensures active == old(active) + Copied(old(Worldly()), rank, unit.name)
      decreases rank[unit.name], 2
    {
      hide Below, Extends, UnitNames, Announces, Loaded, LoadedUnits, Valid, Starts, Required, Wanted, After;
      hide Copied, CopiedNeeds, CopiedWants;
      ghost var snap, world, bound := Snap(), Worldly(), rank[unit.name] + 1;
      ghost var earlier := UnitNames(unit.startDependencies);
      ExtendsNothing(snap, rank, bound);
      DependenciesBelow(world, rank, unit.name);
      CopiedInAll(world, rank, unit.name, registered);
      var copied := CopyUnitFileToActive(unit.name);
      if !copied {
        return false;
      }
      ghost var first := Required(world, rank, unit.name, unit.file.needs, registered);
      var done := EnableAllRequired(unit, rank);
      if !done {
        return false;
      }
      ghost var middle := Snap();
      ExtendsRegistered(snap, middle, rank, bound, first.log);
      ghost var second := Wanted(world, rank, unit.name, unit.file.wants, registered);
      EnableAllWanted(unit, rank);
      ExtendsRegistered(middle, Snap(), rank, bound, second);
      ExtendsTwice(snap, middle, Snap(), rank, bound, bound, first.log, second);
      WithEmpty(first.log + second);
      if IsEnabled(unit) {
        return true;
      }
      ghost var now := Snap();
      RegisterEnabled(unit, rank, earlier);
      ExtendsTwice(snap, now, Snap(), rank, bound, bound, first.log + second, [unit.name]);
      return true;
    }

    /** The enable command for one name: the unit is looked up, and read if that finds none. */
    method EnableByName(name: string) returns (found: bool, ok: bool)
      requires Valid() && (Worldly().Known(name) ==> Enableable(Worldly(), name))
      modifies this`units, this`active, this`registrations, this`registered, LoadedUnits()`startDependencies
      ensures Valid() && Worldly() == old(Worldly())
      ensures found <==> old(Worldly()).Known(name)
      ensures !found ==> Snap() == old(Snap())
      ensures found ==> EnabledFrom(old(Snap()), Snap(), name, ok)
      ensures !found ==> active == old(active)
      ensures found ==> active == old(active) + Copied(old(Worldly()), RankOf(old(Worldly()), name), name)
    {
      hide Below, Extends, Enabled, Enableable;
      var unit := FindUnit(name);
      if unit == null {
        unit := ReadServiceUnit(name);
        if unit == null {
          return false, false;
        }
      }
      ok := Enable(unit, RankOf(Worldly(), name));
      found := true;
    }
  }

  /** Of all the unit files to copy, some are in the active directory and the rest is still to come. */
  ghost predicate Copying(before: set<string>, now: set<string>, rest: set<string>, all: set<string>) {
    now + rest == before + all
  }

  lemma CopyingNothing(before: set<string>, all: set<string>)
    ensures Copying(before, before, all, all)
  {
  }

  lemma CopyingNext(before: set<string>, had: set<string>, now: set<string>, one: set<string>, more: set<string>,
                    all: set<string>)
    requires Copying(before, had, one + more, all) && now == had + one
    ensures Copying(before, now, more, all)
  {
  }

  lemma CopyingDone(before: set<string>, now: set<string>, all: set<string>)
    requires Copying(before, now, {}, all)
    ensures now == before + all
  {
  }

  /** What a unit's file names has lower ranks, as far as enabling follows it. */
  ghost predicate Descends(world: World, rank: map<string, nat>, unit: Unit)
    requires unit.name in rank
  {
    && (forall d :: d in unit.file.needs && world.Reads(d) ==> d in rank && rank[d] < rank[unit.name])
    && forall d :: d in unit.file.wants ==> d in rank && rank[d] < rank[unit.name]
  }

  /** The outcome of enabling a unit by its name. */
  ghost predicate EnabledFrom(before: Snapshot, now: Snapshot, name: string, ok: bool) {
    && Enableable(before.world, name)
    && var rank := RankOf(before.world, name);
       var outcome := Enabled(before.world, rank, name, before.registered);
       ok == outcome.ok && Extends(before, now, rank, rank[name] + 1, outcome.log)
  }

  lemma DependenciesBelow(world: World, rank: map<string, nat>, name: string)
    requires Sound(world, rank) && name in rank
    ensures world.Known(name)
    ensures forall d :: d in world.UnitOf(name).needs && world.Reads(d) ==> d in rank && rank[d] < rank[name]
    ensures forall d :: d in world.UnitOf(name).wants ==> d in rank && rank[d] < rank[name]
  {
  }

  datatype Snapshot = Snapshot(loaded: map<string, Unit>, world: World, registrations: seq<Registration>,
                               registered: set<string>, starts: map<string, seq<Unit>>)

  /** A registration names the required and the wanted units of its unit: a unit that was not loaded
      names nothing else, a loaded one names them after what it had before. */
  ghost predicate Announces(world: World, r: Registration) {
    && world.Known(r.name)
    && var named := world.UnitOf(r.name).needs + world.UnitOf(r.name).wants;
       if r.name in world.loaded then exists earlier :: r.dependencies == earlier + named else r.dependencies == named
  }

  function RegisteredNames(rs: seq<Registration>): (names: seq<string>) {
    if rs == [] then [] else [rs[0].name] + RegisteredNames(rs[1..])
  }

  /** From one state to a later one: the pool is the same, the services in `log` were handed over and
      those that are accepted are registered, and units of at least rank `bound` kept their start
      dependencies. */
  ghost predicate Extends(before: Snapshot, now: Snapshot, rank: map<string, nat>, bound: nat, log: seq<string>) {
    && now.loaded == before.loaded && now.world == before.world && now.starts.Keys == before.starts.Keys
    && |before.registrations| <= |now.registrations|
    && now.registrations[..|before.registrations|] == before.registrations
    && RegisteredNames(now.registrations[|before.registrations|..]) == log
    && (forall r :: r in now.registrations[|before.registrations|..] ==> Announces(now.world, r))
    && now.registered == After(before.world.refused, before.registered, log)
    && forall k :: k in now.starts && (k !in rank || rank[k] >= bound) ==> now.starts[k] == before.starts[k]
  }

  lemma {:induction false} RegisteredNamesConcat(a: seq<Registration>, b: seq<Registration>)
    ensures RegisteredNames(a + b) == RegisteredNames(a) + RegisteredNames(b)
  {
    if a == [] {
      WithEmpty(b);
    } else {
      TailOfAppend(a, b);
      RegisteredNamesConcat(a[1..], b);
    }
  }

  lemma ExtendsNothing(s: Snapshot, rank: map<string, nat>, bound: nat)
    ensures Extends(s, s, rank, bound, [])
  {
  }

  lemma ExtendsRegistered(before: Snapshot, now: Snapshot, rank: map<string, nat>, bound: nat, log: seq<string>)
    requires Extends(before, now, rank, bound, log)
    ensures now.registered == After(before.world.refused, before.registered, log)
  {
  }

  lemma ExtendsTwice(a: Snapshot, b: Snapshot, c: Snapshot, rank: map<string, nat>, bound: nat, lower: nat,
                     first: seq<string>,
                     second: seq<string>)
    requires Extends(a, b, rank, bound, first) && Extends(b, c, rank, lower, second) && lower <= bound
    ensures Extends(a, c, rank, bound, first + second)
  {
    hide Announces, After;
    AfterConcat(a.world.refused, a.registered, first, second);
    var x, y := b.registrations[|a.registrations|..], c.registrations[|b.registrations|..];
    RegisteredNamesConcat(x, y);
    assert c.registrations == a.registrations + x + y;
    assert c.registrations[|a.registrations|..] == x + y;
  }

  lemma AllNames(loaded: map<string, Unit>, keys: set<string>) returns (universe: set<string>)
    ensures keys <= universe && Closed(loaded, universe)
  {
    universe := keys + set k, n | k in loaded && n in Mentions(loaded[k].file) :: n;
  }

  lemma SetUpIs(loaded: map<string, Unit>, order: seq<string>, waits: map<string, seq<Unit>>,
                starts: map<string, seq<Unit>>,
                ownWaits: map<string, seq<Unit>>, ownStarts: map<string, seq<Unit>>,
                nextWaits: map<string, seq<Unit>>, nextStarts: map<string, seq<Unit>>)
    requires Lists(order, loaded.Keys)
    requires OwnDone(loaded, order, |order|, waits, starts, ownWaits, ownStarts)
    requires OtherDone(loaded, order, |order|, ownWaits, ownStarts, nextWaits, nextStarts)
    ensures waits.Keys == loaded.Keys == starts.Keys == nextWaits.Keys == nextStarts.Keys
    ensures forall k :: k in loaded ==> k in order
    ensures forall k :: k in loaded ==> nextWaits[k] == OwnWaits(loaded, waits, k) + Stating(loaded, order, Before, k)
    ensures forall k :: k in loaded ==>
              nextStarts[k] == OwnStarts(loaded, starts, k) + Stating(loaded, order, RequiredBy, k)
  {
    hide OwnWaits, OwnStarts, Stating, Sorted;
    assert order[..|order|] == order;
    forall k | k in loaded
      ensures nextWaits[k] == OwnWaits(loaded, waits, k) + Stating(loaded, order, Before, k)
      ensures nextStarts[k] == OwnStarts(loaded, starts, k) + Stating(loaded, order, RequiredBy, k)
    {
      assert k in order;
      var j :| 0 <= j < |order| && order[j] == k;
    }
  }

  /** The registrations of those units, in pool order, whose services are not registered. */
  ghost function Registered(starts: map<string, seq<Unit>>, order: seq<string>,
                            registered: set<string>): (rs: seq<Registration>)
  {
    if order == [] then []
    else
      var name := order[|order| - 1];
      Registered(starts, order[..|order| - 1], registered)
      + if name in registered then [] else [Registration(name, UnitNames(if name in starts then starts[name] else []))]
  }

  lemma NoneRegistered(starts: map<string, seq<Unit>>, registered: set<string>)
    ensures Registered(starts, [], registered) == []
  {
  }

  lemma NextRegistered(starts: map<string, seq<Unit>>, order: seq<string>, i: nat, registered: set<string>)
    requires i < |order| && order[i] in starts
    ensures Registered(starts, order[..i + 1], registered)
         == Registered(starts, order[..i], registered)
            + if order[i] in registered then [] else [Registration(order[i], UnitNames(starts[order[i]]))]
  {
    TakeNext(order, i);
    assert order[..i + 1][..i] == order[..i];
  }

  /** The dependencies handed over are the names of the units, in their order. */
  ghost predicate DependsOn(r: Registration, units: seq<Unit>) {
    |r.dependencies| == |units| && forall i :: 0 <= i < |units| ==> r.dependencies[i] == units[i].name
  }

  lemma {:induction false} NamesAt(units: seq<Unit>)
    ensures forall i :: 0 <= i < |units| ==> UnitNames(units)[i] == units[i].name
  {
    if units != [] {
      NamesAt(units[..|units| - 1]);
    }
  }

  /** The third pass hands over exactly the units whose services are not registered, in key order. */
  lemma {:induction false} PassRegisters(starts: map<string, seq<Unit>>, order: seq<string>, registered: set<string>,
                                         keys: set<string>)
    requires Lists(order, keys)
    ensures Lists(RegisteredNames(Registered(starts, order, registered)), keys - registered)
    ensures forall r :: r in Registered(starts, order, registered) && r.name in starts ==> DependsOn(r, starts[r.name])
    decreases |order|
  {
    hide Less, UnitNames;
    if order != [] {
      var init, last := order[..|order| - 1], order[|order| - 1];
      ListedOnce(order, keys);
      Snoc(order);
      PassRegisters(starts, init, registered, keys - {last});
      var before := Registered(starts, init, registered);
      if last in registered {
        WithEmpty(before);
        assert keys - registered == keys - {last} - registered;
      } else {
        var one := Registration(last, UnitNames(if last in starts then starts[last] else []));
        if last in starts {
          NamesAt(starts[last]);
        }
        RegisteredNamesConcat(before, [one]);
        assert RegisteredNames([one]) == [last];
        assert forall n :: n in RegisteredNames(before) ==> n in init;
        ListsSnoc(RegisteredNames(before), keys - {last} - registered, last);
        assert keys - registered == keys - {last} - registered + {last};
      }
    }
  }

  lemma ListsSnoc(a: seq<string>, keys: set<string>, last: string)
    requires Lists(a, keys) && forall k :: k in a ==> Less(k, last)
    ensures Lists(a + [last], keys + {last})
  {
  }

  /** Loading once more hands over only what the service manager has refused. */
  lemma PassAgain(starts: map<string, seq<Unit>>, order: seq<string>, registered: set<string>, keys: set<string>,
                  refused: set<string>)
    requires Lists(order, keys)
    ensures Lists(RegisteredNames(Registered(starts, order, After(refused, registered, order))),
                  keys * refused - registered)
  {
    PassRegisters(starts, order, After(refused, registered, order), keys);
    assert keys - After(refused, registered, order) == keys * refused - registered;
  }

  /** The pass asks about a name only once, so registrations during the pass do not change the answer. */
  lemma NextAfter(keys: set<string>, order: seq<string>, i: nat, registered: set<string>, refused: set<string>)
    requires Lists(order, keys) && i < |order|
    ensures order[i] in After(refused, registered, order[..i]) <==> order[i] in registered
    ensures After(refused, registered, order[..i + 1])
         == if order[i] in registered then After(refused, registered, order[..i])
            else After(refused, After(refused, registered, order[..i]), [order[i]])
  {
    ListedOnce(order, keys);
    TakeNext(order, i);
    AfterConcat(refused, registered, order[..i], [order[i]]);
  }

  /** The first `i` units have been given to those that they name. */
  ghost predicate OtherDone(loaded: map<string, Unit>, order: seq<string>, i: nat, waits: map<string, seq<Unit>>,
                            starts: map<string, seq<Unit>>, nowWaits: map<string, seq<Unit>>,
                            nowStarts: map<string, seq<Unit>>)
  {
    && i <= |order| && nowWaits.Keys == waits.Keys && nowStarts.Keys == starts.Keys
    && (forall k :: k in order ==> k in loaded)
    && (forall k :: k in waits ==> nowWaits[k] == waits[k] + Stating(loaded, order[..i], Before, k))
    && forall k :: k in starts ==> nowStarts[k] == starts[k] + Stating(loaded, order[..i], RequiredBy, k)
  }

  lemma NoneOther(loaded: map<string, Unit>, order: seq<string>, waits: map<string, seq<Unit>>,
                  starts: map<string, seq<Unit>>)
    requires Lists(order, loaded.Keys)
    ensures OtherDone(loaded, order, 0, waits, starts, waits, starts)
  {
    assert order[..0] == [];
    NoneStating(loaded, waits, Before);
    NoneStating(loaded, starts, RequiredBy);
  }

  lemma NextOther(loaded: map<string, Unit>, order: seq<string>, i: nat, waits: map<string, seq<Unit>>,
                  starts: map<string, seq<Unit>>, nowWaits: map<string, seq<Unit>>, nowStarts: map<string, seq<Unit>>,
                  nextWaits: map<string, seq<Unit>>, nextStarts: map<string, seq<Unit>>)
    requires OtherDone(loaded, order, i, waits, starts, nowWaits, nowStarts) && i < |order| && order[i] in loaded
    requires nextWaits.Keys == nowWaits.Keys && nextStarts.Keys == nowStarts.Keys
    requires var unit := loaded[order[i]];
             && (forall k :: k in nowWaits ==> nextWaits[k] == nowWaits[k] + PerMention(unit, Stated(unit, Before), k))
             && (forall k :: k in nowStarts ==>
                    nextStarts[k] == nowStarts[k] + PerMention(unit, Stated(unit, RequiredBy), k))
    ensures OtherDone(loaded, order, i + 1, waits, starts, nextWaits, nextStarts)
  {
    hide PerMention, Stated, Stating;
    StatingGiven(loaded, order, i, Before, waits, nowWaits, nextWaits);
    StatingGiven(loaded, order, i, RequiredBy, starts, nowStarts, nextStarts);
  }

  /** The first `i` units have got their own dependencies, the others are as they were. */
  ghost predicate OwnDone(loaded: map<string, Unit>, order: seq<string>, i: nat, waits: map<string, seq<Unit>>,
                          starts: map<string, seq<Unit>>, nowWaits: map<string, seq<Unit>>,
                          nowStarts: map<string, seq<Unit>>)
  {
    && i <= |order| && nowWaits.Keys == waits.Keys == loaded.Keys == starts.Keys == nowStarts.Keys
    && forall j :: 0 <= j < |order| ==>
         && order[j] in loaded
         && nowWaits[order[j]] == (if j < i then OwnWaits(loaded, waits, order[j]) else waits[order[j]])
         && nowStarts[order[j]] == (if j < i then OwnStarts(loaded, starts, order[j]) else starts[order[j]])
  }

  lemma NoneOwn(loaded: map<string, Unit>, order: seq<string>, waits: map<string, seq<Unit>>,
                starts: map<string, seq<Unit>>)
    requires Lists(order, loaded.Keys) && waits.Keys == loaded.Keys == starts.Keys
    ensures OwnDone(loaded, order, 0, waits, starts, waits, starts)
  {
  }

  lemma NextOwn(loaded: map<string, Unit>, order: seq<string>, i: nat, waits: map<string, seq<Unit>>,
                starts: map<string, seq<Unit>>, nowWaits: map<string, seq<Unit>>, nowStarts: map<string, seq<Unit>>)
    requires OwnDone(loaded, order, i, waits, starts, nowWaits, nowStarts) && i < |order| && Lists(order, loaded.Keys)
    ensures order[i] in nowWaits && order[i] in nowStarts && order[i] in loaded
    ensures OwnDone(loaded, order, i + 1, waits, starts,
                    nowWaits[order[i] := OwnWaits(loaded, nowWaits, order[i])],
                    nowStarts[order[i] := OwnStarts(loaded, nowStarts, order[i])])
  {
    hide OwnWaits, OwnStarts, Lists;
    ListedOnce(order, loaded.Keys);
    var key := order[i];
    var nextWaits := nowWaits[key := OwnWaits(loaded, nowWaits, key)];
    var nextStarts := nowStarts[key := OwnStarts(loaded, nowStarts, key)];
    OwnSame(loaded, waits, nowWaits, starts, nowStarts, key);
    forall j | 0 <= j < |order|
      ensures nextWaits[order[j]] == (if j < i + 1 then OwnWaits(loaded, waits, order[j]) else waits[order[j]])
      ensures nextStarts[order[j]] == (if j < i + 1 then OwnStarts(loaded, starts, order[j]) else starts[order[j]])
    {
      assert j != i ==> order[j] != key;
    }
  }

  lemma ListedOnce(order: seq<string>, keys: set<string>)
    requires Lists(order, keys)
    ensures forall i, j :: 0 <= i < j < |order| ==> order[i] != order[j]
  {
    SortedDistinct(order);
  }

  lemma OwnSame(loaded: map<string, Unit>, waits: map<string, seq<Unit>>, nowWaits: map<string, seq<Unit>>,
                starts: map<string, seq<Unit>>, nowStarts: map<string, seq<Unit>>, name: string)
    requires name in loaded && name in waits && name in nowWaits && name in starts && name in nowStarts
    requires nowWaits[name] == waits[name] && nowStarts[name] == starts[name]
    ensures OwnWaits(loaded, nowWaits, name) == OwnWaits(loaded, waits, name)
    ensures OwnStarts(loaded, nowStarts, name) == OwnStarts(loaded, starts, name)
  {
  }

  /** One more unit of the pool passed. */
  lemma StatingGiven(loaded: map<string, Unit>, order: seq<string>, i: nat, side: Side, first: map<string, seq<Unit>>,
                     now: map<string, seq<Unit>>, next: map<string, seq<Unit>>)
    requires i < |order| && forall k :: k in order ==> k in loaded
    requires now.Keys == first.Keys && next.Keys == first.Keys
    requires forall k :: k in first ==> now[k] == first[k] + Stating(loaded, order[..i], side, k)
    requires forall k :: k in first ==>
      next[k] == now[k] + PerMention(loaded[order[i]], Stated(loaded[order[i]], side), k)
    ensures forall k :: k in first ==> next[k] == first[k] + Stating(loaded, order[..i + 1], side, k)
  {
    hide PerMention, Stated, Stating;
    forall k | k in first ensures next[k] == first[k] + Stating(loaded, order[..i + 1], side, k) {
      StatingNext(loaded, order, i, side, k);
      Assoc(first[k], Stating(loaded, order[..i], side, k),
            PerMention(loaded[order[i]], Stated(loaded[order[i]], side), k));
    }
  }

  lemma NoneStating(loaded: map<string, Unit>, first: map<string, seq<Unit>>, side: Side)
    ensures forall k :: k in first ==> first[k] == first[k] + Stating(loaded, [], side, k)
  {
  }

  lemma NoMention(unit: Unit, waits: map<string, seq<Unit>>)
    ensures forall k :: k in waits ==> waits[k] == waits[k] + PerMention(unit, [], k)
  {
  }

  /** One more name given the unit. */
  lemma MentionsGiven(unit: Unit, names: seq<string>, i: nat, first: map<string, seq<Unit>>,
                      now: map<string, seq<Unit>>,
                      next: map<string, seq<Unit>>)
    requires i < |names| && now.Keys == first.Keys
    requires forall k :: k in first ==> now[k] == first[k] + PerMention(unit, names[..i], k)
    requires next == if names[i] in now then now[names[i] := now[names[i]] + [unit]] else now
    ensures next.Keys == first.Keys
    ensures forall k :: k in first ==> next[k] == first[k] + PerMention(unit, names[..i + 1], k)
  {
    hide PerMention;
    forall k | k in first ensures next[k] == first[k] + PerMention(unit, names[..i + 1], k) {
      PerMentionNext(unit, names, i, k);
      Assoc(first[k], PerMention(unit, names[..i], k), [unit]);
      WithEmpty(PerMention(unit, names[..i], k));
    }
  }
}
