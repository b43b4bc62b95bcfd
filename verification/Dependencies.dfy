/** Unit files and the dependencies that enabling follows, with the condition under which following
    them comes to an end. */
module Dependencies {
  import opened Seqs

  /** The relations that a unit file states; `needs` are its Requires. */
  datatype UnitFile = UnitFile(after: seq<string>, before: seq<string>, needs: seq<string>, wants: seq<string>,
                               requiredBy: seq<string>)

  /** The units loaded in the pool, the unit files of the library, the names with a file in the active
      directory or the library, and the names that the service manager refuses to create a service for. */
  datatype World = World(loaded: map<string, UnitFile>, library: map<string, UnitFile>, files: set<string>,
                         refused: set<string>) {
    predicate Known(name: string) {
      name in loaded || name in library
    }

    function UnitOf(name: string): UnitFile
      requires Known(name)
    {
      if name in loaded then loaded[name] else library[name]
    }

    /** CopyUnitFileToActive finds a file. */
    predicate HasFile(name: string) {
      name in files
    }

    /** A required unit that is read from the library and enabled in turn. */
    predicate Reads(name: string) {
      name !in loaded && name in library
    }

    /** Enabling `x` goes on to enable `y`: every wanted unit, and every required one that is read. */
    predicate Follows(x: string, y: string)
      requires Known(x)
    {
      y in UnitOf(x).wants || (y in UnitOf(x).needs && Reads(y))
    }
  }

  /** Ranks for a set of units that enabling does not leave: whatever is followed has a lower rank. */
  ghost predicate Sound(world: World, rank: map<string, nat>) {
    forall name :: name in rank ==> world.Known(name) && Below(world, rank, name)
  }

  ghost predicate Below(world: World, rank: map<string, nat>, name: string)
    requires world.Known(name) && name in rank
  {
    && (forall w :: w in world.UnitOf(name).wants ==> w in rank && rank[w] < rank[name])
    && forall r :: r in world.UnitOf(name).needs && world.Reads(r) ==> r in rank && rank[r] < rank[name]
  }

  // ---- when there are ranks

  ghost predicate Path(world: World, p: seq<string>) {
    p != [] && forall i :: 0 <= i < |p| - 1 ==> world.Known(p[i]) && world.Follows(p[i], p[i + 1])
  }

  ghost predicate Connects(world: World, p: seq<string>, x: string, y: string) {
    Path(world, p) && p[0] == x && p[|p| - 1] == y
  }

  ghost predicate Reaches(world: World, x: string, y: string) {
    exists p :: Connects(world, p, x, y)
  }

  ghost predicate OnCycle(world: World, x: string) {
    exists p :: |p| > 1 && Connects(world, p, x, x)
  }

  /** Every unit met on the way exists and is on no cycle. */
  ghost predicate Enableable(world: World, root: string) {
    forall x :: Reaches(world, root, x) ==> world.Known(x) && !OnCycle(world, x)
  }

  lemma PathExtends(world: World, p: seq<string>, y: string)
    requires Path(world, p) && world.Known(p[|p| - 1]) && world.Follows(p[|p| - 1], y)
    ensures Path(world, p + [y])
  {
    var q := p + [y];
    forall i | 0 <= i < |q| - 1 ensures world.Known(q[i]) && world.Follows(q[i], q[i + 1]) {
      assert q[i] == p[i] && q[i + 1] == if i + 1 < |p| then p[i + 1] else y;
    }
  }

  /** Ranks fall along a path. */
  lemma {:induction false} RankFalls(world: World, rank: map<string, nat>, p: seq<string>)
    requires Sound(world, rank) && Path(world, p) && p[0] in rank
    ensures p[|p| - 1] in rank && (|p| > 1 ==> rank[p[|p| - 1]] < rank[p[0]])
  {
    if |p| > 1 {
      assert world.Follows(p[0], p[1]);
      var rest := p[1..];
      forall i | 0 <= i < |rest| - 1 ensures world.Known(rest[i]) && world.Follows(rest[i], rest[i + 1]) {
        assert rest[i] == p[i + 1] && rest[i + 1] == p[i + 2];
      }
      RankFalls(world, rank, rest);
    }
  }

  /** The unit exists and follows nothing inside `within`. */
  ghost predicate Sink(world: World, x: string, within: set<string>) {
    world.Known(x) && forall y :: y in within ==> !world.Follows(x, y)
  }

  /** Every unit exists and follows one inside `within`. */
  ghost predicate Restless(world: World, within: set<string>) {
    forall x :: x in within ==> world.Known(x) && !Sink(world, x, within)
  }

  ghost predicate AllIn(p: seq<string>, within: set<string>) {
    forall i :: 0 <= i < |p| ==> p[i] in within
  }

  lemma Successor(world: World, within: set<string>, x: string) returns (y: string)
    requires Restless(world, within) && x in within
    ensures world.Known(x) && y in within && world.Follows(x, y)
  {
    y :| y in within && world.Follows(x, y);
  }

  /** Among such units there are walks of every length. */
  lemma {:induction false} Walk(world: World, within: set<string>, n: nat) returns (p: seq<string>)
    requires within != {} && Restless(world, within)
    ensures Path(world, p) && |p| == n + 1 && AllIn(p, within)
  {
    hide Restless, World.Follows, World.Known;
    if n == 0 {
      var x :| x in within;
      p := [x];
    } else {
      hide Path;
      var q := Walk(world, within, n - 1);
      var y := Successor(world, within, q[|q| - 1]);
      PathExtends(world, q, y);
      p := q + [y];
    }
  }

  /** More elements than a set has cannot all be different. */
  lemma {:induction false} Repeats(s: seq<string>, within: set<string>) returns (i: nat, j: nat)
    requires |s| > |within| && AllIn(s, within)
    ensures i < j < |s| && s[i] == s[j]
  {
    var last := s[|s| - 1];
    var init := s[..|s| - 1];
    if last in init {
      i :| 0 <= i < |init| && init[i] == last;
      j := |s| - 1;
    } else {
      i, j := Repeats(init, within - {last});
    }
  }

  lemma PathPart(world: World, p: seq<string>, i: nat, j: nat)
    requires Path(world, p) && i < j < |p|
    ensures Path(world, p[i..j + 1])
  {
    var q := p[i..j + 1];
    forall k | 0 <= k < |q| - 1 ensures world.Known(q[k]) && world.Follows(q[k], q[k + 1]) {
      assert q[k] == p[i + k] && q[k + 1] == p[i + k + 1];
    }
  }

  /** A walk that repeats a unit contains a cycle. */
  lemma CycleIn(world: World, p: seq<string>, i: nat, j: nat)
    requires Path(world, p) && i < j < |p| && p[i] == p[j]
    ensures OnCycle(world, p[i])
  {
    PathPart(world, p, i, j);
    hide Path;
    var q := p[i..j + 1];
    assert q[0] == p[i] && q[|q| - 1] == p[j];
    assert Connects(world, q, p[i], p[i]);
  }

  lemma RestlessCycles(world: World, within: set<string>) returns (x: string)
    requires within != {} && Restless(world, within)
    ensures x in within && OnCycle(world, x)
  {
    hide Restless, Path, OnCycle;
    var p := Walk(world, within, |within|);
    var i, j := Repeats(p, within);
    CycleIn(world, p, i, j);
    x := p[i];
  }

  /** Without cycles some unit follows no other one. */
  lemma SomeSink(world: World, within: set<string>) returns (x: string)
    requires within != {} && forall x :: x in within ==> world.Known(x) && !OnCycle(world, x)
    ensures x in within && Sink(world, x, within)
  {
    hide OnCycle, Sink;
    if Restless(world, within) {
      var y := RestlessCycles(world, within);
    }
    x :| x in within && Sink(world, x, within);
  }

  /** Ranks that fall along the dependencies inside a set. */
  ghost predicate RanksWithin(world: World, rank: map<string, nat>, within: set<string>) {
    && rank.Keys == within
    && forall x, y :: x in within && y in within && world.Known(x) && world.Follows(x, y) ==> rank[y] < rank[x]
  }

  lemma {:induction false} Rank(world: World, within: set<string>) returns (rank: map<string, nat>)
    requires forall x :: x in within ==> world.Known(x) && !OnCycle(world, x)
    ensures RanksWithin(world, rank, within)
    decreases |within|
  {
    if within == {} {
      rank := map[];
    } else {
      var sink := SomeSink(world, within);
      var rest := within - {sink};
      var lower := Rank(world, rest);
      rank := map x | x in within :: if x == sink then 0 else lower[x] + 1;
    }
  }

  /** Following a dependency of a reachable unit reaches its end. */
  lemma ReachesNext(world: World, root: string, x: string, y: string)
    requires Reaches(world, root, x) && world.Known(x) && world.Follows(x, y)
    ensures Reaches(world, root, y)
  {
    var p :| Connects(world, p, root, x);
    PathExtends(world, p, y);
    assert Connects(world, p + [y], root, y);
  }

  /** There are ranks for a unit exactly when all units met from it exist and none is on a cycle. */
  lemma RankedIff(world: World, root: string)
    ensures (exists rank: map<string, nat> :: Sound(world, rank) && root in rank) <==> Enableable(world, root)
  {
    if rank: map<string, nat> :| Sound(world, rank) && root in rank {
      forall x | Reaches(world, root, x) ensures world.Known(x) && !OnCycle(world, x) {
        var p :| Connects(world, p, root, x);
        RankFalls(world, rank, p);
        if q :| |q| > 1 && Connects(world, q, x, x) {
          RankFalls(world, rank, q);
        }
      }
    }
    if Enableable(world, root) {
      var rank := RanksFrom(world, root);
    }
  }

  lemma RanksFrom(world: World, root: string) returns (rank: map<string, nat>)
    requires Enableable(world, root)
    ensures Sound(world, rank) && root in rank
  {
    var within := set x | x in world.loaded.Keys + world.library.Keys && Reaches(world, root, x);
    rank := Rank(world, within);
    assert Connects(world, [root], root, root);
    assert world.Known(root);
    forall x | x in rank ensures world.Known(x) && Below(world, rank, x) {
      forall y | world.Follows(x, y) ensures y in rank && rank[y] < rank[x] {
        ReachesNext(world, root, x, y);
      }
    }
  }

  /** Some ranks for a unit that has them. */
  ghost function RankOf(world: World, root: string): (rank: map<string, nat>)
    requires Enableable(world, root)
    ensures Sound(world, rank) && root in rank
  {
    RankedIff(world, root);
    var rank: map<string, nat> :| Sound(world, rank) && root in rank;
    rank
  }
}
