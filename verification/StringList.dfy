/** Lists of strings laid out in one buffer, each ended by a NUL and the list by one more: the
    dependency list that the registrar hands to the service manager and the service wrapper reads
    back, and the environment block that is rebuilt for every launch. */
module StringList {
  import opened Seqs
  import opened StringOrder

  const NUL: char := '\0'

  function Encoded(names: seq<string>): (s: string) {
    if names == [] then [] else names[0] + [NUL] + Encoded(names[1..])
  }

  /** The whole block, list terminator included. */
  function Block(names: seq<string>): (s: string) {
    Encoded(names) + [NUL]
  }

  /** The strings that a scan from the start of a buffer finds. */
  function Decoded(s: string): (names: seq<string>)
    decreases |s|
  {
    if s == [] || s[0] == NUL then []
    else
      var n := IndexOf(s, NUL);
      [s[..n]] + if n == |s| then [] else Decoded(s[n + 1..])
  }

  /** A list terminator is somewhere in the buffer, so a scan stops inside it. */
  ghost predicate Terminated(s: string) {
    exists i :: 0 <= i < |s| && s[i] == NUL && (i == 0 || s[i - 1] == NUL)
  }

  function Nuls(n: nat): (s: string) {
    seq(n, _ => NUL)
  }

  lemma TerminatedTail(s: string, n: nat)
    requires Terminated(s) && n <= |s| && n == IndexOf(s, NUL) && n > 0
    ensures n < |s| && Terminated(s[n + 1..])
  {
    var i :| 0 <= i < |s| && s[i] == NUL && (i == 0 || s[i - 1] == NUL);
    assert s[n + 1..][i - n - 1] == NUL;
    if i > n + 1 {
      assert s[n + 1..][i - n - 2] == s[i - 1];
    }
  }

  lemma BlockTerminated(names: seq<string>, slack: nat)
    ensures Terminated(Block(names) + Nuls(slack))
  {
    var e, s := Encoded(names), Block(names) + Nuls(slack);
    EncodedEnds(names);
    assert s[|e|] == NUL;
    if |e| > 0 {
      assert s[|e| - 1] == e[|e| - 1];
    }
  }

  lemma {:induction false} EncodedEnds(names: seq<string>)
    ensures names != [] ==> Encoded(names) != [] && Encoded(names)[|Encoded(names)| - 1] == NUL
  {
    if names != [] {
      EncodedEnds(names[1..]);
    }
  }

  // ---- the dependency list

  /** The buffer that RegisterService fills: sized in a first pass, written in a second. */
  method DependencyBuffer(names: seq<string>) returns (buffer: array<char>)
    ensures buffer[..] == Block(names) + Nuls(10)
  {
    var needed := 0;
    for i := 0 to |names|
      invariant needed + |Encoded(names[i..])| == |Encoded(names)|
    {
      TakeNext(names, i);
      CutAppend([names[i]], names[i + 1..]);
      needed := needed + |names[i]| + 1;
    }
    assert names[|names|..] == [];
    needed := needed + 1;  // for the trailing NUL
    buffer := new char[needed + 10](_ => NUL);
    var p := 0;
    ghost var done := "";
    assert buffer[..] == done + Nuls(buffer.Length);
    for i := 0 to |names|
      invariant buffer.Length == |Encoded(names)| + 11
      invariant p == |done| && done + Encoded(names[i..]) == Encoded(names)
      invariant p <= buffer.Length && buffer[..] == done + Nuls(buffer.Length - p)
    {
      TakeNext(names, i);
      CutAppend([names[i]], names[i + 1..]);
      var name := names[i];
      Assoc(done, name + [NUL], Encoded(names[i + 1..]));
      Put(buffer, p, name, done);
      p := p + |name|;
      done := done + (name + [NUL]);
      p := p + 1;
    }
    assert names[|names|..] == [];
    assert done == Encoded(names);
    buffer[p] := NUL;
    assert Nuls(11) == [NUL] + Nuls(10);
    Assoc(done, [NUL], Nuls(10));
  }

  /** Copies one name to where the write position stands and ends it. */
  method Put(buffer: array<char>, p: nat, name: string, ghost done: string)
    requires p == |done| && p + |name| + 1 <= buffer.Length && buffer[..] == done + Nuls(buffer.Length - p)
    modifies buffer
    ensures buffer[..] == done + (name + [NUL]) + Nuls(buffer.Length - p - |name| - 1)
  {
    assert forall k :: p <= k < buffer.Length ==> buffer[k] == buffer[..][k] == NUL;
    assert buffer[..p] == buffer[..][..p] == done;
    forall j | 0 <= j < |name| {
      buffer[p + j] := name[j];
    }
    buffer[p + |name|] := NUL;
    assert buffer[..p] == done;
    assert buffer[p..p + |name| + 1] == name + [NUL];
    assert buffer[p + |name| + 1..] == Nuls(buffer.Length - p - |name| - 1);
    assert buffer[..] == buffer[..p] + buffer[p..p + |name| + 1] + buffer[p + |name| + 1..];
  }

  /** One string of a scan. */
  lemma ScanNext(s: string, n: nat)
    requires s != [] && s[0] != NUL && Terminated(s) && n == IndexOf(s, NUL)
    ensures n < |s| && Terminated(s[n + 1..])
    ensures Decoded(s) == [s[..n]] + Decoded(s[n + 1..])
  {
    hide Terminated, IndexOf;
    TerminatedTail(s, n);
  }

  lemma ScanEnds(s: string)
    requires s != [] && s[0] == NUL
    ensures Decoded(s) == []
  {
  }

  lemma TerminatedNonEmpty(s: string)
    requires Terminated(s)
    ensures s != []
  {
  }

  /** The scan of GetServiceDependencies. */
  method ReadDependencies(buffer: array<char>) returns (names: seq<string>)
    requires Terminated(buffer[..])
    ensures names == Decoded(buffer[..])
  {
    hide Decoded, Terminated;
    names := [];
    var p := 0;
    ghost var rest := buffer[..];
    ghost var goal := Decoded(rest);
    TerminatedNonEmpty(rest);
    while buffer[p] != NUL
      invariant p < buffer.Length && rest == buffer[p..] && Terminated(rest)
      invariant names + Decoded(rest) == goal
      decreases buffer.Length - p
    {
      var n := WcsLen(buffer, p);
      ScanNext(rest, n);
      var name := buffer[p..p + n];
      SliceOfDrop(buffer[..], p, n);
      SliceOfDrop(buffer[..], p, n + 1);
      Assoc(names, [name], Decoded(rest[n + 1..]));
      rest := rest[n + 1..];
      TerminatedNonEmpty(rest);
      names := names + [name];
      p := p + n + 1;
    }
    ScanEnds(rest);
  }

  /** wcslen */
  method WcsLen(buffer: array<char>, p: nat) returns (n: nat)
    requires p <= buffer.Length && Terminated(buffer[p..])
    ensures p + n < buffer.Length && n == IndexOf(buffer[p..], NUL)
  {
    n := 0;
    ghost var s := buffer[p..];
    ghost var end := IndexOf(s, NUL);
    while buffer[p + n] != NUL
      invariant n <= end < |s| && s == buffer[p..]
      decreases end - n
    {
      assert s[n] == buffer[p + n];
      n := n + 1;
    }
    assert s[n] == buffer[p + n];
  }

  lemma DecodedFirst(name: string, rest: string)
    requires name != "" && NUL !in name
    ensures Decoded(name + [NUL] + rest) == [name] + Decoded(rest)
  {
    IndexOfAppend(name, NUL, rest);
    assert (name + [NUL] + rest)[0] == name[0];
  }

  /** Names that the layout can hold: non-empty and free of NUL. */
  ghost predicate Storable(names: seq<string>) {
    forall i :: 0 <= i < |names| ==> names[i] != "" && '\0' !in names[i]
  }

  lemma {:induction false} DecodeEncode(names: seq<string>, slack: nat)
    requires Storable(names)
    ensures Decoded(Block(names) + Nuls(slack)) == names
  {
    var tail := [NUL] + Nuls(slack);
    Assoc(Encoded(names), [NUL], Nuls(slack));
    if names == [] {
      assert Block(names) + Nuls(slack) == tail;
    } else {
      var rest := Encoded(names[1..]);
      Assoc(names[0] + [NUL], rest, tail);
      DecodedFirst(names[0], rest + tail);
      DecodeEncode(names[1..], slack);
      Assoc(rest, [NUL], Nuls(slack));
      Cons(names);
    }
  }

  lemma {:induction false} DecodedClean(s: string)
    ensures Storable(Decoded(s))
    decreases |s|
  {
    if s != [] && s[0] != NUL {
      var n := IndexOf(s, NUL);
      if n < |s| {
        DecodedClean(s[n + 1..]);
      }
    }
  }

  /** The list read back is the list registered exactly when every name is non-empty and holds no
      NUL; whatever the names, the scan stays inside the buffer. */
  lemma DependencyRoundTrip(names: seq<string>, slack: nat)
    ensures Terminated(Block(names) + Nuls(slack))
    ensures Decoded(Block(names) + Nuls(slack)) == names <==> Storable(names)
  {
    BlockTerminated(names, slack);
    DecodedClean(Block(names) + Nuls(slack));
    if Storable(names) {
      DecodeEncode(names, slack);
    }
  }

  // ---- the environment block

  function Upper(c: char): char {
    if 'a' <= c <= 'z' then c - 'a' + 'A' else c
  }

  function ToUpper(s: string): (u: string)
    ensures |u| == |s| && forall i :: 0 <= i < |s| ==> u[i] == Upper(s[i])
  {
    seq(|s|, i requires 0 <= i < |s| => Upper(s[i]))
  }

  /** The characters that the dot of a regular expression does not match. */
  predicate IsLineTerminator(c: char) {
    c == '\n' || c == '\r' || c == '\U{2028}' || c == '\U{2029}'
  }

  predicate OneLine(s: string) {
    forall c :: c in s ==> !IsLineTerminator(c)
  }

  /** What one string of a block does to the map: nothing when it has no '=' or when its value does
      not stand on one line. */
  function Apply(env: map<string, string>, pair: string): map<string, string> {
    var n := IndexOf(pair, '=');
    if n < |pair| && OneLine(pair[n + 1..]) then env[ToUpper(pair[..n]) := pair[n + 1..]] else env
  }

  function ApplyAll(env: map<string, string>, pairs: seq<string>): (r: map<string, string>)
    decreases |pairs|
  {
    if pairs == [] then env else ApplyAll(Apply(env, pairs[0]), pairs[1..])
  }

  lemma ApplyAllNone(env: map<string, string>)
    ensures ApplyAll(env, []) == env
  {
  }

  lemma ApplyAllNext(env: map<string, string>, pair: string, pairs: seq<string>)
    ensures ApplyAll(env, [pair] + pairs) == ApplyAll(Apply(env, pair), pairs)
  {
    CutAppend([pair], pairs);
  }

  function Pairs(env: map<string, string>, keys: seq<string>): (pairs: seq<string>)
    requires forall k :: k in keys ==> k in env
  {
    if keys == [] then [] else [keys[0] + "=" + env[keys[0]]] + Pairs(env, keys[1..])
  }

  class Environment {
    var env: map<string, string>
    var block: string

    constructor ()
      ensures env == map[] && block == ""
    {
      env, block := map[], "";
    }

    /** GetCurrentEnv over the process's own block. */
    method GetCurrentEnv(current: string)
      requires Terminated(current)
      modifies this`env
      ensures env == ApplyAll(old(env), Decoded(current))
    {
      hide Decoded, Terminated, Apply, ApplyAll;
      var p := 0;
      ghost var rest := current;
      ghost var goal := ApplyAll(env, Decoded(rest));
      TerminatedNonEmpty(rest);
      while current[p] != NUL
        invariant p < |current| && rest == current[p..] && Terminated(rest)
        invariant ApplyAll(env, Decoded(rest)) == goal
        decreases |current| - p
      {
        var n := IndexOf(current[p..], NUL);
        ScanNext(rest, n);
        var pair := current[p..p + n];
        SliceOfDrop(current, p, n);
        SliceOfDrop(current, p, n + 1);
        ApplyAllNext(env, pair, Decoded(rest[n + 1..]));
        rest := rest[n + 1..];
        TerminatedNonEmpty(rest);
        env := Apply(env, pair);
        p := p + n + 1;
      }
      ScanEnds(rest);
      ApplyAllNone(env);
    }

    /** The block handed to the next launch: every variable in key order. */
    method BuildBlock() returns (ghost keys: seq<string>)
      modifies this`block
      ensures Lists(keys, env.Keys) && block == Block(Pairs(env, keys))
    {
      var order := InOrder(env.Keys);
      keys := order;
      hide Sorted;
      block := "";
      for i := 0 to |order|
        invariant block + Encoded(Pairs(env, order[i..])) == Encoded(Pairs(env, order))
      {
        TakeNext(order, i);
        var name := order[i];
        PairsNext(block, env, name, order[i + 1..]);
        block := block + name;
        block := block + "=";
        block := block + env[name];
        block := block + [NUL];
      }
      assert order[|order|..] == [];
      block := block + [NUL];
    }
  }

  lemma PairsNext(before: string, env: map<string, string>, name: string, rest: seq<string>)
    requires name in env && forall k :: k in rest ==> k in env
    ensures before + Encoded(Pairs(env, [name] + rest))
         == before + name + "=" + env[name] + [NUL] + Encoded(Pairs(env, rest))
  {
    var pair := name + "=" + env[name];
    CutAppend([name], rest);
    CutAppend([pair], Pairs(env, rest));
    Assoc(before, pair + [NUL], Encoded(Pairs(env, rest)));
    assert before + (pair + [NUL]) == before + name + "=" + env[name] + [NUL];
  }

  ghost predicate Unbroken(s: string) {
    forall c :: c in s ==> c !in {'\n', '\r', '\U{2028}', '\U{2029}'}
  }

  /** The variables that a block can carry. */
  ghost predicate Portable(env: map<string, string>) {
    forall k :: k in env ==>
      && '\0' !in k && '=' !in k && (forall i :: 0 <= i < |k| ==> !('a' <= k[i] <= 'z'))
      && '\0' !in env[k] && Unbroken(env[k])
  }

  lemma ApplyPair(env: map<string, string>, name: string, value: string)
    requires '=' !in name && ToUpper(name) == name && OneLine(value)
    ensures Apply(env, name + "=" + value) == env[name := value]
  {
    IndexOfAppend(name, '=', value);
  }

  lemma {:induction false} ApplyPairs(start: map<string, string>, env: map<string, string>, keys: seq<string>)
    requires Portable(env) && forall k :: k in keys ==> k in env
    ensures ApplyAll(start, Pairs(env, keys)) == start + map k | k in keys :: env[k]
    decreases |keys|
  {
    if keys == [] {
      assert start + map[] == start;
    } else {
      var name, rest := keys[0], keys[1..];
      ApplyPair(start, name, env[name]);
      ApplyAllNext(start, name + "=" + env[name], Pairs(env, rest));
      ApplyPairs(start[name := env[name]], env, rest);
      MapNext(start, env, keys);
    }
  }

  lemma MapNext(start: map<string, string>, env: map<string, string>, keys: seq<string>)
    requires keys != [] && forall k :: k in keys ==> k in env
    ensures start[keys[0] := env[keys[0]]] + (map k | k in keys[1..] :: env[k])
         == start + map k | k in keys :: env[k]
  {
    assert forall k :: k in keys <==> k == keys[0] || k in keys[1..];
  }

  lemma {:induction false} PairsClean(env: map<string, string>, keys: seq<string>)
    requires Portable(env) && forall k :: k in keys ==> k in env
    ensures Storable(Pairs(env, keys))
  {
    if keys != [] {
      PairsClean(env, keys[1..]);
    }
  }

  /** What a scan can ever put into the map. */
  lemma {:induction false} ApplyAllPortable(env: map<string, string>, pairs: seq<string>)
    requires Portable(env) && Storable(pairs)
    ensures Portable(ApplyAll(env, pairs))
    decreases |pairs|
  {
    if pairs != [] {
      ApplyPortable(env, pairs[0]);
      ApplyAllPortable(Apply(env, pairs[0]), pairs[1..]);
    }
  }

  lemma ApplyPortable(env: map<string, string>, pair: string)
    requires Portable(env) && NUL !in pair
    ensures Portable(Apply(env, pair))
  {
    var n := IndexOf(pair, '=');
    if n < |pair| {
      var name := pair[..n];
      var key := ToUpper(name);
      assert ToUpper(key) == key;
      assert forall i :: 0 <= i < n ==> name[i] == pair[i];
      forall c | c in key ensures c != NUL && c != '=' {
        var i :| 0 <= i < |key| && key[i] == c;
        assert name[i] in name && name[i] in pair;
      }
      assert forall c :: c in pair[n + 1..] ==> c in pair;
    }
  }

  /** A block built from a map and read back on top of any other map overrides it with the whole
      map. */
  lemma EnvironmentRoundTrip(start: map<string, string>, env: map<string, string>, keys: seq<string>)
    requires Lists(keys, env.Keys) && Portable(env)
    ensures Terminated(Block(Pairs(env, keys)))
    ensures ApplyAll(start, Decoded(Block(Pairs(env, keys)))) == start + env
  {
    var pairs := Pairs(env, keys);
    PairsClean(env, keys);
    assert Block(pairs) + Nuls(0) == Block(pairs);
    DependencyRoundTrip(pairs, 0);
    ApplyPairs(start, env, keys);
    assert (map k | k in keys :: env[k]) == env;
  }

  /** A fresh wrapper reads the block back as the map it was built from exactly when every name is
      upper case and free of NUL and '=', and every value free of NUL and of line terminators. */
  lemma EnvironmentRoundTripIff(env: map<string, string>, keys: seq<string>)
    requires Lists(keys, env.Keys)
    ensures ApplyAll(map[], Decoded(Block(Pairs(env, keys)))) == env <==> Portable(env)
  {
    if Portable(env) {
      EnvironmentRoundTrip(map[], env, keys);
      assert map[] + env == env;
    }
    DecodedClean(Block(Pairs(env, keys)));
    ApplyAllPortable(map[], Decoded(Block(Pairs(env, keys))));
  }

  /** A string of a block gives a value to a variable: up to its first '=' it spells the variable's
      name, small letters standing for capitals, and what follows is on one line. */
  ghost predicate Gives(pair: string, key: string) {
    && |key| < |pair| && pair[|key|] == '='
    && (forall i :: 0 <= i < |key| ==>
          pair[i] != '=' && key[i] == if 'a' <= pair[i] <= 'z' then (pair[i] as int - 32) as char else pair[i])
    && Unbroken(pair[|key| + 1..])
  }

  lemma ApplyGives(env: map<string, string>, pair: string, key: string)
    ensures Gives(pair, key) ==> Apply(env, pair) == env[key := pair[|key| + 1..]]
    ensures !Gives(pair, key) ==>
              && (key in Apply(env, pair) <==> key in env)
              && (key in env ==> Apply(env, pair)[key] == env[key])
  {
    var n := IndexOf(pair, '=');
    if Gives(pair, key) {
      assert n == |key|;
      assert forall i :: 0 <= i < n ==> pair[..n][i] == pair[i];
      assert key == ToUpper(pair[..n]);
    } else if n < |pair| && ToUpper(pair[..n]) == key {
      assert forall i :: 0 <= i < n ==> pair[..n][i] == pair[i];
      assert !OneLine(pair[n + 1..]);
    }
  }

  /** What a scan leaves in the map for a variable is the last value that the block gives it. */
  lemma {:induction false} ScanSets(env: map<string, string>, pairs: seq<string>, i: nat, key: string)
    requires i < |pairs| && Gives(pairs[i], key)
    requires forall j :: i < j < |pairs| ==> !Gives(pairs[j], key)
    ensures key in ApplyAll(env, pairs) && ApplyAll(env, pairs)[key] == pairs[i][|key| + 1..]
    decreases |pairs|
  {
    hide Apply, Gives;
    ApplyGives(env, pairs[0], key);
    var rest := pairs[1..];
    assert forall j :: 0 <= j < |rest| ==> rest[j] == pairs[j + 1];
    if i == 0 {
      ScanKeeps(Apply(env, pairs[0]), rest, key);
    } else {
      ScanSets(Apply(env, pairs[0]), rest, i - 1, key);
    }
  }

  /** If it gives none, the variable is what it was before. */
  lemma {:induction false} ScanKeeps(env: map<string, string>, pairs: seq<string>, key: string)
    requires forall j :: 0 <= j < |pairs| ==> !Gives(pairs[j], key)
    ensures key in ApplyAll(env, pairs) <==> key in env
    ensures key in env ==> ApplyAll(env, pairs)[key] == env[key]
    decreases |pairs|
  {
    hide Apply, Gives;
    if pairs != [] {
      ApplyGives(env, pairs[0], key);
      ScanKeeps(Apply(env, pairs[0]), pairs[1..], key);
    }
  }
}
