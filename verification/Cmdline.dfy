/** The command-line parser as it runs: style parsers that erase tokens from the front of a shared
    vector, the completion of options from what is left, and the passes over the result. Each
    method does what module CommandLine says. */
module Cmdline {
  import opened Seqs
  import opened Wrappers
  import opened Options
  import opened Positional
  import opened CommandLine
  import opened CommandLineLaws

  /** A vector of tokens passed by reference. */
  class Tokens {
    var items: seq<string>

    constructor (items: seq<string>)
      ensures this.items == items
    {
      this.items := items;
    }
  }

  /** The outcome of taking when some tokens have been taken before. */
  function AfterTaking(f: Result<Finished, Error>, taken: nat): Result<Finished, Error> {
    if f.Success? then Success(Finished(f.value.opt, taken + f.value.taken)) else f
  }

  lemma AfterTakingNone(f: Result<Finished, Error>)
    ensures AfterTaking(f, 0) == f
  {
  }

  lemma TakeOne(options: seq<Description>, opt: Opt, others: seq<string>, n: nat, taken: nat)
    ensures AfterTaking(Take(options, opt, others, n), taken) ==
            if others == [] || n == 0 then Success(Finished(opt, taken))
            else
              var followed := Syntactic(options, others[0]);
              if followed.Failure? then Failure(followed.error)
              else
                var od := if followed.value then Find(options, Guess(others[0])) else Success(None);
                if od.Failure? then Failure(od.error)
                else if od.value.Some? then Failure(MissingParameter)
                else
                  var next := opt.(value := opt.value + [others[0]], tokens := opt.tokens + [others[0]]);
                  AfterTaking(Take(options, next, others[1..], n - 1), taken + 1)
  {
    hide Syntactic, Find;
  }

  // ---- positions, in the source's two steps

  function Number(opts: seq<Opt>, k: nat): (r: seq<Opt>)
    ensures |r| == |opts|
  {
    if opts == [] then []
    else if opts[0].key == "" then [opts[0].(position := k)] + Number(opts[1..], k + 1)
    else [opts[0]] + Number(opts[1..], k)
  }

  function Name(slots: Slots, opts: seq<Opt>, position: nat): (r: Result<seq<Opt>, Error>) {
    if opts == [] then Success([])
    else if opts[0].position == -1 then Prepend([opts[0]], Name(slots, opts[1..], position))
    else if position >= slots.MaxTotalCount() then Failure(TooManyPositionalOptions)
    else Prepend([opts[0].(key := slots.NameForPosition(position))], Name(slots, opts[1..], position + 1))
  }

  /** Options with a name carry no position. */
  ghost predicate NamedUnpositioned(opts: seq<Opt>) {
    forall i :: 0 <= i < |opts| && opts[i].key != "" ==> opts[i].position == -1
  }

  lemma {:induction false} NumberThenName(slots: Option<Slots>, opts: seq<Opt>, k: nat)
    requires NamedUnpositioned(opts)
    ensures Pass3(slots, opts, k)
         == if slots.Some? then Name(slots.value, Number(opts, k), k) else Success(Number(opts, k))
    decreases |opts|
  {
    if opts != [] {
      var next := if opts[0].key == "" then k + 1 else k;
      var head := if opts[0].key == "" then opts[0].(position := k) else opts[0];
      CutAppend([head], Number(opts[1..], next));
      if slots.Some? ==> opts[0].key != "" || k < slots.value.MaxTotalCount() {
        NumberThenName(slots, opts[1..], next);
      }
    }
  }

  lemma PassesUnposition(options: seq<Description>, allow: bool, args: seq<string>)
    requires Pass1(options, allow, args).Success? && Pass2(options, Pass1(options, allow, args).value).Success?
    ensures NamedUnpositioned(Pass2(options, Pass1(options, allow, args).value).value)
  {
    var early := Pass1Meaning(options, allow, args);
    var behind := Behind(args, Reached(options, allow, args));
    var done := Pass2Meaning(options, allow, early, behind);
    hide TerminatedAll, Pass1, Pass2, Reached, Behind;
    var two := done + TerminatedAll(behind);
    forall i | 0 <= i < |two| ensures two[i].key != "" ==> two[i].position == -1 {
      if i < |done| {
        assert two[i] == done[i];
        assert Fitted(options, allow, done[i]);
      } else {
        assert two[i] == AfterTerminator(behind[i - |done|]);
      }
    }
  }

  class Parser {
    const args: Tokens
    const options: seq<Description>
    const allowUnregistered: bool
    const positional: Option<Slots>

    constructor (args: Tokens, options: seq<Description>, allowUnregistered: bool, positional: Option<Slots>)
      ensures this.args == args && this.options == options
      ensures this.allowUnregistered == allowUnregistered && this.positional == positional
    {
      this.args, this.options := args, options;
      this.allowUnregistered, this.positional := allowUnregistered, positional;
    }

    // ---- style parsers

    method ParseLongOption(tokens: Tokens) returns (r: Result<seq<Opt>, Error>)
      requires tokens.items != []
      modifies tokens
      ensures r == LongToken(old(tokens.items)[0])
      ensures tokens.items == if r.Success? && r.value != [] then old(tokens.items)[1..] else old(tokens.items)
    {
      var tok := tokens.items[0];
      if |tok| >= 3 && tok[0] == '-' && tok[1] == '-' {
        var name, adjacent := "", "";
        var p := IndexOf(tok, '=');
        if p < |tok| {
          assert p >= 2;
          name := tok[2..p];
          adjacent := tok[p + 1..];
          if adjacent == "" {
            return Failure(EmptyAdjacentParameter);
          }
        } else {
          name := tok[2..];
        }
        var opt := Opt(name, -1, [], [tok], false);
        if adjacent != "" {
          opt := opt.(value := [adjacent]);
        }
        tokens.items := tokens.items[1..];
        return Success([opt]);
      }
      return Success([]);
    }

    method ParseShortOption(tokens: Tokens) returns (r: Result<seq<Opt>, Error>)
      requires tokens.items != []
      modifies tokens
      ensures r == ShortToken(options, old(tokens.items)[0])
      ensures tokens.items == if r.Success? && r.value != [] then old(tokens.items)[1..] else old(tokens.items)
    {
      var tok := tokens.items[0];
      if |tok| >= 2 && tok[0] == '-' && tok[1] != '-' {
        var result: seq<Opt> := [];
        var name, adjacent := tok[..2], tok[2..];
        ghost var goal := Group(options, tok, name, adjacent);
        PrependTwice([], [], goal);
        while true
          invariant tokens.items == old(tokens.items)
          invariant Prepend(result, Group(options, tok, name, adjacent)) == goal
          decreases |adjacent|
        {
          var d := FindNothrow(options, Exact(name));
          if d.Failure? {
            return Failure(d.error);
          }
          if d.value.Some? && d.value.value.semantic.MaxTokens() == 0 && adjacent != "" {
            // what follows is in fact a further option
            var opt := Opt(name, -1, [], [], false);
            PrependTwice(result, [opt], Group(options, tok, "-" + [adjacent[0]], adjacent[1..]));
            result := result + [opt];
            name := "-" + [adjacent[0]];
            adjacent := adjacent[1..];
          } else {
            var opt := Opt(name, -1, [], [tok], false);
            if adjacent != "" {
              opt := opt.(value := [adjacent]);
            }
            result := result + [opt];
            tokens.items := tokens.items[1..];
            return Success(result);
          }
        }
      }
      return Success([]);
    }

    method ParseTerminator(tokens: Tokens) returns (result: seq<Opt>)
      requires tokens.items != []
      modifies tokens
      ensures result == if old(tokens.items)[0] == "--" then TerminatedAll(old(tokens.items)[1..]) else []
      ensures tokens.items == if old(tokens.items)[0] == "--" then [] else old(tokens.items)
    {
      result := [];
      if tokens.items[0] == "--" {
        assert result + TerminatedAll(tokens.items[1..]) == TerminatedAll(tokens.items[1..]);
        for i := 1 to |tokens.items|
          invariant tokens.items == old(tokens.items)
          invariant result + TerminatedAll(tokens.items[i..]) == TerminatedAll(tokens.items[1..])
        {
          TakeNext(tokens.items, i);
          CutAppend([tokens.items[i]], tokens.items[i + 1..]);
          Assoc(result, [AfterTerminator(tokens.items[i])], TerminatedAll(tokens.items[i + 1..]));
          result := result + [AfterTerminator(tokens.items[i])];
        }
        assert tokens.items[|tokens.items|..] == [];
        tokens.items := [];
      }
    }

    /** The i-th style parser of the default style. */
    method StyleParser(i: nat, tokens: Tokens) returns (r: Result<seq<Opt>, Error>)
      requires i < 3 && tokens.items != []
      modifies tokens
      ensures r == if i == 0 then LongToken(old(tokens.items)[0])
                   else if i == 1 then ShortToken(options, old(tokens.items)[0])
                   else Success(if old(tokens.items)[0] == "--" then TerminatedAll(old(tokens.items)[1..]) else [])
      ensures tokens.items == if i == 2 then if old(tokens.items)[0] == "--" then [] else old(tokens.items)
                              else if r.Success? && r.value != [] then old(tokens.items)[1..]
                              else old(tokens.items)
    {
      if i == 0 {
        r := ParseLongOption(tokens);
      } else if i == 1 {
        r := ParseShortOption(tokens);
      } else {
        var opts := ParseTerminator(tokens);
        r := Success(opts);
      }
    }

    // ---- completing an option

    /** Whether some style parser takes the token for an option. */
    method LooksLikeOption(token: string) returns (r: Result<bool, Error>)
      ensures r == Syntactic(options, token)
    {
      var nextToken := new Tokens([token]);
      var followed: seq<Opt> := [];
      var i := 0;
      while followed == [] && i < 3
        invariant i <= 3
        invariant followed == [] && i < 3 ==> nextToken.items == [token]
        invariant followed == [] && i >= 1 ==> LongToken(token) == Success([])
        invariant followed == [] && i >= 2 ==> ShortToken(options, token) == Success([])
        invariant followed != [] ==> Syntactic(options, token) == Success(true)
        decreases 3 - i
      {
        var next := StyleParser(i, nextToken);
        if next.Failure? {
          return Failure(next.error);
        }
        followed := next.value;
        i := i + 1;
      }
      return Success(followed != []);
    }

    method FinishOption(opt: Opt, otherTokens: Tokens) returns (r: Result<Opt, Error>)
      modifies otherTokens
      ensures var f := Finish(options, allowUnregistered, opt, old(otherTokens.items));
              if f.Failure? then r == Failure(f.error)
              else r == Success(f.value.opt) && otherTokens.items == old(otherTokens.items)[f.value.taken..]
    {
      if opt.key == "" {
        return Success(opt);
      }
      var xd := FindNothrow(options, Guess(opt.key));
      if xd.Failure? {
        return Failure(xd.error);
      }
      if xd.value.None? {
        if allowUnregistered {
          return Success(opt.(unregistered := true));
        }
        return Failure(UnknownOption);
      }
      var d := xd.value.value;
      var done := opt.(key := d.Key(opt.key));
      var minTokens, maxTokens := d.semantic.MinTokens(), d.semantic.MaxTokens();
      if |done.value| + |otherTokens.items| < minTokens {
        return Failure(MissingParameter);
      }
      if done.value != [] && maxTokens == 0 {
        return Failure(ExtraParameter);
      }
      minTokens := if |done.value| <= minTokens then minTokens - |done.value| else 0;
      r := TakeTokens(done, otherTokens, minTokens);
    }

    /** The loop of finish_option that moves values over. */
    method TakeTokens(opt: Opt, otherTokens: Tokens, needed: nat) returns (r: Result<Opt, Error>)
      modifies otherTokens
      ensures var f := Take(options, opt, old(otherTokens.items), needed);
              if f.Failure? then r == Failure(f.error)
              else r == Success(f.value.opt) && otherTokens.items == old(otherTokens.items)[f.value.taken..]
    {
      hide Take, Syntactic, Find;
      var done, left := opt, needed;
      ghost var taken := 0;
      ghost var start, goal := otherTokens.items, Take(options, opt, otherTokens.items, needed);
      AfterTakingNone(goal);
      while otherTokens.items != [] && left > 0
        invariant taken <= |start| && otherTokens.items == start[taken..]
        invariant AfterTaking(Take(options, done, otherTokens.items, left), taken) == goal
        decreases left
      {
        var token := otherTokens.items[0];
        TakeOne(options, done, otherTokens.items, left, taken);
        var followed := LooksLikeOption(token);
        if followed.Failure? {
          return Failure(followed.error);
        }
        if followed.value {
          var od := FindNothrow(options, Guess(token));
          if od.Failure? {
            return Failure(od.error);
          }
          if od.value.Some? {
            return Failure(MissingParameter);
          }
        }
        done := done.(value := done.value + [token], tokens := done.tokens + [token]);
        TakeNext(start, taken);
        otherTokens.items := otherTokens.items[1..];
        left := left - 1;
        taken := taken + 1;
      }
      TakeOne(options, done, otherTokens.items, left, taken);
      r := Success(done);
    }

    // ---- the first pass

    /** Completes what a style parser returned; only the last option may take tokens. */
    method FinishNext(next: seq<Opt>) returns (r: Result<seq<Opt>, Error>)
      requires next != []
      modifies args
      ensures var f := FinishGroup(options, allowUnregistered, next, old(args.items));
              if f.Failure? then r == Failure(f.error)
              else r == Success(f.value.opts) && args.items == f.value.rest
    {
      var front, done := next[..|next| - 1], [];
      ghost var goal := FinishAll(options, allowUnregistered, front);
      PrependTwice([], [], goal);
      assert front[0..] == front;
      for k := 0 to |front|
        invariant args.items == old(args.items)
        invariant Prepend(done, FinishAll(options, allowUnregistered, front[k..])) == goal
      {
        var e := new Tokens([]);
        var opt := FinishOption(front[k], e);
        if opt.Failure? {
          return Failure(opt.error);
        }
        PrependTwice(done, [opt.value], FinishAll(options, allowUnregistered, front[k + 1..]));
        assert front[k..][1..] == front[k + 1..];
        done := done + [opt.value];
      }
      assert done + [] == done;
      var last := FinishOption(next[|next| - 1], args);
      if last.Failure? {
        return Failure(last.error);
      }
      return Success(done + [last.value]);
    }

    /** One turn of the main loop: each style parser in turn until one consumes a token. */
    method TryParsers() returns (r: Result<seq<Opt>, Error>)
      requires args.items != []
      modifies args
      ensures var f := OneRound(options, allowUnregistered, old(args.items));
              if f.Failure? then r == Failure(f.error)
              else r == Success(f.value.opts) && args.items == f.value.rest && |args.items| < |old(args.items)|
    {
      hide FinishGroup, LongToken, ShortToken;
      ghost var start := args.items;
      var i := 0;
      while i < 3
        invariant i <= 3 && args.items == start
        invariant i >= 1 ==> LongToken(start[0]) == Success([])
        invariant i >= 2 ==> ShortToken(options, start[0]) == Success([])
        invariant i >= 3 ==> start[0] != "--"
      {
        var currentSize := |args.items|;
        var next := StyleParser(i, args);
        if next.Failure? {
          return Failure(next.error);
        }
        var found: seq<Opt> := [];
        if next.value != [] {
          if i == 2 {
            TerminatedFinish(start[1..]);
          }
          var finished := FinishNext(next.value);
          if finished.Failure? {
            return Failure(finished.error);
          }
          found := finished.value;
        }
        if |args.items| != currentSize {
          return Success(found);
        }
        i := i + 1;
      }
      var opt := Plain(args.items[0]);
      args.items := args.items[1..];
      return Success([opt]);
    }

    /** Options behind the terminator need no completion. */
    lemma {:induction false} TerminatedFinish(tokens: seq<string>)
      requires tokens != []
      ensures FinishGroup(options, allowUnregistered, TerminatedAll(tokens), [])
           == Success(Round(TerminatedAll(tokens), []))
    {
      var opts := TerminatedAll(tokens);
      LoneFinish(opts[..|opts| - 1]);
      Snoc(opts);
      var none: seq<string> := [];
      assert none[0..] == none;
    }

    lemma {:induction false} LoneFinish(opts: seq<Opt>)
      requires forall i :: 0 <= i < |opts| ==> opts[i].key == ""
      ensures FinishAll(options, allowUnregistered, opts) == Success(opts)
    {
      if opts != [] {
        LoneFinish(opts[1..]);
        Cons(opts);
      }
    }

    /** The main loop. */
    method FirstPass() returns (r: Result<seq<Opt>, Error>)
      modifies args
      ensures r == Pass1(options, allowUnregistered, old(args.items))
    {
      var result: seq<Opt> := [];
      ghost var goal := Pass1(options, allowUnregistered, args.items);
      PrependTwice([], [], goal);
      while args.items != []
        invariant Prepend(result, Pass1(options, allowUnregistered, args.items)) == goal
        decreases |args.items|
      {
        hide OneRound;
        ghost var before := args.items;
        var round := TryParsers();
        if round.Failure? {
          return Failure(round.error);
        }
        PrependTwice(result, round.value, Pass1(options, allowUnregistered, args.items));
        result := result + round.value;
      }
      assert result + [] == result;
      return Success(result);
    }

    // ---- the second pass

    /** Gives the option the lone tokens after it; `next` is where the pass goes on. */
    method GrabTokens(opt: Opt, d: Description, result: seq<Opt>, i: nat) returns (done: Opt, next: nat)
      requires i < |result| < INT_MAX
      requires NoLoneWithoutValue(result)
      ensures var n := Grabbable(result[i + 1..], MayTake(d, opt));
              next == i + 1 + n && done == Grabbed(opt, result[i + 1..][..n])
    {
      hide GrabState, Grabbed, Grabbable, NoLoneWithoutValue;
      done, next := opt, i + 1;
      var minTokens, maxTokens := d.semantic.MinTokens(), d.semantic.MaxTokens();
      ghost var rest, limit := result[i + 1..], MayTake(d, opt);
      ghost var seen, left: seq<Opt> := [], rest;
      GrabStart(opt, rest, limit);
      if minTokens < maxTokens && |opt.value| < maxTokens {
        // an unsigned difference stored in an int: huge limits come out negative, not zero
        var canTakeMore := ToInt(maxTokens - |opt.value|);
        while canTakeMore != 0 && next < |result|
          invariant i + 1 + |seen| == next <= |result| && left == result[next..] && |seen| <= limit
          invariant canTakeMore == ToInt(limit) - |seen|
          invariant GrabState(opt, rest, limit, seen, left, done)
          decreases |result| - next
        {
          var opt2 := result[next];
          if opt2.key != "" || opt2.position == INT_MAX {
            break;
          }
          LoneAt(result, next);
          GrabNext(opt, rest, limit, seen, left, done);
          done := done.(value := done.value + [opt2.value[0]]);
          done := done.(tokens := done.tokens + [opt2.tokens[0]]);
          canTakeMore := canTakeMore - 1;
          next := next + 1;
          seen, left := seen + [opt2], left[1..];
        }
      }
      GrabStop(opt, rest, limit, seen, left, done);
    }

    method SecondPass(result: seq<Opt>) returns (r: Result<seq<Opt>, Error>)
      requires |result| < INT_MAX && NoLoneWithoutValue(result)
      ensures r == Pass2(options, result)
    {
      hide Pass2, Grabbable, Grabbed, NoLoneWithoutValue;
      var result2: seq<Opt> := [];
      var i := 0;
      ghost var goal := Pass2(options, result);
      PrependTwice([], [], goal);
      assert result[0..] == result;
      while i < |result|
        invariant i <= |result|
        invariant Prepend(result2, Pass2(options, result[i..])) == goal
        decreases |result| - i
      {
        var opt := result[i];
        var next := i + 1;
        TakeNext(result, i);
        Pass2Next(options, opt, result[i + 1..]);
        if opt.key != "" {
          var xd := FindNothrow(options, Guess(opt.key));
          if xd.Failure? {
            return Failure(xd.error);
          }
          if xd.value.Some? {
            opt, next := GrabTokens(opt, xd.value.value, result, i);
            SliceOfDrop(result, i + 1, next - i - 1);
          }
        }
        PrependTwice(result2, [opt], Pass2(options, result[next..]));
        result2 := result2 + [opt];
        i := next;
      }
      Pass2None(options);
      assert result[|result|..] == [] && result2 + [] == result2;
      return Success(result2);
    }

    // ---- positions

    method AssignPositions(opts: seq<Opt>) returns (r: Result<seq<Opt>, Error>)
      requires NamedUnpositioned(opts)
      ensures r == Pass3(positional, opts, 0)
    {
      NumberThenName(positional, opts, 0);
      var result: seq<Opt> := [];
      var positionKey := 0;
      assert opts[0..] == opts && [] + Number(opts, 0) == Number(opts, 0);
      for i := 0 to |opts|
        invariant result + Number(opts[i..], positionKey) == Number(opts, 0)
      {
        TakeNext(opts, i);
        CutAppend([opts[i]], opts[i + 1..]);
        if opts[i].key == "" {
          var numbered := opts[i].(position := positionKey);
          Assoc(result, [numbered], Number(opts[i + 1..], positionKey + 1));
          result := result + [numbered];
          positionKey := positionKey + 1;
        } else {
          Assoc(result, [opts[i]], Number(opts[i + 1..], positionKey));
          result := result + [opts[i]];
        }
      }
      assert opts[|opts|..] == [] && result + [] == result;
      if positional.None? {
        return Success(result);
      }
      r := NamePositions(positional.value, result);
    }

    method NamePositions(slots: Slots, opts: seq<Opt>) returns (r: Result<seq<Opt>, Error>)
      ensures r == Name(slots, opts, 0)
    {
      var result: seq<Opt> := [];
      var position := 0;
      ghost var goal := Name(slots, opts, 0);
      PrependTwice([], [], goal);
      assert opts[0..] == opts;
      for i := 0 to |opts|
        invariant Prepend(result, Name(slots, opts[i..], position)) == goal
      {
        TakeNext(opts, i);
        CutAppend([opts[i]], opts[i + 1..]);
        var opt := opts[i];
        if opt.position != -1 {
          if position >= slots.MaxTotalCount() {
            return Failure(TooManyPositionalOptions);
          }
          opt := opt.(key := slots.NameForPosition(position));
          position := position + 1;
        }
        PrependTwice(result, [opt], Name(slots, opts[i + 1..], position));
        result := result + [opt];
      }
      assert opts[|opts|..] == [] && result + [] == result;
      return Success(result);
    }

    /** run: the int counters of the passes bound how long the command line may be. */
    method Run() returns (r: Result<seq<Opt>, Error>)
      requires Volume(args.items) < INT_MAX
      modifies args
      ensures r == CommandLine.Run(options, allowUnregistered, positional, old(args.items))
    {
      ghost var tokens := args.items;
      hide Pass1, Pass2, Pass3, NamedUnpositioned, NoLoneWithoutValue;
      var one := FirstPass();
      if one.Failure? {
        return one;
      }
      LoneHaveValues(options, allowUnregistered, tokens);
      OptionCount(options, allowUnregistered, tokens);
      var two := SecondPass(one.value);
      if two.Failure? {
        return two;
      }
      PassesUnposition(options, allowUnregistered, tokens);
      r := AssignPositions(two.value);
    }
  }

  /** The conversion of an unsigned difference to int. */
  function ToInt(x: nat): int {
    if x <= INT_MAX then x else x - 0x1_0000_0000
  }

  /** What the second pass asserts of every lone token that it may take. */
  ghost predicate NoLoneWithoutValue(opts: seq<Opt>) {
    forall i :: 0 <= i < |opts| && opts[i].key == "" ==> |opts[i].value| == 1 && |opts[i].tokens| == 1
  }

  lemma Pass2None(options: seq<Description>)
    ensures Pass2(options, []) == Success([])
  {
  }

  lemma Pass2Next(options: seq<Description>, o: Opt, rest: seq<Opt>)
    ensures var xd := if o.key == "" then Success(None) else Find(options, Guess(o.key));
            Pass2(options, [o] + rest) ==
            if xd.Failure? then Failure(xd.error)
            else if xd.value.None? then Prepend([o], Pass2(options, rest))
            else
              var n := Grabbable(rest, MayTake(xd.value.value, o));
              Prepend([Grabbed(o, rest[..n])], Pass2(options, rest[n..]))
  {
    hide Find, Grabbable;
    CutAppend([o], rest);
    assert Grabbed(o, rest[..0]) == o && rest[0..] == rest;
  }

  // ---- how many options there can be

  /** The characters of the tokens, one more counted for each. */
  function Volume(args: seq<string>): (n: nat)
    ensures n >= |args|
  {
    if args == [] then 0 else |args[0]| + 1 + Volume(args[1..])
  }

  lemma {:induction false} VolumeSuffix(args: seq<string>, k: nat)
    requires k <= |args|
    ensures Volume(args[k..]) <= Volume(args)
  {
    if k > 0 {
      VolumeSuffix(args[1..], k - 1);
      assert args[k..] == args[1..][k - 1..];
    } else {
      assert args[0..] == args;
    }
  }

  lemma {:induction false} GroupSize(options: seq<Description>, tok: string, name: string, adjacent: string)
    requires Group(options, tok, name, adjacent).Success?
    ensures |Group(options, tok, name, adjacent).value| <= |adjacent| + 1
    decreases |adjacent|
  {
    hide Find;
    var d := Find(options, Exact(name)).value;
    if d.Some? && d.value.semantic.MaxTokens() == 0 && adjacent != "" {
      GroupSize(options, tok, "-" + [adjacent[0]], adjacent[1..]);
    }
  }

  lemma RoundSize(options: seq<Description>, allow: bool, args: seq<string>)
    requires args != [] && OneRound(options, allow, args).Success?
    ensures |OneRound(options, allow, args).value.opts| + Volume(OneRound(options, allow, args).value.rest)
         <= Volume(args)
  {
    var round := OneRound(options, allow, args).value;
    RoundOptions(options, allow, args);
    if args[0] != "--" {
      RoundMeaning(options, allow, args);
      hide OneRound, AllEarly, AllTokens;
      var k := |args| - |round.rest| - 1;
      assert args[1..][k..] == round.rest;
      VolumeSuffix(args[1..], k);
    }
  }

  lemma RoundOptions(options: seq<Description>, allow: bool, args: seq<string>)
    requires args != [] && OneRound(options, allow, args).Success?
    ensures var n := |OneRound(options, allow, args).value.opts|;
            if args[0] == "--" then n < |args| && OneRound(options, allow, args).value.rest == []
            else n <= |args[0]| + 1
  {
    LongTokenMeaning(args[0]);
    hide Find, Finish, LongToken, Group;
    if LongToken(args[0]).value == [] && ShortToken(options, args[0]).value != [] {
      GroupSize(options, args[0], args[0][..2], args[0][2..]);
    }
  }

  lemma {:induction false} OptionCount(options: seq<Description>, allow: bool, args: seq<string>)
    requires Pass1(options, allow, args).Success?
    ensures |Pass1(options, allow, args).value| <= Volume(args)
    decreases |args|
  {
    if args != [] {
      hide OneRound;
      RoundShrinks(options, allow, args);
      RoundSize(options, allow, args);
      OptionCount(options, allow, OneRound(options, allow, args).value.rest);
    }
  }

  lemma LoneAt(opts: seq<Opt>, i: nat)
    requires NoLoneWithoutValue(opts) && i < |opts| && opts[i].key == ""
    ensures |opts[i].value| == 1 && |opts[i].tokens| == 1
  {
  }

  /** Where the inner loop of the second pass stands. */
  ghost predicate GrabState(o: Opt, rest: seq<Opt>, limit: nat, seen: seq<Opt>, left: seq<Opt>, done: Opt) {
    && rest == seen + left && |seen| <= limit
    && Grabbable(rest, limit) == |seen| + Grabbable(left, limit - |seen|)
    && done == Grabbed(o, seen)
  }

  lemma GrabStart(o: Opt, rest: seq<Opt>, limit: nat)
    ensures GrabState(o, rest, limit, [], rest, o)
  {
    assert [] + rest == rest && Grabbed(o, []) == o;
  }

  lemma GrabNext(o: Opt, rest: seq<Opt>, limit: nat, seen: seq<Opt>, left: seq<Opt>, done: Opt)
    requires GrabState(o, rest, limit, seen, left, done) && |seen| < limit && left != []
    requires left[0].key == "" && left[0].position != INT_MAX && |left[0].value| == 1 && |left[0].tokens| == 1
    ensures GrabState(o, rest, limit, seen + [left[0]], left[1..],
                      done.(value := done.value + [left[0].value[0]], tokens := done.tokens + [left[0].tokens[0]]))
  {
    var next := left[0];
    Cons(left);
    Assoc(seen, [next], left[1..]);
    AllTokensConcat(seen, [next]);
    FirstValuesSnoc(seen, next);
    assert AllTokens([next]) == next.tokens + [];
    assert next.tokens == [next.tokens[0]];
    Assoc(o.tokens, AllTokens(seen), next.tokens);
    Assoc(o.value, FirstValues(seen), [next.value[0]]);
  }

  lemma GrabStop(o: Opt, rest: seq<Opt>, limit: nat, seen: seq<Opt>, left: seq<Opt>, done: Opt)
    requires GrabState(o, rest, limit, seen, left, done)
    requires left == [] || |seen| == limit || left[0].key != "" || left[0].position == INT_MAX
    ensures Grabbable(rest, limit) == |seen| && done == Grabbed(o, rest[..|seen|])
  {
    CutAppend(seen, left);
  }

  lemma {:induction false} FirstValuesSnoc(opts: seq<Opt>, o: Opt)
    requires o.value != []
    ensures FirstValues(opts + [o]) == FirstValues(opts) + [o.value[0]]
  {
    if opts == [] {
      assert opts + [o] == [o];
    } else {
      TailOfAppend(opts, [o]);
      FirstValuesSnoc(opts[1..], o);
    }
  }

  /** The asserts of the second pass hold on every run. */
  lemma LoneHaveValues(options: seq<Description>, allow: bool, args: seq<string>)
    requires Pass1(options, allow, args).Success?
    ensures NoLoneWithoutValue(Pass1(options, allow, args).value)
  {
    var early := Pass1Meaning(options, allow, args);
    var behind := Behind(args, Reached(options, allow, args));
    hide TerminatedAll, Pass1, Reached, Behind;
    var one := early + TerminatedAll(behind);
    forall i | 0 <= i < |one| && one[i].key == "" ensures |one[i].value| == 1 && |one[i].tokens| == 1 {
      if i < |early| {
        assert one[i] == early[i];
        assert Early(options, allow, early[i]);
      } else {
        assert one[i] == AfterTerminator(behind[i - |early|]);
      }
    }
  }
}
