/** What a successful run of the command-line parser guarantees: no token is lost, duplicated or
    reordered, every option has an acceptable number of values, multi-token options take all they
    can, nothing after the terminator becomes a value, and positional tokens are named in turn. */
module CommandLineLaws {
  import opened Seqs
  import opened Wrappers
  import opened Options
  import opened Positional
  import opened CommandLine

  // ---- one round

  /** Tokens that do not begin with the terminator. */
  ghost predicate NotTerminator(tokens: seq<string>) {
    tokens != [] ==> tokens[0] != "--"
  }

  /** An option read before any terminator. */
  ghost predicate Early(options: seq<Description>, allow: bool, o: Opt) {
    Complete(options, allow, o) && o.position == -1 && NotTerminator(o.tokens)
  }

  ghost predicate AllEarly(options: seq<Description>, allow: bool, opts: seq<Opt>) {
    forall i :: 0 <= i < |opts| ==> Early(options, allow, opts[i])
  }

  lemma {:induction false} FinishAllMeaning(options: seq<Description>, allow: bool, opts: seq<Opt>)
    requires forall i :: 0 <= i < |opts| ==> Raw(opts[i]) && opts[i].tokens == []
    requires FinishAll(options, allow, opts).Success?
    ensures var done := FinishAll(options, allow, opts).value;
            AllEarly(options, allow, done) && AllTokens(done) == []
  {
    if opts != [] {
      var f := Finish(options, allow, opts[0], []).value;
      FinishMeaning(options, allow, opts[0], []);
      FinishAllMeaning(options, allow, opts[1..]);
      var rest := FinishAll(options, allow, opts[1..]).value;
      assert f.opt.tokens == [];
      assert Early(options, allow, f.opt);
      AllTokensConcat([f.opt], rest);
      assert AllTokens([f.opt]) == [];
    }
  }

  lemma FinishGroupMeaning(options: seq<Description>, allow: bool, opts: seq<Opt>, tok: string, others: seq<string>)
    requires opts != [] && tok != "--"
    requires RawGroup(opts, tok)
    requires FinishGroup(options, allow, opts, others).Success?
    ensures var round := FinishGroup(options, allow, opts, others).value;
            && AllEarly(options, allow, round.opts)
            && |round.rest| <= |others| && round.rest == others[|others| - |round.rest|..]
            && AllTokens(round.opts) == [tok] + others[..|others| - |round.rest|]
  {
    hide Find, Complete, Finish, FinishAll, AllTokens;
    var front, last := opts[..|opts| - 1], opts[|opts| - 1];
    var done := FinishAll(options, allow, front).value;
    var f := Finish(options, allow, last, others).value;
    FinishAllMeaning(options, allow, front);
    FinishMeaning(options, allow, last, others);
    assert Early(options, allow, f.opt);
    AllTokensConcat(done, [f.opt]);
    OneTokens(f.opt);
    GroupTail(others, f.taken);
  }

  lemma OneTokens(o: Opt)
    ensures AllTokens([o]) == o.tokens
  {
    assert o.tokens + [] == o.tokens;
  }

  lemma GroupTail(others: seq<string>, n: nat)
    requires n <= |others|
    ensures |others[n..]| == |others| - n
  {
  }

  /** One round takes a run of tokens off the front and records exactly those, or meets the
      terminator and records everything behind it. */
  lemma RoundMeaning(options: seq<Description>, allow: bool, args: seq<string>)
    requires args != [] && OneRound(options, allow, args).Success?
    ensures var round := OneRound(options, allow, args).value;
            if args[0] == "--" then round == Round(TerminatedAll(args[1..]), [])
            else
              && AllEarly(options, allow, round.opts)
              && |round.rest| < |args| && round.rest == args[|args| - |round.rest|..]
              && AllTokens(round.opts) == args[..|args| - |round.rest|]
  {
    hide Find, Complete, Finish, FinishGroup, LongToken, Group, TerminatedAll, AllTokens, Raw;
    var tok, others := args[0], args[1..];
    if tok != "--" {
      var round := OneRound(options, allow, args).value;
      var long := LongToken(tok).value;
      LongRaw(tok);
      if long != [] {
        FinishGroupMeaning(options, allow, long, tok, others);
        RoundTokens(args, round);
      } else {
        var short := ShortToken(options, tok).value;
        ShortRaw(options, tok);
        if short != [] {
          FinishGroupMeaning(options, allow, short, tok, others);
          RoundTokens(args, round);
        } else {
          PlainEarly(options, allow, tok);
          assert args[..1] == [tok];
        }
      }
    } else {
      assert LongToken(tok) == Success([]) by {
        LongTokenMeaning(tok);
      }
    }
  }

  /** What the style parsers hand over for completion: the token itself belongs to the last option. */
  ghost predicate RawGroup(opts: seq<Opt>, tok: string) {
    forall i :: 0 <= i < |opts| ==> Raw(opts[i]) && opts[i].tokens == if i < |opts| - 1 then [] else [tok]
  }

  lemma LongRaw(tok: string)
    requires LongToken(tok).Success?
    ensures RawGroup(LongToken(tok).value, tok)
  {
    LongTokenMeaning(tok);
  }

  lemma ShortRaw(options: seq<Description>, tok: string)
    requires ShortToken(options, tok).Success?
    ensures RawGroup(ShortToken(options, tok).value, tok)
  {
    if ShortToken(options, tok).value != [] {
      GroupMeaning(options, tok, tok[..2], tok[2..]);
    }
  }

  lemma PlainEarly(options: seq<Description>, allow: bool, tok: string)
    requires tok != "--"
    ensures AllEarly(options, allow, [Plain(tok)]) && AllTokens([Plain(tok)]) == [tok]
  {
    assert Early(options, allow, Plain(tok));
    assert AllTokens([Plain(tok)]) == [tok] + [];
  }

  lemma RoundTokens(args: seq<string>, round: Round)
    requires args != [] && |round.rest| < |args| && round.rest == args[1..][|args| - 1 - |round.rest|..]
    ensures round.rest == args[|args| - |round.rest|..]
    ensures [args[0]] + args[1..][..|args| - 1 - |round.rest|] == args[..|args| - |round.rest|]
  {
  }

  // ---- the first pass

  /** The tokens behind the terminator. */
  function Behind(args: seq<string>, t: nat): seq<string>
    requires t <= |args|
  {
    if t < |args| then args[t + 1..] else []
  }

  lemma {:induction false} Pass1Meaning(options: seq<Description>, allow: bool,
                                        args: seq<string>) returns (early: seq<Opt>)
    requires Pass1(options, allow, args).Success?
    ensures var t := Reached(options, allow, args);
            && (t < |args| ==> args[t] == "--")
            && Pass1(options, allow, args).value == early + TerminatedAll(Behind(args, t))
            && AllEarly(options, allow, early) && AllTokens(early) == args[..t]
    decreases |args|
  {
    hide Pass1, Reached, OneRound, TerminatedAll, AllEarly, AllTokens, Behind;
    early := [];
    Pass1Unrolled(options, allow, args);
    if args == [] {
      NoneEarly(options, allow, []);
      assert Behind(args, 0) == [] && TerminatedAll([]) == [] by { BehindNothing(args); }
    } else {
      var round := OneRound(options, allow, args).value;
      RoundMeaning(options, allow, args);
      if args[0] == "--" {
        NoneEarly(options, allow, TerminatedAll(args[1..]));
        BehindNothing(args);
      } else {
        var later := Pass1Meaning(options, allow, round.rest);
        early := round.opts + later;
        var k, t := |args| - |round.rest|, Reached(options, allow, round.rest);
        AllTokensConcat(round.opts, later);
        AllEarlyConcat(options, allow, round.opts, later);
        BehindDrop(args, k, t);
        Assoc(round.opts, later, TerminatedAll(Behind(round.rest, t)));
      }
    }
  }

  lemma Pass1Unrolled(options: seq<Description>, allow: bool, args: seq<string>)
    requires Pass1(options, allow, args).Success?
    ensures args == [] ==> Pass1(options, allow, args).value == [] && Reached(options, allow, args) == 0
    ensures args != [] ==>
              OneRound(options, allow, args).Success?
              && var round := OneRound(options, allow, args).value;
                 && |round.rest| < |args| && Pass1(options, allow, round.rest).Success?
                 && Pass1(options, allow, args).value == round.opts + Pass1(options, allow, round.rest).value
                 && Reached(options, allow, args)
                    == (if args[0] == "--" then 0 else |args| - |round.rest| + Reached(options, allow, round.rest))
                 && (round.rest == [] ==> Pass1(options, allow, round.rest).value == [])
  {
    if args != [] {
      RoundShrinks(options, allow, args);
    }
  }

  lemma BehindNothing(args: seq<string>)
    ensures Behind(args, 0) == if args == [] then [] else args[1..]
    ensures TerminatedAll([]) == [] && args[..0] == []
  {
  }

  lemma NoneEarly(options: seq<Description>, allow: bool, tail: seq<Opt>)
    ensures AllEarly(options, allow, []) && AllTokens([]) == [] && tail + [] == [] + tail
  {
  }

  lemma AllEarlyConcat(options: seq<Description>, allow: bool, a: seq<Opt>, b: seq<Opt>)
    requires AllEarly(options, allow, a) && AllEarly(options, allow, b)
    ensures AllEarly(options, allow, a + b)
  {
    hide Early;
  }

  lemma BehindDrop(args: seq<string>, k: nat, t: nat)
    requires k + t <= |args|
    ensures args[..k + t] == args[..k] + args[k..][..t]
    ensures Behind(args, k + t) == Behind(args[k..], t)
    ensures k + t < |args| ==> args[k + t] == args[k..][t]
  {
  }

  // ---- the second pass

  /** What an option before the terminator is in the end: its name still finds its description and
      the number of its values is acceptable. */
  ghost predicate Fitted(options: seq<Description>, allow: bool, o: Opt) {
    && o.position == -1
    && (if o.key == "" then |o.value| == |o.tokens| == 1 && !o.unregistered
        else if o.unregistered then allow && Find(options, Guess(o.key)) == Success(None)
        else
          && Find(options, Guess(o.key)).Success? && Find(options, Guess(o.key)).value.Some?
          && ValuesFit(Find(options, Guess(o.key)).value.value, o))
  }

  /** The option could still take values. */
  ghost predicate Hungry(options: seq<Description>, o: Opt) {
    && o.key != "" && Find(options, Guess(o.key)).Success? && Find(options, Guess(o.key)).value.Some?
    && MayTake(Find(options, Guess(o.key)).value.value, o) > 0
  }

  /** No option that could take more is followed by a token it could take. */
  ghost predicate Greedy(options: seq<Description>, opts: seq<Opt>) {
    forall i :: 0 <= i < |opts| - 1 && Hungry(options, opts[i]) ==> opts[i + 1].key != ""
  }

  ghost predicate AllFitted(options: seq<Description>, allow: bool, opts: seq<Opt>) {
    forall i :: 0 <= i < |opts| ==>
      Fitted(options, allow, opts[i]) && NotTerminator(opts[i].tokens)
  }

  lemma {:induction false} GrabbableEarly(early: seq<Opt>, tail: seq<Opt>, limit: nat)
    requires forall i :: 0 <= i < |tail| ==> tail[i].position == INT_MAX
    ensures Grabbable(early + tail, limit) == Grabbable(early, limit)
  {
    if early == [] {
      assert early + tail == tail;
    } else {
      TailOfAppend(early, tail);
      if limit > 0 {
        GrabbableEarly(early[1..], tail, limit - 1);
      }
    }
  }

  lemma {:induction false} Pass2Terminated(options: seq<Description>, behind: seq<string>)
    ensures Pass2(options, TerminatedAll(behind)) == Success(TerminatedAll(behind))
  {
    if behind != [] {
      var o, rest := AfterTerminator(behind[0]), TerminatedAll(behind[1..]);
      CutAppend([o], rest);
      Pass2Terminated(options, behind[1..]);
      assert rest[0..] == rest && Grabbed(o, rest[..0]) == o;
    }
  }

  lemma {:induction false} LoneValues(options: seq<Description>, allow: bool, taken: seq<Opt>)
    requires AllEarly(options, allow, taken) && forall i :: 0 <= i < |taken| ==> taken[i].key == ""
    ensures |AllTokens(taken)| == |taken|
  {
    if taken != [] {
      assert Early(options, allow, taken[0]);
      LoneValues(options, allow, taken[1..]);
    }
  }

  /** The head of the second pass, with what it takes. */
  lemma GrabbedFits(options: seq<Description>, allow: bool, o: Opt, taken: seq<Opt>)
    requires Early(options, allow, o)
    requires o.key != "" ==> Find(options, Guess(o.key)).Success?
    requires var xd := if o.key == "" then None else Find(options, Guess(o.key)).value;
             |taken| <= (if xd.Some? then MayTake(xd.value, o) else 0)
    ensures var g := Grabbed(o, taken);
            Fitted(options, allow, g)
  {
    if taken == [] {
      assert Grabbed(o, taken) == o;
    }
    if o.key != "" && !o.unregistered {
      var d :| d in options && ValuesFit(d, o) && FindsNoOther(options, o.key, d);
    }
  }

  lemma {:induction false} Pass2Meaning(options: seq<Description>, allow: bool, early: seq<Opt>, behind: seq<string>)
      returns (done: seq<Opt>)
    requires AllEarly(options, allow, early) && Pass2(options, early + TerminatedAll(behind)).Success?
    ensures Pass2(options, early + TerminatedAll(behind)).value == done + TerminatedAll(behind)
    ensures AllTokens(done) == AllTokens(early)
    ensures AllFitted(options, allow, done) && Greedy(options, done)
    ensures early != [] ==> done != [] && done[0].key == early[0].key
    ensures early == [] ==> done == []
    decreases |early|
  {
    hide Complete, Fitted, Hungry, Find, AllTokens, AllFitted, Greedy, Grabbed, TerminatedAll, Pass2, Grabbable;
    var tail := TerminatedAll(behind);
    if early == [] {
      done := [];
      Pass2Terminated(options, behind);
      NoneDone(options, allow, tail);
    } else {
      var o, rest := early[0], early[1..];
      assert Early(options, allow, o);
      TailOfAppend(early, tail);
      Pass2Unrolled(options, early + tail);
      var xd := if o.key == "" then None else Find(options, Guess(o.key)).value;
      var limit := if xd.Some? then MayTake(xd.value, o) else 0;
      GrabbableEarly(rest, tail, limit);
      var n := if xd.Some? then Grabbable(rest, limit) else 0;
      CutTwice(rest, tail, n);
      var later := Pass2Meaning(options, allow, rest[n..], behind);
      var g := Grabbed(o, rest[..n]);
      done := [g] + later;
      Assoc([g], later, tail);
      GrabbedFits(options, allow, o, rest[..n]);
      GrabbedHead(options, allow, o, rest[..n]);
      TokensMove(o, rest, n, later);
      Cons(early);
      GreedyCons(options, allow, o, rest, n, later);
      FittedCons(options, allow, g, later);
      assert g.key == o.key by { GrabbedKey(o, rest[..n]); }
    }
  }

  lemma Pass2Unrolled(options: seq<Description>, opts: seq<Opt>)
    requires opts != [] && Pass2(options, opts).Success?
    ensures var o, rest := opts[0], opts[1..];
            && (o.key != "" ==> Find(options, Guess(o.key)).Success?)
            && var xd := if o.key == "" then None else Find(options, Guess(o.key)).value;
               var n := if xd.Some? then Grabbable(rest, MayTake(xd.value, o)) else 0;
               && Pass2(options, rest[n..]).Success?
               && Pass2(options, opts).value == [Grabbed(o, rest[..n])] + Pass2(options, rest[n..]).value
  {
  }

  lemma GrabbedKey(o: Opt, taken: seq<Opt>)
    ensures Grabbed(o, taken).key == o.key
  {
  }

  lemma NoneDone(options: seq<Description>, allow: bool, tail: seq<Opt>)
    ensures [] + tail == tail && AllFitted(options, allow, []) && Greedy(options, [])
  {
  }

  lemma CutTwice(rest: seq<Opt>, tail: seq<Opt>, n: nat)
    requires n <= |rest|
    ensures (rest + tail)[n..] == rest[n..] + tail && (rest + tail)[..n] == rest[..n]
  {
  }

  /** A group letter that shows no token of its own takes none that could be mistaken for one. */
  lemma GrabbedHead(options: seq<Description>, allow: bool, o: Opt, taken: seq<Opt>)
    requires Early(options, allow, o) && AllEarly(options, allow, taken)
    requires forall i :: 0 <= i < |taken| ==> taken[i].key == ""
    ensures NotTerminator(Grabbed(o, taken).tokens)
  {
    if o.tokens == [] && taken != [] {
      assert Early(options, allow, taken[0]);
      assert Grabbed(o, taken).tokens[0] == taken[0].tokens[0];
    }
  }

  lemma TokensMove(o: Opt, rest: seq<Opt>, n: nat, later: seq<Opt>)
    requires n <= |rest| && AllTokens(later) == AllTokens(rest[n..])
    ensures AllTokens([Grabbed(o, rest[..n])] + later) == AllTokens([o] + rest)
  {
    SplitAt(rest, n);
    AllTokensConcat(rest[..n], rest[n..]);
    CutAppend([Grabbed(o, rest[..n])], later);
    CutAppend([o], rest);
    Assoc(o.tokens, AllTokens(rest[..n]), AllTokens(rest[n..]));
  }

  lemma FittedCons(options: seq<Description>, allow: bool, g: Opt, later: seq<Opt>)
    requires Fitted(options, allow, g) && NotTerminator(g.tokens) && AllFitted(options, allow, later)
    ensures AllFitted(options, allow, [g] + later)
  {
    var done := [g] + later;
    forall i | 0 <= i < |done|
      ensures Fitted(options, allow, done[i]) && NotTerminator(done[i].tokens)
    {
      if i > 0 {
        assert done[i] == later[i - 1];
      }
    }
  }

  lemma GreedyCons(options: seq<Description>, allow: bool, o: Opt, rest: seq<Opt>, n: nat, later: seq<Opt>)
    requires AllEarly(options, allow, rest) && n <= |rest| && Greedy(options, later)
    requires rest[n..] != [] ==> later != [] && later[0].key == rest[n].key
    requires rest[n..] == [] ==> later == []
    requires o.key != "" ==> Find(options, Guess(o.key)).Success?
    requires var xd := if o.key == "" then None else Find(options, Guess(o.key)).value;
             n == if xd.Some? then Grabbable(rest, MayTake(xd.value, o)) else 0
    ensures Greedy(options, [Grabbed(o, rest[..n])] + later)
  {
    var g := Grabbed(o, rest[..n]);
    var done := [g] + later;
    forall i | 0 <= i < |done| - 1 && Hungry(options, done[i]) ensures done[i + 1].key != "" {
      if i == 0 {
        assert Early(options, allow, rest[n]);
      } else {
        assert done[i] == later[i - 1] && done[i + 1] == later[i];
      }
    }
  }

  // ---- positions

  /** How many positional options there are. */
  function Positionals(opts: seq<Opt>): (n: nat) {
    if opts == [] then 0 else (if opts[0].key == "" then 1 else 0) + Positionals(opts[1..])
  }

  /** The k-th positional option gets position k and the k-th name; the others are left alone. */
  lemma {:induction false} Pass3Meaning(slots: Option<Slots>, opts: seq<Opt>, position: nat, i: nat)
    requires i < |opts| && Pass3(slots, opts, position).Success?
    ensures var out, k := Pass3(slots, opts, position).value, position + Positionals(opts[..i]);
            && |out| == |opts|
            && (slots.Some? && opts[i].key == "" ==> k < slots.value.MaxTotalCount())
            && out[i] == if opts[i].key != "" then opts[i]
                         else opts[i].(key := if slots.Some? then slots.value.NameForPosition(k) else "", position := k)
    decreases |opts|
  {
    var next := if opts[0].key == "" then position + 1 else position;
    var out := Pass3(slots, opts, position).value;
    var rest := Pass3(slots, opts[1..], next).value;
    assert out[1..] == rest;
    if i == 0 {
      assert opts[..0] == [];
      if opts[1..] == [] {
        assert |rest| == 0;
      } else {
        Pass3Meaning(slots, opts[1..], next, 0);
      }
    } else {
      Pass3Meaning(slots, opts[1..], next, i - 1);
      assert opts[..i] == [opts[0]] + opts[1..][..i - 1];
      CutAppend([opts[0]], opts[1..][..i - 1]);
      assert out[i] == rest[i - 1];
    }
  }

  /** It fails exactly when there are more positional options than names. */
  lemma {:induction false} Pass3Fails(slots: Option<Slots>, opts: seq<Opt>, position: nat)
    requires slots.Some? ==> position <= slots.value.MaxTotalCount()
    ensures Pass3(slots, opts, position).Failure?
       <==> slots.Some? && position + Positionals(opts) > slots.value.MaxTotalCount()
    ensures Pass3(slots, opts, position).Failure? ==> Pass3(slots, opts, position).error == TooManyPositionalOptions
  {
    if opts != [] {
      if opts[0].key != "" {
        Pass3Fails(slots, opts[1..], position);
      } else if !(slots.Some? && position >= slots.value.MaxTotalCount()) {
        Pass3Fails(slots, opts[1..], position + 1);
      }
    }
  }

  // ---- the whole run

  /** The parsed options account for the arguments: the first n hold all tokens before position t
      in order, and then comes one option for each token behind the terminator at t. */
  ghost predicate Accounts(args: seq<string>, t: nat, opts: seq<Opt>, n: nat) {
    && t <= |args| && (t < |args| ==> args[t] == "--")
    && |opts| == n + |Behind(args, t)|
    && AllTokens(opts[..n]) == args[..t]
    && (forall i :: 0 <= i < n ==> NotTerminator(opts[i].tokens))
    && (forall j :: 0 <= j < |Behind(args, t)| ==> Lone(opts[n..][j], Behind(args, t)[j]))
  }

  /** A token of its own. */
  ghost predicate Lone(o: Opt, token: string) {
    o.value == o.tokens == [token] && o.position >= 0
  }

  ghost predicate Recorded(options: seq<Description>, allow: bool, args: seq<string>, opts: seq<Opt>)
    requires Pass1(options, allow, args).Success?
  {
    var behind := Behind(args, Reached(options, allow, args));
    |behind| <= |opts| && Accounts(args, Reached(options, allow, args), opts, |opts| - |behind|)
  }

  /** Positions aside, what each option is. */
  ghost predicate Acceptable(options: seq<Description>, allow: bool, o: Opt) {
    if o.position >= 0 then |o.value| == |o.tokens| == 1 && !o.unregistered
    else Fitted(options, allow, o) && o.key != ""
  }

  lemma {:induction false} TokensUnchanged(a: seq<Opt>, b: seq<Opt>)
    requires |a| == |b| && forall i :: 0 <= i < |a| ==> a[i].tokens == b[i].tokens
    ensures AllTokens(a) == AllTokens(b)
  {
    if a != [] {
      TokensUnchanged(a[1..], b[1..]);
    }
  }

  /** Naming changes only the key and the position of positional options. */
  ghost predicate Renamed(o: Opt, named: Opt) {
    if o.key != "" then named == o else named.position >= 0 && named == o.(key := named.key, position := named.position)
  }

  lemma Pass3Renames(slots: Option<Slots>, opts: seq<Opt>)
    requires Pass3(slots, opts, 0).Success?
    ensures var out := Pass3(slots, opts, 0).value;
            |out| == |opts| && forall i :: 0 <= i < |out| ==> Renamed(opts[i], out[i])
  {
    hide Pass3;
    Pass3None(slots);
    if opts != [] {
      Pass3Meaning(slots, opts, 0, 0);
    }
    forall i | 0 <= i < |opts| ensures Renamed(opts[i], Pass3(slots, opts, 0).value[i]) {
      Pass3Meaning(slots, opts, 0, i);
    }
  }

  lemma RenamedParts(done: seq<Opt>, tail: seq<Opt>, opts: seq<Opt>)
    requires |opts| == |done| + |tail| && forall i :: 0 <= i < |opts| ==> Renamed((done + tail)[i], opts[i])
    ensures forall i :: 0 <= i < |done| ==> Renamed(done[i], opts[i])
    ensures forall j :: 0 <= j < |tail| ==> Renamed(tail[j], opts[|done|..][j])
  {
    hide Renamed;
    forall i | 0 <= i < |done| ensures Renamed(done[i], opts[i]) {
      assert (done + tail)[i] == done[i];
    }
    forall j | 0 <= j < |tail| ensures Renamed(tail[j], opts[|done|..][j]) {
      assert (done + tail)[|done| + j] == tail[j];
    }
  }

  lemma RenamedAccounts(args: seq<string>, t: nat, done: seq<Opt>, opts: seq<Opt>)
    requires t <= |args| && (t < |args| ==> args[t] == "--") && AllTokens(done) == args[..t]
    requires forall i :: 0 <= i < |done| ==> NotTerminator(done[i].tokens)
    requires |opts| == |done| + |Behind(args, t)|
    requires forall i :: 0 <= i < |done| ==> Renamed(done[i], opts[i])
    requires forall j :: 0 <= j < |Behind(args, t)| ==> Renamed(AfterTerminator(Behind(args, t)[j]), opts[|done|..][j])
    ensures Accounts(args, t, opts, |done|)
  {
    hide AllTokens, Behind, NotTerminator;
    assert forall i :: 0 <= i < |done| ==> opts[..|done|][i].tokens == opts[i].tokens == done[i].tokens;
    TokensUnchanged(opts[..|done|], done);
  }

  lemma RenamedAcceptable(options: seq<Description>, allow: bool, done: seq<Opt>, behind: seq<string>, opts: seq<Opt>)
    requires AllFitted(options, allow, done) && |opts| == |done| + |behind|
    requires forall i :: 0 <= i < |done| ==> Renamed(done[i], opts[i])
    requires forall j :: 0 <= j < |behind| ==> Renamed(AfterTerminator(behind[j]), opts[|done|..][j])
    ensures forall i :: 0 <= i < |opts| ==> Acceptable(options, allow, opts[i])
  {
    hide NotTerminator;
    forall i | 0 <= i < |opts| ensures Acceptable(options, allow, opts[i]) {
      if i >= |done| {
        assert opts[i] == opts[|done|..][i - |done|];
      }
    }
  }

  /** Greedy, once the positional options have their positions: among the first n options none that
      was given by name and could take more is followed by a token it could take. */
  ghost predicate Sated(options: seq<Description>, opts: seq<Opt>, n: int) {
    forall i :: 0 <= i < n - 1 && n <= |opts| && opts[i].position == -1 && Hungry(options, opts[i]) ==>
      opts[i + 1].position == -1
  }

  lemma RenamedSated(options: seq<Description>, allow: bool, done: seq<Opt>, opts: seq<Opt>)
    requires AllFitted(options, allow, done) && Greedy(options, done) && |done| <= |opts|
    requires forall i :: 0 <= i < |done| ==> Renamed(done[i], opts[i])
    ensures Sated(options, opts, |done|)
  {
    hide Hungry, NotTerminator;
    forall i | 0 <= i < |done| - 1 && opts[i].position == -1 && Hungry(options, opts[i])
      ensures opts[i + 1].position == -1
    {
      assert Renamed(done[i], opts[i]) && Renamed(done[i + 1], opts[i + 1]);
      assert Fitted(options, allow, done[i + 1]);
    }
  }

  /** What a run that succeeds yields: the options record the arguments, each fits its description,
      and before the terminator that was reached none could have taken the token behind it. */
  lemma RunMeaning(options: seq<Description>, allow: bool, slots: Option<Slots>, args: seq<string>)
    requires Run(options, allow, slots, args).Success?
    ensures var opts := Run(options, allow, slots, args).value;
            && Recorded(options, allow, args, opts)
            && (forall i :: 0 <= i < |opts| ==> Acceptable(options, allow, opts[i]))
            && Sated(options, opts, |opts| - |Behind(args, Reached(options, allow, args))|)
  {
    hide Run, Pass1, Pass2, Pass3, Acceptable, AllEarly, Renamed, Greedy, Accounts, Reached, AllTokens, Behind;
    hide TerminatedAll, Fitted, NotTerminator, Sated;
    RunUnrolled(options, allow, slots, args);
    var t := Reached(options, allow, args);
    var early := Pass1Meaning(options, allow, args);
    var done := Pass2Meaning(options, allow, early, Behind(args, t));
    var opts := Run(options, allow, slots, args).value;
    Pass3Renames(slots, done + TerminatedAll(Behind(args, t)));
    RenamedParts(done, TerminatedAll(Behind(args, t)), opts);
    RenamedAccounts(args, t, done, opts);
    RenamedAcceptable(options, allow, done, Behind(args, t), opts);
    RenamedSated(options, allow, done, opts);
  }

  lemma RunUnrolled(options: seq<Description>, allow: bool, slots: Option<Slots>, args: seq<string>)
    requires Run(options, allow, slots, args).Success?
    ensures Pass1(options, allow, args).Success?
    ensures Pass2(options, Pass1(options, allow, args).value).Success?
    ensures Pass3(slots, Pass2(options, Pass1(options, allow, args).value).value, 0) == Run(options, allow, slots, args)
  {
    hide Pass1, Pass2, Pass3;
  }

  lemma Pass3None(slots: Option<Slots>)
    ensures Pass3(slots, [], 0) == Success([])
  {
  }

  /** All recorded tokens, in order, are the arguments without the one terminator reached. */
  lemma RunConserves(options: seq<Description>, allow: bool, slots: Option<Slots>, args: seq<string>)
    requires Run(options, allow, slots, args).Success?
    ensures var t := Reached(options, allow, args);
            AllTokens(Run(options, allow, slots, args).value) == args[..t] + Behind(args, t)
  {
    RunMeaning(options, allow, slots, args);
    var opts, behind := Run(options, allow, slots, args).value, Behind(args, Reached(options, allow, args));
    var n := |opts| - |behind|;
    SplitAt(opts, n);
    AllTokensConcat(opts[..n], opts[n..]);
    forall j | 0 <= j < |behind| ensures opts[n..][j].tokens == [behind[j]] {
      assert Lone(opts[n..][j], behind[j]);
    }
    LoneTokens(opts[n..], behind);
  }

  lemma {:induction false} LoneTokens(opts: seq<Opt>, tokens: seq<string>)
    requires |opts| == |tokens| && forall j :: 0 <= j < |tokens| ==> opts[j].tokens == [tokens[j]]
    ensures AllTokens(opts) == tokens
  {
    if tokens != [] {
      Cons(tokens);
      LoneTokens(opts[1..], tokens[1..]);
    }
  }
}
