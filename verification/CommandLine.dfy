/** Command-line parsing in the default style: the long, dash-short and terminator parsers, the
    completion of an option from the tokens after it, and the two passes over the result. This
    module says what each step yields; the methods that do it are in module Cmdline. */
module CommandLine {
  import opened Seqs
  import opened Wrappers
  import opened Options
  import opened Positional

  const INT_MAX: nat := 0x7FFF_FFFF

  /** A parsed option. Position -1 means "not positional", INT_MAX "after the terminator". */
  datatype Opt = Opt(key: string, position: int, value: seq<string>, tokens: seq<string>, unregistered: bool)

  function Plain(token: string): Opt {
    Opt("", -1, [token], [token], false)
  }

  function AfterTerminator(token: string): Opt {
    Opt("", INT_MAX, [token], [token], false)
  }

  /** The style flags of the default style: guessing, no case folding. */
  function Guess(name: string): Query {
    Query(name, true, false, false)
  }

  function Exact(name: string): Query {
    Query(name, false, false, false)
  }

  function AllTokens(opts: seq<Opt>): (tokens: seq<string>) {
    if opts == [] then [] else opts[0].tokens + AllTokens(opts[1..])
  }

  lemma {:induction false} AllTokensConcat(a: seq<Opt>, b: seq<Opt>)
    ensures AllTokens(a + b) == AllTokens(a) + AllTokens(b)
  {
    if a == [] {
      assert a + b == b;
    } else {
      TailOfAppend(a, b);
      AllTokensConcat(a[1..], b);
      Assoc(a[0].tokens, AllTokens(a[1..]), AllTokens(b));
    }
  }

  // ---- the style parsers on one token

  /** `--name` or `--name=value`. */
  function LongToken(tok: string): (r: Result<seq<Opt>, Error>) {
    if |tok| >= 3 && tok[0] == '-' && tok[1] == '-' then
      var p := IndexOf(tok, '=');
      if p < |tok| then
        assert p >= 2;
        if p + 1 == |tok| then Failure(EmptyAdjacentParameter)
        else Success([Opt(tok[2..p], -1, [tok[p + 1..]], [tok], false)])
      else Success([Opt(tok[2..], -1, [], [tok], false)])
    else Success([])
  }

  /** A token that starts with one dash: letters that take no value, then a letter and its value. */
  function ShortToken(options: seq<Description>, tok: string): (r: Result<seq<Opt>, Error>) {
    if |tok| >= 2 && tok[0] == '-' && tok[1] != '-' then Group(options, tok, tok[..2], tok[2..]) else Success([])
  }

  function Group(options: seq<Description>, tok: string, name: string, adjacent: string): (r: Result<seq<Opt>, Error>)
    ensures r.Success? ==> r.value != []
    decreases |adjacent|
  {
    var d :- Find(options, Exact(name));
    if d.Some? && d.value.semantic.MaxTokens() == 0 && adjacent != "" then
      var rest :- Group(options, tok, "-" + [adjacent[0]], adjacent[1..]);
      Success([Opt(name, -1, [], [], false)] + rest)
    else
      Success([Opt(name, -1, if adjacent != "" then [adjacent] else [], [tok], false)])
  }

  /** The long parser takes exactly the tokens of its form, and each one back apart. */
  lemma LongTokenMeaning(tok: string)
    ensures LongToken(tok) == Success([]) <==> !("--" <= tok && |tok| >= 3)
    ensures match LongToken(tok)
            case Failure(e) => e == EmptyAdjacentParameter && exists name :: '=' !in name && tok == "--" + name + "="
            case Success(opts) =>
              opts != [] ==>
                && |opts| == 1 && '=' !in opts[0].key && opts[0].tokens == [tok]
                && (if opts[0].value == [] then tok == "--" + opts[0].key
                    else |opts[0].value| == 1 && opts[0].value[0] != ""
                         && tok == "--" + opts[0].key + "=" + opts[0].value[0])
  {
    if "--" <= tok && |tok| >= 3 {
      assert tok[0] == '-' && tok[1] == '-' && tok == "--" + tok[2..];
      var p := IndexOf(tok, '=');
      if p < |tok| {
        assert tok == "--" + tok[2..p] + "=" + tok[p + 1..];
        assert forall k :: 0 <= k < p - 2 ==> tok[2..p][k] == tok[k + 2];
        assert '=' !in tok[2..p];
        if p + 1 == |tok| {
          assert tok == "--" + tok[2..p] + "=";
        }
      } else {
        assert forall k :: 0 <= k < |tok| - 2 ==> tok[2..][k] == tok[k + 2];
      }
    }
  }

  /** The letters of a group, put back together. */
  function Letters(opts: seq<Opt>): (s: string) {
    if opts == [] then "" else (if opts[0].key == "" then "" else opts[0].key[1..]) + Letters(opts[1..])
  }

  ghost predicate GroupShape(opts: seq<Opt>, tok: string) {
    && opts != []
    && (forall i :: 0 <= i < |opts| ==>
          && |opts[i].key| == 2 && opts[i].key[0] == '-' && opts[i].position == -1 && !opts[i].unregistered
          && (i < |opts| - 1 ==> opts[i].value == [] && opts[i].tokens == []))
    && opts[|opts| - 1].tokens == [tok]
    && |opts[|opts| - 1].value| <= 1
  }

  lemma {:induction false} GroupMeaning(options: seq<Description>, tok: string, name: string, adjacent: string)
    requires |name| == 2 && name[0] == '-' && Group(options, tok, name, adjacent).Success?
    ensures var opts := Group(options, tok, name, adjacent).value;
            && GroupShape(opts, tok)
            && name[1..] + adjacent
               == Letters(opts) + (if opts[|opts| - 1].value == [] then "" else opts[|opts| - 1].value[0])
    decreases |adjacent|
  {
    var opts := Group(options, tok, name, adjacent).value;
    var d := Find(options, Exact(name)).value;
    if d.Some? && d.value.semantic.MaxTokens() == 0 && adjacent != "" {
      var next := "-" + [adjacent[0]];
      GroupMeaning(options, tok, next, adjacent[1..]);
      var rest := Group(options, tok, next, adjacent[1..]).value;
      assert opts == [Opt(name, -1, [], [], false)] + rest;
      CutAppend([Opt(name, -1, [], [], false)], rest);
      assert next[1..] == [adjacent[0]];
      Cons(adjacent);
      assert opts[|opts| - 1] == rest[|rest| - 1];
      var last := if rest[|rest| - 1].value == [] then "" else rest[|rest| - 1].value[0];
      Assoc(name[1..], Letters(rest), last);
      GroupShapeCons(Opt(name, -1, [], [], false), rest, tok);
    } else {
      assert Letters(opts) == name[1..] + Letters([]);
      assert name[1..] + "" == name[1..];
    }
  }

  lemma GroupShapeCons(o: Opt, rest: seq<Opt>, tok: string)
    requires GroupShape(rest, tok) && |o.key| == 2 && o.key[0] == '-' && o.position == -1 && !o.unregistered
    requires o.value == [] && o.tokens == []
    ensures GroupShape([o] + rest, tok)
  {
    var opts := [o] + rest;
    forall i | 0 <= i < |opts|
      ensures |opts[i].key| == 2 && opts[i].key[0] == '-' && opts[i].position == -1 && !opts[i].unregistered
      ensures i < |opts| - 1 ==> opts[i].value == [] && opts[i].tokens == []
    {
      if i > 0 {
        assert opts[i] == rest[i - 1];
      }
    }
  }

  // ---- completing an option

  /** Whether a token looks like an option to one of the style parsers. */
  function Syntactic(options: seq<Description>, token: string): (r: Result<bool, Error>) {
    var long :- LongToken(token);
    if long != [] then Success(true) else
    var short :- ShortToken(options, token);
    Success(short != [])
  }

  /** An option and how many tokens it has taken. */
  datatype Finished = Finished(opt: Opt, taken: nat)

  /** Takes up to n tokens as values, refusing any that names a known option. */
  function Take(options: seq<Description>, opt: Opt, others: seq<string>, n: nat): (r: Result<Finished, Error>)
    ensures r.Success? ==> r.value.taken <= |others|
    decreases |others|
  {
    if others == [] || n == 0 then Success(Finished(opt, 0)) else
    var followed :- Syntactic(options, others[0]);
    var od :- if followed then Find(options, Guess(others[0])) else Success(None);
    if od.Some? then Failure(MissingParameter) else
    var next := opt.(value := opt.value + [others[0]], tokens := opt.tokens + [others[0]]);
    var rest :- Take(options, next, others[1..], n - 1);
    Success(Finished(rest.opt, rest.taken + 1))
  }

  function Needed(d: Description, opt: Opt): nat {
    if |opt.value| <= d.semantic.MinTokens() then d.semantic.MinTokens() - |opt.value| else 0
  }

  /** finish_option */
  function Finish(options: seq<Description>, allow: bool, opt: Opt, others: seq<string>): (r: Result<Finished, Error>)
    ensures r.Success? ==> r.value.taken <= |others|
  {
    if opt.key == "" then Success(Finished(opt, 0)) else
    var xd :- Find(options, Guess(opt.key));
    match xd
    case None =>
      if allow then Success(Finished(opt.(unregistered := true), 0)) else Failure(UnknownOption)
    case Some(d) =>
      if |opt.value| + |others| < d.semantic.MinTokens() then Failure(MissingParameter)
      else if opt.value != [] && d.semantic.MaxTokens() == 0 then Failure(ExtraParameter)
      else Take(options, opt.(key := d.Key(opt.key)), others, Needed(d, opt))
  }

  /** What every option is after completion: a lone token, an unknown option that was let through,
      or a known one with an acceptable number of values, found again under its canonical name. */
  ghost predicate Complete(options: seq<Description>, allow: bool, o: Opt) {
    if o.key == "" then |o.value| == |o.tokens| == 1 && !o.unregistered && (o.position == -1 || o.position == INT_MAX)
    else
      && o.position == -1
      && (if o.unregistered then allow && Find(options, Guess(o.key)) == Success(None)
          else exists d :: d in options && ValuesFit(d, o) && FindsNoOther(options, o.key, d))
  }

  ghost predicate ValuesFit(d: Description, o: Opt) {
    d.semantic.MinTokens() <= |o.value| <= d.semantic.MaxTokens()
  }

  ghost predicate FindsNoOther(options: seq<Description>, key: string, d: Description) {
    Find(options, Guess(key)).Success? ==> Find(options, Guess(key)).value == Some(d)
  }

  lemma TakeUnrolled(options: seq<Description>, opt: Opt, others: seq<string>, n: nat)
    requires Take(options, opt, others, n).Success?
    ensures var f := Take(options, opt, others, n).value;
            if others == [] || n == 0 then f == Finished(opt, 0)
            else
              var next := opt.(value := opt.value + [others[0]], tokens := opt.tokens + [others[0]]);
              var rest := Take(options, next, others[1..], n - 1);
              rest.Success? && f == Finished(rest.value.opt, rest.value.taken + 1)
  {
    hide Syntactic, Find;
  }

  lemma {:induction false} TakeMeaning(options: seq<Description>, opt: Opt, others: seq<string>, n: nat)
    requires Take(options, opt, others, n).Success?
    ensures var f := Take(options, opt, others, n).value;
            && f.taken == (if n <= |others| then n else |others|)
            && f.opt == opt.(value := opt.value + others[..f.taken], tokens := opt.tokens + others[..f.taken])
    decreases |others|
  {
    hide Take;
    TakeUnrolled(options, opt, others, n);
    if others == [] || n == 0 {
      WithEmpty(opt.value);
      WithEmpty(opt.tokens);
    } else {
      var next := opt.(value := opt.value + [others[0]], tokens := opt.tokens + [others[0]]);
      TakeMeaning(options, next, others[1..], n - 1);
      var more := others[1..][..Take(options, opt, others, n).value.taken - 1];
      TakeCons(others, |more|);
      Assoc(opt.value, [others[0]], more);
      Assoc(opt.tokens, [others[0]], more);
    }
  }

  /** A fresh option from a style parser. */
  ghost predicate Raw(o: Opt) {
    o.position == -1 && !o.unregistered && |o.value| <= 1 && (o.key == "" ==> |o.value| == |o.tokens| == 1)
  }

  lemma FinishMeaning(options: seq<Description>, allow: bool, opt: Opt, others: seq<string>)
    requires Raw(opt) && Finish(options, allow, opt, others).Success?
    ensures var f := Finish(options, allow, opt, others).value;
            && f.taken <= |others|
            && f.opt.tokens == opt.tokens + others[..f.taken]
            && f.opt.value == opt.value + others[..f.taken]
            && Complete(options, allow, f.opt)
            && (opt.key == "" <==> f.opt.key == "") && f.opt.position == -1
  {
    assert others[..0] == [] && opt.value + [] == opt.value && opt.tokens + [] == opt.tokens;
    if opt.key != "" && Find(options, Guess(opt.key)).value.Some? {
      var d := Find(options, Guess(opt.key)).value.value;
      FoundMatches(options, Guess(opt.key));
      CanonicalLookup(options, Guess(opt.key), d);
      TakeMeaning(options, opt.(key := d.Key(opt.key)), others, Needed(d, opt));
      assert Guess(opt.key).(name := d.Key(opt.key)) == Guess(d.Key(opt.key));
      var f := Finish(options, allow, opt, others).value;
      assert d in options && ValuesFit(d, f.opt) && FindsNoOther(options, f.opt.key, d);
    }
  }

  // ---- the first pass

  /** Completes all options of a group but the last, none of which can take tokens. */
  function FinishAll(options: seq<Description>, allow: bool, opts: seq<Opt>): (r: Result<seq<Opt>, Error>)
    ensures r.Success? ==> |r.value| == |opts|
  {
    if opts == [] then Success([]) else
    var f :- Finish(options, allow, opts[0], []);
    var rest :- FinishAll(options, allow, opts[1..]);
    Success([f.opt] + rest)
  }

  /** The options that one round of the main loop yields, and the tokens it leaves. */
  datatype Round = Round(opts: seq<Opt>, rest: seq<string>)

  function FinishGroup(options: seq<Description>, allow: bool, opts: seq<Opt>,
                       others: seq<string>): (r: Result<Round, Error>)
    requires opts != []
    ensures r.Success? ==> |r.value.rest| <= |others|
  {
    var front :- FinishAll(options, allow, opts[..|opts| - 1]);
    var f :- Finish(options, allow, opts[|opts| - 1], others);
    Success(Round(front + [f.opt], others[f.taken..]))
  }

  function TerminatedAll(tokens: seq<string>): (opts: seq<Opt>)
    ensures |opts| == |tokens|
    ensures forall i :: 0 <= i < |tokens| ==> opts[i] == AfterTerminator(tokens[i])
  {
    if tokens == [] then [] else [AfterTerminator(tokens[0])] + TerminatedAll(tokens[1..])
  }

  function OneRound(options: seq<Description>, allow: bool, args: seq<string>): (r: Result<Round, Error>)
    requires args != []
  {
    var long :- LongToken(args[0]);
    if long != [] then FinishGroup(options, allow, long, args[1..]) else
    var short :- ShortToken(options, args[0]);
    if short != [] then FinishGroup(options, allow, short, args[1..])
    else if args[0] == "--" then Success(Round(TerminatedAll(args[1..]), []))
    else Success(Round([Plain(args[0])], args[1..]))
  }

  /** Every round consumes the token in front. */
  lemma {:induction false} RoundShrinks(options: seq<Description>, allow: bool, args: seq<string>)
    requires args != [] && OneRound(options, allow, args).Success?
    ensures |OneRound(options, allow, args).value.rest| < |args|
  {
  }

  function Pass1(options: seq<Description>, allow: bool, args: seq<string>): (r: Result<seq<Opt>, Error>)
    decreases |args|
  {
    if args == [] then Success([]) else
    var round :- OneRound(options, allow, args);
    RoundShrinks(options, allow, args);
    var rest :- Pass1(options, allow, round.rest);
    Success(round.opts + rest)
  }

  /** How many tokens come before the terminator that the first pass reaches; all of them when it
      reaches none. A `--` taken as a value on the way is not reached. */
  function Reached(options: seq<Description>, allow: bool, args: seq<string>): (n: nat)
    requires Pass1(options, allow, args).Success?
    ensures n <= |args|
    decreases |args|
  {
    if args == [] || args[0] == "--" then 0
    else
      var rest := OneRound(options, allow, args).value.rest;
      RoundShrinks(options, allow, args);
      |args| - |rest| + Reached(options, allow, rest)
  }

  // ---- the second pass

  /** The lone tokens in front that a multi-token option may still take. */
  function Grabbable(opts: seq<Opt>, limit: nat): (n: nat)
    ensures n <= |opts| && n <= limit
    ensures forall i :: 0 <= i < n ==> opts[i].key == "" && opts[i].position != INT_MAX
    ensures n < limit && n < |opts| ==> opts[n].key != "" || opts[n].position == INT_MAX
  {
    if opts == [] || limit == 0 || opts[0].key != "" || opts[0].position == INT_MAX then 0
    else 1 + Grabbable(opts[1..], limit - 1)
  }

  function FirstValues(opts: seq<Opt>): (values: seq<string>)
    ensures |values| == |opts|
  {
    if opts == [] then [] else [if opts[0].value == [] then "" else opts[0].value[0]] + FirstValues(opts[1..])
  }

  /** How many more values the option may take in the second pass. */
  function MayTake(d: Description, o: Opt): nat {
    if d.semantic.MinTokens() < d.semantic.MaxTokens() && |o.value| < d.semantic.MaxTokens()
    then d.semantic.MaxTokens() - |o.value| else 0
  }

  function Grabbed(o: Opt, taken: seq<Opt>): Opt {
    o.(value := o.value + FirstValues(taken), tokens := o.tokens + AllTokens(taken))
  }

  function Pass2(options: seq<Description>, opts: seq<Opt>): (r: Result<seq<Opt>, Error>)
    decreases |opts|
  {
    if opts == [] then Success([]) else
    var o, rest := opts[0], opts[1..];
    var xd :- if o.key == "" then Success(None) else Find(options, Guess(o.key));
    var n := if xd.Some? then Grabbable(rest, MayTake(xd.value, o)) else 0;
    var later :- Pass2(options, rest[n..]);
    Success([Grabbed(o, rest[..n])] + later)
  }

  // ---- names for the positional options

  /** Positional options are numbered from 0; with a positional description they are also named. */
  function Pass3(slots: Option<Slots>, opts: seq<Opt>, position: nat): (r: Result<seq<Opt>, Error>) {
    if opts == [] then Success([])
    else if opts[0].key != "" then
      var rest :- Pass3(slots, opts[1..], position);
      Success([opts[0]] + rest)
    else if slots.Some? && position >= slots.value.MaxTotalCount() then Failure(TooManyPositionalOptions)
    else
      var name := if slots.Some? then slots.value.NameForPosition(position) else "";
      var rest :- Pass3(slots, opts[1..], position + 1);
      Success([opts[0].(key := name, position := position)] + rest)
  }

  /** run */
  function Run(options: seq<Description>, allow: bool, slots: Option<Slots>,
               args: seq<string>): Result<seq<Opt>, Error> {
    var one :- Pass1(options, allow, args);
    var two :- Pass2(options, one);
    Pass3(slots, two, 0)
  }
}
