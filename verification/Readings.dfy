/** That the grammar is what the parser does: item by item, in the first pass and in the second, in both
    directions. */
module Readings {
  import opened Seqs
  import opened Wrappers
  import opened Options
  import opened Positional
  import opened CommandLine
  import opened CommandLineLaws
  import opened Grammar

  // ---- the parsers on one token

  lemma LongReads(name: string, joined: Option<string>)
    requires name != "" && '=' !in name && joined != Some("")
    ensures var item := Long(name, joined, [], []);
            LongToken(item.Own()) == Success([Opt(name, -1, item.Given(), [item.Own()], false)])
  {
    var tok := Long(name, joined, [], []).Own();
    assert tok[0] == tok[1] == '-';
    if joined.Some? {
      assert tok == ("--" + name) + ['='] + joined.value;
      IndexOfAppend("--" + name, '=', joined.value);
      assert tok[2..|name| + 2] == name;
    } else {
      assert tok[2..] == name;
      assert '=' !in tok;
    }
  }

  /** The long parser accepts a token of its shape exactly if it is readable, and it is that. */
  lemma LongShape(options: seq<Description>, tok: string)
    requires Shaped(tok) && tok[1] == '-'
    ensures LongToken(tok).Success? <==> Readable(options, tok)
    ensures LongToken(tok).Success? ==> LongToken(tok).value != []
  {
    var p := IndexOf(tok, '=');
    assert forall k :: 2 <= k < p ==> tok[2..p][k - 2] == tok[k];
    if i :| 2 <= i <= |tok| && '=' !in tok[2..i] && (i == |tok| || (tok[i] == '=' && i + 1 < |tok|)) {
      assert forall k :: 2 <= k < i ==> tok[2..i][k - 2] == tok[k];
      assert i == p;
    }
  }

  lemma NotLong(tok: string)
    requires !Shaped(tok) || tok[1] != '-'
    ensures LongToken(tok) == Success([])
  {
  }

  lemma NamelessReads(tok: string)
    requires Nameless(tok)
    ensures LongToken(tok) == Success([LoneOpt(tok)])
  {
    IndexOfIs(tok, '=', 2);
    assert tok[2..2] == "";
  }

  /** What the short parser makes of a cluster. */
  function RawCluster(flags: string, last: char, adjacent: string, tok: string): (opts: seq<Opt>)
    ensures opts != []
  {
    if flags == "" then [Opt(Letter(last), -1, if adjacent != "" then [adjacent] else [], [tok], false)]
    else [Opt(Letter(flags[0]), -1, [], [], false)] + RawCluster(flags[1..], last, adjacent, tok)
  }

  lemma {:induction false} GroupReads(options: seq<Description>, tok: string, flags: string, last: char,
                                      adjacent: string)
    requires Spelled(options, flags, last, adjacent)
    ensures var letters := flags + [last] + adjacent;
            Group(options, tok, Letter(letters[0]), letters[1..]) == Success(RawCluster(flags, last, adjacent, tok))
    decreases |flags|
  {
    hide Find;
    var letters := flags + [last] + adjacent;
    if flags == "" {
      assert letters == [last] + adjacent;
    } else {
      var rest := flags[1..] + [last] + adjacent;
      assert letters[1..] == rest;
      assert IsFlag(options, flags[0]);
      GroupReads(options, tok, flags[1..], last, adjacent);
      assert "-" + [rest[0]] == Letter(rest[0]);
    }
  }

  lemma {:induction false} GroupSpelled(options: seq<Description>, tok: string, c: char, rest: string)
      returns (flags: string, last: char, adjacent: string)
    requires Group(options, tok, Letter(c), rest).Success?
    ensures [c] + rest == flags + [last] + adjacent && Spelled(options, flags, last, adjacent)
    decreases |rest|
  {
    hide Find;
    if IsFlag(options, c) && rest != "" {
      assert "-" + [rest[0]] == Letter(rest[0]);
      var more;
      more, last, adjacent := GroupSpelled(options, tok, rest[0], rest[1..]);
      flags := [c] + more;
      Cons(rest);
      assert [c] + rest == [c] + (more + [last] + adjacent);
      assert [c] + (more + [last] + adjacent) == flags + [last] + adjacent;
    } else {
      flags, last, adjacent := "", c, rest;
      assert "" + [c] + rest == [c] + rest;
    }
  }

  lemma ShortReads(options: seq<Description>, flags: string, last: char, adjacent: string)
    requires (flags + [last])[0] != '-' && Spelled(options, flags, last, adjacent)
    ensures var tok := Cluster(flags, last, adjacent, [], []).Own();
            && LongToken(tok) == Success([])
            && ShortToken(options, tok) == Success(RawCluster(flags, last, adjacent, tok))
  {
    hide Spelled, Group;
    var tok, letters := Cluster(flags, last, adjacent, [], []).Own(), flags + [last] + adjacent;
    assert tok == "-" + letters;
    assert letters[0] == (flags + [last])[0];
    assert tok[..2] == Letter(letters[0]) && tok[2..] == letters[1..];
    GroupReads(options, tok, flags, last, adjacent);
    NotLong(tok);
  }

  lemma ShortSpelled(options: seq<Description>, tok: string) returns (flags: string, last: char, adjacent: string)
    requires Shaped(tok) && tok[1] != '-' && ShortToken(options, tok).Success?
    ensures tok == Cluster(flags, last, adjacent, [], []).Own() && Spelled(options, flags, last, adjacent)
    ensures (flags + [last])[0] != '-'
  {
    hide Spelled, Group;
    assert tok[..2] == Letter(tok[1]);
    flags, last, adjacent := GroupSpelled(options, tok, tok[1], tok[2..]);
    var letters := [tok[1]] + tok[2..];
    assert tok == "-" + letters;
    assert letters[0] == (flags + [last] + adjacent)[0];
    assert "-" + (flags + [last] + adjacent) == "-" + flags + [last] + adjacent;
  }

  /** The short parser accepts a token of its shape exactly if it is a cluster. */
  lemma ShortShape(options: seq<Description>, tok: string)
    requires Shaped(tok) && tok[1] != '-'
    ensures ShortToken(options, tok).Success? <==> Readable(options, tok)
    ensures ShortToken(options, tok).Success? ==> ShortToken(options, tok).value != []
  {
    hide Spelled, Group;
    if ShortToken(options, tok).Success? {
      var flags, last, adjacent := ShortSpelled(options, tok);
    }
    if IsCluster(options, tok) {
      var flags, last, adjacent :|
        tok == Cluster(flags, last, adjacent, [], []).Own() && Spelled(options, flags, last, adjacent);
      SecondLetter(flags, last, adjacent);
      ShortReads(options, flags, last, adjacent);
    }
  }

  lemma SecondLetter(flags: string, last: char, adjacent: string)
    ensures var tok := Cluster(flags, last, adjacent, [], []).Own(); |tok| > 1 && tok[1] == (flags + [last])[0]
  {
    var letters := flags + [last];
    assert "-" + flags + [last] + adjacent == "-" + letters + adjacent;
  }

  lemma SyntacticIs(options: seq<Description>, token: string)
    ensures !Shaped(token) ==> Syntactic(options, token) == Success(false)
    ensures Shaped(token) ==> if Readable(options, token) then Syntactic(options, token) == Success(true)
                              else Syntactic(options, token).Failure?
  {
    hide LongToken, Readable;
    if Shaped(token) && token[1] == '-' {
      LongShape(options, token);
    } else {
      NotLong(token);
      if Shaped(token) {
        ShortShape(options, token);
      }
    }
  }

  // ---- completing an option

  /** An option takes the token that it needs exactly if that is a value. One that names an option is
      refused with this error. */
  lemma TakeNeeded(options: seq<Description>, opt: Opt, others: seq<string>, n: nat)
    requires n <= 1 && n <= |others|
    ensures n == 0 ==> Take(options, opt, others, n) == Success(Finished(opt, 0))
    ensures n == 1 ==>
              if IsValue(options, others[0]) then
                Take(options, opt, others, n)
                == Success(Finished(opt.(value := opt.value + [others[0]], tokens := opt.tokens + [others[0]]), 1))
              else Take(options, opt, others, n).Failure?
    ensures n == 1 && Shaped(others[0]) && Readable(options, others[0])
            && Find(options, Guess(others[0])).Success? && !Unknown(options, others[0]) ==>
              Take(options, opt, others, n) == Failure(MissingParameter)
  {
    hide Find, Readable, Syntactic;
    if n == 1 {
      SyntacticIs(options, others[0]);
      var next := opt.(value := opt.value + [others[0]], tokens := opt.tokens + [others[0]]);
      assert Take(options, next, others[1..], 0) == Success(Finished(next, 0));
    }
  }

  lemma CalledIs(options: seq<Description>, word: string, d: Description)
    requires Find(options, Guess(word)) == Success(Some(d))
    ensures Called(options, word) == d.Key(word)
  {
    KeyMeaning(d, word);
  }

  /** The option that a word becomes, with its value and the tokens it needs. */
  function Done(options: seq<Description>, word: string, given: seq<string>, own: seq<string>,
                values: seq<string>): Opt
  {
    Opt(Called(options, word), -1, given + values, own + values, Unknown(options, word))
  }

  lemma FinishReads(options: seq<Description>, allow: bool, word: string, given: seq<string>, own: seq<string>,
                    values: seq<string>, rest: seq<string>)
    requires word != "" && |given| <= 1 && Accepts(options, allow, word, given, values)
    ensures Finish(options, allow, Opt(word, -1, given, own, false), values + rest)
         == Success(Finished(Done(options, word, given, own, values), |values|))
  {
    hide Find, IsValue, Take;
    var opt := Opt(word, -1, given, own, false);
    WithEmpty(given);
    WithEmpty(own);
    if !Unknown(options, word) {
      var d := Find(options, Guess(word)).value.value;
      CalledIs(options, word, d);
      TakeNeeded(options, opt.(key := d.Key(word)), values + rest, |values|);
      if |values| == 1 {
        assert values[0] in values && (values + rest)[0] == values[0];
        assert values == [values[0]];
      }
    }
  }

  lemma FinishAccepts(options: seq<Description>, allow: bool, word: string, given: seq<string>, own: seq<string>,
                      others: seq<string>) returns (n: nat)
    requires word != "" && |given| <= 1
    requires Finish(options, allow, Opt(word, -1, given, own, false), others).Success?
    ensures n <= |others| && Accepts(options, allow, word, given, others[..n])
  {
    hide Find, IsValue, Take;
    n := 0;
    if !Unknown(options, word) {
      var d := Find(options, Guess(word)).value.value;
      n := if given == [] && NeedsValue(d) then 1 else 0;
      TakeNeeded(options, Opt(d.Key(word), -1, given, own, false), others, n);
      if n == 1 {
        assert others[..1] == [others[0]];
      }
    }
  }

  /** An option that needs a value and is followed by the name of an option has none. */
  lemma MissingValue(options: seq<Description>, allow: bool, word: string, own: seq<string>, others: seq<string>)
    requires word != "" && others != [] && Find(options, Guess(word)).Success? && !Unknown(options, word)
    requires NeedsValue(Find(options, Guess(word)).value.value)
    requires Shaped(others[0]) && Readable(options, others[0])
    requires Find(options, Guess(others[0])).Success? && !Unknown(options, others[0])
    ensures Finish(options, allow, Opt(word, -1, [], own, false), others) == Failure(MissingParameter)
  {
    hide Find, Readable, Take;
    var d := Find(options, Guess(word)).value.value;
    TakeNeeded(options, Opt(d.Key(word), -1, [], own, false), others, 1);
  }

  /** The letters in front of the last, all completed without tokens. */
  lemma {:induction false} FlagsReadAll(options: seq<Description>, allow: bool, flags: string, raw: seq<Opt>)
    requires |raw| == |flags| && forall i :: 0 <= i < |flags| ==> raw[i] == Opt(Letter(flags[i]), -1, [], [], false)
    ensures (forall i :: 0 <= i < |flags| ==> Accepts(options, allow, Letter(flags[i]), [], [])) ==>
              FinishAll(options, allow, raw) == Success(FlagOpts(options, flags))
    ensures FinishAll(options, allow, raw).Success? ==>
              forall i :: 0 <= i < |flags| ==> Accepts(options, allow, Letter(flags[i]), [], [])
    decreases |flags|
  {
    hide Find, Accepts, Finish, Called;
    if flags != "" {
      FlagsReadAll(options, allow, flags[1..], raw[1..]);
      if Accepts(options, allow, Letter(flags[0]), [], []) {
        FinishReads(options, allow, Letter(flags[0]), [], [], [], []);
        WithEmpty<string>([]);
        FlagOptsNext(options, flags);
        if forall i :: 0 <= i < |flags| ==> Accepts(options, allow, Letter(flags[i]), [], []) {
          assert forall i :: 0 <= i < |flags[1..]| ==> flags[1..][i] == flags[i + 1];
        }
      }
      if FinishAll(options, allow, raw).Success? {
        var n := FinishAccepts(options, allow, Letter(flags[0]), [], [], []);
        var none: seq<string> := [];
        assert none[..n] == none;
        forall i | 0 <= i < |flags| ensures Accepts(options, allow, Letter(flags[i]), [], []) {
          if i > 0 {
            assert flags[i] == flags[1..][i - 1];
          }
        }
      }
    }
  }

  lemma FlagOptsNext(options: seq<Description>, flags: string)
    requires flags != ""
    ensures FlagOpts(options, flags)
         == [Done(options, Letter(flags[0]), [], [], [])] + FlagOpts(options, flags[1..])
  {
    WithEmpty<string>([]);
    var first := Done(options, Letter(flags[0]), [], [], []);
    assert first == FlagOpts(options, flags)[0];
  }

  // ---- one round

  lemma {:induction false} RawClusterParts(flags: string, last: char, adjacent: string, tok: string)
    ensures var raw := RawCluster(flags, last, adjacent, tok);
            && |raw| == |flags| + 1
            && (forall i :: 0 <= i < |flags| ==> raw[i] == Opt(Letter(flags[i]), -1, [], [], false))
            && raw[|flags|] == Opt(Letter(last), -1, if adjacent != "" then [adjacent] else [], [tok], false)
    decreases |flags|
  {
    if flags != "" {
      RawClusterParts(flags[1..], last, adjacent, tok);
    }
  }

  lemma FinishGroupOne(options: seq<Description>, allow: bool, opt: Opt, others: seq<string>)
    ensures FinishGroup(options, allow, [opt], others) ==
              match Finish(options, allow, opt, others)
              case Failure(e) => Failure(e)
              case Success(f) => Success(Round([f.opt], others[f.taken..]))
  {
    hide Finish;
    assert [opt][..0] == [];
    if Finish(options, allow, opt, others).Success? {
      WithEmpty([Finish(options, allow, opt, others).value.opt]);
    }
  }

  lemma LongRound(options: seq<Description>, allow: bool, item: Item, rest: seq<string>)
    requires item.Long? && Fits(options, allow, item) && item.more == []
    ensures OneRound(options, allow, item.Tokens() + rest) == Success(Round(OptsOf(options, item), rest))
  {
    hide Find, Accepts, Finish, FinishGroup, LongToken, Called, OneRound, OptsOf, Item.Own, Item.Tokens;
    var own, opt := item.Own(), Opt(item.name, -1, item.Given(), [item.Own()], false);
    OwnToken(item);
    Assoc([own], item.values, rest);
    LongReads(item.name, item.joined);
    FirstRound(options, allow, own, item.values + rest);
    FinishReads(options, allow, item.name, item.Given(), [own], item.values, rest);
    FinishGroupOne(options, allow, opt, item.values + rest);
    CutAppend(item.values, rest);
    OptsOfLast(options, item);
    WithEmpty([Done(options, item.name, item.Given(), [own], item.values)]);
  }

  lemma FirstRound(options: seq<Description>, allow: bool, tok: string, others: seq<string>)
    requires LongToken(tok).Success? && LongToken(tok).value != []
    ensures OneRound(options, allow, [tok] + others) == FinishGroup(options, allow, LongToken(tok).value, others)
  {
    hide LongToken, FinishGroup;
    CutAppend([tok], others);
  }

  lemma OwnToken(item: Item)
    requires !item.Lone?
    ensures item.(more := []).Own() == item.Own() && item.(more := [], values := []).Own() == item.Own()
    ensures item.more == [] ==> item.Tokens() == [item.Own()] + item.values
  {
  }

  lemma OptsOfLast(options: seq<Description>, item: Item)
    requires !item.Lone? && item.more == []
    ensures OptsOf(options, item)
         == (if item.Cluster? then FlagOpts(options, item.flags) else [])
            + [Done(options, item.Word(), item.Given(), [item.Own()], item.values)]
  {
    WithEmpty(item.Given() + item.values);
    OwnToken(item);
    assert Bares([]) == [];
  }

  lemma ShortRound(options: seq<Description>, allow: bool, tok: string, others: seq<string>)
    requires LongToken(tok) == Success([]) && ShortToken(options, tok).Success? && ShortToken(options, tok).value != []
    ensures OneRound(options, allow, [tok] + others)
         == FinishGroup(options, allow, ShortToken(options, tok).value, others)
  {
    hide LongToken, ShortToken, FinishGroup;
    CutAppend([tok], others);
  }

  lemma ClusterRound(options: seq<Description>, allow: bool, item: Item, rest: seq<string>)
    requires item.Cluster? && Fits(options, allow, item) && item.more == []
    ensures OneRound(options, allow, item.Tokens() + rest) == Success(Round(OptsOf(options, item), rest))
  {
    hide Find, FinishGroup, LongToken, ShortToken, Spelled, Accepts, RawCluster, OptsOf, OneRound;
    OwnToken(item);
    Assoc([item.Own()], item.values, rest);
    ShortReads(options, item.flags, item.last, item.adjacent);
    ShortRound(options, allow, item.Own(), item.values + rest);
    ClusterFinish(options, allow, item, rest);
  }

  lemma ClusterFinish(options: seq<Description>, allow: bool, item: Item, rest: seq<string>)
    requires item.Cluster? && Fits(options, allow, item) && item.more == []
    ensures var raw := RawCluster(item.flags, item.last, item.adjacent, item.Own());
            FinishGroup(options, allow, raw, item.values + rest) ==
              Success(Round(OptsOf(options, item), rest))
  {
    hide Find, Accepts, Finish, FinishAll, Called, Spelled, Item.Own, Item.Tokens;
    var own := item.Own();
    var raw := RawCluster(item.flags, item.last, item.adjacent, own);
    RawClusterParts(item.flags, item.last, item.adjacent, own);
    hide RawCluster;
    FlagsReadAll(options, allow, item.flags, raw[..|raw| - 1]);
    FinishReads(options, allow, Letter(item.last), item.Given(), [own], item.values, rest);
    CutAppend(item.values, rest);
    OptsOfLast(options, item);
    hide OptsOf, Done, FlagOpts;
  }

  lemma LoneRound(options: seq<Description>, allow: bool, token: string, rest: seq<string>)
    requires StandsAlone(token)
    ensures OneRound(options, allow, [token] + rest) == Success(Round([LoneOpt(token)], rest))
  {
    hide Find, Finish, LongToken, Group;
    CutAppend([token], rest);
    if Nameless(token) {
      NamelessReads(token);
      FinishGroupOne(options, allow, LoneOpt(token), rest);
      assert Finish(options, allow, LoneOpt(token), rest) == Success(Finished(LoneOpt(token), 0)) by {
        FinishLone(options, allow, LoneOpt(token), rest);
      }
    } else {
      NotLong(token);
    }
  }

  lemma FinishLone(options: seq<Description>, allow: bool, opt: Opt, others: seq<string>)
    requires opt.key == ""
    ensures Finish(options, allow, opt, others) == Success(Finished(opt, 0))
  {
  }

  /** The first round of arguments that begin with an item yields its options and leaves the rest. */
  lemma RoundReads(options: seq<Description>, allow: bool, item: Item, rest: seq<string>)
    requires Fits(options, allow, item) && (!item.Lone? ==> item.more == [])
    ensures OneRound(options, allow, item.Tokens() + rest) == Success(Round(OptsOf(options, item), rest))
  {
    match item
    case Long(_, _, _, _) => LongRound(options, allow, item, rest);
    case Cluster(_, _, _, _, _) => ClusterRound(options, allow, item, rest);
    case Lone(token) => LoneRound(options, allow, token, rest);
  }

  /** A round that gets through has read an item. */
  lemma RoundFits(options: seq<Description>, allow: bool, args: seq<string>) returns (item: Item, rest: seq<string>)
    requires args != [] && args[0] != "--" && OneRound(options, allow, args).Success?
    ensures Fits(options, allow, item) && (!item.Lone? ==> item.more == []) && args == item.Tokens() + rest
  {
    hide Find, Accepts, Finish, LongToken, ShortToken, Spelled, FinishAll;
    var tok, others := args[0], args[1..];
    Cons(args);
    if Shaped(tok) && tok[1] == '-' {
      item, rest := LongFits(options, allow, tok, others);
    } else if Shaped(tok) {
      NotLong(tok);
      item, rest := ClusterFits(options, allow, tok, others);
    } else {
      item, rest := Lone(tok), others;
    }
  }

  lemma LongFits(options: seq<Description>, allow: bool, tok: string, others: seq<string>)
      returns (item: Item, rest: seq<string>)
    requires Shaped(tok) && tok[1] == '-'
    requires OneRound(options, allow, [tok] + others).Success?
    ensures Fits(options, allow, item) && (!item.Lone? ==> item.more == []) && [tok] + others == item.Tokens() + rest
  {
    hide Find, Accepts, Finish, ShortToken;
    CutAppend([tok], others);
    LongTokenMeaning(tok);
    var raw := LongToken(tok).value[0];
    hide LongToken;
    var joined := if raw.value == [] then None else Some(raw.value[0]);
    if raw.key == "" {
      item, rest := Lone(tok), others;
    } else {
      assert raw == Opt(raw.key, -1, raw.value, [tok], false);
      assert raw.value == if joined.Some? then [joined.value] else [];
      if joined.Some? {
        Assoc("--" + raw.key, "=", joined.value);
      }
      FinishGroupOne(options, allow, raw, others);
      var n := FinishAccepts(options, allow, raw.key, raw.value, [tok], others);
      item, rest := Long(raw.key, joined, others[..n], []), others[n..];
      assert item.Own() == tok;
      assert Fits(options, allow, item);
      SplitAt(others, n);
      Assoc([tok], others[..n], others[n..]);
      OwnToken(item);
    }
  }

  lemma ClusterFits(options: seq<Description>, allow: bool, tok: string, others: seq<string>)
      returns (item: Item, rest: seq<string>)
    requires Shaped(tok) && tok[1] != '-'
    requires OneRound(options, allow, [tok] + others).Success?
    ensures Fits(options, allow, item) && (!item.Lone? ==> item.more == []) && [tok] + others == item.Tokens() + rest
  {
    hide Find, Accepts, Finish, LongToken, ShortToken, FinishAll, Spelled;
    CutAppend([tok], others);
    NotLong(tok);
    ShortShape(options, tok);
    var flags, last, adjacent := ShortSpelled(options, tok);
    ShortReads(options, flags, last, adjacent);
    var raw := RawCluster(flags, last, adjacent, tok);
    RawClusterParts(flags, last, adjacent, tok);
    FlagsReadAll(options, allow, flags, raw[..|raw| - 1]);
    var given := if adjacent != "" then [adjacent] else [];
    var n := FinishAccepts(options, allow, Letter(last), given, [tok], others);
    item, rest := Cluster(flags, last, adjacent, others[..n], []), others[n..];
    SplitAt(others, n);
    Assoc([tok], others[..n], others[n..]);
    OwnToken(item);
  }

  // ---- the first pass

  /** The readings in which no option has taken more than it needs. */
  ghost predicate NoMore(doc: seq<Item>) {
    forall i :: 0 <= i < |doc| ==> doc[i].Lone? || doc[i].more == []
  }

  lemma LaterIs(behind: seq<string>)
    ensures Later(Some(behind)) == TerminatedAll(behind)
  {
  }

  lemma TerminatorRound(options: seq<Description>, allow: bool, behind: seq<string>)
    ensures OneRound(options, allow, ["--"] + behind) == Success(Round(Later(Some(behind)), []))
  {
    hide Find, Group, Finish;
    CutAppend(["--"], behind);
    LaterIs(behind);
  }

  lemma Pass1Next(options: seq<Description>, allow: bool, args: seq<string>)
    requires args != [] && OneRound(options, allow, args).Success?
    ensures var round := OneRound(options, allow, args).value;
            && |round.rest| < |args|
            && (Pass1(options, allow, args).Success? <==> Pass1(options, allow, round.rest).Success?)
            && (Pass1(options, allow, args).Success? ==>
                  Pass1(options, allow, args).value == round.opts + Pass1(options, allow, round.rest).value)
    ensures Pass1(options, allow, []) == Success([])
  {
    hide OneRound;
    RoundShrinks(options, allow, args);
  }

  /** Arguments with such a reading are accepted by the first pass, which yields its options. */
  lemma {:induction false} Pass1Reads(options: seq<Description>, allow: bool, doc: seq<Item>,
                                      behind: Option<seq<string>>)
    requires AllFit(options, allow, doc) && NoMore(doc)
    ensures Pass1(options, allow, Arguments(doc, behind)) == Success(AllOpts(options, doc) + Later(behind))
    decreases |doc|
  {
    hide OneRound, Pass1, Fits, OptsOf, Item.Tokens;
    if doc == [] {
      WithEmpty(Later(behind));
      if behind.Some? {
        var args := ["--"] + behind.value;
        WithEmpty(args);
        TerminatorRound(options, allow, behind.value);
        Pass1Next(options, allow, args);
      } else {
        NoArguments(options, allow);
      }
    } else {
      var rest := Arguments(doc[1..], behind);
      Assoc(doc[0].Tokens(), TokensOf(doc[1..]), if behind.Some? then ["--"] + behind.value else []);
      RoundReads(options, allow, doc[0], rest);
      TokensNonEmpty(doc[0], rest);
      Pass1Next(options, allow, doc[0].Tokens() + rest);
      Pass1Reads(options, allow, doc[1..], behind);
      Assoc(OptsOf(options, doc[0]), AllOpts(options, doc[1..]), Later(behind));
    }
  }

  lemma NoArguments(options: seq<Description>, allow: bool)
    ensures Pass1(options, allow, []) == Success([])
  {
  }

  lemma TokensNonEmpty(item: Item, rest: seq<string>)
    ensures item.Tokens() + rest != []
  {
  }

  /** What the first pass accepts has such a reading. */
  lemma {:induction false} Pass1Fits(options: seq<Description>, allow: bool, args: seq<string>)
      returns (doc: seq<Item>, behind: Option<seq<string>>)
    requires Pass1(options, allow, args).Success?
    ensures AllFit(options, allow, doc) && NoMore(doc) && args == Arguments(doc, behind)
    decreases |args|
  {
    hide OneRound, Pass1, Fits, Item.Tokens;
    doc, behind := [], None;
    if args != [] {
      RoundGiven(options, allow, args);
      Pass1Next(options, allow, args);
      if args[0] == "--" {
        behind := Some(args[1..]);
        Cons(args);
        WithEmpty(args);
      } else {
        var item, rest := RoundFits(options, allow, args);
        RoundReads(options, allow, item, rest);
        var more;
        more, behind := Pass1Fits(options, allow, rest);
        doc := [item] + more;
        CutAppend([item], more);
        Assoc(item.Tokens(), TokensOf(more), if behind.Some? then ["--"] + behind.value else []);
      }
    }
  }

  lemma RoundGiven(options: seq<Description>, allow: bool, args: seq<string>)
    requires args != [] && Pass1(options, allow, args).Success?
    ensures OneRound(options, allow, args).Success?
  {
  }

  // ---- the second pass

  function LoneOpts(tokens: seq<string>): (opts: seq<Opt>)
    ensures |opts| == |tokens| && forall i :: 0 <= i < |tokens| ==> opts[i] == LoneOpt(tokens[i])
  {
    seq(|tokens|, i requires 0 <= i < |tokens| => LoneOpt(tokens[i]))
  }

  /** The second pass stops at these options. */
  predicate Blocks(opts: seq<Opt>) {
    opts == [] || opts[0].key != "" || opts[0].position == INT_MAX
  }

  lemma {:induction false} GrabsLones(tokens: seq<string>, opts: seq<Opt>, limit: nat)
    requires |tokens| <= limit && (|tokens| == limit || Blocks(opts))
    ensures Grabbable(LoneOpts(tokens) + opts, limit) == |tokens|
    decreases |tokens|
  {
    if tokens == [] {
      assert LoneOpts(tokens) + opts == opts;
    } else {
      assert LoneOpts(tokens)[1..] == LoneOpts(tokens[1..]);
      TailOfAppend(LoneOpts(tokens), opts);
      GrabsLones(tokens[1..], opts, limit - 1);
    }
  }

  lemma {:induction false} LonesHave(tokens: seq<string>)
    ensures AllTokens(LoneOpts(tokens)) == tokens && FirstValues(LoneOpts(tokens)) == Bares(tokens)
    decreases |tokens|
  {
    if tokens != [] {
      assert LoneOpts(tokens)[1..] == LoneOpts(tokens[1..]);
      LonesHave(tokens[1..]);
      Cons(tokens);
      assert Bares(tokens) == [Bare(tokens[0])] + Bares(tokens[1..]);
    }
  }

  /** One option of the second pass and the lone tokens that it takes. */
  lemma Pass2Step(options: seq<Description>, o: Opt, tokens: seq<string>, opts: seq<Opt>)
    requires o.key != "" ==> Find(options, Guess(o.key)).Success?
    requires var limit := if o.key == "" then 0 else Room(options, o.key, |o.value|);
             |tokens| <= limit && (|tokens| == limit || Blocks(opts))
    ensures var whole := Pass2(options, [o] + (LoneOpts(tokens) + opts));
            && (whole.Success? <==> Pass2(options, opts).Success?)
            && (whole.Success? ==>
                  whole.value == [o.(value := o.value + Bares(tokens), tokens := o.tokens + tokens)]
                                 + Pass2(options, opts).value)
  {
    var rest := LoneOpts(tokens) + opts;
    var limit := if o.key == "" then 0 else Room(options, o.key, |o.value|);
    CutAppend([o], rest);
    CutAppend(LoneOpts(tokens), opts);
    GrabsLones(tokens, opts, limit);
    LonesHave(tokens);
    hide Find, Grabbable, FirstValues, AllTokens, LoneOpts, Bares;
    if o.key != "" && Find(options, Guess(o.key)).value.Some? {
      RoomIs(options, o.key, |o.value|, o);
    } else {
      assert tokens == [];
      assert rest[0..] == rest;
    }
  }

  lemma RoomIs(options: seq<Description>, called: string, count: nat, o: Opt)
    requires Find(options, Guess(called)).Success? && Find(options, Guess(called)).value.Some? && |o.value| == count
    ensures Room(options, called, count) == MayTake(Find(options, Guess(called)).value.value, o)
  {
  }

  lemma CalledSomething(options: seq<Description>, word: string)
    requires word != "" && Find(options, Guess(word)).Success?
    ensures Called(options, word) != ""
  {
    var found := Find(options, Guess(word)).value;
    if found.Some? {
      CanonicalLookup(options, Guess(word), found.value);
      CalledIs(options, word, found.value);
    }
  }

  /** Options that block are left alone. */
  lemma {:induction false} Pass2Front(options: seq<Description>, front: seq<Opt>, opts: seq<Opt>)
    requires forall i :: 0 <= i < |front| ==> front[i].key != "" && Find(options, Guess(front[i].key)).Success?
    requires Blocks(opts)
    ensures Pass2(options, front + opts).Success? <==> Pass2(options, opts).Success?
    ensures Pass2(options, opts).Success? ==>
              Pass2(options, front + opts).value == front + Pass2(options, opts).value
    decreases |front|
  {
    hide Pass2, Find;
    if front == [] {
      WithEmpty(opts);
      if Pass2(options, opts).Success? {
        WithEmpty(Pass2(options, opts).value);
      }
    } else {
      var o, rest := front[0], front[1..];
      Pass2Front(options, rest, opts);
      Cons(front);
      assert [o] + (rest + opts) == front + opts;
      assert LoneOpts([]) + (rest + opts) == rest + opts;
      assert Blocks(rest + opts);
      Pass2Step(options, o, [], rest + opts);
      assert o.(value := o.value + Bares([]), tokens := o.tokens + []) == o;
      if Pass2(options, opts).Success? {
        Assoc([o], rest, Pass2(options, opts).value);
      }
    }
  }

  lemma {:induction false} Pass2FrontFinds(options: seq<Description>, front: seq<Opt>, opts: seq<Opt>)
    requires forall i :: 0 <= i < |front| ==> front[i].key != ""
    requires Blocks(opts) && Pass2(options, front + opts).Success?
    ensures forall i :: 0 <= i < |front| ==> Find(options, Guess(front[i].key)).Success?
    decreases |front|
  {
    hide Find;
    if front != [] {
      var o, rest := front[0], front[1..];
      Cons(front);
      Assoc([o], rest, opts);
      Pass2HeadFinds(options, o, rest + opts);
      assert LoneOpts([]) + (rest + opts) == rest + opts;
      assert Blocks(rest + opts);
      Pass2Step(options, o, [], rest + opts);
      Pass2FrontFinds(options, rest, opts);
    }
  }

  lemma Pass2HeadFinds(options: seq<Description>, o: Opt, opts: seq<Opt>)
    requires Pass2(options, [o] + opts).Success? && o.key != ""
    ensures Find(options, Guess(o.key)).Success?
  {
  }

  /** The flags of an item, and its last option with no more than it needs. */
  function LastOpt(options: seq<Description>, item: Item): Opt
    requires !item.Lone?
  {
    Done(options, item.Word(), item.Given(), [item.Own()], item.values)
  }

  function FrontOpts(options: seq<Description>, item: Item): seq<Opt> {
    if item.Cluster? then FlagOpts(options, item.flags) else []
  }

  lemma OptsWithMore(options: seq<Description>, item: Item, tokens: seq<string>)
    requires !item.Lone? && item.more == []
    ensures var last := LastOpt(options, item);
            && OptsOf(options, item) == FrontOpts(options, item) + [last]
            && OptsOf(options, item.(more := tokens))
               == FrontOpts(options, item)
                  + [last.(value := last.value + Bares(tokens), tokens := last.tokens + tokens)]
  {
    OptsOfLast(options, item);
    OwnToken(item);
    OwnToken(item.(more := tokens));
    Assoc(item.Given(), item.values, Bares(tokens));
  }

  lemma FrontNamed(options: seq<Description>, allow: bool, item: Item)
    requires !item.Lone? && Fits(options, allow, item)
    ensures var front := FrontOpts(options, item);
            && (forall i :: 0 <= i < |front| ==> front[i].key != "")
            && LastOpt(options, item).key != ""
            && (AllAgain(options, item) <==>
                  && (forall i :: 0 <= i < |front| ==> Find(options, Guess(front[i].key)).Success?)
                  && Find(options, Guess(LastOpt(options, item).key)).Success?)
  {
    hide Find, Called, Spelled;
    CalledSomething(options, item.Word());
    if item.Cluster? {
      forall i | 0 <= i < |item.flags| ensures Called(options, Letter(item.flags[i])) != "" {
        assert Accepts(options, allow, Letter(item.flags[i]), [], []);
        CalledSomething(options, Letter(item.flags[i]));
      }
      var front := FrontOpts(options, item);
      assert forall i :: 0 <= i < |front| ==> front[i].key == Called(options, Letter(item.flags[i]));
      assert forall i :: 0 <= i < |front| ==>
          (Again(options, Letter(item.flags[i])) <==> Find(options, Guess(front[i].key)).Success?);
    }
  }

  /** The second pass over the options of an item, the lone tokens that it takes, and the rest. */
  lemma Pass2Item(options: seq<Description>, allow: bool, item: Item, tokens: seq<string>, opts: seq<Opt>)
    requires !item.Lone? && item.more == [] && Fits(options, allow, item) && AllAgain(options, item)
    requires |tokens| <= RoomOf(options, item) && (|tokens| == RoomOf(options, item) || Blocks(opts))
    ensures var whole := Pass2(options, OptsOf(options, item) + (LoneOpts(tokens) + opts));
            && (whole.Success? <==> Pass2(options, opts).Success?)
            && (whole.Success? ==>
                  whole.value == OptsOf(options, item.(more := tokens)) + Pass2(options, opts).value)
  {
    hide Find, Pass2, OptsOf, Fits, AllAgain, FrontOpts, LoneOpts, Bares, Called;
    var front, last := FrontOpts(options, item), LastOpt(options, item);
    FrontNamed(options, allow, item);
    OptsWithMore(options, item, tokens);
    var rest := LoneOpts(tokens) + opts;
    Assoc(front, [last], rest);
    Pass2Step(options, last, tokens, opts);
    Pass2Front(options, front, [last] + rest);
    if Pass2(options, opts).Success? {
      var more := last.(value := last.value + Bares(tokens), tokens := last.tokens + tokens);
      Assoc(front, [more], Pass2(options, opts).value);
    }
  }

  /** What the second pass gets through can be looked up again. */
  lemma Pass2Again(options: seq<Description>, allow: bool, item: Item, opts: seq<Opt>)
    requires !item.Lone? && item.more == [] && Fits(options, allow, item)
    requires Pass2(options, OptsOf(options, item) + opts).Success?
    ensures AllAgain(options, item)
  {
    hide Find, Pass2, OptsOf, Fits, AllAgain, FrontOpts, LastOpt;
    var front, last := FrontOpts(options, item), LastOpt(options, item);
    FrontNamed(options, allow, item);
    OptsWithMore(options, item, []);
    Assoc(front, [last], opts);
    Pass2FrontFinds(options, front, [last] + opts);
    Pass2Front(options, front, [last] + opts);
    Pass2HeadFinds(options, last, opts);
  }

  // ---- both passes

  function LoneItems(tokens: seq<string>): (items: seq<Item>)
    ensures |items| == |tokens| && forall i :: 0 <= i < |tokens| ==> items[i] == Lone(tokens[i])
  {
    seq(|tokens|, i requires 0 <= i < |tokens| => Lone(tokens[i]))
  }

  function Bared(item: Item): Item {
    if item.Lone? then item else item.(more := [])
  }

  function MoreOf(item: Item): seq<string> {
    if item.Lone? then [] else item.more
  }

  /** The reading in which no option takes more than it needs. */
  function Flat(doc: seq<Item>): (flat: seq<Item>) {
    if doc == [] then [] else [Bared(doc[0])] + (LoneItems(MoreOf(doc[0])) + Flat(doc[1..]))
  }

  lemma {:induction false} LoneTokens(tokens: seq<string>, doc: seq<Item>)
    ensures TokensOf(LoneItems(tokens) + doc) == tokens + TokensOf(doc)
    decreases |tokens|
  {
    if tokens == [] {
      assert LoneItems(tokens) + doc == doc;
    } else {
      var items := LoneItems(tokens);
      TailOfAppend(items, doc);
      assert items[1..] == LoneItems(tokens[1..]);
      LoneTokens(tokens[1..], doc);
      Cons(tokens);
      Assoc([tokens[0]], tokens[1..], TokensOf(doc));
    }
  }

  lemma {:induction false} LoneItemOpts(options: seq<Description>, tokens: seq<string>, doc: seq<Item>)
    ensures AllOpts(options, LoneItems(tokens) + doc) == LoneOpts(tokens) + AllOpts(options, doc)
    decreases |tokens|
  {
    if tokens == [] {
      assert LoneItems(tokens) + doc == doc && LoneOpts(tokens) == [];
      WithEmpty(AllOpts(options, doc));
    } else {
      var items, opts := LoneItems(tokens), LoneOpts(tokens);
      TailOfAppend(items, doc);
      assert items[1..] == LoneItems(tokens[1..]) && opts[1..] == LoneOpts(tokens[1..]);
      LoneItemOpts(options, tokens[1..], doc);
      Cons(opts);
      Assoc([opts[0]], opts[1..], AllOpts(options, doc));
    }
  }

  lemma {:induction false} FlatTokens(doc: seq<Item>)
    ensures TokensOf(Flat(doc)) == TokensOf(doc)
  {
    if doc != [] {
      var item, rest := doc[0], LoneItems(MoreOf(doc[0])) + Flat(doc[1..]);
      FlatTokens(doc[1..]);
      LoneTokens(MoreOf(item), Flat(doc[1..]));
      CutAppend([Bared(item)], rest);
      BaredTokens(item);
      Assoc(Bared(item).Tokens(), MoreOf(item), TokensOf(doc[1..]));
    }
  }

  lemma BaredTokens(item: Item)
    ensures item.Tokens() == Bared(item).Tokens() + MoreOf(item)
  {
    if !item.Lone? {
      OwnToken(item);
      OwnToken(Bared(item));
    }
  }

  lemma BaredFits(options: seq<Description>, allow: bool, item: Item)
    ensures Fits(options, allow, Bared(item)) <==> Fits(options, allow, item)
    ensures !item.Lone? ==>
              && (AllAgain(options, Bared(item)) <==> AllAgain(options, item))
              && RoomOf(options, Bared(item)) == RoomOf(options, item)
  {
    hide Find, Accepts, Spelled, Again, Room, Called;
  }

  lemma {:induction false} FlatFits(options: seq<Description>, allow: bool, doc: seq<Item>)
    requires AllFit(options, allow, doc) && AllGather(options, doc)
    ensures AllFit(options, allow, Flat(doc)) && NoMore(Flat(doc))
    decreases |doc|
  {
    hide Fits, AllAgain, RoomOf;
    if doc != [] {
      FlatFits(options, allow, doc[1..]);
      BaredFits(options, allow, doc[0]);
      var lones := LoneItems(MoreOf(doc[0]));
      forall i | 0 <= i < |lones| ensures Fits(options, allow, lones[i]) {
        assert MoreOf(doc[0])[i] in MoreOf(doc[0]);
        LoneFits(options, allow, MoreOf(doc[0])[i]);
      }
    }
  }

  lemma LoneFits(options: seq<Description>, allow: bool, token: string)
    ensures Fits(options, allow, Lone(token)) <==> StandsAlone(token)
  {
  }

  /** The options of a reading begin with one that blocks, unless the reading begins with a token of
      its own. */
  lemma DocBlocks(options: seq<Description>, allow: bool, doc: seq<Item>, behind: Option<seq<string>>)
    requires AllFit(options, allow, doc) && (doc != [] ==> !doc[0].Lone?)
    ensures Blocks(AllOpts(options, Flat(doc)) + Later(behind))
    ensures NoMore(doc) ==> Blocks(AllOpts(options, doc) + Later(behind))
  {
    hide Find, Fits, Called, OptsOf;
    if doc != [] {
      ItemBlocks(options, allow, doc[0]);
      BaredFits(options, allow, doc[0]);
      ItemBlocks(options, allow, Bared(doc[0]));
      var rest := LoneItems(MoreOf(doc[0])) + Flat(doc[1..]);
      CutAppend([Bared(doc[0])], rest);
    }
  }

  lemma ItemBlocks(options: seq<Description>, allow: bool, item: Item)
    requires !item.Lone? && Fits(options, allow, item)
    ensures OptsOf(options, item) != [] && OptsOf(options, item)[0].key != ""
  {
    hide Find, Called, Fits, OptsOf, AllAgain, LastOpt, FrontOpts;
    BaredFits(options, allow, item);
    FrontNamed(options, allow, Bared(item));
    OptsWithMore(options, Bared(item), item.more);
    assert Bared(item).(more := item.more) == item;
  }

  lemma Pass2Lone(options: seq<Description>, o: Opt, opts: seq<Opt>)
    requires o.key == ""
    ensures Pass2(options, [o] + opts).Success? <==> Pass2(options, opts).Success?
    ensures Pass2(options, opts).Success? ==> Pass2(options, [o] + opts).value == [o] + Pass2(options, opts).value
  {
    hide Find;
    assert LoneOpts([]) + opts == opts;
    Pass2Step(options, o, [], opts);
    assert o.(value := o.value + Bares([]), tokens := o.tokens + []) == o;
  }

  /** The second pass turns the options of the flat reading into those of the reading. */
  lemma {:induction false} Pass2Reads(options: seq<Description>, allow: bool, doc: seq<Item>,
                                      behind: Option<seq<string>>)
    requires AllFit(options, allow, doc) && AllGather(options, doc)
    ensures Pass2(options, AllOpts(options, Flat(doc)) + Later(behind))
         == Success(AllOpts(options, doc) + Later(behind))
    decreases |doc|
  {
    hide Find, Fits, AllAgain, RoomOf, OptsOf, Pass2;
    var later := Later(behind);
    if doc == [] {
      WithEmpty(later);
      LaterStays(options, behind);
    } else {
      var item, rest := doc[0], doc[1..];
      var opts := AllOpts(options, Flat(rest)) + later;
      Pass2Reads(options, allow, rest, behind);
      CutAppend([Bared(item)], LoneItems(MoreOf(item)) + Flat(rest));
      LoneItemOpts(options, MoreOf(item), Flat(rest));
      Assoc(OptsOf(options, Bared(item)), LoneOpts(MoreOf(item)) + AllOpts(options, Flat(rest)), later);
      Assoc(LoneOpts(MoreOf(item)), AllOpts(options, Flat(rest)), later);
      Assoc(OptsOf(options, item), AllOpts(options, rest), later);
      if item.Lone? {
        assert LoneOpts([]) + opts == opts;
        LoneOptsOf(options, item.token);
        Pass2Lone(options, LoneOpt(item.token), opts);
      } else {
        BaredFits(options, allow, item);
        if |item.more| < RoomOf(options, item) {
          DocBlocks(options, allow, rest, behind);
        }
        Pass2Item(options, allow, Bared(item), item.more, opts);
        assert Bared(item).(more := item.more) == item;
      }
    }
  }

  lemma LoneOptsOf(options: seq<Description>, token: string)
    ensures OptsOf(options, Lone(token)) == [LoneOpt(token)]
  {
  }

  lemma LaterStays(options: seq<Description>, behind: Option<seq<string>>)
    ensures Pass2(options, Later(behind)) == Success(Later(behind))
  {
    if behind.Some? {
      LaterIs(behind.value);
      Pass2Terminated(options, behind.value);
    }
  }

  /** The tokens of their own at the front, as far as there is room. */
  function Front(flat: seq<Item>, limit: nat): (tokens: seq<string>)
    ensures |tokens| <= limit && |tokens| <= |flat|
    ensures flat[..|tokens|] == LoneItems(tokens)
    ensures |tokens| < limit && |tokens| < |flat| ==> !flat[|tokens|].Lone?
    decreases |flat|
  {
    if flat == [] || limit == 0 || !flat[0].Lone? then []
    else
      var rest := Front(flat[1..], limit - 1);
      var tokens := [flat[0].token] + rest;
      assert flat[..|tokens|] == [flat[0]] + flat[1..][..|rest|];
      tokens
  }

  /** The tokens that the second pass gives to the item in front. */
  lemma Pass2Takes(options: seq<Description>, allow: bool, item: Item, others: seq<Item>,
                   behind: Option<seq<string>>) returns (tokens: seq<string>)
    requires !item.Lone? && item.more == [] && Fits(options, allow, item) && AllFit(options, allow, others)
    requires NoMore(others)
    requires Pass2(options, OptsOf(options, item) + (AllOpts(options, others) + Later(behind))).Success?
    ensures AllAgain(options, item) && |tokens| <= RoomOf(options, item) && |tokens| <= |others|
    ensures others == LoneItems(tokens) + others[|tokens|..]
    ensures forall t :: t in tokens ==> StandsAlone(t)
    ensures |tokens| < RoomOf(options, item) && |tokens| < |others| ==> !others[|tokens|].Lone?
    ensures Pass2(options, AllOpts(options, others[|tokens|..]) + Later(behind)).Success?
  {
    hide Find, Fits, AllAgain, RoomOf, OptsOf, Pass2, AllOpts, Flat, LoneItems, LoneOpts, StandsAlone, Blocks;
    Pass2Again(options, allow, item, AllOpts(options, others) + Later(behind));
    tokens := Front(others, RoomOf(options, item));
    var flat := others[|tokens|..];
    SplitAt(others, |tokens|);
    var opts := AllOpts(options, flat) + Later(behind);
    LoneItemOpts(options, tokens, flat);
    Assoc(LoneOpts(tokens), AllOpts(options, flat), Later(behind));
    if |tokens| < RoomOf(options, item) {
      DocBlocks(options, allow, flat, behind);
    }
    Pass2Item(options, allow, item, tokens, opts);
    TokensFit(options, allow, others, tokens);
  }

  lemma GathersLone(options: seq<Description>, item: Item, rest: seq<Item>)
    requires item.Lone?
    ensures Gathers(options, item, rest) && Bared(item) == item && LoneItems(MoreOf(item)) == []
  {
  }

  lemma GathersMore(options: seq<Description>, allow: bool, item: Item, tokens: seq<string>, rest: seq<Item>,
                    others: seq<Item>)
    requires !item.Lone? && item.more == [] && Fits(options, allow, item) && AllAgain(options, item)
    requires |tokens| <= RoomOf(options, item) && (forall t :: t in tokens ==> StandsAlone(t))
    requires |tokens| < RoomOf(options, item) && others != [] ==> !others[0].Lone?
    requires Flat(rest) == others
    ensures var whole := item.(more := tokens);
            Fits(options, allow, whole) && Gathers(options, whole, rest) && Bared(whole) == item
  {
    hide Find, Fits, AllAgain, RoomOf, Flat, StandsAlone;
    var whole := item.(more := tokens);
    assert Bared(whole) == item;
    BaredFits(options, allow, whole);
    FlatFirst(rest);
  }

  /** What the second pass gets through has a reading in which every option has taken what it can. */
  lemma {:induction false} Pass2Gathers(options: seq<Description>, allow: bool, flat: seq<Item>,
                                        behind: Option<seq<string>>) returns (doc: seq<Item>)
    requires AllFit(options, allow, flat) && NoMore(flat)
    requires Pass2(options, AllOpts(options, flat) + Later(behind)).Success?
    ensures AllFit(options, allow, doc) && AllGather(options, doc) && Flat(doc) == flat
    decreases |flat|
  {
    hide Find, Fits, AllAgain, RoomOf, OptsOf, Pass2, AllOpts, Flat, LoneItems, StandsAlone, Gathers, Bared;
    doc := [];
    FlatNothing();
    if flat != [] {
      var item, others := flat[0], flat[1..];
      Cons(flat);
      WithEmpty(others);
      AllOptsNext(options, flat);
      Assoc(OptsOf(options, item), AllOpts(options, others), Later(behind));
      if item.Lone? {
        LoneOptsOf(options, item.token);
        Pass2Lone(options, LoneOpt(item.token), AllOpts(options, others) + Later(behind));
        var rest := Pass2Gathers(options, allow, others, behind);
        GathersLone(options, item, rest);
        GathersCons(options, allow, item, rest);
        doc := [item] + rest;
      } else {
        var tokens := Pass2Takes(options, allow, item, others, behind);
        var rest := Pass2Gathers(options, allow, others[|tokens|..], behind);
        GathersMore(options, allow, item, tokens, rest, others[|tokens|..]);
        GathersCons(options, allow, item.(more := tokens), rest);
        doc := [item.(more := tokens)] + rest;
      }
    }
  }

  lemma FlatNothing()
    ensures Flat([]) == [] && LoneItems([]) == []
  {
  }

  lemma TokensFit(options: seq<Description>, allow: bool, flat: seq<Item>, tokens: seq<string>)
    requires AllFit(options, allow, flat) && |tokens| <= |flat| && flat[..|tokens|] == LoneItems(tokens)
    ensures forall t :: t in tokens ==> StandsAlone(t)
  {
    hide Fits, StandsAlone;
    forall t | t in tokens ensures StandsAlone(t) {
      var i :| 0 <= i < |tokens| && tokens[i] == t;
      assert flat[i] == flat[..|tokens|][i] == Lone(t);
      LoneFits(options, allow, t);
    }
  }

  lemma AllOptsNext(options: seq<Description>, doc: seq<Item>)
    requires doc != []
    ensures AllOpts(options, doc) == OptsOf(options, doc[0]) + AllOpts(options, doc[1..])
  {
  }

  lemma FlatFirst(doc: seq<Item>)
    ensures doc == [] <==> Flat(doc) == []
    ensures doc != [] ==> (doc[0].Lone? <==> Flat(doc)[0].Lone?)
  {
  }

  lemma GathersCons(options: seq<Description>, allow: bool, item: Item, rest: seq<Item>)
    requires Fits(options, allow, item) && AllFit(options, allow, rest)
    requires Gathers(options, item, rest) && AllGather(options, rest)
    ensures AllFit(options, allow, [item] + rest) && AllGather(options, [item] + rest)
    ensures Flat([item] + rest) == [Bared(item)] + (LoneItems(MoreOf(item)) + Flat(rest))
  {
    hide Fits, Gathers;
    CutAppend([item], rest);
  }

  // ---- what the grammar says about a run

  /** The two passes accept exactly the arguments that have a reading. */
  lemma AcceptedIff(options: seq<Description>, allow: bool, args: seq<string>)
    ensures (Pass1(options, allow, args).Success? && Pass2(options, Pass1(options, allow, args).value).Success?)
       <==> exists doc, behind :: Reading(options, allow, args, doc, behind)
  {
    hide Pass1, Pass2, AllFit, AllGather, Arguments;
    if Pass1(options, allow, args).Success? && Pass2(options, Pass1(options, allow, args).value).Success? {
      var flat, behind := Pass1Fits(options, allow, args);
      Pass1Reads(options, allow, flat, behind);
      var doc := Pass2Gathers(options, allow, flat, behind);
      FlatArguments(doc, behind);
      assert Reading(options, allow, args, doc, behind);
    }
    if doc, behind :| Reading(options, allow, args, doc, behind) {
      ReadingYields(options, allow, args, doc, behind);
    }
  }

  lemma FlatArguments(doc: seq<Item>, behind: Option<seq<string>>)
    ensures Arguments(Flat(doc), behind) == Arguments(doc, behind)
  {
    FlatTokens(doc);
  }

  /** And what they yield is the options of the reading. */
  lemma ReadingYields(options: seq<Description>, allow: bool, args: seq<string>, doc: seq<Item>,
                      behind: Option<seq<string>>)
    requires Reading(options, allow, args, doc, behind)
    ensures Pass1(options, allow, args).Success?
    ensures Pass2(options, Pass1(options, allow, args).value) == Success(AllOpts(options, doc) + Later(behind))
  {
    hide Pass1, Pass2, AllFit, AllGather, Arguments;
    FlatArguments(doc, behind);
    FlatFits(options, allow, doc);
    Pass1Reads(options, allow, Flat(doc), behind);
    Pass2Reads(options, allow, doc, behind);
  }

  lemma EnoughIs(slots: Option<Slots>, entries: Option<seq<Entry>>, n: nat)
    requires Described(slots, entries)
    ensures Enough(entries, n) <==> !(slots.Some? && n > slots.value.MaxTotalCount())
  {
    hide NamesTheRest, Covered;
  }

  lemma PlacesAll(slots: Option<Slots>, entries: Option<seq<Entry>>, before: seq<Opt>)
    requires Described(slots, entries)
    ensures Pass3(slots, before, 0).Success? <==> Enough(entries, Positionals(before))
    ensures Pass3(slots, before, 0).Success? ==> Placed(entries, before, Pass3(slots, before, 0).value)
  {
    hide Pass3, Describes, Covered, NamesTheRest, Total;
    Pass3Fails(slots, before, 0);
    EnoughIs(slots, entries, Positionals(before));
    if Pass3(slots, before, 0).Success? {
      Pass3Renames(slots, before);
      var opts := Pass3(slots, before, 0).value;
      forall i | 0 <= i < |opts| && before[i].key == ""
        ensures opts[i] == before[i].(key := opts[i].key, position := Positionals(before[..i]))
        ensures NamedBy(entries, Positionals(before[..i]), opts[i].key)
      {
        Pass3Meaning(slots, before, 0, i);
        if slots.Some? {
          PositionMeaning(slots.value, entries.value, Positionals(before[..i]));
        }
      }
      forall i | 0 <= i < |opts| && before[i].key != "" ensures opts[i] == before[i] {
        Pass3Meaning(slots, before, 0, i);
      }
    }
  }

  /** A run accepts exactly the arguments that have a reading with no more positional options than
      there are names; it yields the options of the reading, the positional ones numbered and named. */
  lemma RunIff(options: seq<Description>, allow: bool, slots: Option<Slots>, entries: Option<seq<Entry>>,
               args: seq<string>)
    requires Described(slots, entries)
    ensures Run(options, allow, slots, args).Success? <==>
              exists doc, behind :: Reading(options, allow, args, doc, behind)
                                    && Enough(entries, Positionals(AllOpts(options, doc) + Later(behind)))
    ensures forall doc, behind ::
              Reading(options, allow, args, doc, behind) && Run(options, allow, slots, args).Success? ==>
                Placed(entries, AllOpts(options, doc) + Later(behind), Run(options, allow, slots, args).value)
  {
    hide Pass1, Pass2, Pass3, Reading, Described, Placed, Enough;
    AcceptedIff(options, allow, args);
    RunParts(options, allow, slots, args);
    forall doc, behind | Reading(options, allow, args, doc, behind)
      ensures Run(options, allow, slots, args).Success?
         <==> Enough(entries, Positionals(AllOpts(options, doc) + Later(behind)))
      ensures Run(options, allow, slots, args).Success? ==>
                Placed(entries, AllOpts(options, doc) + Later(behind), Run(options, allow, slots, args).value)
    {
      ReadingYields(options, allow, args, doc, behind);
      PlacesAll(slots, entries, AllOpts(options, doc) + Later(behind));
    }
  }

  lemma RunParts(options: seq<Description>, allow: bool, slots: Option<Slots>, args: seq<string>)
    ensures var one := Pass1(options, allow, args);
            Run(options, allow, slots, args) ==
              if one.Failure? then Failure(one.error)
              else if Pass2(options, one.value).Failure? then Failure(Pass2(options, one.value).error)
              else Pass3(slots, Pass2(options, one.value).value, 0)
  {
    hide Pass1, Pass2, Pass3;
  }
}
