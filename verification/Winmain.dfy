/** split_winmain: how a Windows command line is cut into arguments, and the quoting it undoes. */
module Winmain {
  import opened Seqs

  predicate IsSpace(c: char) {
    c == ' ' || c == '\t' || c == '\n' || c == '\U{000B}' || c == '\U{000C}' || c == '\r'
  }

  function Slashes(n: nat): (s: string)
    ensures |s| == n && forall i :: 0 <= i < n ==> s[i] == '\\'
  {
    seq(n, _ => '\\')
  }

  /** The loop's variables. */
  datatype State = State(result: seq<string>, current: string, inside: bool, emptyQuote: bool, slashes: nat) {

    /** A quote: after an odd run of backslashes a literal one, else a delimiter. */
    function OnQuote(): State {
      var text := current + Slashes(slashes / 2);
      if slashes % 2 == 0 then State(result, text, !inside, inside && text == "", 0)
      else State(result, text + "\"", inside, emptyQuote, 0)
    }

    /** The pending backslashes stand for themselves. */
    function Settled(): State {
      this.(current := current + Slashes(slashes), slashes := 0)
    }

    function OnText(c: char): State {
      Settled().(current := current + Slashes(slashes) + [c])
    }

    function OnBreak(): State {
      State(result + [current + Slashes(slashes)], "", inside, false, 0)
    }

    function Finish(): seq<string> {
      var last := Settled();
      if last.current != "" || inside || emptyQuote then result + [last.current] else result
    }
  }

  function DropSpaces(s: string): (r: string)
    ensures |r| <= |s| && (r != [] ==> !IsSpace(r[0]))
  {
    if s != [] && IsSpace(s[0]) then DropSpaces(s[1..]) else s
  }

  function Scan(st: State, s: string): State
    decreases |s|
  {
    if s == [] then st
    else if s[0] == '"' then Scan(st.OnQuote(), s[1..])
    else if s[0] == '\\' then Scan(st.(slashes := st.slashes + 1), s[1..])
    else if IsSpace(s[0]) && !st.inside then Scan(st.OnBreak(), DropSpaces(s[1..]))
    else Scan(st.OnText(s[0]), s[1..])
  }

  const START := State([], "", false, false, 0)

  function Split(input: string): (args: seq<string>) {
    Scan(START, DropSpaces(input)).Finish()
  }

  /** The whitespace loops. */
  method SkipSpaces(s: string, start: nat) returns (i: nat)
    requires start <= |s|
    ensures start <= i <= |s| && s[i..] == DropSpaces(s[start..])
  {
    i := start;
    while i < |s| && IsSpace(s[i])
      invariant start <= i <= |s|
      invariant DropSpaces(s[i..]) == DropSpaces(s[start..])
    {
      TakeNext(s, i);
      i := i + 1;
    }
  }

  method SplitWinmain(input: string) returns (result: seq<string>)
    ensures result == Split(input)
  {
    hide DropSpaces, Scan;
    result := [];
    var i := SkipSpaces(input, 0);
    assert input[0..] == input;
    if i != |input| {
      var current := "";
      var insideQuoted, emptyQuote := false, false;
      var backslashCount := 0;
      ghost var goal := Scan(START, input[i..]);
      while i < |input|
        invariant i <= |input|
        invariant Scan(State(result, current, insideQuoted, emptyQuote, backslashCount), input[i..]) == goal
      {
        TakeNext(input, i);
        ghost var st := State(result, current, insideQuoted, emptyQuote, backslashCount);
        var c := input[i];
        ScanCons(st, c, input[i + 1..]);
        if c == '"' {
          if backslashCount % 2 == 0 {
            current := current + Slashes(backslashCount / 2);
            emptyQuote := insideQuoted && current == "";
            insideQuoted := !insideQuoted;
          } else {
            current := current + Slashes(backslashCount / 2);
            current := current + "\"";
          }
          backslashCount := 0;
          i := i + 1;
        } else if c == '\\' {
          backslashCount := backslashCount + 1;
          i := i + 1;
        } else {
          current, backslashCount := AddPending(current, backslashCount);
          if IsSpace(c) && !insideQuoted {
            // space outside a quoted section ends the argument
            result := result + [current];
            current := "";
            emptyQuote := false;
            i := SkipSpaces(input, i + 1);
          } else {
            current := current + [c];
            i := i + 1;
          }
        }
      }
      assert input[i..] == [];
      ScanNothing(State(result, current, insideQuoted, emptyQuote, backslashCount));
      current, backslashCount := AddPending(current, backslashCount);
      if current != "" || insideQuoted || emptyQuote {
        result := result + [current];
      }
    } else {
      assert input[i..] == [] && START.current + Slashes(0) == "";
      ScanNothing(START);
    }
  }

  lemma ScanNothing(st: State)
    ensures Scan(st, []) == st
  {
  }

  /** Accumulated backslashes that no quote follows are added as they are. */
  method AddPending(current: string, backslashCount: nat) returns (text: string, left: nat)
    ensures text == current + Slashes(backslashCount) && left == 0
  {
    text, left := current, backslashCount;
    if backslashCount > 0 {
      text := text + Slashes(backslashCount);
      left := 0;
    } else {
      assert current + Slashes(0) == current;
    }
  }

  // ---- the quoting that it undoes

  /** The inside of a quoted argument, after `run` backslashes have been written as they are: a run
      of backslashes is doubled before a quote and before the end, and a quote is escaped. */
  function Body(s: string, run: nat): string
    decreases |s|
  {
    if s == [] then Slashes(run)
    else if s[0] == '\\' then "\\" + Body(s[1..], run + 1)
    else if s[0] == '"' then Slashes(run + 1) + "\"" + Body(s[1..], 0)
    else [s[0]] + Body(s[1..], 0)
  }

  /** Text that means the same inside and outside quotes. */
  predicate Plain(s: string) {
    forall i :: 0 <= i < |s| ==> s[i] !in {'"', ' ', '\t', '\n', '\U{000B}', '\U{000C}', '\r'}
  }

  /** An argument as it may be written: quoted, or bare when it needs no quotes. */
  datatype Arg = Quoted(text: string) | Bare(text: string) {
    predicate Valid() {
      Bare? ==> text != "" && Plain(text)
    }

    function Render(): string {
      if Quoted? then "\"" + Body(text, 0) + "\"" else text
    }
  }

  /** An argument and the whitespace after it. */
  datatype Item = Item(arg: Arg, gap: string)

  predicate AllSpaces(s: string) {
    forall i :: 0 <= i < |s| ==> s[i] in {' ', '\t', '\n', '\U{000B}', '\U{000C}', '\r'}
  }

  /** Whitespace separates the arguments and may also follow the last one. */
  predicate WellSpaced(items: seq<Item>) {
    forall i :: 0 <= i < |items| ==>
      items[i].arg.Valid() && AllSpaces(items[i].gap) && (i + 1 < |items| ==> items[i].gap != "")
  }

  function Line(items: seq<Item>): string {
    if items == [] then "" else items[0].arg.Render() + items[0].gap + Line(items[1..])
  }

  function Texts(items: seq<Item>): seq<string> {
    if items == [] then [] else [items[0].arg.text] + Texts(items[1..])
  }

  // ---- one scan step at a time

  lemma ScanCons(st: State, c: char, rest: string)
    ensures Scan(st, [c] + rest) ==
            if c == '"' then Scan(st.OnQuote(), rest)
            else if c == '\\' then Scan(st.(slashes := st.slashes + 1), rest)
            else if IsSpace(c) && !st.inside then Scan(st.OnBreak(), DropSpaces(rest))
            else Scan(st.OnText(c), rest)
  {
    CutAppend([c], rest);
  }

  lemma {:induction false} ScanSlashes(st: State, n: nat, rest: string)
    ensures Scan(st, Slashes(n) + rest) == Scan(st.(slashes := st.slashes + n), rest)
    decreases n
  {
    if n == 0 {
      assert Slashes(0) + rest == rest;
    } else {
      assert Slashes(n) + rest == ['\\'] + (Slashes(n - 1) + rest);
      ScanCons(st, '\\', Slashes(n - 1) + rest);
      ScanSlashes(st.(slashes := st.slashes + 1), n - 1, rest);
    }
  }

  lemma SlashesNext(cur: string, k: nat, s: string)
    ensures cur + Slashes(k + 1) + s == cur + Slashes(k) + (['\\'] + s)
    ensures cur + Slashes(0) + s == cur + s
  {
  }

  /** The scan of the inside of a quoted argument and its closing quote. */
  lemma {:induction false} ScanBody(result: seq<string>, cur: string, empty: bool, s: string, k: nat, rest: string)
    ensures Scan(State(result, cur, true, empty, k), Body(s, k) + "\"" + rest)
         == Scan(State(result, cur + Slashes(k) + s, false, cur + Slashes(k) + s == "", 0), rest)
    decreases |s|
  {
    var st := State(result, cur, true, empty, k);
    hide Scan, Slashes;
    if s == [] {
      Assoc(Slashes(k), "\"", rest);
      ScanSlashes(st, k, "\"" + rest);
      ScanCons(st.(slashes := k + k), '"', rest);
      assert cur + Slashes(k) + s == cur + Slashes(k);
    } else {
      Cons(s);
      var c, tail := s[0], s[1..];
      if c == '\\' {
        var later := Body(tail, k + 1) + "\"" + rest;
        assert Body(s, k) + "\"" + rest == ['\\'] + later;
        ScanCons(st, c, later);
        ScanBody(result, cur, empty, tail, k + 1, rest);
        SlashesNext(cur, k, tail);
      } else {
        var later := Body(tail, 0) + "\"" + rest;
        var next := cur + Slashes(k) + [c];
        if c == '"' {
          assert Body(s, k) + "\"" + rest == Slashes(k + 1) + (['"'] + later);
          ScanSlashes(st, k + 1, ['"'] + later);
          ScanCons(st.(slashes := k + k + 1), c, later);
        } else {
          assert Body(s, k) + "\"" + rest == [c] + later;
          ScanCons(st, c, later);
        }
        ScanBody(result, next, empty, tail, 0, rest);
        SlashesNext(next, 0, tail);
        Assoc(cur + Slashes(k), [c], tail);
      }
    }
  }

  /** The state after a bare stretch of text. */
  function BareState(st: State, s: string): State
    decreases |s|
  {
    if s == [] then st
    else if s[0] == '\\' then BareState(st.(slashes := st.slashes + 1), s[1..])
    else BareState(st.OnText(s[0]), s[1..])
  }

  lemma {:induction false} ScanBare(st: State, s: string, rest: string)
    requires !st.inside && Plain(s)
    ensures Scan(st, s + rest) == Scan(BareState(st, s), rest)
    ensures BareState(st, s).Settled() == st.Settled().(current := st.current + Slashes(st.slashes) + s)
    decreases |s|
  {
    var cur := st.current + Slashes(st.slashes);
    if s == [] {
      assert s + rest == rest && cur + s == cur;
    } else {
      Cons(s);
      var c, tail := s[0], s[1..];
      assert s + rest == [c] + (tail + rest);
      ScanCons(st, c, tail + rest);
      if c == '\\' {
        ScanBare(st.(slashes := st.slashes + 1), tail, rest);
        SlashesNext(st.current, st.slashes, tail);
      } else {
        ScanBare(st.OnText(c), tail, rest);
        SlashesNext(cur + [c], 0, tail);
        Assoc(cur, [c], tail);
      }
    }
  }

  /** The state after one argument. */
  function ArgState(result: seq<string>, arg: Arg): State {
    if arg.Quoted? then State(result, arg.text, false, arg.text == "", 0)
    else BareState(State(result, "", false, false, 0), arg.text)
  }

  lemma ScanArg(result: seq<string>, arg: Arg, rest: string)
    requires arg.Valid()
    ensures Scan(State(result, "", false, false, 0), arg.Render() + rest) == Scan(ArgState(result, arg), rest)
    ensures ArgState(result, arg).Settled() == State(result, arg.text, false, arg.text == "", 0)
  {
    var clean := State(result, "", false, false, 0);
    SlashesNext("", 0, arg.text);
    assert "" + arg.text == arg.text;
    if arg.Quoted? {
      assert arg.Render() + rest == ['"'] + (Body(arg.text, 0) + "\"" + rest);
      ScanCons(clean, '"', Body(arg.text, 0) + "\"" + rest);
      assert "" + Slashes(0) == "";
      ScanBody(result, "", false, arg.text, 0, rest);
      assert arg.text + Slashes(0) == arg.text;
    } else {
      ScanBare(clean, arg.text, rest);
    }
  }

  lemma {:induction false} SpacesDropped(gap: string, rest: string)
    requires AllSpaces(gap) && (rest != [] ==> !IsSpace(rest[0]))
    ensures DropSpaces(gap + rest) == rest
  {
    if gap == [] {
      assert gap + rest == rest;
    } else {
      TailOfAppend(gap, rest);
      SpacesDropped(gap[1..], rest);
    }
  }

  /** Where an argument ends, only what its state settles to counts. */
  lemma ScanGap(st: State, gap: string, rest: string)
    requires !st.inside && gap != "" && AllSpaces(gap) && (rest != [] ==> !IsSpace(rest[0]))
    ensures Scan(st, gap + rest) == Scan(State(st.result + [st.Settled().current], "", false, false, 0), rest)
  {
    Cons(gap);
    assert gap + rest == [gap[0]] + (gap[1..] + rest);
    ScanCons(st, gap[0], gap[1..] + rest);
    SpacesDropped(gap[1..], rest);
  }

  lemma SettledFinish(st: State)
    ensures st.Finish() == if st.Settled().current != "" || st.inside || st.emptyQuote
                           then st.result + [st.Settled().current] else st.result
  {
  }

  lemma LineStart(items: seq<Item>)
    requires WellSpaced(items)
    ensures Line(items) != [] ==> !IsSpace(Line(items)[0])
  {
    if items != [] && items[0].arg.Bare? {
      assert Line(items)[0] == items[0].arg.text[0];
    }
  }

  lemma {:induction false} ScanLine(result: seq<string>, items: seq<Item>)
    requires WellSpaced(items)
    ensures Scan(State(result, "", false, false, 0), Line(items)).Finish() == result + Texts(items)
    decreases |items|
  {
    if items == [] {
      assert "" + Slashes(0) == "" && result + [] == result;
    } else {
      var arg, gap, rest := items[0].arg, items[0].gap, items[1..];
      var st := ArgState(result, arg);
      Assoc(arg.Render(), gap, Line(rest));
      ScanArg(result, arg, gap + Line(rest));
      Assoc(result, [arg.text], Texts(rest));
      if gap == "" {
        assert rest == [] && gap + Line(rest) == "";
        assert [arg.text] + [] == [arg.text];
        SettledFinish(st);
      } else {
        assert forall i :: 0 <= i < |rest| ==> rest[i] == items[i + 1];
        LineStart(rest);
        ScanGap(st, gap, Line(rest));
        ScanLine(result + [arg.text], rest);
      }
    }
  }

  /** Splitting gives back exactly the arguments, whatever they contain, however each is written
      and however much whitespace stands around them. */
  lemma SplitUndoesQuoting(lead: string, items: seq<Item>)
    requires AllSpaces(lead) && WellSpaced(items)
    ensures Split(lead + Line(items)) == Texts(items)
  {
    LineStart(items);
    SpacesDropped(lead, Line(items));
    ScanLine([], items);
    assert [] + Texts(items) == Texts(items);
  }

  /** Every argument quoted, single spaces between them. */
  function QuoteAll(args: seq<string>): string {
    if args == [] then ""
    else Quoted(args[0]).Render() + (if |args| == 1 then "" else " ") + QuoteAll(args[1..])
  }

  function QuotedItems(args: seq<string>): seq<Item> {
    if args == [] then []
    else [Item(Quoted(args[0]), if |args| == 1 then "" else " ")] + QuotedItems(args[1..])
  }

  lemma {:induction false} QuotedItemsLine(args: seq<string>)
    ensures WellSpaced(QuotedItems(args)) && |QuotedItems(args)| == |args|
    ensures Line(QuotedItems(args)) == QuoteAll(args) && Texts(QuotedItems(args)) == args
  {
    if args != [] {
      QuotedItemsLine(args[1..]);
      CutAppend([Item(Quoted(args[0]), if |args| == 1 then "" else " ")], QuotedItems(args[1..]));
      Cons(args);
    }
  }

  /** For every list of strings, empty ones included. */
  lemma QuoteAllRoundTrip(args: seq<string>)
    ensures Split(QuoteAll(args)) == args
  {
    QuotedItemsLine(args);
    SplitUndoesQuoting("", QuotedItems(args));
    assert "" + QuoteAll(args) == QuoteAll(args);
  }
}
