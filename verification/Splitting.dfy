/** Where a Windows command line is cut, position by position, and what every character contributes to
    its argument: a specification of split_winmain for all inputs, without its state. */
module Splitting {
  import opened Seqs
  import opened Winmain

  // ---- the characters of a line

  /** The backslashes that stand directly before position i. */
  function Run(s: string, i: nat): (n: nat)
    requires i <= |s|
    ensures n <= i
  {
    if i > 0 && s[i - 1] == '\\' then Run(s, i - 1) + 1 else 0
  }

  /** A quote that an even number of backslashes stands before. */
  predicate Delimits(s: string, i: nat)
    requires i < |s|
  {
    s[i] == '"' && Run(s, i) % 2 == 0
  }

  /** An odd number of such quotes stands before. */
  predicate Inside(s: string, i: nat)
    requires i <= |s|
  {
    i > 0 && (Inside(s, i - 1) <==> !Delimits(s, i - 1))
  }

  /** White space outside quotes. */
  predicate Breaks(s: string, i: nat)
    requires i < |s|
  {
    s[i] in {' ', '\t', '\n', '\U{000B}', '\U{000C}', '\r'} && !Inside(s, i)
  }

  /** The backslashes at position i and after it go on to a quote. */
  predicate ToQuote(s: string, i: nat)
    requires i <= |s|
    decreases |s| - i
  {
    i < |s| && (s[i] == '"' || (s[i] == '\\' && ToQuote(s, i + 1)))
  }

  /** What a character adds to its argument: of the backslashes before a quote every second one, and
      every character but the quotes that delimit. */
  function Share(s: string, i: nat): string
    requires i < |s|
  {
    if s[i] == '\\' && ToQuote(s, i) && Run(s, i) % 2 == 0 then ""
    else if Delimits(s, i) then ""
    else [s[i]]
  }

  /** A character before position i that no break separates from it. */
  predicate Open(s: string, i: nat)
    requires i <= |s|
  {
    i > 0 && !Breaks(s, i - 1)
  }

  /** The arguments in the first n characters: a character joins the argument of the one before it, and
      begins one at the start and after a break. */
  function Arguments(s: string, n: nat): (args: seq<string>)
    requires n <= |s|
    ensures Open(s, n) ==> args != []
  {
    if n == 0 then []
    else
      var before := Arguments(s, n - 1);
      if Breaks(s, n - 1) then before
      else if Open(s, n - 1) then before[..|before| - 1] + [before[|before| - 1] + Share(s, n - 1)]
      else before + [Share(s, n - 1)]
  }

  // ---- the scan keeps to it

  /** The arguments so far, as the scan holds them. */
  ghost predicate Holds(s: string, j: nat, result: seq<string>, current: string)
    requires j <= |s|
  {
    Arguments(s, j) == if Open(s, j) then result + [current] else result
  }

  /** The state of the scan at position i, with the pending backslashes from position j on. */
  ghost predicate Tracks(s: string, i: nat, st: State) {
    && i <= |s| && st.slashes == Run(s, i)
    && st.inside == Inside(s, i)
    && var j := i - st.slashes;
       && Holds(s, j, st.result, st.current)
       && (if Open(s, j) then st.current == "" ==> st.inside || st.emptyQuote
           else st.current == "" && !st.inside && !st.emptyQuote)
  }

  /** The run before position i, seen from inside it. */
  lemma {:induction false} RunBack(s: string, i: nat, k: nat)
    requires i <= |s| && i - Run(s, i) <= k <= i
    ensures Run(s, k) == k - (i - Run(s, i)) && (k < i ==> s[k] == '\\')
    decreases i
  {
    if k < i {
      RunBack(s, i - 1, k);
    }
  }

  /** Backslashes neither break nor delimit. */
  lemma {:induction false} InsideAlong(s: string, j: nat, i: nat)
    requires j <= i <= |s| && forall k :: j <= k < i ==> s[k] == '\\'
    ensures Inside(s, i) == Inside(s, j)
    ensures forall k :: j <= k < i ==> !Breaks(s, k)
    decreases i
  {
    if j < i {
      InsideAlong(s, j, i - 1);
    }
  }

  lemma {:induction false} ToQuoteAlong(s: string, j: nat, i: nat)
    requires j <= i <= |s| && (forall k :: j <= k < i ==> s[k] == '\\') && (i < |s| ==> s[i] != '\\')
    ensures forall k :: j <= k < i ==> (ToQuote(s, k) <==> i < |s| && s[i] == '"')
    decreases i - j
  {
    if j < i {
      ToQuoteAlong(s, j + 1, i);
    }
  }

  /** A character that does not break joins the argument held. */
  lemma HoldsNext(s: string, m: nat, result: seq<string>, current: string)
    requires m < |s| && Holds(s, m, result, current) && (!Open(s, m) ==> current == "") && !Breaks(s, m)
    ensures Open(s, m + 1) && Holds(s, m + 1, result, current + Share(s, m))
  {
    hide Breaks, Share;
    if Open(s, m) {
      CutAppend(result, [current]);
    } else {
      WithEmpty(Share(s, m));
    }
  }

  /** How many backslashes n pending ones add up to. */
  function Settled(half: bool, n: nat): nat {
    if half then n / 2 else n
  }

  lemma SettledNext(half: bool, n: nat, current: string)
    ensures current + Slashes(Settled(half, n)) + (if half && n % 2 == 0 then "" else "\\")
         == current + Slashes(Settled(half, n + 1))
  {
    SlashesMore(current, Settled(half, n));
  }

  /** What the pending backslashes add: half of them before a quote, else all. */
  lemma {:induction false} PendingShare(s: string, j: nat, i: nat, m: nat, result: seq<string>, current: string)
    requires j <= m <= i <= |s| && Holds(s, j, result, current) && (!Open(s, j) ==> current == "")
    requires forall k :: j <= k < i ==> s[k] == '\\' && Run(s, k) == k - j
    requires i < |s| ==> s[i] != '\\'
    ensures Holds(s, m, result, current + Slashes(Settled(i < |s| && s[i] == '"', m - j)))
    ensures m > j ==> Open(s, m)
    decreases m
  {
    hide ToQuote, Breaks, Holds, Inside, Share, Slashes, Settled, Run;
    var half := i < |s| && s[i] == '"';
    NoneSettled(half, current);
    if m > j {
      PendingShare(s, j, i, m - 1, result, current);
      InsideAlong(s, j, i);
      ToQuoteAlong(s, j, i);
      ShareOfSlash(s, m - 1);
      SettledNext(half, m - 1 - j, current);
      HoldsNext(s, m - 1, result, current + Slashes(Settled(half, m - 1 - j)));
    }
  }

  lemma NoneSettled(half: bool, current: string)
    ensures current + Slashes(Settled(half, 0)) == current
  {
  }

  lemma ShareOfSlash(s: string, k: nat)
    requires k < |s| && s[k] == '\\'
    ensures Share(s, k) == if ToQuote(s, k) && Run(s, k) % 2 == 0 then "" else "\\"
  {
  }

  lemma SlashesMore(current: string, n: nat)
    ensures current + Slashes(n) + "" == current + Slashes(n)
    ensures current + Slashes(n) + "\\" == current + Slashes(n + 1)
  {
  }

  /** All pending backslashes. */
  lemma PendingAll(s: string, i: nat, st: State)
    requires Tracks(s, i, st) && (i < |s| ==> s[i] != '\\')
    ensures var half := i < |s| && s[i] == '"';
            Holds(s, i, st.result, st.current + Slashes(if half then st.slashes / 2 else st.slashes))
    ensures Open(s, i) <==> st.slashes > 0 || Open(s, i - st.slashes)
    ensures Inside(s, i) == Inside(s, i - st.slashes)
  {
    hide ToQuote, Breaks, Share, Slashes, Holds, Inside;
    var j := i - st.slashes;
    forall k | j <= k < i ensures s[k] == '\\' && Run(s, k) == k - j {
      RunBack(s, i, k);
    }
    InsideAlong(s, j, i);
    PendingShare(s, j, i, i, st.result, st.current);
  }

  lemma TracksSlash(s: string, i: nat, st: State)
    requires Tracks(s, i, st) && i < |s| && s[i] == '\\'
    ensures Tracks(s, i + 1, st.(slashes := st.slashes + 1))
  {
  }

  lemma TracksQuote(s: string, i: nat, st: State)
    requires Tracks(s, i, st) && i < |s| && s[i] == '"'
    ensures Tracks(s, i + 1, st.OnQuote())
  {
    hide Holds, Slashes;
    PendingAll(s, i, st);
    var text := st.current + Slashes(st.slashes / 2);
    SlashesLong(st.current, st.slashes / 2);
    HoldsNext(s, i, st.result, text);
    if Delimits(s, i) {
      WithEmpty(text);
    }
  }

  lemma SlashesLong(current: string, n: nat)
    ensures |current + Slashes(n)| == |current| + n
    ensures n == 0 ==> current + Slashes(n) == current
  {
  }

  lemma TracksText(s: string, i: nat, st: State)
    requires Tracks(s, i, st) && i < |s| && s[i] != '"' && s[i] != '\\' && !Breaks(s, i)
    ensures Tracks(s, i + 1, st.OnText(s[i]))
  {
    hide Holds, Slashes;
    PendingAll(s, i, st);
    SlashesLong(st.current, st.slashes);
    HoldsNext(s, i, st.result, st.current + Slashes(st.slashes));
    SlashesLong(st.current + Slashes(st.slashes), 0);
  }

  predicate IsWhite(c: char) {
    c in {' ', '\t', '\n', '\U{000B}', '\U{000C}', '\r'}
  }

  lemma White(s: string, i: nat)
    requires i < |s|
    ensures IsSpace(s[i]) <==> IsWhite(s[i])
    ensures Breaks(s, i) <==> IsWhite(s[i]) && !Inside(s, i)
  {
  }

  /** White space that is skipped outside quotes changes nothing. */
  lemma {:induction false} SkipsBreaks(s: string, i: nat) returns (k: nat)
    requires i <= |s| && !Inside(s, i) && (i > 0 ==> Breaks(s, i - 1))
    ensures i <= k <= |s| && s[k..] == DropSpaces(s[i..]) && (k < |s| ==> !IsWhite(s[k]))
    ensures !Inside(s, k) && !Open(s, k) && Run(s, k) == 0 && Arguments(s, k) == Arguments(s, i)
    decreases |s| - i
  {
    hide Inside, Breaks;
    if i < |s| {
      White(s, i);
    }
    if i > 0 {
      White(s, i - 1);
    }
    if i < |s| && IsWhite(s[i]) {
      assert s[i..][1..] == s[i + 1..];
      InsideStays(s, i);
      k := SkipsBreaks(s, i + 1);
    } else {
      k := i;
    }
  }

  lemma InsideStays(s: string, i: nat)
    requires i < |s| && s[i] != '"'
    ensures Inside(s, i + 1) == Inside(s, i)
  {
  }

  /** The scan of the rest, from a state that has kept to the line so far. */
  lemma {:induction false} ScanArguments(s: string, i: nat, st: State)
    requires i <= |s| && Tracks(s, i, st) && (Open(s, i) || i == |s| || !IsWhite(s[i]))
    ensures Scan(st, s[i..]).Finish() == Arguments(s, |s|)
    decreases |s| - i
  {
    hide Scan, Tracks, DropSpaces, Arguments, Open, Inside, Breaks;
    if i == |s| {
      ScanNothing(st);
      TracksEnd(s, st);
    } else {
      var c, rest := s[i], s[i + 1..];
      assert s[i..] == [c] + rest;
      ScanCons(st, c, rest);
      White(s, i);
      TracksInside(s, i, st);
      if c == '"' {
        TracksQuote(s, i, st);
        OpenNext(s, i);
        ScanArguments(s, i + 1, st.OnQuote());
      } else if c == '\\' {
        TracksSlash(s, i, st);
        OpenNext(s, i);
        ScanArguments(s, i + 1, st.(slashes := st.slashes + 1));
      } else if IsSpace(c) && !st.inside {
        InsideStays(s, i);
        var k := SkipsBreaks(s, i + 1);
        TracksBreak(s, i, st, k);
        ScanArguments(s, k, st.OnBreak());
      } else {
        TracksText(s, i, st);
        OpenNext(s, i);
        ScanArguments(s, i + 1, st.OnText(c));
      }
    }
  }

  lemma TracksInside(s: string, i: nat, st: State)
    requires Tracks(s, i, st)
    ensures st.inside == Inside(s, i)
  {
  }

  lemma OpenNext(s: string, i: nat)
    requires i < |s|
    ensures Open(s, i + 1) <==> !Breaks(s, i)
  {
  }

  lemma TracksBreak(s: string, i: nat, st: State, k: nat)
    requires Tracks(s, i, st) && i < k <= |s| && Breaks(s, i) && Open(s, i)
    requires !Inside(s, k) && !Open(s, k) && Run(s, k) == 0 && Arguments(s, k) == Arguments(s, i + 1)
    ensures Tracks(s, k, st.OnBreak())
  {
    hide Slashes;
    PendingAll(s, i, st);
  }

  lemma TracksEnd(s: string, st: State)
    requires Tracks(s, |s|, st)
    ensures st.Finish() == Arguments(s, |s|)
  {
    hide Slashes, Arguments;
    PendingAll(s, |s|, st);
    SlashesLong(st.current, st.slashes);
  }

  /** Every input, quotes that are not closed included, is split into exactly these arguments. */
  lemma SplitIsArguments(input: string)
    ensures Split(input) == Arguments(input, |input|)
  {
    hide Scan;
    var k := SkipsBreaks(input, 0);
    assert input[0..] == input;
    TracksStart(input, k);
    ScanArguments(input, k, START);
  }

  lemma TracksStart(s: string, k: nat)
    requires k <= |s| && !Inside(s, k) && !Open(s, k) && Run(s, k) == 0 && Arguments(s, k) == []
    ensures Tracks(s, k, START)
  {
  }
}
