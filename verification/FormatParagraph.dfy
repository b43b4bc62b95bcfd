/** The word wrapper that lays out one paragraph of an option's description. */
module FormatParagraph {
  import opened Seqs
  import opened Wrappers

  datatype Error = TooManyTabs

  function Count(s: string, c: char): nat {
    if s == "" then 0 else (if s[0] == c then 1 else 0) + Count(s[1..], c)
  }

  function Spaces(n: nat): (s: string)
    ensures |s| == n && forall k :: 0 <= k < n ==> s[k] == ' '
  {
    if n == 0 then "" else Spaces(n - 1) + " "
  }

  /** The paragraph without its tab. */
  function Text(par: string): string {
    var tab := IndexOf(par, '\t');
    if tab == |par| then par else par[..tab] + par[tab + 1..]
  }

  /** What the tab adds to the indentation of the second and later lines: its column, when that is on
      the first line. */
  function ParIndent(par: string, width: nat): (n: nat)
    ensures width > 0 ==> n < width
  {
    var tab := IndexOf(par, '\t');
    if tab == |par| || tab >= width then 0 else tab
  }

  // ---- where a line is broken

  /** A cut after `n` characters separates two characters of one word. */
  predicate Chops(s: string, n: nat) {
    0 < n < |s| && s[n - 1] != ' ' && s[n] != ' '
  }

  /** One past the last space, zero when there is none. */
  function AfterLastSpace(s: string): (p: nat)
    ensures p <= |s| && (p > 0 ==> s[p - 1] == ' ')
    ensures forall k :: p <= k < |s| ==> s[k] != ' '
  {
    if s == "" then 0
    else if s[|s| - 1] == ' ' then |s|
    else AfterLastSpace(s[..|s| - 1])
  }

  function Min(a: nat, b: nat): nat {
    if a < b then a else b
  }

  predicate SpaceAt(s: string, k: int) {
    0 <= k < |s| && s[k] == ' '
  }

  /** The break rule: a full line, unless that chops a word and a space in its second half avoids it. */
  ghost predicate GoodBreak(s: string, n: nat, width: nat) {
    && 0 < n <= Min(|s|, width)
    && (n < Min(|s|, width) ==>
          && SpaceAt(s, n - 1) && width - n < width / 2
          && Chops(s, width) && forall k :: n <= k < width ==> !SpaceAt(s, k))
    && (Chops(s, n) ==> forall k :: width - width / 2 <= k < width ==> !SpaceAt(s, k))
  }

  function BreakAt(s: string, width: nat): (n: nat)
    requires s != "" && width > 0
    ensures GoodBreak(s, n, width)
  {
    var full := if |s| < width then |s| else width;
    if full < |s| && s[full - 1] != ' ' && s[full] != ' ' then
      var p := AfterLastSpace(s[..full]);
      if p != 0 && full - p < width / 2 then
        assert s[p - 1] == s[..full][p - 1];
        assert forall k :: p <= k < width ==> s[k] == s[..full][k];
        p
      else
        assert forall k :: p <= k < width ==> s[k] == s[..full][k];
        full
    else full
  }

  /** The rule leaves no choice. */
  lemma GoodBreakUnique(s: string, n: nat, m: nat, width: nat)
    requires GoodBreak(s, n, width) && GoodBreak(s, m, width)
    ensures n == m
  {
    NotLess(s, n, m, width);
    NotLess(s, m, n, width);
  }

  lemma NotLess(s: string, n: nat, m: nat, width: nat)
    requires GoodBreak(s, n, width) && GoodBreak(s, m, width)
    ensures n >= m
  {
    assert n < m && m < width ==> !SpaceAt(s, m - 1);
    assert n < m ==> SpaceAt(s, n - 1);
  }

  /** A line other than the first loses its leading space when a word follows it directly. */
  predicate SingleSpace(s: string) {
    |s| > 1 && s[0] == ' ' && s[1] != ' '
  }

  function Lead(s: string): (d: nat)
    ensures s != "" ==> d < |s|
  {
    if SingleSpace(s) then 1 else 0
  }

  /** The second and later lines. */
  function LaterLines(rest: string, width: nat): (lines: seq<string>)
    requires width > 0
    decreases |rest|
  {
    if rest == "" then []
    else
      var body := rest[Lead(rest)..];
      var n := BreakAt(body, width);
      [body[..n]] + LaterLines(body[n..], width)
  }

  function FirstAndLater(text: string, first: nat, later: nat): (lines: seq<string>)
    requires text != "" && first > 0 && later > 0
  {
    var n := BreakAt(text, first);
    [text[..n]] + LaterLines(text[n..], later)
  }

  function Render(lines: seq<string>, pad: nat): string {
    if lines == [] then ""
    else if |lines| == 1 then lines[0]
    else lines[0] + "\n" + Spaces(pad) + Render(lines[1..], pad)
  }

  function Laid(text: string, first: nat, later: nat, pad: nat): string
    requires first > 0 && later > 0
  {
    if |text| < first then text else Render(FirstAndLater(text, first, later), pad)
  }

  /** What is written for a paragraph. */
  function Formatted(par: string, indent: nat, lineLength: nat): Result<string, Error>
    requires indent < lineLength
  {
    var width := lineLength - indent;
    var parIndent := ParIndent(par, width);
    if Count(par, '\t') > 1 then Failure(TooManyTabs)
    else Success(Laid(Text(par), width, width - parIndent, indent + parIndent))
  }

  // ---- the loop

  lemma {:induction false} CountNone(s: string, c: char)
    ensures Count(s, c) == 0 <==> c !in s
  {
    if s != "" {
      CountNone(s[1..], c);
    }
  }

  /** One more line written. */
  lemma RenderNext(line: string, rest: seq<string>, pad: nat)
    ensures Render([line] + rest, pad) == if rest == [] then line else line + "\n" + Spaces(pad) + Render(rest, pad)
  {
    assert ([line] + rest)[1..] == rest;
  }

  lemma LaterEmpty(rest: string, width: nat)
    requires width > 0
    ensures LaterLines(rest, width) == [] <==> rest == ""
  {
  }

  /** The lines still to come at the head of the loop. */
  function Pending(text: string, lineBegin: nat, first: bool, width: nat, parIndent: nat): seq<string>
    requires lineBegin <= |text| && parIndent < width && (first ==> text != "")
  {
    if first then FirstAndLater(text, width, width - parIndent) else LaterLines(text[lineBegin..], width - parIndent)
  }

  method Format(par: string, indent: nat, lineLength: nat) returns (r: Result<string, Error>)
    requires indent < lineLength
    ensures r == Formatted(par, indent, lineLength)
  {
    hide Count, FirstAndLater, Render;
    var text := par;
    var width := lineLength - indent;
    var parIndent := IndexOf(par, '\t');
    if parIndent == |par| {
      parIndent := 0;
      CountNone(par, '\t');
    } else {
      if Count(par, '\t') > 1 {
        return Failure(TooManyTabs);
      }
      text := par[..parIndent] + par[parIndent + 1..];
      if parIndent >= width {
        parIndent := 0;
      }
    }
    assert text == Text(par) && parIndent == ParIndent(par, width);
    var os := "";
    if |text| < width {
      os := text;
    } else {
      os := Wrap(text, indent, width, parIndent);
    }
    return Success(os);
  }

  /** The end of the line that begins at `lineBegin`. */
  method LineEnd(text: string, lineBegin: nat, lineLength: nat) returns (lineEnd: nat)
    requires lineBegin < |text| && lineLength > 0
    ensures lineBegin < lineEnd <= |text| && lineEnd - lineBegin == BreakAt(text[lineBegin..], lineLength)
  {
    var remaining := |text| - lineBegin;
    lineEnd := lineBegin + if remaining < lineLength then remaining else lineLength;
    if text[lineEnd - 1] != ' ' && lineEnd < |text| && text[lineEnd] != ' ' {
      var lastSpace := lineBegin + AfterLastSpace(text[lineBegin..lineEnd]);
      if lastSpace != lineBegin {
        if lineEnd - lastSpace < lineLength / 2 {
          lineEnd := lastSpace;
        }
      }
    }
    BreakFound(text, lineBegin, lineEnd, lineLength);
  }

  /** The loop that writes the indentation. */
  method WritePad(written: string, indent: nat) returns (os: string)
    ensures os == written + Spaces(indent)
  {
    os := written;
    var left := indent;
    WithEmpty(written);
    while left > 0
      invariant 0 <= left <= indent && os == written + Spaces(indent - left)
    {
      Assoc(written, Spaces(indent - left), " ");
      os := os + " ";
      left := left - 1;
    }
  }

  /** The loop over the lines of a long paragraph. */
  method Wrap(text: string, firstIndent: nat, firstWidth: nat, parIndent: nat) returns (os: string)
    requires parIndent < firstWidth <= |text|
    ensures os == Render(FirstAndLater(text, firstWidth, firstWidth - parIndent), firstIndent + parIndent)
  {
    hide Render, LaterLines, GoodBreak, BreakAt, FirstAndLater, Lead, Pending, Spaces, AfterLastSpace;
    os := "";
    PendingAtEnds(text, firstWidth, parIndent, firstIndent + parIndent);
    var indent, lineLength := firstIndent, firstWidth;
    var lineBegin, first := 0, true;
    var pad := firstIndent + parIndent;
    ghost var goal := Render(FirstAndLater(text, firstWidth, firstWidth - parIndent), pad);
    WithEmpty(goal);
    while lineBegin < |text|
      invariant lineBegin <= |text| && (first ==> lineBegin == 0)
      invariant indent == if first then firstIndent else pad
      invariant lineLength == if first then firstWidth else firstWidth - parIndent
      invariant os + Render(Pending(text, lineBegin, first, firstWidth, parIndent), pad) == goal
    {
      ghost var before, from := lineBegin, first;
      LeadIs(text, lineBegin);
      if !first {
        if text[lineBegin] == ' ' && lineBegin + 1 < |text| && text[lineBegin + 1] != ' ' {
          lineBegin := lineBegin + 1;
        }
      }
      var lineEnd := LineEnd(text, lineBegin, lineLength);
      NextLine(text, before, lineBegin, lineEnd, from, firstWidth, parIndent);
      ghost var line, rest := text[lineBegin..lineEnd], LaterLines(text[lineEnd..], firstWidth - parIndent);
      RenderNext(line, rest, pad);
      LaterEmpty(text[lineEnd..], firstWidth - parIndent);
      PendingLater(text, lineEnd, firstWidth, parIndent);
      ghost var written := os;
      assert written + Render([line] + rest, pad) == goal;
      os := os + text[lineBegin..lineEnd];
      if first {
        indent := indent + parIndent;
        lineLength := lineLength - parIndent;
        first := false;
      }
      if lineEnd != |text| {
        os := os + "\n";
        os := WritePad(os, indent);
        Regroup(written, line, Spaces(pad), Render(rest, pad));
      } else {
        WithEmpty(os);
      }
      lineBegin := lineEnd;
    }
    WithEmpty(os);
  }

  lemma LeadIs(text: string, i: nat)
    requires i < |text|
    ensures Lead(text[i..]) == if text[i] == ' ' && i + 1 < |text| && text[i + 1] != ' ' then 1 else 0
  {
  }

  lemma PendingLater(text: string, lineEnd: nat, width: nat, parIndent: nat)
    requires lineEnd <= |text| && parIndent < width
    ensures Pending(text, lineEnd, false, width, parIndent) == LaterLines(text[lineEnd..], width - parIndent)
  {
  }

  lemma PendingAtEnds(text: string, width: nat, parIndent: nat, pad: nat)
    requires parIndent < width <= |text|
    ensures Pending(text, 0, true, width, parIndent) == FirstAndLater(text, width, width - parIndent)
    ensures Render(Pending(text, |text|, false, width, parIndent), pad) == ""
    ensures Spaces(0) == ""
  {
    hide BreakAt, GoodBreak, FirstAndLater, Lead;
    assert text[|text|..] == "";
  }

  lemma Regroup(written: string, line: string, lead: string, rest: string)
    ensures written + (line + "\n" + lead + rest) == written + line + "\n" + lead + rest
  {
  }

  lemma BreakFound(text: string, lineBegin: nat, lineEnd: nat, lineLength: nat)
    requires lineBegin < lineEnd <= |text| && lineLength > 0
    requires
      var full := lineBegin + Min(|text| - lineBegin, lineLength);
      var p := AfterLastSpace(text[lineBegin..full]);
      lineEnd == if text[full - 1] != ' ' && full < |text| && text[full] != ' ' && p != 0
                     && full - (lineBegin + p) < lineLength / 2
                 then lineBegin + p else full
    ensures BreakAt(text[lineBegin..], lineLength) == lineEnd - lineBegin
  {
    SliceOfDrop(text, lineBegin, Min(|text| - lineBegin, lineLength));
  }

  lemma NextLine(text: string, before: nat, lineBegin: nat, lineEnd: nat, first: bool, firstWidth: nat, parIndent: nat)
    requires before <= lineBegin < lineEnd <= |text| && parIndent < firstWidth && (first ==> before == 0)
    requires lineBegin == if first then before else before + Lead(text[before..])
    requires BreakAt(text[lineBegin..], if first then firstWidth else firstWidth - parIndent) == lineEnd - lineBegin
    ensures Pending(text, before, first, firstWidth, parIndent)
         == [text[lineBegin..lineEnd]] + LaterLines(text[lineEnd..], firstWidth - parIndent)
  {
    hide BreakAt, SingleSpace, GoodBreak;
    SliceOfDrop(text, lineBegin, lineEnd - lineBegin);
    if first {
      assert text[0..] == text;
    } else {
      DropTwice(text, before, lineBegin - before);
    }
  }

  lemma DropTwice<T>(s: seq<T>, i: nat, j: nat)
    requires i + j <= |s|
    ensures s[i..][j..] == s[i + j..]
  {
  }

  // ---- what a reader sees

  /** The physical lines of the output. */
  function PhysicalLines(s: string): (lines: seq<string>)
    ensures lines != []
    decreases |s|
  {
    var n := IndexOf(s, '\n');
    if n == |s| then [s] else [s[..n]] + PhysicalLines(s[n + 1..])
  }

  /** Lines that carry on with `rest`: each is the indentation and the next piece, of at most `width`
      characters and broken as the rule says; between two lines nothing is lost but a space that
      would have stood alone before the line's first word. */
  ghost predicate CarryOn(lines: seq<string>, pad: nat, width: nat, rest: string)
    decreases |lines|
  {
    if lines == [] then rest == ""
    else
      && rest != "" && pad < |lines[0]|
      && var d := if |rest| > 1 && rest[0] == ' ' && rest[1] != ' ' then 1 else 0;
         var body, n := rest[d..], |lines[0]| - pad;
         GoodBreak(body, n, width) && lines[0] == Spaces(pad) + body[..n] && CarryOn(lines[1..], pad, width, body[n..])
  }

  ghost function Padded(lines: seq<string>, pad: nat): seq<string> {
    if lines == [] then [] else [Spaces(pad) + lines[0]] + Padded(lines[1..], pad)
  }

  predicate Unbroken(lines: seq<string>) {
    forall k :: 0 <= k < |lines| ==> '\n' !in lines[k]
  }

  lemma SpacesUnbroken(n: nat)
    ensures '\n' !in Spaces(n)
  {
  }

  lemma {:induction false} PhysicalOf(lead: string, lines: seq<string>, pad: nat)
    requires '\n' !in lead && lines != [] && Unbroken(lines)
    ensures PhysicalLines(lead + Render(lines, pad)) == [lead + lines[0]] + Padded(lines[1..], pad)
    decreases |lines|
  {
    hide Spaces, IndexOf;
    var line := lead + lines[0];
    if |lines| == 1 {
      assert '\n' !in line;
      assert IndexOf(line, '\n') == |line|;
      assert Padded(lines[1..], pad) == [];
    } else {
      SpacesUnbroken(pad);
      var rest := Spaces(pad) + Render(lines[1..], pad);
      assert lead + Render(lines, pad) == line + ['\n'] + rest;
      IndexOfAppend(line, '\n', rest);
      PhysicalOf(Spaces(pad), lines[1..], pad);
      assert lines[1..][0] == lines[1];
    }
  }

  lemma CarryOnNext(tail: seq<string>, pad: nat, width: nat, rest: string, body: string, n: nat)
    requires rest != "" && body == rest[Lead(rest)..] && GoodBreak(body, n, width)
    requires CarryOn(tail, pad, width, body[n..])
    ensures CarryOn([Spaces(pad) + body[..n]] + tail, pad, width, rest)
  {
    var line := Spaces(pad) + body[..n];
    assert |line| == pad + n && n > 0;
    var lines := [line] + tail;
    hide GoodBreak, Lead, Spaces;
    assert lines[0] == line && lines[1..] == tail;
  }

  lemma LaterNext(rest: string, width: nat, pad: nat)
    requires rest != "" && width > 0
    ensures var body := rest[Lead(rest)..]; var n := BreakAt(body, width);
            && 0 < n <= |body|
            && Padded(LaterLines(rest, width), pad)
               == [Spaces(pad) + body[..n]] + Padded(LaterLines(body[n..], width), pad)
  {
    var body := rest[Lead(rest)..];
    var n := BreakAt(body, width);
    assert 0 < n <= |body|;
    hide GoodBreak, Lead, BreakAt;
    CutAppend([body[..n]], LaterLines(body[n..], width));
  }

  lemma {:induction false} LaterCarryOn(rest: string, pad: nat, width: nat)
    requires width > 0
    ensures CarryOn(Padded(LaterLines(rest, width), pad), pad, width, rest)
    decreases |rest|
  {
    if rest != "" {
      var body := rest[Lead(rest)..];
      var n := BreakAt(body, width);
      LaterNext(rest, width, pad);
      hide GoodBreak, Lead, BreakAt, CarryOn, Padded, LaterLines;
      LaterCarryOn(body[n..], pad, width);
      CarryOnNext(Padded(LaterLines(body[n..], width), pad), pad, width, rest, body, n);
    }
  }

  lemma UnbrokenNext(s: string, n: nat, rest: seq<string>)
    requires n <= |s| && '\n' !in s && Unbroken(rest)
    ensures Unbroken([s[..n]] + rest)
  {
  }

  lemma {:induction false} LaterUnbroken(rest: string, width: nat)
    requires width > 0 && '\n' !in rest
    ensures Unbroken(LaterLines(rest, width))
    decreases |rest|
  {
    if rest != "" {
      var body := rest[Lead(rest)..];
      var n := BreakAt(body, width);
      LaterUnbroken(body[n..], width);
      UnbrokenNext(body, n, LaterLines(body[n..], width));
    }
  }

  lemma {:induction false} CarryOnFits(lines: seq<string>, pad: nat, width: nat, rest: string)
    requires CarryOn(lines, pad, width, rest)
    ensures forall k :: 0 <= k < |lines| ==> pad < |lines[k]| <= pad + width
    decreases |lines|
  {
    if lines != [] {
      var body := rest[Lead(rest)..];
      CarryOnFits(lines[1..], pad, width, body[|lines[0]| - pad..]);
      assert forall k :: 1 <= k < |lines| ==> lines[k] == lines[1..][k - 1];
    }
  }

  /** The lines of a whole paragraph. */
  ghost predicate LaidOut(line: string, more: seq<string>, text: string, first: nat, later: nat, pad: nat) {
    if |text| < first then line == text && more == []
    else GoodBreak(text, |line|, first) && line <= text && CarryOn(more, pad, later, text[|line|..])
  }

  /** No line is longer than allowed; the first is written behind `indent` characters that are
      already there. */
  ghost predicate Fits(line: string, more: seq<string>, indent: nat, pad: nat, lineLength: nat) {
    indent + |line| <= lineLength && forall k :: 0 <= k < |more| ==> pad < |more[k]| <= lineLength
  }

  lemma LaidOutFits(line: string, more: seq<string>, text: string, indent: nat, pad: nat, lineLength: nat)
    requires indent < lineLength && pad < lineLength
    requires LaidOut(line, more, text, lineLength - indent, lineLength - pad, pad)
    ensures Fits(line, more, indent, pad, lineLength)
  {
    if |text| >= lineLength - indent {
      CarryOnFits(more, pad, lineLength - pad, text[|line|..]);
    }
  }

  lemma TextUnbroken(par: string)
    requires '\n' !in par
    ensures '\n' !in Text(par)
  {
  }

  predicate TwoTabs(par: string) {
    exists i, j :: 0 <= i < j < |par| && par[i] == par[j] == '\t'
  }

  lemma {:induction false} CountTwo(par: string)
    ensures Count(par, '\t') > 1 <==> TwoTabs(par)
  {
    if par != "" {
      CountTwo(par[1..]);
      CountNone(par[1..], '\t');
      assert forall k :: 0 <= k < |par[1..]| ==> par[1..][k] == par[k + 1];
      if TwoTabs(par[1..]) {
        var i, j :| 0 <= i < j < |par[1..]| && par[1..][i] == par[1..][j] == '\t';
        assert par[i + 1] == par[j + 1] == '\t';
      }
      if TwoTabs(par) {
        var i, j :| 0 <= i < j < |par| && par[i] == par[j] == '\t';
        assert par[1..][j - 1] == '\t';
        if i > 0 {
          assert par[1..][i - 1] == '\t';
        }
      }
      if par[0] == '\t' && '\t' in par[1..] {
        var k :| 0 <= k < |par[1..]| && par[1..][k] == '\t';
        assert par[0] == par[k + 1] == '\t';
      }
    }
  }

  /** The paragraph without its tab, and the tab's column, which indents the later lines if it is on
      the first. */
  ghost predicate Untabbed(par: string, width: nat, text: string, column: nat) {
    if '\t' !in par then text == par && column == 0
    else
      exists i :: 0 <= i < |par| && par[i] == '\t' && text == par[..i] + par[i + 1..]
                  && column == if i < width then i else 0
  }

  lemma TextUntabbed(par: string, width: nat)
    ensures Untabbed(par, width, Text(par), ParIndent(par, width))
  {
    var tab := IndexOf(par, '\t');
    if tab < |par| {
      assert par[tab] == '\t';
    }
  }

  /** A paragraph without newlines and with at most one tab is written so that no physical line is
      longer than `lineLength`, its own indentation included; the text of the lines, in order, is the
      paragraph without its tab, and later lines are indented by the tab's column. With two tabs it is
      refused. */
  lemma FormatMeaning(par: string, indent: nat, lineLength: nat)
      returns (line: string, more: seq<string>, text: string, column: nat)
    requires indent < lineLength && '\n' !in par
    ensures TwoTabs(par) ==> Formatted(par, indent, lineLength) == Failure(TooManyTabs)
    ensures !TwoTabs(par) ==>
              && Formatted(par, indent, lineLength).Success?
              && PhysicalLines(Formatted(par, indent, lineLength).value) == [line] + more
    ensures Untabbed(par, lineLength - indent, text, column) && indent + column < lineLength
    ensures LaidOut(line, more, text, lineLength - indent, lineLength - indent - column, indent + column)
    ensures Fits(line, more, indent, indent + column, lineLength)
  {
    hide Count, Text, ParIndent, PhysicalLines, Laid, LaidOut, Fits, GoodBreak, CarryOn, IndexOf, Untabbed, TwoTabs;
    var width := lineLength - indent;
    text, column := Text(par), ParIndent(par, width);
    CountTwo(par);
    TextUntabbed(par, width);
    TextUnbroken(par);
    line, more := LaidMeaning(text, width, width - column, indent + column);
    LaidOutFits(line, more, text, indent, indent + column, lineLength);
  }

  lemma LaidMeaning(text: string, first: nat, later: nat, pad: nat) returns (line: string, more: seq<string>)
    requires 0 < first && 0 < later && '\n' !in text
    ensures PhysicalLines(Laid(text, first, later, pad)) == [line] + more
    ensures LaidOut(line, more, text, first, later, pad)
  {
    if |text| < first {
      line, more := text, [];
      assert IndexOf(text, '\n') == |text|;
    } else {
      hide LaidOut, PhysicalLines;
      line, more := LongMeaning(text, first, later, pad);
    }
  }

  lemma FirstUnbroken(text: string, first: nat, later: nat)
    requires 0 < first && 0 < later && '\n' !in text && text != ""
    ensures Unbroken(FirstAndLater(text, first, later))
  {
    var n := BreakAt(text, first);
    LaterUnbroken(text[n..], later);
    UnbrokenNext(text, n, LaterLines(text[n..], later));
  }

  lemma LongMeaning(text: string, first: nat, later: nat, pad: nat) returns (line: string, more: seq<string>)
    requires 0 < first <= |text| && 0 < later && '\n' !in text
    ensures PhysicalLines(Laid(text, first, later, pad)) == [line] + more
    ensures LaidOut(line, more, text, first, later, pad)
  {
    var n := BreakAt(text, first);
    var lines := FirstAndLater(text, first, later);
    var rest := LaterLines(text[n..], later);
    FirstUnbroken(text, first, later);
    LaterCarryOn(text[n..], pad, later);
    line, more := text[..n], Padded(rest, pad);
    assert |line| == n && line <= text;
    hide GoodBreak, CarryOn, BreakAt, PhysicalLines, Render, LaterLines, Padded;
    CutAppend([line], rest);
    PhysicalOf("", lines, pad);
    WithEmpty(Render(lines, pad));
    WithEmpty(line);
  }
}
