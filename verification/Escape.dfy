/** EscapeForPowershell: two passes that insert a backslash and a backtick before every double
    quote and then before every ampersand, in place. */
module Escape {
  import opened Seqs

  const MARK: string := "\\`"

  /** What the passes amount to, one character at a time. */
  function Escaped(s: string, special: set<char>): (r: string) {
    if s == [] then []
    else (if s[0] in special then MARK else []) + [s[0]] + Escaped(s[1..], special)
  }

  lemma {:induction false} EscapedConcat(a: string, b: string, special: set<char>)
    ensures Escaped(a + b, special) == Escaped(a, special) + Escaped(b, special)
  {
    if a == [] {
      assert a + b == b;
    } else {
      assert (a + b)[1..] == a[1..] + b;
      EscapedConcat(a[1..], b, special);
    }
  }

  lemma {:induction false} EscapedPlain(s: string, special: set<char>)
    requires forall c :: c in s ==> c !in special
    ensures Escaped(s, special) == s
  {
    if s != [] {
      EscapedPlain(s[1..], special);
    }
  }

  /** basic_string::find of one character; the length of the string stands for npos. */
  method Find(s: string, c: char, start: nat) returns (i: nat)
    requires start <= |s|
    ensures start <= i <= |s|
    ensures c !in s[start..i]
    ensures i < |s| ==> s[i] == c
  {
    i := start;
    while i < |s| && s[i] != c
      invariant start <= i <= |s|
      invariant c !in s[start..i]
    {
      i := i + 1;
    }
  }

  /** One of the two insertion loops. */
  method EscapePass(input: string, quote: char) returns (cmdline: string)
    ensures cmdline == Escaped(input, {quote})
  {
    cmdline := input;
    var start, found := 0, true;
    while found
      invariant start <= |cmdline|
      invariant found ==> cmdline[..start] + Escaped(cmdline[start..], {quote}) == Escaped(input, {quote})
      invariant !found ==> cmdline == Escaped(input, {quote})
      decreases |cmdline| - start, found
    {
      hide Escaped;
      var end := Find(cmdline, quote, start);
      if end < |cmdline| {
        Advance(cmdline, start, end, quote);
        cmdline := cmdline[..end] + MARK + cmdline[end..];
        start := end + 3;
      } else {
        found := false;
        EscapedPlain(cmdline[start..], {quote});
        SplitAt(cmdline, start);
      }
    }
  }

  /** An insertion before the next quote, and moving past it, leaves what is to come unchanged. */
  lemma Advance(cmdline: string, start: nat, end: nat, quote: char)
    requires start <= end < |cmdline| && cmdline[end] == quote && quote !in cmdline[start..end]
    ensures var next := cmdline[..end] + MARK + cmdline[end..];
            next[..end + 3] + Escaped(next[end + 3..], {quote})
            == cmdline[..start] + Escaped(cmdline[start..], {quote})
  {
    var front, plain, rest := cmdline[..start], cmdline[start..end], cmdline[end + 1..];
    var next := cmdline[..end] + MARK + cmdline[end..];
    assert next == (front + plain + MARK + [quote]) + rest;
    CutAppend(front + plain + MARK + [quote], rest);
    assert cmdline[start..] == plain + ([quote] + rest);
    EscapedConcat(plain, [quote] + rest, {quote});
    EscapedPlain(plain, {quote});
    EscapedHead(quote, rest, {quote});
    calc {
      front + Escaped(cmdline[start..], {quote});
      front + (plain + (MARK + [quote] + Escaped(rest, {quote})));
      front + plain + MARK + [quote] + Escaped(rest, {quote});
    }
  }

  lemma EscapedHead(c: char, rest: string, special: set<char>)
    ensures Escaped([c] + rest, special) == (if c in special then MARK else []) + [c] + Escaped(rest, special)
  {
    CutAppend([c], rest);
  }

  /** Marks put in by the first pass are left alone by the second. */
  lemma {:induction false} PassesCompose(s: string)
    ensures Escaped(Escaped(s, {'"'}), {'&'}) == Escaped(s, {'"', '&'})
  {
    if s != [] {
      var head := (if s[0] == '"' then MARK else []) + [s[0]];
      EscapedConcat(head, Escaped(s[1..], {'"'}), {'&'});
      PassesCompose(s[1..]);
      if s[0] == '"' {
        EscapedPlain(head, {'&'});
      } else {
        EscapedHead(s[0], [], {'&'});
        assert head == [s[0]] + [];
      }
    }
  }

  method EscapeForPowershell(input: string) returns (cmdline: string)
    ensures cmdline == Escaped(input, {'"', '&'}) == Marked(input)
  {
    cmdline := EscapePass(input, '"');
    cmdline := EscapePass(cmdline, '&');
    PassesCompose(input);
    EscapedIs(input);
  }

  /** Drops the two characters before every quote and ampersand, from the end of the string. */
  function Unescaped(s: string): (r: string)
    decreases |s|
  {
    if s == [] then []
    else
      var last := s[|s| - 1];
      if last in {'"', '&'} && |s| >= 3 then Unescaped(s[..|s| - 3]) + [last]
      else Unescaped(s[..|s| - 1]) + [last]
  }

  /** Nothing is lost: every command line can be read back from its escaped form. */
  lemma {:induction false} EscapeRoundTrip(s: string)
    ensures Unescaped(Escaped(s, {'"', '&'})) == s
    decreases |s|
  {
    if s != [] {
      var init, last := s[..|s| - 1], s[|s| - 1];
      Snoc(s);
      EscapedConcat(init, [last], {'"', '&'});
      EscapedHead(last, [], {'"', '&'});
      EscapeRoundTrip(init);
      var front := Escaped(init, {'"', '&'});
      if last in {'"', '&'} {
        UnescapedLast(front + MARK, last);
        CutAppend(front, MARK);
      } else {
        UnescapedLast(front, last);
      }
    }
  }

  lemma UnescapedLast(front: string, last: char)
    ensures Unescaped(front + [last])
         == (if last in {'"', '&'} && |front| >= 2 then Unescaped(front[..|front| - 2]) else Unescaped(front)) + [last]
  {
    var s := front + [last];
    CutAppend(front, [last]);
    if last in {'"', '&'} && |front| >= 2 {
      assert s[..|s| - 3] == front[..|front| - 2];
    }
  }

  /** Every character stands for itself, and a double quote or an ampersand has a backslash and a
      backtick in front. */
  function Marked(s: string): (r: string) {
    if s == "" then ""
    else Marked(s[..|s| - 1]) + if s[|s| - 1] == '"' || s[|s| - 1] == '&' then ['\\', '`', s[|s| - 1]] else [s[|s| - 1]]
  }

  lemma {:induction false} EscapedIs(s: string)
    ensures Escaped(s, {'"', '&'}) == Marked(s)
    decreases |s|
  {
    if s != "" {
      var init, last := s[..|s| - 1], s[|s| - 1];
      Snoc(s);
      EscapedIs(init);
      EscapedConcat(init, [last], {'"', '&'});
      EscapedHead(last, [], {'"', '&'});
    }
  }
}
