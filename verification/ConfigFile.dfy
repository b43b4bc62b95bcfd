/** The configuration-file iterator: which names it accepts, and what it reads from the lines. */
module ConfigFile {
  import opened Seqs
  import opened Wrappers
  import opened StringOrder

  // ---- accepted names

  /** No registered prefix is a prefix of another. */
  ghost predicate PrefixFree(a: seq<string>) {
    forall i, j :: 0 <= i < |a| && 0 <= j < |a| && i != j ==> !(a[i] <= a[j])
  }

  /** Neither of two strings is a prefix of the other. */
  predicate Incomparable(s: string, p: string) {
    !(s <= p) && !(p <= s)
  }

  ghost predicate IsLowerBound(a: seq<string>, s: string, i: nat) {
    i <= |a| && (forall k :: 0 <= k < i ==> Less(a[k], s)) && (forall k :: i <= k < |a| ==> !Less(a[k], s))
  }

  /** An element that begins with `s` exists only if the lower bound of `s` begins with it. */
  lemma ExtensionAtBound(a: seq<string>, s: string, i: nat, k: nat)
    requires Sorted(a) && IsLowerBound(a, s, i) && k < |a| && s <= a[k]
    ensures i <= k && s <= a[i]
  {
    if s != a[k] {
      PrefixLess(s, a[k]);
      Asymmetric(s, a[k]);
    } else {
      Irreflexive(s);
    }
    Total(a[i], s);
    Between(s, a[i], a[k]);
  }

  /** Of the elements that `s` properly begins with, the only candidate is the one before the bound. */
  lemma PrefixBeforeBound(a: seq<string>, s: string, i: nat, k: nat)
    requires Sorted(a) && PrefixFree(a) && IsLowerBound(a, s, i) && k < |a| && a[k] < s
    ensures i > 0 && k == i - 1
  {
    PrefixLess(a[k], s);
    Between(a[k], a[i - 1], s);
  }

  /** Looking at the two neighbours of the insertion point decides whether any element clashes. */
  lemma NeighboursSuffice(a: seq<string>, s: string, i: nat)
    requires Sorted(a) && PrefixFree(a) && IsLowerBound(a, s, i)
    ensures (i < |a| && s <= a[i]) || (i > 0 && a[i - 1] <= s) <==> exists k :: 0 <= k < |a| && !Incomparable(s, a[k])
  {
    if k :| 0 <= k < |a| && !Incomparable(s, a[k]) {
      if s <= a[k] {
        ExtensionAtBound(a, s, i, k);
      } else {
        PrefixBeforeBound(a, s, i, k);
      }
    }
    if i < |a| && s <= a[i] {
      assert !Incomparable(s, a[i]);
    }
    if i > 0 && a[i - 1] <= s {
      assert !Incomparable(s, a[i - 1]);
    }
  }

  lemma InsertKeeps(a: seq<string>, s: string, i: nat)
    requires Sorted(a) && PrefixFree(a) && IsLowerBound(a, s, i)
    requires forall k :: 0 <= k < |a| ==> Incomparable(s, a[k])
    ensures Sorted(a[..i] + [s] + a[i..]) && PrefixFree(a[..i] + [s] + a[i..])
    ensures forall p :: p in a[..i] + [s] + a[i..] <==> p in a || p == s
  {
    var b := a[..i] + [s] + a[i..];
    forall k | i <= k < |a| ensures Less(s, a[k]) {
      Total(a[k], s);
    }
    forall x, y | 0 <= x < y < |b| ensures Less(b[x], b[y]) {
    }
    forall x, y | 0 <= x < |b| && 0 <= y < |b| && x != y ensures !(b[x] <= b[y]) {
      assert x != i && y != i ==> b[x] == a[if x < i then x else x - 1] && b[y] == a[if y < i then y else y - 1];
    }
    SplitAt(a, i);
  }

  /** `p*` is one of the names. */
  ghost predicate Pattern(names: set<string>, p: string) {
    p + "*" in names
  }

  ghost predicate Collected(prefixes: seq<string>, names: seq<string>) {
    forall p :: p in prefixes <==> p + "*" in names
  }

  lemma Star(name: string)
    requires name != ""
    ensures forall p :: p + "*" == name <==> name[|name| - 1] == '*' && p == name[..|name| - 1]
  {
    Snoc(name);
    forall p | p + "*" == name ensures name[|name| - 1] == '*' && p == name[..|name| - 1] {
      CutAppend(p, "*");
    }
  }

  /** The names and prefixes that a file may use. */
  datatype Registry = Registry(options: set<string>, prefixes: seq<string>) {
    ghost predicate Valid() {
      Sorted(prefixes) && PrefixFree(prefixes)
    }

    /** A registered name, or one that goes on after a registered prefix. */
    predicate Allows(s: string) {
      s in options || exists i :: 0 <= i < |prefixes| && prefixes[i] < s
    }
  }

  datatype Error =
    | ClashingPrefixes
    | UnknownOption(name: string)
    | UnrecognizedLine(line: string)
    | EmptySection  // `[]`: config_file.cpp reads the last character of an empty string

  /** A name that is refused shows two patterns that clash. */
  lemma Clash(allowed: set<string>, names: seq<string>, name: string, prefixes: seq<string>)
    requires Collected(prefixes, names) && name !in names && name in allowed && forall n :: n in names ==> n in allowed
    requires name != "" && name[|name| - 1] == '*'
    requires exists k :: 0 <= k < |prefixes| && !Incomparable(name[..|name| - 1], prefixes[k])
    ensures exists x, y :: Pattern(allowed, x) && Pattern(allowed, y) && x != y && !Incomparable(x, y)
  {
    var x := name[..|name| - 1];
    var k :| 0 <= k < |prefixes| && !Incomparable(x, prefixes[k]);
    var y := prefixes[k];
    Star(name);
    assert y in prefixes;
    assert Pattern(allowed, x) && Pattern(allowed, y);
  }

  lemma NoClash(allowed: set<string>, names: seq<string>, registry: Registry)
    requires registry.Valid() && Collected(registry.prefixes, names) && forall n :: n in names <==> n in allowed
    ensures forall p :: p in registry.prefixes <==> Pattern(allowed, p)
    ensures forall x, y :: Pattern(allowed, x) && Pattern(allowed, y) && x != y ==> Incomparable(x, y)
  {
    forall x, y | Pattern(allowed, x) && Pattern(allowed, y) && x != y ensures Incomparable(x, y) {
      assert x in registry.prefixes && y in registry.prefixes;
    }
  }

  // ---- one line

  predicate IsBlank(c: char) {
    c == ' ' || c == '\t' || c == '\r' || c == '\n'
  }

  predicate AllBlank(s: string) {
    forall i :: 0 <= i < |s| ==> s[i] in {' ', '\t', '\r', '\n'}
  }

  function TrimLeft(s: string): (r: string)
    ensures r != "" ==> !IsBlank(r[0])
    ensures |r| <= |s| && r == s[|s| - |r|..]
  {
    if s != "" && IsBlank(s[0]) then TrimLeft(s[1..]) else s
  }

  function TrimRight(s: string): (r: string)
    ensures r != "" ==> !IsBlank(r[|r| - 1])
    ensures r <= s
  {
    if s != "" && IsBlank(s[|s| - 1]) then TrimRight(s[..|s| - 1]) else s
  }

  /** trim_ws: from the first to the last character that is not blank. */
  function TrimWs(s: string): (r: string)
    ensures r != "" ==> !IsBlank(r[0]) && !IsBlank(r[|r| - 1])
  {
    var left := TrimLeft(s);
    var r := TrimRight(left);
    assert r != "" ==> r[0] == left[0];
    r
  }

  /** Neither end is blank. */
  predicate Trimmed(s: string) {
    s != "" ==> s[0] !in {' ', '\t', '\r', '\n'} && s[|s| - 1] !in {' ', '\t', '\r', '\n'}
  }

  lemma BlankTail(ws: string)
    requires AllBlank(ws) && ws != ""
    ensures AllBlank(ws[1..])
  {
  }

  lemma {:induction false} TrimLeftBlank(ws: string, s: string)
    requires AllBlank(ws) && (s != "" ==> !IsBlank(s[0]))
    ensures TrimLeft(ws + s) == s
  {
    if ws == "" {
      assert ws + s == s;
    } else {
      assert IsBlank(ws[0]);
      TailOfAppend(ws, s);
      BlankTail(ws);
      hide IsBlank, AllBlank;
      TrimLeftBlank(ws[1..], s);
    }
  }

  lemma {:induction false} TrimRightBlank(s: string, ws: string)
    requires AllBlank(ws) && (s != "" ==> !IsBlank(s[|s| - 1]))
    ensures TrimRight(s + ws) == s
    decreases |ws|
  {
    if ws == "" {
      assert s + ws == s;
    } else {
      var init := ws[..|ws| - 1];
      assert (s + ws)[..|s + ws| - 1] == s + init;
      TrimRightBlank(s, init);
    }
  }

  lemma TrimWsIs(before: string, s: string, after: string)
    requires AllBlank(before) && AllBlank(after) && Trimmed(s)
    ensures TrimWs(before + s + after) == s
  {
    Assoc(before, s, after);
    if s == "" {
      assert before + (s + after) == (before + after) + "";
      assert AllBlank(before + after);
      TrimLeftBlank(before + after, "");
    } else {
      assert (s + after)[0] == s[0];
      TrimLeftBlank(before, s + after);
      TrimRightBlank(s, after);
    }
  }

  /** What one line says. */
  datatype Parsed = Nothing | Section(prefix: string) | Assignment(name: string, value: string) | Invalid(error: Error)

  function SectionPrefix(section: string): string
    requires section != ""
  {
    if section[|section| - 1] == '.' then section else section + "."
  }

  function ParseLine(line: string): Parsed {
    var s := TrimWs(line[..IndexOf(line, '#')]);
    if s == "" then Nothing
    else if s[0] == '[' && s[|s| - 1] == ']' then
      if |s| <= 2 then Invalid(EmptySection) else Section(SectionPrefix(s[1..|s| - 1]))
    else
      var n := IndexOf(s, '=');
      if n < |s| then Assignment(TrimWs(s[..n]), TrimWs(s[n + 1..])) else Invalid(UnrecognizedLine(s))
  }

  // ---- the whole file

  /** One option read from the file. */
  datatype Entry = Entry(name: string, value: string, unregistered: bool)

  function ReadLines(lines: seq<string>, prefix: string, registry: Registry,
                     lenient: bool): (r: Result<seq<Entry>, Error>) {
    if lines == [] then Success([])
    else match ParseLine(lines[0])
      case Nothing => ReadLines(lines[1..], prefix, registry, lenient)
      case Section(p) => ReadLines(lines[1..], p, registry, lenient)
      case Invalid(e) => Failure(e)
      case Assignment(name, value) =>
        if !registry.Allows(prefix + name) && !lenient then Failure(UnknownOption(prefix + name))
        else
          Prepend([Entry(prefix + name, value, !registry.Allows(prefix + name))],
                  ReadLines(lines[1..], prefix, registry, lenient))
  }

  class ConfigFileIterator {
    var registry: Registry
    var prefix: string       // m_prefix
    var lenient: bool        // m_allow_unregistered
    var lines: seq<string>   // what getline has still to deliver
    var value: Entry
    var atEof: bool

    ghost predicate Valid()
      reads this
    {
      registry.Valid()
    }

    constructor (lenient: bool, lines: seq<string>)
      ensures Valid() && registry == Registry({}, []) && prefix == "" && !atEof
      ensures this.lenient == lenient && this.lines == lines
    {
      registry, prefix, atEof := Registry({}, []), "", false;
      this.lenient, this.lines := lenient, lines;
      value := Entry("", "", false);
    }

    /** Only the neighbours of the insertion point are compared, yet a name is refused exactly when
        some registered prefix clashes with it. */
    method AddOption(name: string) returns (ok: bool)
      requires Valid() && name != ""
      modifies this`registry
      ensures Valid() && registry.options == old(registry).options
      ensures name[|name| - 1] != '*' ==> ok && registry == old(registry)
      ensures name[|name| - 1] == '*' ==>
                && (ok <==> forall k :: 0 <= k < |old(registry).prefixes| ==>
                              Incomparable(name[..|name| - 1], old(registry).prefixes[k]))
                && (!ok ==> registry == old(registry))
                && (ok ==> forall p :: p in registry.prefixes
                              <==> p in old(registry).prefixes || p == name[..|name| - 1])
    {
      if name[|name| - 1] != '*' {
        return true;
      }
      var s := name[..|name| - 1];
      var badPrefixes := false;
      var a := registry.prefixes;
      var i := LowerBound(a, s);
      if i < |a| && s <= a[i] {
        badPrefixes := true;
      }
      if i > 0 && a[i - 1] <= s {
        badPrefixes := true;
      }
      NeighboursSuffice(a, s, i);
      if badPrefixes {
        return false;
      }
      InsertKeeps(a, s, i);
      registry := registry.(prefixes := a[..i] + [s] + a[i..]);
      return true;
    }

    /** The constructor's loop over the allowed options: it gets through exactly when no two of the
        patterns among them clash. */
    method AllowOptions(allowed: set<string>) returns (ok: bool)
      requires registry.prefixes == [] && "" !in allowed
      modifies this`registry
      ensures Valid()
      ensures ok <==> forall x, y :: Pattern(allowed, x) && Pattern(allowed, y) && x != y ==> Incomparable(x, y)
      ensures ok ==> registry.options == allowed && forall p :: p in registry.prefixes <==> Pattern(allowed, p)
    {
      registry := registry.(options := allowed);
      var order := InOrder(allowed);
      SortedDistinct(order);
      assert Valid();
      hide Incomparable, Sorted, PrefixFree;
      for i := 0 to |order|
        invariant Valid() && registry.options == allowed
        invariant Collected(registry.prefixes, order[..i])
      {
        ghost var before := registry.prefixes;
        var name := order[i];
        assert name in allowed;
        TakeNext(order, i);
        ok := AddOption(name);
        Star(name);
        if !ok {
          Clash(allowed, order[..i], name, before);
          return;
        }
      }
      ok := true;
      assert order[..|order|] == order;
      NoClash(allowed, order, registry);
    }

    /** One probe below the lower bound answers for all prefixes. */
    method AllowedOption(s: string) returns (allowed: bool)
      requires Valid()
      ensures allowed == registry.Allows(s)
    {
      if s in registry.options {
        return true;
      }
      var a := registry.prefixes;
      var i := LowerBound(a, s);
      allowed := i > 0 && a[i - 1] <= s;
      if allowed {
        assert Less(a[i - 1], s);
        Irreflexive(s);
        assert a[i - 1] != s;
        assert registry.prefixes[i - 1] < s;
      } else if k :| 0 <= k < |a| && a[k] < s {
        PrefixBeforeBound(a, s, i, k);
      }
    }

    /** Reads on to the next assignment; None stands for an entry found or the end of the file. */
    method Get() returns (failure: Option<Error>)
      requires Valid() && !atEof
      modifies this`lines, this`prefix, this`value, this`atEof
      ensures |lines| <= |old(lines)|
      ensures var before := ReadLines(old(lines), old(prefix), registry, lenient);
              var rest := ReadLines(lines, prefix, registry, lenient);
              match failure
              case Some(e) => before == Failure(e)
              case None =>
                if atEof then before == Success([])
                else before == Prepend([value], rest) && |lines| < |old(lines)|
    {
      hide Registry.Allows, ParseLine;
      ghost var goal := ReadLines(lines, prefix, registry, lenient);
      while lines != []
        invariant |lines| <= |old(lines)| && !atEof && value == old(value)
        invariant ReadLines(lines, prefix, registry, lenient) == goal
        decreases |lines|
      {
        var line := lines[0];
        lines := lines[1..];
        match ParseLine(line)
        case Nothing =>
        case Section(p) => prefix := p;
        case Invalid(e) => return Some(e);
        case Assignment(key, text) =>
          var name := prefix + key;
          var registered := AllowedOption(name);
          if !registered && !lenient {
            return Some(UnknownOption(name));
          }
          value := Entry(name, text, !registered);
          return None;
      }
      atEof := true;
      return None;
    }

    /** The loop of parse_config_file: everything the iterator delivers. */
    method ReadAll() returns (r: Result<seq<Entry>, Error>)
      requires Valid() && !atEof
      modifies this`lines, this`prefix, this`value, this`atEof
      ensures r == ReadLines(old(lines), old(prefix), registry, lenient)
    {
      var entries: seq<Entry> := [];
      ghost var goal := ReadLines(lines, prefix, registry, lenient);
      PrependTwice([], [], goal);
      hide ReadLines;
      while true
        invariant Valid() && !atEof
        invariant Prepend(entries, ReadLines(lines, prefix, registry, lenient)) == goal
        decreases |lines|
      {
        var failure := Get();
        if failure.Some? {
          return Failure(failure.value);
        }
        if atEof {
          assert entries + [] == entries;
          return Success(entries);
        }
        PrependTwice(entries, [value], ReadLines(lines, prefix, registry, lenient));
        entries := entries + [value];
      }
    }
  }

  // ---- printing

  /** A printed line: blanks may stand where the format does not care, and a comment at the end. */
  datatype Line =
    | Blank(ws: string, comment: string)
    | Header(ws1: string, section: string, ws2: string, comment: string)
    | Setting(ws1: string, name: string, ws2: string, ws3: string, value: string, ws4: string, comment: string)
    | Other(ws1: string, text: string, ws2: string, comment: string)  // what the format does not know
  {
    predicate Valid() {
      && (comment == "" || comment[0] == '#')
      && match this
         case Blank(ws, _) => AllBlank(ws)
         case Header(ws1, section, ws2, _) => AllBlank(ws1) && AllBlank(ws2) && section != "" && '#' !in section
         case Setting(ws1, name, ws2, ws3, value, ws4, _) =>
           && AllBlank(ws1) && AllBlank(ws2) && AllBlank(ws3) && AllBlank(ws4)
           && Trimmed(name) && '#' !in name && '=' !in name && Trimmed(value) && '#' !in value
           && !(name != "" && name[0] == '[' && value != "" && value[|value| - 1] == ']')
         case Other(ws1, text, ws2, _) =>
           && AllBlank(ws1) && AllBlank(ws2) && text != "" && Trimmed(text) && '#' !in text && '=' !in text
           && !(text[0] == '[' && text[|text| - 1] == ']')
    }

    function Body(): string {
      match this
      case Blank(ws, _) => ws
      case Header(ws1, section, ws2, _) => ws1 + ("[" + section + "]") + ws2
      case Setting(ws1, name, ws2, ws3, value, ws4, _) => ws1 + name + ws2 + "=" + ws3 + value + ws4
      case Other(ws1, text, ws2, _) => ws1 + text + ws2
    }

    function Render(): string {
      Body() + comment
    }

    /** What the line is meant to say. */
    function Meaning(): Parsed {
      match this
      case Blank(_, _) => Nothing
      case Header(_, section, _, _) =>
        Section(if section != "" && section[|section| - 1] == '.' then section else section + ".")
      case Setting(_, name, _, _, value, _, _) => Assignment(name, value)
      case Other(_, text, _, _) => Invalid(UnrecognizedLine(text))
    }
  }

  lemma CommentCut(body: string, comment: string)
    requires '#' !in body && (comment == "" || comment[0] == '#')
    ensures (body + comment)[..IndexOf(body + comment, '#')] == body
  {
    var line := body + comment;
    if comment == "" {
      assert line == body && '#' !in line;
    } else {
      assert line == body + ['#'] + comment[1..];
      IndexOfAppend(body, '#', comment[1..]);
    }
  }

  /** The part of a setting that is left after trimming. */
  function Core(name: string, ws2: string, ws3: string, value: string): string {
    (name + if name == "" then "" else ws2) + ['='] + ((if value == "" then "" else ws3) + value)
  }

  lemma CoreEnds(name: string, ws2: string, ws3: string, value: string)
    ensures var s := Core(name, ws2, ws3, value);
            s != "" && s[0] == (if name == "" then '=' else name[0])
            && s[|s| - 1] == (if value == "" then '=' else value[|value| - 1])
  {
  }

  lemma BlankAppend(a: string, b: string)
    requires AllBlank(a) && AllBlank(b)
    ensures AllBlank(a + b)
  {
  }

  lemma SettingSplits(ws1: string, name: string, ws2: string, ws3: string, value: string, ws4: string)
    ensures ws1 + name + ws2 + "=" + ws3 + value + ws4
         == (if name == "" then ws1 + ws2 else ws1) + Core(name, ws2, ws3, value)
            + (if value == "" then ws3 + ws4 else ws4)
  {
    hide *;
    var a, b := if name == "" then "" else ws2, if value == "" then "" else ws3;
    var before, after := if name == "" then ws1 + ws2 else ws1, if value == "" then ws3 + ws4 else ws4;
    assert ws1 + name + ws2 == before + (name + a) by {
      WithEmpty(ws1);
      WithEmpty(ws1 + ws2);
      Assoc(ws1, name, ws2);
    }
    assert ws3 + value + ws4 == (b + value) + after by {
      WithEmpty(ws3);
      WithEmpty(ws3 + ws4);
      Assoc(ws3, value, ws4);
    }
    Regroup(ws1 + name + ws2, ws3, value, ws4, before, name + a, b + value, after);
    CoreIs(name, ws2, ws3, value);
  }

  lemma CoreIs(name: string, ws2: string, ws3: string, value: string)
    ensures Core(name, ws2, ws3, value)
         == (name + if name == "" then "" else ws2) + ['='] + ((if value == "" then "" else ws3) + value)
  {
  }

  lemma Regroup(front: string, x: string, y: string, z: string, before: string, left: string, right: string,
                after: string)
    requires front == before + left && x + y + z == right + after
    ensures front + "=" + x + y + z == before + (left + ['='] + right) + after
  {
    assert front + "=" + x + y + z == front + "=" + (x + y + z);
    assert before + left + "=" + (right + after) == before + (left + ['='] + right) + after;
  }

  lemma SettingTrims(ws1: string, name: string, ws2: string, ws3: string, value: string, ws4: string)
    requires AllBlank(ws1) && AllBlank(ws2) && AllBlank(ws3) && AllBlank(ws4) && Trimmed(name) && Trimmed(value)
    ensures TrimWs(ws1 + name + ws2 + "=" + ws3 + value + ws4) == Core(name, ws2, ws3, value)
  {
    BlankAppend(ws1, ws2);
    BlankAppend(ws3, ws4);
    CoreEnds(name, ws2, ws3, value);
    assert Trimmed(Core(name, ws2, ws3, value)) by {
      hide Core, AllBlank;
    }
    hide TrimWs, AllBlank, Trimmed;
    var core := Core(name, ws2, ws3, value);
    var before := if name == "" then ws1 + ws2 else ws1;
    var after := if value == "" then ws3 + ws4 else ws4;
    TrimWsIs(before, core, after);
    SettingSplits(ws1, name, ws2, ws3, value, ws4);
  }

  lemma WithoutEquals(name: string, ws: string)
    requires '=' !in name && AllBlank(ws)
    ensures '=' !in name + ws
  {
  }

  lemma TrimOneSide(s: string, after: string, before: string, t: string)
    requires AllBlank(after) && AllBlank(before) && Trimmed(s) && Trimmed(t)
    ensures TrimWs(s + after) == s && TrimWs(before + t) == t
  {
    assert AllBlank("");
    hide *;
    TrimWsIs("", s, after);
    TrimWsIs(before, t, "");
    WithEmpty(s);
    WithEmpty(before + t);
  }

  lemma SettingParses(name: string, ws2: string, ws3: string, value: string)
    requires AllBlank(ws2) && AllBlank(ws3) && Trimmed(name) && Trimmed(value) && '=' !in name
    ensures var s := Core(name, ws2, ws3, value); var n := IndexOf(s, '=');
            n < |s| && TrimWs(s[..n]) == name && TrimWs(s[n + 1..]) == value
  {
    var a, b := if name == "" then "" else ws2, if value == "" then "" else ws3;
    var left, right := name + a, b + value;
    WithoutEquals(name, a);
    assert AllBlank(a) && AllBlank(b);
    hide TrimWs, IndexOf, Trimmed, AllBlank;
    TrimOneSide(name, a, b, value);
    IndexOfAppend(left, '=', right);
  }

  lemma BodyUncommented(line: Line)
    requires line.Valid()
    ensures '#' !in line.Body()
  {
    match line
    case Blank(ws, _) =>
    case Header(ws1, section, ws2, _) =>
      NotIn(ws1, "[" + section + "]");
      NotIn(ws1 + ("[" + section + "]"), ws2);
    case Setting(ws1, name, ws2, ws3, value, ws4, _) =>
      NotIn(ws1, name);
      NotIn(ws1 + name, ws2);
      NotIn(ws1 + name + ws2, "=");
      NotIn(ws1 + name + ws2 + "=", ws3);
      NotIn(ws1 + name + ws2 + "=" + ws3, value);
      NotIn(ws1 + name + ws2 + "=" + ws3 + value, ws4);
    case Other(ws1, text, ws2, _) =>
      NotIn(ws1, text);
      NotIn(ws1 + text, ws2);
  }

  lemma NotIn(a: string, b: string)
    requires ('#' !in a || AllBlank(a)) && ('#' !in b || AllBlank(b))
    ensures '#' !in a + b
  {
  }

  lemma HeaderRoundTrip(line: Line)
    requires line.Header? && line.Valid()
    ensures ParseLine(line.Render()) == line.Meaning()
  {
    BodyUncommented(line);
    CommentCut(line.Body(), line.comment);
    var s := "[" + line.section + "]";
    assert s[0] == '[' && s[|s| - 1] == ']' && Trimmed(s);
    hide TrimWs, IndexOf, AllBlank, Trimmed;
    TrimWsIs(line.ws1, s, line.ws2);
    assert s[1..|s| - 1] == line.section;
  }

  lemma SettingRoundTrip(line: Line)
    requires line.Setting? && line.Valid()
    ensures ParseLine(line.Render()) == line.Meaning()
  {
    hide TrimWs, IndexOf, Core, AllBlank, Trimmed;
    BodyUncommented(line);
    CommentCut(line.Body(), line.comment);
    SettingTrims(line.ws1, line.name, line.ws2, line.ws3, line.value, line.ws4);
    SettingParses(line.name, line.ws2, line.ws3, line.value);
    var s := Core(line.name, line.ws2, line.ws3, line.value);
    CoreEnds(line.name, line.ws2, line.ws3, line.value);
  }

  lemma OtherRoundTrip(line: Line)
    requires line.Other? && line.Valid()
    ensures ParseLine(line.Render()) == line.Meaning()
  {
    BodyUncommented(line);
    CommentCut(line.Body(), line.comment);
    hide TrimWs, AllBlank, Trimmed;
    TrimWsIs(line.ws1, line.text, line.ws2);
  }

  /** Every printed line is read as what it is meant to say. */
  lemma LineRoundTrip(line: Line)
    requires line.Valid()
    ensures ParseLine(line.Render()) == line.Meaning()
  {
    match line
    case Blank(ws, _) =>
      BodyUncommented(line);
      CommentCut(line.Body(), line.comment);
      TrimWsIs(ws, "", "");
      assert ws + "" + "" == ws;
    case Header(_, _, _, _) => HeaderRoundTrip(line);
    case Setting(_, _, _, _, _, _, _) => SettingRoundTrip(line);
    case Other(_, _, _, _) => OtherRoundTrip(line);
  }

  function RenderAll(doc: seq<Line>): (lines: seq<string>) {
    if doc == [] then [] else [doc[0].Render()] + RenderAll(doc[1..])
  }

  /** The key of a setting: with its section and one dot in front, if it stands in a section. */
  function KeyIn(section: Option<string>, name: string): (key: string) {
    match section
    case None => name
    case Some(s) => if s != "" && s[|s| - 1] == '.' then s + name else s + "." + name
  }

  /** What a document says at one place: a setting under its full key, or nothing that can be read. */
  datatype Item = Given(key: string, value: string) | Wrong(text: string)

  /** The settings of a document in order, each under the section whose header came last. */
  function Settings(doc: seq<Line>, section: Option<string>): (items: seq<Item>) {
    if doc == [] then []
    else match doc[0]
      case Blank(_, _) => Settings(doc[1..], section)
      case Header(_, next, _, _) => Settings(doc[1..], Some(next))
      case Setting(_, name, _, _, value, _, _) => [Given(KeyIn(section, name), value)] + Settings(doc[1..], section)
      case Other(_, text, _, _) => [Wrong(text)] + Settings(doc[1..], section)
  }

  /** The settings as the iterator delivers them. What cannot be read ends it, and so does, without
      leniency, the first key that is neither an option nor goes on after a registered prefix. */
  function Delivered(items: seq<Item>, registry: Registry, lenient: bool): Result<seq<Entry>, Error> {
    if items == [] then Success([])
    else match items[0]
      case Wrong(text) => Failure(UnrecognizedLine(text))
      case Given(key, value) =>
        var known := key in registry.options || exists i :: 0 <= i < |registry.prefixes| && registry.prefixes[i] < key;
        if !known && !lenient then Failure(UnknownOption(key))
        else
          match Delivered(items[1..], registry, lenient)
          case Failure(e) => Failure(e)
          case Success(entries) => Success([Entry(key, value, !known)] + entries)
  }

  /** A printed document is read back as exactly its settings, whatever blanks, blank lines and
      comments it was printed with. */
  lemma DocumentRoundTrip(doc: seq<Line>, registry: Registry, lenient: bool)
    requires forall i :: 0 <= i < |doc| ==> doc[i].Valid()
    ensures ReadLines(RenderAll(doc), "", registry, lenient) == Delivered(Settings(doc, None), registry, lenient)
  {
    ReadBack(doc, "", None, registry, lenient);
  }

  /** The prefix stands for the section. */
  ghost predicate StandsFor(prefix: string, section: Option<string>) {
    forall name :: prefix + name == KeyIn(section, name)
  }

  lemma {:induction false} ReadBack(doc: seq<Line>, prefix: string, section: Option<string>, registry: Registry,
                                    lenient: bool)
    requires StandsFor(prefix, section) && forall i :: 0 <= i < |doc| ==> doc[i].Valid()
    ensures ReadLines(RenderAll(doc), prefix, registry, lenient) == Delivered(Settings(doc, section), registry, lenient)
    decreases |doc|
  {
    hide ParseLine, Line.Valid, Line.Render, Line.Body, Registry.Allows, Prepend, Delivered, KeyIn;
    if doc == [] {
      NothingDelivered(registry, lenient);
    } else {
      var rest := doc[1..];
      LineRoundTrip(doc[0]);
      CutAppend([doc[0].Render()], RenderAll(rest));
      match doc[0]
      case Blank(_, _) => ReadBack(rest, prefix, section, registry, lenient);
      case Header(_, next, _, _) =>
        HeaderStands(next);
        ReadBack(rest, doc[0].Meaning().prefix, Some(next), registry, lenient);
      case Setting(_, name, _, _, value, _, _) =>
        ReadBack(rest, prefix, section, registry, lenient);
        DeliveredNext(Given(KeyIn(section, name), value), Settings(rest, section), registry, lenient);
      case Other(_, text, _, _) =>
        DeliveredNext(Wrong(text), Settings(rest, section), registry, lenient);
    }
  }

  lemma HeaderStands(section: string)
    ensures StandsFor(if section != "" && section[|section| - 1] == '.' then section else section + ".", Some(section))
  {
  }

  lemma NothingDelivered(registry: Registry, lenient: bool)
    ensures Delivered([], registry, lenient) == Success([])
  {
  }

  lemma DeliveredNext(first: Item, rest: seq<Item>, registry: Registry, lenient: bool)
    ensures Delivered([first] + rest, registry, lenient) ==
              match first
              case Wrong(text) => Failure(UnrecognizedLine(text))
              case Given(key, value) =>
                if !registry.Allows(key) && !lenient then Failure(UnknownOption(key))
                else Prepend([Entry(key, value, !registry.Allows(key))], Delivered(rest, registry, lenient))
  {
    CutAppend([first], rest);
  }
}
