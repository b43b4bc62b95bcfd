/** Option descriptions: what they match, how one is looked up, and what values they take. */
module Options {
  import opened Seqs
  import opened Wrappers

  // ---- value semantics

  /** A stored value (`boost::any` holding a string or a vector of strings). */
  datatype Value = Text(text: string) | List(items: seq<string>)

  const UNSIGNED_MAX: nat := 0xFFFF_FFFF

  /** untyped_value, and typed_value over a string or a vector of strings. */
  datatype Semantic =
    | Untyped(zeroTokens: bool)
    | Typed(isVector: bool, multitoken: bool, zeroTokens: bool, composing: bool, required: bool,
            implicitValue: Option<Value>, defaultValue: Option<Value>)
  {
    function MinTokens(): nat {
      if zeroTokens || (Typed? && implicitValue.Some?) then 0 else 1
    }

    function MaxTokens(): nat {
      if Typed? && multitoken then UNSIGNED_MAX else if zeroTokens then 0 else 1
    }

    predicate IsComposing() {
      Typed? && composing
    }

    predicate IsRequired() {
      Typed? && required
    }

    function Default(): Option<Value> {
      if Typed? then defaultValue else None
    }
  }

  datatype Error =
    | UnknownOption
    | AmbiguousOption(alternatives: seq<string>)
    | EmptyAdjacentParameter
    | ExtraParameter
    | MissingParameter
    | TooManyPositionalOptions
    | MultipleOccurrences
    | MultipleValues
    | ValueRequired
    | WrongStoredType  // value_semantic.hpp asserts that the stored value has the type cast to

  // ---- one description

  datatype MatchResult = NoMatch | ApproximateMatch | FullMatch

  /** The prefix that a parser reads option names with. */
  datatype PrefixStyle = NoPrefix | AllowLong | AllowLongDisguise | AllowSlashForShort | AllowDashForShort

  /** What is asked of a lookup. */
  datatype Query = Query(name: string, approx: bool, longIgnoreCase: bool, shortIgnoreCase: bool)

  function LowerChar(c: char): char {
    if 'A' <= c <= 'Z' then c - 'A' + 'a' else c
  }

  function Lower(s: string): (r: string)
    ensures |r| == |s|
  {
    seq(|s|, i requires 0 <= i < |s| => LowerChar(s[i]))
  }

  function Folded(s: string, ignoreCase: bool): (r: string)
    ensures |r| == |s|
  {
    if ignoreCase then Lower(s) else s
  }

  datatype Description = Description(longName: string, shortName: string, semantic: Semantic) {

    method Match(q: Query) returns (result: MatchResult)
      ensures result == Matches(q)
    {
      result := NoMatch;
      var localLongName := Folded(longName, q.longIgnoreCase);
      if localLongName != "" {
        var localOption := Folded(q.name, q.longIgnoreCase);
        if localLongName[|localLongName| - 1] == '*' {
          if localLongName[..|localLongName| - 1] <= localOption {
            result := ApproximateMatch;
          }
        }
        if localLongName == localOption {
          result := FullMatch;
        } else if q.approx {
          if localOption <= localLongName {
            result := ApproximateMatch;
          }
        }
      }
      if result != FullMatch {
        if Folded(shortName, q.shortIgnoreCase) == Folded(q.name, q.shortIgnoreCase) {
          result := FullMatch;
        }
      }
    }

    /** The name is the long or the short one. An absent short name is the empty string, so the
        empty name is in full match with every description that has none. */
    predicate Names(q: Query) {
      || (longName != "" && Folded(longName, q.longIgnoreCase) == Folded(q.name, q.longIgnoreCase))
      || Folded(shortName, q.shortIgnoreCase) == Folded(q.name, q.shortIgnoreCase)
    }

    /** The long name is a pattern for the name, or guessing is on and the name abbreviates it. */
    predicate Suggests(q: Query) {
      var long, name := Folded(longName, q.longIgnoreCase), Folded(q.name, q.longIgnoreCase);
      longName != "" && ((long[|long| - 1] == '*' && long[..|long| - 1] <= name) || (q.approx && name <= long))
    }

    function Matches(q: Query): MatchResult {
      if Names(q) then FullMatch else if Suggests(q) then ApproximateMatch else NoMatch
    }

    function Key(option: string): string {
      if longName != "" then if '*' in longName then option else longName else shortName
    }

    function CanonicalDisplayName(style: PrefixStyle): string {
      if longName != "" && style == AllowLong then "--" + longName
      else if longName != "" && style == AllowLongDisguise then "-" + longName
      else if |shortName| == 2 && style == AllowSlashForShort then ['/', shortName[1]]
      else if |shortName| == 2 && style == AllowDashForShort then ['-', shortName[1]]
      else if longName != "" then longName
      else shortName
    }
  }

  // ---- the lookup

  /** The descriptions with a given match, in declaration order. */
  function Matching(options: seq<Description>, q: Query, r: MatchResult): seq<Description> {
    if options == [] then []
    else (if options[0].Matches(q) == r then [options[0]] else []) + Matching(options[1..], q, r)
  }

  function Keys(options: seq<Description>, name: string): (keys: seq<string>)
    ensures |keys| == |options|
  {
    if options == [] then [] else [options[0].Key(name)] + Keys(options[1..], name)
  }

  /** The only full match, else the only approximate one, else nothing; more than one is an error. */
  function Find(options: seq<Description>, q: Query): (r: Result<Option<Description>, Error>) {
    var full, approximate := Matching(options, q, FullMatch), Matching(options, q, ApproximateMatch);
    if |full| > 1 then Failure(AmbiguousOption(Keys(full, q.name)))
    else if |full| == 1 then Success(Some(full[0]))
    else if |approximate| > 1 then Failure(AmbiguousOption(Keys(approximate, q.name)))
    else if |approximate| == 1 then Success(Some(approximate[0]))
    else Success(None)
  }

  lemma {:induction false} MatchingConcat(a: seq<Description>, b: seq<Description>, q: Query, r: MatchResult)
    ensures Matching(a + b, q, r) == Matching(a, q, r) + Matching(b, q, r)
  {
    if a == [] {
      assert a + b == b;
    } else {
      TailOfAppend(a, b);
      MatchingConcat(a[1..], b, q, r);
    }
  }

  lemma {:induction false} KeysSnoc(options: seq<Description>, d: Description, name: string)
    ensures Keys(options + [d], name) == Keys(options, name) + [d.Key(name)]
  {
    if options == [] {
      assert options + [d] == [d];
    } else {
      TailOfAppend(options, [d]);
      KeysSnoc(options[1..], d, name);
    }
  }

  lemma MatchingNext(options: seq<Description>, i: nat, q: Query, r: MatchResult)
    requires i < |options|
    ensures Matching(options[..i + 1], q, r)
         == Matching(options[..i], q, r) + if options[i].Matches(q) == r then [options[i]] else []
  {
    TakeNext(options, i);
    MatchingConcat(options[..i], [options[i]], q, r);
    assert Matching([options[i]], q, r) == if options[i].Matches(q) == r then [options[i]] else [];
  }

  lemma NoneMatching(options: seq<Description>, q: Query)
    ensures forall r :: Matching(options[..0], q, r) == []
    ensures Keys([], q.name) == []
  {
  }

  /** The linear search of find_nothrow. */
  method FindNothrow(options: seq<Description>, q: Query) returns (r: Result<Option<Description>, Error>)
    ensures r == Find(options, q)
  {
    hide Matching, Keys, Description.Matches, Description.Key;
    var found: Option<Description> := None;
    var hadFullMatch := false;
    var approximateMatches, fullMatches := [], [];
    ghost var full, approximate: seq<Description> := [], [];
    NoneMatching(options, q);
    for i := 0 to |options|
      invariant full == Matching(options[..i], q, FullMatch)
      invariant approximate == Matching(options[..i], q, ApproximateMatch)
      invariant fullMatches == Keys(full, q.name) && approximateMatches == Keys(approximate, q.name)
      invariant hadFullMatch <==> full != []
      invariant full != [] ==> found == Some(full[|full| - 1])
      invariant full == [] && approximate != [] ==> found == Some(approximate[|approximate| - 1])
      invariant full == [] && approximate == [] ==> found == None
    {
      var d := options[i];
      MatchingNext(options, i, q, FullMatch);
      MatchingNext(options, i, q, ApproximateMatch);
      var m := d.Match(q);
      if m == FullMatch {
        KeysSnoc(full, d, q.name);
        full := full + [d];
        fullMatches := fullMatches + [d.Key(q.name)];
        found := Some(d);
        hadFullMatch := true;
      } else if m == ApproximateMatch {
        KeysSnoc(approximate, d, q.name);
        approximate := approximate + [d];
        approximateMatches := approximateMatches + [d.Key(q.name)];
        if !hadFullMatch {
          found := Some(d);
        }
      }
    }
    assert options[..|options|] == options;
    if |fullMatches| > 1 {
      return Failure(AmbiguousOption(fullMatches));
    }
    // a full match wins over any number of approximate ones
    if fullMatches == [] && |approximateMatches| > 1 {
      return Failure(AmbiguousOption(approximateMatches));
    }
    return Success(found);
  }

  // ---- laws of the lookup

  /** The outcome up to the order in which alternatives are listed. */
  ghost predicate SameOutcome(a: Result<Option<Description>, Error>, b: Result<Option<Description>, Error>) {
    match (a, b)
    case (Success(x), Success(y)) => x == y
    case (Failure(AmbiguousOption(x)), Failure(AmbiguousOption(y))) => multiset(x) == multiset(y)
    case _ => false
  }

  lemma {:induction false} MatchingCounts(options: seq<Description>, q: Query, r: MatchResult, d: Description)
    ensures multiset(Matching(options, q, r))[d] == if d.Matches(q) == r then multiset(options)[d] else 0
  {
    if options != [] {
      Cons(options);
      MatchingCounts(options[1..], q, r, d);
    }
  }

  lemma MatchingPermutes(a: seq<Description>, b: seq<Description>, q: Query, r: MatchResult)
    requires multiset(a) == multiset(b)
    ensures multiset(Matching(a, q, r)) == multiset(Matching(b, q, r))
    ensures |Matching(a, q, r)| == |Matching(b, q, r)|
  {
    forall d ensures multiset(Matching(a, q, r))[d] == multiset(Matching(b, q, r))[d] {
      MatchingCounts(a, q, r, d);
      MatchingCounts(b, q, r, d);
    }
    var x, y := Matching(a, q, r), Matching(b, q, r);
    assert multiset(x) == multiset(y);
    assert |multiset(x)| == |x| && |multiset(y)| == |y|;
  }

  lemma {:induction false} KeysPermute(a: seq<Description>, b: seq<Description>, name: string)
    requires multiset(a) == multiset(b)
    ensures multiset(Keys(a, name)) == multiset(Keys(b, name))
  {
    if a == [] {
      assert |multiset(b)| == 0;
    } else {
      var i := WithoutHead(a, b);
      var front, back := b[..i], b[i + 1..];
      Cons(a);
      KeysPermute(a[1..], front + back, name);
      KeysConcat([a[0]], a[1..], name);
      KeysConcat(front, [b[i]] + back, name);
      KeysConcat([b[i]], back, name);
      KeysConcat(front, back, name);
    }
  }

  lemma {:induction false} KeysConcat(a: seq<Description>, b: seq<Description>, name: string)
    ensures Keys(a + b, name) == Keys(a, name) + Keys(b, name)
  {
    if a == [] {
      assert a + b == b;
    } else {
      TailOfAppend(a, b);
      KeysConcat(a[1..], b, name);
    }
  }

  lemma SameOnly<T>(a: seq<T>, b: seq<T>)
    requires multiset(a) == multiset(b) && |a| == |b|
    ensures |a| == 1 ==> a[0] == b[0]
  {
    if |a| == 1 {
      assert a[0] in multiset(b);
    }
  }

  /** Declaring the same options in another order changes no lookup. */
  lemma FindIgnoresOrder(a: seq<Description>, b: seq<Description>, q: Query)
    requires multiset(a) == multiset(b)
    ensures SameOutcome(Find(a, q), Find(b, q))
  {
    hide Matching, Keys, Description.Matches;
    var fa, fb := Matching(a, q, FullMatch), Matching(b, q, FullMatch);
    var xa, xb := Matching(a, q, ApproximateMatch), Matching(b, q, ApproximateMatch);
    MatchingPermutes(a, b, q, FullMatch);
    MatchingPermutes(a, b, q, ApproximateMatch);
    KeysPermute(fa, fb, q.name);
    KeysPermute(xa, xb, q.name);
    SameOnly(fa, fb);
    SameOnly(xa, xb);
  }

  lemma {:induction false} MatchingMember(options: seq<Description>, q: Query, r: MatchResult, d: Description)
    ensures d in Matching(options, q, r) <==> d in options && d.Matches(q) == r
  {
    if options != [] {
      MatchingMember(options[1..], q, r, d);
    }
  }

  /** What a successful lookup says about the declared options. */
  lemma FoundMatches(options: seq<Description>, q: Query)
    requires Find(options, q).Success?
    ensures match Find(options, q).value
            case Some(d) => d in options && d.Matches(q) != NoMatch
                         && forall e :: e in options && e.Matches(q) == FullMatch ==> e == d
            case None => forall e :: e in options ==> e.Matches(q) == NoMatch
  {
    var full, approximate := Matching(options, q, FullMatch), Matching(options, q, ApproximateMatch);
    forall e | e in options
      ensures e.Matches(q) == FullMatch ==> e in full
      ensures e.Matches(q) == ApproximateMatch ==> e in approximate
    {
      MatchingMember(options, q, FullMatch, e);
      MatchingMember(options, q, ApproximateMatch, e);
    }
    match Find(options, q).value
    case Some(d) =>
      MatchingMember(options, q, FullMatch, d);
      MatchingMember(options, q, ApproximateMatch, d);
    case None =>
  }

  /** Looking up a found option again under its canonical name cannot find another one. */
  lemma CanonicalLookup(options: seq<Description>, q: Query, d: Description)
    requires q.name != "" && Find(options, q) == Success(Some(d))
    ensures d.Key(q.name) != ""
    ensures var again := Find(options, q.(name := d.Key(q.name)));
            again.Success? ==> again.value == Some(d)
  {
    FoundMatches(options, q);
    var q' := q.(name := d.Key(q.name));
    if d.Key(q.name) != q.name {
      assert d.Names(q');
      if Find(options, q').Success? {
        FoundMatches(options, q');
      }
    }
  }

  // ---- the lookup over characters

  ghost predicate AlikeChars(a: char, b: char, ignoreCase: bool) {
    || a == b
    || (ignoreCase && 'A' <= a <= 'Z' && b as int == a as int + 32)
    || (ignoreCase && 'A' <= b <= 'Z' && a as int == b as int + 32)
  }

  /** The same characters, up to the case of letters if that is ignored. */
  ghost predicate Alike(a: string, b: string, ignoreCase: bool) {
    |a| == |b| && forall i :: 0 <= i < |a| ==> AlikeChars(a[i], b[i], ignoreCase)
  }

  lemma FoldedAlike(a: string, b: string, ignoreCase: bool)
    ensures Folded(a, ignoreCase) == Folded(b, ignoreCase) <==> Alike(a, b, ignoreCase)
  {
    var x, y := Folded(a, ignoreCase), Folded(b, ignoreCase);
    if x == y {
      forall i | 0 <= i < |a| ensures AlikeChars(a[i], b[i], ignoreCase) {
        assert x[i] == y[i];
      }
    }
  }

  lemma FoldedPrefix(a: string, n: nat, ignoreCase: bool)
    requires n <= |a|
    ensures Folded(a, ignoreCase)[..n] == Folded(a[..n], ignoreCase)
  {
  }

  lemma FoldedStar(a: string, ignoreCase: bool)
    requires a != ""
    ensures Folded(a, ignoreCase)[|a| - 1] == '*' <==> a[|a| - 1] == '*'
  {
  }

  /** An option is in full match with its names, and in approximate match with what goes on after a
      pattern or, where guessing is on, abbreviates its long name. */
  lemma MatchMeaning(d: Description, q: Query)
    ensures d.Matches(q) == FullMatch <==>
              || (d.longName != "" && Alike(d.longName, q.name, q.longIgnoreCase))
              || Alike(d.shortName, q.name, q.shortIgnoreCase)
    ensures var n, k := |d.longName|, |q.name|;
            d.Matches(q) == ApproximateMatch <==>
              && d.Matches(q) != FullMatch && n > 0
              && (|| (d.longName[n - 1] == '*' && n - 1 <= k
                      && Alike(d.longName[..n - 1], q.name[..n - 1], q.longIgnoreCase))
                  || (q.approx && k <= n && Alike(q.name, d.longName[..k], q.longIgnoreCase)))
  {
    var ic := q.longIgnoreCase;
    var n, k := |d.longName|, |q.name|;
    var long, name := Folded(d.longName, ic), Folded(q.name, ic);
    FoldedAlike(d.longName, q.name, ic);
    FoldedAlike(d.shortName, q.name, q.shortIgnoreCase);
    if n > 0 {
      FoldedStar(d.longName, ic);
      if n - 1 <= k {
        FoldedPrefix(d.longName, n - 1, ic);
        FoldedPrefix(q.name, n - 1, ic);
        FoldedAlike(d.longName[..n - 1], q.name[..n - 1], ic);
        assert long[..n - 1] <= name <==> long[..n - 1] == name[..n - 1];
      }
      if k <= n {
        FoldedPrefix(d.longName, k, ic);
        FoldedAlike(q.name, d.longName[..k], ic);
        assert name <= long <==> name == long[..k];
      }
    }
  }

  /** A lookup fails exactly when it is ambiguous: two full matches, or two approximate ones and no
      full one. */
  lemma FindFailsIff(options: seq<Description>, q: Query)
    ensures Find(options, q).Failure? <==>
              || TwoMatch(options, q, FullMatch)
              || (TwoMatch(options, q, ApproximateMatch) && forall d :: d in options ==> d.Matches(q) != FullMatch)
    ensures Find(options, q).Failure? ==>
              && Find(options, q).error.AmbiguousOption? && |Find(options, q).error.alternatives| > 1
              && forall key :: key in Find(options, q).error.alternatives ==>
                   exists d :: d in options && d.Matches(q) != NoMatch && key == CalledAs(d, q.name)
  {
    AlternativesMatch(options, q, FullMatch);
    AlternativesMatch(options, q, ApproximateMatch);
    hide Description.Matches;
    CountMatching(options, q, FullMatch);
    CountMatching(options, q, ApproximateMatch);
    forall d | d in options
      ensures d.Matches(q) == FullMatch ==> d in Matching(options, q, FullMatch)
    {
      MatchingMember(options, q, FullMatch, d);
    }
    var full := Matching(options, q, FullMatch);
    if full != [] {
      MatchingMember(options, q, FullMatch, full[0]);
    }
  }

  /** What an option is called from then on: its long name, as written if that is a pattern, and its
      short name if it has no long one. */
  function CalledAs(d: Description, written: string): (key: string) {
    if d.longName == "" then d.shortName
    else if exists i :: 0 <= i < |d.longName| && d.longName[i] == '*' then written
    else d.longName
  }

  lemma KeyMeaning(d: Description, written: string)
    ensures d.Key(written) == CalledAs(d, written)
  {
  }

  lemma AlternativesMatch(options: seq<Description>, q: Query, r: MatchResult)
    ensures forall key :: key in Keys(Matching(options, q, r), q.name) ==>
              exists d :: d in options && d.Matches(q) == r && key == CalledAs(d, q.name)
  {
    hide Description.Matches, Description.Key, CalledAs;
    var found := Matching(options, q, r);
    forall key | key in Keys(found, q.name)
      ensures exists d :: d in options && d.Matches(q) == r && key == CalledAs(d, q.name)
    {
      var d := KeyMember(found, q.name, key);
      MatchingMember(options, q, r, d);
      KeyMeaning(d, q.name);
    }
  }

  lemma {:induction false} KeyMember(options: seq<Description>, name: string, key: string) returns (d: Description)
    requires key in Keys(options, name)
    ensures d in options && d.Key(name) == key
  {
    if options[0].Key(name) == key {
      d := options[0];
    } else {
      d := KeyMember(options[1..], name, key);
    }
  }

  ghost predicate TwoMatch(options: seq<Description>, q: Query, r: MatchResult) {
    exists i, j :: 0 <= i < j < |options| && options[i].Matches(q) == options[j].Matches(q) == r
  }

  lemma {:induction false} CountMatching(options: seq<Description>, q: Query, r: MatchResult)
    ensures Matching(options, q, r) != [] <==> exists i :: 0 <= i < |options| && options[i].Matches(q) == r
    ensures |Matching(options, q, r)| > 1 <==> TwoMatch(options, q, r)
  {
    hide Description.Matches;
    if options != [] {
      var rest := options[1..];
      CountMatching(rest, q, r);
      assert forall i :: 0 <= i < |rest| ==> rest[i] == options[i + 1];
      if i :| 0 <= i < |options| && options[i].Matches(q) == r {
        if i > 0 {
          assert rest[i - 1].Matches(q) == r;
        }
      }
      if TwoMatch(rest, q, r) {
        var i, j :| 0 <= i < j < |rest| && rest[i].Matches(q) == rest[j].Matches(q) == r;
        assert options[i + 1].Matches(q) == options[j + 1].Matches(q) == r;
      }
      if TwoMatch(options, q, r) {
        var i, j :| 0 <= i < j < |options| && options[i].Matches(q) == options[j].Matches(q) == r;
        assert rest[j - 1].Matches(q) == r;
        if i > 0 {
          assert rest[i - 1].Matches(q) == r;
        }
      }
      if options[0].Matches(q) == r {
        if i :| 0 <= i < |rest| && rest[i].Matches(q) == r {
          assert options[0].Matches(q) == options[i + 1].Matches(q) == r;
        }
      }
    }
  }
}
