/** The grammar of command lines in the default style: a command line is accepted exactly when it can
    be read as a list of items, and the options that come out are those of the items. The reading is
    stated over characters and lookups, without the parsers; module Readings has the proofs. */
module Grammar {
  import opened Seqs
  import opened Wrappers
  import opened Options
  import opened Positional
  import opened CommandLine
  import opened CommandLineLaws

  // ---- items

  /** `--name` or `--name=joined`; letters behind one dash, of which the last may have a value; and a
      token of its own. `values` are the tokens that an option must take, `more` those that it takes
      because it can. */
  datatype Item =
    | Long(name: string, joined: Option<string>, values: seq<string>, more: seq<string>)
    | Cluster(flags: string, last: char, adjacent: string, values: seq<string>, more: seq<string>)
    | Lone(token: string)
  {
    function Own(): string {
      match this
      case Long(name, joined, _, _) => "--" + name + if joined.Some? then "=" + joined.value else ""
      case Cluster(flags, last, adjacent, _, _) => "-" + flags + [last] + adjacent
      case Lone(token) => token
    }

    function Tokens(): seq<string> {
      if Lone? then [token] else [Own()] + values + more
    }

    /** The option that values go to: how it is written, and the value that it has with it. */
    function Word(): string
      requires !Lone?
    {
      if Long? then name else Letter(last)
    }

    function Given(): seq<string>
      requires !Lone?
    {
      if Long? then (if joined.Some? then [joined.value] else []) else if adjacent != "" then [adjacent] else []
    }
  }

  function Letter(c: char): string {
    ['-', c]
  }

  /** `-c…` or `--c…`. */
  predicate Shaped(token: string) {
    |token| >= 2 && token[0] == '-' && (token[1] != '-' || |token| >= 3)
  }

  /** `--=value`, which is read as the value alone. */
  predicate Nameless(token: string) {
    |token| > 3 && token[0] == token[1] == '-' && token[2] == '='
  }

  predicate StandsAlone(token: string) {
    Nameless(token) || (!Shaped(token) && token != "--")
  }

  function Bare(token: string): string {
    if Nameless(token) then token[3..] else token
  }

  // ---- what the options allow

  /** A lookup of the name as it is, and one that also takes an abbreviation or what goes on after a
      pattern; both with the case as written. */
  function ByName(name: string): Query {
    Query(name, false, false, false)
  }

  function ByGuess(name: string): Query {
    Query(name, true, false, false)
  }

  predicate Unvalued(d: Description) {
    d.semantic.zeroTokens && !(d.semantic.Typed? && d.semantic.multitoken)
  }

  predicate NeedsValue(d: Description) {
    !d.semantic.zeroTokens && !(d.semantic.Typed? && d.semantic.implicitValue.Some?)
  }

  ghost predicate IsFlag(options: seq<Description>, c: char) {
    var found := Find(options, ByName(Letter(c)));
    found.Success? && found.value.Some? && Unvalued(found.value.value)
  }

  /** Every letter before the last takes no value, and the last can take what stands behind it. */
  ghost predicate Spelled(options: seq<Description>, flags: string, last: char, adjacent: string) {
    && (forall i :: 0 <= i < |flags| ==> IsFlag(options, flags[i]))
    && Find(options, ByName(Letter(last))).Success? && (adjacent != "" ==> !IsFlag(options, last))
  }

  ghost predicate IsCluster(options: seq<Description>, token: string) {
    exists flags, last, adjacent ::
      token == Cluster(flags, last, adjacent, [], []).Own() && Spelled(options, flags, last, adjacent)
  }

  /** A parser can take the token apart. */
  ghost predicate Readable(options: seq<Description>, token: string)
    requires Shaped(token)
  {
    if token[1] == '-' then
      exists i :: 2 <= i <= |token| && '=' !in token[2..i] && (i == |token| || (token[i] == '=' && i + 1 < |token|))
    else IsCluster(options, token)
  }

  /** A token that an option may take as the value it needs: one that is not the name of an option. */
  ghost predicate IsValue(options: seq<Description>, token: string) {
    Shaped(token) ==> Readable(options, token) && Find(options, ByGuess(token)) == Success(None)
  }

  /** The word is the name of an option that has, with these values, all it needs, and nothing it
      cannot have; or it is unknown and let through. */
  ghost predicate Accepts(options: seq<Description>, allow: bool, word: string, given: seq<string>,
                          values: seq<string>) {
    var found := Find(options, ByGuess(word));
    && found.Success?
    && if found.value.None? then allow && values == []
       else
         && (given != [] ==> !Unvalued(found.value.value))
         && |values| == (if given == [] && NeedsValue(found.value.value) then 1 else 0)
         && forall v :: v in values ==> IsValue(options, v)
  }

  /** What the option is called. */
  function Called(options: seq<Description>, word: string): string {
    var found := Find(options, ByGuess(word));
    if found.Failure? || found.value.None? then word else CalledAs(found.value.value, word)
  }

  predicate Unknown(options: seq<Description>, word: string) {
    Find(options, ByGuess(word)) == Success(None)
  }

  /** How many tokens an option that is called so and has `count` values takes because it can. */
  function Room(options: seq<Description>, called: string, count: nat): nat {
    var found := Find(options, ByGuess(called));
    if found.Failure? || found.value.None? then 0
    else
      var s := found.value.value.semantic;
      if s.Typed? && s.multitoken then if count < 0xFFFF_FFFF then 0xFFFF_FFFF - count else 0
      else if s.Typed? && s.implicitValue.Some? && !s.zeroTokens && count == 0 then 1
      else 0
  }

  // ---- readings

  /** The item can be taken from the front of the arguments. */
  ghost predicate Fits(options: seq<Description>, allow: bool, item: Item) {
    match item
    case Long(name, joined, values, _) =>
      && name != "" && '=' !in name && joined != Some("")
      && Accepts(options, allow, name, item.Given(), values)
    case Cluster(flags, last, adjacent, values, _) =>
      && (flags + [last])[0] != '-' && Spelled(options, flags, last, adjacent)
      && (forall i :: 0 <= i < |flags| ==> Accepts(options, allow, Letter(flags[i]), [], []))
      && Accepts(options, allow, Letter(last), item.Given(), values)
    case Lone(token) => StandsAlone(token)
  }

  ghost predicate AllFit(options: seq<Description>, allow: bool, doc: seq<Item>) {
    forall i :: 0 <= i < |doc| ==> Fits(options, allow, doc[i])
  }

  /** The name still leads somewhere in the second pass. */
  ghost predicate Again(options: seq<Description>, word: string) {
    Find(options, ByGuess(Called(options, word))).Success?
  }

  ghost predicate AllAgain(options: seq<Description>, item: Item)
    requires !item.Lone?
  {
    && (item.Cluster? ==> forall i :: 0 <= i < |item.flags| ==> Again(options, Letter(item.flags[i])))
    && Again(options, item.Word())
  }

  function RoomOf(options: seq<Description>, item: Item): nat
    requires !item.Lone?
  {
    Room(options, Called(options, item.Word()), |item.Given() + item.values|)
  }

  /** The item has taken as many tokens as it can: it has no room left, or no lone token follows. */
  ghost predicate Gathers(options: seq<Description>, item: Item, rest: seq<Item>) {
    !item.Lone? ==>
      && AllAgain(options, item)
      && (forall t :: t in item.more ==> StandsAlone(t))
      && |item.more| <= RoomOf(options, item)
      && (|item.more| < RoomOf(options, item) && rest != [] ==> !rest[0].Lone?)
  }

  ghost predicate AllGather(options: seq<Description>, doc: seq<Item>) {
    doc == [] || (Gathers(options, doc[0], doc[1..]) && AllGather(options, doc[1..]))
  }

  function TokensOf(doc: seq<Item>): (args: seq<string>) {
    if doc == [] then [] else doc[0].Tokens() + TokensOf(doc[1..])
  }

  /** The arguments: the items, and the terminator with what is behind it. */
  function Arguments(doc: seq<Item>, behind: Option<seq<string>>): (args: seq<string>) {
    TokensOf(doc) + if behind.Some? then ["--"] + behind.value else []
  }

  // ---- the options of a reading

  function LoneOpt(token: string): Opt {
    Opt("", -1, [Bare(token)], [token], false)
  }

  function Bares(tokens: seq<string>): (values: seq<string>)
    ensures |values| == |tokens| && forall i :: 0 <= i < |tokens| ==> values[i] == Bare(tokens[i])
  {
    seq(|tokens|, i requires 0 <= i < |tokens| => Bare(tokens[i]))
  }

  function FlagOpts(options: seq<Description>, flags: string): (opts: seq<Opt>)
    ensures |opts| == |flags|
    ensures forall i :: 0 <= i < |flags| ==>
      opts[i] == Opt(Called(options, Letter(flags[i])), -1, [], [], Unknown(options, Letter(flags[i])))
  {
    seq(|flags|, i requires 0 <= i < |flags| =>
      Opt(Called(options, Letter(flags[i])), -1, [], [], Unknown(options, Letter(flags[i]))))
  }

  function OptsOf(options: seq<Description>, item: Item): (opts: seq<Opt>) {
    if item.Lone? then [LoneOpt(item.token)]
    else
      (if item.Cluster? then FlagOpts(options, item.flags) else [])
      + [Opt(Called(options, item.Word()), -1, item.Given() + item.values + Bares(item.more), item.Tokens(),
             Unknown(options, item.Word()))]
  }

  function AllOpts(options: seq<Description>, doc: seq<Item>): (opts: seq<Opt>) {
    if doc == [] then [] else OptsOf(options, doc[0]) + AllOpts(options, doc[1..])
  }

  /** What stands behind the terminator: one option each. */
  function Later(behind: Option<seq<string>>): (opts: seq<Opt>) {
    if behind.None? then []
    else
      var ts := behind.value;
      seq(|ts|, i requires 0 <= i < |ts| => Opt("", 0x7FFF_FFFF, [ts[i]], [ts[i]], false))
  }

  /** A reading of the arguments: its items fit, and every option has taken what it can. */
  ghost predicate Reading(options: seq<Description>, allow: bool, args: seq<string>, doc: seq<Item>,
                          behind: Option<seq<string>>) {
    AllFit(options, allow, doc) && AllGather(options, doc) && args == Arguments(doc, behind)
  }

  // ---- positions and names

  /** The name of position k over the calls that described the positional options; none without them. */
  ghost predicate NamedBy(entries: Option<seq<Entry>>, k: nat, name: string) {
    match entries
    case None => name == ""
    case Some(calls) =>
      if k < Total(calls) then exists j: nat :: Covered(calls, j, k) && name == calls[j].name
      else exists j: nat :: NamesTheRest(calls, j) && name == calls[j].name
  }

  /** There are names for n positions. */
  ghost predicate Enough(entries: Option<seq<Entry>>, n: nat) {
    entries.Some? ==>
      if exists j: nat :: NamesTheRest(entries.value, j) then n <= 0xFFFF_FFFF else n <= Total(entries.value)
  }

  /** The options that have no name are numbered in turn and get the name of their number. */
  ghost predicate Placed(entries: Option<seq<Entry>>, before: seq<Opt>, opts: seq<Opt>) {
    && |opts| == |before|
    && forall i :: 0 <= i < |opts| ==>
         if before[i].key != "" then opts[i] == before[i]
         else
           && opts[i] == before[i].(key := opts[i].key, position := Positionals(before[..i]))
           && NamedBy(entries, Positionals(before[..i]), opts[i].key)
  }

  ghost predicate Described(slots: Option<Slots>, entries: Option<seq<Entry>>) {
    if slots.None? then entries.None? else entries.Some? && Describes(slots.value, entries.value)
  }
}
