/** Storing parsed options in a variables map: conversion of the values, finality across several
    calls, default values and required options. */
module Store {
  import opened Seqs
  import opened Wrappers
  import opened Options
  import opened CommandLine
  import opened StringOrder

  // ---- values

  /** What an option's semantic makes of the value stored so far and one more list of tokens. */
  function Parse(semantic: Semantic, store: Option<Value>, tokens: seq<string>): Result<Value, Error> {
    match semantic
    case Untyped(_) =>
      if store.Some? then Failure(MultipleOccurrences)
      else if |tokens| > 1 then Failure(MultipleValues)
      else Success(Text(if tokens == [] then "" else tokens[0]))
    case Typed(isVector, _, _, _, _, implicitValue, _) =>
      if tokens == [] && implicitValue.Some? then Success(implicitValue.value)
      else if isVector then
        match store
        case None => Success(List(tokens))
        case Some(List(items)) => Success(List(items + tokens))
        case Some(Text(_)) => Failure(WrongStoredType)
      else if store.Some? then Failure(MultipleOccurrences)
      else if |tokens| > 1 then Failure(MultipleValues)
      else if tokens == [] then Failure(ValueRequired)
      else Success(Text(tokens[0]))
  }

  /** xparse with the validators of strings and vectors of strings. */
  method XParse(semantic: Semantic, store: Option<Value>, tokens: seq<string>) returns (r: Result<Value, Error>)
    ensures r == Parse(semantic, store, tokens)
  {
    if semantic.Untyped? {
      if store.Some? {
        return Failure(MultipleOccurrences);
      }
      if |tokens| > 1 {
        return Failure(MultipleValues);
      }
      return Success(Text(if tokens == [] then "" else tokens[0]));
    }
    if tokens == [] && semantic.implicitValue.Some? {
      return Success(semantic.implicitValue.value);
    }
    if semantic.isVector {
      var v := if store.None? then List([]) else store.value;
      if v.Text? {
        return Failure(WrongStoredType);
      }
      var items := v.items;
      for i := 0 to |tokens|
        invariant items == v.items + tokens[..i]
      {
        TakeNext(tokens, i);
        items := items + [tokens[i]];
      }
      assert tokens[..|tokens|] == tokens && [] + tokens == tokens;
      return Success(List(items));
    }
    if store.Some? {
      return Failure(MultipleOccurrences);
    }
    if |tokens| > 1 {
      return Failure(MultipleValues);
    }
    if tokens == [] {
      return Failure(ValueRequired);
    }
    return Success(Text(tokens[0]));
  }

  // ---- the map

  datatype VariableValue = VariableValue(value: Option<Value>, defaulted: bool, semantic: Option<Semantic>)

  type Values = map<string, VariableValue>

  const EMPTY_VALUE := VariableValue(None, false, None)

  /** The entry that an explicit value goes to: a default is erased first. */
  function Slot(m: Values, name: string): VariableValue {
    if name in m && !m[name].defaulted then m[name] else EMPTY_VALUE
  }

  predicate Skipped(final: set<string>, opt: Opt) {
    opt.key == "" || opt.unregistered || opt.key in final
  }

  /** The first loop's body: the new map, which keeps an empty entry when the value is refused. */
  function StoreOne(options: seq<Description>, final: set<string>, m: Values, opt: Opt): (Values, Option<Error>) {
    if Skipped(final, opt) then (m, None)
    else match Find(options, Exact(opt.key))
      case Failure(e) => (m, Some(e))
      case Success(None) => (m, Some(UnknownOption))
      case Success(Some(d)) =>
        var slot := Slot(m, opt.key);
        match Parse(d.semantic, slot.value, opt.value)
        case Failure(e) => (m[opt.key := slot], Some(e))
        case Success(v) => (m[opt.key := VariableValue(Some(v), false, Some(d.semantic))], None)
  }

  function StoreItems(options: seq<Description>, final: set<string>, m: Values, opts: seq<Opt>): (Values, Option<Error>)
    decreases |opts|
  {
    if opts == [] then (m, None)
    else
      var (next, failure) := StoreOne(options, final, m, opts[0]);
      if failure.Some? then (next, failure) else StoreItems(options, final, next, opts[1..])
  }

  predicate Composing(options: seq<Description>, name: string) {
    var found := Find(options, Exact(name));
    found.Success? && found.value.Some? && found.value.value.semantic.IsComposing()
  }

  /** The names that one call makes final. */
  function NewFinal(options: seq<Description>, final: set<string>, opts: seq<Opt>): (names: set<string>) {
    if opts == [] then {}
    else
      NewFinal(options, final, opts[1..])
      + if Skipped(final, opts[0]) || Composing(options, opts[0].key) then {} else {opts[0].key}
  }

  /** The second loop's body, for the values. */
  function WithDefault(m: Values, d: Description): Values {
    var key := d.Key("");
    if key == "" || key in m || d.semantic.Default().None? then m
    else m[key := VariableValue(d.semantic.Default(), true, Some(d.semantic))]
  }

  function WithDefaults(m: Values, all: seq<Description>): Values
    decreases |all|
  {
    if all == [] then m else WithDefaults(WithDefault(m, all[0]), all[1..])
  }

  /** The second loop's body, for the required names. */
  function WithRequired(required: map<string, string>, d: Description, style: PrefixStyle): map<string, string> {
    var key := d.Key("");
    if key == "" || !d.semantic.IsRequired() then required
    else
      var known := if key in required then required[key] else "";
      var name := d.CanonicalDisplayName(style);
      required[key := if |name| > |known| then name else known]
  }

  function WithAllRequired(required: map<string, string>, all: seq<Description>,
                           style: PrefixStyle): map<string, string>
    decreases |all|
  {
    if all == [] then required else WithAllRequired(WithRequired(required, all[0], style), all[1..], style)
  }

  datatype State = State(values: Values, final: set<string>, required: map<string, string>)

  const START := State(map[], {}, map[])

  /** One call of store. */
  function Stored(options: seq<Description>, style: PrefixStyle, st: State, opts: seq<Opt>): (State, Option<Error>) {
    var (m, failure) := StoreItems(options, st.final, st.values, opts);
    if failure.Some? then (st.(values := m), failure)
    else (State(WithDefaults(m, options), st.final + NewFinal(options, st.final, opts),
                WithAllRequired(st.required, options, style)), None)
  }

  predicate HasValue(m: Values, name: string) {
    name in m && m[name].value.Some?
  }

  ghost predicate IsFirstMissing(st: State, name: string) {
    && name in st.required && (name in st.values ==> st.values[name].value.None?)
    && forall k :: k in st.required && Less(k, name) ==> k in st.values && st.values[k].value.Some?
  }

  class VariablesMap {
    var values: Values
    var final: set<string>              // m_final
    var required: map<string, string>   // m_required

    function Contents(): State
      reads this
    {
      State(values, final, required)
    }

    constructor ()
      ensures Contents() == START
    {
      values, final, required := map[], {}, map[];
    }

    method Store(options: seq<Description>, style: PrefixStyle, opts: seq<Opt>) returns (failure: Option<Error>)
      modifies this
      ensures (Contents(), failure) == Stored(options, style, old(Contents()), opts)
    {
      hide Find, Parse, Composing, WithDefault, WithRequired;
      ghost var items := StoreItems(options, final, values, opts);
      ghost var finals := NewFinal(options, final, opts);
      var newFinal := {};
      assert opts[0..] == opts;
      for i := 0 to |opts|
        invariant final == old(final) && required == old(required)
        invariant StoreItems(options, final, values, opts[i..]) == items
        invariant newFinal + NewFinal(options, final, opts[i..]) == finals
      {
        var opt := opts[i];
        StoreNext(options, final, values, opts, i);
        if opt.key != "" && !opt.unregistered && opt.key !in final {
          var found := FindNothrow(options, Exact(opt.key));
          if found.Failure? {
            return Some(found.error);
          }
          if found.value.None? {
            return Some(UnknownOption);
          }
          var d := found.value.value;
          ghost var before := values;
          values := values[opt.key := Slot(values, opt.key)];
          var v := XParse(d.semantic, values[opt.key].value, opt.value);
          if v.Failure? {
            return Some(v.error);
          }
          values := values[opt.key := VariableValue(Some(v.value), false, Some(d.semantic))];
          assert values == before[opt.key := VariableValue(Some(v.value), false, Some(d.semantic))];
          ComposingIs(options, opt.key, d);
          if !d.semantic.IsComposing() {
            newFinal := newFinal + {opt.key};
          }
        }
      }
      final := final + newFinal;
      ApplyDefaults(options, style);
      return None;
    }

    /** The check of required options in notify: the display name of the first that has no value. */
    method FirstMissing() returns (missing: Option<string>)
      ensures missing.None? <==> forall name :: name in required ==> name in values && values[name].value.Some?
      ensures missing.Some? ==> exists name :: IsFirstMissing(Contents(), name) && missing.value == required[name]
    {
      var order := InOrder(required.Keys);
      for i := 0 to |order|
        invariant forall k :: 0 <= k < i ==> HasValue(values, order[k])
      {
        if order[i] !in values || values[order[i]].value.None? {
          assert order[i] in required;
          forall k | k in required && Less(k, order[i]) ensures HasValue(values, k) {
            var j :| 0 <= j < |order| && order[j] == k;
            if j > i {
              Asymmetric(order[i], order[j]);
            } else if j == i {
              Irreflexive(k);
            }
          }
          assert IsFirstMissing(Contents(), order[i]);
          return Some(required[order[i]]);
        }
      }
      forall name | name in required ensures HasValue(values, name) {
        assert name in order;
      }
      return None;
    }

    /** The second loop. */
    method ApplyDefaults(options: seq<Description>, style: PrefixStyle)
      modifies this`values, this`required
      ensures values == WithDefaults(old(values), options)
      ensures required == WithAllRequired(old(required), options, style)
    {
      hide Description.CanonicalDisplayName, Description.Key, WithDefaults, WithAllRequired;
      NoDefault(style);
      assert options[0..] == options;
      for i := 0 to |options|
        invariant WithDefaults(values, options[i..]) == WithDefaults(old(values), options)
        invariant WithAllRequired(required, options[i..], style) == WithAllRequired(old(required), options, style)
      {
        var d := options[i];
        ghost var before := required;
        NextDefault(values, required, options, i, style);
        var key := d.Key("");
        if key != "" {
          if key !in values {
            var def := d.semantic.Default();
            if def.Some? {
              values := values[key := VariableValue(def, true, Some(d.semantic))];
            }
          }
          if d.semantic.IsRequired() {
            if key !in required {
              required := required[key := ""];
            }
            var canonicalName := d.CanonicalDisplayName(style);
            if |canonicalName| > |required[key]| {
              required := required[key := canonicalName];
            }
            assert required == WithRequired(before, d, style);
          }
        }
      }
      assert options[|options|..] == [];
    }
  }

  lemma NoDefault(style: PrefixStyle)
    ensures forall m :: WithDefaults(m, []) == m
    ensures forall required :: WithAllRequired(required, [], style) == required
  {
  }

  lemma NextDefault(m: Values, required: map<string, string>, all: seq<Description>, i: nat, style: PrefixStyle)
    requires i < |all|
    ensures WithDefaults(m, all[i..]) == WithDefaults(WithDefault(m, all[i]), all[i + 1..])
    ensures WithAllRequired(required, all[i..], style)
         == WithAllRequired(WithRequired(required, all[i], style), all[i + 1..], style)
  {
    hide WithDefault, WithRequired;
    assert all[i..][1..] == all[i + 1..];
  }

  lemma StoreNext(options: seq<Description>, final: set<string>, m: Values, opts: seq<Opt>, i: nat)
    requires i < |opts|
    ensures StoreItems(options, final, m, opts[i..])
         == var (next, failure) := StoreOne(options, final, m, opts[i]);
            if failure.Some? then (next, failure) else StoreItems(options, final, next, opts[i + 1..])
    ensures NewFinal(options, final, opts[i..])
         == NewFinal(options, final, opts[i + 1..])
            + if Skipped(final, opts[i]) || Composing(options, opts[i].key) then {} else {opts[i].key}
  {
    hide StoreOne, Skipped, Composing;
    assert opts[i..][1..] == opts[i + 1..];
  }

  lemma ComposingIs(options: seq<Description>, name: string, d: Description)
    requires Find(options, Named(name)) == Success(Some(d))
    ensures Composing(options, name) == d.semantic.IsComposing()
  {
  }

  // ---- several calls

  /** A lookup of the name as it is. */
  function Named(name: string): Query {
    Query(name, false, false, false)
  }

  predicate Composes(options: seq<Description>, name: string) {
    var found := Find(options, Named(name));
    found.Success? && found.value.Some? && var s := found.value.value.semantic; s.Typed? && s.composing
  }

  lemma ComposesIs(options: seq<Description>, name: string)
    ensures Composes(options, name) == Composing(options, name)
  {
  }

  /** The values that some options give to a name, each with its list of tokens. */
  function Given(opts: seq<Opt>, name: string): (lists: seq<seq<string>>) {
    if opts == [] then []
    else if opts[0].key == name && !opts[0].unregistered then [opts[0].value] + Given(opts[1..], name)
    else Given(opts[1..], name)
  }

  /** What one call of store is given. */
  datatype Call = Call(style: PrefixStyle, opts: seq<Opt>)

  /** Calls of store in order over one options description, up to the first that throws. */
  function StoreAll(options: seq<Description>, calls: seq<Call>): (State, Option<Error>)
    decreases |calls|
  {
    if calls == [] then (START, None)
    else
      var last := calls[|calls| - 1];
      var (st, failure) := StoreAll(options, calls[..|calls| - 1]);
      if failure.Some? then (st, failure) else Stored(options, last.style, st, last.opts)
  }

  /** The lists that count over several calls: all of them for a composing option, else those of the
      first call that gives any. */
  function Counting(calls: seq<Call>, name: string, composing: bool): (lists: seq<seq<string>>) {
    if calls == [] then []
    else
      var now, later := Given(calls[0].opts, name), Counting(calls[1..], name, composing);
      if composing then now + later else if now != [] then now else later
  }

  function ParseAll(semantic: Semantic, store: Option<Value>, lists: seq<seq<string>>): Result<Option<Value>, Error>
    decreases |lists|
  {
    if lists == [] then Success(store)
    else
      var v :- Parse(semantic, store, lists[0]);
      ParseAll(semantic, Some(v), lists[1..])
  }

  /** The first declared default for a name. */
  function DefaultFor(all: seq<Description>, name: string): Option<VariableValue> {
    if all == [] then None
    else if CalledAs(all[0], "") == name && all[0].semantic.Typed? && all[0].semantic.defaultValue.Some? then
      Some(VariableValue(all[0].semantic.defaultValue, true, Some(all[0].semantic)))
    else DefaultFor(all[1..], name)
  }

  function At(m: Values, name: string): Option<VariableValue> {
    if name in m then Some(m[name]) else None
  }

  /** What the first loop does to one name. */
  lemma {:induction false} ItemsAt(options: seq<Description>, final: set<string>, m: Values, opts: seq<Opt>,
                                   name: string)
    requires StoreItems(options, final, m, opts).1.None? && name != ""
    ensures var next := StoreItems(options, final, m, opts).0;
            if name in final || Given(opts, name) == [] then At(next, name) == At(m, name)
            else
              && Find(options, Named(name)).Success? && Find(options, Named(name)).value.Some?
              && var semantic := Find(options, Named(name)).value.value.semantic;
                 var parsed := ParseAll(semantic, Slot(m, name).value, Given(opts, name));
                 parsed.Success? && At(next, name) == Some(VariableValue(parsed.value, false, Some(semantic)))
    decreases |opts|
  {
    hide Find, Parse;
    if opts != [] {
      var (next, _) := StoreOne(options, final, m, opts[0]);
      ItemsAt(options, final, next, opts[1..], name);
      if opts[0].key == name && !opts[0].unregistered && name !in final {
        var semantic := Find(options, Named(name)).value.value.semantic;
        ParseAllNext(semantic, Slot(m, name).value, opts[0].value, Given(opts[1..], name));
      }
    }
  }

  lemma ParseAllNext(semantic: Semantic, store: Option<Value>, tokens: seq<string>, lists: seq<seq<string>>)
    ensures Parse(semantic, store, tokens).Success? ==>
              ParseAll(semantic, store, [tokens] + lists)
              == ParseAll(semantic, Some(Parse(semantic, store, tokens).value), lists)
  {
    hide Parse;
    CutAppend([tokens], lists);
  }

  lemma {:induction false} FinalAt(options: seq<Description>, final: set<string>, opts: seq<Opt>, name: string)
    requires name != "" && name !in final
    ensures name in NewFinal(options, final, opts) <==> Given(opts, name) != [] && !Composing(options, name)
  {
    hide Composing;
    if opts != [] {
      FinalAt(options, final, opts[1..], name);
    }
  }

  lemma {:induction false} DefaultsAt(m: Values, all: seq<Description>, name: string)
    requires name != ""
    ensures At(WithDefaults(m, all), name) == if name in m then At(m, name) else DefaultFor(all, name)
    decreases |all|
  {
    if all != [] {
      KeyMeaning(all[0], "");
      DefaultsAt(WithDefault(m, all[0]), all[1..], name);
    }
  }

  lemma {:induction false} CountingNext(calls: seq<Call>, last: Call, name: string, composing: bool)
    ensures var before, now := Counting(calls, name, composing), Given(last.opts, name);
            Counting(calls + [last], name, composing) ==
              if composing then before + now else if before != [] then before else now
  {
    if calls == [] {
      assert (calls + [last])[1..] == [];
      WithEmpty(Given(last.opts, name));
    } else {
      TailOfAppend(calls, [last]);
      CountingNext(calls[1..], last, name, composing);
      Assoc(Given(calls[0].opts, name), Counting(calls[1..], name, composing), Given(last.opts, name));
    }
  }

  /** For an option that does not compose, the first call that gives it is the one that counts. */
  lemma {:induction false} FirstCounts(calls: seq<Call>, name: string, i: nat)
    requires i < |calls| && Given(calls[i].opts, name) != []
    requires forall j :: 0 <= j < i ==> Given(calls[j].opts, name) == []
    ensures Counting(calls, name, false) == Given(calls[i].opts, name)
  {
    if i > 0 {
      assert calls[1..][i - 1] == calls[i];
      assert forall j :: 0 <= j < i - 1 ==> calls[1..][j] == calls[j + 1];
      FirstCounts(calls[1..], name, i - 1);
    }
  }

  lemma {:induction false} ParseAllConcat(semantic: Semantic, store: Option<Value>, a: seq<seq<string>>,
                                          b: seq<seq<string>>)
    requires ParseAll(semantic, store, a).Success?
    ensures ParseAll(semantic, store, a + b) == ParseAll(semantic, ParseAll(semantic, store, a).value, b)
    decreases |a|
  {
    hide Parse;
    if a == [] {
      WithEmpty(b);
    } else {
      TailOfAppend(a, b);
      ParseAllConcat(semantic, Some(Parse(semantic, store, a[0]).value), a[1..], b);
    }
  }

  /** The entry of a name: its default while no call counts, else the value that the counting lists
      add up to. */
  ghost predicate Entry(options: seq<Description>, st: State, name: string, lists: seq<seq<string>>, started: bool) {
    if lists == [] then At(st.values, name) == (if started then DefaultFor(options, name) else None)
    else
      && Find(options, Named(name)).Success? && Find(options, Named(name)).value.Some?
      && var semantic := Find(options, Named(name)).value.value.semantic;
         var parsed := ParseAll(semantic, None, lists);
         && parsed.Success? && parsed.value.Some?
         && At(st.values, name) == Some(VariableValue(parsed.value, false, Some(semantic)))
  }

  lemma {:induction false} DefaultForIsDefault(all: seq<Description>, name: string)
    ensures DefaultFor(all, name).Some? ==>
              DefaultFor(all, name).value.defaulted && DefaultFor(all, name).value.value.Some?
  {
    if all != [] {
      DefaultForIsDefault(all[1..], name);
    }
  }

  lemma {:induction false} ParseAllSome(semantic: Semantic, store: Option<Value>, lists: seq<seq<string>>)
    requires lists != [] && ParseAll(semantic, store, lists).Success?
    ensures ParseAll(semantic, store, lists).value.Some?
    decreases |lists|
  {
    hide Parse;
    if |lists| > 1 {
      ParseAllSome(semantic, Some(Parse(semantic, store, lists[0]).value), lists[1..]);
    }
  }

  /** One more call keeps the entry what it should be. */
  lemma StoredEntry(options: seq<Description>, style: PrefixStyle, st: State, opts: seq<Opt>, name: string,
                    lists: seq<seq<string>>, started: bool)
    requires name != "" && Stored(options, style, st, opts).1.None?
    requires Entry(options, st, name, lists, started)
    requires name in st.final <==> lists != [] && !Composing(options, name)
    ensures var now := Given(opts, name);
            var lists' := if Composing(options, name) then lists + now else if lists != [] then lists else now;
            var next := Stored(options, style, st, opts).0;
            && Entry(options, next, name, lists', true)
            && (name in next.final <==> lists' != [] && !Composing(options, name))
  {
    hide Find, Parse, StoreItems, NewFinal, WithDefaults, WithAllRequired, DefaultFor, Composing, Given, ParseAll;
    var items := StoreItems(options, st.final, st.values, opts).0;
    var now := Given(opts, name);
    ItemsAt(options, st.final, st.values, opts, name);
    DefaultsAt(items, options, name);
    DefaultForIsDefault(options, name);
    if name !in st.final {
      FinalAt(options, st.final, opts, name);
      WithEmpty(lists);
      WithEmpty(now);
      if now != [] {
        var semantic := Find(options, Named(name)).value.value.semantic;
        if lists != [] {
          ParseAllConcat(semantic, None, lists, now);
        }
        ParseAllSome(semantic, Slot(st.values, name).value, now);
      }
    }
  }

  /** Over any number of calls that do not throw: an option that does not compose keeps the value of
      the first call that gave it, a composing one collects the values of all calls, and a default
      stands exactly while no call has given the option. */
  lemma {:induction false} StoreAllEntry(options: seq<Description>, calls: seq<Call>, name: string)
    requires name != "" && StoreAll(options, calls).1.None?
    ensures var st := StoreAll(options, calls).0;
            var lists := Counting(calls, name, Composes(options, name));
            && Entry(options, st, name, lists, calls != [])
            && (name in st.final <==> lists != [] && !Composes(options, name))
    decreases |calls|
  {
    hide Stored, Composing, Composes, Find, Given;
    ComposesIs(options, name);
    if calls != [] {
      var init, last := calls[..|calls| - 1], calls[|calls| - 1];
      StoreAllEntry(options, init, name);
      Snoc(calls);
      CountingNext(init, last, name, Composes(options, name));
      StoredEntry(options, last.style, StoreAll(options, init).0, last.opts, name,
                  Counting(init, name, Composes(options, name)), init != []);
    }
  }

  // ---- what the lists of an option add up to

  function Tokens(lists: seq<seq<string>>): (tokens: seq<string>) {
    if lists == [] then [] else lists[0] + Tokens(lists[1..])
  }

  predicate IsVector(semantic: Semantic) {
    semantic.Typed? && semantic.isVector
  }

  /** Whether a list of tokens stands for the implicit value. */
  predicate Implies(semantic: Semantic, tokens: seq<string>) {
    semantic.Typed? && semantic.implicitValue.Some? && tokens == []
  }

  /** The items that an implicit value starts a vector with. */
  predicate StartsWith(semantic: Semantic, items: seq<string>) {
    semantic.Typed? && semantic.implicitValue == Some(List(items))
  }

  lemma {:induction false} VectorAppends(semantic: Semantic, store: Option<Value>, lists: seq<seq<string>>)
    requires IsVector(semantic) && lists != [] && (store.Some? ==> store.value.List?)
    requires forall tokens :: tokens in lists ==> !Implies(semantic, tokens)
    ensures ParseAll(semantic, store, lists)
         == Success(Some(List((if store.None? then [] else store.value.items) + Tokens(lists))))
    decreases |lists|
  {
    var items := if store.None? then [] else store.value.items;
    WithEmpty(lists[0]);
    Assoc(items, lists[0], Tokens(lists[1..]));
    assert lists[0] in lists && !Implies(semantic, lists[0]);
    assert Parse(semantic, store, lists[0]) == Success(List(items + lists[0]));
    if |lists| == 1 {
      WithEmpty(items + lists[0]);
    } else {
      VectorAppends(semantic, Some(List(items + lists[0])), lists[1..]);
    }
  }

  lemma {:induction false} VectorAccepts(semantic: Semantic, store: Option<Value>, lists: seq<seq<string>>,
                                         items: seq<string>)
    requires IsVector(semantic) && StartsWith(semantic, items) && (store.Some? ==> store.value.List?)
    ensures ParseAll(semantic, store, lists).Success?
    ensures var end := ParseAll(semantic, store, lists).value; end.Some? ==> end.value.List?
    decreases |lists|
  {
    if lists != [] {
      VectorAccepts(semantic, Some(Parse(semantic, store, lists[0]).value), lists[1..], items);
    }
  }

  /** A vector without implicit value collects the tokens of all lists in order. */
  lemma VectorCollects(semantic: Semantic, lists: seq<seq<string>>)
    requires IsVector(semantic) && lists != []
    requires forall tokens :: tokens in lists ==> !Implies(semantic, tokens)
    ensures ParseAll(semantic, None, lists) == Success(Some(List(Tokens(lists))))
  {
    VectorAppends(semantic, None, lists);
    WithEmpty(Tokens(lists));
  }

  /** An empty list puts the implicit value in the place of all that was collected before; the
      tokens behind the last empty list are added to it. */
  lemma VectorStartsOver(semantic: Semantic, lists: seq<seq<string>>, last: nat, items: seq<string>)
    requires IsVector(semantic) && StartsWith(semantic, items) && last < |lists| && lists[last] == []
    requires forall i :: last < i < |lists| ==> lists[i] != []
    ensures ParseAll(semantic, None, lists) == Success(Some(List(items + Tokens(lists[last + 1..]))))
  {
    hide Tokens;
    var before, after := lists[..last], lists[last + 1..];
    SplitAt(lists, last);
    TakeNext(lists, last);
    VectorAccepts(semantic, None, before, items);
    ParseAllConcat(semantic, None, before, [[]] + after);
    ParseAllNext(semantic, ParseAll(semantic, None, before).value, [], after);
    if after == [] {
      WithEmpty(items);
      NoTokens();
    } else {
      VectorAppends(semantic, Some(List(items)), after);
    }
  }

  lemma NoTokens()
    ensures Tokens([]) == []
  {
  }

  /** Any other option takes one list, of one token if it is typed and of at most one if not; only
      an implicit value can come again, and then stands for what came before. */
  lemma {:induction false} ScalarTakesOne(semantic: Semantic, lists: seq<seq<string>>)
    requires !IsVector(semantic) && lists != []
    ensures ParseAll(semantic, None, lists).Success? <==>
              && (|lists[0]| == 1 || (lists[0] == [] && (semantic.Untyped? || semantic.implicitValue.Some?)))
              && forall i :: 1 <= i < |lists| ==> Implies(semantic, lists[i])
    ensures |lists[0]| > 1 ==> ParseAll(semantic, None, lists) == Failure(MultipleValues)
    ensures lists[0] == [] && semantic.Typed? && semantic.implicitValue.None? ==>
              ParseAll(semantic, None, lists) == Failure(ValueRequired)
    ensures |lists[0]| == 1 && |lists| > 1 && !Implies(semantic, lists[1]) ==>
              ParseAll(semantic, None, lists) == Failure(MultipleOccurrences)
    ensures ParseAll(semantic, None, lists).Success? ==>
              ParseAll(semantic, None, lists).value
              == Some(if Implies(semantic, lists[|lists| - 1]) then semantic.implicitValue.value
                      else Text(if lists[0] == [] then "" else lists[0][0]))
  {
    var first := Parse(semantic, None, lists[0]);
    if first.Success? {
      Repeats(semantic, first.value, lists[1..]);
    }
  }

  lemma {:induction false} Repeats(semantic: Semantic, v: Value, lists: seq<seq<string>>)
    requires !IsVector(semantic)
    ensures ParseAll(semantic, Some(v), lists).Success?
       <==> forall tokens :: tokens in lists ==> Implies(semantic, tokens)
    ensures ParseAll(semantic, Some(v), lists).Success? ==>
              ParseAll(semantic, Some(v), lists).value
              == Some(if lists == [] then v else semantic.implicitValue.value)
    decreases |lists|
  {
    if lists != [] {
      Cons(lists);
      if Implies(semantic, lists[0]) {
        Repeats(semantic, semantic.implicitValue.value, lists[1..]);
      }
    }
  }

  /** The two together over any number of calls: a vector holds every token of the lists that count,
      and what is no vector was given once, up to repetitions without value. */
  lemma StoreAllCollects(options: seq<Description>, calls: seq<Call>, name: string, d: Description)
    requires name != "" && StoreAll(options, calls).1.None?
    requires Find(options, Named(name)) == Success(Some(d))
    requires Counting(calls, name, Composes(options, name)) != []
    ensures var lists := Counting(calls, name, Composes(options, name));
            var m := StoreAll(options, calls).0.values;
            && name in m && !m[name].defaulted
            && (IsVector(d.semantic) && (forall tokens :: tokens in lists ==> !Implies(d.semantic, tokens)) ==>
                  m[name].value == Some(List(Tokens(lists))))
            && (!IsVector(d.semantic) ==> forall i :: 1 <= i < |lists| ==> Implies(d.semantic, lists[i]))
  {
    hide StoreAll, Find, Counting, Composing, ParseAll, Parse, Tokens;
    var lists := Counting(calls, name, Composes(options, name));
    StoreAllEntry(options, calls, name);
    if IsVector(d.semantic) {
      if forall tokens :: tokens in lists ==> !Implies(d.semantic, tokens) {
        VectorCollects(d.semantic, lists);
      }
    } else {
      ScalarTakesOne(d.semantic, lists);
    }
  }

  // ---- a call that throws

  /** The lookup or the conversion of one item fails: what came before it is stored, and of the item
      itself at most an entry that has lost its default. The names that were final and required stay. */
  lemma {:induction false} StoreThrows(options: seq<Description>, final: set<string>, m: Values, opts: seq<Opt>)
      returns (k: nat)
    requires StoreItems(options, final, m, opts).1.Some?
    ensures k < |opts| && StoreItems(options, final, m, opts[..k]).1.None?
    ensures var o := opts[k];
            var (end, failure) := StoreItems(options, final, m, opts);
            var before := StoreItems(options, final, m, opts[..k]).0;
            var found := Find(options, Named(o.key));
            && o.key != "" && !o.unregistered && o.key !in final
            && (found.Failure? ==> end == before && failure == Some(found.error))
            && (found == Success(None) ==> end == before && failure == Some(UnknownOption))
            && (found.Success? && found.value.Some? ==>
                  && end == before[o.key := if o.key in before && !before[o.key].defaulted then before[o.key]
                                            else VariableValue(None, false, None)]
                  && failure.value in {MultipleOccurrences, MultipleValues, ValueRequired, WrongStoredType})
    decreases |opts|
  {
    hide Find;
    var (next, failure) := StoreOne(options, final, m, opts[0]);
    if failure.Some? {
      k := 0;
      assert opts[..0] == [];
    } else {
      var i := StoreThrows(options, final, next, opts[1..]);
      k := i + 1;
      TakeCons(opts, i);
      CutAppend([opts[0]], opts[1..][..i]);
      assert opts[k] == opts[1..][i];
    }
  }

  // ---- required options

  ghost predicate Requires(all: seq<Description>, name: string) {
    name != "" && exists d :: d in all && CalledAs(d, "") == name && d.semantic.Typed? && d.semantic.required
  }

  lemma {:induction false} RequiredKeys(required: map<string, string>, all: seq<Description>,
                                        style: PrefixStyle, name: string)
    ensures name in WithAllRequired(required, all, style) <==> name in required || Requires(all, name)
    decreases |all|
  {
    hide Description.Key, Description.CanonicalDisplayName, CalledAs;
    if all != [] {
      Cons(all);
      KeyMeaning(all[0], "");
      RequiredKeys(WithRequired(required, all[0], style), all[1..], style, name);
    }
  }

  lemma {:induction false} StoreAllRequired(options: seq<Description>, calls: seq<Call>, name: string)
    requires StoreAll(options, calls).1.None?
    ensures name in StoreAll(options, calls).0.required <==> calls != [] && Requires(options, name)
    decreases |calls|
  {
    hide StoreItems, NewFinal, WithDefaults, WithAllRequired, Requires;
    if calls != [] {
      var init, last := calls[..|calls| - 1], calls[|calls| - 1];
      StoreAllRequired(options, init, name);
      RequiredKeys(StoreAll(options, init).0.required, options, last.style, name);
    }
  }

  /** After calls that do not throw, notify finds a required option without value exactly when one
      was declared that no call has given and that has no default. */
  lemma RequiredMet(options: seq<Description>, calls: seq<Call>, name: string)
    requires calls != [] && StoreAll(options, calls).1.None?
    ensures var st := StoreAll(options, calls).0;
            (name in st.required && (name in st.values ==> st.values[name].value.None?)) <==>
              && Requires(options, name) && DefaultFor(options, name).None?
              && Counting(calls, name, Composes(options, name)) == []
  {
    StoreAllRequired(options, calls, name);
    if name != "" {
      hide StoreAll, Find, Counting, Composing;
      StoreAllEntry(options, calls, name);
      DefaultForIsDefault(options, name);
    }
  }

  /** How a required option is reported where names have a prefix, and where they have none. */
  ghost predicate Shows(d: Description, style: PrefixStyle, shown: string) {
    if d.longName != "" && style in {AllowLong, AllowLongDisguise} then
      shown == (if style == AllowLong then "--" else "-") + d.longName
    else if |d.shortName| == 2 && style in {AllowSlashForShort, AllowDashForShort} then
      shown == [if style == AllowSlashForShort then '/' else '-', d.shortName[1]]
    else shown == if d.longName != "" then d.longName else d.shortName
  }

  /** The option is required under that name. */
  predicate RequiredAs(d: Description, name: string) {
    CalledAs(d, "") == name && d.semantic.Typed? && d.semantic.required
  }

  lemma DisplayShows(d: Description, style: PrefixStyle)
    ensures Shows(d, style, d.CanonicalDisplayName(style))
    ensures forall shown :: Shows(d, style, shown) ==> shown == d.CanonicalDisplayName(style)
  {
  }

  /** What is known of a name after one call: what was known before, or how one of the options shows,
      whichever is the longest. */
  lemma {:induction false} RequiredReported(required: map<string, string>, all: seq<Description>, style: PrefixStyle,
                                            name: string)
    requires name != ""
    ensures var next := WithAllRequired(required, all, style);
            && (name in required ==> name in next && |next[name]| >= |required[name]|)
            && (forall d, shown :: d in all && RequiredAs(d, name) && Shows(d, style, shown) ==>
                  name in next && |next[name]| >= |shown|)
            && (name in next ==>
                  || (name in required && next[name] == required[name])
                  || exists d :: d in all && RequiredAs(d, name) && (next[name] == "" || Shows(d, style, next[name])))
    decreases |all|
  {
    hide Description.Key, Description.CanonicalDisplayName, CalledAs, Shows;
    if all != [] {
      Cons(all);
      KeyMeaning(all[0], "");
      DisplayShows(all[0], style);
      RequiredReported(WithRequired(required, all[0], style), all[1..], style, name);
    }
  }

  /** After any calls that do not throw, a required option is reported as one of the calls shows it,
      and none of the calls shows any option of that name longer: `--` wins over `-` and `/`, and these
      over the bare name. */
  lemma {:induction false} ReportedLongest(options: seq<Description>, calls: seq<Call>, name: string)
    requires name != "" && StoreAll(options, calls).1.None? && name in StoreAll(options, calls).0.required
    ensures var shown := StoreAll(options, calls).0.required[name];
            && (exists c, d :: c in calls && d in options && RequiredAs(d, name)
                               && (shown == "" || Shows(d, c.style, shown)))
            && forall c, d, other :: c in calls && d in options && RequiredAs(d, name) && Shows(d, c.style, other) ==>
                 |shown| >= |other|
    decreases |calls|
  {
    hide StoreItems, NewFinal, WithDefaults, WithAllRequired, Shows, RequiredAs;
    StoreAllRequired(options, calls, name);
    if calls != [] {
      var init, last := calls[..|calls| - 1], calls[|calls| - 1];
      Snoc(calls);
      var before := StoreAll(options, init).0.required;
      RequiredReported(before, options, last.style, name);
      if name in before {
        ReportedLongest(options, init, name);
      } else {
        StoreAllRequired(options, init, name);
        assert init == [];
      }
    }
  }
}
