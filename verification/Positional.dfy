/** The description of positional options: a list of names, and a name for all further ones. */
module Positional {
  import opened Seqs

  const UNLIMITED: nat := 0xFFFF_FFFF

  function Repeat(name: string, count: nat): (r: seq<string>)
    ensures |r| == count && forall i :: 0 <= i < count ==> r[i] == name
  {
    seq(count, _ => name)
  }

  datatype Slots = Slots(names: seq<string>, trailing: string) {
    function MaxTotalCount(): nat {
      if trailing == "" then |names| else UNLIMITED
    }

    function NameForPosition(position: nat): string
      requires position < MaxTotalCount()
    {
      if position < |names| then names[position] else trailing
    }
  }

  /** One call of add; -1 stands for "all the rest". */
  datatype Entry = Entry(name: string, maxCount: int)

  class PositionalOptions {
    var slots: Slots

    constructor ()
      ensures slots == Slots([], "")
    {
      slots := Slots([], "");
    }

    method Add(name: string, maxCount: int)
      requires maxCount >= -1 && (maxCount != -1 || slots.trailing == "")
      modifies this
      ensures slots == if maxCount == -1 then Slots(old(slots).names, name)
                       else Slots(old(slots).names + Repeat(name, maxCount), old(slots).trailing)
    {
      if maxCount == -1 {
        slots := slots.(trailing := name);
      } else {
        slots := slots.(names := slots.names + Repeat(name, maxCount));
      }
    }

    /** A description built by a list of calls names position k after the call that covers it. */
    method AddAll(entries: seq<Entry>)
      requires slots == Slots([], "")
      requires forall i :: 0 <= i < |entries| ==> entries[i].maxCount >= -1
      requires forall i, j :: 0 <= i < j < |entries| && entries[i].maxCount == -1 && entries[i].name != ""
                              ==> entries[j].maxCount != -1
      modifies this
      ensures slots.names == Counted(entries)
      ensures slots.trailing == Rest(entries)
      ensures Describes(slots, entries)
    {
      hide Counted, Rest;
      NoEntries();
      WithEmpty(Counted(entries));
      assert entries[0..] == entries;
      for i := 0 to |entries|
        invariant slots.names + Counted(entries[i..]) == Counted(entries)
        invariant slots.trailing != "" ==> Rest(entries) == slots.trailing
        invariant slots.trailing == "" ==> Rest(entries) == Rest(entries[i..])
        invariant slots.trailing != "" ==> exists k :: 0 <= k < i && entries[k].maxCount == -1 && entries[k].name != ""
      {
        var e := entries[i];
        NextEntry(entries, i);
        if e.maxCount != -1 {
          Assoc(slots.names, Repeat(e.name, e.maxCount), Counted(entries[i + 1..]));
        }
        Add(e.name, e.maxCount);
      }
      assert entries[|entries|..] == [];
      WithEmpty(slots.names);
      CountedRestDescribe(entries);
    }
  }

  lemma NoEntries()
    ensures Counted([]) == [] && Rest([]) == ""
  {
  }

  lemma NextEntry(entries: seq<Entry>, i: nat)
    requires i < |entries|
    ensures var e, later := entries[i], entries[i + 1..];
            && Counted(entries[i..])
               == (if e.maxCount > 0 then Repeat(e.name, e.maxCount) else []) + Counted(later)
            && Rest(entries[i..]) == if e.maxCount == -1 && e.name != "" then e.name else Rest(later)
  {
    assert entries[i..][1..] == entries[i + 1..];
  }

  function Counted(entries: seq<Entry>): (names: seq<string>) {
    if entries == [] then []
    else (if entries[0].maxCount > 0 then Repeat(entries[0].name, entries[0].maxCount) else []) + Counted(entries[1..])
  }

  function Rest(entries: seq<Entry>): string {
    if entries == [] then ""
    else if entries[0].maxCount == -1 && entries[0].name != "" then entries[0].name
    else Rest(entries[1..])
  }

  /** How many positions a call covers. */
  function Covers(entry: Entry): nat {
    if entry.maxCount > 0 then entry.maxCount else 0
  }

  function Total(entries: seq<Entry>): nat {
    if entries == [] then 0 else Covers(entries[0]) + Total(entries[1..])
  }

  /** The position that comes after those of the calls before call k, and among its own, has its name. */
  lemma {:induction false} PositionNamed(entries: seq<Entry>, k: nat, position: nat)
    requires k < |entries| && Total(entries[..k]) <= position < Total(entries[..k]) + Covers(entries[k])
    ensures position < |Counted(entries)| && Counted(entries)[position] == entries[k].name
  {
    if k > 0 {
      TakeCons(entries, k - 1);
      CutAppend([entries[0]], entries[1..][..k - 1]);
      PositionNamed(entries[1..], k - 1, position - Covers(entries[0]));
    }
  }

  // ---- what a description says, over the calls that made it

  /** Position k belongs to call j: it comes after those of the calls before, and among its own. */
  ghost predicate Covered(entries: seq<Entry>, j: nat, k: nat) {
    j < |entries| && Total(entries[..j]) <= k < Total(entries[..j]) + Covers(entries[j])
  }

  /** The call that names all positions beyond. */
  ghost predicate NamesTheRest(entries: seq<Entry>, j: nat) {
    j < |entries| && entries[j].maxCount == -1 && entries[j].name != ""
  }

  ghost predicate Describes(slots: Slots, entries: seq<Entry>) {
    && |slots.names| == Total(entries)
    && (forall j: nat, k: nat :: Covered(entries, j, k) && k < |slots.names| ==> slots.names[k] == entries[j].name)
    && (slots.trailing == "" <==> forall j: nat :: !NamesTheRest(entries, j))
    && (slots.trailing != "" ==> exists j: nat :: NamesTheRest(entries, j) && slots.trailing == entries[j].name)
  }

  lemma {:induction false} CountedTotal(entries: seq<Entry>)
    ensures |Counted(entries)| == Total(entries)
  {
    if entries != [] {
      CountedTotal(entries[1..]);
    }
  }

  lemma {:induction false} RestNames(entries: seq<Entry>)
    ensures Rest(entries) == "" ==> forall j: nat :: !NamesTheRest(entries, j)
    ensures Rest(entries) != "" ==> exists j: nat :: NamesTheRest(entries, j) && Rest(entries) == entries[j].name
  {
    if entries != [] {
      var rest := entries[1..];
      RestNames(rest);
      if Rest(entries) == "" {
        forall j: nat ensures !NamesTheRest(entries, j) {
          if j > 0 && NamesTheRest(entries, j) {
            assert NamesTheRest(rest, j - 1);
          }
        }
      } else if NamesTheRest(entries, 0) {
        assert Rest(entries) == entries[0].name;
      } else {
        var j: nat :| NamesTheRest(rest, j) && Rest(rest) == rest[j].name;
        assert NamesTheRest(entries, j + 1);
      }
    }
  }

  lemma CountedRestDescribe(entries: seq<Entry>)
    ensures Describes(Slots(Counted(entries), Rest(entries)), entries)
  {
    CountedTotal(entries);
    RestNames(entries);
    hide Counted, Rest, NamesTheRest;
    forall j: nat, k: nat | Covered(entries, j, k)
      ensures k < Total(entries) && Counted(entries)[k] == entries[j].name
    {
      PositionNamed(entries, j, k);
    }
  }

  /** Every position below the total belongs to a call. */
  lemma {:induction false} SomeCover(entries: seq<Entry>, k: nat) returns (j: nat)
    requires k < Total(entries)
    ensures Covered(entries, j, k)
  {
    if k < Covers(entries[0]) {
      j := 0;
    } else {
      var i := SomeCover(entries[1..], k - Covers(entries[0]));
      j := i + 1;
      TakeCons(entries, i);
      CutAppend([entries[0]], entries[1..][..i]);
    }
  }

  /** The name of a position over the calls: that of the call which covers it, or of the call for all
      the rest. */
  lemma PositionMeaning(slots: Slots, entries: seq<Entry>, k: nat)
    requires Describes(slots, entries) && k < slots.MaxTotalCount()
    ensures forall j: nat :: Covered(entries, j, k) ==> slots.NameForPosition(k) == entries[j].name
    ensures if k < Total(entries) then exists j: nat :: Covered(entries, j, k)
            else exists j: nat :: NamesTheRest(entries, j) && slots.NameForPosition(k) == entries[j].name
  {
    hide Covered, NamesTheRest, Total;
    if k < Total(entries) {
      var j := SomeCover(entries, k);
    } else {
      forall j: nat ensures !Covered(entries, j, k) {
        CoveredBelow(entries, j, k);
      }
    }
  }

  lemma {:induction false} CoveredBelow(entries: seq<Entry>, j: nat, k: nat)
    ensures Covered(entries, j, k) ==> k < Total(entries)
  {
    if Covered(entries, j, k) {
      PositionNamed(entries, j, k);
      CountedTotal(entries);
    }
  }
}
