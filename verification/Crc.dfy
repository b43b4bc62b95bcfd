/** The CRC computers: one bit at a time (CrcBasic), one byte at a time through a table
    (CrcTable, CrcOptimal) and the augmented-message form (AugmentedCrc). Remainders live in
    machine words that may be wider than the checksum; what the extra high bits hold is junk
    unless said otherwise. All three are related to the division of CrcTheory. */
module Crc {
  import opened Seqs
  import opened Words
  import opened CrcTheory

  // ---- what a checksum is

  /** The template parameters of a CRC, cut to its width. */
  datatype Parameters = Parameters(poly: Word, init: Word, final: Word, reflectIn: bool, reflectRem: bool) {
    ghost predicate Valid() {
      |poly| == |init| == |final| > 0
    }
  }

  /** The bits of a byte in the order in which they are divided. */
  function ByteBits(b: Byte, reflectIn: bool): (bits: seq<bool>)
    ensures |bits| == CHAR_BIT
  {
    if reflectIn then b else Rev(b)
  }

  function MessageBits(data: seq<Byte>, reflectIn: bool): (bits: seq<bool>)
    ensures |bits| == CHAR_BIT * |data|
  {
    if data == [] then [] else ByteBits(data[0], reflectIn) + MessageBits(data[1..], reflectIn)
  }

  /** What is reported for a remainder: optionally reflected, then xor-ed with the final value. */
  function Finish(rem: Word, final: Word, reflectRem: bool): (r: Word)
    requires |rem| == |final|
    ensures |r| == |rem|
  {
    Xor(if reflectRem then Rev(rem) else rem, final)
  }

  /** The checksum by bit-serial division. */
  function ChecksumOf(p: Parameters, data: seq<Byte>): (r: Word)
    requires p.Valid()
    ensures |r| == |p.poly|
  {
    Finish(Steps(p.init, p.poly, MessageBits(data, p.reflectIn)), p.final, p.reflectRem)
  }

  lemma {:induction false} MessageBitsConcat(a: seq<Byte>, b: seq<Byte>, reflectIn: bool)
    ensures MessageBits(a + b, reflectIn) == MessageBits(a, reflectIn) + MessageBits(b, reflectIn)
  {
    if a == [] {
      assert a + b == b;
    } else {
      assert (a + b)[1..] == a[1..] + b;
      MessageBitsConcat(a[1..], b, reflectIn);
      var x, y, z := ByteBits(a[0], reflectIn), MessageBits(a[1..], reflectIn), MessageBits(b, reflectIn);
      assert x + (y + z) == x + y + z;
    }
  }

  lemma MessageBitsSnoc(a: seq<Byte>, x: Byte, reflectIn: bool)
    ensures MessageBits(a + [x], reflectIn) == MessageBits(a, reflectIn) + ByteBits(x, reflectIn)
  {
    MessageBitsConcat(a, [x], reflectIn);
    assert MessageBits([x], reflectIn) == ByteBits(x, reflectIn) + [];
  }

  /** Both divisions go through a message one byte after the other. */
  lemma StepsAlongMessage(rem: Word, poly: Word, data: seq<Byte>, p: nat, reflectIn: bool)
    requires |rem| == |poly| > 0 && p < |data|
    ensures Steps(rem, poly, MessageBits(data[..p + 1], reflectIn))
         == Steps(Steps(rem, poly, MessageBits(data[..p], reflectIn)), poly, ByteBits(data[p], reflectIn))
    ensures AugSteps(rem, poly, MessageBits(data[..p + 1], reflectIn))
         == AugSteps(AugSteps(rem, poly, MessageBits(data[..p], reflectIn)), poly, ByteBits(data[p], reflectIn))
  {
    assert data[..p + 1] == data[..p] + [data[p]];
    MessageBitsSnoc(data[..p], data[p], reflectIn);
    StepsConcat(rem, poly, MessageBits(data[..p], reflectIn), ByteBits(data[p], reflectIn));
    AugStepsConcat(rem, poly, MessageBits(data[..p], reflectIn), ByteBits(data[p], reflectIn));
  }

  // ---- reflection

  /** reflector<bits>::reflect */
  method Reflect(x: Word, bits: nat) returns (reflection: Word)
    requires bits <= |x|
    ensures reflection == Rev(x[..bits]) + Zeros(|x| - bits)
  {
    reflection := Zeros(|x|);
    var rest := x;
    for i := 0 to bits
      invariant rest == ShrBy(x, i)
      invariant |reflection| == |x|
      invariant forall j :: 0 <= j < |x| ==> reflection[j] == (bits - i <= j < bits && x[bits - 1 - j])
    {
      if rest[0] {
        reflection := reflection[bits - 1 - i := true];
      }
      assert ShrBy(rest, 1) == ShrBy(x, i + 1);
      rest := ShrBy(rest, 1);
    }
  }

  // ---- one bit at a time

  /** One bit of division inside a wider machine word; bits at `n` and above are junk. */
  function DivideBit(rem: Word, poly: Word, n: nat, bit: bool): (r: Word)
    requires |rem| == |poly| && 0 < n <= |rem|
    ensures |r| == |rem|
  {
    var compared := Xor(rem, if bit then Unit(|rem|, n - 1) else Zeros(|rem|));
    if compared[n - 1] then Xor(Shl(compared), poly) else Shl(compared)
  }

  /** Junk above the checksum's width never reaches the checksum. */
  lemma DivideBitIsStep(rem: Word, poly: Word, n: nat, bit: bool)
    requires |rem| == |poly| && 0 < n <= |rem|
    ensures DivideBit(rem, poly, n, bit)[..n] == Step(rem[..n], poly[..n], bit)
  {
    var u := if bit then Unit(|rem|, n - 1) else Zeros(|rem|);
    var compared := Xor(rem, u);
    assert compared[n - 1] == (rem[n - 1] != bit);
    assert Shl(compared)[..n] == Shl(rem[..n]);
    CutXor(Shl(compared), poly, n);
  }

  lemma CutXor(a: Word, b: Word, n: nat)
    requires |a| == |b| >= n
    ensures Xor(a, b)[..n] == Xor(a[..n], b[..n])
  {
  }

  lemma StepsOfNone(rem: Word, poly: Word)
    requires |rem| == |poly| > 0
    ensures Steps(rem, poly, []) == rem
  {
  }

  lemma RevAt(a: Word, k: nat)
    requires k < |a|
    ensures |Rev(a)| == |a| && Rev(a)[|a| - 1 - k] == a[k]
  {
  }

  lemma StepsAlong(rem: Word, poly: Word, order: seq<bool>, k: nat)
    requires |rem| == |poly| > 0 && k < |order|
    ensures Steps(rem, poly, order[..k + 1]) == Step(Steps(rem, poly, order[..k]), poly, order[k])
  {
    assert order[..k + 1] == order[..k] + [order[k]];
    StepsSnoc(rem, poly, order[..k], order[k]);
  }

  /** Dividing `count` bits that leave a byte at its top. */
  function StepsFromTop(rem: Word, poly: Word, shifting: Byte, count: nat): (r: Word)
    requires |rem| == |poly| > 0
    ensures |r| == |rem|
    decreases count
  {
    if count == 0 then rem
    else StepsFromTop(Step(rem, poly, shifting[CHAR_BIT - 1]), poly, Shl(shifting), count - 1)
  }

  lemma StepsFromTopUnrolled(rem: Word, poly: Word, shifting: Byte, count: nat)
    requires |rem| == |poly| > 0
    ensures count == 0 ==> StepsFromTop(rem, poly, shifting, count) == rem
    ensures count > 0 ==>
              StepsFromTop(rem, poly, shifting, count)
              == StepsFromTop(Step(rem, poly, shifting[CHAR_BIT - 1]), poly, Shl(shifting), count - 1)
  {
  }

  /** Shifting a byte up brings its bits to the top, highest first. */
  lemma ShiftedTop(byte: Byte, i: nat)
    requires 0 < i <= CHAR_BIT
    ensures ShlBy(byte, CHAR_BIT - i)[CHAR_BIT - 1] == byte[i - 1]
    ensures Shl(ShlBy(byte, CHAR_BIT - i)) == ShlBy(byte, CHAR_BIT - (i - 1))
    ensures Rev(byte[..i]) == [byte[i - 1]] + Rev(byte[..i - 1])
  {
  }

  lemma {:induction false} StepsFromTopOrder(rem: Word, poly: Word, byte: Byte, count: nat)
    requires |rem| == |poly| > 0 && count <= CHAR_BIT
    ensures StepsFromTop(rem, poly, ShlBy(byte, CHAR_BIT - count), count) == Steps(rem, poly, Rev(byte[..count]))
    decreases count
  {
    if count > 0 {
      ShiftedTop(byte, count);
      StepsFromTopOrder(Step(rem, poly, byte[count - 1]), poly, byte, count - 1);
    }
  }

  class CrcBasic {
    const bits: nat
    const poly: Word
    const init: Word
    const final: Word
    const reflectIn: bool
    const reflectRem: bool
    var rem: Word

    ghost predicate Valid()
      reads this
    {
      0 < bits <= |rem| == |poly| == |init| == |final|
    }

    ghost function Params(): (p: Parameters)
      requires 0 < bits <= |poly| == |init| == |final|
      ensures p.Valid() && |p.poly| == bits
    {
      Parameters(poly[..bits], init[..bits], final[..bits], reflectIn, reflectRem)
    }

    constructor (bits: nat, poly: Word, init: Word, final: Word, reflectIn: bool, reflectRem: bool)
      requires 0 < bits <= |poly| == |init| == |final|
      ensures Valid() && rem == init
      ensures this.bits == bits && this.poly == poly && this.init == init && this.final == final
      ensures this.reflectIn == reflectIn && this.reflectRem == reflectRem
    {
      this.bits, this.poly, this.init, this.final := bits, poly, init, final;
      this.reflectIn, this.reflectRem := reflectIn, reflectRem;
      this.rem := init;
    }

    method ResetTo(newRem: Word)
      requires Valid() && |newRem| == |poly|
      modifies this
      ensures Valid() && rem == newRem
    {
      rem := newRem;
    }

    method Reset()
      requires Valid()
      modifies this
      ensures Valid() && rem == init
    {
      ResetTo(init);
    }

    method ProcessBit(bit: bool)
      requires Valid()
      modifies this
      ensures Valid()
      ensures rem[..bits] == Step(old(rem)[..bits], poly[..bits], bit)
    {
      DivideBitIsStep(rem, poly, bits, bit);
      // compare the new bit with the remainder's highest
      rem := Xor(rem, if bit then Unit(|rem|, bits - 1) else Zeros(|rem|));
      var doPolyDiv := rem[bits - 1];
      rem := Shl(rem);
      if doPolyDiv {
        rem := Xor(rem, poly);
      }
    }

    /** Divides the low `bitCount` bits of a byte, highest first. */
    method ProcessBits(byte: Byte, bitCount: nat)
      requires Valid() && bitCount <= CHAR_BIT
      modifies this
      ensures Valid()
      ensures rem[..bits] == Steps(old(rem)[..bits], poly[..bits], Rev(byte[..bitCount]))
    {
      hide StepsFromTop, Steps, Step, ShlBy, Shl, Rev;
      var shifting := ShlBy(byte, CHAR_BIT - bitCount);
      ghost var divisor := poly[..bits];
      ghost var result := StepsFromTop(rem[..bits], divisor, shifting, bitCount);
      StepsFromTopOrder(rem[..bits], divisor, byte, bitCount);
      var i := bitCount;
      while i > 0
        invariant 0 <= i <= bitCount
        invariant Valid() && |shifting| == CHAR_BIT
        invariant StepsFromTop(rem[..bits], divisor, shifting, i) == result
      {
        StepsFromTopUnrolled(rem[..bits], divisor, shifting, i);
        ProcessBit(shifting[CHAR_BIT - 1]);
        i, shifting := i - 1, Shl(shifting);
      }
      StepsFromTopUnrolled(rem[..bits], divisor, shifting, 0);
    }

    method ProcessByte(byte: Byte)
      requires Valid()
      modifies this
      ensures Valid()
      ensures rem[..bits] == Steps(old(rem)[..bits], poly[..bits], ByteBits(byte, reflectIn))
    {
      var ordered := byte;
      if reflectIn {
        ordered := Reflect(byte, CHAR_BIT);
        assert byte[..CHAR_BIT] == byte;
        assert ordered == Rev(byte);
        RevRev(byte);
      }
      assert ordered[..CHAR_BIT] == ordered;
      ProcessBits(ordered, CHAR_BIT);
    }

    method ProcessBlock(data: seq<Byte>)
      requires Valid()
      modifies this
      ensures Valid()
      ensures rem[..bits] == Steps(old(rem)[..bits], poly[..bits], MessageBits(data, reflectIn))
    {
      for p := 0 to |data|
        invariant Valid()
        invariant rem[..bits] == Steps(old(rem)[..bits], poly[..bits], MessageBits(data[..p], reflectIn))
      {
        StepsAlongMessage(old(rem)[..bits], poly[..bits], data, p, reflectIn);
        ProcessByte(data[p]);
      }
      assert data[..|data|] == data;
    }

    method Checksum() returns (c: Word)
      requires Valid()
      ensures c == Finish(rem[..bits], final[..bits], reflectRem) + Zeros(|rem| - bits)
    {
      var out := rem;
      if reflectRem {
        out := Reflect(rem, bits);
      }
      c := Mask(Xor(out, final), bits);
      CutXor(out, final, bits);
    }
  }

  // ---- one byte at a time

  /** The entry for the index byte `b`: the division of its bits from zero. */
  function Entry(b: Byte, poly: Word, reflect: bool): (e: Word)
    requires |poly| > 0
    ensures |e| == |poly|
  {
    if reflect then Rev(Steps(Zeros(|poly|), poly, b)) else Steps(Zeros(|poly|), poly, Rev(b))
  }

  lemma ByteCombos()
    ensures Pow2(CHAR_BIT) == 256
  {
    assert Pow2(4) == 16;
  }

  class CrcTable {
    const bits: nat
    const poly: Word
    const reflect: bool
    const entries: array<Word>
    var didInit: bool

    ghost predicate Shaped()
    {
      0 < bits <= |poly| && CHAR_BIT <= |poly| && entries.Length == 256
    }

    /** Entries hold the division in their low bits; reflected entries are clean above them. */
    ghost predicate Holds(e: Word, b: Byte)
      requires Shaped()
    {
      |e| == |poly| && e[..bits] == Entry(b, poly[..bits], reflect) && (reflect ==> e == Mask(e, bits))
    }

    ghost predicate Complete(es: seq<Word>)
      requires Shaped()
    {
      |es| == 256 && forall b: Byte :: Holds(es[Value(b)], b)
    }

    ghost predicate Valid()
      reads this, entries
    {
      Shaped() && (didInit ==> Complete(entries[..]))
    }

    constructor (bits: nat, poly: Word, reflect: bool)
      requires 0 < bits <= |poly| && CHAR_BIT <= |poly|
      ensures Valid() && !didInit && fresh(entries)
      ensures this.bits == bits && this.poly == poly && this.reflect == reflect
    {
      this.bits, this.poly, this.reflect, this.didInit := bits, poly, reflect, false;
      this.entries := new Word[256];
    }

    method Lookup(index: Byte) returns (entry: Word)
      requires Valid() && didInit
      ensures Holds(entry, index)
    {
      ByteCombos();
      entry := entries[Value(index)];
    }

    /** Where the division of `dividend` is stored. */
    ghost function Slot(dividend: Byte): (b: Byte) {
      if reflect then Rev(dividend) else dividend
    }

    lemma SlotDistinct(x: Byte, y: Byte)
      requires x != y
      ensures Value(Slot(x)) != Value(Slot(y)) && Value(x) != Value(y)
    {
      RevRev(x);
      RevRev(y);
      ToWordValue(x);
      ToWordValue(y);
      ToWordValue(Slot(x));
      ToWordValue(Slot(y));
    }

    /** The divisions of all dividends below `done` are in place. */
    ghost predicate Filled(es: seq<Word>, done: nat)
      requires Shaped()
    {
      |es| == 256 && forall w: Byte :: Value(w) < done ==> Holds(es[Value(Slot(w))], Slot(w))
    }

    lemma FilledNext(es: seq<Word>, w: Byte, entry: Word)
      requires Shaped() && Filled(es, Value(w)) && Holds(entry, Slot(w))
      ensures Filled(es[Value(Slot(w)) := entry], Value(w) + 1)
    {
      hide Holds, Value, Slot;
      forall x: Byte | Value(x) <= Value(w)
        ensures Holds(es[Value(Slot(w)) := entry][Value(Slot(x))], Slot(x))
      {
        if x != w {
          SlotDistinct(x, w);
        }
      }
    }

    lemma FilledIsComplete(es: seq<Word>)
      requires Shaped() && Filled(es, 256)
      ensures Complete(es)
    {
      forall b: Byte ensures Holds(es[Value(b)], b) {
        RevRev(b);
        ByteCombos();
        assert Slot(Slot(b)) == b && Value(Slot(b)) < 256;
      }
    }

    /** One bit of the division inside the machine word. */
    method DivideStep(rem: Word, bit: bool) returns (remainder: Word)
      requires Shaped() && |rem| == |poly|
      ensures |remainder| == |poly|
      ensures remainder[..bits] == Step(rem[..bits], poly[..bits], bit)
    {
      DivideBitIsStep(rem, poly, bits, bit);
      remainder := rem;
      // check if divisor fits
      if bit {
        remainder := Xor(remainder, Unit(|poly|, bits - 1));
      } else {
        XorLaws(rem, rem, rem);
      }
      // do polynomial division
      if remainder[bits - 1] {
        remainder := Xor(Shl(remainder), poly);
      } else {
        remainder := Shl(remainder);
      }
    }

    /** The division of one byte inside the machine word. */
    method Divide(dividend: Byte) returns (remainder: Word)
      requires Shaped()
      ensures |remainder| == |poly|
      ensures remainder[..bits] == Steps(Zeros(bits), poly[..bits], Rev(dividend))
    {
      hide Step, Steps, Rev;
      ghost var order, start, divisor := Rev(dividend), Zeros(bits), poly[..bits];
      StepsOfNone(start, divisor);
      assert order[..0] == [];
      remainder := Zeros(|poly|);
      var mask: nat := CHAR_BIT;
      while mask > 0
        invariant mask <= CHAR_BIT
        invariant |remainder| == |poly|
        invariant remainder[..bits] == Steps(start, divisor, order[..CHAR_BIT - mask])
      {
        StepsAlong(start, divisor, order, CHAR_BIT - mask);
        RevAt(dividend, mask - 1);
        remainder := DivideStep(remainder, dividend[mask - 1]);
        mask := mask - 1;
      }
      assert order[..CHAR_BIT] == order;
    }

    /** The place and the content of the entry that one dividend contributes. */
    method EntryFor(dividend: Byte) returns (index: Byte, entry: Word)
      requires Shaped()
      ensures index == Slot(dividend) && Holds(entry, index)
    {
      index := dividend;
      entry := Divide(dividend);
      if reflect {
        ghost var cut := entry[..bits];
        index := Reflect(dividend, CHAR_BIT);
        entry := Reflect(entry, bits);
        assert dividend[..CHAR_BIT] == dividend;
        RevRev(dividend);
        assert entry[..bits] == Rev(cut);
      }
    }

    /** Stores the entry that one dividend contributes. */
    method Store(dividend: nat)
      requires Shaped() && dividend < 256 && Filled(entries[..], dividend)
      modifies entries
      ensures Filled(entries[..], dividend + 1)
    {
      hide Holds, Slot, Value, Filled;
      var w: Byte := ToWord(dividend, CHAR_BIT);
      ByteCombos();
      ValueToWord(dividend, CHAR_BIT);
      var index, entry := EntryFor(w);
      FilledNext(entries[..], w, entry);
      ghost var before := entries[..];
      entries[Value(index)] := entry;
      assert entries[..] == before[Value(index) := entry];
    }

    /** Fills the table on the first call; later calls leave it alone. */
    method InitTable()
      requires Valid()
      modifies this, entries
      ensures Valid() && didInit
    {
      if didInit {
        return;
      }
      var dividend: nat, more := 0, true;
      while more
        invariant dividend < 256 && !didInit
        invariant Filled(entries[..], if more then dividend else 256)
        decreases more, 256 - dividend
      {
        Store(dividend);
        dividend := (dividend + 1) % 256;
        more := dividend != 0;
      }
      FilledIsComplete(entries[..]);
      didInit := true;
    }
  }

  // ---- the table lookups that replace eight divisions

  /** crc_helper::index, including its truncation to a byte. */
  function Index(rem: Word, x: Byte, n: nat, reflect: bool): (i: Byte)
    requires CHAR_BIT <= |rem| && n <= |rem|
  {
    var aligned :=
      if reflect then rem[..CHAR_BIT]
      else if n > CHAR_BIT then ShrBy(rem, n - CHAR_BIT)[..CHAR_BIT]
      else ShlBy(rem, CHAR_BIT - n)[..CHAR_BIT];
    Xor(x, aligned)
  }

  /** crc_helper::shift */
  function ShiftOut(rem: Word, reflect: bool): (r: Word)
    ensures |r| == |rem|
  {
    if reflect then ShrBy(rem, CHAR_BIT) else ShlBy(rem, CHAR_BIT)
  }

  lemma IndexDirect(rem: Word, x: Byte, n: nat)
    requires CHAR_BIT <= |rem| && 0 < n <= |rem|
    ensures Rev(Index(rem, x, n, false)) == Xor(Rev(x), Top(rem[..n], CHAR_BIT))
  {
  }

  lemma IndexReflected(rem: Word, x: Byte, n: nat)
    requires CHAR_BIT <= |rem| && 0 < n <= |rem| && rem == Mask(rem, n)
    ensures Index(rem, x, n, true) == Xor(x, Top(Rev(rem[..n]), CHAR_BIT))
  {
  }

  lemma ShiftOutCut(rem: Word, n: nat)
    requires 0 < n <= |rem|
    ensures ShiftOut(rem, false)[..n] == ShlBy(rem[..n], CHAR_BIT)
    ensures rem == Mask(rem, n) ==> Rev(ShiftOut(rem, true)[..n]) == ShlBy(Rev(rem[..n]), CHAR_BIT)
    ensures rem == Mask(rem, n) ==> ShiftOut(rem, true) == Mask(ShiftOut(rem, true), n)
  {
    if rem == Mask(rem, n) {
      var a, b := Rev(ShiftOut(rem, true)[..n]), ShlBy(Rev(rem[..n]), CHAR_BIT);
      assert |a| == |b|;
      forall i | 0 <= i < n ensures a[i] == b[i] {
      }
    }
  }

  /** One table step of the direct form is eight bit-serial steps, for every width. */
  lemma TableStepDirect(rem: Word, poly: Word, n: nat, x: Byte, e: Word)
    requires CHAR_BIT <= |rem| == |poly| == |e| && 0 < n <= |rem|
    requires e[..n] == Entry(Index(rem, x, n, false), poly[..n], false)
    ensures Xor(ShiftOut(rem, false), e)[..n] == Steps(rem[..n], poly[..n], ByteBits(x, false))
  {
    CutXor(ShiftOut(rem, false), e, n);
    ShiftOutCut(rem, n);
    IndexDirect(rem, x, n);
    BlockStep(rem[..n], poly[..n], Rev(x));
  }

  /** One table step of the reflected form is eight bit-serial steps on the un-reflected
      remainder, and it leaves no junk above the checksum's width. */
  lemma TableStepReflected(rem: Word, poly: Word, n: nat, x: Byte, e: Word)
    requires CHAR_BIT <= |rem| == |poly| == |e| && 0 < n <= |rem|
    requires rem == Mask(rem, n) && e == Mask(e, n)
    requires e[..n] == Entry(Index(rem, x, n, true), poly[..n], true)
    ensures Rev(Xor(ShiftOut(rem, true), e)[..n]) == Steps(Rev(rem[..n]), poly[..n], ByteBits(x, true))
    ensures Xor(ShiftOut(rem, true), e) == Mask(Xor(ShiftOut(rem, true), e), n)
  {
    var quotient := Steps(Zeros(n), poly[..n], Index(rem, x, n, true));
    CutXor(ShiftOut(rem, true), e, n);
    ShiftOutCut(rem, n);
    RevXor(ShiftOut(rem, true)[..n], e[..n]);
    RevRev(quotient);
    IndexReflected(rem, x, n);
    BlockStep(Rev(rem[..n]), poly[..n], x);
    XorMasked(ShiftOut(rem, true), e, n);
  }

  lemma XorMasked(a: Word, b: Word, n: nat)
    requires |a| == |b| >= n && a == Mask(a, n) && b == Mask(b, n)
    ensures Xor(a, b) == Mask(Xor(a, b), n)
  {
    forall i | n <= i < |a| ensures !Xor(a, b)[i] {
      assert !Mask(a, n)[i] && !Mask(b, n)[i];
    }
  }

  /** The bit-serial remainder that a stored one stands for. */
  function Unreflected(rem: Word, n: nat, reflect: bool): (r: Word)
    requires n <= |rem|
    ensures |r| == n
  {
    if reflect then Rev(rem[..n]) else rem[..n]
  }

  lemma TableStep(rem: Word, poly: Word, n: nat, x: Byte, e: Word, reflect: bool)
    requires CHAR_BIT <= |rem| == |poly| == |e| && 0 < n <= |rem|
    requires reflect ==> rem == Mask(rem, n) && e == Mask(e, n)
    requires e[..n] == Entry(Index(rem, x, n, reflect), poly[..n], reflect)
    ensures var next := Xor(ShiftOut(rem, reflect), e);
            Unreflected(next, n, reflect) == Steps(Unreflected(rem, n, reflect), poly[..n], ByteBits(x, reflect))
            && (reflect ==> next == Mask(next, n))
  {
    if reflect {
      TableStepReflected(rem, poly, n, x, e);
    } else {
      TableStepDirect(rem, poly, n, x, e);
    }
  }

  class CrcOptimal {
    const table: CrcTable
    const final: Word
    const reflectRem: bool
    var rem: Word

    ghost predicate Valid()
      reads this, table, table.entries
    {
      && table.Valid() && table.didInit
      && |rem| == |table.poly| == |final|
      && (table.reflect ==> rem == Mask(rem, table.bits))
    }

    /** The bit-serial remainder that the stored one stands for. */
    ghost function Interim(): (r: Word)
      requires table.bits <= |rem|
      reads this
      ensures |r| == table.bits
    {
      Unreflected(rem, table.bits, table.reflect)
    }

    constructor (table: CrcTable, initRem: Word, final: Word, reflectRem: bool)
      requires table.Valid() && |initRem| == |final| == |table.poly|
      modifies table, table.entries
      ensures Valid() && Interim() == initRem[..table.bits]
      ensures this.table == table && this.final == final && this.reflectRem == reflectRem
    {
      this.table, this.final, this.reflectRem := table, final, reflectRem;
      this.rem := initRem;
      new;
      if table.reflect {
        rem := Reflect(initRem, table.bits);
        RevRev(initRem[..table.bits]);
        assert rem[..table.bits] == Rev(initRem[..table.bits]);
      }
      table.InitTable();
    }

    method Reset(newRem: Word)
      requires Valid() && |newRem| == |rem|
      modifies this
      ensures Valid() && Interim() == newRem[..table.bits]
    {
      rem := newRem;
      if table.reflect {
        rem := Reflect(newRem, table.bits);
        RevRev(newRem[..table.bits]);
        assert rem[..table.bits] == Rev(newRem[..table.bits]);
      }
    }

    method GetInterimRemainder() returns (r: Word)
      requires Valid()
      ensures r == Interim() + Zeros(|rem| - table.bits)
    {
      r := rem;
      if table.reflect {
        r := Reflect(rem, table.bits);
      }
      r := Mask(r, table.bits);
    }

    method ProcessByte(byte: Byte)
      requires Valid()
      modifies this
      ensures Valid()
      ensures Interim() == Steps(old(Interim()), table.poly[..table.bits], ByteBits(byte, table.reflect))
    {
      hide Steps, Entry;
      var byteIndex := Index(rem, byte, table.bits, table.reflect);
      var entry := table.Lookup(byteIndex);
      TableStep(rem, table.poly, table.bits, byte, entry, table.reflect);
      rem := ShiftOut(rem, table.reflect);
      rem := Xor(rem, entry);
    }

    method ProcessBlock(data: seq<Byte>)
      requires Valid()
      modifies this
      ensures Valid()
      ensures Interim() == Steps(old(Interim()), table.poly[..table.bits], MessageBits(data, table.reflect))
    {
      ghost var start, poly := Interim(), table.poly[..table.bits];
      for p := 0 to |data|
        invariant Valid()
        invariant Interim() == Steps(start, poly, MessageBits(data[..p], table.reflect))
      {
        StepsAlongMessage(start, poly, data, p, table.reflect);
        ProcessByte(data[p]);
      }
      assert data[..|data|] == data;
    }

    method Checksum() returns (c: Word)
      requires Valid()
      ensures c == Finish(Interim(), final[..table.bits], reflectRem) + Zeros(|rem| - table.bits)
    {
      var out := rem;
      RevRev(rem[..table.bits]);
      if reflectRem != table.reflect {
        out := Reflect(rem, table.bits);
        assert out[..table.bits] == Rev(rem[..table.bits]);
      }
      c := Mask(Xor(out, final), table.bits);
      CutXor(out, final, table.bits);
    }
  }

  /** The parameters as a CRC computer over a shared table sees them. */
  ghost function TableParameters(table: CrcTable, init: Word, final: Word, reflectRem: bool): (p: Parameters)
    requires table.Shaped() && |init| == |final| == |table.poly|
    ensures p.Valid() && |p.poly| == table.bits
  {
    var n := table.bits;
    Parameters(table.poly[..n], init[..n], final[..n], table.reflect, reflectRem)
  }

  /** The crc function: the table-driven checksum of a buffer is the bit-serial one. */
  method CrcBytes(table: CrcTable, init: Word, final: Word, reflectRem: bool, buffer: seq<Byte>)
      returns (c: Word)
    requires table.Valid() && |init| == |final| == |table.poly|
    modifies table, table.entries
    ensures table.Valid()
    ensures c == ChecksumOf(TableParameters(table, init, final, reflectRem), buffer) + Zeros(|table.poly| - table.bits)
  {
    var computer := new CrcOptimal(table, init, final, reflectRem);
    computer.ProcessBlock(buffer);
    c := computer.Checksum();
  }

  // ---- the augmented-message form

  lemma TopByte(rem: Word, n: nat)
    requires CHAR_BIT <= n <= |rem|
    ensures Rev(ShrBy(rem, n - CHAR_BIT)[..CHAR_BIT]) == Top(rem[..n], CHAR_BIT)
  {
  }

  /** Top byte out, next byte in below. */
  lemma TableStepAugmented(rem: Word, poly: Word, n: nat, x: Byte, e: Word)
    requires |rem| == |poly| == |e| && CHAR_BIT <= n <= |rem|
    requires e[..n] == Entry(ShrBy(rem, n - CHAR_BIT)[..CHAR_BIT], poly[..n], false)
    ensures Xor(x + rem[..|rem| - CHAR_BIT], e)[..n] == AugSteps(rem[..n], poly[..n], ByteBits(x, false))
  {
    CutXor(x + rem[..|rem| - CHAR_BIT], e, n);
    AugBlockStep(rem[..n], poly[..n], Rev(x));
    TopByte(rem, n);
    EnteredByte(rem, n, x);
  }

  lemma EnteredByte(rem: Word, n: nat, x: Byte)
    requires CHAR_BIT <= n <= |rem|
    ensures (x + rem[..|rem| - CHAR_BIT])[..n] == Entered(rem[..n], Rev(x))
  {
    RevRev(x);
  }

  /** One round of the loop of augmented_crc. */
  method AugmentedByte(table: CrcTable, rem: Word, byte: Byte) returns (next: Word)
    requires table.Valid() && table.didInit && !table.reflect && table.bits >= CHAR_BIT && |rem| == |table.poly|
    ensures |next| == |rem|
    ensures next[..table.bits] == AugSteps(rem[..table.bits], table.poly[..table.bits], ByteBits(byte, false))
  {
    var byteIndex: Byte := ShrBy(rem, table.bits - CHAR_BIT)[..CHAR_BIT];
    var entry := table.Lookup(byteIndex);
    TableStepAugmented(rem, table.poly, table.bits, byte, entry);
    // the old top byte goes out, the new byte comes in below
    next := byte + rem[..|rem| - CHAR_BIT];
    next := Xor(next, entry);
  }

  /** augmented_crc: needs a width of at least one byte, as its shift does. */
  method AugmentedCrc(table: CrcTable, initialRemainder: Word, buffer: seq<Byte>) returns (c: Word)
    requires table.Valid() && !table.reflect && table.bits >= CHAR_BIT && |initialRemainder| == |table.poly|
    modifies table, table.entries
    ensures table.Valid()
    ensures c == AugSteps(initialRemainder[..table.bits], table.poly[..table.bits], MessageBits(buffer, false))
              + Zeros(|table.poly| - table.bits)
  {
    ghost var start, poly := initialRemainder[..table.bits], table.poly[..table.bits];
    var rem := initialRemainder;
    table.InitTable();
    for p := 0 to |buffer|
      invariant table.Valid() && table.didInit
      invariant |rem| == |table.poly|
      invariant rem[..table.bits] == AugSteps(start, poly, MessageBits(buffer[..p], false))
    {
      StepsAlongMessage(start, poly, buffer, p, false);
      rem := AugmentedByte(table, rem, buffer[p]);
    }
    assert buffer[..|buffer|] == buffer;
    c := Mask(rem, table.bits);
  }

  // ---- whole messages of bytes

  /** The bytes whose bits are the given ones. */
  function Pack(bits: seq<bool>, reflectIn: bool): (data: seq<Byte>)
    requires |bits| % CHAR_BIT == 0
    ensures |data| == |bits| / CHAR_BIT
  {
    if bits == [] then []
    else
      var first: Byte := bits[..CHAR_BIT];
      [if reflectIn then first else Rev(first)] + Pack(bits[CHAR_BIT..], reflectIn)
  }

  lemma {:induction false} PackedBits(bits: seq<bool>, reflectIn: bool)
    requires |bits| % CHAR_BIT == 0
    ensures MessageBits(Pack(bits, reflectIn), reflectIn) == bits
  {
    if bits != [] {
      RevRev(bits[..CHAR_BIT]);
      PackedBits(bits[CHAR_BIT..], reflectIn);
      var data := Pack(bits, reflectIn);
      assert data[1..] == Pack(bits[CHAR_BIT..], reflectIn);
    }
  }

  /** A remainder's bytes, most significant first. */
  function BigEndian(rem: Word): (data: seq<Byte>)
    requires |rem| % CHAR_BIT == 0
  {
    Pack(Rev(rem), false)
  }

  /** The remainder of the un-reflected message, with zero initial remainder and final xor. */
  function PlainChecksum(poly: Word, data: seq<Byte>): (r: Word)
    requires |poly| > 0
  {
    ChecksumOf(Parameters(poly, Zeros(|poly|), Zeros(|poly|), false, false), data)
  }

  lemma PlainChecksumIsDivision(poly: Word, data: seq<Byte>)
    requires |poly| > 0
    ensures PlainChecksum(poly, data) == Steps(Zeros(|poly|), poly, MessageBits(data, false))
  {
    var r := Steps(Zeros(|poly|), poly, MessageBits(data, false));
    XorLaws(r, r, r);
  }

  /** augmented_crc from zero: over the message and one zero byte per checksum byte it is the
      plain checksum, and over the message and any other tail of that length it is zero exactly
      when the tail is that checksum, most significant byte first. */
  lemma AugmentedCrcLaws(poly: Word, data: seq<Byte>, tail: Word)
    requires |poly| == |tail| > 0 && |poly| % CHAR_BIT == 0
    ensures AugSteps(Zeros(|poly|), poly, MessageBits(data + BigEndian(Zeros(|poly|)), false))
         == PlainChecksum(poly, data)
    ensures AugSteps(Zeros(|poly|), poly, MessageBits(data + BigEndian(tail), false)) == Zeros(|poly|)
       <==> tail == PlainChecksum(poly, data)
  {
    var n := |poly|;
    MessageBitsConcat(data, BigEndian(Zeros(n)), false);
    MessageBitsConcat(data, BigEndian(tail), false);
    PackedBits(Rev(Zeros(n)), false);
    PackedBits(Rev(tail), false);
    assert Rev(Zeros(n)) == Zeros(n);
    StepsZero(poly, n);
    AugmentedIsDirect(Zeros(n), poly, MessageBits(data, false));
    AugmentedTail(Zeros(n), poly, MessageBits(data, false), tail);
    PlainChecksumIsDivision(poly, data);
  }

  /** A non-zero start: augmented_crc from a remainder is the plain form started from the
      division of that remainder's own bits. */
  lemma AugmentedCrcStart(poly: Word, start: Word, data: seq<Byte>)
    requires |poly| == |start| > 0 && |poly| % CHAR_BIT == 0
    ensures AugSteps(start, poly, MessageBits(data + BigEndian(Zeros(|poly|)), false))
         == PlainChecksum(poly, BigEndian(start) + data)
  {
    var n := |poly|;
    MessageBitsConcat(data, BigEndian(Zeros(n)), false);
    MessageBitsConcat(BigEndian(start), data, false);
    PackedBits(Rev(Zeros(n)), false);
    PackedBits(Rev(start), false);
    assert Rev(Zeros(n)) == Zeros(n);
    AugmentedIsDirect(start, poly, MessageBits(data, false));
    TimesXnIsDivision(start, poly);
    StepsConcat(Zeros(n), poly, Rev(start), MessageBits(data, false));
    PlainChecksumIsDivision(poly, BigEndian(start) + data);
  }

  // ---- error detection

  lemma FinishInjective(r: Word, s: Word, final: Word, reflectRem: bool)
    requires |r| == |s| == |final|
    ensures Finish(r, final, reflectRem) == Finish(s, final, reflectRem) <==> r == s
  {
    var x, y := if reflectRem then Rev(r) else r, if reflectRem then Rev(s) else s;
    RevRev(r);
    RevRev(s);
    XorPairs(x, y, final);
    XorEqual(x, y);
    XorEqual(Xor(x, final), Xor(y, final));
  }

  /** A checksum with these parameters tells apart any two messages that differ in one burst no
      longer than the checksum. */
  ghost predicate DetectsBursts(p: Parameters)
    requires p.Valid()
  {
    forall a: seq<Byte>, b: seq<Byte> |
      DiffersInBurst(MessageBits(a, p.reflectIn), MessageBits(b, p.reflectIn), |p.poly|) ::
      ChecksumOf(p, a) != ChecksumOf(p, b)
  }

  lemma ConstantTermDetects(p: Parameters)
    requires p.Valid() && p.poly[0]
    ensures DetectsBursts(p)
  {
    forall a: seq<Byte>, b: seq<Byte> |
      DiffersInBurst(MessageBits(a, p.reflectIn), MessageBits(b, p.reflectIn), |p.poly|)
      ensures ChecksumOf(p, a) != ChecksumOf(p, b)
    {
      var x, y := MessageBits(a, p.reflectIn), MessageBits(b, p.reflectIn);
      BurstDetected(p.init, p.poly, x, y);
      FinishInjective(Steps(p.init, p.poly, x), Steps(p.init, p.poly, y), p.final, p.reflectRem);
    }
  }

  /** The bits that n bits lack to whole bytes. */
  function Padding(n: nat): (k: nat)
    ensures (k + n) % CHAR_BIT == 0 && k < CHAR_BIT
  {
    (CHAR_BIT - n % CHAR_BIT) % CHAR_BIT
  }

  /** For a width that does not fill whole bytes, zeros in front of the burst make up the first. */
  lemma NoConstantTermMisses(p: Parameters)
    requires p.Valid() && !p.poly[0]
    ensures !DetectsBursts(p)
  {
    hide DiffersInBurst, DetectsBursts, Steps, Padding;
    var n := |p.poly|;
    var front, burst := Zeros(Padding(n)), Rev(p.poly[1..] + [true]);
    BurstMissed(p.poly);
    assert burst != Zeros(n) by {
      assert burst[0];
    }
    MissedBehind(p.init, p.poly, front, burst);
    BurstBehind(front, burst, Zeros(n), n);
    SameChecksum(p, front + burst, front + Zeros(n));
  }

  lemma SameChecksum(p: Parameters, x: seq<bool>, y: seq<bool>)
    requires p.Valid() && |x| % CHAR_BIT == |y| % CHAR_BIT == 0
    requires DiffersInBurst(x, y, |p.poly|) && Steps(p.init, p.poly, x) == Steps(p.init, p.poly, y)
    ensures !DetectsBursts(p)
  {
    hide DiffersInBurst, Steps;
    PackedBits(x, p.reflectIn);
    PackedBits(y, p.reflectIn);
    assert ChecksumOf(p, Pack(x, p.reflectIn)) == ChecksumOf(p, Pack(y, p.reflectIn));
  }

  lemma BurstBehind(front: seq<bool>, x: seq<bool>, y: seq<bool>, n: nat)
    requires |x| == |y| <= n && x != y
    ensures DiffersInBurst(front + x, front + y, n)
  {
    CutAppend(front, x);
    CutAppend(front, y);
    WithEmpty(front + x);
    WithEmpty(front + y);
  }

  /** What vanishes from zero vanishes from every start and behind every front. */
  lemma MissedBehind(init: Word, poly: Word, front: seq<bool>, burst: seq<bool>)
    requires |init| == |poly| == |burst| > 0
    requires Steps(Zeros(|poly|), poly, burst) == Steps(Zeros(|poly|), poly, Zeros(|poly|))
    ensures Steps(init, poly, front + burst) == Steps(init, poly, front + Zeros(|poly|))
  {
    hide Steps, Step, Xor;
    var n := |poly|;
    var s := Steps(init, poly, front);
    StepsConcat(init, poly, front, burst);
    StepsConcat(init, poly, front, Zeros(n));
    XorLaws(s, s, s);
    XorLaws(burst, burst, burst);
    StepsLinear(s, Zeros(n), poly, Zeros(n), burst);
    StepsLinear(s, Zeros(n), poly, Zeros(n), Zeros(n));
    XorLaws(Zeros(n), Zeros(n), Zeros(n));
  }

  lemma DetectsBurstsIff(p: Parameters)
    requires p.Valid()
    ensures DetectsBursts(p) <==> p.poly[0]
  {
    if p.poly[0] {
      ConstantTermDetects(p);
    } else {
      NoConstantTermMisses(p);
    }
  }

  // ---- the predefined computers

  /** A CRC type as it is written: numbers for the words. */
  datatype CrcType = CrcType(width: nat, poly: nat, init: nat, final: nat, reflectIn: bool, reflectRem: bool) {
    function Params(): Parameters {
      Parameters(ToWord(poly, width), ToWord(init, width), ToWord(final, width), reflectIn, reflectRem)
    }
  }

  const CRC_16 := CrcType(16, 0x8005, 0, 0, true, true)
  const CRC_CCITT := CrcType(16, 0x1021, 0xFFFF, 0, false, false)
  const CRC_XMODEM := CrcType(16, 0x8408, 0, 0, true, true)
  const CRC_32 := CrcType(32, 0x04C11DB7, 0xFFFFFFFF, 0xFFFFFFFF, true, true)

  lemma TypeDetectsIff(t: CrcType)
    requires t.width > 0
    ensures t.Params().Valid()
    ensures DetectsBursts(t.Params()) <==> t.poly % 2 == 1
  {
    DetectsBurstsIff(t.Params());
  }

  /** Three of the four predefined types detect every burst up to their width. crc_xmodem_type
      does not: its polynomial is written with its bits reversed and has lost its constant term. */
  lemma PredefinedTypes(t: CrcType)
    requires t == CRC_16 || t == CRC_CCITT || t == CRC_XMODEM || t == CRC_32
    ensures t.Params().Valid()
    ensures DetectsBursts(t.Params()) <==> t != CRC_XMODEM
  {
    hide DetectsBursts, Parameters.Valid;
    TypeDetectsIff(t);
  }
}
