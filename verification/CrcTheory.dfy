/** Division of bit sequences over GF(2) by a fixed polynomial, one bit at a time. A remainder of
    width n stands for a polynomial of degree below n; `poly` is the divisor without its x^n term. */
module CrcTheory {
  import opened Words

  /** One bit-serial step: bring the bit in at the top, shift, and divide when a one falls out. */
  function Step(rem: Word, poly: Word, bit: bool): (r: Word)
    requires |rem| == |poly| > 0
    ensures |r| == |rem|
  {
    if rem[|rem| - 1] != bit then Xor(Shl(rem), poly) else Shl(rem)
  }

  function Steps(rem: Word, poly: Word, bits: seq<bool>): (r: Word)
    requires |rem| == |poly| > 0
    ensures |r| == |rem|
    decreases |bits|
  {
    if bits == [] then rem else Steps(Step(rem, poly, bits[0]), poly, bits[1..])
  }

  /** One step of the augmented form: the bit enters at the bottom. */
  function AugStep(rem: Word, poly: Word, bit: bool): (r: Word)
    requires |rem| == |poly| > 0
    ensures |r| == |rem|
  {
    var shifted := ShlIn(rem, bit);
    if rem[|rem| - 1] then Xor(shifted, poly) else shifted
  }

  function AugSteps(rem: Word, poly: Word, bits: seq<bool>): (r: Word)
    requires |rem| == |poly| > 0
    ensures |r| == |rem|
    decreases |bits|
  {
    if bits == [] then rem else AugSteps(AugStep(rem, poly, bits[0]), poly, bits[1..])
  }

  // ---- runs over concatenated input

  lemma {:induction false} StepsConcat(rem: Word, poly: Word, a: seq<bool>, b: seq<bool>)
    requires |rem| == |poly| > 0
    ensures Steps(rem, poly, a + b) == Steps(Steps(rem, poly, a), poly, b)
    decreases |a|
  {
    if a == [] {
      assert a + b == b;
    } else {
      assert (a + b)[1..] == a[1..] + b;
      StepsConcat(Step(rem, poly, a[0]), poly, a[1..], b);
    }
  }

  lemma {:induction false} AugStepsConcat(rem: Word, poly: Word, a: seq<bool>, b: seq<bool>)
    requires |rem| == |poly| > 0
    ensures AugSteps(rem, poly, a + b) == AugSteps(AugSteps(rem, poly, a), poly, b)
    decreases |a|
  {
    if a == [] {
      assert a + b == b;
    } else {
      assert (a + b)[1..] == a[1..] + b;
      AugStepsConcat(AugStep(rem, poly, a[0]), poly, a[1..], b);
    }
  }

  lemma StepsSnoc(rem: Word, poly: Word, a: seq<bool>, bit: bool)
    requires |rem| == |poly| > 0
    ensures Steps(rem, poly, a + [bit]) == Step(Steps(rem, poly, a), poly, bit)
    ensures AugSteps(rem, poly, a + [bit]) == AugStep(AugSteps(rem, poly, a), poly, bit)
  {
    StepsConcat(rem, poly, a, [bit]);
    AugStepsConcat(rem, poly, a, [bit]);
  }

  // ---- linearity over GF(2)

  lemma StepLinear(r: Word, s: Word, poly: Word, a: bool, b: bool)
    requires |r| == |s| == |poly| > 0
    ensures Step(Xor(r, s), poly, a != b) == Xor(Step(r, poly, a), Step(s, poly, b))
  {
    ShlXor(r, s, a, b);
    XorPairs(Shl(r), Shl(s), poly);
  }

  lemma {:induction false} StepsLinear(r: Word, s: Word, poly: Word, a: seq<bool>, b: seq<bool>)
    requires |r| == |s| == |poly| > 0 && |a| == |b|
    ensures Steps(Xor(r, s), poly, Xor(a, b)) == Xor(Steps(r, poly, a), Steps(s, poly, b))
    decreases |a|
  {
    if a != [] {
      StepLinear(r, s, poly, a[0], b[0]);
      assert Xor(a, b)[1..] == Xor(a[1..], b[1..]);
      StepsLinear(Step(r, poly, a[0]), Step(s, poly, b[0]), poly, a[1..], b[1..]);
    }
  }

  lemma AugStepLinear(r: Word, s: Word, poly: Word, a: bool, b: bool)
    requires |r| == |s| == |poly| > 0
    ensures AugStep(Xor(r, s), poly, a != b) == Xor(AugStep(r, poly, a), AugStep(s, poly, b))
  {
    ShlXor(r, s, a, b);
    XorPairs(ShlIn(r, a), ShlIn(s, b), poly);
  }

  lemma {:induction false} AugStepsLinear(r: Word, s: Word, poly: Word, a: seq<bool>, b: seq<bool>)
    requires |r| == |s| == |poly| > 0 && |a| == |b|
    ensures AugSteps(Xor(r, s), poly, Xor(a, b)) == Xor(AugSteps(r, poly, a), AugSteps(s, poly, b))
    decreases |a|
  {
    if a != [] {
      AugStepLinear(r, s, poly, a[0], b[0]);
      assert Xor(a, b)[1..] == Xor(a[1..], b[1..]);
      AugStepsLinear(AugStep(r, poly, a[0]), AugStep(s, poly, b[0]), poly, a[1..], b[1..]);
    }
  }

  lemma {:induction false} StepsZero(poly: Word, k: nat)
    requires |poly| > 0
    ensures Steps(Zeros(|poly|), poly, Zeros(k)) == Zeros(|poly|)
    ensures AugSteps(Zeros(|poly|), poly, Zeros(k)) == Zeros(|poly|)
    decreases k
  {
    if k > 0 {
      assert Zeros(k)[1..] == Zeros(k - 1);
      assert Step(Zeros(|poly|), poly, false) == Zeros(|poly|);
      assert AugStep(Zeros(|poly|), poly, false) == Zeros(|poly|);
      StepsZero(poly, k - 1);
    }
  }

  // ---- a block of bits at a time

  /** The top k bits of a remainder, highest first; positions below bit 0 read as zero. */
  function Top(rem: Word, k: nat): (t: seq<bool>)
    ensures |t| == k && forall j :: 0 <= j < k ==> t[j] == (j < |rem| && rem[|rem| - 1 - j])
  {
    seq(k, j requires 0 <= j < k => j < |rem| && rem[|rem| - 1 - j])
  }

  lemma SplitStep(rem: Word, poly: Word, bit: bool)
    requires |rem| == |poly| > 0
    ensures Step(rem, poly, bit) == Xor(Step(Zeros(|rem|), poly, bit != rem[|rem| - 1]), Shl(rem))
  {
    assert Shl(Zeros(|rem|)) == Zeros(|rem|);
    XorLaws(Shl(rem), poly, poly);
    XorLaws(poly, poly, poly);
  }

  lemma TopOfShl(rem: Word, k: nat)
    requires |rem| > 0
    ensures Top(rem, k + 1) == [rem[|rem| - 1]] + Top(Shl(rem), k)
    ensures ShlBy(Shl(rem), k) == ShlBy(rem, k + 1)
  {
  }

  /** Dividing a block of any length k: only the division of (top bits xor block) from zero is
      needed; the rest of the remainder just shifts. Holds for every width, narrower than k too. */
  lemma {:induction false} BlockStep(rem: Word, poly: Word, block: seq<bool>)
    requires |rem| == |poly| > 0
    ensures Steps(rem, poly, block)
         == Xor(ShlBy(rem, |block|), Steps(Zeros(|rem|), poly, Xor(block, Top(rem, |block|))))
    decreases |block|
  {
    var n, k := |rem|, |block|;
    if k == 0 {
      assert ShlBy(rem, 0) == rem;
      XorLaws(rem, rem, rem);
    } else {
      var rest, next := block[1..], Shl(rem);
      var q := Step(Zeros(n), poly, block[0] != rem[n - 1]);
      var t := Top(next, k - 1);
      var mixed := Xor(rest, t);
      SplitStep(rem, poly, block[0]);
      BlockTail(rest, t, q, next, poly);
      BlockStep(next, poly, t);
      assert Steps(next, poly, t) == ShlBy(next, k - 1) by {
        XorLaws(t, t, t);
        StepsZero(poly, k - 1);
        XorLaws(ShlBy(next, k - 1), Zeros(n), Zeros(n));
      }
      TopOfShl(rem, k - 1);
      MixedBlock(block, rem[n - 1], t);
      assert Steps(Zeros(n), poly, Xor(block, Top(rem, k))) == Steps(q, poly, mixed);
      XorLaws(Steps(q, poly, mixed), ShlBy(rem, k), ShlBy(rem, k));
    }
  }

  lemma MixedBlock(block: seq<bool>, top: bool, t: seq<bool>)
    requires |block| == |t| + 1
    ensures Xor(block, [top] + t) == [block[0] != top] + Xor(block[1..], t)
  {
  }

  lemma BlockTail(rest: seq<bool>, t: seq<bool>, q: Word, next: Word, poly: Word)
    requires |rest| == |t| && |q| == |next| == |poly| > 0
    ensures Steps(Xor(q, next), poly, rest) == Xor(Steps(q, poly, Xor(rest, t)), Steps(next, poly, t))
  {
    XorLaws(rest, t, t);
    XorLaws(t, t, t);
    XorLaws(rest, rest, rest);
    StepsLinear(q, next, poly, Xor(rest, t), t);
  }

  /** The remainder with a block shifted in below it. */
  function Entered(rem: Word, block: seq<bool>): (r: Word)
    requires |block| <= |rem|
    ensures |r| == |rem|
  {
    Rev(block) + rem[..|rem| - |block|]
  }

  lemma EnteredNext(rem: Word, init: seq<bool>, last: bool)
    requires |init| < |rem|
    ensures Entered(rem, init)[|rem| - 1] == rem[|rem| - 1 - |init|]
    ensures ShlIn(Entered(rem, init), last) == Entered(rem, init + [last])
  {
    assert Rev(init + [last]) == [last] + Rev(init);
  }

  lemma TopNext(rem: Word, k: nat)
    requires k < |rem|
    ensures Top(rem, k + 1) == Top(rem, k) + [rem[|rem| - 1 - k]]
  {
  }

  /** The augmented form takes a block of at most n bits the same way: the block enters at the
      bottom and the division of the outgoing top bits is added. */
  lemma {:induction false} AugBlockStep(rem: Word, poly: Word, block: seq<bool>)
    requires |rem| == |poly| > 0 && |block| <= |rem|
    ensures AugSteps(rem, poly, block)
         == Xor(Entered(rem, block), Steps(Zeros(|rem|), poly, Top(rem, |block|)))
    decreases |block|
  {
    var n, k := |rem|, |block|;
    if k == 0 {
      assert Entered(rem, block) == rem;
      XorLaws(rem, rem, rem);
    } else {
      var last, init := block[k - 1], block[..k - 1];
      assert init + [last] == block;
      StepsSnoc(rem, poly, init, last);
      AugBlockStep(rem, poly, init);
      AugBlockNext(rem, poly, init, last);
    }
  }

  lemma AugBlockNext(rem: Word, poly: Word, init: seq<bool>, last: bool)
    requires |rem| == |poly| && |init| < |rem|
    ensures AugStep(Xor(Entered(rem, init), Steps(Zeros(|rem|), poly, Top(rem, |init|))), poly, last)
         == Xor(Entered(rem, init + [last]), Steps(Zeros(|rem|), poly, Top(rem, |init| + 1)))
  {
    var quot := Steps(Zeros(|rem|), poly, Top(rem, |init|));
    LoadStep(Entered(rem, init), quot, poly, last);
    EnteredNext(rem, init, last);
    TopNext(rem, |init|);
    StepsSnoc(Zeros(|rem|), poly, Top(rem, |init|), rem[|rem| - 1 - |init|]);
  }

  /** The step of the augmented form divides when either part's top bit falls out. */
  lemma LoadStep(low: Word, quot: Word, poly: Word, bit: bool)
    requires |low| == |quot| == |poly| > 0
    ensures AugStep(Xor(low, quot), poly, bit) == Xor(ShlIn(low, bit), Step(quot, poly, low[|low| - 1]))
  {
    ShlXor(low, quot, bit, false);
    XorPairs(ShlIn(low, bit), Shl(quot), poly);
  }

  // ---- the augmented form against the direct form

  /** Multiplication by x^n modulo the polynomial. */
  function TimesXn(rem: Word, poly: Word): (r: Word)
    requires |rem| == |poly| > 0
    ensures |r| == |rem|
  {
    AugSteps(rem, poly, Zeros(|rem|))
  }

  /** The word for x^k. */
  function Unit(n: nat, k: nat): (r: Word)
    requires k < n
    ensures |r| == n
  {
    Zeros(k) + [true] + Zeros(n - 1 - k)
  }

  lemma UnitShifts(n: nat, k: nat)
    requires k + 1 < n
    ensures ShlIn(Unit(n, k), false) == Unit(n, k + 1) && !Unit(n, k)[n - 1]
  {
  }

  lemma {:induction false} OneShifts(poly: Word, k: nat)
    requires 0 <= k < |poly|
    ensures AugSteps(Unit(|poly|, 0), poly, Zeros(k)) == Unit(|poly|, k)
    decreases k
  {
    if k > 0 {
      assert Zeros(k) == Zeros(k - 1) + [false];
      StepsSnoc(Unit(|poly|, 0), poly, Zeros(k - 1), false);
      OneShifts(poly, k - 1);
      UnitShifts(|poly|, k - 1);
    }
  }

  lemma OneTimesXn(poly: Word)
    requires |poly| > 0
    ensures TimesXn(Unit(|poly|, 0), poly) == poly
  {
    var n := |poly|;
    assert Zeros(n) == Zeros(n - 1) + [false];
    StepsSnoc(Unit(n, 0), poly, Zeros(n - 1), false);
    OneShifts(poly, n - 1);
    assert ShlIn(Unit(n, n - 1), false) == Zeros(n);
    XorLaws(poly, Zeros(n), poly);
  }

  lemma EnteringBit(rem: Word, poly: Word)
    requires |rem| == |poly| > 0
    ensures AugStep(rem, poly, true) == Xor(AugStep(rem, poly, false), Unit(|rem|, 0))
    ensures Step(rem, poly, true) == Xor(Step(rem, poly, false), poly)
    ensures AugStep(rem, poly, false) == Step(rem, poly, false)
  {
    assert ShlIn(rem, true) == Xor(ShlIn(rem, false), Unit(|rem|, 0));
    XorPairs(ShlIn(rem, false), Unit(|rem|, 0), poly);
    XorPairs(Shl(rem), poly, poly);
    XorLaws(Shl(rem), poly, poly);
    XorLaws(poly, poly, poly);
  }

  lemma ShiftFirst(rem: Word, poly: Word)
    requires |rem| == |poly| > 0
    ensures TimesXn(AugStep(rem, poly, false), poly) == AugStep(TimesXn(rem, poly), poly, false)
  {
    var n := |rem|;
    assert [false] + Zeros(n) == Zeros(n) + [false];
    StepsSnoc(rem, poly, Zeros(n), false);
    assert ([false] + Zeros(n))[1..] == Zeros(n);
  }

  /** Multiplying by x^n turns an augmented step into a direct step. */
  lemma TimesXnStep(rem: Word, poly: Word, bit: bool)
    requires |rem| == |poly| > 0
    ensures TimesXn(AugStep(rem, poly, bit), poly) == Step(TimesXn(rem, poly), poly, bit)
  {
    var n := |rem|;
    ShiftFirst(rem, poly);
    EnteringBit(rem, poly);
    EnteringBit(TimesXn(rem, poly), poly);
    XorLaws(Zeros(n), Zeros(n), Zeros(n));
    AugStepsLinear(AugStep(rem, poly, false), Unit(n, 0), poly, Zeros(n), Zeros(n));
    OneTimesXn(poly);
  }

  /** Running the augmented form over a message followed by n zero bits is running the direct
      form over the message, the starting remainder multiplied by x^n. */
  lemma {:induction false} AugmentedIsDirect(rem: Word, poly: Word, bits: seq<bool>)
    requires |rem| == |poly| > 0
    ensures AugSteps(rem, poly, bits + Zeros(|rem|)) == Steps(TimesXn(rem, poly), poly, bits)
    decreases |bits|
  {
    if bits == [] {
      assert bits + Zeros(|rem|) == Zeros(|rem|);
    } else {
      assert (bits + Zeros(|rem|))[1..] == bits[1..] + Zeros(|rem|);
      TimesXnStep(rem, poly, bits[0]);
      AugmentedIsDirect(AugStep(rem, poly, bits[0]), poly, bits[1..]);
    }
  }

  /** Feeding n bits into the augmented form from zero just loads them. */
  lemma AugmentedLoads(rem: Word, poly: Word)
    requires |rem| == |poly| > 0
    ensures AugSteps(Zeros(|rem|), poly, Rev(rem)) == rem
  {
    var n := |rem|;
    AugBlockStep(Zeros(n), poly, Rev(rem));
    RevRev(rem);
    assert Entered(Zeros(n), Rev(rem)) == rem;
    assert Top(Zeros(n), n) == Zeros(n);
    StepsZero(poly, n);
    XorLaws(rem, Zeros(n), Zeros(n));
  }

  /** x^n times a remainder is the direct division of its own bits. */
  lemma TimesXnIsDivision(rem: Word, poly: Word)
    requires |rem| == |poly| > 0
    ensures TimesXn(rem, poly) == Steps(Zeros(|rem|), poly, Rev(rem))
  {
    var n := |rem|;
    AugmentedLoads(rem, poly);
    AugStepsConcat(Zeros(n), poly, Rev(rem), Zeros(n));
    AugmentedIsDirect(Zeros(n), poly, Rev(rem));
    StepsZero(poly, n);
  }

  /** The augmented run over a message and any n-bit tail is the run over the message and zeros,
      with the tail added in: it vanishes exactly when the tail is the message's remainder. */
  lemma AugmentedTail(rem: Word, poly: Word, bits: seq<bool>, tail: Word)
    requires |rem| == |poly| == |tail| > 0
    ensures AugSteps(rem, poly, bits + Rev(tail)) == Xor(AugSteps(rem, poly, bits + Zeros(|rem|)), tail)
    ensures AugSteps(rem, poly, bits + Rev(tail)) == Zeros(|rem|)
       <==> tail == Steps(TimesXn(rem, poly), poly, bits)
  {
    var n := |rem|;
    var mid := AugSteps(rem, poly, bits);
    AugStepsConcat(rem, poly, bits, Rev(tail));
    AugStepsConcat(rem, poly, bits, Zeros(n));
    XorLaws(mid, Zeros(n), Zeros(n));
    XorLaws(Rev(tail), Zeros(n), Zeros(n));
    AugStepsLinear(mid, Zeros(n), poly, Zeros(n), Rev(tail));
    AugmentedLoads(tail, poly);
    AugmentedIsDirect(rem, poly, bits);
    XorEqual(AugSteps(rem, poly, bits + Zeros(n)), tail);
  }

  // ---- what a remainder is for: detecting bursts of errors

  lemma {:induction false} StepsInjective(r: Word, s: Word, poly: Word, bits: seq<bool>)
    requires |r| == |s| == |poly| > 0 && poly[0] && r != s
    ensures Steps(r, poly, bits) != Steps(s, poly, bits)
    decreases |bits|
  {
    if bits != [] {
      StepInjective(r, s, poly, bits[0]);
      StepsInjective(Step(r, poly, bits[0]), Step(s, poly, bits[0]), poly, bits[1..]);
    }
  }

  lemma StepInjective(r: Word, s: Word, poly: Word, bit: bool)
    requires |r| == |s| == |poly| > 0 && poly[0] && r != s
    ensures Step(r, poly, bit) != Step(s, poly, bit)
  {
    StepLinear(r, s, poly, bit, bit);
    XorEqual(r, s);
    XorEqual(Step(r, poly, bit), Step(s, poly, bit));
    StepNonZero(Xor(r, s), poly);
  }

  lemma StepNonZero(x: Word, poly: Word)
    requires |x| == |poly| > 0 && poly[0] && x != Zeros(|x|)
    ensures Step(x, poly, false) != Zeros(|x|)
  {
    if x[|x| - 1] {
      assert Step(x, poly, false)[0];
    } else {
      var i :| 0 <= i < |x| && x[i];
      assert Step(x, poly, false)[i + 1];
    }
  }

  /** Two messages that agree outside a window of at most n bits. */
  ghost predicate DiffersInBurst(a: seq<bool>, b: seq<bool>, n: nat)
  {
    a != b && exists pre: seq<bool>, x: seq<bool>, y: seq<bool>, post: seq<bool> ::
      |x| == |y| <= n && a == pre + x + post && b == pre + y + post
  }

  /** Dividing n bits from zero vanishes only on zeros. */
  lemma FullWindowDivides(poly: Word, w: Word)
    requires |poly| == |w| > 0 && poly[0] && w != Zeros(|w|)
    ensures Steps(Zeros(|poly|), poly, Rev(w)) != Zeros(|poly|)
  {
    TimesXnIsDivision(w, poly);
    AugIsStepOnZeros(w, poly, |w|);
    StepsZero(poly, |w|);
    StepsInjective(w, Zeros(|w|), poly, Zeros(|w|));
  }

  lemma PaddedNonZero(gap: nat, e: seq<bool>)
    requires e != Zeros(|e|)
    ensures Rev(Zeros(gap) + e) != Zeros(gap + |e|)
  {
    var i :| 0 <= i < |e| && e[i];
    assert (Zeros(gap) + e)[gap + i];
    assert Rev(Zeros(gap) + e)[|e| - 1 - i];
  }

  lemma WindowDivides(poly: Word, e: seq<bool>)
    requires |poly| > 0 && poly[0] && |e| <= |poly| && e != Zeros(|e|)
    ensures Steps(Zeros(|poly|), poly, e) != Zeros(|poly|)
  {
    var gap := |poly| - |e|;
    PaddedNonZero(gap, e);
    FullWindowDivides(poly, Rev(Zeros(gap) + e));
    RevRev(Zeros(gap) + e);
    StepsConcat(Zeros(|poly|), poly, Zeros(gap), e);
    StepsZero(poly, gap);
  }

  lemma {:induction false} AugIsStepOnZeros(rem: Word, poly: Word, k: nat)
    requires |rem| == |poly| > 0
    ensures AugSteps(rem, poly, Zeros(k)) == Steps(rem, poly, Zeros(k))
    decreases k
  {
    if k > 0 {
      assert Zeros(k)[1..] == Zeros(k - 1);
      EnteringBit(rem, poly);
      AugIsStepOnZeros(Step(rem, poly, false), poly, k - 1);
    }
  }

  lemma BurstDetected(rem: Word, poly: Word, a: seq<bool>, b: seq<bool>)
    requires |rem| == |poly| > 0 && poly[0] && DiffersInBurst(a, b, |poly|)
    ensures Steps(rem, poly, a) != Steps(rem, poly, b)
  {
    var n := |rem|;
    var pre: seq<bool>, x: seq<bool>, y: seq<bool>, post: seq<bool> :|
      |x| == |y| <= n && a == pre + x + post && b == pre + y + post;
    var s := Steps(rem, poly, pre);
    StepsConcat(rem, poly, pre + x, post);
    StepsConcat(rem, poly, pre, x);
    StepsConcat(rem, poly, pre + y, post);
    StepsConcat(rem, poly, pre, y);
    XorEqual(x, y);
    XorLaws(s, s, s);
    StepsLinear(s, s, poly, x, y);
    WindowDivides(poly, Xor(x, y));
    XorEqual(Steps(s, poly, x), Steps(s, poly, y));
    StepsInjective(Steps(s, poly, x), Steps(s, poly, y), poly, post);
  }

  /** A polynomial with no constant term misses this n-bit burst, whatever follows it. */
  lemma BurstMissed(poly: Word)
    requires |poly| > 0 && !poly[0]
    ensures var burst := Rev(poly[1..] + [true]);
            DiffersInBurst(burst, Zeros(|poly|), |poly|)
            && Steps(Zeros(|poly|), poly, burst) == Steps(Zeros(|poly|), poly, Zeros(|poly|))
  {
    var n := |poly|;
    var w := poly[1..] + [true];
    var burst := Rev(w);
    BurstWindow(burst, Zeros(n), n);
    TimesXnIsDivision(w, poly);
    QuotientTimesXn(poly);
    StepsZero(poly, n);
  }

  lemma QuotientTimesXn(poly: Word)
    requires |poly| > 0 && !poly[0]
    ensures TimesXn(poly[1..] + [true], poly) == Zeros(|poly|)
  {
    QuotientVanishes(poly);
    assert Zeros(|poly|) == [false] + Zeros(|poly| - 1);
    AugStepsConcat(poly[1..] + [true], poly, [false], Zeros(|poly| - 1));
    StepsZero(poly, |poly| - 1);
  }

  lemma BurstWindow(a: seq<bool>, b: seq<bool>, n: nat)
    requires |a| == |b| == n > 0 && a[0] != b[0]
    ensures DiffersInBurst(a, b, n)
  {
    assert a == [] + a + [] && b == [] + b + [];
  }

  lemma QuotientVanishes(poly: Word)
    requires |poly| > 0 && !poly[0]
    ensures AugStep(poly[1..] + [true], poly, false) == Zeros(|poly|)
  {
    var w := poly[1..] + [true];
    assert ShlIn(w, false) == poly;
    XorLaws(poly, poly, poly);
  }

  /** Every burst of at most n bits changes the remainder exactly when the polynomial has a
      constant term. */
  lemma BurstsDetectedIff(poly: Word)
    requires |poly| > 0
    ensures (forall rem: Word, a: seq<bool>, b: seq<bool> | |rem| == |poly| && DiffersInBurst(a, b, |poly|) ::
               Steps(rem, poly, a) != Steps(rem, poly, b))
       <==> poly[0]
  {
    if poly[0] {
      forall rem: Word, a: seq<bool>, b: seq<bool> | |rem| == |poly| && DiffersInBurst(a, b, |poly|)
        ensures Steps(rem, poly, a) != Steps(rem, poly, b)
      {
        BurstDetected(rem, poly, a, b);
      }
    } else {
      BurstMissed(poly);
      var burst := Rev(poly[1..] + [true]);
      assert DiffersInBurst(burst, Zeros(|poly|), |poly|);
    }
  }
}
