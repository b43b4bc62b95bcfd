/** Fixed-width machine words as bit sequences. Index 0 is the least significant bit, so the
    value 1 of width 3 is [true, false, false]. Widths are unbounded. */
module Words {

  type Word = seq<bool>

  const CHAR_BIT: nat := 8

  type Byte = w: Word | |w| == CHAR_BIT witness [false, false, false, false, false, false, false, false]

  function Zeros(n: nat): (r: Word)
    ensures |r| == n
  {
    seq(n, i => false)
  }

  function Xor(a: Word, b: Word): (r: Word)
    requires |a| == |b|
    ensures |r| == |a|
  {
    seq(|a|, i requires 0 <= i < |a| => a[i] != b[i])
  }

  /** `a << 1` inside the width of `a`. */
  function Shl(a: Word): (r: Word)
    requires |a| > 0
    ensures |r| == |a|
  {
    ShlIn(a, false)
  }

  /** `(a << 1) | bit` inside the width of `a`. */
  function ShlIn(a: Word, bit: bool): (r: Word)
    requires |a| > 0
    ensures |r| == |a|
  {
    [bit] + a[..|a| - 1]
  }

  /** `a << k` inside the width of `a`, for any k. */
  function ShlBy(a: Word, k: nat): (r: Word)
    ensures |r| == |a|
  {
    seq(|a|, i requires 0 <= i < |a| => i >= k && a[i - k])
  }

  /** `a >> k` inside the width of `a`, for any k. */
  function ShrBy(a: Word, k: nat): (r: Word)
    ensures |r| == |a|
  {
    seq(|a|, i requires 0 <= i < |a| => i + k < |a| && a[i + k])
  }

  /** The word read from its other end. A word reversed is also its list of bits, highest first. */
  function Rev(a: Word): (r: Word)
    ensures |r| == |a|
  {
    seq(|a|, i requires 0 <= i < |a| => a[|a| - 1 - i])
  }

  /** The word with only the low `n` bits kept (`a & sig_bits`). */
  function Mask(a: Word, n: nat): (r: Word)
    requires n <= |a|
    ensures |r| == |a| && r[..n] == a[..n] && forall i :: n <= i < |a| ==> !r[i]
  {
    a[..n] + Zeros(|a| - n)
  }

  lemma XorLaws(a: Word, b: Word, c: Word)
    requires |a| == |b| == |c|
    ensures Xor(a, b) == Xor(b, a)
    ensures Xor(Xor(a, b), c) == Xor(a, Xor(b, c))
    ensures Xor(a, a) == Zeros(|a|)
    ensures Xor(a, Zeros(|a|)) == a == Xor(Zeros(|a|), a)
  {
  }

  lemma XorEqual(a: Word, b: Word)
    requires |a| == |b|
    ensures Xor(a, b) == Zeros(|a|) <==> a == b
  {
    if Xor(a, b) == Zeros(|a|) {
      forall i | 0 <= i < |a| ensures a[i] == b[i] {
        assert !Xor(a, b)[i];
      }
    }
  }

  lemma XorPairs(a: Word, b: Word, p: Word)
    requires |a| == |b| == |p|
    ensures Xor(Xor(a, p), Xor(b, p)) == Xor(a, b)
    ensures Xor(Xor(a, p), b) == Xor(Xor(a, b), p) == Xor(a, Xor(b, p))
  {
  }

  lemma ShlXor(r: Word, s: Word, a: bool, b: bool)
    requires |r| == |s| > 0
    ensures ShlIn(Xor(r, s), a != b) == Xor(ShlIn(r, a), ShlIn(s, b))
    ensures Shl(Xor(r, s)) == Xor(Shl(r), Shl(s))
  {
  }

  lemma RevRev(a: Word)
    ensures Rev(Rev(a)) == a
  {
  }

  lemma RevXor(a: Word, b: Word)
    requires |a| == |b|
    ensures Rev(Xor(a, b)) == Xor(Rev(a), Rev(b))
  {
  }

  /** The number a word stands for. */
  function Value(w: Word): (v: nat)
    ensures v < Pow2(|w|)
  {
    if w == [] then 0 else (if w[0] then 1 else 0) + 2 * Value(w[1..])
  }

  function Pow2(n: nat): (r: nat)
    ensures r > 0
  {
    if n == 0 then 1 else 2 * Pow2(n - 1)
  }

  /** Bit i of a number. */
  predicate Bit(v: nat, i: nat) {
    if i == 0 then v % 2 == 1 else Bit(v / 2, i - 1)
  }

  /** The word of width `n` that stands for `v`. */
  function ToWord(v: nat, n: nat): (w: Word)
    ensures |w| == n
  {
    seq(n, i requires 0 <= i < n => Bit(v, i))
  }

  lemma ToWordTail(v: nat, n: nat)
    ensures ToWord(v, n + 1) == [v % 2 == 1] + ToWord(v / 2, n)
  {
  }

  lemma {:induction false} ToWordValue(w: Word)
    ensures ToWord(Value(w), |w|) == w
  {
    if w != [] {
      ToWordValue(w[1..]);
      ToWordTail(Value(w), |w| - 1);
    }
  }

  lemma {:induction false} ValueToWord(v: nat, n: nat)
    requires v < Pow2(n)
    ensures Value(ToWord(v, n)) == v
  {
    if n > 0 {
      ValueToWord(v / 2, n - 1);
      ToWordTail(v, n - 1);
    }
  }
}
