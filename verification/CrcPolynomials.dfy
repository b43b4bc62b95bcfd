/** Checksums as remainders of polynomials over GF(2). A polynomial is the list of its coefficients, the
    highest first; the lists here have fixed lengths, so leading zeros count. */
module CrcPolynomials {
  import opened Seqs
  import opened Words
  import opened CrcTheory
  import opened Crc

  type Poly = seq<bool>

  function Nought(n: nat): (a: Poly)
    ensures |a| == n && forall i :: 0 <= i < n ==> !a[i]
  {
    seq(n, _ => false)
  }

  function Plus(a: Poly, b: Poly): (c: Poly)
    requires |a| == |b|
    ensures |c| == |a| && forall i :: 0 <= i < |a| ==> (c[i] <==> a[i] != b[i])
  {
    seq(|a|, i requires 0 <= i < |a| => a[i] != b[i])
  }

  /** The product with a divisor, by Horner's rule. */
  function Times(q: Poly, d: Poly): (c: Poly)
    requires d != []
    ensures |c| == |q| + |d| - 1
    decreases |q|
  {
    if q == [] then Nought(|d| - 1)
    else
      var n := |q| - 1;
      Plus(Times(q[..n], d) + [false], Nought(n) + if q[n] then d else Nought(|d|))
  }

  /** `a = q d + r`, where the remainder r has as many coefficients as d without its highest one. */
  ghost predicate Divides(a: Poly, d: Poly, q: Poly, r: Poly) {
    && d != [] && |a| == |q| + |r| && |r| == |d| - 1
    && a == Plus(Times(q, d), Nought(|q|) + r)
  }

  // ---- a division has one outcome

  /** The highest coefficients of a product come from those of the quotient. */
  lemma TimesAt(q: Poly, c: bool, d: Poly, k: nat)
    requires d != [] && d[0] && k <= |q|
    ensures var a := Times(q, d) + [false]; Times(q + [c], d)[k] <==> a[k] != (k == |q| && c)
  {
    TimesNext(q, c, d);
  }

  lemma {:induction false} TimesInjective(q: Poly, p: Poly, d: Poly)
    requires d != [] && d[0] && |q| == |p| && forall k :: 0 <= k < |q| ==> Times(q, d)[k] == Times(p, d)[k]
    ensures q == p
    decreases |q|
  {
    hide Times;
    if q != [] {
      var n := |q| - 1;
      var x, y := q[..n], p[..n];
      Snoc(q);
      Snoc(p);
      forall k | 0 <= k < n ensures Times(x, d)[k] == Times(y, d)[k] {
        TimesAt(x, q[n], d, k);
        TimesAt(y, p[n], d, k);
      }
      TimesInjective(x, y, d);
      TimesAt(x, q[n], d, n);
      TimesAt(y, p[n], d, n);
    }
  }

  /** Quotient and remainder by a divisor with highest coefficient one are unique. */
  lemma DivisionUnique(a: Poly, d: Poly, q: Poly, r: Poly, p: Poly, s: Poly)
    requires d != [] && d[0] && Divides(a, d, q, r) && Divides(a, d, p, s)
    ensures q == p && r == s
  {
    var n := |q|;
    var x, y := Times(q, d), Times(p, d);
    forall i | 0 <= i < n ensures x[i] == y[i] {
      assert a[i] == Plus(x, Nought(n) + r)[i] == Plus(y, Nought(n) + s)[i];
    }
    TimesInjective(q, p, d);
    forall i | 0 <= i < |r| ensures r[i] == s[i] {
      assert a[n + i] == Plus(x, Nought(n) + r)[n + i] == Plus(x, Nought(n) + s)[n + i];
    }
  }

  // ---- bit-serial division is one

  /** The divisor of a CRC: the polynomial word with the highest coefficient, which it leaves out. */
  function Divisor(poly: Word): (d: Poly)
    ensures |d| == |poly| + 1 && d[0] && forall i :: 1 <= i <= |poly| ==> d[i] == poly[|poly| - i]
  {
    [true] + HighFirst(poly)
  }

  function HighFirst(w: Word): (a: Poly)
    ensures |a| == |w| && forall i :: 0 <= i < |w| ==> a[i] == w[|w| - 1 - i]
  {
    seq(|w|, i requires 0 <= i < |w| => w[|w| - 1 - i])
  }

  /** What is divided: the message times x^n, with the start remainder added at its front. */
  function Dividend(init: Word, bits: seq<bool>): (a: Poly) {
    Plus(HighFirst(init) + Nought(|bits|), bits + Nought(|init|))
  }

  function Quotient(init: Word, poly: Word, bits: seq<bool>): (q: Poly)
    requires |init| == |poly| > 0
    ensures |q| == |bits|
    decreases |bits|
  {
    if bits == [] then []
    else
      var n := |bits| - 1;
      var rem := Steps(init, poly, bits[..n]);
      Quotient(init, poly, bits[..n]) + [rem[|rem| - 1] != bits[n]]
  }

  lemma StepAt(rem: Word, poly: Word, bit: bool, i: nat)
    requires |rem| == |poly| > 0 && i < |rem|
    ensures Step(rem, poly, bit)[i] <==> (i > 0 && rem[i - 1]) != (rem[|rem| - 1] != bit && poly[i])
  {
  }

  /** One step on the coefficients: times x, the bit added, the divisor taken away. */
  lemma StepCoefficients(rem: Word, poly: Word, bit: bool)
    requires |rem| == |poly| > 0
    ensures var n := |rem|;
            Plus(HighFirst(rem) + [false], [bit] + Nought(n))
            == Plus(if rem[n - 1] != bit then Divisor(poly) else Nought(n + 1),
                    [false] + HighFirst(Step(rem, poly, bit)))
  {
    hide Step, Plus, HighFirst, Divisor, Nought;
    var n := |rem|;
    var r, s := HighFirst(rem), HighFirst(Step(rem, poly, bit));
    var part := if rem[n - 1] != bit then Divisor(poly) else Nought(n + 1);
    var a, b := Plus(r + [false], [bit] + Nought(n)), Plus(part, [false] + s);
    assert |a| == |b| == n + 1;
    forall k | 0 <= k <= n ensures a[k] == b[k] {
      assert a[k] == ((k < n && r[k]) != (k == 0 && bit));
      assert b[k] == (part[k] != (k > 0 && s[k - 1]));
      if k > 0 {
        StepAt(rem, poly, bit, n - k);
      }
    }
    assert a == b;
  }

  lemma {:induction false} StepsDivide(init: Word, poly: Word, bits: seq<bool>)
    requires |init| == |poly| > 0
    ensures Divides(Dividend(init, bits), Divisor(poly), Quotient(init, poly, bits),
                    HighFirst(Steps(init, poly, bits)))
    decreases |bits|
  {
    var n := |init|;
    if bits == [] {
      assert HighFirst(init) + Nought(0) == HighFirst(init);
    } else {
      var m := |bits| - 1;
      var front, bit := bits[..m], bits[m];
      StepsDivide(init, poly, front);
      Snoc(bits);
      StepsSnoc(init, poly, front, bit);
      DivideNext(init, poly, front, bit);
    }
  }

  /** Coefficient k of both sides, one step further. */
  lemma NextCoefficient(start: Poly, front: Poly, bit: bool, product: Poly, r: Poly, part: Poly, s: Poly, k: nat)
    requires |start| == |r| == |s| > 0 && |part| == |s| + 1 && |product| == |front| + |r| && k <= |front| + |r|
    requires Plus(start + Nought(|front|), front + Nought(|start|)) == Plus(product, Nought(|front|) + r)
    requires Plus(r + [false], [bit] + Nought(|r|)) == Plus(part, [false] + s)
    ensures Plus(start + Nought(|front| + 1), front + [bit] + Nought(|start|))[k]
         == Plus(Plus(product + [false], Nought(|front|) + part), Nought(|front| + 1) + s)[k]
  {
    var n, m := |r|, |front|;
    var a, b := Plus(start + Nought(m), front + Nought(n)), Plus(product, Nought(m) + r);
    if k < m + n {
      assert a[k] == b[k];
    }
    if k >= m {
      assert Plus(r + [false], [bit] + Nought(n))[k - m] == Plus(part, [false] + s)[k - m];
    }
  }

  lemma QuotientNext(init: Word, poly: Word, front: seq<bool>, bit: bool)
    requires |init| == |poly| > 0
    ensures var rem := Steps(init, poly, front);
            Quotient(init, poly, front + [bit]) == Quotient(init, poly, front) + [rem[|rem| - 1] != bit]
  {
    hide Steps;
    CutAppend(front, [bit]);
  }

  lemma TimesNext(q: Poly, c: bool, d: Poly)
    requires d != []
    ensures Times(q + [c], d)
         == Plus(Times(q, d) + [false], Nought(|q|) + if c then d else Nought(|d|))
  {
    hide Plus;
    CutAppend(q, [c]);
  }

  lemma NextCoefficients(start: Poly, front: Poly, bit: bool, product: Poly, r: Poly, part: Poly, s: Poly)
    requires |start| == |r| == |s| > 0 && |part| == |s| + 1 && |product| == |front| + |r|
    requires Plus(start + Nought(|front|), front + Nought(|start|)) == Plus(product, Nought(|front|) + r)
    requires Plus(r + [false], [bit] + Nought(|r|)) == Plus(part, [false] + s)
    ensures Plus(start + Nought(|front| + 1), front + [bit] + Nought(|start|))
         == Plus(Plus(product + [false], Nought(|front|) + part), Nought(|front| + 1) + s)
  {
    hide Plus, Nought;
    var a := Plus(start + Nought(|front| + 1), front + [bit] + Nought(|start|));
    var b := Plus(Plus(product + [false], Nought(|front|) + part), Nought(|front| + 1) + s);
    forall k | 0 <= k < |a| ensures a[k] == b[k] {
      NextCoefficient(start, front, bit, product, r, part, s, k);
    }
    assert a == b;
  }

  lemma DivideNext(init: Word, poly: Word, front: seq<bool>, bit: bool)
    requires |init| == |poly| > 0
    requires Divides(Dividend(init, front), Divisor(poly), Quotient(init, poly, front),
                     HighFirst(Steps(init, poly, front)))
    ensures Divides(Dividend(init, front + [bit]), Divisor(poly), Quotient(init, poly, front + [bit]),
                    HighFirst(Step(Steps(init, poly, front), poly, bit)))
  {
    hide Plus, Step, Steps, Quotient, Times, HighFirst, Divisor, Nought;
    var n, d, rem := |init|, Divisor(poly), Steps(init, poly, front);
    var q, c := Quotient(init, poly, front), rem[n - 1] != bit;
    var part := if c then d else Nought(n + 1);
    QuotientNext(init, poly, front, bit);
    TimesNext(q, c, d);
    StepCoefficients(rem, poly, bit);
    NextCoefficients(HighFirst(init), front, bit, Times(q, d), HighFirst(rem), part, HighFirst(Step(rem, poly, bit)));
  }

  // ---- checksums

  /** The bits of a message in the order of division: byte after byte, each from its lowest bit if bytes
      are reflected and from its highest if not. */
  ghost predicate InOrder(data: seq<Byte>, reflectIn: bool, bits: seq<bool>) {
    && |bits| == 8 * |data|
    && forall j :: 0 <= j < |bits| ==> bits[j] == data[j / 8][if reflectIn then j % 8 else 7 - j % 8]
  }

  lemma {:induction false} MessageInOrder(data: seq<Byte>, reflectIn: bool)
    ensures InOrder(data, reflectIn, MessageBits(data, reflectIn))
  {
    if data != [] {
      var rest := data[1..];
      MessageInOrder(rest, reflectIn);
      var bits := MessageBits(data, reflectIn);
      var first, later := ByteBits(data[0], reflectIn), MessageBits(rest, reflectIn);
      forall j | 0 <= j < |bits| ensures bits[j] == data[j / 8][if reflectIn then j % 8 else 7 - j % 8] {
        if j < 8 {
          assert bits[j] == first[j];
        } else {
          assert bits[j] == later[j - 8];
          assert rest[(j - 8) / 8] == data[j / 8] && (j - 8) % 8 == j % 8;
        }
      }
    }
  }

  lemma InOrderUnique(data: seq<Byte>, reflectIn: bool, a: seq<bool>, b: seq<bool>)
    requires InOrder(data, reflectIn, a) && InOrder(data, reflectIn, b)
    ensures a == b
  {
  }

  /** The checksum is the remainder of the dividend by the divisor, read from its low end, or from its
      high end if remainders are reflected, with the final value added. */
  lemma ChecksumIsRemainder(p: Parameters, data: seq<Byte>, bits: seq<bool>, q: Poly, r: Poly, i: nat)
    requires p.Valid() && i < |p.poly| && |r| == |p.poly|
    requires InOrder(data, p.reflectIn, bits) && Divides(Dividend(p.init, bits), Divisor(p.poly), q, r)
    ensures ChecksumOf(p, data)[i] <==> r[if p.reflectRem then i else |r| - 1 - i] != p.final[i]
  {
    MessageInOrder(data, p.reflectIn);
    InOrderUnique(data, p.reflectIn, bits, MessageBits(data, p.reflectIn));
    StepsDivide(p.init, p.poly, bits);
    var rem := Steps(p.init, p.poly, bits);
    DivisionUnique(Dividend(p.init, bits), Divisor(p.poly), q, r, Quotient(p.init, p.poly, bits), HighFirst(rem));
  }

  /** There is such a division for every message. */
  lemma RemainderExists(p: Parameters, data: seq<Byte>) returns (bits: seq<bool>, q: Poly, r: Poly)
    requires p.Valid()
    ensures InOrder(data, p.reflectIn, bits) && Divides(Dividend(p.init, bits), Divisor(p.poly), q, r)
  {
    bits := MessageBits(data, p.reflectIn);
    MessageInOrder(data, p.reflectIn);
    q, r := Quotient(p.init, p.poly, bits), HighFirst(Steps(p.init, p.poly, bits));
    StepsDivide(p.init, p.poly, bits);
  }
}
