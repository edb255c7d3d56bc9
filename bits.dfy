/** Fixed-width bit strings and the bitwise operators on naturals below 2^w.
    A bit string is most-significant bit first, as an address is written. Python's
    `&`, `|` and `^` on non-negative integers below 2^w agree with the operators here. */
module Bits {
  import opened Arith

  function BitValue(b: bool): nat
  {
    if b then 1 else 0
  }

  /** The value of a bit string, most significant bit first. */
  function FromBits(s: seq<bool>): (r: nat)
    ensures r < Pow2(|s|)
  {
    if s == [] then 0 else 2 * FromBits(s[..|s| - 1]) + BitValue(s[|s| - 1])
  }

  /** The `w` lowest bits of `n`, most significant first. */
  function ToBits(n: nat, w: nat): (s: seq<bool>)
    ensures |s| == w
  {
    if w == 0 then [] else ToBits(n / 2, w - 1) + [n % 2 == 1]
  }

  function Ones(k: nat): seq<bool>
  {
    seq(k, _ => true)
  }

  function Zeros(k: nat): seq<bool>
  {
    seq(k, _ => false)
  }

  function AndBits(a: seq<bool>, b: seq<bool>): seq<bool>
    requires |a| == |b|
  {
    seq(|a|, i requires 0 <= i < |a| => a[i] && b[i])
  }

  function OrBits(a: seq<bool>, b: seq<bool>): seq<bool>
    requires |a| == |b|
  {
    seq(|a|, i requires 0 <= i < |a| => a[i] || b[i])
  }

  function XorBits(a: seq<bool>, b: seq<bool>): seq<bool>
    requires |a| == |b|
  {
    seq(|a|, i requires 0 <= i < |a| => a[i] != b[i])
  }

  /** 2^w - 1, the all-ones value of width w (the library's ALL_ONES). */
  function AllOnes(w: nat): nat
  {
    Pow2(w) - 1
  }

  /** Bitwise AND of x and y below 2^w. */
  function And(x: nat, y: nat, w: nat): (r: nat)
    requires x < Pow2(w) && y < Pow2(w)
    ensures r < Pow2(w)
  {
    FromBits(AndBits(ToBits(x, w), ToBits(y, w)))
  }

  /** Bitwise OR of x and y below 2^w. */
  function Or(x: nat, y: nat, w: nat): (r: nat)
    requires x < Pow2(w) && y < Pow2(w)
    ensures r < Pow2(w)
  {
    FromBits(OrBits(ToBits(x, w), ToBits(y, w)))
  }

  /** Bitwise exclusive OR of x and y below 2^w. */
  function Xor(x: nat, y: nat, w: nat): (r: nat)
    requires x < Pow2(w) && y < Pow2(w)
    ensures r < Pow2(w)
  {
    FromBits(XorBits(ToBits(x, w), ToBits(y, w)))
  }

  /** Right shift by k of a non-negative integer: k halvings, each rounding down. */
  function ShiftRight(x: nat, k: nat): (r: nat)
    ensures r <= x
  {
    if k == 0 then x else ShiftRight(x / 2, k - 1)
  }

  lemma {:induction false} FromBitsSnoc(s: seq<bool>, b: bool)
    ensures FromBits(s + [b]) == 2 * FromBits(s) + BitValue(b)
  {
    assert (s + [b])[..|s|] == s;
  }

  /** Reading back the w-bit representation of a value below 2^w gives the value. */
  lemma {:induction false} FromToBits(n: nat, w: nat)
    requires n < Pow2(w)
    ensures FromBits(ToBits(n, w)) == n
  {
    if w > 0 {
      FromToBits(n / 2, w - 1);
      FromBitsSnoc(ToBits(n / 2, w - 1), n % 2 == 1);
    }
  }

  /** Writing out the value of a bit string at its own width gives the bit string. */
  lemma {:induction false} ToFromBits(s: seq<bool>)
    ensures ToBits(FromBits(s), |s|) == s
  {
    if s != [] {
      var init := s[..|s| - 1];
      ToFromBits(init);
      var v := FromBits(s);
      assert v / 2 == FromBits(init) && v % 2 == BitValue(s[|s| - 1]);
      assert s == init + [s[|s| - 1]];
    }
  }

  /** Two values below 2^w with the same w-bit representation are equal. */
  lemma {:induction false} ToBitsInjective(x: nat, y: nat, w: nat)
    requires x < Pow2(w) && y < Pow2(w) && ToBits(x, w) == ToBits(y, w)
    ensures x == y
  {
    FromToBits(x, w);
    FromToBits(y, w);
  }

  /** The value of a concatenation: the high part shifted left by the length of the low part. */
  lemma {:induction false} FromBitsAppend(s: seq<bool>, t: seq<bool>)
    ensures FromBits(s + t) == FromBits(s) * Pow2(|t|) + FromBits(t)
  {
    if t == [] {
      assert s + t == s;
    } else {
      var t', b := t[..|t| - 1], t[|t| - 1];
      assert s + t == (s + t') + [b];
      assert t == t' + [b];
      FromBitsAppend(s, t');
      FromBitsSnoc(s + t', b);
      FromBitsSnoc(t', b);
      var hi, lo, p := FromBits(s), FromBits(t'), Pow2(|t'|);
      assert Pow2(|t|) == 2 * p;
      assert FromBits(s + t) == 2 * (hi * p + lo) + BitValue(b);
      assert FromBits(t) == 2 * lo + BitValue(b);
      MulDouble(hi, p);
    }
  }

  lemma {:induction false} FromBitsZeros(k: nat)
    ensures FromBits(Zeros(k)) == 0
  {
    if k > 0 {
      assert Zeros(k)[..k - 1] == Zeros(k - 1);
      FromBitsZeros(k - 1);
    }
  }

  lemma {:induction false} FromBitsOnes(k: nat)
    ensures FromBits(Ones(k)) == Pow2(k) - 1
  {
    if k > 0 {
      assert Ones(k)[..k - 1] == Ones(k - 1);
      FromBitsOnes(k - 1);
    }
  }

  /** The bits of 2^k - 1 at width w >= k: w - k zeros, then k ones. */
  lemma {:induction false} LowOnesBits(k: nat, w: nat)
    requires k <= w
    ensures Pow2(k) - 1 < Pow2(w)
    ensures ToBits(Pow2(k) - 1, w) == Zeros(w - k) + Ones(k)
  {
    Pow2Monotone(k, w);
    var s := Zeros(w - k) + Ones(k);
    FromBitsAppend(Zeros(w - k), Ones(k));
    FromBitsZeros(w - k);
    FromBitsOnes(k);
    assert FromBits(s) == 0 * Pow2(k) + (Pow2(k) - 1);
    assert |s| == w;
    ToFromBits(s);
  }

  /** The bits of 2^w - 1 at width w: all ones. */
  lemma {:induction false} AllOnesBits(w: nat)
    ensures AllOnes(w) < Pow2(w)
    ensures ToBits(AllOnes(w), w) == Ones(w)
  {
    LowOnesBits(w, w);
    assert Zeros(0) + Ones(w) == Ones(w);
  }

  /** All ones XOR (k zeros then w - k ones) is k ones then w - k zeros. */
  lemma {:induction false} XorOnesLow(k: nat, w: nat)
    requires k <= w
    ensures XorBits(Ones(w), Zeros(k) + Ones(w - k)) == Ones(k) + Zeros(w - k)
  {
    var a, b := Zeros(k) + Ones(w - k), Ones(k) + Zeros(w - k);
    forall i | 0 <= i < w ensures XorBits(Ones(w), a)[i] == b[i] {
      if i < k { assert a[i] == false && b[i] == true; } else { assert a[i] == true && b[i] == false; }
    }
  }

  /** (k ones then w - k zeros) XOR all ones is k zeros then w - k ones. */
  lemma {:induction false} XorHighOnes(k: nat, w: nat)
    requires k <= w
    ensures XorBits(Ones(k) + Zeros(w - k), Ones(w)) == Zeros(k) + Ones(w - k)
  {
    var a, b := Ones(k) + Zeros(w - k), Zeros(k) + Ones(w - k);
    forall i | 0 <= i < w ensures XorBits(a, Ones(w))[i] == b[i] {
      if i < k { assert a[i] == true && b[i] == false; } else { assert a[i] == false && b[i] == true; }
    }
  }

  /** The bits of an AND, OR and XOR are the bitwise combinations of the operands' bits. */
  lemma {:induction false} BitsOfOps(x: nat, y: nat, w: nat)
    requires x < Pow2(w) && y < Pow2(w)
    ensures ToBits(And(x, y, w), w) == AndBits(ToBits(x, w), ToBits(y, w))
    ensures ToBits(Or(x, y, w), w) == OrBits(ToBits(x, w), ToBits(y, w))
    ensures ToBits(Xor(x, y, w), w) == XorBits(ToBits(x, w), ToBits(y, w))
  {
    ToFromBits(AndBits(ToBits(x, w), ToBits(y, w)));
    ToFromBits(OrBits(ToBits(x, w), ToBits(y, w)));
    ToFromBits(XorBits(ToBits(x, w), ToBits(y, w)));
  }

  /** The bits of an AND, OR and XOR in terms of known operand bits. */
  lemma {:induction false} AndBitsOf(x: nat, y: nat, w: nat, xs: seq<bool>, ys: seq<bool>)
    requires x < Pow2(w) && y < Pow2(w) && ToBits(x, w) == xs && ToBits(y, w) == ys
    ensures ToBits(And(x, y, w), w) == AndBits(xs, ys)
  {
    BitsOfOps(x, y, w);
  }

  lemma {:induction false} OrBitsOf(x: nat, y: nat, w: nat, xs: seq<bool>, ys: seq<bool>)
    requires x < Pow2(w) && y < Pow2(w) && ToBits(x, w) == xs && ToBits(y, w) == ys
    ensures ToBits(Or(x, y, w), w) == OrBits(xs, ys)
  {
    BitsOfOps(x, y, w);
  }

  lemma {:induction false} XorBitsOf(x: nat, y: nat, w: nat, xs: seq<bool>, ys: seq<bool>)
    requires x < Pow2(w) && y < Pow2(w) && ToBits(x, w) == xs && ToBits(y, w) == ys
    ensures ToBits(Xor(x, y, w), w) == XorBits(xs, ys)
  {
    BitsOfOps(x, y, w);
  }

  /** A value below 2^w is the value of its w-bit representation. */
  lemma {:induction false} ValueOfBits(x: nat, w: nat, xs: seq<bool>)
    requires x < Pow2(w) && ToBits(x, w) == xs
    ensures x == FromBits(xs)
  {
    FromToBits(x, w);
  }

  /** High bits followed by k zero-bits: the high part shifted left by k. */
  lemma {:induction false} FromBitsHighZeros(hi: seq<bool>, k: nat)
    ensures FromBits(hi + Zeros(k)) == FromBits(hi) * Pow2(k)
  {
    FromBitsAppend(hi, Zeros(k));
    FromBitsZeros(k);
  }

  /** High bits followed by k one-bits: the high part shifted left by k, plus 2^k - 1. */
  lemma {:induction false} FromBitsHighOnes(hi: seq<bool>, k: nat)
    ensures FromBits(hi + Ones(k)) == FromBits(hi) * Pow2(k) + Pow2(k) - 1
  {
    FromBitsAppend(hi, Ones(k));
    FromBitsOnes(k);
  }

  /** High bits with the low k bits cleared share no bit with a low mask of k ones. */
  lemma {:induction false} AndHighLow(hi: seq<bool>, k: nat)
    ensures AndBits(hi + Zeros(k), Zeros(|hi|) + Ones(k)) == Zeros(|hi| + k)
  {
    var a, b := hi + Zeros(k), Zeros(|hi|) + Ones(k);
    forall i | 0 <= i < |hi| + k ensures AndBits(a, b)[i] == false {
      if i < |hi| { assert b[i] == false; } else { assert a[i] == false; }
    }
  }

  /** Two values whose bits are k ones then w - k zeros, and k zeros then w - k ones,
      share no bit and together cover all w bits. */
  lemma {:induction false} MasksDisjoint(m: nat, h: nat, k: nat, w: nat)
    requires k <= w && m < Pow2(w) && h < Pow2(w)
    requires ToBits(m, w) == Ones(k) + Zeros(w - k) && ToBits(h, w) == Zeros(k) + Ones(w - k)
    ensures And(m, h, w) == 0
    ensures Or(m, h, w) == Pow2(w) - 1
  {
    var mbits, hbits := Ones(k) + Zeros(w - k), Zeros(k) + Ones(w - k);
    AndBitsOf(m, h, w, mbits, hbits);
    assert AndBits(mbits, hbits) == Zeros(w) by {
      forall i | 0 <= i < w ensures AndBits(mbits, hbits)[i] == false {
        if i < k { assert hbits[i] == false; } else { assert mbits[i] == false; }
      }
    }
    ValueOfBits(And(m, h, w), w, Zeros(w));
    FromBitsZeros(w);
    OrBitsOf(m, h, w, mbits, hbits);
    assert OrBits(mbits, hbits) == Ones(w) by {
      forall i | 0 <= i < w ensures OrBits(mbits, hbits)[i] {
        if i < k { assert mbits[i]; } else { assert hbits[i]; }
      }
    }
    ValueOfBits(Or(m, h, w), w, Ones(w));
    FromBitsOnes(w);
  }
}
