/** The dot-grouped binary rendering of an integer (IP_tools/ip_calc.py lines 21-26), with
    the bit width passed explicitly instead of read from a global. */
module BinaryRep {
  import opened Arith
  import opened Bits
  import opened Strings

  function DigitChar(b: bool): char
  {
    if b then '1' else '0'
  }

  /** The shortest base-2 numeral of n without prefix, and "0" for zero (line 25). */
  function BinDigits(n: nat): (s: string)
    ensures |s| >= 1
  {
    if n < 2 then [DigitChar(n == 1)] else BinDigits(n / 2) + [DigitChar(n % 2 == 1)]
  }

  /** Left-padding with '0' up to `width` characters; a string already that long is kept.
      The padding a sign character would get is not modelled. */
  function ZFill(s: string, width: nat): string
  {
    if |s| >= width then s else seq(width - |s|, _ => '0') + s
  }

  /** The string cut into consecutive groups of eight characters from the left, the last
      group possibly shorter (line 26). */
  function Octets(s: string): seq<string>
  {
    if |s| == 0 then [] else if |s| <= 8 then [s] else [s[..8]] + Octets(s[8..])
  }

  /** Every group left-padded with '0' to eight characters (line 26). */
  function PadOctets(gs: seq<string>): seq<string>
  {
    seq(|gs|, i requires 0 <= i < |gs| => ZFill(gs[i], 8))
  }

  /** The rendering of n at width w: its numeral padded to w digits, cut into groups of eight,
      each group padded to eight, and the groups joined by '.'. */
  function BinaryStringRep(n: nat, w: nat): string
  {
    Join(PadOctets(Octets(ZFill(BinDigits(n), w))), '.')
  }

  /** The binary digits of a bit string, most significant first. */
  function Render(bits: seq<bool>): string
  {
    seq(|bits|, i requires 0 <= i < |bits| => DigitChar(bits[i]))
  }

  /** The bits a string of binary digits stands for ('1' is a one, anything else a zero). */
  function Digits(s: string): seq<bool>
  {
    seq(|s|, i requires 0 <= i < |s| => s[i] == '1')
  }

  /** The value of a string of binary digits read in base 2. */
  function DigitsValue(s: string): nat
  {
    FromBits(Digits(s))
  }

  predicate IsBinary(s: string)
  {
    forall i :: 0 <= i < |s| ==> s[i] == '0' || s[i] == '1'
  }

  lemma {:induction false} RenderDigits(s: string)
    requires IsBinary(s)
    ensures Render(Digits(s)) == s
  {
  }

  /** The numeral of n is binary and reads back as n. */
  lemma {:induction false} BinDigitsValue(n: nat)
    ensures IsBinary(BinDigits(n))
    ensures DigitsValue(BinDigits(n)) == n
  {
    if n >= 2 {
      var s := BinDigits(n / 2);
      BinDigitsValue(n / 2);
      assert Digits(s + [DigitChar(n % 2 == 1)]) == Digits(s) + [n % 2 == 1];
      FromBitsSnoc(Digits(s), n % 2 == 1);
    }
  }

  /** A value below 2^w has at most w binary digits. */
  lemma {:induction false} BinDigitsLength(n: nat, w: nat)
    requires w >= 1 && n < Pow2(w)
    ensures |BinDigits(n)| <= w
  {
    if n >= 2 {
      BinDigitsLength(n / 2, w - 1);
    }
  }

  /** Zero padding keeps a numeral binary and keeps its value. */
  lemma {:induction false} ZFillValue(s: string, width: nat)
    requires IsBinary(s)
    ensures |ZFill(s, width)| == if |s| >= width then |s| else width
    ensures IsBinary(ZFill(s, width))
    ensures DigitsValue(ZFill(s, width)) == DigitsValue(s)
  {
    if |s| < width {
      var pad := seq(width - |s|, _ => '0');
      assert Digits(pad + s) == Zeros(width - |s|) + Digits(s);
      FromBitsAppend(Zeros(width - |s|), Digits(s));
      FromBitsZeros(width - |s|);
    }
  }

  /** A string whose length is a multiple of 8 splits into groups of exactly 8 that
      concatenate back to it. */
  lemma {:induction false} OctetsOfMultiple(s: string)
    requires |s| % 8 == 0
    ensures |Octets(s)| == |s| / 8
    ensures Uniform(Octets(s), 8)
    ensures Concat(Octets(s)) == s
  {
    if |s| == 8 {
      assert Concat(Octets(s)) == s + Concat([]);
    } else if |s| > 8 {
      OctetsOfMultiple(s[8..]);
      assert Octets(s)[1..] == Octets(s[8..]);
      assert s == s[..8] + s[8..];
    }
  }

  lemma {:induction false} PadOctetsOfUniform(gs: seq<string>)
    requires Uniform(gs, 8)
    ensures PadOctets(gs) == gs
  {
  }

  /** For 0 <= n < 2^w, the numeral of n padded to w digits is exactly the
      w-bit binary representation of n, and they read back as n. */
  lemma {:induction false} PaddedDigits(n: nat, w: nat)
    requires w >= 1 && n < Pow2(w)
    ensures ZFill(BinDigits(n), w) == Render(ToBits(n, w))
    ensures DigitsValue(ZFill(BinDigits(n), w)) == n
  {
    var digits := ZFill(BinDigits(n), w);
    BinDigitsValue(n);
    BinDigitsLength(n, w);
    ZFillValue(BinDigits(n), w);
    assert |digits| == w && IsBinary(digits) && DigitsValue(digits) == n;
    ToFromBits(Digits(digits));
    assert ToBits(n, w) == Digits(digits);
    RenderDigits(digits);
  }

  /** For 0 <= n < 2^w with w a positive multiple of 8, the rendering consists of w / 8 groups
      of exactly 8 binary digits joined by '.', w + w / 8 - 1 characters in all. */
  lemma {:induction false} BinaryStringRepShape(n: nat, w: nat)
    requires w >= 8 && w % 8 == 0 && n < Pow2(w)
    ensures BinaryStringRep(n, w) == Join(Octets(Render(ToBits(n, w))), '.')
    ensures |Octets(Render(ToBits(n, w)))| == w / 8
    ensures Uniform(Octets(Render(ToBits(n, w))), 8)
    ensures forall i :: 0 <= i < w / 8 ==> IsBinary(Octets(Render(ToBits(n, w)))[i])
    ensures |BinaryStringRep(n, w)| == w + w / 8 - 1
  {
    var digits := Render(ToBits(n, w));
    PaddedDigits(n, w);
    OctetsOfMultiple(digits);
    var gs := Octets(digits);
    PadOctetsOfUniform(gs);
    JoinLength(gs, '.', 8);
    forall i | 0 <= i < w / 8 ensures IsBinary(gs[i]) {
      OctetsBinary(digits, i);
    }
  }

  /** Every group of a binary numeral is binary. */
  lemma {:induction false} OctetsBinary(s: string, i: nat)
    requires IsBinary(s) && i < |Octets(s)|
    ensures IsBinary(Octets(s)[i])
  {
    if i > 0 {
      OctetsBinary(s[8..], i - 1);
    }
  }

  /** Deleting the dots from the rendering of 0 <= n < 2^w (w a positive multiple of 8)
      and reading the digits in base 2 gives back n. */
  lemma {:induction false} BinaryStringRepRoundTrip(n: nat, w: nat)
    requires w >= 8 && w % 8 == 0 && n < Pow2(w)
    ensures Remove(BinaryStringRep(n, w), '.') == Render(ToBits(n, w))
    ensures DigitsValue(Remove(BinaryStringRep(n, w), '.')) == n
  {
    var digits := Render(ToBits(n, w));
    BinaryStringRepShape(n, w);
    OctetsOfMultiple(digits);
    var gs := Octets(digits);
    forall i | 0 <= i < |gs| ensures '.' !in gs[i] {
      assert IsBinary(gs[i]);
    }
    RemoveJoin(gs, '.');
    PaddedDigits(n, w);
  }
}
