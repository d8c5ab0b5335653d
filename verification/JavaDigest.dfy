/**
  `MCSHA1::digestJava`: a 20-byte digest printed as a signed hexadecimal number, and for which digests
  the printed number is the digest's two's-complement value.
 */
module JavaDigest {
  import opened Bytes
  import opened Numeric

  // ----- values

  /** Big-endian value of a byte string. */
  function Value(bs: bytes): (v: nat)
    ensures v < Range(|bs|)
  {
    if bs == [] then 0 else 256 * Value(bs[..|bs| - 1]) + bs[|bs| - 1]
  }

  function SignedValue(bs: bytes): int
    requires bs != []
  {
    if bs[0] >= 128 then Value(bs) - Range(|bs|) else Value(bs)
  }

  const DIGITS: string := "0123456789abcdef"

  /** The value of a hexadecimal digit, or none. */
  function DigitValue(c: char): Option<nat> {
    if '0' <= c <= '9' then Some((c - '0') as nat)
    else if 'a' <= c <= 'f' then Some((c - 'a') as nat + 10)
    else None
  }

  predicate IsHex(s: string) {
    forall i :: 0 <= i < |s| ==> DigitValue(s[i]).Some?
  }

  function HexValue(s: string): nat
    requires IsHex(s)
  {
    if s == [] then 0 else 16 * HexValue(s[..|s| - 1]) + DigitValue(s[|s| - 1]).value
  }

  /** An optional minus and hexadecimal digits. */
  predicate IsNumeral(s: string) {
    s != "" && IsHex(if s[0] == '-' then s[1..] else s)
  }

  function NumeralValue(s: string): int
    requires IsNumeral(s)
  {
    if s[0] == '-' then 0 - HexValue(s[1..]) as int else HexValue(s)
  }

  // ----- printing bytes

  function HexByte(b: byte): (s: string)
    ensures |s| == 2
  {
    [DIGITS[b / 16], DIGITS[b % 16]]
  }

  function Hex(bs: bytes): (s: string)
    ensures |s| == 2 * |bs|
  {
    if bs == [] then "" else Hex(bs[..|bs| - 1]) + HexByte(bs[|bs| - 1])
  }

  lemma DigitOfDigits(n: nat)
    requires n < 16
    ensures DigitValue(DIGITS[n]) == Some(n)
  {
  }

  lemma HexPair(t: string, b: byte)
    requires IsHex(t)
    ensures IsHex(t + HexByte(b)) && HexValue(t + HexByte(b)) == 256 * HexValue(t) + b
  {
    DigitOfDigits(b / 16);
    DigitOfDigits(b % 16);
    var s := t + HexByte(b);
    var u := t + [DIGITS[b / 16]];
    assert s[..|s| - 1] == u && u[..|u| - 1] == t;
    assert b == 16 * (b / 16) + b % 16;
  }

  lemma NoDigits()
    ensures IsHex("") && HexValue("") == 0
  {
  }

  lemma {:induction false} HexMeansValue(bs: bytes)
    ensures IsHex(Hex(bs)) && HexValue(Hex(bs)) == Value(bs)
  {
    hide IsHex, HexByte;
    if bs == [] {
      NoDigits();
    } else {
      HexMeansValue(bs[..|bs| - 1]);
      HexPair(Hex(bs[..|bs| - 1]), bs[|bs| - 1]);
    }
  }

  // ----- negation

  function Complement(bs: bytes): (c: bytes)
    ensures |c| == |bs| && forall i :: 0 <= i < |bs| ==> c[i] == 255 - bs[i]
  {
    seq(|bs|, i requires 0 <= i < |bs| => 255 - bs[i])
  }

  lemma {:induction false} ComplementValue(bs: bytes)
    ensures Value(Complement(bs)) == Range(|bs|) - 1 - Value(bs)
  {
    if bs == [] {
    } else {
      ComplementValue(bs[..|bs| - 1]);
      assert Complement(bs)[..|bs| - 1] == Complement(bs[..|bs| - 1]);
    }
  }

  /** One more, with the carry running left and off the end. */
  function Increment(bs: bytes): (r: bytes)
    ensures |r| == |bs|
  {
    if bs == [] then [] else
      var init, last := bs[..|bs| - 1], bs[|bs| - 1];
      if last == 255 then Increment(init) + [0] else init + [last + 1]
  }

  lemma {:induction false} IncrementValue(bs: bytes)
    ensures Value(Increment(bs)) == if Value(bs) + 1 == Range(|bs|) then 0 else Value(bs) + 1
  {
    if bs == [] {
    } else {
      var init, last, r := bs[..|bs| - 1], bs[|bs| - 1], Increment(bs);
      IncrementValue(init);
      assert r[..|r| - 1] == if last == 255 then Increment(init) else init;
    }
  }

  function Times(a: nat, b: nat): nat {
    a * b
  }

  lemma TimesStep(b: nat, n: nat)
    ensures Times(b, Range(n + 1)) == 256 * Times(b, Range(n)) && Times(b, Range(0)) == b
  {
  }

  lemma {:induction false} ValueSplit(b: byte, bs: bytes)
    ensures Value([b] + bs) == Times(b, Range(|bs|)) + Value(bs)
  {
    hide Times, Range;
    if bs != [] {
      var init := bs[..|bs| - 1];
      ValueSplit(b, init);
      assert ([b] + bs)[..|bs|] == [b] + init;
      TimesStep(b, |init|);
    } else {
      assert ([b] + bs)[..0] == [];
      TimesStep(b, 0);
    }
  }

  lemma {:induction false} ZeroValue(bs: bytes)
    ensures Value(bs) == 0 <==> forall i :: 0 <= i < |bs| ==> bs[i] == 0
  {
    if bs == [] {
    } else {
      var init := bs[..|bs| - 1];
      ZeroValue(init);
      assert bs == init + [bs[|bs| - 1]];
    }
  }

  /** What the code makes of a negative digest: the carry stops before byte 0. */
  function Negated(digest: bytes): (r: bytes)
    requires digest != []
    ensures |r| == |digest|
  {
    var c := Complement(digest);
    [c[0]] + Increment(c[1..])
  }

  predicate LowBytesZero(digest: bytes)
    requires digest != []
  {
    forall i :: 1 <= i < |digest| ==> digest[i] == 0
  }

  lemma Magnitude(b: nat, w: nat)
    requires b <= 255
    ensures Times(255 - b, w) + Times(b, w) == 255 * w
  {
    assert (255 - b) * w == 255 * w - b * w;
  }

  lemma NegatedParts(b: byte, low: bytes, negated: bytes)
    requires negated == [255 - b] + Increment(Complement(low))
    ensures Value(low) == 0 ==> Value(negated) + Value([b] + low) == 255 * Range(|low|)
    ensures Value(low) != 0 ==> Value(negated) + Value([b] + low) == 256 * Range(|low|)
  {
    hide Value, Increment, Complement, Range, Times;
    ComplementValue(low);
    IncrementValue(Complement(low));
    ValueSplit(255 - b, Increment(Complement(low)));
    ValueSplit(b, low);
    Magnitude(b, Range(|low|));
  }

  lemma RangeStep(n: nat)
    ensures Range(n + 1) == 256 * Range(n)
  {
  }

  lemma LowBytesValue(digest: bytes)
    requires digest != []
    ensures LowBytesZero(digest) <==> Value(digest[1..]) == 0
  {
    var low := digest[1..];
    ZeroValue(low);
    assert forall i :: 0 <= i < |low| ==> low[i] == digest[i + 1];
    assert forall i :: 1 <= i < |digest| ==> digest[i] == low[i - 1];
  }

  lemma NegatedIs(b: byte, low: bytes)
    ensures Negated([b] + low) == [255 - b] + Increment(Complement(low))
  {
    hide Increment;
    var digest := [b] + low;
    assert Complement(digest)[1..] == Complement(low);
    assert Complement(digest)[0] == 255 - b;
  }

  /** It is the magnitude of the digest, unless the carry should have reached byte 0: then it falls short
      by the weight of that byte. */
  lemma NegatedValue(digest: bytes)
    requires digest != []
    ensures !LowBytesZero(digest) ==> Value(Negated(digest)) == Range(|digest|) - Value(digest)
    ensures LowBytesZero(digest) ==>
              Value(Negated(digest)) == Range(|digest|) - Value(digest) - Range(|digest| - 1)
  {
    hide Value, Increment, Range, Complement, Negated, LowBytesZero;
    var b, low := digest[0], digest[1..];
    assert digest == [b] + low;
    NegatedIs(b, low);
    NegatedParts(b, low, Negated(digest));
    LowBytesValue(digest);
    RangeStep(|low|);
  }

  // ----- the code

  method ComplementInto(digest: bytes, twosComplement: array<byte>)
    requires |digest| == 20 == twosComplement.Length
    modifies twosComplement
    ensures twosComplement[..] == Complement(digest)
  {
    for i := 0 to 20
      invariant forall k :: 0 <= k < i ==> twosComplement[k] == 255 - digest[k]
    {
      twosComplement[i] := 255 - digest[i];
    }
  }

  lemma IncrementStep(c: bytes, i: nat)
    requires i < |c|
    ensures i == 0 ==> Increment(c[1..1]) == []
    ensures i > 0 ==> Increment(c[1..i + 1]) == if c[i] == 255 then Increment(c[1..i]) + [0] else c[1..i] + [c[i] + 1]
  {
    if i > 0 {
      assert c[1..i + 1][..i - 1] == c[1..i];
    }
  }

  method Carry(twosComplement: array<byte>)
    requires twosComplement.Length == 20
    modifies twosComplement
    ensures twosComplement[..] == old([twosComplement[0]] + Increment(twosComplement[1..]))
  {
    hide Increment;
    ghost var c := twosComplement[..];
    var i := 20 - 1;
    assert c == c[..i + 1] && c[1..] == c[1..i + 1];
    while i != 0
      invariant 0 <= i < 20
      invariant twosComplement[..] == c[..i + 1] + Zeros(19 - i)
      invariant Increment(c[1..]) == Increment(c[1..i + 1]) + Zeros(19 - i)
    {
      IncrementStep(c, i);
      var sum: int := twosComplement[i] as int + 1;
      twosComplement[i] := sum % 256;
      assert twosComplement[..] == (c[..i] + [sum % 256]) + Zeros(19 - i);
      assert Zeros(20 - i) == [0] + Zeros(19 - i);
      if twosComplement[i] != 0 {
        assert c[..i] == [c[0]] + c[1..i];
        return;
      }
      i := i - 1;
    }
    IncrementStep(c, 0);
  }

  lemma RangePositive(n: nat)
    ensures Range(n) > 0
  {
  }

  lemma NoMinus(bs: bytes)
    requires bs != []
    ensures Hex(bs)[0] != '-'
  {
    HexMeansValue(bs);
  }

  method PrintHex(data: array<byte>) returns (s: string)
    ensures s == Hex(data[..])
  {
    s := "";
    for i := 0 to data.Length
      invariant s == Hex(data[..i])
    {
      assert data[..i + 1][..i] == data[..i];
      s := s + HexByte(data[i]);
    }
    assert data[..data.Length] == data[..];
  }

  /** The string is a numeral of 40 digits, and its value is the digest's signed value exactly when the
      digest is non-negative or its bytes 1 to 19 are not all zero. */
  method DigestJava(digest: bytes) returns (s: string)
    requires |digest| == 20
    ensures IsNumeral(s) && |s| == if digest[0] >= 128 then 41 else 40
    ensures digest[0] >= 128 <==> s[0] == '-'
    ensures NumeralValue(s) == SignedValue(digest) <==> !(digest[0] >= 128 && LowBytesZero(digest))
    ensures digest[0] >= 128 && LowBytesZero(digest) ==> NumeralValue(s) == SignedValue(digest) + Range(19)
  {
    hide Hex, HexValue, Value, Range;
    var isNegative := digest[0] >= 128;
    var twosComplement := new byte[20](_ => 0);
    if isNegative {
      ComplementInto(digest, twosComplement);
      Carry(twosComplement);
      assert twosComplement[..] == Negated(digest);
      NegatedValue(digest);
    } else {
      forall i | 0 <= i < 20 {
        twosComplement[i] := digest[i];
      }
      assert twosComplement[..] == digest;
    }
    var digits := PrintHex(twosComplement);
    HexMeansValue(twosComplement[..]);
    NoMinus(twosComplement[..]);
    s := if isNegative then "-" + digits else digits;
    assert isNegative ==> s[1..] == digits;
    RangePositive(19);
  }
}
