/** Transcript framing, point bytes and hexadecimal integers: round trips and unique decoding. */
module Codecs {
  import opened Bytes

  // ---------------------------------------------------------------- transcript framing

  /** A part fits its 4-byte big-endian length prefix; `struct.pack` raises otherwise. */
  predicate Fits(part: Bytes) { |part| < Pow256(4) }

  /** What `_hash_to_scalar` feeds the hash, or `None` where packing a length raises. */
  function Frame(parts: seq<Bytes>): Option<Bytes> {
    if parts == [] then Some([])
    else match Frame(parts[..|parts| - 1])
      case None => None
      case Some(init) =>
        var part := parts[|parts| - 1];
        if Fits(part) then Some(init + BigEndian(|part|, 4) + part) else None
  }

  /** A length prefix is four bytes: parts of 2^32 bytes or more cannot be framed. */
  lemma FramedExactly(parts: seq<Bytes>)
    ensures Frame(parts).Some? <==> forall i :: 0 <= i < |parts| ==> |parts[i]| < 0x1_0000_0000
  {
    FourBytes();
    if Frame(parts).Some? {
      forall i | 0 <= i < |parts| ensures Fits(parts[i]) { if !Fits(parts[i]) { FrameFails(parts, i); } }
    } else {
      SomePartTooLong(parts);
    }
  }

  lemma {:induction false} SomePartTooLong(parts: seq<Bytes>)
    requires Frame(parts).None?
    ensures exists i :: 0 <= i < |parts| && !Fits(parts[i])
  {
    var n := |parts| - 1;
    if Frame(parts[..n]).None? {
      SomePartTooLong(parts[..n]);
      var i :| 0 <= i < n && !Fits(parts[..n][i]);
      assert !Fits(parts[i]);
    } else {
      assert !Fits(parts[n]);
    }
  }

  method FrameLoop(parts: seq<Bytes>) returns (data: Option<Bytes>)
    ensures data == Frame(parts)
  {
    var fed: Bytes := [];
    var i := 0;
    while i < |parts|
      invariant 0 <= i <= |parts|
      invariant Frame(parts[..i]) == Some(fed)
    {
      assert parts[..i + 1][..i] == parts[..i];
      if !Fits(parts[i]) {
        FrameFails(parts, i);
        return None;
      }
      fed := fed + BigEndian(|parts[i]|, 4) + parts[i];
      i := i + 1;
    }
    assert parts[..i] == parts;
    data := Some(fed);
  }

  lemma {:induction false} FrameFails(parts: seq<Bytes>, i: nat)
    requires i < |parts| && !Fits(parts[i])
    ensures Frame(parts).None?
  {
    if i < |parts| - 1 {
      FrameFails(parts[..|parts| - 1], i);
    }
  }

  /** Reading a framed transcript back. */
  function Unframe(data: Bytes): Option<seq<Bytes>> {
    if data == [] then Some([])
    else if |data| < 4 then None
    else
      var n := FromBigEndian(data[..4]);
      if |data| < 4 + n then None
      else match Unframe(data[4 + n..])
        case None => None
        case Some(rest) => Some([data[4..4 + n]] + rest)
  }

  lemma {:induction false} FrameCons(part: Bytes, rest: seq<Bytes>)
    requires Fits(part) && Frame(rest).Some?
    ensures Frame([part] + rest) == Some(BigEndian(|part|, 4) + part + Frame(rest).value)
  {
    var parts := [part] + rest;
    if rest == [] {
      assert parts[..|parts| - 1] == [];
      assert [] + BigEndian(|part|, 4) + part == BigEndian(|part|, 4) + part + [];
    } else {
      var init, last := rest[..|rest| - 1], rest[|rest| - 1];
      assert parts[..|parts| - 1] == [part] + init;
      FrameCons(part, init);
      assert (BigEndian(|part|, 4) + part + Frame(init).value) + BigEndian(|last|, 4) + last
          == BigEndian(|part|, 4) + part + (Frame(init).value + BigEndian(|last|, 4) + last);
    }
  }

  lemma {:induction false} FrameTail(parts: seq<Bytes>)
    requires parts != [] && Frame(parts).Some?
    ensures Fits(parts[0]) && Frame(parts[1..]).Some?
  {
    if |parts| > 1 {
      FrameTail(parts[..|parts| - 1]);
      assert parts[1..][..|parts| - 2] == parts[..|parts| - 1][1..];
    }
  }

  /** Unique decoding: every framed part list reads back as itself. */
  lemma {:induction false} FrameRoundTrip(parts: seq<Bytes>)
    requires Frame(parts).Some?
    ensures Unframe(Frame(parts).value) == Some(parts)
  {
    if parts != [] {
      var part, rest := parts[0], parts[1..];
      FrameTail(parts);
      assert parts == [part] + rest;
      FrameCons(part, rest);
      FrameRoundTrip(rest);
      BigEndianRoundTrip(|part|, 4);
      var data := Frame(parts).value;
      assert data[..4] == BigEndian(|part|, 4);
      assert data[4..4 + |part|] == part;
      assert data[4 + |part|..] == Frame(rest).value;
    }
  }

  lemma FrameInjective(a: seq<Bytes>, b: seq<Bytes>)
    requires Frame(a).Some? && Frame(a) == Frame(b)
    ensures a == b
  {
    FrameRoundTrip(a);
    FrameRoundTrip(b);
  }

  // ---------------------------------------------------------------- points

  type Point = (int, int)

  predicate Fits256(n: int) { 0 <= n < Pow256(32) }

  /** `_point_to_bytes`, or `None` where `to_bytes` overflows. */
  function PointBytes(p: Point): (b: Option<Bytes>)
    ensures b.Some? ==> |b.value| == 64
  {
    if Fits256(p.0) && Fits256(p.1) then Some(BigEndian(p.0, 32) + BigEndian(p.1, 32)) else None
  }

  /** The layout: the x coordinate, then the y coordinate, each in 32 big-endian bytes. */
  lemma PointBytesLayout(p: Point)
    requires PointBytes(p).Some?
    ensures FromBigEndian(PointBytes(p).value[..32]) == p.0 && FromBigEndian(PointBytes(p).value[32..]) == p.1
  {
    var b := PointBytes(p).value;
    assert b[..32] == BigEndian(p.0, 32) && b[32..] == BigEndian(p.1, 32);
    BigEndianRoundTrip(p.0, 32);
    BigEndianRoundTrip(p.1, 32);
  }

  lemma PointBytesInjective(p: Point, q: Point)
    requires PointBytes(p).Some? && PointBytes(p) == PointBytes(q)
    ensures p == q
  {
    PointBytesLayout(p);
    PointBytesLayout(q);
  }

  // ---------------------------------------------------------------- hexadecimal integers

  function Digits(n: nat): (s: string)
    ensures s != ""
  {
    if n < 16 then [HexDigit(n)] else Digits(n / 16) + [HexDigit(n % 16)]
  }

  /** `hex(n)`. */
  function HexInt(n: int): string {
    if n < 0 then "-0x" + Digits(-n) else "0x" + Digits(n)
  }

  function DigitsValue(s: string): Option<int> {
    if s == "" then Some(0)
    else match (DigitsValue(s[..|s| - 1]), HexValue(s[|s| - 1]))
      case (Some(n), Some(d)) => Some(16 * n + d)
      case _ => None
  }

  /** An optional 0x prefix, then at least one digit. */
  function Magnitude(s: string): Option<int> {
    var t := if |s| >= 2 && s[0] == '0' && (s[1] == 'x' || s[1] == 'X') then s[2..] else s;
    if t == "" then None else DigitsValue(t)
  }

  /** `int(s, 16)` on an optional sign, prefix and digits; `None` where it raises. */
  function ParseHexInt(s: string): Option<int> {
    if s == "" then None
    else if s[0] == '-' then (match Magnitude(s[1..]) case Some(n) => Some(-n) case None => None)
    else if s[0] == '+' then Magnitude(s[1..])
    else Magnitude(s)
  }

  lemma {:induction false} DigitsRoundTrip(n: nat)
    ensures DigitsValue(Digits(n)) == Some(n)
  {
    HexDigitValue(n % 16);
    var s := Digits(n);
    if n < 16 {
      assert s[..|s| - 1] == "";
    } else {
      DigitsRoundTrip(n / 16);
      assert s[..|s| - 1] == Digits(n / 16);
    }
  }

  /** `int(hex(n), 16) == n` for every integer. */
  lemma HexIntRoundTrip(n: int)
    ensures ParseHexInt(HexInt(n)) == Some(n)
  {
    var m := if n < 0 then -n else n;
    DigitsRoundTrip(m);
    var s := "0x" + Digits(m);
    assert s[2..] == Digits(m);
    assert Magnitude(s) == Some(m);
    if n < 0 { assert HexInt(n)[1..] == s; }
  }

  predicate AllDigits(s: string) { s != "" && forall i :: 0 <= i < |s| ==> HexValue(s[i]).Some? }

  lemma {:induction false} DigitsSpelling(n: nat)
    ensures forall i :: 0 <= i < |Digits(n)| ==> Digits(n)[i] in "0123456789abcdef"
    ensures Digits(n)[0] == '0' ==> n == 0
  {
    HexSpelled(n % 16);
    if n >= 16 { DigitsSpelling(n / 16); }
  }

  lemma HexSpelled(n: int)
    requires 0 <= n < 16
    ensures HexDigit(n) in "0123456789abcdef" && (HexDigit(n) == '0' ==> n == 0)
  {
    HexDigitValue(n);
  }

  ghost predicate SpelledWith(s: string, n: int, digits: string) {
    && s == (if n < 0 then "-0x" else "0x") + digits && digits != ""
    && (forall i :: 0 <= i < |digits| ==> digits[i] in "0123456789abcdef") && (digits[0] == '0' ==> n == 0)
  }

  /** How `hex` spells an integer: a sign, "0x", and lower-case digits without leading zeros. */
  lemma HexIntSpelling(n: int)
    ensures exists digits :: SpelledWith(HexInt(n), n, digits)
  {
    var m := if n < 0 then -n else n;
    DigitsSpelling(m);
    assert SpelledWith(HexInt(n), n, Digits(m));
  }

  lemma {:induction false} DigitsRead(digits: string)
    requires AllDigits(digits) || digits == ""
    ensures DigitsValue(digits).Some?
  {
    if digits != "" { DigitsRead(digits[..|digits| - 1]); }
  }

  lemma MagnitudeReads(prefix: string, digits: string)
    requires prefix in {"", "0x", "0X"} && AllDigits(digits)
    ensures Magnitude(prefix + digits) == DigitsValue(digits) && HexValue((prefix + digits)[0]).Some?
  {
    var t := prefix + digits;
    if prefix == "" {
      assert t == digits;
      assert |digits| > 1 ==> HexValue(digits[1]).Some?;
    } else {
      assert t[2..] == digits;
    }
  }

  lemma SignReads(t: string)
    requires t != "" && HexValue(t[0]).Some?
    ensures ParseHexInt(t) == Magnitude(t)
    ensures ParseHexInt("+" + t) == Magnitude(t)
    ensures ParseHexInt("-" + t) == match Magnitude(t) case Some(n) => Some(-n) case None => None
  {
    var plus, minus := "+" + t, "-" + t;
    assert plus[0] == '+' && plus[1..] == t && minus[0] == '-' && minus[1..] == t;
  }

  /** What `int(s, 16)` reads besides: either sign or none, either prefix or none, digits of either case. */
  lemma ParseHexIntReads(prefix: string, digits: string)
    requires prefix in {"", "0x", "0X"} && AllDigits(digits)
    ensures DigitsValue(digits).Some?
    ensures var t := prefix + digits;
            && ParseHexInt(t) == ParseHexInt("+" + t) == DigitsValue(digits)
            && ParseHexInt("-" + t) == Some(-DigitsValue(digits).value)
  {
    DigitsRead(digits);
    MagnitudeReads(prefix, digits);
    SignReads(prefix + digits);
  }
}
