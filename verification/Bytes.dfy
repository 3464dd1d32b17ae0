/** Byte strings, digests and their hexadecimal spelling, shared by the proof systems. */
module Bytes {

  datatype Option<+T> = None | Some(value: T)

  lemma SetGrows<T>(elements: set<T>, x: T)
    requires x !in elements
    ensures |elements + {x}| == |elements| + 1
  {
  }

  type Byte = n: int | 0 <= n < 256
  type Bytes = seq<Byte>

  /** The output of SHA-256: always 32 bytes, so every use of a hash carries its length. */
  type Digest = d: Bytes | |d| == 32 witness seq(32, (_: nat) => 0 as Byte)

  ghost predicate Queried(inputs: set<Bytes>, x: Bytes) { x in inputs }

  /** No two of the given hash inputs collide. */
  ghost predicate CollisionFree(sha: Bytes -> Digest, inputs: set<Bytes>) {
    forall a, b {:trigger Queried(inputs, a), Queried(inputs, b)} ::
      Queried(inputs, a) && Queried(inputs, b) && sha(a) == sha(b) ==> a == b
  }

  /** Two different inputs out of an explicit finite set share a digest. */
  ghost predicate Collides(sha: Bytes -> Digest, inputs: set<Bytes>) {
    exists a, b :: a in inputs && b in inputs && a != b && sha(a) == sha(b)
  }

  lemma CollisionFreeSubset(sha: Bytes -> Digest, small: set<Bytes>, large: set<Bytes>)
    requires CollisionFree(sha, large) && small <= large
    ensures CollisionFree(sha, small) && !Collides(sha, small)
  {
    forall a, b | a in small && b in small && sha(a) == sha(b) ensures a == b {
      assert Queried(large, a) && Queried(large, b);
    }
  }

  // ---------------------------------------------------------------- hexadecimal

  function HexDigit(n: int): char
    requires 0 <= n < 16
  {
    "0123456789abcdef"[n]
  }

  /** The value of a hexadecimal digit of either case. */
  function HexValue(c: char): (v: Option<int>)
    ensures v.Some? ==> 0 <= v.value < 16
  {
    if '0' <= c <= '9' then Some(c as int - '0' as int)
    else if 'a' <= c <= 'f' then Some(c as int - 'a' as int + 10)
    else if 'A' <= c <= 'F' then Some(c as int - 'A' as int + 10)
    else None
  }

  lemma HexDigitValue(n: int)
    requires 0 <= n < 16
    ensures HexValue(HexDigit(n)) == Some(n)
  {
    if n < 10 {
      assert "0123456789abcdef"[n] == '0' + n as char;
    } else {
      assert "0123456789abcdef"[n] == 'a' + (n - 10) as char;
    }
  }

  /** `bytes.hex()`: two lower-case digits a byte. */
  function Hex(b: Bytes): (s: string)
    ensures |s| == 2 * |b|
  {
    seq(2 * |b|, k requires 0 <= k < 2 * |b| => HexDigit(if k % 2 == 0 then b[k / 2] / 16 else b[k / 2] % 16))
  }

  predicate AsciiSpace(c: char) {
    c == ' ' || '\t' <= c <= '\r'
  }

  /** `bytes.fromhex`: either case, ASCII white space between bytes ignored, `None` where it raises. */
  function FromHex(s: string): Option<Bytes> {
    if s == "" then Some([])
    else if AsciiSpace(s[0]) then FromHex(s[1..])
    else if |s| < 2 then None
    else match (HexValue(s[0]), HexValue(s[1]))
      case (Some(h), Some(l)) =>
        (match FromHex(s[2..])
         case Some(rest) => Some([16 * h + l] + rest)
         case None => None)
      case _ => None
  }

  lemma HexCons(b: Bytes)
    requires b != []
    ensures Hex(b) == [HexDigit(b[0] / 16), HexDigit(b[0] % 16)] + Hex(b[1..])
  {
  }

  lemma FromHexCons(h: int, l: int, rest: string)
    requires 0 <= h < 16 && 0 <= l < 16 && FromHex(rest).Some?
    ensures FromHex([HexDigit(h), HexDigit(l)] + rest) == Some([16 * h + l] + FromHex(rest).value)
  {
    HexDigitValue(h);
    HexDigitValue(l);
    var s := [HexDigit(h), HexDigit(l)] + rest;
    assert s[2..] == rest && !AsciiSpace(s[0]);
  }

  lemma {:induction false} HexRoundTrip(b: Bytes)
    ensures FromHex(Hex(b)) == Some(b)
  {
    if b != [] {
      HexCons(b);
      HexRoundTrip(b[1..]);
      var h, l := b[0] / 16, b[0] % 16;
      FromHexCons(h, l, Hex(b[1..]));
      assert [16 * h + l] + b[1..] == b;
    }
  }

  /** The digits of a byte, the high one first. */
  lemma HexSpelling(b: Bytes, i: nat)
    requires i < |b|
    ensures Hex(b)[2 * i] == "0123456789abcdef"[b[i] / 16] && Hex(b)[2 * i + 1] == "0123456789abcdef"[b[i] % 16]
  {
  }

  /** Which characters are hexadecimal digits, and of what value. */
  lemma HexValueExactly(c: char, v: int)
    ensures HexValue(c) == Some(v)
       <==> 0 <= v < 16 && (c == "0123456789abcdef"[v] || c == "0123456789ABCDEF"[v])
  {
    if 0 <= v < 10 {
      assert "0123456789abcdef"[v] == '0' + v as char && "0123456789ABCDEF"[v] == '0' + v as char;
    } else if 10 <= v < 16 {
      assert "0123456789abcdef"[v] == 'a' + (v - 10) as char && "0123456789ABCDEF"[v] == 'A' + (v - 10) as char;
    }
  }

  /** What `fromhex` reads: white space before a byte is skipped, a byte is two digits, anything else raises. */
  lemma FromHexReads(h: char, l: char, rest: string)
    ensures h in {' ', '\t', '\n', '\U{0B}', '\U{0C}', '\r'} ==> FromHex([h] + rest) == FromHex(rest)
    ensures h !in {' ', '\t', '\n', '\U{0B}', '\U{0C}', '\r'} ==>
              && FromHex([h]) == None
              && FromHex([h, l] + rest)
                 == match (HexValue(h), HexValue(l), FromHex(rest))
                    case (Some(u), Some(v), Some(bytes)) => Some([16 * u + v] + bytes)
                    case _ => None
  {
    assert ([h] + rest)[1..] == rest && ([h, l] + rest)[2..] == rest;
    assert AsciiSpace(h) <==> h in {' ', '\t', '\n', '\U{0B}', '\U{0C}', '\r'};
  }

  lemma HexInjective(a: Bytes, b: Bytes)
    requires Hex(a) == Hex(b)
    ensures a == b
  {
    HexRoundTrip(a);
    HexRoundTrip(b);
  }

  // ---------------------------------------------------------------- big-endian integers

  function Pow256(k: nat): (p: int)
    ensures p >= 1
  {
    if k == 0 then 1 else 256 * Pow256(k - 1)
  }

  /** `n.to_bytes(width, "big")` for a value that fits; callers model the OverflowError. */
  function BigEndian(n: int, width: nat): (b: Bytes)
    requires 0 <= n < Pow256(width)
    ensures |b| == width
  {
    if width == 0 then [] else BigEndian(n / 256, width - 1) + [n % 256]
  }

  /** `int.from_bytes(b, "big")`. */
  function FromBigEndian(b: Bytes): (n: int)
    ensures 0 <= n < Pow256(|b|)
  {
    if b == [] then 0 else 256 * FromBigEndian(b[..|b| - 1]) + b[|b| - 1]
  }

  /** The first byte weighs most. */
  lemma {:induction false} MostSignificantFirst(first: Byte, rest: Bytes)
    ensures FromBigEndian([first] + rest) == first * Pow256(|rest|) + FromBigEndian(rest)
  {
    var b := [first] + rest;
    if rest == [] {
      assert b[..0] == [];
    } else {
      var init := rest[..|rest| - 1];
      MostSignificantFirst(first, init);
      assert b[..|b| - 1] == [first] + init;
      assert 256 * (first * Pow256(|init|)) == first * Pow256(|rest|);
    }
  }

  lemma FourBytes()
    ensures Pow256(4) == 0x1_0000_0000
  {
    assert Pow256(2) == 0x1_0000;
  }

  lemma {:induction false} BigEndianRoundTrip(n: int, width: nat)
    requires 0 <= n < Pow256(width)
    ensures FromBigEndian(BigEndian(n, width)) == n
  {
    if width > 0 {
      BigEndianRoundTrip(n / 256, width - 1);
      var b := BigEndian(n, width);
      assert b[..|b| - 1] == BigEndian(n / 256, width - 1);
    }
  }
}
