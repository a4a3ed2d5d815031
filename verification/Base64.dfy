/** base64.StdEncoding and base64.RawStdEncoding: the standard alphabet of section 4 of RFC 4648. */
module Base64 {
  import opened Bytes

  const PAD: byte := 61

  type Sextet = n: int | 0 <= n < 64

  function Char(n: Sextet): byte {
    if n < 26 then 65 + n
    else if n < 52 then 97 + (n - 26)
    else if n < 62 then 48 + (n - 52)
    else if n == 62 then 43
    else 47
  }

  predicate InAlphabet(c: byte) {
    65 <= c <= 90 || 97 <= c <= 122 || 48 <= c <= 57 || c == 43 || c == 47
  }

  function Value(c: byte): Sextet
    requires InAlphabet(c)
  {
    if 65 <= c <= 90 then c - 65
    else if 97 <= c <= 122 then c - 97 + 26
    else if 48 <= c <= 57 then c - 48 + 52
    else if c == 43 then 62
    else 63
  }

  lemma CharValue(n: Sextet)
    ensures InAlphabet(Char(n)) && Value(Char(n)) == n
  {
  }

  // ---------- encoding ----------

  function Sextet0(a: byte): Sextet { a / 4 }

  function Sextet1(a: byte, b: byte): Sextet { a % 4 * 16 + b / 16 }

  function Sextet2(b: byte, c: byte): Sextet { b % 16 * 4 + c / 64 }

  function Sextet3(c: byte): Sextet { c % 64 }

  function Quad(a: byte, b: byte, c: byte): Text {
    [Char(Sextet0(a)), Char(Sextet1(a, b)), Char(Sextet2(b, c)), Char(Sextet3(c))]
  }

  /** EncodeToString; `padded` tells StdEncoding from RawStdEncoding. */
  function Encode(s: seq<byte>, padded: bool): Text {
    if |s| == 0 then []
    else if |s| == 1 then Quad(s[0], 0, 0)[..2] + if padded then [PAD, PAD] else []
    else if |s| == 2 then Quad(s[0], s[1], 0)[..3] + if padded then [PAD] else []
    else Quad(s[0], s[1], s[2]) + Encode(s[3..], padded)
  }

  // ---------- decoding ----------

  function Byte0(x: Sextet, y: Sextet): byte { x * 4 + y / 16 }

  function Byte1(y: Sextet, z: Sextet): byte { y % 16 * 16 + z / 4 }

  function Byte2(z: Sextet, w: Sextet): byte { z % 4 * 64 + w }

  /** The bytes of 2, 3 or 4 digits; left-over bits are dropped. */
  function Bits(q: Text): seq<byte>
    requires 2 <= |q| <= 4 && forall i :: 0 <= i < |q| ==> InAlphabet(q[i])
  {
    var a, b := Value(q[0]), Value(q[1]);
    if |q| == 2 then [Byte0(a, b)]
    else
      var c := Value(q[2]);
      if |q| == 3 then [Byte0(a, b), Byte1(b, c)] else [Byte0(a, b), Byte1(b, c), Byte2(c, Value(q[3]))]
  }

  predicate AllInAlphabet(q: Text) {
    forall i :: 0 <= i < |q| ==> InAlphabet(q[i])
  }

  /** Decoding once line breaks are gone. */
  function DecodeDigits(s: Text, padded: bool): Option<seq<byte>>
    decreases |s|, 1
  {
    if s == [] then Some([])
    else if padded then
      if |s| < 4 || !AllInAlphabet(s[..2]) then None
      else if |s| == 4 && s[3] == PAD then
        if s[2] == PAD then Some(Bits(s[..2]))
        else if InAlphabet(s[2]) then Some(Bits(s[..3]))
        else None
      else DecodeQuad(s, padded)
    else if |s| < 4 then
      if |s| >= 2 && AllInAlphabet(s) then Some(Bits(s)) else None
    else DecodeQuad(s, padded)
  }

  function DecodeQuad(s: Text, padded: bool): Option<seq<byte>>
    requires |s| >= 4
    decreases |s|, 0
  {
    if !AllInAlphabet(s[..4]) then None
    else
      match DecodeDigits(s[4..], padded)
      case None => None
      case Some(rest) => Some(Bits(s[..4]) + rest)
  }

  predicate IsBreak(c: byte) {
    c == 10 || c == 13
  }

  function WithoutBreaks(s: Text): Text {
    if s == [] then [] else (if IsBreak(s[0]) then [] else [s[0]]) + WithoutBreaks(s[1..])
  }

  /** DecodeString: carriage returns and newlines are skipped wherever they are. */
  function Decode(s: Text, padded: bool): Option<seq<byte>> {
    DecodeDigits(WithoutBreaks(s), padded)
  }

  // ---------- round trip ----------

  lemma Repack0(a: byte, b: byte)
    ensures Byte0(Sextet0(a), Sextet1(a, b)) == a
  {
    assert (a % 4 * 16 + b / 16) / 16 == a % 4;
  }

  lemma Repack1(a: byte, b: byte, c: byte)
    ensures Byte1(Sextet1(a, b), Sextet2(b, c)) == b
  {
    assert (a % 4 * 16 + b / 16) % 16 == b / 16;
    assert (b % 16 * 4 + c / 64) / 4 == b % 16;
  }

  lemma Repack2(b: byte, c: byte)
    ensures Byte2(Sextet2(b, c), Sextet3(c)) == c
  {
    assert (b % 16 * 4 + c / 64) % 4 == c / 64;
  }

  /** The digits of a quad and their values. */
  lemma QuadValues(a: byte, b: byte, c: byte)
    ensures var q := Quad(a, b, c);
            && AllInAlphabet(q)
            && Value(q[0]) == Sextet0(a) && Value(q[1]) == Sextet1(a, b)
            && Value(q[2]) == Sextet2(b, c) && Value(q[3]) == Sextet3(c)
  {
    CharValue(Sextet0(a));
    CharValue(Sextet1(a, b));
    CharValue(Sextet2(b, c));
    CharValue(Sextet3(c));
  }

  lemma QuadBits(a: byte, b: byte, c: byte)
    ensures AllInAlphabet(Quad(a, b, c))
    ensures Bits(Quad(a, b, c)) == [a, b, c]
  {
    QuadValues(a, b, c);
    Repack0(a, b);
    Repack1(a, b, c);
    Repack2(b, c);
  }

  /** One or two bytes, encoded as two or three digits. */
  lemma ShortBits(a: byte, b: byte)
    ensures AllInAlphabet(Quad(a, b, 0))
    ensures b == 0 ==> Bits(Quad(a, b, 0)[..2]) == [a]
    ensures Bits(Quad(a, b, 0)[..3]) == [a, b]
  {
    QuadValues(a, b, 0);
    Repack0(a, b);
    Repack1(a, b, 0);
  }

  lemma {:induction false} EncodedChars(s: seq<byte>, padded: bool)
    ensures forall i :: 0 <= i < |Encode(s, padded)| ==> InAlphabet(Encode(s, padded)[i]) || Encode(s, padded)[i] == PAD
    ensures s != [] ==> |Encode(s, padded)| >= 2 && InAlphabet(Encode(s, padded)[0])
    ensures |s| >= 3 && padded ==> |Encode(s, padded)| >= 4
    decreases |s|
  {
    if |s| == 1 {
      ShortBits(s[0], 0);
    } else if |s| == 2 {
      ShortBits(s[0], s[1]);
    } else if |s| >= 3 {
      QuadBits(s[0], s[1], s[2]);
      EncodedChars(s[3..], padded);
    }
  }

  lemma {:induction false} NoBreaks(s: Text)
    requires forall i :: 0 <= i < |s| ==> !IsBreak(s[i])
    ensures WithoutBreaks(s) == s
  {
    if s != [] {
      NoBreaks(s[1..]);
    }
  }

  lemma OneByte(s: seq<byte>, padded: bool)
    requires |s| == 1
    ensures DecodeDigits(Encode(s, padded), padded) == Some(s)
  {
    ShortBits(s[0], 0);
    var q, e := Quad(s[0], 0, 0)[..2], Encode(s, padded);
    assert e[..2] == q && (!padded ==> e == q);
    assert [s[0]] == s;
  }

  lemma TwoBytes(s: seq<byte>, padded: bool)
    requires |s| == 2
    ensures DecodeDigits(Encode(s, padded), padded) == Some(s)
  {
    ShortBits(s[0], s[1]);
    var q, e := Quad(s[0], s[1], 0)[..3], Encode(s, padded);
    assert e[..2] == q[..2] && e[..3] == q && e[2] == q[2] && (!padded ==> e == q);
    assert [s[0], s[1]] == s;
  }

  lemma {:induction false} DigitsRoundTrip(s: seq<byte>, padded: bool)
    ensures DecodeDigits(Encode(s, padded), padded) == Some(s)
    decreases |s|
  {
    if |s| == 1 {
      OneByte(s, padded);
    } else if |s| == 2 {
      TwoBytes(s, padded);
    } else if |s| >= 3 {
      QuadBits(s[0], s[1], s[2]);
      DigitsRoundTrip(s[3..], padded);
      var q := Quad(s[0], s[1], s[2]);
      var t := Encode(s[3..], padded);
      AppendSlices(q, t);
      assert (q + t)[..2] == q[..2];
      assert (q + t)[3] == q[3] && q[3] != PAD;
      assert [s[0], s[1], s[2]] + s[3..] == s;
    }
  }

  /** DecodeString undoes EncodeToString, with and without padding. */
  lemma RoundTrip(s: seq<byte>, padded: bool)
    ensures Decode(Encode(s, padded), padded) == Some(s)
  {
    EncodedChars(s, padded);
    NoBreaks(Encode(s, padded));
    DigitsRoundTrip(s, padded);
  }

  /** A quad in front of some text, none of whose digits is a padding character. */
  lemma QuadFirst(a: byte, b: byte, c: byte, t: Text)
    ensures DecodeDigits(Quad(a, b, c) + t, true) ==
            match DecodeDigits(t, true)
            case None => None
            case Some(rest) => Some([a, b, c] + rest)
  {
    var q := Quad(a, b, c);
    QuadBits(a, b, c);
    AppendSlices(q, t);
    SliceAppend(q, t, 0, 2);
    assert (q + t)[3] == q[3] && q[3] != PAD;
  }

  predicate NoneOr(r: Option<seq<byte>>, s: seq<byte>) {
    r == None || r == Some(s)
  }

  lemma {:induction false} UnpaddedDigits(s: seq<byte>)
    ensures NoneOr(DecodeDigits(Encode(s, false), true), s)
    decreases |s|
  {
    if |s| >= 3 {
      UnpaddedDigits(s[3..]);
      QuadFirst(s[0], s[1], s[2], Encode(s[3..], false));
      assert [s[0], s[1], s[2]] + s[3..] == s;
    } else if s != [] {
      UnpaddedShort(s);
    }
  }

  lemma UnpaddedShort(s: seq<byte>)
    requires 1 <= |s| <= 2
    ensures DecodeDigits(Encode(s, false), true) == None
  {
    assert |Encode(s, false)| < 4;
  }

  /** Text without padding is no padded text, or means the same. */
  lemma Unpadded(s: seq<byte>)
    ensures NoneOr(Decode(Encode(s, false), true), s)
  {
    EncodedChars(s, false);
    NoBreaks(Encode(s, false));
    UnpaddedDigits(s);
  }

  /** Line breaks inserted anywhere make no difference, so encoded text may be wrapped. */
  lemma Wrapped(wrapped: Text, s: seq<byte>, padded: bool, readPadded: bool)
    requires WithoutBreaks(wrapped) == Encode(s, padded)
    ensures Decode(wrapped, readPadded) == Decode(Encode(s, padded), readPadded)
  {
    EncodedChars(s, padded);
    NoBreaks(Encode(s, padded));
  }

  lemma {:induction false} WithoutBreaksAppend(a: Text, b: Text)
    ensures WithoutBreaks(a + b) == WithoutBreaks(a) + WithoutBreaks(b)
  {
    if a == [] {
      assert a + b == b;
    } else {
      assert (a + b)[1..] == a[1..] + b;
      WithoutBreaksAppend(a[1..], b);
    }
  }

  lemma BreakDropped(c: byte)
    ensures WithoutBreaks([c]) == if c == 10 || c == 13 then [] else [c]
  {
    assert [c][1..] == [];
  }

  lemma {:induction false} OnlyBreaksDropped(s: Text, c: byte)
    requires c in s && !IsBreak(c)
    ensures c in WithoutBreaks(s)
  {
    if s[0] != c {
      OnlyBreaksDropped(s[1..], c);
    }
  }

  /** The alphabet of table 1 of RFC 4648. */
  lemma AlphabetSpelled(n: Sextet)
    ensures Char(n) ==
            if n < 26 then 'A' as int + n
            else if n < 52 then 'a' as int + (n - 26)
            else if n < 62 then '0' as int + (n - 52)
            else if n == 62 then '+' as int
            else '/' as int
    ensures PAD == '=' as int
  {
  }

  lemma SextetsInOrder(a: byte, b: byte, c: byte)
    ensures var n := 0x1_0000 * a + 0x100 * b + c;
            && n / 0x4_0000 == Sextet0(a) && n / 0x1000 % 64 == Sextet1(a, b)
            && n / 64 % 64 == Sextet2(b, c) && n % 64 == Sextet3(c)
  {
    var n := 0x1_0000 * a + 0x100 * b + c;
    var q := 16 * (a as int) + b / 16;
    assert n / 0x1000 == q && q % 64 == a % 4 * 16 + b / 16;
    var r := 1024 * (a as int) + 4 * (b as int) + c / 64;
    assert n / 64 == r && r % 64 == b % 16 * 4 + c / 64;
  }

  /** The bits of three bytes from the first to the last, six to a digit; what is missing counts as zero. */
  lemma QuadInOrder(a: byte, b: byte, c: byte)
    ensures var n := 0x1_0000 * a + 0x100 * b + c;
            Encode([a, b, c], true) == [Char(n / 0x4_0000), Char(n / 0x1000 % 64), Char(n / 64 % 64), Char(n % 64)]
  {
    SextetsInOrder(a, b, c);
    assert [a, b, c][3..] == [];
    assert Quad(a, b, c) + [] == Quad(a, b, c);
  }

  /** Section 4 of RFC 4648: a last group of one or two bytes is cut and, with padding, filled up. */
  lemma ShortGroups(a: byte, b: byte)
    ensures Encode([a, b], true) == Encode([a, b, 0], false)[..3] + [PAD]
    ensures Encode([a], true) == Encode([a, 0, 0], false)[..2] + [PAD, PAD]
    ensures Encode([a, b], false) == Encode([a, b, 0], false)[..3]
    ensures Encode([a], false) == Encode([a, 0, 0], false)[..2]
  {
    assert [a, b, 0][3..] == [] && [a, 0, 0][3..] == [];
    assert Quad(a, b, 0) + [] == Quad(a, b, 0);
    assert Quad(a, 0, 0) + [] == Quad(a, 0, 0);
  }

  /** Longer input is encoded three bytes at a time. */
  lemma EncodeByThrees(s: seq<byte>, padded: bool)
    requires |s| >= 3
    ensures Encode(s, padded) == Encode(s[..3], padded) + Encode(s[3..], padded)
  {
    assert s[..3][3..] == [];
    assert Quad(s[0], s[1], s[2]) + [] == Quad(s[0], s[1], s[2]);
  }
}
