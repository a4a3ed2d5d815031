/** UUIDs as text: ParseUUID and UUIDToString of vless.go. */
module UuidText {
  import opened Bytes
  import opened Strings

  const DASH: byte := 45

  // ---------- hexadecimal digits ----------

  function HexDigit(n: nat): (c: byte)
    requires n < 16
  {
    if n < 10 then 48 + n else 87 + n
  }

  function Lower(c: byte): byte {
    if 65 <= c <= 70 then c + 32 else c
  }

  function LowerAll(s: Text): (r: Text)
    ensures |r| == |s|
  {
    seq(|s|, i requires 0 <= i < |s| => Lower(s[i]))
  }

  /** What fmt skips before a number: white space except a newline. */
  predicate SkippedSpace(c: byte) {
    c == 9 || c == 11 || c == 12 || c == 13 || c == 32
  }

  /**
    fmt.Sscanf(pair, "%02x"): leading space is skipped and whatever follows the digits is ignored, so one
    digit is enough.
   */
  function ScanPair(a: byte, b: byte): Option<byte> {
    if SkippedSpace(a) then (if IsHex(b) then Some(HexValue(b)) else None)
    else if !IsHex(a) then None
    else if IsHex(b) then Some(16 * HexValue(a) + HexValue(b))
    else Some(HexValue(a))
  }

  function SkipSpaces(s: Text): Text {
    if s == [] || !SkippedSpace(s[0]) then s else SkipSpaces(s[1..])
  }

  function HexRun(s: Text): (r: Text)
    ensures forall i :: 0 <= i < |r| ==> IsHex(r[i])
  {
    if s == [] || !IsHex(s[0]) then [] else [s[0]] + HexRun(s[1..])
  }

  function HexNumber(digits: Text): nat
    requires forall i :: 0 <= i < |digits| ==> IsHex(digits[i])
  {
    if digits == [] then 0 else 16 * HexNumber(digits[..|digits| - 1]) + HexValue(digits[|digits| - 1])
  }

  /** A pair is read like any text: skip space, take the digits up to the first that is none, and need at least one. */
  lemma ScanPairMeaning(a: byte, b: byte)
    ensures var digits := HexRun(SkipSpaces([a, b]));
            match ScanPair(a, b)
            case None => digits == []
            case Some(v) => digits != [] && v == HexNumber(digits)
  {
    assert [a, b][1..] == [b];
    OneCharacter(a);
    OneCharacter(b);
    assert SkippedSpace(a) ==> SkipSpaces([a, b]) == SkipSpaces([b]);
    if IsHex(a) {
      assert HexRun([a, b]) == [a] + HexRun([b]);
      if IsHex(b) {
        assert HexRun([a, b]) == [a, b] && [a, b][..1] == [a];
        assert HexNumber([a, b]) == 16 * HexNumber([a]) + HexValue(b);
      }
    }
  }

  lemma OneCharacter(c: byte)
    ensures SkipSpaces([c]) == if SkippedSpace(c) then [] else [c]
    ensures HexRun([c]) == if IsHex(c) then [c] else []
    ensures IsHex(c) ==> HexNumber([c]) == HexValue(c)
  {
    assert [c][1..] == [] && [c][..0] == [];
  }

  // ---------- parsing ----------

  function WithoutDashes(s: Text): Text {
    if s == [] then []
    else (if s[0] == DASH then [] else [s[0]]) + WithoutDashes(s[1..])
  }

  /** Byte i of the result comes from digits 2i and 2i+1. */
  ghost predicate ScansTo(digits: Text, u: seq<byte>) {
    && |digits| == 2 * |u|
    && forall i :: 0 <= i < |u| ==> ScanPair(digits[2 * i], digits[2 * i + 1]) == Some(u[i])
  }

  method ParseUUID(s: Text) returns (r: Option<UUID>)
    ensures r.Some? ==> ScansTo(WithoutDashes(s), r.value)
    ensures r.None? ==> !exists u: UUID :: ScansTo(WithoutDashes(s), u)
  {
    var digits := WithoutDashes(s);
    if |digits| != 32 {
      return None;
    }
    var u: seq<byte> := [];
    for i := 0 to 16
      invariant |u| == i
      invariant forall j :: 0 <= j < i ==> ScanPair(digits[2 * j], digits[2 * j + 1]) == Some(u[j])
    {
      var b := ScanPair(digits[2 * i], digits[2 * i + 1]);
      if b.None? {
        return None;
      }
      u := u + [b.value];
    }
    r := Some(u);
  }

  /** A text has at most one reading. */
  lemma ScanUnique(digits: Text, u: seq<byte>, v: seq<byte>)
    requires ScansTo(digits, u) && ScansTo(digits, v)
    ensures u == v
  {
    forall i | 0 <= i < |u|
      ensures u[i] == v[i]
    {
      assert Some(u[i]) == ScanPair(digits[2 * i], digits[2 * i + 1]) == Some(v[i]);
    }
  }

  // ---------- printing ----------

  function Hex(u: seq<byte>): (r: Text)
    ensures |r| == 2 * |u|
    ensures forall i :: 0 <= i < |u| ==> r[2 * i] == HexDigit(u[i] / 16) && r[2 * i + 1] == HexDigit(u[i] % 16)
    ensures forall i :: 0 <= i < |r| ==> r[i] != DASH
  {
    if u == [] then [] else Hex(u[..|u| - 1]) + [HexDigit(u[|u| - 1] / 16), HexDigit(u[|u| - 1] % 16)]
  }

  /** UUIDToString */
  function ToText(u: UUID): Text {
    Hex(u[0..4]) + [DASH] + Hex(u[4..6]) + [DASH] + Hex(u[6..8]) + [DASH] + Hex(u[8..10]) + [DASH] + Hex(u[10..16])
  }

  lemma {:induction false} WithoutDashesAppend(s: Text, t: Text)
    ensures WithoutDashes(s + t) == WithoutDashes(s) + WithoutDashes(t)
  {
    if s == [] {
      assert s + t == t;
    } else {
      assert (s + t)[1..] == s[1..] + t;
      WithoutDashesAppend(s[1..], t);
    }
  }

  lemma {:induction false} NoDashes(s: Text)
    requires forall i :: 0 <= i < |s| ==> s[i] != DASH
    ensures WithoutDashes(s) == s
  {
    if s != [] {
      NoDashes(s[1..]);
    }
  }

  lemma {:induction false} HexSplit(u: seq<byte>, v: seq<byte>)
    ensures Hex(u + v) == Hex(u) + Hex(v)
    decreases |v|
  {
    if v == [] {
      assert u + v == u;
    } else {
      var w := v[..|v| - 1];
      HexSplit(u, w);
      LastSplit(v);
      AppendAssoc(u, w, [v[|v| - 1]]);
      AppendSlices(u + w, [v[|v| - 1]]);
      AppendAssoc(Hex(u), Hex(w), [HexDigit(v[|v| - 1] / 16), HexDigit(v[|v| - 1] % 16)]);
    }
  }

  lemma DashGroup(group: seq<byte>, rest: Text)
    ensures WithoutDashes(Hex(group) + [DASH] + rest) == Hex(group) + WithoutDashes(rest)
  {
    AppendAssoc(Hex(group), [DASH], rest);
    WithoutDashesAppend(Hex(group), [DASH] + rest);
    NoDashes(Hex(group));
    assert ([DASH] + rest)[1..] == rest;
  }

  lemma TextRegroup(a: Text, b: Text, c: Text, d: Text, e: Text)
    ensures a + [DASH] + b + [DASH] + c + [DASH] + d + [DASH] + e ==
            a + [DASH] + (b + [DASH] + (c + [DASH] + (d + [DASH] + e)))
  {
  }

  lemma GroupsOf(u: UUID)
    ensures u == u[0..4] + (u[4..6] + (u[6..8] + (u[8..10] + u[10..16])))
  {
  }

  lemma HexGroups(a: seq<byte>, b: seq<byte>, c: seq<byte>, d: seq<byte>, e: seq<byte>)
    ensures Hex(a + (b + (c + (d + e)))) == Hex(a) + (Hex(b) + (Hex(c) + (Hex(d) + Hex(e))))
  {
    HexSplit(d, e);
    HexSplit(c, d + e);
    HexSplit(b, c + (d + e));
    HexSplit(a, b + (c + (d + e)));
  }

  lemma DigitsOfText(u: UUID)
    ensures WithoutDashes(ToText(u)) == Hex(u)
  {
    var h1, h2, h3, h4, h5 := Hex(u[0..4]), Hex(u[4..6]), Hex(u[6..8]), Hex(u[8..10]), Hex(u[10..16]);
    TextRegroup(h1, h2, h3, h4, h5);
    DashGroup(u[0..4], h2 + [DASH] + (h3 + [DASH] + (h4 + [DASH] + h5)));
    DashGroup(u[4..6], h3 + [DASH] + (h4 + [DASH] + h5));
    DashGroup(u[6..8], h4 + [DASH] + h5);
    DashGroup(u[8..10], h5);
    NoDashes(h5);
    GroupsOf(u);
    HexGroups(u[0..4], u[4..6], u[6..8], u[8..10], u[10..16]);
  }

  /** The printed form: 36 characters, lower-case hexadecimal digits in groups of 8, 4, 4, 4 and 12. */
  lemma TextShape(u: UUID)
    ensures var t := ToText(u);
            && |t| == 36 && t[8] == t[13] == t[18] == t[23] == '-' as int
            && t[..8] == Hex(u[..4]) && t[9..13] == Hex(u[4..6]) && t[14..18] == Hex(u[6..8])
            && t[19..23] == Hex(u[8..10]) && t[24..] == Hex(u[10..])
    ensures forall n :: 0 <= n < 16 ==> HexDigit(n) == "0123456789abcdef"[n] as int
  {
    assert u[..4] == u[0..4] && u[10..] == u[10..16];
  }

  lemma HexScans(u: seq<byte>)
    ensures ScansTo(Hex(u), u)
  {
  }

  /** Round trip: what UUIDToString prints, ParseUUID reads back, and as nothing else. */
  lemma ParsePrint(u: UUID, v: UUID)
    ensures ScansTo(WithoutDashes(ToText(u)), v) <==> u == v
  {
    DigitsOfText(u);
    HexScans(u);
    if ScansTo(Hex(u), v) {
      ScanUnique(Hex(u), u, v);
    }
  }

  /** Digit k of the printed form, seen from the pair it comes from. */
  lemma PrintedDigit(d: Text, u: seq<byte>, k: nat)
    requires ScansTo(d, u) && k < |d|
    ensures IsHex(Hex(u)[k])
    ensures (forall i :: 0 <= i < |d| ==> IsHex(d[i])) ==> Hex(u)[k] == Lower(d[k])
  {
    var i := k / 2;
    assert ScanPair(d[2 * i], d[2 * i + 1]) == Some(u[i]);
    assert k == 2 * i || k == 2 * i + 1;
    if IsHex(d[2 * i]) && IsHex(d[2 * i + 1]) {
      PairPrintsBack(d[2 * i], d[2 * i + 1], u[i]);
    }
  }

  /** Printing what was parsed gives the same digits, in lower case, exactly when they all were digits. */
  lemma PrintParsedIffHex(s: Text, u: UUID)
    requires ScansTo(WithoutDashes(s), u)
    ensures var d := WithoutDashes(s);
            WithoutDashes(ToText(u)) == LowerAll(d) <==> forall i :: 0 <= i < |d| ==> IsHex(d[i])
  {
    DigitsOfText(u);
    var d := WithoutDashes(s);
    forall k | 0 <= k < |d|
      ensures IsHex(Hex(u)[k])
      ensures (forall i :: 0 <= i < |d| ==> IsHex(d[i])) ==> Hex(u)[k] == Lower(d[k])
    {
      PrintedDigit(d, u, k);
    }
    if Hex(u) == LowerAll(d) {
      forall i | 0 <= i < |d|
        ensures IsHex(d[i])
      {
        assert Hex(u)[i] == Lower(d[i]);
      }
    }
  }

  lemma PairPrintsBack(a: byte, b: byte, v: byte)
    requires IsHex(a) && IsHex(b)
    requires ScanPair(a, b) == Some(v)
    ensures HexDigit(v / 16) == Lower(a) && HexDigit(v % 16) == Lower(b)
  {
  }
}
