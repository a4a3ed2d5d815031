/** The string functions of Go's standard library that the program relies on, on byte strings. */
module Strings {
  import opened Bytes

  const NEWLINE: byte := 10
  const MINUS: byte := 45
  const PLUS: byte := 43

  predicate HasPrefix(s: Text, prefix: Text) {
    prefix <= s
  }

  // ---------- searching ----------

  /** The first index of c, or the length. */
  function Find(s: Text, c: byte): (i: nat)
    ensures i <= |s| && (i < |s| ==> s[i] == c)
    ensures forall k :: 0 <= k < i ==> s[k] != c
  {
    if s == [] || s[0] == c then 0 else 1 + Find(s[1..], c)
  }

  lemma FindIn(a: Text, c: byte, b: Text)
    requires c !in a
    ensures Find(a + [c] + b, c) == |a|
  {
    var s := a + [c] + b;
    assert s[|a|] == c;
    assert forall k :: 0 <= k < |a| ==> s[k] == a[k];
  }

  lemma FindWithin(a: Text, c: byte, b: Text)
    requires c !in a
    ensures Find(a + b, c) == |a| + Find(b, c)
  {
    var s := a + b;
    var i := |a| + Find(b, c);
    assert forall k :: 0 <= k < |a| ==> s[k] == a[k];
    assert forall k :: |a| <= k < |s| ==> s[k] == b[k - |a|];
    assert i < |s| ==> s[i] == c;
    assert forall k :: 0 <= k < i ==> s[k] != c;
  }

  /** The last index of c, or the length. */
  function FindLast(s: Text, c: byte): (i: nat)
    ensures i <= |s| && (i < |s| ==> s[i] == c)
    ensures forall k :: 0 <= k < |s| && (i < k || i == |s|) ==> s[k] != c
  {
    if s == [] then 0
    else if s[|s| - 1] == c then |s| - 1
    else
      var i := FindLast(s[..|s| - 1], c);
      if i == |s| - 1 then |s| else i
  }

  lemma {:induction false} FindLastIn(a: Text, c: byte, b: Text)
    requires c !in b
    ensures FindLast(a + [c] + b, c) == |a|
    decreases |b|
  {
    var front := a + [c];
    if b == [] {
      assert front + b == front;
    } else {
      LastSplit(b);
      AppendAssoc(front, b[..|b| - 1], [b[|b| - 1]]);
      AppendSlices(front + b[..|b| - 1], [b[|b| - 1]]);
      FindLastIn(a, c, b[..|b| - 1]);
    }
  }

  // ---------- hexadecimal digits ----------

  predicate IsHex(c: byte) {
    48 <= c <= 57 || 65 <= c <= 70 || 97 <= c <= 102
  }

  function HexValue(c: byte): (v: nat)
    requires IsHex(c)
    ensures v < 16
  {
    if c <= 57 then c - 48 else if c <= 70 then c - 55 else c - 87
  }

  lemma HexSpelled(c: byte)
    ensures IsHex(c) <==>
            '0' as int <= c <= '9' as int || 'A' as int <= c <= 'F' as int || 'a' as int <= c <= 'f' as int
    ensures '0' as int <= c <= '9' as int ==> HexValue(c) == c - '0' as int
    ensures 'A' as int <= c <= 'F' as int ==> HexValue(c) == 10 + c - 'A' as int
    ensures 'a' as int <= c <= 'f' as int ==> HexValue(c) == 10 + c - 'a' as int
  {
  }

  // ---------- decimal numbers ----------

  predicate IsDigit(c: byte) {
    48 <= c <= 57
  }

  predicate AllDigits(s: Text) {
    forall i :: 0 <= i < |s| ==> IsDigit(s[i])
  }

  lemma DigitsOnly(digits: Text, c: byte)
    requires AllDigits(digits) && !IsDigit(c)
    ensures c !in digits
  {
  }

  function Digits(n: nat): (r: Text)
    ensures r != [] && AllDigits(r)
  {
    if n < 10 then [48 + n] else Digits(n / 10) + [48 + n % 10]
  }

  /** fmt's %d */
  function Decimal(n: int): Text {
    if n < 0 then [MINUS] + Digits(-n) else Digits(n)
  }

  const MAX_INT := 0x7fff_ffff_ffff_ffff
  const MAX_UINT := 0xffff_ffff_ffff_ffff

  datatype Scan = Value(n: nat) | Syntax | Range

  /** strconv.ParseUint in base 10, from left to right; the first error counts. */
  function ScanDigits(s: Text): (r: Scan)
    ensures r.Value? ==> r.n <= MAX_UINT
  {
    if s == [] then Value(0)
    else
      var c := s[|s| - 1];
      match ScanDigits(s[..|s| - 1])
      case Value(n) =>
        if !IsDigit(c) then Syntax
        else if 10 * n + (c - 48) > MAX_UINT then Range
        else Value(10 * n + (c - 48))
      case error => error
  }

  /** strconv.Atoi with its error ignored: 0 for bad syntax, the nearest int when out of range. */
  function Atoi(s: Text): int {
    var signed := s != [] && (s[0] == PLUS || s[0] == MINUS);
    var ds := if signed then s[1..] else s;
    if ds == [] then 0
    else
      match ScanDigits(ds)
      case Syntax => 0
      case Range => if signed && s[0] == MINUS then -MAX_INT - 1 else MAX_INT
      case Value(n) =>
        if signed && s[0] == MINUS then (if n > MAX_INT + 1 then -MAX_INT - 1 else -(n as int))
        else if n > MAX_INT then MAX_INT else n
  }

  lemma {:induction false} DigitsRoundTrip(n: nat)
    requires n <= MAX_UINT
    ensures ScanDigits(Digits(n)) == Value(n)
  {
    if n < 10 {
      assert ScanDigits([]) == Value(0);
      assert Digits(n)[..0] == [];
    } else {
      DigitsRoundTrip(n / 10);
      assert Digits(n)[..|Digits(n)| - 1] == Digits(n / 10);
    }
  }

  lemma AtoiDecimal(n: nat)
    requires n <= MAX_INT
    ensures Atoi(Decimal(n)) == n
  {
    DigitsRoundTrip(n);
    assert IsDigit(Digits(n)[0]);
  }

  lemma {:induction false} ErrorSticks(s: Text, t: Text)
    requires !ScanDigits(s).Value?
    ensures ScanDigits(s + t) == ScanDigits(s)
    decreases |t|
  {
    if t == [] {
      assert s + t == s;
    } else {
      ErrorSticks(s, t[..|t| - 1]);
      assert (s + t)[..|s + t| - 1] == s + t[..|t| - 1];
    }
  }

  /** Anything but a digit after a number that is in range makes it no number at all. */
  lemma AtoiGarbage(n: nat, garbage: Text)
    requires n <= MAX_UINT
    requires garbage != [] && !IsDigit(garbage[0])
    ensures Atoi(Digits(n) + garbage) == 0
  {
    var front := Digits(n) + [garbage[0]];
    DigitsRoundTrip(n);
    assert front[..|front| - 1] == Digits(n);
    ErrorSticks(front, garbage[1..]);
    assert Digits(n) + garbage == front + garbage[1..];
    assert IsDigit(Digits(n)[0]);
  }

  /** Numbers that do not fit are cut to the nearest that does. */
  lemma AtoiMeaning(n: nat)
    ensures Atoi(Digits(n)) == Atoi([PLUS] + Digits(n)) == Min(n, MAX_INT)
    ensures Atoi([MINUS] + Digits(n)) == -Min(n, MAX_INT + 1)
  {
    ScanOfDigits(n);
    assert IsDigit(Digits(n)[0]);
    assert ([PLUS] + Digits(n))[1..] == Digits(n) == ([MINUS] + Digits(n))[1..];
  }

  lemma {:induction false} ScanOfDigits(n: nat)
    ensures ScanDigits(Digits(n)) == if n <= MAX_UINT then Value(n) else Range
  {
    if n <= MAX_UINT {
      DigitsRoundTrip(n);
    } else {
      ScanOfDigits(n / 10);
      var s := Digits(n);
      assert s[..|s| - 1] == Digits(n / 10) && s[|s| - 1] == 48 + n % 10;
    }
  }

  lemma {:induction false} DigitsInjective(m: nat, n: nat)
    requires Digits(m) == Digits(n)
    ensures m == n
  {
    var s, t := Digits(m), Digits(n);
    assert (|s| == 1 <==> m < 10) && (|t| == 1 <==> n < 10);
    if m >= 10 {
      assert s[..|s| - 1] == Digits(m / 10) && t[..|t| - 1] == Digits(n / 10);
      DigitsInjective(m / 10, n / 10);
      assert s[|s| - 1] == 48 + m % 10 && t[|t| - 1] == 48 + n % 10;
    }
  }

  lemma DecimalInjective(m: int, n: int)
    requires Decimal(m) == Decimal(n)
    ensures m == n
  {
    assert IsDigit(Digits(if m < 0 then -m else m)[0]);
    assert IsDigit(Digits(if n < 0 then -n else n)[0]);
    if m < 0 && n < 0 {
      assert Decimal(m)[1..] == Digits(-m) && Decimal(n)[1..] == Digits(-n);
      DigitsInjective(-m, -n);
    } else if m >= 0 && n >= 0 {
      DigitsInjective(m, n);
    }
  }

  const COLON: byte := 58

  lemma CharactersSpelled()
    ensures Spells([NEWLINE, MINUS, PLUS, COLON], "\n-+:")
    ensures Spells(Decimal(-80), "-80") && Spells(Decimal(443), "443")
    ensures MAX_INT == 9223372036854775807 && MAX_UINT == 18446744073709551615
  {
    assert Digits(80) == [56] + [48];
    assert Digits(443) == [52] + [52] + [51];
  }

  /** fmt's "%s:%d" */
  function Address(host: Text, port: int): (r: Text)
    ensures r != []
  {
    host + [COLON] + Decimal(port)
  }

  /** Host and port can be read off at the last colon. */
  lemma AddressParts(host: Text, port: int)
    ensures var a := Address(host, port);
            FindLast(a, COLON) == |host| && a[..|host|] == host && a[|host| + 1..] == Decimal(port)
  {
    var a := Address(host, port);
    DigitsOnly(Digits(if port < 0 then -port else port), COLON);
    FindLastIn(host, COLON, Decimal(port));
    AppendSlices(host + [COLON], Decimal(port));
    SliceAppend(host + [COLON], Decimal(port), 0, |host|);
  }

  /** So different hosts or ports give different addresses. */
  lemma AddressInjective(h1: Text, p1: int, h2: Text, p2: int)
    ensures Address(h1, p1) == Address(h2, p2) <==> h1 == h2 && p1 == p2
  {
    AddressParts(h1, p1);
    AddressParts(h2, p2);
    if Address(h1, p1) == Address(h2, p2) {
      DecimalInjective(p1, p2);
    }
  }

  // ---------- white space ----------

  /** The UTF-8 bytes of one white-space character, as unicode.IsSpace has it. */
  predicate IsSpaceRune(b: Text) {
    || (|b| == 1 && (9 <= b[0] <= 13 || b[0] == 32))
    || (|b| == 2 && b[0] == 0xc2 && (b[1] == 0x85 || b[1] == 0xa0))
    || (|b| == 3 && b[0] == 0xe1 && b[1] == 0x9a && b[2] == 0x80)
    || (|b| == 3 && b[0] == 0xe2 && b[1] == 0x80 && (0x80 <= b[2] <= 0x8a || b[2] == 0xa8 || b[2] == 0xa9 || b[2] == 0xaf))
    || (|b| == 3 && b[0] == 0xe2 && b[1] == 0x81 && b[2] == 0x9f)
    || (|b| == 3 && b[0] == 0xe3 && b[1] == 0x80 && b[2] == 0x80)
  }

  /** The length of the white-space character at the start, or 0. */
  function LeadSpace(s: Text): (n: nat)
    ensures n <= |s| && (n > 0 ==> IsSpaceRune(s[..n]))
  {
    if |s| >= 1 && IsSpaceRune(s[..1]) then 1
    else if |s| >= 2 && IsSpaceRune(s[..2]) then 2
    else if |s| >= 3 && IsSpaceRune(s[..3]) then 3
    else 0
  }

  function TrailSpace(s: Text): (n: nat)
    ensures n <= |s| && (n > 0 ==> IsSpaceRune(s[|s| - n..]))
  {
    if |s| >= 1 && IsSpaceRune(s[|s| - 1..]) then 1
    else if |s| >= 2 && IsSpaceRune(s[|s| - 2..]) then 2
    else if |s| >= 3 && IsSpaceRune(s[|s| - 3..]) then 3
    else 0
  }

  function TrimLeft(s: Text): (r: Text)
    ensures LeadSpace(r) == 0
  {
    if LeadSpace(s) == 0 then s else TrimLeft(s[LeadSpace(s)..])
  }

  function TrimRight(s: Text): (r: Text)
    ensures TrailSpace(r) == 0
  {
    if TrailSpace(s) == 0 then s else TrimRight(s[..|s| - TrailSpace(s)])
  }

  /** strings.TrimSpace */
  function TrimSpace(s: Text): Text {
    TrimRight(TrimLeft(s))
  }

  predicate Trimmed(s: Text) {
    LeadSpace(s) == 0 && TrailSpace(s) == 0
  }

  lemma LeadOfPrefix(s: Text, t: Text)
    requires s <= t && LeadSpace(t) == 0
    ensures LeadSpace(s) == 0
  {
    assert |s| >= 1 ==> s[..1] == t[..1];
    assert |s| >= 2 ==> s[..2] == t[..2];
    assert |s| >= 3 ==> s[..3] == t[..3];
  }

  lemma {:induction false} TrimLeftPart(s: Text)
    ensures |TrimLeft(s)| <= |s| && TrimLeft(s) == s[|s| - |TrimLeft(s)|..]
    decreases |s|
  {
    if LeadSpace(s) > 0 {
      TrimLeftPart(s[LeadSpace(s)..]);
    }
  }

  lemma {:induction false} TrimRightPart(s: Text)
    ensures TrimRight(s) <= s
    decreases |s|
  {
    if TrailSpace(s) > 0 {
      TrimRightPart(s[..|s| - TrailSpace(s)]);
    }
  }

  /** TrimSpace yields a trimmed text, and leaves one alone. */
  lemma TrimSpaceTrims(s: Text)
    ensures Trimmed(TrimSpace(s))
    ensures Trimmed(s) ==> TrimSpace(s) == s
  {
    TrimRightPart(TrimLeft(s));
    LeadOfPrefix(TrimSpace(s), TrimLeft(s));
  }

  lemma TrimSpaceOneLine(s: Text)
    requires OneLine(s)
    ensures OneLine(TrimSpace(s))
  {
    TrimLeftPart(s);
    TrimRightPart(TrimLeft(s));
  }

  /** The first byte of a character is never one that continues another. */
  predicate Continues(c: byte) {
    0x80 <= c <= 0xbf
  }

  lemma SpaceRuneFacts(r: Text)
    requires IsSpaceRune(r)
    ensures 1 <= |r| <= 3 && !Continues(r[0])
    ensures forall k :: 1 <= k < |r| ==> Continues(r[k])
  {
  }

  /** No white-space character begins or ends with another. */
  lemma SpaceRuneWhole(r: Text, k: nat)
    requires IsSpaceRune(r) && 1 <= k < |r|
    ensures !IsSpaceRune(r[..k]) && !IsSpaceRune(r[|r| - k..])
  {
    assert r[..k][0] == r[0];
    assert r[|r| - k..][0] == r[|r| - k] && r[|r| - k] >= 0x80;
  }

  lemma SpaceRuneBreak(r: Text)
    requires IsSpaceRune(r)
    ensures NEWLINE in r <==> r == [NEWLINE]
  {
    assert |r| >= 2 ==> forall i :: 0 <= i < |r| ==> r[i] >= 0x80;
    assert |r| == 1 ==> r == [r[0]];
  }

  /** White-space characters, one after another. */
  ghost predicate White(s: Text) {
    exists runes: seq<Text> :: AllSpace(runes) && s == Concat(runes)
  }

  ghost predicate AllSpace(runes: seq<Text>) {
    forall i :: 0 <= i < |runes| ==> IsSpaceRune(runes[i])
  }

  lemma LeadRune(r: Text, s: Text)
    requires IsSpaceRune(r)
    ensures LeadSpace(r + s) == |r| && TrimLeft(r + s) == TrimLeft(s)
  {
    SpaceRuneFacts(r);
    AppendSlices(r, s);
    var n := LeadSpace(r + s);
    assert 1 <= n <= |r|;
    SliceAppend(r, s, 0, n);
    if n < |r| {
      SpaceRuneWhole(r, n);
    }
  }

  lemma TrailRune(s: Text, r: Text)
    requires IsSpaceRune(r)
    ensures TrailSpace(s + r) == |r| && TrimRight(s + r) == TrimRight(s)
  {
    SpaceRuneFacts(r);
    AppendSlices(s, r);
    var n := TrailSpace(s + r);
    assert 1 <= n <= |r|;
    EndAppend(s, r, n);
    if n < |r| {
      SpaceRuneWhole(r, n);
    }
  }

  /** White space behind a text does not change how it starts. */
  lemma LeadUnaffected(s: Text, t: Text)
    requires s != [] && (t != [] ==> !Continues(t[0]))
    ensures LeadSpace(s + t) == LeadSpace(s)
  {
    var u := s + t;
    forall k | 1 <= k <= 3 && k <= |u|
      ensures k <= |s| ==> u[..k] == s[..k]
      ensures k > |s| ==> !IsSpaceRune(u[..k])
    {
      if k > |s| {
        assert u[..k][|s|] == t[0];
      }
    }
  }

  lemma {:induction false} TrimLeftAppend(s: Text, r: Text)
    requires IsSpaceRune(r)
    ensures TrimLeft(s + r) == if TrimLeft(s) == [] then [] else TrimLeft(s) + r
    decreases |s|
  {
    if s == [] {
      LeadRune(r, []);
      assert s + r == r + [];
    } else {
      SpaceRuneFacts(r);
      LeadUnaffected(s, r);
      var n := LeadSpace(s);
      if n > 0 {
        DropAppend(s, r, n);
        TrimLeftAppend(s[n..], r);
      }
    }
  }

  /** One white-space character at either end makes no difference. */
  lemma TrimSpaceRune(s: Text, r: Text)
    requires IsSpaceRune(r)
    ensures TrimSpace(r + s) == TrimSpace(s) && TrimSpace(s + r) == TrimSpace(s)
  {
    LeadRune(r, s);
    TrimLeftAppend(s, r);
    TrailRune(TrimLeft(s), r);
  }

  lemma {:induction false} TrimSpaceRunes(pre: seq<Text>, s: Text, post: seq<Text>)
    requires AllSpace(pre) && AllSpace(post)
    ensures TrimSpace(Concat(pre) + s + Concat(post)) == TrimSpace(s)
    decreases |pre| + |post|
  {
    var t := Concat(pre) + s + Concat(post);
    if pre != [] {
      assert t == pre[0] + (Concat(pre[1..]) + s + Concat(post));
      TrimSpaceRunes(pre[1..], s, post);
      TrimSpaceRune(Concat(pre[1..]) + s + Concat(post), pre[0]);
    } else if post != [] {
      var front, r := post[..|post| - 1], post[|post| - 1];
      LastSplit(post);
      ConcatSnoc(front, r);
      assert t == Concat(pre) + s + Concat(front) + r;
      TrimSpaceRunes(pre, s, front);
      TrimSpaceRune(Concat(pre) + s + Concat(front), r);
    } else {
      assert t == s;
    }
  }

  lemma TrimSpaceWhite(pre: Text, s: Text, post: Text)
    requires White(pre) && White(post)
    ensures TrimSpace(pre + s + post) == TrimSpace(s)
  {
    var a: seq<Text> :| AllSpace(a) && pre == Concat(a);
    var b: seq<Text> :| AllSpace(b) && post == Concat(b);
    TrimSpaceRunes(a, s, b);
  }

  lemma {:induction false} LeadingRunes(s: Text) returns (runes: seq<Text>)
    ensures AllSpace(runes) && s == Concat(runes) + TrimLeft(s)
    decreases |s|
  {
    var n := LeadSpace(s);
    if n == 0 {
      runes := [];
    } else {
      var more := LeadingRunes(s[n..]);
      runes := [s[..n]] + more;
      assert runes[1..] == more;
      TakeDrop(s, n);
      AppendAssoc(s[..n], Concat(more), TrimLeft(s));
    }
  }

  lemma {:induction false} TrailingRunes(s: Text) returns (runes: seq<Text>)
    ensures AllSpace(runes) && s == TrimRight(s) + Concat(runes)
    decreases |s|
  {
    var n := TrailSpace(s);
    if n == 0 {
      runes := [];
      assert s + [] == s;
    } else {
      var k := |s| - n;
      var more := TrailingRunes(s[..k]);
      runes := more + [s[k..]];
      ConcatSnoc(more, s[k..]);
      TakeDrop(s, k);
      AppendAssoc(TrimRight(s), Concat(more), s[k..]);
    }
  }

  /** TrimSpace takes white space off both ends, and nothing else. */
  lemma TrimSpaceSplits(s: Text) returns (pre: Text, post: Text)
    ensures White(pre) && White(post) && s == pre + TrimSpace(s) + post
  {
    var a := LeadingRunes(s);
    var b := TrailingRunes(TrimLeft(s));
    pre, post := Concat(a), Concat(b);
    AppendAssoc(pre, TrimSpace(s), post);
  }

  /** Nothing is left exactly of white space. */
  lemma TrimSpaceEmptyIff(s: Text)
    ensures TrimSpace(s) == [] <==> White(s)
  {
    if TrimSpace(s) == [] {
      var pre, post := TrimSpaceSplits(s);
      assert pre + [] + post == pre + post;
      WhiteAppend(pre, post);
    }
    if White(s) {
      WhiteIsEmpty(s);
    }
  }

  lemma WhiteAppend(s: Text, t: Text)
    requires White(s) && White(t)
    ensures White(s + t)
  {
    var a: seq<Text> :| AllSpace(a) && s == Concat(a);
    var b: seq<Text> :| AllSpace(b) && t == Concat(b);
    ConcatAppend(a, b);
    assert AllSpace(a + b);
  }

  lemma WhiteIsEmpty(s: Text)
    requires White(s)
    ensures TrimSpace(s) == []
  {
    var a: seq<Text> :| AllSpace(a) && s == Concat(a);
    TrimSpaceRunes(a, [], []);
    assert s + [] + Concat([]) == s;
  }

  predicate Solid(c: byte) {
    32 < c < 128
  }

  /** Trimming from the right stops at a visible character. */
  lemma {:induction false} TrimRightKeeps(s: Text, k: nat)
    requires 0 < k <= |s| && Solid(s[k - 1])
    ensures |TrimRight(s)| >= k
    decreases |s|
  {
    var n := TrailSpace(s);
    if n > 0 {
      SpaceNotSolid(s[|s| - n..]);
      assert forall i :: |s| - n <= i < |s| ==> s[i] == s[|s| - n..][i - (|s| - n)];
      TrimRightKeeps(s[..|s| - n], k);
    }
  }

  lemma SpaceNotSolid(r: Text)
    requires IsSpaceRune(r)
    ensures forall i :: 0 <= i < |r| ==> !Solid(r[i])
  {
  }

  lemma SolidLead(s: Text)
    requires s != [] && Solid(s[0])
    ensures LeadSpace(s) == 0
  {
    if LeadSpace(s) > 0 {
      SpaceNotSolid(s[..LeadSpace(s)]);
    }
  }

  lemma TrimSpaceKeeps(s: Text, front: Text)
    requires front <= s && front != []
    requires Solid(front[0]) && Solid(front[|front| - 1])
    ensures front <= TrimSpace(s)
  {
    SolidLead(s);
    TrimRightKeeps(s, |front|);
    TrimRightPart(s);
    SharedPrefix(front, TrimRight(s), s);
  }

  /** The code points unicode.IsSpace has, all of which need at most three bytes. */
  predicate IsSpace(rune: nat) {
    || 9 <= rune <= 13 || rune == 0x20 || rune == 0x85 || rune == 0xa0 || rune == 0x1680
    || 0x2000 <= rune <= 0x200a || rune == 0x2028 || rune == 0x2029 || rune == 0x202f || rune == 0x205f || rune == 0x3000
  }

  /** UTF-8, section 3 of RFC 3629, up to three bytes. */
  function Utf8(rune: nat): Text
    requires rune < 0x1_0000
  {
    if rune < 0x80 then [rune]
    else if rune < 0x800 then [0xc0 + rune / 64, 0x80 + rune % 64]
    else [0xe0 + rune / 4096, 0x80 + rune / 64 % 64, 0x80 + rune % 64]
  }

  /** The bytes that count as white space encode the code points that do. */
  lemma SpaceRuneIff(b: Text)
    ensures IsSpaceRune(b) <==> exists rune: nat :: rune < 0x1_0000 && IsSpace(rune) && b == Utf8(rune)
  {
    if IsSpaceRune(b) {
      var rune := Rune(b);
      assert rune < 0x1_0000 && IsSpace(rune) && b == Utf8(rune);
    }
    if rune: nat :| rune < 0x1_0000 && IsSpace(rune) && b == Utf8(rune) {
      Utf8Space(rune);
    }
  }

  function Rune(b: Text): nat
    requires 1 <= |b| <= 3 && (|b| == 2 ==> b[0] >= 0xc0) && (|b| == 3 ==> b[0] >= 0xe0 && b[1] >= 0x80)
    requires |b| >= 2 ==> b[|b| - 1] >= 0x80
  {
    if |b| == 1 then b[0]
    else if |b| == 2 then 64 * (b[0] as int - 0xc0) + (b[1] as int - 0x80)
    else 4096 * (b[0] as int - 0xe0) + 64 * (b[1] as int - 0x80) + (b[2] as int - 0x80)
  }

  lemma Utf8Space(rune: nat)
    requires rune < 0x1_0000 && IsSpace(rune)
    ensures IsSpaceRune(Utf8(rune))
  {
  }

  // ---------- lines ----------

  /** strings.Split(s, "\n") */
  function SplitLines(s: Text): (r: seq<Text>)
    ensures r != []
  {
    if s == [] then [[]]
    else
      var r := SplitLines(s[1..]);
      if s[0] == NEWLINE then [[]] + r else [[s[0]] + r[0]] + r[1..]
  }

  /** strings.Join(lines, "\n") */
  function JoinLines(lines: seq<Text>): Text {
    if lines == [] then []
    else if |lines| == 1 then lines[0]
    else lines[0] + [NEWLINE] + JoinLines(lines[1..])
  }

  predicate OneLine(s: Text) {
    NEWLINE !in s
  }

  lemma {:induction false} SplitFirst(line: Text, rest: Text)
    requires OneLine(line)
    ensures SplitLines(line + [NEWLINE] + rest) == [line] + SplitLines(rest)
    ensures SplitLines(line) == [line]
  {
    var s := line + [NEWLINE] + rest;
    if line == [] {
      assert s[1..] == rest;
    } else {
      assert s[1..] == line[1..] + [NEWLINE] + rest;
      assert s[0] == line[0];
      SplitFirst(line[1..], rest);
      assert [line[0]] + line[1..] == line;
    }
  }

  lemma {:induction false} SplitJoin(lines: seq<Text>)
    requires lines != []
    requires forall i :: 0 <= i < |lines| ==> OneLine(lines[i])
    ensures SplitLines(JoinLines(lines)) == lines
  {
    if |lines| == 1 {
      SplitFirst(lines[0], []);
    } else {
      SplitFirst(lines[0], JoinLines(lines[1..]));
      SplitJoin(lines[1..]);
    }
  }

  lemma {:induction false} SplitOneLine(s: Text)
    ensures forall i :: 0 <= i < |SplitLines(s)| ==> OneLine(SplitLines(s)[i])
  {
    if s != [] {
      SplitOneLine(s[1..]);
    }
  }

  /** The last line of one text and the first of the next become one. */
  function Glue(l: seq<Text>, m: seq<Text>): seq<Text>
    requires l != [] && m != []
  {
    l[..|l| - 1] + [l[|l| - 1] + m[0]] + m[1..]
  }

  lemma GlueEmpty(m: seq<Text>)
    requires m != []
    ensures Glue([[]], m) == m
  {
    var none: seq<Text> := [[]];
    assert none[..0] == [] && [] + m[0] == m[0];
  }

  lemma GlueCons(line: Text, k: seq<Text>, m: seq<Text>)
    requires k != [] && m != []
    ensures Glue([line] + k, m) == [line] + Glue(k, m)
  {
  }

  lemma GlueFirst(a: Text, k: seq<Text>, m: seq<Text>)
    requires k != [] && m != []
    ensures Glue([a + k[0]] + k[1..], m) == [a + Glue(k, m)[0]] + Glue(k, m)[1..]
  {
    if |k| == 1 {
      assert [a + k[0]] + k[1..] == [a + k[0]];
      assert k[..0] == [] && [a + k[0]][..0] == [];
      AppendAssoc(a, k[0], m[0]);
    }
  }

  lemma {:induction false} SplitConcat(s: Text, t: Text)
    ensures SplitLines(s + t) == Glue(SplitLines(s), SplitLines(t))
  {
    var m := SplitLines(t);
    if s == [] {
      assert s + t == t;
      GlueEmpty(m);
    } else {
      assert (s + t)[0] == s[0] && (s + t)[1..] == s[1..] + t;
      SplitConcat(s[1..], t);
      GlueCons([], SplitLines(s[1..]), m);
      GlueFirst([s[0]], SplitLines(s[1..]), m);
    }
  }
}
