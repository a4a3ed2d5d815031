/** Share links: the host rewriting of subscription.go and the host and port reading of subscription_fetch.go. */
module Links {
  import opened Bytes
  import opened Strings
  import opened Urls

  const DOLLAR: byte := 36

  const VMESS: Text := [118, 109, 101, 115, 115, 58, 47, 47]        // "vmess://"
  const VLESS: Text := [118, 108, 101, 115, 115, 58, 47, 47]        // "vless://"
  const TROJAN: Text := [116, 114, 111, 106, 97, 110, 58, 47, 47]   // "trojan://"
  const SS: Text := [115, 115, 58, 47, 47]                          // "ss://"

  lemma SchemesSpelled()
    ensures Spells(VMESS, "vmess://") && Spells(VLESS, "vless://") && Spells(TROJAN, "trojan://") && Spells(SS, "ss://")
    ensures Spells([DOLLAR], "$")
  {
  }

  /** The link schemes that are rewritten as plain text. */
  predicate PlainScheme(scheme: Text) {
    scheme == VLESS || scheme == TROJAN || scheme == SS
  }

  predicate IsPlainLink(link: Text) {
    HasPrefix(link, VLESS) || HasPrefix(link, TROJAN) || HasPrefix(link, SS)
  }

  // ---------- searching ----------

  /** How many digits a text starts with. */
  function DigitRun(s: Text): (n: nat)
    ensures n <= |s| && (n < |s| ==> !IsDigit(s[n]))
    ensures forall k :: 0 <= k < n ==> IsDigit(s[k])
  {
    if s == [] || !IsDigit(s[0]) then 0 else 1 + DigitRun(s[1..])
  }

  lemma DigitRunIs(digits: Text, tail: Text)
    requires AllDigits(digits)
    requires tail == [] || !IsDigit(tail[0])
    ensures DigitRun(digits + tail) == |digits|
  {
    var s := digits + tail;
    assert forall k :: 0 <= k < |digits| ==> s[k] == digits[k];
    assert tail != [] ==> s[|digits|] == tail[0];
  }

  // ---------- rewriteRawLink ----------

  /** The length of the match of @[^:]+:\d+ at the start of s, or 0. The part before the colon cannot be shortened. */
  function MatchLen(s: Text): (n: nat)
    ensures n <= |s|
  {
    if s == [] || s[0] != AT then 0
    else
      var j := Find(s[1..], COLON);
      if j == 0 || j == |s| - 1 then 0
      else
        var k := DigitRun(s[j + 2..]);
        if k == 0 then 0 else j + 2 + k
  }

  /** ReplaceAllString with a replacement that refers to no group. */
  function ReplaceAll(s: Text, replacement: Text): Text
    decreases |s|
  {
    if s == [] then []
    else if MatchLen(s) > 0 then replacement + ReplaceAll(s[MatchLen(s)..], replacement)
    else [s[0]] + ReplaceAll(s[1..], replacement)
  }

  function HostPort(host: Text, port: int): Text {
    [AT] + host + [COLON] + Decimal(port)
  }

  /** Slicing at a '#' that is no longer there panics. */
  datatype Rewritten = Link(link: Text) | Panic

  /** rewriteRawLink for everything but vmess links. */
  function RewritePlain(raw: Text, host: Text, port: int): Rewritten
    requires DOLLAR !in host
  {
    if IsPlainLink(raw) then
      var result := ReplaceAll(raw, HostPort(host, port));
      if HASH in raw && HASH !in result then Panic else Link(result)
    else Link(raw)
  }

  // ---------- links of the usual shape ----------

  datatype Shape = Shape(scheme: Text, user: Text, host: Text, digits: Text, tail: Text) {
    predicate Valid() {
      && PlainScheme(scheme)
      && AT !in user && AT !in tail
      && host != [] && COLON !in host
      && digits != [] && AllDigits(digits)
      && (tail == [] || !IsDigit(tail[0]))
    }

    function Text(): Text {
      scheme + user + ([AT] + host + [COLON] + digits) + tail
    }

    /** What follows the scheme. */
    function Rest(): Text {
      user + [AT] + (host + [COLON] + digits) + tail
    }
  }

  lemma {:induction false} ReplaceNone(s: Text, t: Text, replacement: Text)
    requires AT !in s
    ensures ReplaceAll(s + t, replacement) == s + ReplaceAll(t, replacement)
    decreases |s|
  {
    if s == [] {
      assert s + t == t;
    } else {
      assert (s + t)[0] == s[0] && (s + t)[1..] == s[1..] + t;
      ReplaceNone(s[1..], t, replacement);
      assert s == [s[0]] + s[1..];
    }
  }

  lemma MatchShape(host: Text, digits: Text, tail: Text)
    requires host != [] && COLON !in host
    requires digits != [] && AllDigits(digits)
    requires tail == [] || !IsDigit(tail[0])
    ensures var m := [AT] + host + [COLON] + digits;
            MatchLen(m + tail) == |m| && (m + tail)[|m|..] == tail
  {
    var m := [AT] + host + [COLON] + digits;
    var s := m + tail;
    assert s[1..] == host + [COLON] + (digits + tail);
    FindIn(host, COLON, digits + tail);
    assert s[|host| + 2..] == digits + tail;
    DigitRunIs(digits, tail);
  }

  lemma ReplaceShape(s: Shape, replacement: Text)
    requires s.Valid()
    ensures ReplaceAll(s.Text(), replacement) == s.scheme + s.user + replacement + s.tail
  {
    var m := [AT] + s.host + [COLON] + s.digits;
    var front := s.scheme + s.user;
    assert s.Text() == front + (m + s.tail);
    ReplaceNone(front, m + s.tail, replacement);
    MatchShape(s.host, s.digits, s.tail);
    assert s.tail + [] == s.tail;
    ReplaceNone(s.tail, [], replacement);
    AppendAssoc(front, replacement, s.tail);
  }

  /** Every match is replaced: what follows one is searched on its own. */
  lemma ReplaceMatch(front: Text, host: Text, digits: Text, rest: Text, replacement: Text)
    requires AT !in front && host != [] && COLON !in host
    requires digits != [] && AllDigits(digits) && (rest == [] || !IsDigit(rest[0]))
    ensures ReplaceAll(front + ([AT] + host + [COLON] + digits + rest), replacement) ==
            front + (replacement + ReplaceAll(rest, replacement))
  {
    ReplaceNone(front, [AT] + host + [COLON] + digits + rest, replacement);
    MatchShape(host, digits, rest);
  }

  /** An '@' without a host, a colon and a digit behind it stays. */
  lemma ReplaceNoMatch(front: Text, host: Text, rest: Text, replacement: Text)
    requires AT !in front && COLON !in host
    requires rest == [] || (rest[0] == COLON && (host == [] || |rest| == 1 || !IsDigit(rest[1])))
    ensures ReplaceAll(front + ([AT] + (host + rest)), replacement) ==
            front + ([AT] + ReplaceAll(host + rest, replacement))
  {
    var s := [AT] + (host + rest);
    ReplaceNone(front, s, replacement);
    FindWithin(host, COLON, rest);
    assert s[1..] == host + rest;
    if rest != [] {
      assert s[|host| + 2..] == rest[1..];
    }
  }

  /** Links of other kinds, and links without an '@', are not changed. */
  lemma RewriteUntouched(raw: Text, host: Text, port: int)
    requires DOLLAR !in host
    requires AT !in raw || !(VLESS <= raw || TROJAN <= raw || SS <= raw)
    ensures RewritePlain(raw, host, port) == Link(raw)
  {
    if AT !in raw {
      ReplaceNone(raw, [], HostPort(host, port));
      assert raw + [] == raw;
    }
  }

  lemma ShapeIsPlain(s: Shape)
    requires s.Valid()
    ensures IsPlainLink(s.Text())
  {
    assert s.scheme <= s.Text();
  }

  /** Rewriting replaces host and port and nothing else, or panics when the only '#' was in the old host. */
  lemma RewriteShape(s: Shape, host: Text, port: nat)
    requires s.Valid() && DOLLAR !in host
    ensures RewritePlain(s.Text(), host, port) ==
            if HASH in s.host && HASH !in s.user && HASH !in host && HASH !in s.tail then Panic
            else Link(s.(host := host, digits := Decimal(port)).Text())
  {
    ShapeIsPlain(s);
    ReplaceShape(s, HostPort(host, port));
    DigitsOnly(s.digits, HASH);
    DigitsOnly(Decimal(port), HASH);
    var t := s.(host := host, digits := Decimal(port));
    assert t.Text() == s.scheme + s.user + HostPort(host, port) + s.tail;
    HashWhere(s);
    HashWhere(t);
  }

  lemma HashWhere(s: Shape)
    requires PlainScheme(s.scheme) && HASH !in s.digits
    ensures HASH in s.Text() <==> HASH in s.user || HASH in s.host || HASH in s.tail
  {
  }

  /** Absorption: rewriting again forgets the first rewriting. */
  lemma RewriteAbsorbs(s: Shape, h1: Text, p1: nat, h2: Text, p2: nat)
    requires s.Valid() && HASH !in s.host
    requires DOLLAR !in h1 && DOLLAR !in h2
    requires h1 != [] && COLON !in h1 && HASH !in h1
    ensures RewritePlain(s.Text(), h1, p1).Link?
    ensures RewritePlain(RewritePlain(s.Text(), h1, p1).link, h2, p2) == RewritePlain(s.Text(), h2, p2)
  {
    RewriteShape(s, h1, p1);
    RewriteShape(s, h2, p2);
    var s1 := s.(host := h1, digits := Decimal(p1));
    RewriteShape(s1, h2, p2);
    assert s1.(host := h2, digits := Decimal(p2)) == s.(host := h2, digits := Decimal(p2));
  }

  /** Links that differ only in host and port become the same link. */
  lemma RewriteMerges(a: Shape, b: Shape, host: Text, port: nat)
    requires a.Valid() && b.Valid() && HASH !in a.host && HASH !in b.host
    requires DOLLAR !in host
    requires (a.scheme, a.user, a.tail) == (b.scheme, b.user, b.tail)
    ensures RewritePlain(a.Text(), host, port) == RewritePlain(b.Text(), host, port)
  {
    RewriteShape(a, host, port);
    RewriteShape(b, host, port);
    assert a.(host := host, digits := Decimal(port)) == b.(host := host, digits := Decimal(port));
  }

  // ---------- extractServerInfo: host and port ----------

  datatype Server = Server(host: Text, port: int)

  const NO_SERVER := Server([], 0)

  /** When url.Parse rejects the link, asking its nil result for the query panics. */
  datatype Reading = Read(server: Server) | Crash

  function ReadHostPort(rest: Text): Server
  {
    var at := Find(rest, AT);
    if at == |rest| then NO_SERVER
    else
      var tail := rest[at + 1..];
      SplitHostPort(tail[..Find(tail, QUESTION)])
  }

  function SplitHostPort(hostPort: Text): Server {
    var colon := Find(hostPort, COLON);
    if colon == |hostPort| then NO_SERVER else Server(hostPort[..colon], Atoi(hostPort[colon + 1..]))
  }

  /** What follows the scheme; without an '@' the link is not parsed at all. */
  function ReadRest(rest: Text): Reading {
    if AT !in rest then Read(NO_SERVER)
    else if !Accepts(rest) then Crash
    else Read(ReadHostPort(rest))
  }

  /** Host and port of a link that is not a vmess link. */
  function ServerInfo(link: Text): Reading {
    if HasPrefix(link, VLESS) then ReadRest(link[|VLESS|..])
    else if HasPrefix(link, TROJAN) then ReadRest(link[|TROJAN|..])
    else if HasPrefix(link, SS) then ReadRest(link[|SS|..])
    else Read(NO_SERVER)
  }

  /** Without an '@', or without one of the schemes, there is no server to read. */
  lemma NoServerRead(link: Text)
    requires AT !in link || !(VLESS <= link || TROJAN <= link || SS <= link)
    ensures ServerInfo(link) == Read(Server([], 0))
  {
    assert AT !in link ==> forall k :: 0 <= k <= |link| ==> AT !in link[k..];
  }

  lemma TextAfterScheme(s: Shape)
    ensures s.Text() == s.scheme + s.Rest()
    ensures s.Rest() == s.user + [AT] + (s.host + [COLON] + s.digits + s.tail)
    ensures AT in s.Rest()
  {
    assert s.Rest()[|s.user|] == AT;
  }

  lemma SchemeDecides(scheme: Text, link: Text)
    requires PlainScheme(scheme) && scheme <= link
    ensures HasPrefix(link, VLESS) <==> scheme == VLESS
    ensures HasPrefix(link, TROJAN) <==> scheme == TROJAN
    ensures HasPrefix(link, SS) <==> scheme == SS
  {
    assert link[0] == scheme[0] && link[1] == scheme[1];
  }

  lemma ServerInfoOfShape(s: Shape)
    requires s.Valid()
    ensures ServerInfo(s.Text()) == if Accepts(s.Rest()) then Read(ReadHostPort(s.Rest())) else Crash
  {
    TextAfterScheme(s);
    AppendSlices(s.scheme, s.Rest());
    SchemeDecides(s.scheme, s.Text());
  }

  /** What is read from user@host:digits and a tail: everything up to the first '?' counts as the port. */
  lemma ReadShape(user: Text, host: Text, digits: Text, tail: Text)
    requires AT !in user && COLON !in host && QUESTION !in host
    requires AllDigits(digits)
    ensures ReadHostPort(user + [AT] + (host + [COLON] + digits + tail)) ==
            Server(host, Atoi(digits + tail[..Find(tail, QUESTION)]))
  {
    var front := host + [COLON] + digits;
    var kept := tail[..Find(tail, QUESTION)];
    DigitsOnly(digits, QUESTION);
    ReadAfterAt(user, front + tail);
    CutAtQuery(front, tail);
    AppendAssoc(host + [COLON], digits, kept);
    SplitKept(host, digits + kept);
  }

  lemma ReadAfterAt(user: Text, after: Text)
    requires AT !in user
    ensures ReadHostPort(user + [AT] + after) == SplitHostPort(after[..Find(after, QUESTION)])
  {
    FindIn(user, AT, after);
    AppendSlices(user + [AT], after);
  }

  lemma CutAtQuery(front: Text, tail: Text)
    requires QUESTION !in front
    ensures (front + tail)[..Find(front + tail, QUESTION)] == front + tail[..Find(tail, QUESTION)]
  {
    FindWithin(front, QUESTION, tail);
  }

  lemma SplitKept(host: Text, port: Text)
    requires COLON !in host
    ensures SplitHostPort(host + [COLON] + port) == Server(host, Atoi(port))
  {
    FindIn(host, COLON, port);
    AppendSlices(host + [COLON], port);
    SliceAppend(host + [COLON], port, 0, |host|);
  }

  /**
    Reading back a rewritten link. It panics exactly when url.Parse rejects the link. Otherwise the new host is
    read back, and the new port exactly when nothing or a query follows it; else the port read is 0.
   */
  lemma ReadBackIff(s: Shape, host: Text, port: nat)
    requires s.Valid() && HASH !in s.host
    requires DOLLAR !in host && host != [] && COLON !in host && QUESTION !in host
    requires 0 < port <= MAX_INT
    ensures var t := s.(host := host, digits := Decimal(port));
            && RewritePlain(s.Text(), host, port) == Link(t.Text())
            && (ServerInfo(t.Text()) == Crash <==> !Accepts(t.Rest()))
            && (ServerInfo(t.Text()) == Read(Server(host, port)) <==>
                Accepts(t.Rest()) && (s.tail == [] || s.tail[0] == QUESTION))
            && (ServerInfo(t.Text()).Read? ==>
                ServerInfo(t.Text()).server == Server(host, port) || ServerInfo(t.Text()).server == Server(host, 0))
  {
    RewriteShape(s, host, port);
    var t := s.(host := host, digits := Decimal(port));
    ServerInfoOfShape(t);
    TextAfterScheme(t);
    ReadShape(t.user, t.host, t.digits, t.tail);
    var kept := s.tail[..Find(s.tail, QUESTION)];
    if s.tail == [] || s.tail[0] == QUESTION {
      assert Digits(port) + kept == Digits(port);
      AtoiDecimal(port);
    } else {
      AtoiGarbage(port, kept);
    }
  }

  /**
    The same for an ordinary link, part by part: host and port are read back exactly when nothing or a query
    follows, and user, host and tail are legal, whatever path, query and remark the tail holds.
   */
  lemma ReadBackOrdinary(s: Shape, host: Text, port: nat)
    requires s.Valid() && HASH !in s.host && WithinAuthority(s.user)
    requires DOLLAR !in host && host != [] && host[0] != OPEN
    requires COLON !in host && AT !in host && WithinAuthority(host)
    requires 0 < port <= MAX_INT
    requires EndsLink(s.tail)
    ensures var t := s.(host := host, digits := Decimal(port));
            var legal := UserOk(s.user) && HostBytesOk(host) && TailOk(s.tail);
            && RewritePlain(s.Text(), host, port) == Link(t.Text())
            && (ServerInfo(t.Text()) == Read(Server(host, port)) <==> legal && (s.tail == [] || s.tail[0] == QUESTION))
            && (ServerInfo(t.Text()) == Crash <==> !legal)
  {
    var t := s.(host := host, digits := Decimal(port));
    ReadBackIff(s, host, port);
    AcceptsNamed(s.user, host, Decimal(port), s.tail);
  }

  /** A remark with a bare percent sign at its end, such as "100%", makes reading any such link panic. */
  lemma PercentRemarkCrashes(s: Shape, host: Text, port: nat, remark: Text)
    requires s.Valid() && HASH !in s.host && WithinAuthority(s.user)
    requires DOLLAR !in host && host != [] && host[0] != OPEN
    requires COLON !in host && AT !in host && WithinAuthority(host)
    requires 0 < port <= MAX_INT
    requires HASH !in remark && PERCENT !in remark
    requires s.tail == [HASH] + remark + [PERCENT]
    ensures var t := s.(host := host, digits := Decimal(port));
            RewritePlain(s.Text(), host, port) == Link(t.Text()) && ServerInfo(t.Text()) == Crash
  {
    ReadBackOrdinary(s, host, port);
    BarePercent(remark);
    AfterFirst(HASH, remark + [PERCENT]);
    AppendAssoc([HASH], remark, [PERCENT]);
  }

  lemma AfterFirst(c: byte, rest: Text)
    ensures After([c] + rest, c) == rest
  {
  }

  lemma {:induction false} BarePercent(s: Text)
    requires PERCENT !in s
    ensures !EscapesOk(s + [PERCENT])
  {
    if s != [] {
      assert (s + [PERCENT])[0] == s[0] && (s + [PERCENT])[1..] == s[1..] + [PERCENT];
      BarePercent(s[1..]);
    }
  }

  /** So does anything but a query, a path or a remark straight after the port, such as a letter. */
  lemma GarbageAfterPortCrashes(s: Shape, host: Text, port: nat)
    requires s.Valid() && HASH !in s.host && WithinAuthority(s.user)
    requires DOLLAR !in host && host != [] && host[0] != OPEN
    requires COLON !in host && AT !in host && WithinAuthority(host)
    requires 0 < port <= MAX_INT
    requires s.tail != [] && COLON !in s.tail && WithinAuthority(s.tail)
    ensures var t := s.(host := host, digits := Decimal(port));
            RewritePlain(s.Text(), host, port) == Link(t.Text()) && ServerInfo(t.Text()) == Crash
  {
    ReadBackIff(s, host, port);
    RejectsAfterPort(s.user, host, Decimal(port), s.tail);
  }
}
