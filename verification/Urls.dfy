/**
  Which links url.Parse accepts, as in Go 1.24: only whether it fails matters here, for its caller then uses a
  nil URL. The scheme and the two slashes after it are taken as read.
 */
module Urls {
  import opened Bytes
  import opened Strings

  const AT: byte := 64
  const QUESTION: byte := 63
  const HASH: byte := 35
  const SLASH: byte := 47
  const PERCENT: byte := 37
  const OPEN: byte := 91
  const CLOSE: byte := 93
  const SPACE: byte := 32

  const PERCENT_ESCAPED: Text := [37, 50, 53]  // "%25"

  lemma DelimitersSpelled()
    ensures Spells([AT, QUESTION, HASH, SLASH, PERCENT, OPEN, CLOSE, SPACE], "@?#/%[] ")
    ensures Spells(PERCENT_ESCAPED, "%25")
  {
  }

  // ---------- the bytes each part may hold ----------

  predicate IsControl(c: byte) {
    c < 32 || c == 127
  }

  predicate NoControl(s: Text) {
    forall i :: 0 <= i < |s| ==> !IsControl(s[i])
  }

  predicate IsAlphanumeric(c: byte) {
    48 <= c <= 57 || 65 <= c <= 90 || 97 <= c <= 122
  }

  /** A letter, a digit, or one of -._~!$&'()*+,;= and : */
  predicate IsCommonByte(c: byte) {
    || IsAlphanumeric(c)
    || c == 45 || c == 46 || c == 95 || c == 126
    || c == 33 || c == 36 || 38 <= c <= 44 || c == 58 || c == 59 || c == 61
  }

  /** validUserinfo */
  predicate IsUserByte(c: byte) {
    IsCommonByte(c) || c == PERCENT || c == AT
  }

  /** A byte that need not be escaped in a host: also one of []<>" */
  predicate IsHostByte(c: byte) {
    IsCommonByte(c) || c == OPEN || c == CLOSE || c == 60 || c == 62 || c == 34
  }

  /** Unreserved characters, sub-delimiters and the colon of section 2 of RFC 3986; a host may hold a few more. */
  lemma HostBytesSpelled(c: byte)
    ensures IsCommonByte(c) <==>
            || 'A' as int <= c <= 'Z' as int || 'a' as int <= c <= 'z' as int || '0' as int <= c <= '9' as int
            || c as char in "-._~!$&'()*+,;=:"
    ensures IsUserByte(c) <==> IsCommonByte(c) || c as char in "%@"
    ensures IsHostByte(c) <==> IsCommonByte(c) || c as char in "[]<>\""
  {
  }

  // ---------- escapes ----------

  predicate IsEscape(s: Text) {
    |s| >= 3 && s[0] == PERCENT && IsHex(s[1]) && IsHex(s[2])
  }

  /** unescape for user, path and fragment */
  predicate EscapesOk(s: Text) {
    s == [] ||
    if s[0] == PERCENT then IsEscape(s) && EscapesOk(s[3..]) else EscapesOk(s[1..])
  }

  /** An escape in a host stands for a byte outside ASCII, or for the percent sign. */
  predicate IsHostEscape(s: Text) {
    IsEscape(s) && (HexValue(s[1]) >= 8 || s[..3] == PERCENT_ESCAPED)
  }

  /** unescape for a host */
  predicate HostBytesOk(s: Text) {
    s == [] ||
    if s[0] == PERCENT then IsHostEscape(s) && HostBytesOk(s[3..])
    else (s[0] >= 128 || IsHostByte(s[0])) && HostBytesOk(s[1..])
  }

  /** An escape in a zone stands for a byte that could be written as it is, for a space, or for the percent sign. */
  predicate IsZoneEscape(s: Text) {
    IsEscape(s) &&
    var v: byte := 16 * HexValue(s[1]) + HexValue(s[2]);
    s[..3] == PERCENT_ESCAPED || v == SPACE || IsHostByte(v)
  }

  /** unescape for the zone of an IPv6 address */
  predicate ZoneBytesOk(s: Text) {
    s == [] ||
    if s[0] == PERCENT then IsZoneEscape(s) && ZoneBytesOk(s[3..])
    else (s[0] >= 128 || IsHostByte(s[0])) && ZoneBytesOk(s[1..])
  }

  // ---------- the authority ----------

  /** validOptionalPort */
  predicate OptionalPort(s: Text) {
    s == [] || (s[0] == COLON && AllDigits(s[1..]))
  }

  function FindZone(s: Text): (i: nat)
    ensures i <= |s|
  {
    if s == [] || PERCENT_ESCAPED <= s then 0 else 1 + FindZone(s[1..])
  }

  predicate BracketHostOk(host: Text) {
    var close := FindLast(host, CLOSE);
    close < |host| && OptionalPort(host[close + 1..]) &&
    var zone := FindZone(host[..close]);
    if zone < close then HostBytesOk(host[..zone]) && ZoneBytesOk(host[zone..close]) && HostBytesOk(host[close..])
    else HostBytesOk(host)
  }

  /** parseHost, on a host with an optional port */
  predicate HostOk(host: Text) {
    if host != [] && host[0] == OPEN then BracketHostOk(host)
    else OptionalPort(host[FindLast(host, COLON)..]) && HostBytesOk(host)
  }

  /** User name and password are unescaped apart from each other. */
  predicate UserOk(user: Text) {
    && (forall i :: 0 <= i < |user| ==> IsUserByte(user[i]))
    && var colon := Find(user, COLON);
       EscapesOk(user[..colon]) && (colon < |user| ==> EscapesOk(user[colon + 1..]))
  }

  /** parseAuthority */
  predicate AuthorityOk(authority: Text) {
    var at := FindLast(authority, AT);
    if at == |authority| then HostOk(authority)
    else HostOk(authority[at + 1..]) && UserOk(authority[..at])
  }

  // ---------- the whole link ----------

  /** The part in front of the first c, and what follows it. */
  function Before(s: Text, c: byte): Text {
    s[..Find(s, c)]
  }

  function After(s: Text, c: byte): Text {
    if Find(s, c) < |s| then s[Find(s, c) + 1..] else []
  }

  /** url.Parse succeeds; `rest` is what follows "scheme://". */
  predicate Accepts(rest: Text) {
    && NoControl(Before(rest, HASH))
    && EscapesOk(After(rest, HASH))
    && var hierarchy := Before(Before(rest, HASH), QUESTION);
       && AuthorityOk(Before(hierarchy, SLASH))
       && EscapesOk(hierarchy[Find(hierarchy, SLASH)..])
  }

  // ---------- what is accepted ----------

  /** Text without a percent sign holds no escape. */
  lemma {:induction false} EscapesAround(a: Text, b: Text)
    requires PERCENT !in a
    ensures EscapesOk(a)
    ensures EscapesOk(a + b) <==> EscapesOk(b)
  {
    if a == [] {
      assert a + b == b;
    } else {
      EscapesAround(a[1..], b);
      assert (a + b)[1..] == a[1..] + b;
    }
  }

  /** A percent sign and two hexadecimal digits are always accepted, and nothing else with a percent sign is. */
  lemma EscapesFrom(hi: byte, lo: byte, b: Text)
    ensures EscapesOk([PERCENT, hi, lo] + b) <==> IsHex(hi) && IsHex(lo) && EscapesOk(b)
    ensures !EscapesOk([PERCENT]) && !EscapesOk([PERCENT, hi])
  {
    assert ([PERCENT, hi, lo] + b)[3..] == b;
  }

  lemma {:induction false} HostAround(a: Text, b: Text)
    requires forall i :: 0 <= i < |a| ==> a[i] >= 128 || IsHostByte(a[i])
    ensures HostBytesOk(a)
    ensures HostBytesOk(a + b) <==> HostBytesOk(b)
  {
    if a == [] {
      assert a + b == b;
    } else {
      HostAround(a[1..], b);
      assert (a + b)[1..] == a[1..] + b;
    }
  }

  /** User name and password need legal bytes and well-formed escapes each. */
  lemma UserParts(name: Text, password: Text)
    requires COLON !in name
    ensures UserOk(name) <==> (forall i :: 0 <= i < |name| ==> IsUserByte(name[i])) && EscapesOk(name)
    ensures UserOk(name + [COLON] + password) <==>
            && (forall i :: 0 <= i < |name| ==> IsUserByte(name[i])) && EscapesOk(name)
            && (forall i :: 0 <= i < |password| ==> IsUserByte(password[i])) && EscapesOk(password)
  {
    assert name[..|name|] == name;
    var user := name + [COLON] + password;
    FindIn(name, COLON, password);
    AppendSlices(name + [COLON], password);
    SliceAppend(name + [COLON], password, 0, |name|);
    assert (name + [COLON])[..|name|] == name;
    assert forall i :: 0 <= i < |name| ==> user[i] == name[i];
    assert forall i :: 0 <= i < |password| ==> user[|name| + 1 + i] == password[i];
  }

  /** In a host an escape must stand for a byte outside ASCII or for the percent sign. */
  lemma HostFrom(hi: byte, lo: byte, b: Text)
    ensures HostBytesOk([PERCENT, hi, lo] + b) <==>
            && IsHex(hi) && IsHex(lo)
            && (16 * HexValue(hi) + HexValue(lo) >= 128 || (hi == '2' as int && lo == '5' as int))
            && HostBytesOk(b)
  {
    var s := [PERCENT, hi, lo] + b;
    assert s[3..] == b && s[..3] == [PERCENT, hi, lo];
  }

  /** Names, addresses and UUIDs as they usually are. */
  predicate IsOrdinary(s: Text) {
    forall i :: 0 <= i < |s| ==> IsAlphanumeric(s[i]) || s[i] == 45 || s[i] == 46
  }

  lemma OrdinaryAccepted(s: Text)
    requires IsOrdinary(s)
    ensures UserOk(s) && HostBytesOk(s) && WithinAuthority(s)
    ensures AT !in s && COLON !in s && (s == [] || s[0] != OPEN)
  {
    HostAround(s, []);
    EscapesAround(s, []);
    assert s[..|s|] == s;
  }

  /** A host in brackets, such as an IPv6 address, may be followed by a port. */
  lemma BracketHost(inner: Text, port: Text)
    requires forall i :: 0 <= i < |inner| ==> IsHostByte(inner[i]) && inner[i] != CLOSE
    requires CLOSE !in port && PERCENT !in port
    ensures HostOk([OPEN] + inner + [CLOSE] + port) <==>
            port == [] || (port[0] == COLON && AllDigits(port[1..]))
  {
    var front := [OPEN] + inner;
    var host := front + [CLOSE] + port;
    FindLastIn(front, CLOSE, port);
    AppendSlices(front + [CLOSE], port);
    SliceAppend(front + [CLOSE], port, 0, |front|);
    NoZone(front);
    if port == [] || (port[0] == COLON && AllDigits(port[1..])) {
      HostAround(host, []);
    }
  }

  lemma {:induction false} NoZone(s: Text)
    requires PERCENT !in s
    ensures FindZone(s) == |s|
  {
    if s != [] {
      ZoneStarts(s);
      NoZone(s[1..]);
    }
  }

  lemma ZoneStarts(s: Text)
    requires s != []
    ensures PERCENT_ESCAPED <= s ==> s[0] == PERCENT
  {
    if PERCENT_ESCAPED <= s {
      assert PERCENT_ESCAPED[0] == s[0];
    }
  }

  // ---------- links of the usual shape ----------

  /** A colon ends an escape, so it can be cut at. */
  lemma {:induction false} HostBytesSplit(a: Text, b: Text)
    requires b != [] && b[0] == COLON
    ensures HostBytesOk(a + b) <==> HostBytesOk(a) && HostBytesOk(b)
    decreases |a|
  {
    var s := a + b;
    if a == [] {
      assert s == b;
    } else if a[0] != PERCENT {
      assert s[1..] == a[1..] + b;
      HostBytesSplit(a[1..], b);
    } else if |a| >= 3 {
      assert s[3..] == a[3..] + b && s[..3] == a[..3];
      HostBytesSplit(a[3..], b);
    } else {
      assert s[|a|] == COLON;
    }
  }

  lemma {:induction false} PortBytes(digits: Text)
    requires AllDigits(digits)
    ensures HostBytesOk(digits) && HostBytesOk([COLON] + digits)
  {
    if digits != [] {
      PortBytes(digits[1..]);
    }
    assert ([COLON] + digits)[1..] == digits;
  }

  /** A name and a port form a legal host when the bytes of the name do. */
  lemma NamedHost(name: Text, port: Text)
    requires COLON !in name && COLON !in port && (name == [] || name[0] != OPEN)
    ensures HostOk(name + [COLON] + port) <==> AllDigits(port) && HostBytesOk(name)
  {
    var host := name + [COLON] + port;
    FindLastIn(name, COLON, port);
    AppendAssoc(name, [COLON], port);
    AppendSlices(name, [COLON] + port);
    assert host[0] != OPEN;
    assert ([COLON] + port)[1..] == port;
    if AllDigits(port) {
      HostBytesSplit(name, [COLON] + port);
      PortBytes(port);
    }
  }

  /** user@name:port is a legal authority when its parts are. */
  lemma NamedAuthority(user: Text, name: Text, port: Text)
    requires AT !in name && AT !in port
    requires COLON !in name && COLON !in port && (name == [] || name[0] != OPEN)
    ensures AuthorityOk(user + [AT] + (name + [COLON] + port)) <==> UserOk(user) && AllDigits(port) && HostBytesOk(name)
  {
    var host := name + [COLON] + port;
    FindLastIn(user, AT, host);
    AppendSlices(user + [AT], host);
    SliceAppend(user + [AT], host, 0, |user|);
    assert (user + [AT])[..|user|] == user;
    NamedHost(name, port);
  }

  /** Bytes that end the authority. */
  predicate EndsAuthority(c: byte) {
    c == SLASH || c == QUESTION || c == HASH
  }

  predicate WithinAuthority(s: Text) {
    forall i :: 0 <= i < |s| ==> !EndsAuthority(s[i])
  }

  lemma BeforeWithin(front: Text, tail: Text, c: byte)
    requires c !in front
    ensures Before(front + tail, c) == front + Before(tail, c)
    ensures After(front + tail, c) == After(tail, c)
  {
    FindWithin(front, c, tail);
    var i := Find(tail, c);
    if i < |tail| {
      assert (front + tail)[|front| + i + 1..] == tail[i + 1..];
    }
  }

  /** A path, a query and a fragment, any of which may be missing. */
  predicate EndsLink(tail: Text) {
    tail == [] || EndsAuthority(tail[0])
  }

  /** What may be in them: no control byte in path or query, and no bad escape in path or fragment. */
  predicate TailOk(tail: Text) {
    && NoControl(Before(tail, HASH))
    && EscapesOk(Before(Before(tail, HASH), QUESTION))
    && EscapesOk(After(tail, HASH))
  }

  /** Behind the authority each part is checked by itself. */
  lemma AcceptsParts(authority: Text, tail: Text)
    requires WithinAuthority(authority) && EndsLink(tail)
    ensures Accepts(authority + tail) <==> AuthorityOk(authority) && NoControl(authority) && TailOk(tail)
  {
    BeforeWithin(authority, tail, HASH);
    var rest := Before(tail, HASH);
    BeforeWithin(authority, rest, QUESTION);
    var path := Before(rest, QUESTION);
    assert path == [] || path[0] == SLASH;
    BeforeWithin(authority, path, SLASH);
    assert Before(path, SLASH) == [] && authority + [] == authority;
    AppendSlices(authority, path);
    NoControlAppend(authority, rest);
  }

  lemma NoControlAppend(a: Text, b: Text)
    ensures NoControl(a + b) <==> NoControl(a) && NoControl(b)
  {
    var s := a + b;
    assert forall i :: 0 <= i < |a| ==> s[i] == a[i];
    forall i | 0 <= i < |b|
      ensures s[|a| + i] == b[i]
    {
    }
    if NoControl(s) {
      forall i | 0 <= i < |b|
        ensures !IsControl(b[i])
      {
        assert !IsControl(s[|a| + i]);
      }
    }
  }

  lemma {:induction false} HostHasNoControl(host: Text)
    requires HostBytesOk(host)
    ensures NoControl(host)
    decreases |host|
  {
    if host != [] {
      if host[0] == PERCENT {
        HostHasNoControl(host[3..]);
        assert forall i :: 3 <= i < |host| ==> host[i] == host[3..][i - 3];
      } else {
        HostHasNoControl(host[1..]);
        assert forall i :: 1 <= i < |host| ==> host[i] == host[1..][i - 1];
      }
    }
  }

  /** The acceptance test on user@name:digits with any path, query and fragment behind. */
  lemma AcceptsNamed(user: Text, name: Text, digits: Text, tail: Text)
    requires WithinAuthority(user) && WithinAuthority(name)
    requires AT !in name && COLON !in name && (name == [] || name[0] != OPEN)
    requires AllDigits(digits)
    requires EndsLink(tail)
    ensures Accepts(user + [AT] + (name + [COLON] + digits) + tail) <==> UserOk(user) && HostBytesOk(name) && TailOk(tail)
  {
    DigitsOnly(digits, AT);
    DigitsOnly(digits, COLON);
    NamedAuthority(user, name, digits);
    NamedWithin(user, name, digits);
    AcceptsParts(user + [AT] + (name + [COLON] + digits), tail);
    if UserOk(user) && HostBytesOk(name) {
      NamedNoControl(user, name, digits);
    }
  }

  lemma NamedWithin(user: Text, name: Text, digits: Text)
    requires WithinAuthority(user) && WithinAuthority(name) && AllDigits(digits)
    ensures WithinAuthority(user + [AT] + (name + [COLON] + digits))
  {
    WithinAppend(name, [COLON]);
    WithinAppend(name + [COLON], digits);
    WithinAppend(user, [AT]);
    WithinAppend(user + [AT], name + [COLON] + digits);
  }

  lemma NamedNoControl(user: Text, name: Text, digits: Text)
    requires UserOk(user) && HostBytesOk(name) && AllDigits(digits)
    ensures NoControl(user + [AT] + (name + [COLON] + digits))
  {
    HostHasNoControl(name);
    NoControlAppend(name, [COLON]);
    NoControlAppend(name + [COLON], digits);
    NoControlAppend(user, [AT]);
    NoControlAppend(user + [AT], name + [COLON] + digits);
  }

  lemma WithinAppend(a: Text, b: Text)
    requires WithinAuthority(a) && WithinAuthority(b)
    ensures WithinAuthority(a + b)
  {
  }

  /** Anything else right behind the port makes the port malformed, unless it brings a port of its own. */
  lemma RejectsAfterPort(user: Text, name: Text, digits: Text, tail: Text)
    requires WithinAuthority(user) && WithinAuthority(name) && WithinAuthority(tail)
    requires AT !in name && COLON !in name && (name == [] || name[0] != OPEN)
    requires AllDigits(digits)
    requires tail != [] && !IsDigit(tail[0]) && AT !in tail && COLON !in tail
    ensures !Accepts(user + [AT] + (name + [COLON] + digits) + tail)
  {
    var port := digits + tail;
    var authority := user + [AT] + (name + [COLON] + port);
    assert user + [AT] + (name + [COLON] + digits) + tail == authority;
    DigitsOnly(digits, AT);
    DigitsOnly(digits, COLON);
    assert port[|digits|] == tail[0];
    NamedAuthority(user, name, port);
    WithinAppend(digits, tail);
    WithinAppend(name + [COLON], port);
    WithinAppend(name, [COLON]);
    WithinAppend(user + [AT], name + [COLON] + port);
    WithinAppend(user, [AT]);
    assert authority + [] == authority;
    AcceptsParts(authority, []);
  }
}
