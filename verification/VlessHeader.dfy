/** The VLESS request header: its wire format, the step-by-step reader and the writer of vless.go. */
module VlessHeader {
  import opened Bytes
  import opened Streams
  import opened Vision

  const ATYP_IPV4: byte := 1
  const ATYP_DOMAIN: byte := 2
  const ATYP_IPV6: byte := 4

  datatype Header = Header(
    version: byte, uuid: UUID, addon: seq<byte>, cmd: byte, port: uint16, atyp: byte, addr: seq<byte>)
  {
    /** What the wire format can carry. */
    predicate Valid() {
      && version == 0
      && |addon| <= 255
      && ValidAddr()
    }

    predicate ValidAddr() {
      || (atyp == ATYP_IPV4 && |addr| == 4)
      || (atyp == ATYP_IPV6 && |addr| == 16)
      || (atyp == ATYP_DOMAIN && |addr| <= 255)
    }
  }

  datatype HeaderError = Short | UnsupportedVersion | UnknownAtyp

  datatype Parsed<T> = Parsed(value: T, rest: seq<byte>)

  // ---------- the format ----------

  /** WriteVLESSHeader's bytes; both length bytes are truncated to eight bits. */
  function HeaderBytes(h: Header): seq<byte> {
    [h.version] + h.uuid + [(|h.addon| % 256) as byte] + h.addon + [h.cmd] + PutU16(h.port) + [h.atyp] + AddrBytes(h)
  }

  function AddrBytes(h: Header): seq<byte> {
    if h.atyp == ATYP_IPV4 || h.atyp == ATYP_IPV6 then h.addr
    else if h.atyp == ATYP_DOMAIN then [(|h.addr| % 256) as byte] + h.addr
    else []
  }

  function Take(s: seq<byte>, n: nat): Result<Parsed<seq<byte>>, HeaderError> {
    if |s| < n then Err(Short) else Ok(Parsed(s[..n], s[n..]))
  }

  /** A length byte, then that many bytes. */
  function TakeCounted(s: seq<byte>): Result<Parsed<seq<byte>>, HeaderError> {
    if s == [] then Err(Short) else Take(s[1..], s[0])
  }

  function ParseAddr(atyp: byte, s: seq<byte>): Result<Parsed<seq<byte>>, HeaderError> {
    if atyp == ATYP_IPV4 then Take(s, 4)
    else if atyp == ATYP_IPV6 then Take(s, 16)
    else if atyp == ATYP_DOMAIN then TakeCounted(s)
    else Err(UnknownAtyp)
  }

  /** Command, port, address type and address. */
  function ParseTarget(s: seq<byte>, version: byte, uuid: UUID, addon: seq<byte>): Result<Parsed<Header>, HeaderError> {
    if |s| < 4 then Err(Short)
    else
      match ParseAddr(s[3], s[4..])
      case Err(e) => Err(e)
      case Ok(a) => Ok(Parsed(Header(version, uuid, addon, s[0], U16(s[1], s[2]), s[3], a.value), a.rest))
  }

  /** ReadVLESSHeader on the bytes of a whole stream. */
  function ParseHeader(s: seq<byte>): Result<Parsed<Header>, HeaderError> {
    if |s| < 1 then Err(Short)
    else if s[0] != 0 then Err(UnsupportedVersion)
    else if |s| < 17 then Err(Short)
    else
      match TakeCounted(s[17..])
      case Err(e) => Err(e)
      case Ok(a) => ParseTarget(a.rest, s[0], s[1..17], a.value)
  }

  // ---------- the format spelled out ----------

  /** The address types and the place of every byte; lengths count the addon and, for a domain name, the address. */
  lemma HeaderLayout(h: Header)
    ensures h.ValidAddr() <==>
            || (h.atyp == 1 && |h.addr| == 4)
            || (h.atyp == 2 && |h.addr| <= 255)
            || (h.atyp == 4 && |h.addr| == 16)
    ensures h.ValidAddr() && |h.addon| <= 255 ==>
              HeaderBytes(h) ==
              [h.version] + h.uuid + [|h.addon|] + h.addon + [h.cmd, h.port / 256, h.port % 256, h.atyp] +
              (if h.atyp == 2 then [|h.addr|] else []) + h.addr
  {
  }

  /** A header with another version is rejected at its first byte. */
  lemma RejectsVersion(s: seq<byte>)
    requires s != [] && s[0] != 0
    ensures ParseHeader(s) == Err(UnsupportedVersion)
  {
  }

  /** A header with another address type is rejected at that byte. */
  lemma RejectsAtyp(uuid: UUID, addon: seq<byte>, cmd: byte, port: uint16, atyp: byte, rest: seq<byte>)
    requires |addon| <= 255 && atyp !in {1, 2, 4}
    ensures ParseHeader([0] + uuid + ([|addon|] + addon + ([cmd, port / 256, port % 256, atyp] + rest))) == Err(UnknownAtyp)
  {
    var target := [cmd, port / 256, port % 256, atyp] + rest;
    var s := [0] + uuid + ([|addon|] + addon + target);
    AppendSlices([0] + uuid, [|addon|] + addon + target);
    SliceAppend([0] + uuid, [|addon|] + addon + target, 1, 17);
    TakeWhole(addon, target);
  }

  // ---------- the codec is a bijection between valid headers and prefix-free byte strings ----------

  lemma TakeWhole(a: seq<byte>, rest: seq<byte>)
    ensures Take(a + rest, |a|) == Ok(Parsed(a, rest))
    ensures |a| <= 255 ==> TakeCounted([|a|] + a + rest) == Ok(Parsed(a, rest))
  {
    AppendSlices(a, rest);
    if |a| <= 255 {
      assert ([|a|] + a + rest)[1..] == a + rest;
    }
  }

  lemma AddrRoundTrip(h: Header, rest: seq<byte>)
    requires h.ValidAddr()
    ensures ParseAddr(h.atyp, AddrBytes(h) + rest) == Ok(Parsed(h.addr, rest))
  {
    TakeWhole(h.addr, rest);
  }

  lemma TargetRoundTrip(h: Header, rest: seq<byte>)
    requires h.ValidAddr()
    ensures ParseTarget([h.cmd] + PutU16(h.port) + [h.atyp] + AddrBytes(h) + rest, h.version, h.uuid, h.addon)
            == Ok(Parsed(h, rest))
  {
    var head := [h.cmd] + PutU16(h.port) + [h.atyp];
    AppendAssoc(head, AddrBytes(h), rest);
    AppendSlices(head, AddrBytes(h) + rest);
    AddrRoundTrip(h, rest);
  }

  /** The header in the groups the reader takes it in. */
  lemma HeaderRegroup(h: Header, rest: seq<byte>)
    requires |h.addon| <= 255
    ensures var target := [h.cmd] + PutU16(h.port) + [h.atyp] + AddrBytes(h);
            HeaderBytes(h) + rest == [h.version] + h.uuid + ([|h.addon|] + h.addon + (target + rest))
  {
  }

  lemma ReadAfterWrite(h: Header, rest: seq<byte>)
    requires h.Valid()
    ensures ParseHeader(HeaderBytes(h) + rest) == Ok(Parsed(h, rest))
  {
    var target := [h.cmd] + PutU16(h.port) + [h.atyp] + AddrBytes(h);
    var s := HeaderBytes(h) + rest;
    HeaderRegroup(h, rest);
    assert s[1..17] == h.uuid;
    assert s[17..] == [|h.addon|] + h.addon + (target + rest);
    TakeWhole(h.addon, target + rest);
    TargetRoundTrip(h, rest);
  }

  lemma TakeInverse(s: seq<byte>, n: nat)
    ensures Take(s, n).Ok? ==> Take(s, n).value.value + Take(s, n).value.rest == s && |Take(s, n).value.value| == n
    ensures TakeCounted(s).Ok? ==>
              var a := TakeCounted(s).value;
              |a.value| <= 255 && [|a.value|] + a.value + a.rest == s
  {
    if TakeCounted(s).Ok? {
      assert s == [s[0]] + s[1..];
    }
  }

  lemma WriteTargetAfterRead(s: seq<byte>, version: byte, uuid: UUID, addon: seq<byte>)
    requires ParseTarget(s, version, uuid, addon).Ok?
    ensures var h, rest := ParseTarget(s, version, uuid, addon).value.value, ParseTarget(s, version, uuid, addon).value.rest;
            && h.ValidAddr() && h.version == version && h.uuid == uuid && h.addon == addon
            && [h.cmd] + PutU16(h.port) + [h.atyp] + AddrBytes(h) + rest == s
  {
    var h, rest := ParseTarget(s, version, uuid, addon).value.value, ParseTarget(s, version, uuid, addon).value.rest;
    TakeInverse(s[4..], 4);
    TakeInverse(s[4..], 16);
    assert [h.cmd] + PutU16(h.port) + [h.atyp] == s[..4];
    AppendAssoc(s[..4], AddrBytes(h), rest);
    assert AddrBytes(h) + rest == s[4..];
    TakeDrop(s, 4);
  }

  lemma WriteAfterRead(s: seq<byte>)
    requires ParseHeader(s).Ok?
    ensures var p := ParseHeader(s).value;
            p.value.Valid() && HeaderBytes(p.value) + p.rest == s
  {
    var p := ParseHeader(s).value;
    var h := p.value;
    TakeInverse(s[17..], 0);
    var a := TakeCounted(s[17..]).value;
    WriteTargetAfterRead(a.rest, s[0], s[1..17], a.value);
    HeaderRegroup(h, p.rest);
    assert [s[0]] + s[1..17] == s[..17];
    TakeDrop(s, 17);
  }

  /** The writer's output reads back as the same header exactly when the header is valid. */
  lemma RoundTripIffValid(h: Header, rest: seq<byte>)
    ensures ParseHeader(HeaderBytes(h) + rest) == Ok(Parsed(h, rest)) <==> h.Valid()
  {
    if h.Valid() {
      ReadAfterWrite(h, rest);
    } else if ParseHeader(HeaderBytes(h) + rest) == Ok(Parsed(h, rest)) {
      WriteAfterRead(HeaderBytes(h) + rest);
    }
  }

  lemma ReadOwn(h: Header)
    requires h.Valid()
    ensures ParseHeader(HeaderBytes(h)) == Ok(Parsed(h, []))
  {
    ReadAfterWrite(h, []);
    assert HeaderBytes(h) + [] == HeaderBytes(h);
  }

  /** More bytes after a readable header change nothing but what is left. */
  lemma ReadExtends(s: seq<byte>, t: seq<byte>)
    requires ParseHeader(s).Ok?
    ensures var p := ParseHeader(s).value;
            ParseHeader(s + t) == Ok(Parsed(p.value, p.rest + t))
  {
    var p := ParseHeader(s).value;
    WriteAfterRead(s);
    AppendAssoc(HeaderBytes(p.value), p.rest, t);
    ReadAfterWrite(p.value, p.rest + t);
  }

  lemma ParseTargetFinal(s: seq<byte>, t: seq<byte>, version: byte, uuid: UUID, addon: seq<byte>)
    requires ParseTarget(s, version, uuid, addon).Err?
    requires ParseTarget(s, version, uuid, addon).error != Short
    ensures ParseTarget(s + t, version, uuid, addon) == ParseTarget(s, version, uuid, addon)
  {
  }

  lemma TakeCountedExtends(s: seq<byte>, t: seq<byte>)
    requires TakeCounted(s).Ok?
    ensures TakeCounted(s + t) == Ok(Parsed(TakeCounted(s).value.value, TakeCounted(s).value.rest + t))
  {
    DropAppend(s, t, 1);
    SliceAppend(s[1..], t, 0, s[0]);
    DropAppend(s[1..], t, s[0]);
  }

  /** An error other than a missing byte stays whatever bytes follow. */
  lemma ErrorIsFinal(s: seq<byte>, t: seq<byte>)
    requires ParseHeader(s).Err? && ParseHeader(s).error != Short
    ensures ParseHeader(s + t) == ParseHeader(s)
  {
    if s[0] == 0 {
      DropAppend(s, t, 17);
      SliceAppend(s, t, 1, 17);
      TakeCountedExtends(s[17..], t);
      var a := TakeCounted(s[17..]).value;
      ParseTargetFinal(a.rest, t, s[0], s[1..17], a.value);
    }
  }

  /** Of an encoding that is cut short, a byte is missing. */
  lemma PrefixRejected(h: Header, k: nat)
    requires h.Valid()
    requires k < |HeaderBytes(h)|
    ensures ParseHeader(HeaderBytes(h)[..k]) == Err(Short)
  {
    var s := HeaderBytes(h);
    TakeDrop(s, k);
    ReadOwn(h);
    if ParseHeader(s[..k]).Ok? {
      ReadExtends(s[..k], s[k..]);
    } else if ParseHeader(s[..k]).error != Short {
      ErrorIsFinal(s[..k], s[k..]);
    }
  }

  /** Encodings are prefix-free, and different headers have different encodings. */
  lemma PrefixFree(h1: Header, h2: Header)
    requires h1.Valid() && h2.Valid()
    requires HeaderBytes(h1) <= HeaderBytes(h2)
    ensures h1 == h2
  {
    var a, b := HeaderBytes(h1), HeaderBytes(h2);
    ReadOwn(h1);
    ReadOwn(h2);
    PrefixSplit(a, b);
    if |a| < |b| {
      PrefixRejected(h2, |a|);
    }
  }

  // ---------- reading and writing step by step ----------

  /** FlushWriter: collects writes and sends them as one. */
  class FlushWriter {
    const sink: Sink
    var buf: seq<byte>

    constructor (sink: Sink)
      ensures this.sink == sink && buf == []
    {
      this.sink, buf := sink, [];
    }

    method Write(p: seq<byte>)
      modifies this
      ensures buf == old(buf) + p
    {
      buf := buf + p;
    }

    method Flush() returns (err: Option<Error>)
      modifies this, sink
      ensures buf == []
      ensures old(sink.failed) || err.Some? <==> sink.failed
      ensures old(sink.out) <= sink.out <= old(sink.out) + old(buf)
      ensures err.None? ==> sink.out == old(sink.out) + old(buf)
    {
      var n;
      TakeDrop(buf, |buf|);
      n, err := sink.Write(buf);
      buf := [];
    }
  }

  method WriteHeader(w: FlushWriter, h: Header)
    modifies w
    ensures w.buf == old(w.buf) + HeaderBytes(h)
  {
    w.Write([h.version]);
    w.Write(h.uuid);
    w.Write([(|h.addon| % 256) as byte]);
    if |h.addon| > 0 {
      w.Write(h.addon);
    }
    ghost var front := [h.version] + h.uuid + [(|h.addon| % 256) as byte] + h.addon;
    assert w.buf == old(w.buf) + front;
    w.Write([h.cmd]);
    w.Write(PutU16(h.port));
    w.Write([h.atyp]);
    WriteAddr(w, h);
    FrontAndTarget(h, front);
  }

  lemma FrontAndTarget(h: Header, front: seq<byte>)
    requires front == [h.version] + h.uuid + [(|h.addon| % 256) as byte] + h.addon
    ensures HeaderBytes(h) == front + [h.cmd] + PutU16(h.port) + [h.atyp] + AddrBytes(h)
  {
  }

  /** The switch at the end of WriteVLESSHeader. */
  method WriteAddr(w: FlushWriter, h: Header)
    modifies w
    ensures w.buf == old(w.buf) + AddrBytes(h)
  {
    if h.atyp == ATYP_IPV4 || h.atyp == ATYP_IPV6 {
      w.Write(h.addr);
    } else if h.atyp == ATYP_DOMAIN {
      w.Write([(|h.addr| % 256) as byte]);
      w.Write(h.addr);
    }
  }

  /** io.ReadFull on a connection, with the header reader's error. */
  method ReadN(c: Conn, n: nat) returns (r: Result<seq<byte>, HeaderError>)
    modifies c
    ensures match Take(old(c.incoming), n)
            case Err(e) => r == Err(e)
            case Ok(p) => r == Ok(p.value) && c.incoming == p.rest
  {
    var data, err := ReadFull(Direct(c), n);
    r := if err.Some? then Err(Short) else Ok(data);
  }

  /** ReadVLESSHeader takes one header off the connection, and exactly its bytes. */
  method ReadHeader(c: Conn) returns (r: Result<Header, HeaderError>)
    modifies c
    ensures match ParseHeader(old(c.incoming))
            case Err(e) => r == Err(e)
            case Ok(p) => r == Ok(p.value) && c.incoming == p.rest
  {
    ghost var s := c.incoming;
    var version := ReadN(c, 1);
    if version.Err? { return Err(version.error); }
    if version.value[0] != 0 { return Err(UnsupportedVersion); }

    var uuid := ReadN(c, 16);
    if uuid.Err? { return Err(uuid.error); }
    assert uuid.value == s[1..17] && c.incoming == s[17..];

    var addonLen := ReadN(c, 1);
    if addonLen.Err? { return Err(addonLen.error); }
    var addon := [];
    if addonLen.value[0] > 0 {
      var a := ReadN(c, addonLen.value[0]);
      if a.Err? { return Err(a.error); }
      addon := a.value;
    }
    assert TakeCounted(s[17..]) == Ok(Parsed(addon, c.incoming));
    r := ReadTarget(c, version.value[0], uuid.value, addon);
  }

  /** The second half of ReadVLESSHeader. */
  method ReadTarget(c: Conn, version: byte, uuid: UUID, addon: seq<byte>) returns (r: Result<Header, HeaderError>)
    modifies c
    ensures match ParseTarget(old(c.incoming), version, uuid, addon)
            case Err(e) => r == Err(e)
            case Ok(p) => r == Ok(p.value) && c.incoming == p.rest
  {
    ghost var s := c.incoming;
    var cmd := ReadN(c, 1);
    if cmd.Err? { return Err(cmd.error); }
    var port := ReadN(c, 2);
    if port.Err? { return Err(port.error); }
    var atyp := ReadN(c, 1);
    if atyp.Err? { return Err(atyp.error); }
    assert c.incoming == s[4..];

    var addr;
    if atyp.value[0] == ATYP_IPV4 {
      addr := ReadN(c, 4);
    } else if atyp.value[0] == ATYP_IPV6 {
      addr := ReadN(c, 16);
    } else if atyp.value[0] == ATYP_DOMAIN {
      addr := ReadN(c, 1);
      if addr.Err? { return Err(addr.error); }
      addr := ReadN(c, addr.value[0]);
    } else {
      return Err(UnknownAtyp);
    }
    if addr.Err? { return Err(addr.error); }
    r := Ok(Header(version, uuid, addon, cmd.value[0], U16(port.value[0], port.value[1]), atyp.value[0], addr.value));
  }
}
