/** proxy.go: what one proxied connection does to the four byte streams it joins. */
module Proxy {
  import opened Bytes
  import opened Streams
  import opened VisionFormat
  import opened Vision
  import opened VlessHeader
  import opened UuidText

  // ---------- PrependConn ----------

  /** A connection with some bytes put back in front of it. */
  class PrependConn {
    const conn: Conn
    var buf: seq<byte>

    constructor (conn: Conn, buf: seq<byte>)
      ensures this.conn == conn && Pending() == buf + conn.incoming
    {
      this.conn, this.buf := conn, buf;
    }

    ghost function Pending(): seq<byte>
      reads this, conn
    {
      buf + conn.incoming
    }

    method Read(p: array<byte>) returns (n: nat, err: Option<Error>)
      modifies this, conn, p
      ensures n <= p.Length
      ensures err.None? ==> p[..n] + Pending() == old(Pending())
      ensures err.Some? ==> p[..n] == old(Pending())
      ensures p.Length > 0 && err.None? ==> n > 0
    {
      if |buf| > 0 {
        n := CopyInto(p, buf);
        err := None;
        PutBack(buf, n, conn.incoming);
        buf := buf[n..];
      } else {
        assert buf + conn.incoming == conn.incoming;
        n, err := conn.Read(p);
        assert buf + conn.incoming == conn.incoming;
      }
    }
  }

  lemma PutBack(buf: seq<byte>, n: nat, later: seq<byte>)
    requires n <= |buf|
    ensures buf[..n] + (buf[n..] + later) == buf + later
  {
  }

  /** Looking at the first byte of a connection is invisible to whoever reads it next. */
  method Sniff(conn: Conn) returns (first: Option<byte>, all: PrependConn)
    modifies conn
    ensures fresh(all) && all.conn == conn
    ensures first.None? <==> old(conn.incoming) == []
    ensures first.Some? ==> old(conn.incoming)[0] == first.value
    ensures all.Pending() == old(conn.incoming)
  {
    ghost var s := conn.incoming;
    var firstByte, err := ReadFull(Direct(conn), 1);
    if err.Some? {
      first := None;
      all := new PrependConn(conn, []);
    } else {
      first := Some(firstByte[0]);
      TakeDrop(s, 1);
      all := new PrependConn(conn, firstByte);
    }
  }

  // ---------- the header sent to the backend ----------

  const FLOW_TAG: byte := 0x0a

  /** encodeFlowAddon: a tag, a length byte truncated to eight bits, and the flow. */
  function FlowAddon(flow: Text): seq<byte> {
    if flow == [] then [] else [FLOW_TAG, |flow| % 256] + flow
  }

  function BackendHeader(client: Header, uuid: UUID, flow: Text): Header {
    Header(0, uuid, FlowAddon(flow), client.cmd, client.port, client.atyp, client.addr)
  }

  /**
    The header meant for the backend, field by field: the client's target under the backend's UUID, with the flow
    as a tagged and counted addon.
   */
  predicate IsForBackend(h: Header, client: Header, backend: UUID, flow: Text) {
    && h.version == 0 && h.uuid == backend
    && h.cmd == client.cmd && h.port == client.port && h.atyp == client.atyp && h.addr == client.addr
    && h.addon == if flow == [] then [] else [0x0a, |flow| % 256] + flow
  }

  /** "xtls-rprx-vision" */
  const VISION: Text := [120, 116, 108, 115, 45, 114, 112, 114, 120, 45, 118, 105, 115, 105, 111, 110]

  lemma FlowSpelled()
    ensures Spells(VISION, "xtls-rprx-vision")
  {
  }

  /** strings.Contains */
  predicate Contains(s: Text, sub: Text) {
    exists i :: 0 <= i <= |s| - |sub| && HasAt(s, sub, i)
  }

  predicate HasAt(s: Text, sub: Text, i: nat)
    requires i + |sub| <= |s|
  {
    s[i..i + |sub|] == sub
  }

  // ---------- the header in the log ----------

  const DUMP_SIZE := 64

  /** What the log shows: the header with a length byte in front of any address. */
  function DumpBytes(h: Header): seq<byte> {
    [h.version] + h.uuid + [|h.addon| % 256] + h.addon + [h.cmd] + [h.port / 256] + [h.port % 256] + [h.atyp] +
    [|h.addr| % 256] + h.addr
  }

  /** Whether the header fits the array it is shown from. */
  predicate DumpFits(addon: seq<byte>, addr: seq<byte>) {
    23 + |addon| + |addr| <= DUMP_SIZE
  }

  /** Assigning to an element or copying to a slice, which panics when out of bounds. */
  method Put(buf: array<byte>, n: nat, data: seq<byte>) returns (fits: bool, end: nat)
    requires n <= buf.Length
    modifies buf
    ensures fits <==> n + |data| <= buf.Length
    ensures fits ==> end == n + |data| && buf[..end] == old(buf[..n]) + data
  {
    fits, end := n + |data| <= buf.Length, n;
    if fits {
      forall i | 0 <= i < |data| {
        buf[n + i] := data[i];
      }
      end := n + |data|;
    }
  }

  /** The header dump; None stands for the panic. */
  method DumpHeader(h: Header) returns (shown: Option<seq<byte>>)
    ensures shown == if DumpFits(h.addon, h.addr) then Some(DumpBytes(h)) else None
  {
    var hdrBuf := new byte[DUMP_SIZE];
    var fits, hdrN := Put(hdrBuf, 0, [h.version]);
    assert hdrBuf[..hdrN] == [h.version];
    fits, hdrN := Put(hdrBuf, hdrN, h.uuid);
    fits, hdrN := Put(hdrBuf, hdrN, [|h.addon| % 256]);
    ghost var front := hdrBuf[..hdrN];
    if |h.addon| > 0 {
      fits, hdrN := Put(hdrBuf, hdrN, h.addon);
      if !fits { return None; }
    }
    assert hdrBuf[..hdrN] == front + h.addon;
    fits, hdrN := Put(hdrBuf, hdrN, [h.cmd]);
    if !fits { return None; }
    fits, hdrN := Put(hdrBuf, hdrN, [h.port / 256]);
    if !fits { return None; }
    fits, hdrN := Put(hdrBuf, hdrN, [h.port % 256]);
    if !fits { return None; }
    fits, hdrN := Put(hdrBuf, hdrN, [h.atyp]);
    if !fits { return None; }
    fits, hdrN := Put(hdrBuf, hdrN, [|h.addr| % 256]);
    if !fits { return None; }
    fits, hdrN := Put(hdrBuf, hdrN, h.addr);
    if !fits { return None; }
    shown := Some(hdrBuf[..hdrN]);
  }

  /** What is shown is what is sent exactly for a domain name: other addresses are sent without their length. */
  lemma ShownIsSentIff(h: Header)
    requires h.ValidAddr()
    ensures DumpBytes(h) == HeaderBytes(h) <==> h.atyp == ATYP_DOMAIN
  {
    if h.atyp == ATYP_DOMAIN {
      assert [h.port / 256] + [h.port % 256] == PutU16(h.port);
    } else {
      assert |DumpBytes(h)| == |HeaderBytes(h)| + 1;
    }
  }

  /** A flow is a Vision flow exactly if the name of the protocol stands somewhere in it. */
  lemma ContainsIff(s: Text, sub: Text)
    ensures Contains(s, sub) <==> exists a: Text, b: Text :: s == a + sub + b
  {
    if Contains(s, sub) {
      var i :| 0 <= i <= |s| - |sub| && HasAt(s, sub, i);
      assert s == s[..i] + sub + s[i + |sub|..];
    }
    if a: Text, b: Text :| s == a + sub + b {
      assert HasAt(s, sub, |a|);
    }
  }

  // ---------- the two directions ----------

  /** What follows the header on the way to the backend. */
  function ToBackend(vision: bool, s: seq<byte>, backendUUID: UUID, proxyUUID: UUID): seq<byte> {
    if vision then Relayed(s, true, backendUUID) else Decode(s, true, proxyUUID)
  }

  method ClientToBackend(vision: bool, client: Conn, backend: Sink, backendUUID: UUID, proxyUUID: UUID)
    modifies client, backend
    ensures old(backend.failed) ==> backend.failed
    ensures var sent := ToBackend(vision, old(client.incoming), backendUUID, proxyUUID);
            && old(backend.out) <= backend.out <= old(backend.out) + sent
            && (!backend.failed ==> backend.out == old(backend.out) + sent)
  {
    if vision {
      var relay := new VisionRelay(Direct(client), backend, backendUUID);
      var total, err := relay.Relay();
    } else {
      var vr := new VisionReader(client, proxyUUID);
      var total, err := Copy(ToSink(backend), Decoding(vr));
    }
  }

  /** What the client is sent for a backend stream: the response header is gone, the payload is under the proxy's UUID. */
  ghost predicate Returned(vision: bool, stream: seq<byte>, sent: seq<byte>, proxyUUID: UUID) {
    if vision then sent == Relayed(AfterResponse(stream), true, proxyUUID)
    else Decode(sent, true, proxyUUID) == AfterResponse(stream)
  }

  method BackendToClient(vision: bool, backend: Conn, client: Sink, proxyUUID: UUID)
    modifies backend, client
    ensures old(client.failed) ==> client.failed
    ensures |old(client.out)| <= |client.out|
    ensures !client.failed ==>
              Returned(vision, old(backend.incoming), client.out[|old(client.out)|..], proxyUUID)
  {
    var rc := new VlessResponseConn(backend);
    ghost var before := client.out;
    if vision {
      var relay := new VisionRelay(Response(rc), client, proxyUUID);
      var total, err := relay.Relay();
    } else {
      var vw := new VisionWriter(client, proxyUUID);
      var total, err := Copy(Framing(vw), Response(rc));
    }
  }

  method SendHeader(backend: Sink, h: Header)
    modifies backend
    ensures old(backend.failed) ==> backend.failed
    ensures old(backend.out) <= backend.out <= old(backend.out) + HeaderBytes(h)
    ensures !backend.failed ==> backend.out == old(backend.out) + HeaderBytes(h)
  {
    var bw := new FlushWriter(backend);
    WriteHeader(bw, h);
    assert bw.buf == HeaderBytes(h);
    var flushed := bw.Flush();  // its error is ignored
  }

  /** Returning early sends nothing; neither does the panic, which ends the program. */
  datatype Outcome = Refused | Panicked | Proxied

  ghost predicate HasReading(id: Text) {
    exists u: UUID :: ScansTo(WithoutDashes(id), u)
  }

  /** proxyToBackend, with the result of dialling given and the two copying goroutines run in turn. */
  method ProxyToBackend(clientHeader: Header, backendId: Text, flow: Text, dialled: bool, proxyUUID: UUID,
                        client: Conn, clientOut: Sink, backend: Conn, backendOut: Sink)
    returns (outcome: Outcome, ghost backendUUID: UUID)
    requires client != backend && clientOut != backendOut
    modifies client, clientOut, backend, backendOut
    ensures outcome.Refused? <==> !dialled || !HasReading(backendId)
    ensures outcome.Panicked? <==> dialled && HasReading(backendId) && !DumpFits(FlowAddon(flow), clientHeader.addr)
    ensures !outcome.Proxied? ==> backendOut.out == old(backendOut.out) && clientOut.out == old(clientOut.out)
    ensures outcome.Proxied? ==> ScansTo(WithoutDashes(backendId), backendUUID)
    ensures outcome.Proxied? && !backendOut.failed ==>
              backendOut.out == old(backendOut.out) + HeaderBytes(BackendHeader(clientHeader, backendUUID, flow)) +
                                ToBackend(Contains(flow, VISION), old(client.incoming), backendUUID, proxyUUID)
    ensures outcome.Proxied? ==>
              && DumpFits(FlowAddon(flow), clientHeader.addr)
              && IsForBackend(BackendHeader(clientHeader, backendUUID, flow), clientHeader, backendUUID, flow)
    ensures outcome.Proxied? && !clientOut.failed ==>
              && |old(clientOut.out)| <= |clientOut.out|
              && Returned(Contains(flow, VISION), old(backend.incoming), clientOut.out[|old(clientOut.out)|..], proxyUUID)
  {
    backendUUID := proxyUUID;
    var uuid := ParseUUID(backendId);
    if uuid.None? || !dialled {
      return Refused, backendUUID;
    }
    backendUUID := uuid.value;
    var header := BackendHeader(clientHeader, uuid.value, flow);
    var shown := DumpHeader(header);
    if shown.None? {
      return Panicked, backendUUID;
    }
    SendHeader(backendOut, header);
    var vision := Contains(flow, VISION);
    ClientToBackend(vision, client, backendOut, uuid.value, proxyUUID);
    BackendToClient(vision, backend, clientOut, proxyUUID);
    outcome := Proxied;
  }

  /** What is stored about a backend, as far as proxying goes. */
  datatype BackendEntry = BackendEntry(id: Text, flow: Text)

  /** The guards in front of dialling and proxying let the connection pass. */
  ghost predicate Admitted(stream: seq<byte>, entry: Option<BackendEntry>, dialled: bool) {
    ParseHeader(stream).Ok? && entry.Some? && entry.value.id != [] && dialled && HasReading(entry.value.id)
  }

  /** handleTLSConnection after the handshake: read the client's header, then proxy to the active backend. */
  method HandleClient(entry: Option<BackendEntry>, dialled: bool, proxyUUID: UUID,
                      client: Conn, clientOut: Sink, backend: Conn, backendOut: Sink)
    returns (outcome: Outcome, ghost backendUUID: UUID)
    requires client != backend && clientOut != backendOut
    modifies client, clientOut, backend, backendOut
    ensures outcome.Refused? <==> !Admitted(old(client.incoming), entry, dialled)
    ensures outcome.Proxied? <==>
              && Admitted(old(client.incoming), entry, dialled)
              && DumpFits(FlowAddon(entry.value.flow), ParseHeader(old(client.incoming)).value.value.addr)
    ensures !outcome.Proxied? ==> backendOut.out == old(backendOut.out) && clientOut.out == old(clientOut.out)
    ensures outcome.Proxied? ==> ScansTo(WithoutDashes(entry.value.id), backendUUID)
    ensures outcome.Proxied? && !backendOut.failed ==>
              && |old(backendOut.out)| <= |backendOut.out|
              && BackendReads(backendOut.out[|old(backendOut.out)|..], old(client.incoming), entry.value.flow,
                              backendUUID, proxyUUID)
    ensures outcome.Proxied? && !clientOut.failed ==>
              && |old(clientOut.out)| <= |clientOut.out|
              && Returned(Contains(entry.value.flow, VISION), old(backend.incoming),
                          clientOut.out[|old(clientOut.out)|..], proxyUUID)
  {
    outcome, backendUUID := Refused, proxyUUID;
    ghost var stream, before := client.incoming, backendOut.out;
    var header := ReadHeader(client);
    if header.Err? || entry.None? || entry.value.id == [] {
      return;
    }
    ghost var rest := client.incoming;
    outcome, backendUUID := ProxyToBackend(header.value, entry.value.id, entry.value.flow, dialled, proxyUUID,
                                           client, clientOut, backend, backendOut);
    if outcome.Proxied? {
      ghost var flow := entry.value.flow;
      ghost var h := HeaderBytes(BackendHeader(header.value, backendUUID, flow));
      ghost var sent := ToBackend(Contains(flow, VISION), rest, backendUUID, proxyUUID);
      AppendAssoc(before, h, sent);
      AppendSlices(before, h + sent);
      ClientToBackendEndToEnd(stream, backendUUID, proxyUUID, flow);
    }
  }

  // ---------- end to end ----------

  /**
    The codec carries the client's target, the flow addon and the payload to the backend exactly when the flow
    fits the addon's length byte.
   */
  lemma HeaderArrivesIff(client: Header, uuid: UUID, flow: Text, payload: seq<byte>)
    requires client.ValidAddr()
    ensures var h := BackendHeader(client, uuid, flow);
            && (ParseHeader(HeaderBytes(h) + payload) == Ok(Parsed(h, payload)) <==> |flow| <= 253)
            && IsForBackend(h, client, uuid, flow)
  {
    RoundTripIffValid(BackendHeader(client, uuid, flow), payload);
  }

  /** But the header is shown before it is sent, and with a Vision flow no domain name of more than 23 bytes fits. */
  lemma VisionFitsIff(client: Header, uuid: UUID)
    requires client.ValidAddr()
    ensures DumpFits(FlowAddon(VISION), client.addr) <==> client.atyp != ATYP_DOMAIN || |client.addr| <= 23
    ensures BackendHeader(client, uuid, VISION).Valid()
  {
  }

  /**
    What the backend makes of the bytes it is sent for a client stream: a header with the client's target and its
    own UUID, and then the content of the client's stream, in Vision frames or as it is.
   */
  ghost predicate BackendReads(sent: seq<byte>, stream: seq<byte>, flow: Text, backend: UUID, proxy: UUID)
    requires ParseHeader(stream).Ok?
  {
    var p := ParseHeader(stream).value;
    && ParseHeader(sent).Ok?
    && IsForBackend(ParseHeader(sent).value.value, p.value, backend, flow)
    && var payload := ParseHeader(sent).value.rest;
       if Contains(flow, VISION) then
         forall client: UUID :: UuidOk(p.rest, client) ==> Decode(payload, true, backend) == Decode(p.rest, true, client)
       else payload == Decode(p.rest, true, proxy)
  }

  /** Whenever the header fits its dump, the backend reads the client's target and content. */
  lemma ClientToBackendEndToEnd(stream: seq<byte>, backend: UUID, proxy: UUID, flow: Text)
    requires ParseHeader(stream).Ok?
    requires DumpFits(FlowAddon(flow), ParseHeader(stream).value.value.addr)
    ensures var p := ParseHeader(stream).value;
            BackendReads(HeaderBytes(BackendHeader(p.value, backend, flow)) +
                         ToBackend(Contains(flow, VISION), p.rest, backend, proxy), stream, flow, backend, proxy)
  {
    WriteAfterRead(stream);
    var p := ParseHeader(stream).value;
    HeaderArrivesIff(p.value, backend, flow, ToBackend(Contains(flow, VISION), p.rest, backend, proxy));
    forall client: UUID | UuidOk(p.rest, client)
      ensures Decode(Relayed(p.rest, true, backend), true, backend) == Decode(p.rest, true, client)
    {
      RelayTransparent(p.rest, client, backend);
    }
  }

  /** A backend stream: a response header with its addon, then the payload, which alone is passed on. */
  lemma ResponseStripped(version: byte, addon: seq<byte>, payload: seq<byte>)
    requires |addon| <= 255
    ensures AfterResponse([version, |addon|] + addon + payload) == payload
  {
    var s := [version, |addon|] + addon + payload;
    assert s[1] == |addon| && s[2..] == addon + payload;
    AppendSlices(addon, payload);
  }

  /** Back to the client: under the proxy's UUID it decodes what the backend sent after its response header. */
  lemma BackendToClientEndToEnd(vision: bool, version: byte, addon: seq<byte>, payload: seq<byte>, sent: seq<byte>,
                                backend: UUID, proxy: UUID)
    requires |addon| <= 255
    requires UuidOk(payload, backend)
    requires Returned(vision, [version, |addon|] + addon + payload, sent, proxy)
    ensures Decode(sent, true, proxy) == if vision then Decode(payload, true, backend) else payload
  {
    ResponseStripped(version, addon, payload);
    RelayTransparent(payload, backend, proxy);
  }
}
