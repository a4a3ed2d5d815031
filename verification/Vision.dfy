/** The stream codecs of vision.go, and the io.ReadFull and io.Copy loops that drive them. */
module Vision {
  import opened Bytes
  import opened Streams
  import opened VisionFormat

  // ---------- vlessResponseConn ----------

  predicate HasResponse(s: seq<byte>) {
    |s| >= 2 && |s| - 2 >= s[1]
  }

  /** What follows the backend's response header: two bytes and an addon whose length is the second. */
  function AfterResponse(s: seq<byte>): seq<byte> {
    if HasResponse(s) then s[2..][s[1]..] else []
  }

  /** io.ReadFull's error when the stream ends after some of the bytes it wants, or before any. */
  function FullError(some: bool, end: Error): Error {
    if some && end == EOF then UnexpectedEOF else end
  }

  /** Why the response header of a whole stream cannot be read. */
  function ResponseError(s: seq<byte>, end: Error): Error
    requires !HasResponse(s)
  {
    if |s| < 2 then FullError(s != [], end) else FullError(|s| > 2, end)
  }

  class VlessResponseConn {
    const conn: Conn
    var done: bool  // the sync.Once
    var header: seq<byte>
    var err: Option<Error>

    constructor (conn: Conn)
      ensures this.conn == conn && !done && err.None?
    {
      this.conn, done, header, err := conn, false, [], None;
    }

    ghost function Pending(): seq<byte>
      reads this, conn
    {
      if !done then AfterResponse(conn.incoming)
      else if err.Some? then []
      else conn.incoming
    }

    /** The error a read reports when there is nothing left. */
    ghost function Ending(): Error
      reads this, conn
    {
      if !done then
        if HasResponse(conn.incoming) then conn.end else ResponseError(conn.incoming, conn.end)
      else if err.Some? then err.value
      else conn.end
    }

    /** The body of once.Do: strip the response header, or remember why it could not be read. */
    method StripHeader()
      requires !done && err.None?
      modifies this, conn
      ensures done
      ensures err.None? <==> HasResponse(old(conn.incoming))
      ensures err.None? ==> header + conn.incoming == old(conn.incoming)
      ensures Pending() == old(Pending()) && Ending() == old(Ending())
      ensures |conn.incoming| <= |old(conn.incoming)|
      decreases 1, 0
    {
      done := true;
      var h, e := ReadFull(Direct(conn), 2);
      if e.Some? {
        err := e;
        return;
      }
      if h[1] > 0 {
        var addon, e' := ReadFull(Direct(conn), h[1]);
        if e'.Some? {
          err := e';
          return;
        }
        h := h + addon;
      }
      header := h;
    }

    method Read(p: array<byte>) returns (n: nat, e: Option<Error>)
      requires !done ==> err.None?
      modifies this, conn, p
      ensures done
      ensures old(done) ==> header == old(header) && err == old(err)
      ensures n <= p.Length
      ensures e.None? ==> p[..n] + Pending() == old(Pending())
      ensures e.Some? ==> p[..n] == old(Pending())
      ensures e.Some? ==> Pending() == [] && e.value == old(Ending())
      ensures Ending() == old(Ending())
      ensures p.Length > 0 && e.None? ==> n > 0
      ensures |conn.incoming| + n <= |old(conn.incoming)|
      decreases 1, 1
    {
      if !done {
        StripHeader();
      }
      if err.Some? {
        return 0, err;
      }
      n, e := conn.Read(p);
    }
  }

  /** Buffered content from pos on, then what is still on the way. */
  function Upcoming(buf: seq<byte>, pos: nat, later: seq<byte>): seq<byte>
    requires pos <= |buf|
  {
    if pos < |buf| then buf[pos..] + later else later
  }

  /** Handing over the next n buffered bytes leaves the rest to come. */
  lemma HandOver(buf: seq<byte>, pos: nat, n: nat, later: seq<byte>)
    requires pos + n <= |buf|
    ensures buf[pos..][..n] + Upcoming(buf, pos + n, later) == Upcoming(buf, pos, later)
  {
  }

  lemma Unbuffered(buf: seq<byte>, later: seq<byte>)
    ensures Upcoming(buf, 0, later) == buf + later
  {
  }

  // ---------- VisionReader ----------

  class VisionReader {
    const reader: Conn
    const uuid: UUID
    var rawMode: bool
    var isFirst: bool
    var buf: seq<byte>
    var bufPos: nat

    constructor (reader: Conn, uuid: UUID)
      ensures this.reader == reader && this.uuid == uuid
      ensures Valid() && Pending() == Decode(reader.incoming, true, uuid)
      ensures buf == [] && bufPos == 0
    {
      this.reader, this.uuid := reader, uuid;
      rawMode, isFirst, buf, bufPos := false, true, [], 0;
    }

    ghost predicate Valid()
      reads this
    {
      bufPos <= |buf|
    }

    /** The content still on the way. */
    ghost function Later(): seq<byte>
      reads `rawMode, `isFirst, reader
    {
      if rawMode then reader.incoming else Decode(reader.incoming, isFirst, uuid)
    }

    /** The content still to be delivered. */
    ghost function Pending(): seq<byte>
      requires Valid()
      reads this, reader
    {
      Upcoming(buf, bufPos, Later())
    }

    /** How many bytes there are still to be read, framed or already decoded. */
    ghost function Unread(): nat
      requires Valid()
      reads this, reader
    {
      |reader.incoming| + |buf| - bufPos
    }

    method Read(p: array<byte>) returns (n: nat, err: Option<Error>)
      requires Valid()
      modifies this, reader, p
      ensures Valid()
      ensures n <= p.Length
      ensures err.None? ==> p[..n] + Pending() == old(Pending())
      ensures err.Some? ==> p[..n] == old(Pending())
      ensures n > 0 || (p.Length > 0 && err.None?) ==> Unread() < old(Unread())
      ensures Unread() <= old(Unread())
      decreases 1, 2
    {
      if bufPos < |buf| {
        n := Drain(p);
        return n, None;
      }
      if rawMode {
        n, err := reader.Read(p);
        return;
      }
      err := ReadFrame();
      if err.Some? {
        return 0, err;
      }
      Unbuffered(buf, Later());
      n := Drain(p);
    }

    /** The copying part of Read: hand over buffered content. */
    method Drain(p: array<byte>) returns (n: nat)
      requires Valid()
      modifies `bufPos, p
      ensures Valid()
      ensures n == Min(p.Length, |buf| - old(bufPos)) && bufPos == old(bufPos) + n
      ensures p[..n] + Pending() == old(Pending())
    {
      n := CopyInto(p, buf[bufPos..]);
      HandOver(buf, bufPos, n, Later());
      bufPos := bufPos + n;
    }

    /** Reading a frame header, with the UUID check on the first one. */
    method ReadHeader() returns (command: byte, contentLen: uint16, paddingLen: uint16, err: Option<Error>)
      requires !rawMode
      modifies `isFirst, reader
      ensures err.Some? ==> old(Later()) == [] && |reader.incoming| <= |old(reader.incoming)|
      ensures err.None? ==>
                var s, first := old(reader.incoming), old(isFirst);
                && |s| >= HeaderSize(first) && (first ==> s[..16] == uuid) && !isFirst
                && command == Command(s, first)
                && contentLen == ContentLen(s, first)
                && paddingLen == PaddingLen(s, first)
                && reader.incoming == s[HeaderSize(first)..]
      decreases 1, 0
    {
      command, contentLen, paddingLen := 0, 0, 0;
      ghost var s := reader.incoming;
      var h := HeaderSize(isFirst);
      var header, e := ReadFull(Direct(reader), h);
      if e.Some? {
        err := Some(Wrapped(e.value));
        return;
      }
      if isFirst {
        SliceTake(s, 0, 16, h);
        if header[..16] != uuid {
          err := Some(UuidMismatch);
          return;
        }
        isFirst := false;
      }
      command := header[h - 5];
      contentLen := U16(header[h - 4], header[h - 3]);
      paddingLen := U16(header[h - 2], header[h - 1]);
      err := None;
    }

    /** The framed part of Read: take one frame off the source and keep its content in buf. */
    method ReadFrame() returns (err: Option<Error>)
      requires Valid() && !rawMode && bufPos == |buf|
      modifies this, reader
      ensures Valid()
      ensures err.Some? ==> old(Later()) == []
      ensures err.None? ==> bufPos == 0 && buf + Later() == old(Later())
      ensures err.None? ==> |reader.incoming| + |buf| < |old(reader.incoming)|
      ensures err.Some? ==> bufPos == |buf| && |reader.incoming| <= |old(reader.incoming)|
      decreases 1, 1
    {
      ghost var s, first := reader.incoming, isFirst;
      var command, contentLen, paddingLen;
      command, contentLen, paddingLen, err := ReadHeader();
      if err.Some? {
        return;
      }
      FrameReads(s, first);
      DecodeFrame(s, first, uuid);
      var content;
      content, err := ReadBody(contentLen, paddingLen);
      if err.Some? {
        return;
      }
      rawMode := SwitchesToRaw(command);
      buf, bufPos := content, 0;
    }

    /** Reading content and padding. */
    method ReadBody(contentLen: uint16, paddingLen: uint16) returns (content: seq<byte>, err: Option<Error>)
      modifies reader
      ensures var r := old(reader.incoming);
              && (err.None? <==> |r| >= contentLen && |r| - contentLen >= paddingLen)
              && (err.None? ==> content == r[..contentLen] && reader.incoming == r[contentLen..][paddingLen..])
              && |reader.incoming| <= |r|
      decreases 1, 0
    {
      var e;
      content, e := ReadPart(Direct(reader), contentLen);
      if e.Some? {
        err := Some(Wrapped(e.value));
        return;
      }
      var _, e' := ReadPart(Direct(reader), paddingLen);
      err := if e'.Some? then Some(Wrapped(e'.value)) else None;
    }
  }

  /** Reading header, content and padding one after the other takes one frame off. */
  lemma FrameReads(s: seq<byte>, first: bool)
    requires |s| >= HeaderSize(first)
    ensures var rest := s[HeaderSize(first)..];
            && (|rest| >= ContentLen(s, first) && |rest| - ContentLen(s, first) >= PaddingLen(s, first) <==> Complete(s, first))
            && (Complete(s, first) ==>
                  && rest[..ContentLen(s, first)] == FrameContent(s, first)
                  && rest[ContentLen(s, first)..][PaddingLen(s, first)..] == s[FrameSize(s, first)..])
  {
  }

  /** Decoding a stream whose UUID is right takes one frame off. */
  lemma DecodeFrame(s: seq<byte>, first: bool, uuid: UUID)
    requires |s| >= HeaderSize(first) && (first ==> s[..16] == uuid)
    ensures if !Complete(s, first) then Decode(s, first, uuid) == []
            else
              var later := s[FrameSize(s, first)..];
              Decode(s, first, uuid) == FrameContent(s, first) +
                                        if SwitchesToRaw(Command(s, first)) then later else Decode(later, false, uuid)
  {
  }

  // ---------- io.Reader ----------

  datatype Reader =
    | Direct(conn: Conn)
    | Response(rc: VlessResponseConn)
    | Decoding(vr: VisionReader)
  {
    ghost function Repr(): set<object> {
      match this
      case Direct(conn) => {conn}
      case Response(rc) => {rc, rc.conn}
      case Decoding(vr) => {vr, vr.reader}
    }

    ghost predicate Valid()
      reads Repr()
    {
      match this
      case Direct(_) => true
      case Response(rc) => !rc.done ==> rc.err.None?
      case Decoding(vr) => vr.Valid()
    }

    /** All bytes this reader will still deliver. */
    ghost function Pending(): seq<byte>
      requires Valid()
      reads Repr()
    {
      match this
      case Direct(conn) => conn.incoming
      case Response(rc) => rc.Pending()
      case Decoding(vr) => vr.Pending()
    }

    /** The error this reader reports when there is nothing left; a decoding reader has reasons of its own. */
    ghost function Ending(): Error
      requires !Decoding?
      reads Repr()
    {
      match this
      case Direct(conn) => conn.end
      case Response(rc) => rc.Ending()
    }

    /** An upper bound on the reads that can still succeed. */
    ghost function Fuel(): nat
      requires Valid()
      reads Repr()
    {
      match this
      case Direct(conn) => |conn.incoming|
      case Response(rc) => |rc.conn.incoming|
      case Decoding(vr) => vr.Unread()
    }

    ghost function Level(): nat {
      if Direct? then 0 else 1
    }

    method Read(p: array<byte>) returns (n: nat, err: Option<Error>)
      requires Valid()
      modifies Repr(), p
      ensures Valid()
      ensures n <= p.Length
      ensures err.None? ==> p[..n] + Pending() == old(Pending())
      ensures err.Some? ==> p[..n] == old(Pending())
      ensures !Decoding? ==> Ending() == old(Ending())
      ensures !Decoding? && err.Some? ==> Pending() == [] && err.value == Ending()
      ensures !Decoding? && err.None? && p.Length > 0 ==> n > 0
      ensures n > 0 || (err.None? && p.Length > 0) ==> Fuel() < old(Fuel())
      ensures Fuel() <= old(Fuel())
      decreases Level(), 3
    {
      match this
      case Direct(conn) =>
        n, err := conn.Read(p);
      case Response(rc) =>
        n, err := rc.Read(p);
      case Decoding(vr) =>
        n, err := vr.Read(p);
    }
  }

  /** Reads a part of a frame, unless the part is empty. */
  method ReadPart(r: Reader, n: nat) returns (data: seq<byte>, err: Option<Error>)
    requires r.Valid() && !r.Decoding?
    modifies r.Repr()
    ensures r.Valid()
    ensures err.None? <==> |old(r.Pending())| >= n
    ensures err.None? ==> data == old(r.Pending())[..n] && r.Pending() == old(r.Pending())[n..]
    ensures r.Ending() == old(r.Ending())
    ensures r.Fuel() <= old(r.Fuel())
    decreases r.Level(), 5
  {
    data, err := [], None;
    if n > 0 {
      data, err := ReadFull(r, n);
    }
  }

  /** io.ReadFull into a fresh buffer of length n. */
  method ReadFull(r: Reader, n: nat) returns (data: seq<byte>, err: Option<Error>)
    requires r.Valid() && !r.Decoding?
    modifies r.Repr()
    ensures r.Valid()
    ensures err.None? <==> |old(r.Pending())| >= n
    ensures err.None? ==> data == old(r.Pending())[..n] && r.Pending() == old(r.Pending())[n..]
    ensures err.Some? ==> r.Pending() == [] && err.value == FullError(old(r.Pending()) != [], r.Ending())
    ensures err.Some? && r.Ending() == EOF ==> err.value == if old(r.Pending()) == [] then EOF else UnexpectedEOF
    ensures err.Some? && r.Ending() != EOF ==> err.value == r.Ending()
    ensures r.Ending() == old(r.Ending())
    ensures n > 0 && err.None? ==> r.Fuel() < old(r.Fuel())
    ensures r.Fuel() <= old(r.Fuel())
    decreases r.Level(), 4
  {
    data, err := [], None;
    while |data| < n && err.None?
      invariant r.Valid() && |data| <= n
      invariant data + r.Pending() == old(r.Pending())
      invariant err.Some? ==> r.Pending() == [] && err.value == r.Ending()
      invariant r.Ending() == old(r.Ending())
      invariant r.Fuel() <= old(r.Fuel())
      invariant |data| > 0 ==> r.Fuel() < old(r.Fuel())
      decreases n - |data|, err.None?
    {
      var slice := new byte[n - |data|];  // buf[got:]
      var k;
      k, err := r.Read(slice);
      AppendAssoc(data, slice[..k], r.Pending());
      data := data + slice[..k];
    }
    if |data| >= n {
      AppendSlices(data, r.Pending());
      err := None;
    } else if |data| > 0 && err == Some(EOF) {
      err := Some(UnexpectedEOF);
    }
  }

  // ---------- VisionWriter ----------

  class VisionWriter {
    const sink: Sink
    const uuid: UUID
    var rawMode: bool
    var isFirst: bool
    var frameNum: nat
    ghost const base: nat  // how much the sink held when this writer was made

    constructor (sink: Sink, uuid: UUID)
      ensures this.sink == sink && this.uuid == uuid
      ensures Valid() && isFirst && Clean() && Content() == [] && base == |sink.out|
    {
      this.sink, this.uuid := sink, uuid;
      rawMode, isFirst, frameNum := false, true, 0;
      base := |sink.out|;
    }

    ghost predicate Valid()
      reads this, sink
    {
      base <= |sink.out| && isFirst == !rawMode
    }

    /** The bytes this writer has put on the wire. */
    ghost function Sent(): seq<byte>
      requires Valid()
      reads this, sink
    {
      sink.out[base..]
    }

    /** What a reader with the same UUID makes of them. */
    ghost function Content(): seq<byte>
      requires Valid()
      reads this, sink
    {
      Decode(Sent(), true, uuid)
    }

    /** No first frame was broken off by a failed write. */
    ghost predicate Clean()
      requires Valid()
      reads this, sink
    {
      CleanSent(Sent(), isFirst, uuid)
    }

    method Write(p: seq<byte>) returns (n: nat, err: Option<Error>)
      requires Valid()
      modifies this, sink
      ensures Valid() && n <= |p|
      ensures old(sink.failed) || err.Some? <==> sink.failed
      ensures err.None? ==> n == |p| && sink.out == old(sink.out) + Wire(uuid, old(isFirst), p)
      ensures old(sink.out) <= sink.out <= old(sink.out) + Wire(uuid, old(isFirst), p)
      ensures old(Clean()) && err.None? ==> Clean() && Content() == old(Content()) + p
      ensures old(Clean()) ==> old(Content()) <= Content() <= old(Content()) + p
      ensures frameNum == old(frameNum) + if old(isFirst) then 1 else 0
    {
      ghost var out, first := sink.out, isFirst;
      ghost var sent;
      n, err, sent := WriteWire(p);
      WireGrows(out, base, uuid, first, p, sent);
    }

    /** The writes that make up one Write; `sent` counts the bytes that went out. */
    method WriteWire(p: seq<byte>) returns (n: nat, err: Option<Error>, ghost sent: nat)
      requires isFirst == !rawMode
      modifies this, sink
      ensures old(sink.failed) || err.Some? <==> sink.failed
      ensures n <= |p|
      ensures var wire := Wire(uuid, old(isFirst), p);
              && sent <= |wire| && sink.out == old(sink.out) + wire[..sent]
              && (err.None? ==> n == |p| && sent == |wire|)
      ensures isFirst == !rawMode && (isFirst ==> old(isFirst) && err.Some?)
      ensures frameNum == old(frameNum) + if old(isFirst) then 1 else 0
    {
      ghost var out, wire := sink.out, Wire(uuid, isFirst, p);
      if rawMode {
        n, err := sink.Write(p);
        sent := n;
        return;
      }
      n, err, sent := 0, None, 0;
      var rest := p;
      if isFirst {
        var chunkSize := Min(|p|, MAX_CONTENT);
        frameNum := frameNum + 1;
        var frame := FirstFrame(uuid, p[..chunkSize]);
        AppendSlices(frame, p[chunkSize..]);
        sent, err := sink.Write(frame);
        SliceAppend(frame, p[chunkSize..], 0, sent);
        if err.Some? {
          return;
        }
        isFirst := false;
        n, rest := chunkSize, p[chunkSize..];
      }
      rawMode := true;
      if |rest| > 0 {
        var k;
        k, err := sink.Write(rest);
        WireInTwo(out, wire, sent, k, rest);
        n, sent := n + k, sent + k;
      }
    }
  }

  lemma WireInTwo(out: seq<byte>, wire: seq<byte>, sent: nat, k: nat, rest: seq<byte>)
    requires sent <= |wire| && wire[sent..] == rest && k <= |rest|
    ensures out + wire[..sent] + rest[..k] == out + wire[..sent + k]
  {
  }

  ghost predicate CleanSent(sent: seq<byte>, first: bool, uuid: UUID) {
    if first then sent == [] else ReachesRaw(sent, true) && UuidOk(sent, uuid)
  }

  /** The sink after the first j bytes of one write went out. */
  lemma WireGrows(out: seq<byte>, base: nat, uuid: UUID, first: bool, p: seq<byte>, j: nat)
    requires base <= |out|
    requires j <= |Wire(uuid, first, p)|
    ensures var wire := Wire(uuid, first, p);
            var out' := out + wire[..j];
            && out <= out' <= out + wire
            && (j == |wire| ==> out' == out + wire)
            && (CleanSent(out[base..], first, uuid) ==>
                  var before, after := Decode(out[base..], true, uuid), Decode(out'[base..], true, uuid);
                  && before <= after <= before + p
                  && (j == |wire| ==> after == before + p && CleanSent(out'[base..], false, uuid))
                  && (!first ==> CleanSent(out'[base..], false, uuid)))
  {
    var wire, sent := Wire(uuid, first, p), out[base..];
    WritePrefix(out, wire, j);
    DropAppend(out, wire[..j], base);
    if CleanSent(sent, first, uuid) {
      if first {
        FirstWireGrows(uuid, p, j);
        assert sent + wire[..j] == wire[..j];
      } else {
        RawWireGrows(sent, uuid, p, j);
      }
    }
  }

  lemma FirstWireGrows(uuid: UUID, p: seq<byte>, j: nat)
    requires j <= |Wire(uuid, true, p)|
    ensures var wire := Wire(uuid, true, p);
            && Decode(wire[..j], true, uuid) <= p
            && (j == |wire| ==> Decode(wire[..j], true, uuid) == p && CleanSent(wire[..j], false, uuid))
    ensures Decode([], true, uuid) == []
  {
    var wire := Wire(uuid, true, p);
    WireDecodes(uuid, p, []);
    assert wire + [] == wire && p + [] == p;
    DecodeMonotone(wire, j, true, uuid);
    TakeDrop(wire, |wire|);
    assert wire[..|wire|] == wire;
  }

  lemma RawWireGrows(sent: seq<byte>, uuid: UUID, p: seq<byte>, j: nat)
    requires CleanSent(sent, false, uuid) && j <= |p|
    ensures CleanSent(sent + p[..j], false, uuid)
    ensures Decode(sent, true, uuid) <= Decode(sent + p[..j], true, uuid) <= Decode(sent, true, uuid) + p
    ensures j == |p| ==> Decode(sent + p[..j], true, uuid) == Decode(sent, true, uuid) + p
  {
    RawAppend(sent, p[..j], true);
    SliceAppend(sent, p[..j], 0, 16);
    WritePrefix(Decode(sent, true, uuid), p, j);
  }

  // ---------- io.Writer and io.Copy ----------

  datatype Writer =
    | ToSink(sink: Sink)
    | Framing(vw: VisionWriter)
  {
    ghost function Repr(): set<object> {
      match this
      case ToSink(sink) => {sink}
      case Framing(vw) => {vw, vw.sink}
    }

    ghost predicate Valid()
      reads Repr()
    {
      Framing? ==> vw.Valid()
    }

    ghost predicate Failed()
      reads Repr()
    {
      match this
      case ToSink(sink) => sink.failed
      case Framing(vw) => vw.sink.failed
    }

    ghost predicate Clean()
      requires Valid()
      reads Repr()
    {
      Framing? ==> vw.Clean()
    }

    /** What the far end makes of the bytes written so far. */
    ghost function Content(): seq<byte>
      requires Valid()
      reads Repr()
    {
      match this
      case ToSink(sink) => sink.out
      case Framing(vw) => vw.Content()
    }

    method Write(p: seq<byte>) returns (n: nat, err: Option<Error>)
      requires Valid()
      modifies Repr()
      ensures Valid() && n <= |p|
      ensures old(Failed()) || err.Some? <==> Failed()
      ensures err.None? ==> n == |p|
      ensures old(Clean()) && err.None? ==> Clean() && Content() == old(Content()) + p
      ensures old(Clean()) ==> old(Content()) <= Content() <= old(Content()) + p
    {
      match this
      case ToSink(sink) =>
        TakeDrop(p, |p|);
        n, err := sink.Write(p);
      case Framing(vw) =>
        n, err := vw.Write(p);
    }
  }

  /** io.Copy: everything the reader still delivers goes to the writer, unless a write fails. */
  method Copy(dst: Writer, src: Reader) returns (written: nat, err: Option<Error>)
    requires dst.Valid() && dst.Clean() && src.Valid()
    requires dst.Repr() !! src.Repr()
    modifies dst.Repr(), src.Repr()
    ensures dst.Valid() && src.Valid()
    ensures old(dst.Failed()) ==> dst.Failed()
    ensures err.None? ==> dst.Failed() == old(dst.Failed())
    ensures !src.Decoding? && !dst.Failed() ==> (err.None? <==> old(src.Ending()) == EOF)
    ensures old(dst.Content()) <= dst.Content() <= old(dst.Content()) + old(src.Pending())
    ensures !dst.Failed() ==>
              && dst.Clean()
              && dst.Content() == old(dst.Content()) + old(src.Pending())
              && written == |old(src.Pending())|
  {
    var size :| size > 0;  // 32 KB in Go, but any size will do
    var buf := new byte[size];
    written, err := 0, None;
    ghost var before, goal := dst.Content(), dst.Content() + src.Pending();
    while true
      invariant dst.Valid() && dst.Clean() && src.Valid() && err.None?
      invariant dst.Failed() == old(dst.Failed())
      invariant !src.Decoding? ==> src.Ending() == old(src.Ending())
      invariant before <= dst.Content() && dst.Content() + src.Pending() == goal
      invariant written + |src.Pending()| == |goal| - |before|
      decreases src.Fuel()
    {
      ghost var content, pending := dst.Content(), src.Pending();
      var n, readErr, writeErr;
      ghost var chunk;
      n, readErr, writeErr, chunk := CopyRound(dst, src, buf);
      CopyJoin(before, content, chunk, dst.Content(), pending);
      written := written + n;
      if writeErr.Some? {
        err := writeErr;
        return;
      }
      if readErr.Some? {
        if readErr != Some(EOF) {
          err := readErr;
        }
        return;
      }
      AppendAssoc(content, chunk, src.Pending());
    }
  }

  /** One turn of the loop in io.Copy. */
  method CopyRound(dst: Writer, src: Reader, buf: array<byte>)
    returns (n: nat, readErr: Option<Error>, writeErr: Option<Error>, ghost chunk: seq<byte>)
    requires dst.Valid() && dst.Clean() && src.Valid() && buf.Length > 0
    requires dst.Repr() !! src.Repr()
    modifies dst.Repr(), src.Repr(), buf
    ensures dst.Valid() && src.Valid()
    ensures readErr.None? ==> chunk + src.Pending() == old(src.Pending()) && src.Fuel() < old(src.Fuel())
    ensures readErr.Some? ==> chunk == old(src.Pending())
    ensures chunk <= old(src.Pending())
    ensures !src.Decoding? ==> src.Ending() == old(src.Ending()) && (readErr.Some? ==> readErr.value == src.Ending())
    ensures old(dst.Failed()) || writeErr.Some? <==> dst.Failed()
    ensures writeErr.None? ==> dst.Clean() && dst.Content() == old(dst.Content()) + chunk && n == |chunk|
    ensures old(dst.Content()) <= dst.Content() <= old(dst.Content()) + chunk
  {
    var nr;
    nr, readErr := src.Read(buf);
    n, writeErr, chunk := 0, None, buf[..nr];
    if nr > 0 {
      n, writeErr := dst.Write(buf[..nr]);
    } else {
      assert dst.Content() + chunk == dst.Content();
    }
  }

  /** However much of a chunk was written, it is on the way to writing everything. */
  lemma CopyJoin(before: seq<byte>, content: seq<byte>, chunk: seq<byte>, now: seq<byte>, pending: seq<byte>)
    requires before <= content <= now <= content + chunk
    requires chunk <= pending
    ensures before <= now <= content + pending
  {
    PrefixTransitive(before, content, now);
    PrefixAppend(content, chunk, pending);
    PrefixTransitive(now, content + chunk, content + pending);
  }

  // ---------- VisionRelay ----------

  class VisionRelay {
    const reader: Reader
    const writer: Sink
    const dstUUID: UUID

    constructor (reader: Reader, writer: Sink, dstUUID: UUID)
      ensures this.reader == reader && this.writer == writer && this.dstUUID == dstUUID
    {
      this.reader, this.writer, this.dstUUID := reader, writer, dstUUID;
    }

    /** Copies frames, the first under the new UUID, and then raw bytes. */
    method Relay() returns (total: nat, err: Option<Error>)
      requires reader.Valid() && !reader.Decoding?
      requires writer !in reader.Repr()
      modifies reader.Repr(), writer
      ensures reader.Valid()
      ensures old(writer.failed) ==> writer.failed
      ensures old(writer.out) <= writer.out <= old(writer.out) + Relayed(old(reader.Pending()), true, dstUUID)
      ensures !writer.failed ==>
                && writer.out == old(writer.out) + Relayed(old(reader.Pending()), true, dstUUID)
                && total == |Content(old(reader.Pending()), true)|
      ensures !writer.failed ==>
                (err.None? <==> ReachesRaw(old(reader.Pending()), true) && old(reader.Ending()) == EOF)
      ensures err.None? ==> writer.failed == old(writer.failed)
    {
      var isFirst, rawMode := true, false;
      total, err := 0, None;
      ghost var stream, before := reader.Pending(), writer.out;
      while true
        invariant reader.Valid() && reader.Ending() == old(reader.Ending())
        invariant writer.failed == old(writer.failed)
        invariant before <= writer.out
        invariant
          var s := reader.Pending();
          if rawMode then
            && writer.out + s == before + Relayed(stream, true, dstUUID)
            && total + |s| == |Content(stream, true)|
            && ReachesRaw(stream, true)
          else
            && writer.out + Relayed(s, isFirst, dstUUID) == before + Relayed(stream, true, dstUUID)
            && total + |Content(s, isFirst)| == |Content(stream, true)|
            && (ReachesRaw(s, isFirst) <==> ReachesRaw(stream, true))
        decreases !rawMode, reader.Fuel()
      {
        if rawMode {
          var n;
          n, err := Copy(ToSink(writer), reader);
          total := total + n;
          return;
        }
        RelayRound(writer.out, reader.Pending(), isFirst, dstUUID);
        var cl;
        rawMode, cl, err := RelayFrame(isFirst);
        if err.Some? {
          return;
        }
        isFirst := false;
        total := total + cl;
      }
    }

    /** One framed round of Relay: read a whole frame, swap the UUID, write it. */
    method RelayFrame(isFirst: bool) returns (raw: bool, cl: nat, err: Option<Error>)
      requires reader.Valid() && !reader.Decoding?
      requires writer !in reader.Repr()
      modifies reader.Repr(), writer
      ensures reader.Valid() && reader.Ending() == old(reader.Ending())
      ensures old(writer.failed) ==> writer.failed
      ensures var s := old(reader.Pending());
              if err.None? then
                && Complete(s, isFirst)
                && writer.failed == old(writer.failed)
                && writer.out == old(writer.out) + SwapUuid(s[..FrameSize(s, isFirst)], isFirst, dstUUID)
                && reader.Pending() == s[FrameSize(s, isFirst)..]
                && raw == SwitchesToRaw(Command(s, isFirst))
                && cl == ContentLen(s, isFirst)
                && reader.Fuel() < old(reader.Fuel())
              else if Complete(s, isFirst) then
                && writer.failed
                && old(writer.out) <= writer.out <=
                   old(writer.out) + SwapUuid(s[..FrameSize(s, isFirst)], isFirst, dstUUID)
              else
                writer.failed == old(writer.failed) && writer.out == old(writer.out)
    {
      raw, cl := false, 0;
      ghost var s := reader.Pending();
      var header, cmd, contentLen, paddingLen;
      header, cmd, contentLen, paddingLen, err := RelayHeader(isFirst);
      if err.Some? {
        return;
      }
      RelayReads(s, isFirst, dstUUID);
      var payloadSize := contentLen as int + paddingLen as int;
      var payload, e := ReadPart(reader, payloadSize);
      if e.Some? {
        err := Some(Wrapped(e.value));
        return;
      }
      ghost var out := writer.out;
      var k, e' := writer.Write(header + payload);
      WritePrefix(out, header + payload, k);
      if e'.Some? {
        err := Some(Wrapped(e'.value));
        return;
      }
      raw, cl, err := SwitchesToRaw(cmd), contentLen, None;
    }

    /** Reading a header, with the UUID of the first one swapped. */
    method RelayHeader(isFirst: bool)
      returns (header: seq<byte>, cmd: byte, contentLen: uint16, paddingLen: uint16, err: Option<Error>)
      requires reader.Valid() && !reader.Decoding?
      modifies reader.Repr()
      ensures reader.Valid() && reader.Ending() == old(reader.Ending())
      ensures var s := old(reader.Pending());
              if err.Some? then |s| < HeaderSize(isFirst)
              else
                && |s| >= HeaderSize(isFirst)
                && header == SwapUuid(s[..HeaderSize(isFirst)], isFirst, dstUUID)
                && (cmd, contentLen, paddingLen) == (Command(s, isFirst), ContentLen(s, isFirst), PaddingLen(s, isFirst))
                && reader.Pending() == s[HeaderSize(isFirst)..]
                && reader.Fuel() < old(reader.Fuel())
    {
      cmd, contentLen, paddingLen := 0, 0, 0;
      var headerSize := HeaderSize(isFirst);
      var e;
      header, e := ReadFull(reader, headerSize);
      if e.Some? {
        err := Some(Wrapped(e.value));
        return;
      }
      if isFirst {
        header := dstUUID + header[16..];
      }
      cmd := header[headerSize - 5];
      contentLen := U16(header[headerSize - 4], header[headerSize - 3]);
      paddingLen := U16(header[headerSize - 2], header[headerSize - 1]);
      err := None;
    }
  }

  /** Header then payload is one frame, before and after the UUID is swapped. */
  lemma RelayReads(s: seq<byte>, first: bool, dst: UUID)
    requires |s| >= HeaderSize(first)
    ensures var h := HeaderSize(first);
            var n: nat := ContentLen(s, first) + PaddingLen(s, first);
            && (|s[h..]| >= n <==> Complete(s, first))
            && (Complete(s, first) ==>
                  && SwapUuid(s[..h], first, dst) + s[h..][..n] == SwapUuid(s[..FrameSize(s, first)], first, dst)
                  && s[h..][n..] == s[FrameSize(s, first)..])
  {
    if Complete(s, first) {
      var h, m := HeaderSize(first), FrameSize(s, first);
      assert s[..m] == s[..h] + s[h..][..m - h];
      DropAppend(s[..h], s[h..][..m - h], if first then 16 else 0);
    }
  }

  /** What one round does to the stream still to be relayed. */
  lemma RelayRound(out: seq<byte>, s: seq<byte>, first: bool, dst: UUID)
    ensures if !Complete(s, first) then
              out + Relayed(s, first, dst) == out && Content(s, first) == []
            else
              var n := FrameSize(s, first);
              var raw := SwitchesToRaw(Command(s, first));
              var frame := SwapUuid(s[..n], first, dst);
              && out + Relayed(s, first, dst) == out + frame + (if raw then s[n..] else Relayed(s[n..], false, dst))
              && out + frame <= out + Relayed(s, first, dst)
              && |Content(s, first)| == ContentLen(s, first) + (if raw then |s[n..]| else |Content(s[n..], false)|)
              && (ReachesRaw(s, first) <==> raw || ReachesRaw(s[n..], false))
  {
    if Complete(s, first) {
      var n := FrameSize(s, first);
      var rest := if SwitchesToRaw(Command(s, first)) then s[n..] else Relayed(s[n..], false, dst);
      AppendAssoc(out, SwapUuid(s[..n], first, dst), rest);
    } else {
      assert out + [] == out;
    }
  }
}
