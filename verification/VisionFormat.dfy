/**
  The Vision wire format as functions on whole byte streams.

  A stream is a list of frames, each a header (the first one carries a UUID), a content and a
  padding; after a frame with command 1 or 2 the rest of the stream is raw bytes.
 */
module VisionFormat {
  import opened Bytes

  const HEADER_SIZE := 21
  const SUBSEQUENT_HEADER_SIZE := 5
  const MAX_CONTENT := 16384

  function HeaderSize(first: bool): nat {
    if first then HEADER_SIZE else SUBSEQUENT_HEADER_SIZE
  }

  // ---------- reading one frame off the front of a stream ----------

  function Command(s: seq<byte>, first: bool): byte
    requires |s| >= HeaderSize(first)
  {
    s[HeaderSize(first) - 5]
  }

  function ContentLen(s: seq<byte>, first: bool): uint16
    requires |s| >= HeaderSize(first)
  {
    U16(s[HeaderSize(first) - 4], s[HeaderSize(first) - 3])
  }

  function PaddingLen(s: seq<byte>, first: bool): uint16
    requires |s| >= HeaderSize(first)
  {
    U16(s[HeaderSize(first) - 2], s[HeaderSize(first) - 1])
  }

  function FrameSize(s: seq<byte>, first: bool): nat
    requires |s| >= HeaderSize(first)
  {
    HeaderSize(first) + ContentLen(s, first) + PaddingLen(s, first)
  }

  predicate Complete(s: seq<byte>, first: bool) {
    |s| >= HeaderSize(first) && |s| >= FrameSize(s, first)
  }

  function FrameContent(s: seq<byte>, first: bool): seq<byte>
    requires Complete(s, first)
  {
    s[HeaderSize(first)..HeaderSize(first) + ContentLen(s, first)]
  }

  predicate SwitchesToRaw(command: byte) {
    command == 1 || command == 2
  }

  // ---------- what a reader and a relay make of a whole stream ----------

  /** The content a reader that does not look at the UUID delivers before the stream ends or breaks off. */
  function Content(s: seq<byte>, first: bool): seq<byte>
    decreases |s|
  {
    if !Complete(s, first) then []
    else
      FrameContent(s, first) +
      if SwitchesToRaw(Command(s, first)) then s[FrameSize(s, first)..]
      else Content(s[FrameSize(s, first)..], false)
  }

  predicate UuidOk(s: seq<byte>, uuid: UUID) {
    |s| >= HEADER_SIZE ==> s[..16] == uuid
  }

  /** The content VisionReader delivers. */
  function Decode(s: seq<byte>, first: bool, uuid: UUID): seq<byte> {
    if first && !UuidOk(s, uuid) then [] else Content(s, first)
  }

  function SwapUuid(frame: seq<byte>, first: bool, dst: UUID): seq<byte>
    requires |frame| >= HeaderSize(first)
  {
    if first then dst + frame[16..] else frame
  }

  /** The bytes VisionRelay writes when no write fails. */
  function Relayed(s: seq<byte>, first: bool, dst: UUID): seq<byte>
    decreases |s|
  {
    if !Complete(s, first) then []
    else
      SwapUuid(s[..FrameSize(s, first)], first, dst) +
      if SwitchesToRaw(Command(s, first)) then s[FrameSize(s, first)..]
      else Relayed(s[FrameSize(s, first)..], false, dst)
  }

  predicate ReachesRaw(s: seq<byte>, first: bool)
    decreases |s|
  {
    Complete(s, first) &&
    (SwitchesToRaw(Command(s, first)) || ReachesRaw(s[FrameSize(s, first)..], false))
  }

  // ---------- frames as values: an independent reading of the format ----------

  datatype Frame = Frame(command: byte, content: seq<byte>, padding: seq<byte>) {
    predicate Valid() {
      |content| < 0x1_0000 && |padding| < 0x1_0000
    }
  }

  /** The bytes of one frame; `prefix` is the UUID of a first frame, and empty otherwise. */
  function FrameBytes(f: Frame, prefix: seq<byte>): seq<byte>
    requires f.Valid()
  {
    prefix + [f.command] + PutU16(|f.content|) + PutU16(|f.padding|) + f.content + f.padding
  }

  function Serialize(frames: seq<Frame>, prefix: seq<byte>): seq<byte>
    requires forall f <- frames :: f.Valid()
  {
    if frames == [] then [] else FrameBytes(frames[0], prefix) + Serialize(frames[1..], [])
  }

  function Contents(frames: seq<Frame>): seq<byte> {
    if frames == [] then [] else frames[0].content + Contents(frames[1..])
  }

  /** Only the last frame of a framed part may switch to raw mode. */
  ghost predicate Framed(frames: seq<Frame>) {
    && (forall f <- frames :: f.Valid())
    && forall i :: 0 <= i < |frames| - 1 ==> !SwitchesToRaw(frames[i].command)
  }

  predicate EndsRaw(frames: seq<Frame>) {
    frames != [] && SwitchesToRaw(frames[|frames| - 1].command)
  }

  /** `s` is the frames, then a tail: raw bytes, or less than one frame. */
  ghost predicate Splits(s: seq<byte>, first: bool, frames: seq<Frame>, tail: seq<byte>) {
    && Framed(frames)
    && (first && frames != [] ==> |s| >= 16)
    && s == Serialize(frames, if first && frames != [] then s[..16] else []) + tail
    && (EndsRaw(frames) || !Complete(tail, first && frames == []))
  }

  lemma FrameBytesParse(f: Frame, prefix: seq<byte>, rest: seq<byte>, first: bool)
    requires f.Valid()
    requires |prefix| == HeaderSize(first) - 5
    ensures var s := FrameBytes(f, prefix) + rest;
            && Complete(s, first)
            && Command(s, first) == f.command
            && FrameContent(s, first) == f.content
            && FrameSize(s, first) == |FrameBytes(f, prefix)|
            && s[..FrameSize(s, first)] == FrameBytes(f, prefix)
            && s[FrameSize(s, first)..] == rest
  {
    var s := FrameBytes(f, prefix) + rest;
    var h := HeaderSize(first);
    var head := prefix + [f.command] + PutU16(|f.content|) + PutU16(|f.padding|);
    assert |head| == h;
    assert head[h - 5] == f.command;
    assert head[h - 4] == PutU16(|f.content|)[0] && head[h - 3] == PutU16(|f.content|)[1];
    assert head[h - 2] == PutU16(|f.padding|)[0] && head[h - 1] == PutU16(|f.padding|)[1];
    AppendSlices(head + f.content + f.padding, rest);
    AppendSlices(head, f.content);
    SliceAppend(head + f.content, f.padding, h, h + |f.content|);
    SliceAppend(head + f.content + f.padding, rest, h, h + |f.content|);
  }

  /** A complete frame as a value. */
  function FrontFrame(s: seq<byte>, first: bool): (f: Frame)
    requires Complete(s, first)
    ensures f.Valid()
  {
    Frame(Command(s, first), FrameContent(s, first), s[HeaderSize(first) + ContentLen(s, first)..FrameSize(s, first)])
  }

  lemma TwoBytes(s: seq<byte>, i: nat)
    requires i + 2 <= |s|
    ensures PutU16(U16(s[i], s[i + 1])) == s[i..i + 2]
  {
  }

  /** A frame is cut up behind its prefix, command, two lengths, content and padding. */
  lemma FrameParts(s: seq<byte>, a: nat, c: nat, n: nat)
    requires a + 5 <= c <= n <= |s|
    ensures s[..n] == s[..a] + [s[a]] + s[a + 1..a + 3] + s[a + 3..a + 5] + s[a + 5..c] + s[c..n]
  {
    TakeOneMore(s, a);
    TakeSlice(s, a + 1, a + 3);
    TakeSlice(s, a + 3, a + 5);
    TakeSlice(s, a + 5, c);
    TakeSlice(s, c, n);
  }

  lemma FrontFrameBytes(s: seq<byte>, first: bool)
    requires Complete(s, first)
    ensures s[..FrameSize(s, first)] == FrameBytes(FrontFrame(s, first), s[..HeaderSize(first) - 5])
  {
    var h := HeaderSize(first);
    TwoBytes(s, h - 4);
    TwoBytes(s, h - 2);
    FrameParts(s, h - 5, h + ContentLen(s, first), FrameSize(s, first));
  }

  lemma SplitCons(f: Frame, prefix: seq<byte>, more: seq<Frame>, tail: seq<byte>)
    requires f.Valid() && Framed(more) && !SwitchesToRaw(f.command)
    ensures Framed([f] + more)
    ensures EndsRaw([f] + more) == EndsRaw(more)
    ensures FrameBytes(f, prefix) + (Serialize(more, []) + tail) == Serialize([f] + more, prefix) + tail
  {
    FramedCons(f, more);
    assert ([f] + more)[1..] == more;
    AppendAssoc(FrameBytes(f, prefix), Serialize(more, []), tail);
  }

  /** Every stream splits into frames and a tail. */
  lemma {:induction false} SplitExists(s: seq<byte>, first: bool) returns (frames: seq<Frame>, tail: seq<byte>)
    ensures Splits(s, first, frames, tail)
    decreases |s|
  {
    if !Complete(s, first) {
      frames, tail := [], s;
      assert s == [] + tail;
    } else {
      var n, f := FrameSize(s, first), FrontFrame(s, first);
      var prefix := s[..HeaderSize(first) - 5];
      FrontFrameBytes(s, first);
      TakeDrop(s, n);
      assert prefix == if first then s[..16] else [];
      if SwitchesToRaw(f.command) {
        frames, tail := [f], s[n..];
        assert FrameBytes(f, prefix) + [] == FrameBytes(f, prefix);
      } else {
        var more, t := SplitExists(s[n..], false);
        frames, tail := [f] + more, t;
        SplitCons(f, prefix, more, t);
      }
    }
  }

  /** One frame off the front, for the reader and for the relay. */
  lemma FrameStep(f: Frame, prefix: seq<byte>, rest: seq<byte>, first: bool, dst: UUID)
    requires f.Valid()
    requires |prefix| == HeaderSize(first) - 5
    ensures var s := FrameBytes(f, prefix) + rest;
            var raw := SwitchesToRaw(f.command);
            && Content(s, first) == f.content + (if raw then rest else Content(rest, false))
            && Relayed(s, first, dst) ==
               FrameBytes(f, if first then dst else []) + (if raw then rest else Relayed(rest, false, dst))
            && (ReachesRaw(s, first) <==> raw || ReachesRaw(rest, false))
  {
    FrameBytesParse(f, prefix, rest, first);
    SwapFrameUuid(f, prefix, first, dst);
  }

  lemma SwapFrameUuid(f: Frame, prefix: seq<byte>, first: bool, dst: UUID)
    requires f.Valid()
    requires |prefix| == HeaderSize(first) - 5
    ensures SwapUuid(FrameBytes(f, prefix), first, dst) == FrameBytes(f, if first then dst else [])
  {
  }

  /** Command, two lengths with the high byte first, content and padding. */
  function BodyBytes(f: Frame): seq<byte>
    requires f.Valid()
  {
    [f.command, |f.content| / 256, |f.content| % 256, |f.padding| / 256, |f.padding| % 256] + f.content + f.padding
  }

  lemma BodyIsFrame(f: Frame, id: seq<byte>)
    requires f.Valid()
    ensures FrameBytes(f, id) == id + BodyBytes(f)
  {
  }

  /** The meaning of a frame by its command: after 1 or 2 all the rest is content, after any other more frames follow. */
  lemma FrameMeaning(f: Frame, id: seq<byte>, rest: seq<byte>, first: bool, dst: UUID)
    requires f.Valid()
    requires |id| == if first then 16 else 0
    ensures var s := id + BodyBytes(f) + rest;
            var out := (if first then dst else []) + BodyBytes(f);
            if f.command == 1 || f.command == 2 then
              && Content(s, first) == f.content + rest
              && Relayed(s, first, dst) == out + rest
              && ReachesRaw(s, first)
            else
              && Content(s, first) == f.content + Content(rest, false)
              && Relayed(s, first, dst) == out + Relayed(rest, false, dst)
              && (ReachesRaw(s, first) <==> ReachesRaw(rest, false))
  {
    BodyIsFrame(f, id);
    BodyIsFrame(f, if first then dst else []);
    FrameStep(f, id, rest, first, dst);
  }

  /** A frame that is cut short is neither delivered nor relayed. */
  lemma FrameCutShort(f: Frame, id: seq<byte>, k: nat, first: bool, dst: UUID)
    requires f.Valid()
    requires |id| == if first then 16 else 0
    requires k < |id + BodyBytes(f)|
    ensures var s := (id + BodyBytes(f))[..k];
            Content(s, first) == [] && Relayed(s, first, dst) == [] && !ReachesRaw(s, first)
  {
    var whole := id + BodyBytes(f);
    BodyIsFrame(f, id);
    FrameBytesParse(f, id, [], first);
    assert whole + [] == whole;
    if Complete(whole[..k], first) {
      FrameTake(whole, k, first);
    }
  }

  /** A stream is decoded exactly if it starts with the right UUID; too short for a header, it holds nothing. */
  lemma DecodeChecksUuid(s: seq<byte>, uuid: UUID)
    ensures Decode(s, true, uuid) == if |s| >= 21 && s[..16] == uuid then Content(s, true) else []
  {
  }

  lemma RawFrameIsLast(frames: seq<Frame>)
    requires Framed(frames) && frames != [] && SwitchesToRaw(frames[0].command)
    ensures |frames| == 1 && frames[1..] == []
  {
  }

  lemma FramedTail(frames: seq<Frame>)
    requires Framed(frames) && frames != [] && !SwitchesToRaw(frames[0].command)
    ensures Framed(frames[1..])
    ensures EndsRaw(frames[1..]) == EndsRaw(frames)
  {
    var more := frames[1..];
    forall i | 0 <= i < |more| - 1
      ensures !SwitchesToRaw(more[i].command)
    {
      assert more[i] == frames[i + 1];
    }
  }

  lemma FramedCons(f: Frame, more: seq<Frame>)
    requires f.Valid() && Framed(more) && !SwitchesToRaw(f.command)
    ensures Framed([f] + more)
    ensures EndsRaw([f] + more) == EndsRaw(more)
  {
    var frames := [f] + more;
    assert forall i :: 0 < i < |frames| ==> frames[i] == more[i - 1];
  }

  /** Whatever the frames are, reading and relaying the stream they spell is what the format says. */
  lemma {:induction false} SplitMeaning(frames: seq<Frame>, tail: seq<byte>, first: bool, prefix: seq<byte>, dst: UUID)
    requires Framed(frames)
    requires |prefix| == HeaderSize(first) - 5
    requires EndsRaw(frames) || !Complete(tail, first && frames == [])
    ensures var s := Serialize(frames, prefix) + tail;
            && Content(s, first) == Contents(frames) + (if EndsRaw(frames) then tail else [])
            && Relayed(s, first, dst) == Serialize(frames, if first then dst else []) + (if EndsRaw(frames) then tail else [])
            && (ReachesRaw(s, first) <==> EndsRaw(frames))
    decreases |frames|
  {
    if frames == [] {
      assert Serialize(frames, prefix) + tail == tail;
    } else {
      var f, more := frames[0], frames[1..];
      AppendAssoc(FrameBytes(f, prefix), Serialize(more, []), tail);
      AppendAssoc(FrameBytes(f, if first then dst else []), Serialize(more, []), tail);
      FrameStep(f, prefix, Serialize(more, []) + tail, first, dst);
      if SwitchesToRaw(f.command) {
        RawFrameIsLast(frames);
        assert Serialize(more, []) + tail == tail;
        assert Contents(frames) == f.content + [] == f.content;
        assert forall p: seq<byte> :: FrameBytes(f, p) + [] == FrameBytes(f, p);
      } else {
        FramedTail(frames);
        SplitMeaning(more, tail, false, [], dst);
        var end := if EndsRaw(frames) then tail else [];
        AppendAssoc(f.content, Contents(more), end);
        AppendAssoc(FrameBytes(f, if first then dst else []), Serialize(more, []), end);
      }
    }
  }

  /** A complete frame is the same frame in a longer stream. */
  lemma FrameTake(s: seq<byte>, k: nat, first: bool)
    requires k <= |s|
    requires Complete(s[..k], first)
    ensures var n := FrameSize(s[..k], first);
            && Complete(s, first)
            && Command(s[..k], first) == Command(s, first)
            && FrameSize(s, first) == n
            && FrameContent(s[..k], first) == FrameContent(s, first)
            && s[..k][n..] == s[n..][..k - n]
            && s[..k][..n] == s[..n]
  {
    var h, n := HeaderSize(first), FrameSize(s[..k], first);
    DropTake(s, n, k);
    SliceTake(s, 0, n, k);
    SliceTake(s, h, h + ContentLen(s, first), k);
  }

  // ---------- relaying ----------

  /** A stream that ends with its last complete frame, or is raw from there on. */
  ghost predicate Closed(frames: seq<Frame>, raw: seq<byte>) {
    Framed(frames) && (EndsRaw(frames) || raw == [])
  }

  lemma ClosedMeaning(frames: seq<Frame>, raw: seq<byte>, prefix: UUID, dst: UUID)
    requires Closed(frames, raw)
    ensures Content(Serialize(frames, prefix) + raw, true) == Contents(frames) + raw
    ensures Relayed(Serialize(frames, prefix) + raw, true, dst) == Serialize(frames, dst) + raw
    ensures UuidOk(Serialize(frames, prefix) + raw, prefix)
  {
    SplitMeaning(frames, raw, true, prefix, dst);
    if frames != [] {
      assert Serialize(frames, prefix)[..16] == prefix;
      SliceAppend(Serialize(frames, prefix), raw, 0, 16);
    }
  }

  /** The frames the relay passes on, and the raw bytes after them. */
  lemma RelayParts(s: seq<byte>, dst: UUID) returns (frames: seq<Frame>, raw: seq<byte>)
    ensures Closed(frames, raw)
    ensures Content(s, true) == Contents(frames) + raw
    ensures Relayed(s, true, dst) == Serialize(frames, dst) + raw
  {
    var tail;
    frames, tail := SplitExists(s, true);
    raw := if EndsRaw(frames) then tail else [];
    SplitMeaning(frames, tail, true, if frames == [] then dst else s[..16], dst);
  }

  /**
    Transparency: under the new UUID the relayed stream decodes to what the original stream decodes
    to under its own UUID, for every stream.
   */
  lemma RelayTransparent(s: seq<byte>, src: UUID, dst: UUID)
    requires UuidOk(s, src)
    ensures Decode(Relayed(s, true, dst), true, dst) == Decode(s, true, src)
  {
    var frames, raw := RelayParts(s, dst);
    ClosedMeaning(frames, raw, dst, dst);
  }

  /** Relaying twice is relaying once to the last destination. */
  lemma RelayComposes(s: seq<byte>, b: UUID, c: UUID)
    ensures Relayed(Relayed(s, true, b), true, c) == Relayed(s, true, c)
  {
    var frames, tail := SplitExists(s, true);
    var raw, own := if EndsRaw(frames) then tail else [], if frames == [] then b else s[..16];
    SplitMeaning(frames, tail, true, own, b);
    SplitMeaning(frames, tail, true, own, c);
    ClosedMeaning(frames, raw, b, c);
  }

  /**
    Shape of the relay's output: the input with its first 16 bytes replaced, cut back to the last complete
    frame unless raw mode was reached.
   */
  lemma RelayShape(s: seq<byte>, frames: seq<Frame>, tail: seq<byte>, dst: UUID)
    requires Splits(s, true, frames, tail)
    ensures var k := if EndsRaw(frames) then |s| else |s| - |tail|;
            Relayed(s, true, dst) == if frames == [] then [] else dst + s[16..k]
  {
    SplitMeaning(frames, tail, true, if frames == [] then dst else s[..16], dst);
    if frames != [] {
      var f, rest := frames[0], Serialize(frames[1..], []);
      SwapFrameUuid(f, s[..16], true, dst);
      SwapWhole(s, FrameBytes(f, s[..16]), rest, tail, dst);
    }
  }

  lemma SwapWhole(s: seq<byte>, frame: seq<byte>, rest: seq<byte>, tail: seq<byte>, dst: UUID)
    requires |frame| >= 16 && s == frame + rest + tail
    ensures dst + frame[16..] + rest == dst + s[16..|s| - |tail|]
    ensures dst + frame[16..] + rest + tail == dst + s[16..]
    ensures s[16..|s|] == s[16..]
  {
  }

  // ---------- truncation and growth ----------

  /** What a cut-short stream delivers is a prefix of what the whole stream delivers. */
  lemma {:induction false} ContentMonotone(s: seq<byte>, k: nat, first: bool)
    requires k <= |s|
    ensures Content(s[..k], first) <= Content(s, first)
    decreases |s|
  {
    var t := s[..k];
    if Complete(t, first) {
      FrameTake(s, k, first);
      if !SwitchesToRaw(Command(s, first)) {
        var n := FrameSize(s, first);
        ContentMonotone(s[n..], k - n, false);
        PrefixAppend(FrameContent(s, first), Content(s[n..][..k - n], false), Content(s[n..], false));
      }
    }
  }

  lemma DecodeMonotone(s: seq<byte>, k: nat, first: bool, uuid: UUID)
    requires k <= |s|
    ensures Decode(s[..k], first, uuid) <= Decode(s, first, uuid)
  {
    ContentMonotone(s, k, first);
    if first && k >= HEADER_SIZE {
      SliceTake(s, 0, 16, k);
    }
  }

  /** If the relay's output breaks off anywhere, the destination still sees a prefix of the content. */
  lemma RelayBrokenOff(s: seq<byte>, k: nat, src: UUID, dst: UUID)
    requires UuidOk(s, src)
    requires k <= |Relayed(s, true, dst)|
    ensures Decode(Relayed(s, true, dst)[..k], true, dst) <= Decode(s, true, src)
  {
    RelayTransparent(s, src, dst);
    DecodeMonotone(Relayed(s, true, dst), k, true, dst);
  }

  lemma FrameAppend(s: seq<byte>, t: seq<byte>, first: bool)
    requires Complete(s, first)
    ensures var n := FrameSize(s, first);
            && Complete(s + t, first)
            && Command(s + t, first) == Command(s, first)
            && FrameSize(s + t, first) == n
            && FrameContent(s + t, first) == FrameContent(s, first)
            && (s + t)[n..] == s[n..] + t
            && (s + t)[..n] == s[..n]
  {
    var h, n := HeaderSize(first), FrameSize(s, first);
    DropAppend(s, t, n);
    SliceAppend(s, t, 0, n);
    SliceAppend(s, t, h, h + ContentLen(s, first));
  }

  /** Once a stream is raw, further bytes are further content. */
  lemma {:induction false} RawAppend(s: seq<byte>, t: seq<byte>, first: bool)
    requires ReachesRaw(s, first)
    ensures ReachesRaw(s + t, first)
    ensures Content(s + t, first) == Content(s, first) + t
    decreases |s|
  {
    FrameAppend(s, t, first);
    var n := FrameSize(s, first);
    if !SwitchesToRaw(Command(s, first)) {
      RawAppend(s[n..], t, false);
      AppendAssoc(FrameContent(s, first), Content(s[n..], false), t);
    } else {
      AppendAssoc(FrameContent(s, first), s[n..], t);
    }
  }

  // ---------- writing ----------

  /** xtlsPadding */
  function XtlsPadding(contentLen: nat): (pad: nat)
    ensures pad < 64
    ensures (contentLen + pad) % 64 == 0
  {
    if contentLen == 0 then 0
    else
      var pad := contentLen % 64;
      if pad == 0 then 0 else 64 - pad
  }

  function Zeros(n: nat): seq<byte> {
    seq(n, _ => 0)
  }

  /** The single frame VisionWriter sends before it goes raw. */
  function FirstFrame(uuid: UUID, chunk: seq<byte>): seq<byte>
    requires |chunk| <= MAX_CONTENT
  {
    FrameBytes(Frame(1, chunk, Zeros(XtlsPadding(|chunk|))), uuid)
  }

  /** What one write puts on the wire. */
  function Wire(uuid: UUID, first: bool, p: seq<byte>): seq<byte> {
    if first then
      var n := Min(|p|, MAX_CONTENT);
      FirstFrame(uuid, p[..n]) + p[n..]
    else p
  }

  /** What a list of writes puts on the wire. */
  function Wires(uuid: UUID, writes: seq<seq<byte>>): seq<byte> {
    if writes == [] then [] else Wire(uuid, true, writes[0]) + Concat(writes[1..])
  }

  /** The first write goes out as one frame of up to 16384 bytes with command 1, padded with zeros; all else is raw. */
  lemma FirstWrite(uuid: UUID, p: seq<byte>)
    ensures var n: uint16 := if |p| < 16384 then |p| else 16384;
            var pad: byte := (64 - n % 64) % 64;
            Wire(uuid, true, p) == uuid + [1, n / 256, n % 256, 0, pad] + p[..n] + seq(pad, _ => 0) + p[n..]
    ensures Wire(uuid, false, p) == p
  {
    FirstFrameSpelled(uuid, p[..Min(|p|, 16384)]);
  }

  lemma PaddingSize(n: nat)
    ensures XtlsPadding(n) == (64 - n % 64) % 64
  {
  }

  lemma FirstFrameSpelled(uuid: UUID, chunk: seq<byte>)
    requires |chunk| <= 16384
    ensures var n, pad: byte := |chunk|, (64 - |chunk| % 64) % 64;
            FirstFrame(uuid, chunk) == uuid + [1, n / 256, n % 256, 0, pad] + chunk + seq(pad, _ => 0)
  {
    var f := Frame(1, chunk, Zeros(XtlsPadding(|chunk|)));
    PaddingSize(|chunk|);
    BodyIsFrame(f, uuid);
    AppendAssoc(uuid, [1, |chunk| / 256, |chunk| % 256, 0, |f.padding|] + chunk, f.padding);
    AppendAssoc(uuid, [1, |chunk| / 256, |chunk| % 256, 0, |f.padding|], chunk);
  }

  lemma FirstFrameRaw(uuid: UUID, chunk: seq<byte>, rest: seq<byte>)
    requires |chunk| <= MAX_CONTENT
    ensures var s := FirstFrame(uuid, chunk) + rest;
            && ReachesRaw(s, true)
            && UuidOk(s, uuid)
            && Content(s, true) == chunk + rest
            && Decode(s, true, uuid) == chunk + rest
  {
    var f := Frame(1, chunk, Zeros(XtlsPadding(|chunk|)));
    FrameBytesParse(f, uuid, rest, true);
    assert (FrameBytes(f, uuid) + rest)[..16] == uuid;
  }

  /** One more write puts its Wire on the end of what earlier writes put out. */
  lemma WiresSnoc(uuid: UUID, writes: seq<seq<byte>>, p: seq<byte>)
    ensures Wires(uuid, writes + [p]) == Wires(uuid, writes) + Wire(uuid, writes == [], p)
  {
    if writes == [] {
      assert writes + [p] == [p];
      assert Wire(uuid, true, p) + [] == Wire(uuid, true, p) == [] + Wire(uuid, true, p);
    } else {
      assert (writes + [p])[1..] == writes[1..] + [p];
      ConcatSnoc(writes[1..], p);
      AppendAssoc(Wire(uuid, true, writes[0]), Concat(writes[1..]), p);
    }
  }

  lemma WireDecodes(uuid: UUID, p: seq<byte>, more: seq<byte>)
    ensures Decode(Wire(uuid, true, p) + more, true, uuid) == p + more
    ensures ReachesRaw(Wire(uuid, true, p) + more, true)
  {
    var n := Min(|p|, MAX_CONTENT);
    FirstFrameRaw(uuid, p[..n], p[n..] + more);
    AppendAssoc(FirstFrame(uuid, p[..n]), p[n..], more);
    AppendAssoc(p[..n], p[n..], more);
    TakeDrop(p, n);
  }

  /** Round trip: any writes, the first of any length, decode to their concatenation. */
  lemma WritesDecode(uuid: UUID, writes: seq<seq<byte>>)
    requires writes != []
    ensures Decode(Wires(uuid, writes), true, uuid) == Concat(writes)
    ensures ReachesRaw(Wires(uuid, writes), true)
  {
    WireDecodes(uuid, writes[0], Concat(writes[1..]));
  }
}
