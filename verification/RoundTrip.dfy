/** The Vision writer and reader over one wire, with any writes, any breaks in the wire and any read buffers. */
module RoundTrip {
  import opened Bytes
  import opened Streams
  import opened VisionFormat
  import opened Vision

  /** Any list of writes adds their concatenation to what the far end decodes, or a prefix when a write fails. */
  method WriteAll(vw: VisionWriter, writes: seq<seq<byte>>) returns (err: Option<Error>)
    requires vw.Valid() && vw.Clean()
    modifies vw, vw.sink
    ensures vw.Valid()
    ensures old(vw.Content()) <= vw.Content() <= old(vw.Content()) + Concat(writes)
    ensures err.None? ==> vw.Clean() && vw.Content() == old(vw.Content()) + Concat(writes)
    ensures err.None? ==> vw.sink.out == old(vw.sink.out) + WiresFrom(vw.uuid, old(vw.isFirst), writes)
  {
    err := None;
    ghost var before, out := vw.Content(), vw.sink.out;
    NoWrites(before, out, vw.uuid, vw.isFirst);
    for i := 0 to |writes|
      invariant vw.Valid() && vw.Clean()
      invariant vw.isFirst == (old(vw.isFirst) && i == 0)
      invariant vw.Content() == before + Concat(writes[..i])
      invariant vw.sink.out == out + WiresFrom(vw.uuid, old(vw.isFirst), writes[..i])
    {
      var n;
      n, err := vw.Write(writes[i]);
      Written(before, writes, i, vw.Content());
      if err.Some? {
        return;
      }
      Wired(vw.uuid, out, old(vw.isFirst), writes, i);
    }
    assert writes[..|writes|] == writes;
  }

  lemma NoWrites(before: seq<byte>, out: seq<byte>, uuid: UUID, first: bool)
    ensures before == before + Concat([]) && out == out + WiresFrom(uuid, first, [])
  {
  }

  /** What a list of writes puts on the wire, from the first write on or later. */
  function WiresFrom(uuid: UUID, first: bool, writes: seq<seq<byte>>): seq<byte> {
    if first then Wires(uuid, writes) else Concat(writes)
  }

  lemma {:induction false} ConcatPrefix(chunks: seq<seq<byte>>, i: nat)
    requires i <= |chunks|
    ensures Concat(chunks[..i]) <= Concat(chunks)
    decreases |chunks| - i
  {
    if i == |chunks| {
      assert chunks[..i] == chunks;
    } else {
      TakeOneMore(chunks, i);
      ConcatSnoc(chunks[..i], chunks[i]);
      ConcatPrefix(chunks, i + 1);
      PrefixTransitive(Concat(chunks[..i]), Concat(chunks[..i + 1]), Concat(chunks));
    }
  }

  /** After the i-th write, whether or not all of it went out. */
  lemma Written(before: seq<byte>, writes: seq<seq<byte>>, i: nat, now: seq<byte>)
    requires i < |writes|
    requires before + Concat(writes[..i]) <= now <= before + Concat(writes[..i]) + writes[i]
    ensures before <= now <= before + Concat(writes)
    ensures before + Concat(writes[..i]) + writes[i] == before + Concat(writes[..i + 1])
  {
    TakeOneMore(writes, i);
    ConcatSnoc(writes[..i], writes[i]);
    AppendAssoc(before, Concat(writes[..i]), writes[i]);
    ConcatPrefix(writes, i + 1);
    PrefixAppend(before, Concat(writes[..i + 1]), Concat(writes));
    PrefixTransitive(now, before + Concat(writes[..i + 1]), before + Concat(writes));
    PrefixTransitive(before, before + Concat(writes[..i]), now);
  }

  lemma Wired(uuid: UUID, out: seq<byte>, first: bool, writes: seq<seq<byte>>, i: nat)
    requires i < |writes|
    ensures out + WiresFrom(uuid, first, writes[..i]) + Wire(uuid, first && i == 0, writes[i]) ==
            out + WiresFrom(uuid, first, writes[..i + 1])
  {
    TakeOneMore(writes, i);
    WiresSnoc(uuid, writes[..i], writes[i]);
    ConcatSnoc(writes[..i], writes[i]);
    AppendAssoc(out, WiresFrom(uuid, first, writes[..i]), Wire(uuid, first && i == 0, writes[i]));
  }

  predicate Positive(sizes: seq<nat>) {
    forall i :: 0 <= i < |sizes| ==> sizes[i] > 0
  }

  /** Any list of reads hands over the front of the content; an error comes only when nothing is left. */
  method ReadAll(vr: VisionReader, sizes: seq<nat>) returns (got: seq<byte>, err: Option<Error>)
    requires vr.Valid()
    modifies vr, vr.reader
    ensures vr.Valid()
    ensures err.None? ==> got + vr.Pending() == old(vr.Pending())
    ensures err.Some? ==> got == old(vr.Pending())
    ensures Positive(sizes) && |sizes| > old(vr.Unread()) ==> err.Some?
  {
    got, err := [], None;
    for i := 0 to |sizes|
      invariant vr.Valid() && err.None?
      invariant got + vr.Pending() == old(vr.Pending())
      invariant Positive(sizes) ==> vr.Unread() + i <= old(vr.Unread())
    {
      var p := new byte[sizes[i]];
      var n;
      n, err := vr.Read(p);
      AppendAssoc(got, p[..n], vr.Pending());
      got := got + p[..n];
      if err.Some? {
        return;
      }
    }
  }

  /**
    The round trip. What is read is always a prefix of what was written, wherever a write fails or the wire
    breaks, and all of it once the whole wire has arrived and is drained.
   */
  method Transfer(uuid: UUID, writes: seq<seq<byte>>, sizes: seq<nat>, end: Error)
    returns (got: seq<byte>, arrived: bool, drained: bool)
    ensures got <= Concat(writes)
    ensures arrived && drained ==> got == Concat(writes)
    ensures arrived && Positive(sizes) && |sizes| > |Wires(uuid, writes)| ==> drained
  {
    var sink := new Sink();
    var vw := new VisionWriter(sink, uuid);
    var writeErr := WriteAll(vw, writes);
    assert [] + Concat(writes) == Concat(writes);
    assert sink.out[vw.base..] == sink.out;

    var k :| 0 <= k <= |sink.out|;
    var conn := new Conn(sink.out[..k], end);
    var vr := new VisionReader(conn, uuid);
    DecodeMonotone(sink.out, k, true, uuid);
    var readErr;
    got, readErr := ReadAll(vr, sizes);
    arrived, drained := writeErr.None? && k == |sink.out|, readErr.Some?;
    assert k == |sink.out| ==> sink.out[..k] == sink.out;
    assert [] + Wires(uuid, writes) == Wires(uuid, writes);
    PrefixTransitive(got, Decode(sink.out[..k], true, uuid), Concat(writes));
  }
}
