/**
  The two halves of a connection, as io.Reader and io.Writer see them.

  `Conn` is the reading half: the bytes that will still arrive before the stream ends, and how it ends.
  How many bytes one read returns is not determined. `Sink` is the writing half: the bytes written so far;
  any write may fail part way.
 */
module Streams {
  import opened Bytes

  datatype Error =
    | EOF
    | UnexpectedEOF
    | ConnFailed
    | UuidMismatch
    | Wrapped(cause: Error)

  /** Go's built-in copy. */
  method CopyInto(p: array<byte>, data: seq<byte>) returns (n: nat)
    modifies p
    ensures n == Min(p.Length, |data|)
    ensures p[..n] == data[..n]
    ensures p[n..] == old(p[n..])
  {
    n := Min(p.Length, |data|);
    forall i | 0 <= i < n {
      p[i] := data[i];
    }
  }

  class Conn {
    var incoming: seq<byte>
    const end: Error

    constructor (incoming: seq<byte>, end: Error)
      ensures this.incoming == incoming && this.end == end
    {
      this.incoming, this.end := incoming, end;
    }

    /** A read may be short, and the last one may report the end along with its bytes. */
    method Read(p: array<byte>) returns (n: nat, err: Option<Error>)
      modifies this`incoming, p
      ensures n <= p.Length && |incoming| == |old(incoming)| - n
      ensures err.None? ==> p[..n] + incoming == old(incoming)
      ensures err.Some? ==> p[..n] == old(incoming) && incoming == [] && err.value == end
      ensures p.Length > 0 && err.None? ==> n > 0
    {
      if p.Length == 0 {
        return 0, None;
      }
      if incoming == [] {
        return 0, Some(end);
      }
      var k :| 1 <= k <= |incoming|;
      n := CopyInto(p, incoming[..k]);
      TakeDrop(incoming, n);
      incoming := incoming[n..];
      var early: bool := *;
      err := if incoming == [] && early then Some(end) else None;
    }
  }

  class Sink {
    var out: seq<byte>
    var failed: bool

    constructor ()
      ensures out == [] && !failed
    {
      out, failed := [], false;
    }

    method Write(data: seq<byte>) returns (n: nat, err: Option<Error>)
      modifies this
      ensures n <= |data| && out == old(out) + data[..n]
      ensures err.None? ==> n == |data| && failed == old(failed)
      ensures err.Some? ==> failed && err.value == ConnFailed
    {
      var ok: bool := *;
      if ok {
        n, err := |data|, None;
      } else {
        n :| 0 <= n <= |data|;
        err, failed := Some(ConnFailed), true;
      }
      out := out + data[..n];
    }
  }
}
