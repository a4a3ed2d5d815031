/** Bytes, Go strings and the small result types the other modules share. */
module Bytes {

  type byte = b: int | 0 <= b < 256

  /** A Go string or byte slice seen as a value. */
  type Text = seq<byte>

  /** The bytes of an ASCII string. */
  predicate Spells(t: Text, s: string) {
    |t| == |s| && forall i :: 0 <= i < |t| ==> t[i] == s[i] as int
  }

  datatype Option<+T> = None | Some(value: T)

  datatype Result<+T, +E> = Ok(value: T) | Err(error: E)

  type uint16 = n: int | 0 <= n < 0x1_0000

  /** A [16]byte value. */
  type UUID = u: seq<byte> | |u| == 16 witness [0, 0, 0, 0, 0, 0, 0, 0, 0, 0, 0, 0, 0, 0, 0, 0]

  /** binary.BigEndian.Uint16 */
  function U16(hi: byte, lo: byte): uint16 {
    256 * hi + lo
  }

  /** binary.BigEndian.PutUint16 */
  function PutU16(n: uint16): (r: seq<byte>)
    ensures |r| == 2 && U16(r[0], r[1]) == n
  {
    [n / 256, n % 256]
  }

  function Min(a: int, b: int): int {
    if a < b then a else b
  }

  function Concat<T>(chunks: seq<seq<T>>): seq<T> {
    if chunks == [] then [] else chunks[0] + Concat(chunks[1..])
  }

  lemma {:induction false} ConcatSnoc<T>(chunks: seq<seq<T>>, last: seq<T>)
    ensures Concat(chunks + [last]) == Concat(chunks) + last
  {
    if chunks == [] {
      assert chunks + [last] == [last];
    } else {
      assert (chunks + [last])[1..] == chunks[1..] + [last];
      ConcatSnoc(chunks[1..], last);
    }
  }

  lemma {:induction false} ConcatAppend<T>(a: seq<seq<T>>, b: seq<seq<T>>)
    ensures Concat(a + b) == Concat(a) + Concat(b)
  {
    if a == [] {
      assert a + b == b;
    } else {
      assert (a + b)[1..] == a[1..] + b;
      ConcatAppend(a[1..], b);
    }
  }

  // ---------- facts about sequences, kept apart to keep other proofs small ----------

  lemma TakeDrop<T>(s: seq<T>, n: nat)
    requires n <= |s|
    ensures s[..n] + s[n..] == s
  {
  }

  lemma AppendAssoc<T>(a: seq<T>, b: seq<T>, c: seq<T>)
    ensures (a + b) + c == a + (b + c)
  {
  }

  lemma AppendSlices<T>(a: seq<T>, b: seq<T>)
    ensures (a + b)[..|a|] == a && (a + b)[|a|..] == b
  {
  }

  /** Dropping from a concatenation no more than its first part. */
  lemma DropAppend<T>(a: seq<T>, b: seq<T>, n: nat)
    requires n <= |a|
    ensures (a + b)[n..] == a[n..] + b
  {
  }

  lemma SliceAppend<T>(a: seq<T>, b: seq<T>, lo: nat, hi: nat)
    requires lo <= hi <= |a|
    ensures (a + b)[lo..hi] == a[lo..hi]
  {
  }

  lemma EndAppend<T>(a: seq<T>, b: seq<T>, k: nat)
    requires k <= |b|
    ensures (a + b)[|a + b| - k..] == b[|b| - k..]
  {
  }

  lemma DropTake<T>(s: seq<T>, n: nat, k: nat)
    requires n <= k <= |s|
    ensures s[..k][n..] == s[n..][..k - n]
    ensures s[..n] + s[n..][..k - n] == s[..k]
  {
  }

  lemma SliceTake<T>(s: seq<T>, lo: nat, hi: nat, k: nat)
    requires lo <= hi <= k <= |s|
    ensures s[..k][lo..hi] == s[lo..hi]
  {
  }

  lemma PrefixAppend<T>(a: seq<T>, b: seq<T>, c: seq<T>)
    requires b <= c
    ensures a + b <= a + c
  {
  }

  lemma LastSplit<T>(s: seq<T>)
    requires s != []
    ensures s == s[..|s| - 1] + [s[|s| - 1]]
  {
  }

  lemma FirstSplit<T>(s: seq<T>)
    requires s != []
    ensures s == [s[0]] + s[1..]
  {
  }

  lemma TakeOneMore<T>(s: seq<T>, i: nat)
    requires i < |s|
    ensures s[..i + 1] == s[..i] + [s[i]]
  {
  }

  lemma TakeSlice<T>(s: seq<T>, i: nat, j: nat)
    requires i <= j <= |s|
    ensures s[..i] + s[i..j] == s[..j]
  {
  }

  lemma PrefixTransitive<T>(a: seq<T>, b: seq<T>, c: seq<T>)
    requires a <= b <= c
    ensures a <= c
  {
  }

  lemma SharedPrefix<T>(a: seq<T>, b: seq<T>, c: seq<T>)
    requires a <= c && b <= c && |a| <= |b|
    ensures a <= b
  {
  }

  lemma PrefixSplit<T>(a: seq<T>, b: seq<T>)
    requires a <= b
    ensures b[..|a|] == a
    ensures |a| == |b| ==> a == b
  {
  }

  /** Writing the first k bytes of some data. */
  lemma WritePrefix<T>(out: seq<T>, data: seq<T>, k: nat)
    requires k <= |data|
    ensures out <= out + data[..k] <= out + data
    ensures k == |data| ==> out + data[..k] == out + data
  {
  }
}
