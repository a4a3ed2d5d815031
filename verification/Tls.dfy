/**
  extractSNI of tls.go, against the ClientHello encoding of section 4.1.2 of RFC 8446 and the server_name
  extension of section 3 of RFC 6066.
 */
module Tls {
  import opened Bytes

  // ---------- the parser as a function ----------

  /** The length-prefixed parts in front of the extensions: where the cursor is after each, if it can go on. */
  function SkipCounted8(data: seq<byte>, pos: nat): Option<nat> {
    if |data| < pos + 1 then None else Some(pos + 1 + data[pos])
  }

  function SkipCounted16(data: seq<byte>, pos: nat): Option<nat> {
    if |data| < pos + 2 then None else Some(pos + 2 + U16(data[pos], data[pos + 1]))
  }

  /** Where the extensions block's length field is. */
  function ExtensionsAt(data: seq<byte>): Option<nat> {
    if |data| < 9 || data[0] != 0x16 || data[5] != 0x01 || |data| < 43 then None
    else
      match SkipCounted8(data, 43)
      case None => None
      case Some(p1) =>
        match SkipCounted16(data, p1)
        case None => None
        case Some(p2) => SkipCounted8(data, p2)
  }

  /** The name in a server_name extension whose data starts at pos, as far as the parser looks. */
  function NameAt(data: seq<byte>, pos: nat, len: nat, end: nat): Option<Text>
    requires end <= |data|
  {
    if len > 5 && pos + len <= end && data[pos] == 0 then
      var nameLen := U16(data[pos + 3], data[pos + 4]);
      if nameLen > 0 && pos + 5 + nameLen <= end then Some(data[pos + 5..pos + 5 + nameLen]) else None
    else None
  }

  /** The name in the extension at pos, if it is a server_name extension. */
  function NameHere(data: seq<byte>, pos: nat, end: nat): Option<Text>
    requires pos + 4 <= end <= |data|
  {
    if U16(data[pos], data[pos + 1]) == 0 then NameAt(data, pos + 4, U16(data[pos + 2], data[pos + 3]), end) else None
  }

  function NextAt(data: seq<byte>, pos: nat): (next: nat)
    requires pos + 4 <= |data|
    ensures next >= pos + 4
  {
    pos + 4 + U16(data[pos + 2], data[pos + 3])
  }

  /** The walk over the extensions between pos and end. */
  function Walk(data: seq<byte>, pos: nat, end: nat): Option<Text>
    requires end <= |data|
    decreases end - pos
  {
    if pos + 4 > end then None
    else
      var name := NameHere(data, pos, end);
      if name.Some? then name else Walk(data, NextAt(data, pos), end)
  }

  datatype Block = Block(start: nat, end: nat)

  /** The extensions themselves, cut off where the data ends. */
  function ExtensionsBlock(data: seq<byte>): (r: Option<Block>)
    ensures r.Some? ==> r.value.end <= |data|
  {
    match ExtensionsAt(data)
    case None => None
    case Some(p) =>
      if |data| < p + 2 then None
      else Some(Block(p + 2, Min(p + 2 + U16(data[p], data[p + 1]), |data|)))
  }

  function Sni(data: seq<byte>): Option<Text> {
    match ExtensionsBlock(data)
    case None => None
    case Some(b) => Walk(data, b.start, b.end)
  }

  /** The part of extractSNI in front of its loop: where the extensions start and end. */
  method LocateExtensions(data: seq<byte>) returns (found: bool, pos: nat, end: nat)
    ensures ExtensionsBlock(data) == if found then Some(Block(pos, end)) else None
  {
    found, pos, end := false, 5, 0;
    if |data| < 5 || data[0] != 0x16 {
      return;
    }
    if |data| < pos + 4 || data[pos] != 0x01 {
      return;
    }
    pos := pos + 4;
    if |data| < pos + 2 + 32 {
      return;
    }
    pos := pos + 2 + 32;

    if |data| < pos + 1 {
      return;
    }
    var sidLen := data[pos];
    pos := pos + 1 + sidLen;
    if |data| < pos + 2 {
      return;
    }
    var csLen := U16(data[pos], data[pos + 1]);
    pos := pos + 2 + csLen;
    if |data| < pos + 1 {
      return;
    }
    var cmLen := data[pos];
    pos := pos + 1 + cmLen;
    assert ExtensionsAt(data) == Some(pos);
    if |data| < pos + 2 {
      return;
    }
    var extLen := U16(data[pos], data[pos + 1]);
    pos := pos + 2;
    end := pos + extLen;
    if end > |data| {
      end := |data|;
    }
    found := true;
  }

  /** The innermost part of the loop. */
  method ReadName(data: seq<byte>, pos: nat, len: nat, end: nat) returns (r: Option<Text>)
    requires len > 5 && pos + len <= end <= |data|
    ensures r == NameAt(data, pos, len, end)
  {
    r := None;
    if data[pos] == 0 {
      var nameLen := U16(data[pos + 3], data[pos + 4]);
      if nameLen > 0 && pos + 5 + nameLen <= end {
        r := Some(data[pos + 5..pos + 5 + nameLen]);
      }
    }
  }

  /** The loop of extractSNI. */
  method WalkExtensions(data: seq<byte>, start: nat, end: nat) returns (r: Option<Text>)
    requires end <= |data|
    ensures r == Walk(data, start, end)
  {
    var pos := start;
    ghost var goal := Walk(data, start, end);
    while pos + 4 <= end
      invariant goal == Walk(data, pos, end)
      decreases end - pos
    {
      ghost var here, next := NameHere(data, pos, end), NextAt(data, pos);
      var extType := U16(data[pos], data[pos + 1]);
      var extDataLen := U16(data[pos + 2], data[pos + 3]);
      pos := pos + 4;
      if extType == 0 && extDataLen > 5 && pos + extDataLen <= end {
        r := ReadName(data, pos, extDataLen, end);
        if r.Some? {
          return;
        }
      }
      assert here == None && pos + extDataLen == next;
      pos := pos + extDataLen;
    }
    r := None;
  }

  /** extractSNI: every access is in bounds, the cursor always advances, and the result is Sni's. */
  method ExtractSNI(data: seq<byte>) returns (r: Option<Text>)
    ensures r == Sni(data)
  {
    var found, pos, end := LocateExtensions(data);
    if !found {
      return None;
    }
    r := WalkExtensions(data, pos, end);
  }

  /** Whatever the bytes, a name that is returned is non-empty and lies inside the extensions block. */
  lemma {:induction false} WalkInside(data: seq<byte>, pos: nat, end: nat)
    requires end <= |data|
    requires Walk(data, pos, end).Some?
    ensures exists i, j :: pos + 9 <= i < j <= end && Walk(data, pos, end).value == data[i..j]
    decreases end - pos
  {
    if NameHere(data, pos, end).Some? {
      assert Walk(data, pos, end).value == data[pos + 9..pos + 9 + U16(data[pos + 7], data[pos + 8])];
    } else {
      WalkInside(data, NextAt(data, pos), end);
    }
  }

  // ---------- the encoding ----------

  datatype Extension = Extension(extType: uint16, data: seq<byte>) {
    predicate Valid() {
      |data| < 0x1_0000
    }
  }

  function ExtensionBytes(e: Extension): seq<byte>
    requires e.Valid()
  {
    PutU16(e.extType) + Counted16(e.data)
  }

  function ExtensionsBytes(es: seq<Extension>): seq<byte>
    requires forall e <- es :: e.Valid()
  {
    if es == [] then [] else ExtensionBytes(es[0]) + ExtensionsBytes(es[1..])
  }

  /** Everything of an unfragmented ClientHello record; the record and handshake lengths play no part. */
  datatype Hello = Hello(
    recordHeader: seq<byte>,     // version and length of the record
    handshakeLength: seq<byte>,
    versionAndRandom: seq<byte>,
    sessionId: seq<byte>,
    cipherSuites: seq<byte>,
    compressionMethods: seq<byte>,
    extensions: seq<Extension>)
  {
    ghost predicate Valid() {
      && |recordHeader| == 4 && |handshakeLength| == 3 && |versionAndRandom| == 34
      && |sessionId| <= 255 && |cipherSuites| < 0x1_0000 && |compressionMethods| <= 255
      && (forall e <- extensions :: e.Valid())
      && |ExtensionsBytes(extensions)| < 0x1_0000
    }
  }

  function HelloBytes(h: Hello): seq<byte>
    requires h.Valid()
  {
    HelloHead(h) + ExtensionsBytes(h.extensions)
  }

  /** Everything in front of the extensions, up to their length. */
  function HelloHead(h: Hello): seq<byte>
    requires h.Valid()
  {
    HelloFront(h) +
    (Counted8(h.sessionId) +
     (Counted16(h.cipherSuites) + (Counted8(h.compressionMethods) + PutU16(|ExtensionsBytes(h.extensions)|))))
  }

  function HelloFront(h: Hello): (r: seq<byte>)
    requires h.Valid()
    ensures |r| == 43 && r[0] == 0x16 && r[5] == 0x01
  {
    [0x16] + h.recordHeader + [0x01] + h.handshakeLength + h.versionAndRandom
  }

  function Counted8(s: seq<byte>): seq<byte>
    requires |s| <= 255
  {
    [|s|] + s
  }

  function Counted16(s: seq<byte>): seq<byte>
    requires |s| < 0x1_0000
  {
    PutU16(|s|) + s
  }

  /** ServerNameList: a length, then an entry with a type and a name, then whatever else the list holds. */
  function ServerNameData(nameType: byte, name: Text, others: seq<byte>): seq<byte>
    requires |name| + 3 + |others| < 0x1_0000
  {
    PutU16(|name| + 3 + |others|) + [nameType] + (Counted16(name) + others)
  }

  // ---------- the parser inverts the encoding ----------

  ghost predicate At(data: seq<byte>, pos: nat, part: seq<byte>) {
    pos + |part| <= |data| && forall i :: 0 <= i < |part| ==> data[pos + i] == part[i]
  }

  lemma AtSplit(data: seq<byte>, pos: nat, a: seq<byte>, b: seq<byte>)
    requires At(data, pos, a + b)
    ensures At(data, pos, a) && At(data, pos + |a|, b)
  {
    assert forall i :: 0 <= i < |a| ==> (a + b)[i] == a[i];
    forall i | 0 <= i < |b|
      ensures data[pos + |a| + i] == b[i]
    {
      assert (a + b)[|a| + i] == b[i];
    }
  }

  lemma AtCounted8(data: seq<byte>, pos: nat, s: seq<byte>)
    requires |s| <= 255 && At(data, pos, Counted8(s))
    ensures SkipCounted8(data, pos) == Some(pos + 1 + |s|)
  {
    assert Counted8(s)[0] == data[pos + 0];
    assert data[pos] == |s|;
  }

  lemma AtCounted16(data: seq<byte>, pos: nat, s: seq<byte>)
    requires |s| < 0x1_0000 && At(data, pos, Counted16(s))
    ensures SkipCounted16(data, pos) == Some(pos + 2 + |s|)
    ensures U16(data[pos], data[pos + 1]) == |s|
    ensures At(data, pos + 2, s)
  {
    assert Counted16(s)[0] == data[pos + 0];
    assert Counted16(s)[1] == data[pos + 1];
    AtSplit(data, pos, PutU16(|s|), s);
  }

  /** The parser finds the length of the extensions of a hello, however much of them has arrived. */
  lemma LocatesExtensions(data: seq<byte>, h: Hello)
    requires h.Valid() && At(data, 0, HelloHead(h))
    ensures var p: nat := |HelloHead(h)| - 2;
            && ExtensionsAt(data) == Some(p) && p + 2 <= |data|
            && U16(data[p], data[p + 1]) == |ExtensionsBytes(h.extensions)|
  {
    var size := PutU16(|ExtensionsBytes(h.extensions)|);
    var d4 := Counted8(h.compressionMethods) + size;
    var d3 := Counted16(h.cipherSuites) + d4;
    AtFront(data, h, Counted8(h.sessionId) + d3);
    AtSplit(data, 43, Counted8(h.sessionId), d3);
    AtCounted8(data, 43, h.sessionId);
    var p1 := 44 + |h.sessionId|;
    AtSplit(data, p1, Counted16(h.cipherSuites), d4);
    AtCounted16(data, p1, h.cipherSuites);
    var p2 := p1 + 2 + |h.cipherSuites|;
    AtSplit(data, p2, Counted8(h.compressionMethods), size);
    AtCounted8(data, p2, h.compressionMethods);
    AtU16(data, p2 + 1 + |h.compressionMethods|, |ExtensionsBytes(h.extensions)|);
  }

  lemma AtFront(data: seq<byte>, h: Hello, rest: seq<byte>)
    requires h.Valid() && At(data, 0, HelloFront(h) + rest)
    ensures |data| >= 43 && data[0] == 0x16 && data[5] == 0x01
    ensures At(data, 43, rest)
  {
    AtSplit(data, 0, HelloFront(h), rest);
    assert HelloFront(h)[0] == data[0 + 0];
    assert HelloFront(h)[5] == data[0 + 5];
  }

  lemma AtU16(data: seq<byte>, pos: nat, n: uint16)
    requires At(data, pos, PutU16(n))
    ensures pos + 2 <= |data| && U16(data[pos], data[pos + 1]) == n
  {
    assert PutU16(n)[0] == data[pos + 0] && PutU16(n)[1] == data[pos + 1];
  }

  lemma PrefixIsAt(data: seq<byte>, a: seq<byte>, b: seq<byte>)
    requires a + b <= data
    ensures At(data, 0, a) && At(data, |a|, b)
  {
    AtSplit(data, 0, a, b);
  }

  /** The block ends where the extensions do, or where the data does. */
  lemma FindsExtensions(data: seq<byte>, h: Hello, shown: seq<byte>)
    requires h.Valid() && HelloHead(h) + shown <= data
    ensures var p := |HelloHead(h)|;
            && At(data, p, shown)
            && ExtensionsBlock(data) == Some(Block(p, Min(p + |ExtensionsBytes(h.extensions)|, |data|)))
  {
    PrefixIsAt(data, HelloHead(h), shown);
    LocatesExtensions(data, h);
  }

  /** One extension of the walk. */
  lemma WalkOne(data: seq<byte>, pos: nat, e: Extension, more: seq<byte>, end: nat)
    requires e.Valid()
    requires At(data, pos, ExtensionBytes(e) + more)
    requires pos + |ExtensionBytes(e)| + |more| <= end <= |data|
    ensures var next := pos + |ExtensionBytes(e)|;
            && At(data, pos + 4, e.data)
            && At(data, next, more)
            && pos + 4 <= end
            && NextAt(data, pos) == next
            && NameHere(data, pos, end) == if e.extType == 0 then NameAt(data, pos + 4, |e.data|, end) else None
  {
    AtSplit(data, pos, ExtensionBytes(e), more);
    AtSplit(data, pos, PutU16(e.extType), Counted16(e.data));
    assert PutU16(e.extType)[0] == data[pos + 0];
    assert PutU16(e.extType)[1] == data[pos + 1];
    AtCounted16(data, pos + 2, e.data);
  }

  /** Without a server_name extension the walk finds nothing. */
  lemma {:induction false} WalkNoName(data: seq<byte>, pos: nat, es: seq<Extension>)
    requires forall e <- es :: e.Valid()
    requires forall i :: 0 <= i < |es| ==> es[i].extType != 0
    requires At(data, pos, ExtensionsBytes(es))
    ensures Walk(data, pos, pos + |ExtensionsBytes(es)|) == None
    decreases |es|
  {
    if es != [] {
      WalkOne(data, pos, es[0], ExtensionsBytes(es[1..]), pos + |ExtensionsBytes(es)|);
      WalkNoName(data, pos + |ExtensionBytes(es[0])|, es[1..]);
    }
  }

  /** The name of the first entry is found exactly when the list is shorter than 256 bytes, whatever its type. */
  lemma NameAtData(data: seq<byte>, pos: nat, nameType: byte, name: Text, others: seq<byte>, end: nat)
    requires name != [] && |name| + 3 + |others| < 0x1_0000 - 2
    requires At(data, pos, ServerNameData(nameType, name, others))
    requires pos + |ServerNameData(nameType, name, others)| <= end <= |data|
    ensures NameAt(data, pos, |ServerNameData(nameType, name, others)|, end) ==
            if |name| + 3 + |others| < 256 then Some(name) else None
  {
    var front := PutU16(|name| + 3 + |others|) + [nameType];
    AtSplit(data, pos, front, Counted16(name) + others);
    assert front[0] == data[pos + 0];
    assert front[0] == (|name| + 3 + |others|) / 256;
    AtSplit(data, pos + 3, Counted16(name), others);
    AtCounted16(data, pos + 3, name);
    assert data[pos + 5..pos + 5 + |name|] == name;
  }

  /** The walk needs the extensions only up to the first server_name. */
  lemma {:induction false} WalkFinds(
      data: seq<byte>, pos: nat, es: seq<Extension>, k: nat, nameType: byte, name: Text, others: seq<byte>, end: nat)
    requires forall e <- es :: e.Valid()
    requires |es| == k + 1 && es[k].extType == 0 && forall i :: 0 <= i < k ==> es[i].extType != 0
    requires name != [] && |name| + 3 + |others| < 256
    requires es[k].data == ServerNameData(nameType, name, others)
    requires At(data, pos, ExtensionsBytes(es)) && pos + |ExtensionsBytes(es)| <= end <= |data|
    ensures Walk(data, pos, end) == Some(name)
    decreases |es|
  {
    WalkOne(data, pos, es[0], ExtensionsBytes(es[1..]), end);
    if k == 0 {
      NameAtData(data, pos + 4, nameType, name, others, end);
    } else {
      assert forall i :: 0 <= i < |es| - 1 ==> es[1..][i] == es[i + 1];
      WalkFinds(data, pos + |ExtensionBytes(es[0])|, es[1..], k - 1, nameType, name, others, end);
    }
  }

  lemma {:induction false} WalkMisses(
      data: seq<byte>, pos: nat, es: seq<Extension>, k: nat, nameType: byte, name: Text, others: seq<byte>)
    requires forall e <- es :: e.Valid()
    requires k < |es| && forall i :: 0 <= i < |es| && i != k ==> es[i].extType != 0
    requires es[k].extType == 0
    requires name != [] && 256 <= |name| + 3 + |others| < 0x1_0000 - 2
    requires es[k].data == ServerNameData(nameType, name, others)
    requires At(data, pos, ExtensionsBytes(es))
    ensures Walk(data, pos, pos + |ExtensionsBytes(es)|) == None
    decreases |es|
  {
    var end := pos + |ExtensionsBytes(es)|;
    var next := pos + |ExtensionBytes(es[0])|;
    WalkOne(data, pos, es[0], ExtensionsBytes(es[1..]), end);
    assert forall i :: 0 <= i < |es| - 1 ==> es[1..][i] == es[i + 1];
    if k == 0 {
      NameAtData(data, pos + 4, nameType, name, others, end);
      WalkNoName(data, next, es[1..]);
    } else {
      WalkMisses(data, next, es[1..], k - 1, nameType, name, others);
    }
  }

  lemma {:induction false} ExtensionsSplit(es: seq<Extension>, n: nat)
    requires n <= |es| && forall e <- es :: e.Valid()
    ensures ExtensionsBytes(es) == ExtensionsBytes(es[..n]) + ExtensionsBytes(es[n..])
    decreases n
  {
    if n == 0 {
      assert es[n..] == es;
    } else {
      ExtensionsSplit(es[1..], n - 1);
      assert es[..n][1..] == es[1..][..n - 1] && es[1..][n - 1..] == es[n..];
      AppendAssoc(ExtensionBytes(es[0]), ExtensionsBytes(es[1..][..n - 1]), ExtensionsBytes(es[n..]));
    }
  }

  /** A hello of which everything up to the k-th extension has arrived; anything may follow, or nothing. */
  ghost predicate Arrived(data: seq<byte>, h: Hello, k: nat)
    requires h.Valid() && k < |h.extensions|
  {
    HelloHead(h) + ExtensionsBytes(h.extensions[..k + 1]) <= data
  }

  lemma WholeArrived(data: seq<byte>, h: Hello, k: nat)
    requires h.Valid() && k < |h.extensions|
    requires HelloBytes(h) <= data
    ensures Arrived(data, h, k)
  {
    ExtensionsSplit(h.extensions, k + 1);
    var a, b := ExtensionsBytes(h.extensions[..k + 1]), ExtensionsBytes(h.extensions[k + 1..]);
    AppendAssoc(HelloHead(h), a, b);
    PrefixTransitive(HelloHead(h) + a, HelloBytes(h), data);
  }

  /**
    The first server_name extension of a hello starts with an entry for `name`. If its list is shorter than 256
    bytes, that name is returned as soon as the extension has arrived, whatever else the hello holds and whatever
    follows. The type of the entry, which says whether it is a host_name, is never looked at.
   */
  lemma SniFound(data: seq<byte>, h: Hello, k: nat, nameType: byte, name: Text, others: seq<byte>)
    requires h.Valid()
    requires k < |h.extensions| && h.extensions[k].extType == 0
    requires forall i :: 0 <= i < k ==> h.extensions[i].extType != 0
    requires name != [] && |name| + 3 + |others| < 256
    requires h.extensions[k].data == ServerNameData(nameType, name, others)
    requires Arrived(data, h, k)
    ensures Sni(data) == Some(name)
  {
    FindsExtensions(data, h, ExtensionsBytes(h.extensions[..k + 1]));
    ExtensionsSplit(h.extensions, k + 1);
    var p := |HelloHead(h)|;
    SniShown(data, p, Min(p + |ExtensionsBytes(h.extensions)|, |data|), h.extensions[..k + 1], k, nameType, name, others);
  }

  lemma SniShown(data: seq<byte>, p: nat, end: nat, es: seq<Extension>, k: nat,
                 nameType: byte, name: Text, others: seq<byte>)
    requires forall e <- es :: e.Valid()
    requires |es| == k + 1 && es[k].extType == 0 && forall i :: 0 <= i < k ==> es[i].extType != 0
    requires name != [] && |name| + 3 + |others| < 256
    requires es[k].data == ServerNameData(nameType, name, others)
    requires At(data, p, ExtensionsBytes(es)) && p + |ExtensionsBytes(es)| <= end <= |data|
    requires ExtensionsBlock(data) == Some(Block(p, end))
    ensures Sni(data) == Some(name)
  {
    WalkFinds(data, p, es, k, nameType, name, others, end);
  }

  /**
    In a hello with one server_name extension, as section 4.2 of RFC 8446 demands, the name is returned
    exactly when the list is shorter than 256 bytes: the parser takes the high byte of the list length for
    the name type.
   */
  lemma SniFoundIffShort(data: seq<byte>, h: Hello, k: nat, nameType: byte, name: Text, others: seq<byte>)
    requires h.Valid() && HelloBytes(h) <= data
    requires k < |h.extensions| && h.extensions[k].extType == 0
    requires forall i :: 0 <= i < |h.extensions| && i != k ==> h.extensions[i].extType != 0
    requires name != [] && |name| + 3 + |others| < 0x1_0000 - 2
    requires h.extensions[k].data == ServerNameData(nameType, name, others)
    ensures Sni(data) == if |name| + 3 + |others| < 256 then Some(name) else None
  {
    if |name| + 3 + |others| < 256 {
      WholeArrived(data, h, k);
      SniFound(data, h, k, nameType, name, others);
    } else {
      FindsExtensions(data, h, ExtensionsBytes(h.extensions));
      WalkMisses(data, |HelloHead(h)|, h.extensions, k, nameType, name, others);
    }
  }

  lemma SniAbsent(data: seq<byte>, h: Hello)
    requires h.Valid() && HelloBytes(h) <= data
    requires forall i :: 0 <= i < |h.extensions| ==> h.extensions[i].extType != 0
    ensures Sni(data) == None
  {
    FindsExtensions(data, h, ExtensionsBytes(h.extensions));
    WalkNoName(data, |HelloHead(h)|, h.extensions);
  }

  /** On any bytes at all, a returned name is a slice of the input behind the extensions' length field. */
  lemma SniInside(data: seq<byte>)
    requires Sni(data).Some?
    ensures ExtensionsBlock(data).Some?
    ensures var b := ExtensionsBlock(data).value;
            exists i, j :: b.start + 9 <= i < j <= b.end && Sni(data).value == data[i..j]
  {
    var b := ExtensionsBlock(data).value;
    WalkInside(data, b.start, b.end);
  }
}
