/** GenerateSubscription, and the body parser of FetchSubscriptionURL that reads its output. */
module Subscription {
  import opened Bytes
  import opened Strings
  import opened Urls
  import opened Links
  import Base64

  // ---------- which links are printed ----------

  /**
    A stored config: its raw link, and the link that is generated from its other fields. For a vmess raw link
    `generated` is the rewritten link, whose JSON is not modelled.
   */
  datatype SubConfig = SubConfig(rawLink: Text, generated: Text)

  function LinkOf(cfg: SubConfig, host: Text, port: int): Rewritten
    requires DOLLAR !in host
  {
    if cfg.rawLink == [] || HasPrefix(cfg.rawLink, VMESS) then Link(cfg.generated)
    else RewritePlain(cfg.rawLink, host, port)
  }

  /** All links in order, or None when one of them panics. */
  function LinksOf(configs: seq<SubConfig>, host: Text, port: int): Option<seq<Text>>
    requires DOLLAR !in host
  {
    if configs == [] then Some([])
    else
      var n := |configs| - 1;
      match LinksOf(configs[..n], host, port)
      case None => None
      case Some(links) =>
        match LinkOf(configs[n], host, port)
        case Panic => None
        case Link(l) => Some(links + [l])
  }

  /** The i-th link is that of the i-th config. */
  lemma {:induction false} LinksAt(configs: seq<SubConfig>, host: Text, port: int)
    requires DOLLAR !in host
    requires LinksOf(configs, host, port).Some?
    ensures var links := LinksOf(configs, host, port).value;
            && |links| == |configs|
            && forall i :: 0 <= i < |configs| ==> LinkOf(configs[i], host, port) == Link(links[i])
  {
    if configs != [] {
      LinksAt(configs[..|configs| - 1], host, port);
    }
  }

  /** A config without a raw link is printed as generated; a raw link of another kind, or without '@', as it is. */
  lemma LinkKept(cfg: SubConfig, host: Text, port: int)
    requires DOLLAR !in host
    ensures cfg.rawLink == [] ==> LinkOf(cfg, host, port) == Link(cfg.generated)
    ensures cfg.rawLink != [] && !(VMESS <= cfg.rawLink) &&
            (AT !in cfg.rawLink || !(VLESS <= cfg.rawLink || TROJAN <= cfg.rawLink || SS <= cfg.rawLink)) ==>
              LinkOf(cfg, host, port) == Link(cfg.rawLink)
  {
    if AT !in cfg.rawLink || !(VLESS <= cfg.rawLink || TROJAN <= cfg.rawLink || SS <= cfg.rawLink) {
      RewriteUntouched(cfg.rawLink, host, port);
    }
  }

  /** There is no list of links exactly when one of them panics. */
  lemma {:induction false} NoLinksIff(configs: seq<SubConfig>, host: Text, port: int)
    requires DOLLAR !in host
    ensures LinksOf(configs, host, port).None? <==> exists c :: c in configs && LinkOf(c, host, port).Panic?
  {
    if configs != [] {
      NoLinksIff(configs[..|configs| - 1], host, port);
      LastSplit(configs);
    }
  }

  /** The non-empty links, each at its first occurrence. */
  function Distinct(links: seq<Text>): seq<Text> {
    if links == [] then []
    else
      var d, last := Distinct(links[..|links| - 1]), links[|links| - 1];
      if last == [] || last in d then d else d + [last]
  }

  function FirstIndex(links: seq<Text>, link: Text): (i: nat)
    requires link in links
    ensures i < |links| && links[i] == link
    ensures forall k :: 0 <= k < i ==> links[k] != link
  {
    if links[0] == link then 0 else 1 + FirstIndex(links[1..], link)
  }

  lemma FirstIndexGrows(links: seq<Text>, last: Text, link: Text)
    requires link in links
    ensures FirstIndex(links + [last], link) == FirstIndex(links, link)
  {
    assert forall k :: 0 <= k < |links| ==> (links + [last])[k] == links[k];
  }

  lemma {:induction false} DistinctMembers(links: seq<Text>, link: Text)
    ensures link in Distinct(links) <==> link in links && link != []
  {
    if links != [] {
      var front, last := links[..|links| - 1], links[|links| - 1];
      DistinctMembers(front, link);
      assert links == front + [last];
    }
  }

  /** The links come in the order of their first occurrences; in particular none comes twice. */
  lemma {:induction false} DistinctOrder(links: seq<Text>, i: nat, j: nat)
    requires i < j < |Distinct(links)|
    ensures Distinct(links)[i] in links && Distinct(links)[j] in links
    ensures FirstIndex(links, Distinct(links)[i]) < FirstIndex(links, Distinct(links)[j])
  {
    var front, last := links[..|links| - 1], links[|links| - 1];
    var d, r := Distinct(front), Distinct(links);
    assert links == front + [last];
    DistinctMembers(front, r[i]);
    assert r[i] == d[i];
    FirstIndexGrows(front, last, r[i]);
    if j < |d| {
      DistinctOrder(front, i, j);
      FirstIndexGrows(front, last, r[j]);
    } else {
      DistinctMembers(front, last);
      assert r[j] == last && last !in front;
      assert forall k :: 0 <= k < |front| ==> links[k] == front[k];
    }
  }

  lemma LinksOfSnoc(configs: seq<SubConfig>, i: nat, host: Text, port: int)
    requires DOLLAR !in host && i < |configs|
    requires LinksOf(configs[..i], host, port).Some? && LinkOf(configs[i], host, port).Link?
    ensures LinksOf(configs[..i + 1], host, port) ==
            Some(LinksOf(configs[..i], host, port).value + [LinkOf(configs[i], host, port).link])
  {
    assert configs[..i + 1][..i] == configs[..i];
  }

  lemma DistinctSnoc(links: seq<Text>, last: Text)
    ensures var d := Distinct(links);
            Distinct(links + [last]) == if last == [] || last in d then d else d + [last]
  {
    assert (links + [last])[..|links|] == links;
  }

  /** GenerateSubscription, with base64 as StdEncoding; None stands for the panic. */
  method GenerateSubscription(configs: seq<SubConfig>, host: Text, port: int) returns (r: Option<Text>)
    requires DOLLAR !in host
    ensures match LinksOf(configs, host, port)
            case None => r == None
            case Some(links) => r == Some(Base64.Encode(JoinLines(Distinct(links)), true))
  {
    var links: seq<Text> := [];
    var seen: set<Text> := {};
    ghost var all: seq<Text> := [];
    for i := 0 to |configs|
      invariant LinksOf(configs[..i], host, port) == Some(all)
      invariant links == Distinct(all)
      invariant forall l :: l in seen <==> l in links
    {
      var link := LinkOf(configs[i], host, port);
      if link.Panic? {
        assert configs[i] in configs;
        NoLinksIff(configs, host, port);
        return None;
      }
      LinksOfSnoc(configs, i, host, port);
      DistinctSnoc(all, link.link);
      all := all + [link.link];
      if link.link != [] && link.link !in seen {
        seen := seen + {link.link};
        links := links + [link.link];
      }
    }
    assert configs[..|configs|] == configs;
    if |links| == 0 {
      return Some([]);
    }
    r := Some(Base64.Encode(JoinLines(links), true));
  }

  function Print(links: seq<Text>): Text {
    if links == [] then [] else Base64.Encode(JoinLines(links), true)
  }

  // ---------- reading a subscription body ----------

  datatype BodyError = EmptyResponse | NotBase64

  predicate IsLinkText(s: Text) {
    HasPrefix(s, VMESS) || HasPrefix(s, VLESS) || HasPrefix(s, TROJAN) || HasPrefix(s, SS)
  }

  /** A line without the white space around it, unless nothing is left. */
  function CleanLine(line: Text): seq<Text> {
    if TrimSpace(line) == [] then [] else [TrimSpace(line)]
  }

  function Clean(lines: seq<Text>): seq<Text> {
    if lines == [] then [] else Clean(lines[..|lines| - 1]) + CleanLine(lines[|lines| - 1])
  }

  function DecodeBody(content: Text): Option<Text> {
    if IsLinkText(content) then Some(content)
    else if Base64.Decode(content, true).Some? then Base64.Decode(content, true)
    else Base64.Decode(content, false)
  }

  function Parse(body: Text): Result<seq<Text>, BodyError> {
    var content := TrimSpace(body);
    if content == [] then Err(EmptyResponse)
    else
      match DecodeBody(content)
      case None => Err(NotBase64)
      case Some(decoded) => Ok(Clean(SplitLines(TrimSpace(decoded))))
  }

  /** The loop of the body parser. */
  method CleanLines(lines: seq<Text>) returns (configs: seq<Text>)
    ensures configs == Clean(lines)
  {
    configs := [];
    for i := 0 to |lines|
      invariant configs == Clean(lines[..i])
    {
      assert lines[..i + 1][..i] == lines[..i];
      var line := TrimSpace(lines[i]);
      if line != [] {
        configs := configs + [line];
      }
    }
    assert lines[..|lines|] == lines;
  }

  // ---------- printing and reading back ----------

  /** A link that survives: nothing to trim, and no line break inside. */
  predicate Plain(link: Text) {
    Trimmed(link) && OneLine(link)
  }

  lemma CleanStep(lines: seq<Text>)
    requires lines != []
    ensures var front, last := lines[..|lines| - 1], TrimSpace(lines[|lines| - 1]);
            && (last == [] ==> Clean(lines) == Clean(front))
            && (last != [] ==> Clean(lines) == Clean(front) + [last])
  {
  }

  lemma CleanSnoc(lines: seq<Text>, last: Text)
    ensures Clean(lines + [last]) == Clean(lines) + CleanLine(last)
  {
    assert (lines + [last])[..|lines|] == lines;
  }

  lemma CleanLineIsPlain(line: Text)
    requires OneLine(line)
    ensures |CleanLine(line)| <= 1
    ensures CleanLine(line) != [] ==> Plain(CleanLine(line)[0]) && CleanLine(line)[0] != []
  {
    TrimSpaceTrims(line);
    TrimSpaceOneLine(line);
  }

  lemma {:induction false} CleanIsPlain(lines: seq<Text>, i: nat)
    requires forall k :: 0 <= k < |lines| ==> OneLine(lines[k])
    requires i < |Clean(lines)|
    ensures Plain(Clean(lines)[i]) && Clean(lines)[i] != []
    decreases |lines|
  {
    var front, line := lines[..|lines| - 1], lines[|lines| - 1];
    CleanSnoc(front, line);
    LastSplit(lines);
    CleanLineIsPlain(line);
    if i < |Clean(front)| {
      CleanIsPlain(front, i);
    }
  }

  /** Whatever the body, every link that is read is non-empty, trimmed and on one line. */
  lemma ParseIsPlain(body: Text, i: nat)
    requires Parse(body).Ok? && i < |Parse(body).value|
    ensures Plain(Parse(body).value[i]) && Parse(body).value[i] != []
  {
    var text := TrimSpace(DecodeBody(TrimSpace(body)).value);
    SplitOneLine(text);
    CleanIsPlain(SplitLines(text), i);
  }

  predicate AllPlain(links: seq<Text>) {
    forall i :: 0 <= i < |links| ==> Plain(links[i]) && links[i] != []
  }

  lemma {:induction false} CleanKeeps(links: seq<Text>)
    requires AllPlain(links)
    ensures Clean(links) == links
  {
    if links != [] {
      var n := |links| - 1;
      CleanKeeps(links[..n]);
      TrimSpaceTrims(links[n]);
      CleanStep(links);
      LastSplit(links);
    }
  }

  lemma LeadOfJoin(first: Text, rest: Text)
    requires first != [] && LeadSpace(first) == 0
    ensures LeadSpace(first + [NEWLINE] + rest) == 0
  {
    var s := first + [NEWLINE] + rest;
    assert s[0] == first[0];
    assert s[1] == if |first| > 1 then first[1] else NEWLINE;
    assert |first| >= 1 ==> first[..1] == [s[0]] && s[..1] == [s[0]];
    assert |first| >= 2 ==> first[..2] == [s[0], s[1]];
    assert s[..2] == [s[0], s[1]];
    if |s| >= 3 {
      assert |first| >= 2 ==> s[2] == if |first| > 2 then first[2] else NEWLINE;
      assert |first| >= 3 ==> first[..3] == [s[0], s[1], s[2]];
      assert s[..3] == [s[0], s[1], s[2]];
    }
  }

  lemma TrailOfJoin(front: Text, last: Text)
    requires last != [] && TrailSpace(last) == 0
    ensures TrailSpace(front + [NEWLINE] + last) == 0
  {
    var s := front + [NEWLINE] + last;
    var n, m := |s|, |last|;
    assert s[n - 1] == last[m - 1];
    assert s[n - 2] == if m > 1 then last[m - 2] else NEWLINE;
    assert last[m - 1..] == [s[n - 1]] == s[n - 1..];
    assert m >= 2 ==> last[m - 2..] == [s[n - 2], s[n - 1]];
    assert s[n - 2..] == [s[n - 2], s[n - 1]];
    if n >= 3 {
      assert m >= 2 ==> s[n - 3] == if m > 2 then last[m - 3] else NEWLINE;
      assert m >= 3 ==> last[m - 3..] == [s[n - 3], s[n - 2], s[n - 1]];
      assert s[n - 3..] == [s[n - 3], s[n - 2], s[n - 1]];
    }
  }

  lemma {:induction false} JoinTrimmed(links: seq<Text>)
    requires links != []
    requires forall i :: 0 <= i < |links| ==> Trimmed(links[i]) && links[i] != []
    ensures Trimmed(JoinLines(links)) && JoinLines(links) != []
  {
    if |links| > 1 {
      JoinTrimmed(links[1..]);
      LeadOfJoin(links[0], JoinLines(links[1..]));
      TrailOfJoin(links[0], JoinLines(links[1..]));
    }
  }

  predicate Visible(c: byte) {
    32 < c < 128 && c != COLON
  }

  lemma VisibleNotSpace(b: Text)
    requires b != [] && Visible(b[0])
    ensures !IsSpaceRune(b)
  {
  }

  lemma VisibleTrimmed(e: Text)
    requires forall i :: 0 <= i < |e| ==> Visible(e[i])
    ensures Trimmed(e)
  {
    forall n | 1 <= n <= |e|
      ensures !IsSpaceRune(e[..n]) && !IsSpaceRune(e[|e| - n..])
    {
      VisibleNotSpace(e[..n]);
      assert Visible(e[|e| - n]);
      VisibleNotSpace(e[|e| - n..]);
    }
  }

  lemma VisibleNoPrefix(e: Text, prefix: Text, k: nat)
    requires forall i :: 0 <= i < |e| ==> Visible(e[i])
    requires k < |prefix| && prefix[k] == COLON
    ensures !HasPrefix(e, prefix)
  {
  }

  lemma VisibleNotLink(e: Text)
    requires forall i :: 0 <= i < |e| ==> Visible(e[i])
    ensures !IsLinkText(e)
  {
    VisibleNoPrefix(e, VMESS, 5);
    VisibleNoPrefix(e, VLESS, 5);
    VisibleNoPrefix(e, TROJAN, 6);
    VisibleNoPrefix(e, SS, 2);
  }

  lemma VisibleOpaque(e: Text)
    requires forall i :: 0 <= i < |e| ==> Visible(e[i])
    ensures TrimSpace(e) == e && !IsLinkText(e)
  {
    VisibleTrimmed(e);
    VisibleNotLink(e);
    TrimSpaceTrims(e);
  }

  lemma EncodedVisible(s: Text, padded: bool)
    requires s != []
    ensures Base64.Encode(s, padded) != []
    ensures forall i :: 0 <= i < |Base64.Encode(s, padded)| ==> Visible(Base64.Encode(s, padded)[i])
  {
    var e := Base64.Encode(s, padded);
    Base64.EncodedChars(s, padded);
    forall i | 0 <= i < |e|
      ensures Visible(e[i])
    {
      DigitVisible(e[i]);
    }
  }

  lemma DigitVisible(c: byte)
    requires Base64.InAlphabet(c) || c == Base64.PAD
    ensures Visible(c)
  {
  }

  /** Encoded text is not trimmed and is not mistaken for a link. */
  lemma EncodedIsOpaque(s: Text, padded: bool)
    requires s != []
    ensures TrimSpace(Base64.Encode(s, padded)) == Base64.Encode(s, padded)
    ensures Base64.Encode(s, padded) != [] && !IsLinkText(Base64.Encode(s, padded))
  {
    EncodedVisible(s, padded);
    VisibleOpaque(Base64.Encode(s, padded));
  }

  lemma ParsePrinted(links: seq<Text>)
    requires links != []
    requires JoinLines(links) != []
    ensures Parse(Print(links)) == Ok(Clean(SplitLines(TrimSpace(JoinLines(links)))))
  {
    EncodedIsOpaque(JoinLines(links), true);
    Base64.RoundTrip(JoinLines(links), true);
  }

  lemma JoinNonEmpty(links: seq<Text>)
    requires links != [] && links[0] != []
    ensures JoinLines(links) != []
  {
  }

  lemma JoinedReads(links: seq<Text>)
    requires links != [] && AllPlain(links)
    ensures JoinLines(links) != []
    ensures Clean(SplitLines(TrimSpace(JoinLines(links)))) == links
  {
    JoinTrimmed(links);
    TrimSpaceTrims(JoinLines(links));
    SplitJoin(links);
    CleanKeeps(links);
  }

  /** Reading a printed subscription returns the printed links exactly when each is trimmed and on one line. */
  lemma PrintParseIff(links: seq<Text>)
    requires links != []
    requires forall i :: 0 <= i < |links| ==> links[i] != []
    ensures Parse(Print(links)) == Ok(links) <==> forall i :: 0 <= i < |links| ==> Plain(links[i])
  {
    JoinNonEmpty(links);
    ParsePrinted(links);
    if forall i :: 0 <= i < |links| ==> Plain(links[i]) {
      JoinedReads(links);
    } else if Parse(Print(links)) == Ok(links) {
      forall i | 0 <= i < |links|
        ensures Plain(links[i])
      {
        ParseIsPlain(Print(links), i);
      }
    }
  }

  /** The output of GenerateSubscription, read back. */
  lemma GeneratedReadsBackIff(configs: seq<SubConfig>, host: Text, port: int)
    requires DOLLAR !in host
    requires LinksOf(configs, host, port).Some?
    requires Distinct(LinksOf(configs, host, port).value) != []
    ensures var links := Distinct(LinksOf(configs, host, port).value);
            Parse(Print(links)) == Ok(links) <==> forall i :: 0 <= i < |links| ==> Plain(links[i])
  {
    var all := LinksOf(configs, host, port).value;
    forall i | 0 <= i < |Distinct(all)|
      ensures Distinct(all)[i] != []
    {
      DistinctMembers(all, Distinct(all)[i]);
    }
    PrintParseIff(Distinct(all));
  }

  // ---------- bodies as servers send them ----------

  /** A link, or nothing, on a line of its own with white space around it. */
  datatype Line = Line(pre: Text, link: Text, post: Text) {
    ghost predicate Valid() {
      && White(pre) && OneLine(pre) && White(post) && OneLine(post)
      && (link == [] || Plain(link))
    }

    function Text(): Text {
      pre + link + post
    }
  }

  function LineTexts(lines: seq<Line>): (r: seq<Text>)
    ensures |r| == |lines| && forall i :: 0 <= i < |r| ==> r[i] == lines[i].Text()
  {
    if lines == [] then [] else [lines[0].Text()] + LineTexts(lines[1..])
  }

  function LinksIn(lines: seq<Line>): seq<Text> {
    if lines == [] then []
    else (if lines[0].link == [] then [] else [lines[0].link]) + LinksIn(lines[1..])
  }

  ghost predicate AllValid(lines: seq<Line>) {
    forall i :: 0 <= i < |lines| ==> lines[i].Valid()
  }

  /** What a body is about: a text that starts with a link, or base64, perhaps over several lines. */
  ghost predicate Gives(content: Text, text: Text) {
    || (content == text && (VMESS <= text || VLESS <= text || TROJAN <= text || SS <= text))
    || (text != [] && Trimmed(content) && exists padded :: Base64.WithoutBreaks(content) == Base64.Encode(text, padded))
  }

  /** The body gives the lines, with any white space around it. */
  ghost predicate Carries(body: Text, lines: seq<Line>) {
    exists pre: Text, content: Text, post: Text ::
      && White(pre) && White(post) && body == pre + content + post
      && Gives(content, JoinLines(LineTexts(lines)))
  }

  function Reads(text: Text): seq<Text> {
    Clean(SplitLines(text))
  }

  lemma {:induction false} CleanAppend(a: seq<Text>, b: seq<Text>)
    ensures Clean(a + b) == Clean(a) + Clean(b)
    decreases |b|
  {
    if b == [] {
      assert a + b == a;
    } else {
      var front, last := b[..|b| - 1], b[|b| - 1];
      LastSplit(b);
      AppendAssoc(a, front, [last]);
      CleanAppend(a, front);
      CleanSnoc(a + front, last);
      CleanSnoc(front, last);
      AppendAssoc(Clean(a), Clean(front), CleanLine(last));
    }
  }

  lemma CleanOne(line: Text)
    ensures Clean([line]) == CleanLine(line)
  {
    assert [line][..0] == [];
    assert [] + CleanLine(line) == CleanLine(line);
  }

  lemma CleanFirst(first: Text, more: seq<Text>)
    ensures Clean([first] + more) == CleanLine(first) + Clean(more)
  {
    CleanOne(first);
    CleanAppend([first], more);
  }

  lemma SplitRune(r: Text)
    requires IsSpaceRune(r)
    ensures SplitLines(r) == if r == [NEWLINE] then [[], []] else [r]
  {
    SpaceRuneBreak(r);
    if r != [NEWLINE] {
      SplitFirst(r, []);
    }
  }

  /** White space around a text, line breaks included, changes nothing about the links that are read. */
  lemma ReadsRune(r: Text, text: Text)
    requires IsSpaceRune(r)
    ensures Reads(r + text) == Reads(text) && Reads(text + r) == Reads(text)
  {
    ReadsRuneBefore(r, text);
    ReadsRuneBehind(text, r);
  }

  lemma NoLine()
    ensures CleanLine([]) == []
  {
  }

  lemma CleanRune(line: Text, r: Text)
    requires IsSpaceRune(r)
    ensures CleanLine(r + line) == CleanLine(line) == CleanLine(line + r)
  {
    TrimSpaceRune(line, r);
  }

  lemma ReadsRuneBefore(r: Text, text: Text)
    requires IsSpaceRune(r)
    ensures Reads(r + text) == Reads(text)
  {
    var m := SplitLines(text);
    SplitRune(r);
    SplitConcat(r, text);
    if r == [NEWLINE] {
      CleanBreakFirst(m);
    } else {
      CleanBlankFirst(r, m);
    }
  }

  lemma CleanBlankFirst(r: Text, m: seq<Text>)
    requires IsSpaceRune(r) && m != []
    ensures Clean(Glue([r], m)) == Clean(m)
  {
    GlueOne(r, m);
    FirstSplit(m);
    CleanRuneFirst(r, m[0], m[1..]);
  }

  lemma CleanBreakFirst(m: seq<Text>)
    requires m != []
    ensures Clean(Glue([[], []], m)) == Clean(m)
  {
    var none: Text := [];
    assert [none, none] == [none] + [none];
    GlueCons(none, [none], m);
    GlueEmpty(m);
    CleanFirst(none, m);
    NoLine();
  }

  lemma CleanRuneFirst(r: Text, line: Text, more: seq<Text>)
    requires IsSpaceRune(r)
    ensures Clean([r + line] + more) == Clean([line] + more)
  {
    CleanRune(line, r);
    CleanFirst(r + line, more);
    CleanFirst(line, more);
  }

  lemma GlueOne(line: Text, m: seq<Text>)
    requires m != []
    ensures Glue([line], m) == [line + m[0]] + m[1..]
    ensures Glue(m, [line]) == m[..|m| - 1] + [m[|m| - 1] + line]
  {
    assert [line][..0] == [] && [line][1..] == [];
  }

  lemma GlueBreak(m: seq<Text>)
    requires m != []
    ensures Glue(m, [[], []]) == m + [[]]
  {
    var none: Text := [];
    assert m[|m| - 1] + none == m[|m| - 1];
    LastSplit(m);
  }

  lemma ReadsRuneBehind(text: Text, r: Text)
    requires IsSpaceRune(r)
    ensures Reads(text + r) == Reads(text)
  {
    var m := SplitLines(text);
    SplitRune(r);
    SplitConcat(text, r);
    if r == [NEWLINE] {
      GlueBreak(m);
      CleanSnoc(m, []);
      NoLine();
    } else {
      GlueOne(r, m);
      CleanSnoc(m[..|m| - 1], m[|m| - 1] + r);
      CleanSnoc(m[..|m| - 1], m[|m| - 1]);
      CleanRune(m[|m| - 1], r);
      LastSplit(m);
    }
  }

  lemma {:induction false} ReadsRunes(pre: seq<Text>, text: Text, post: seq<Text>)
    requires AllSpace(pre) && AllSpace(post)
    ensures Reads(Concat(pre) + text + Concat(post)) == Reads(text)
    decreases |pre| + |post|
  {
    var t := Concat(pre) + text + Concat(post);
    if pre != [] {
      assert t == pre[0] + (Concat(pre[1..]) + text + Concat(post));
      ReadsRunes(pre[1..], text, post);
      ReadsRune(pre[0], Concat(pre[1..]) + text + Concat(post));
    } else if post != [] {
      var front, r := post[..|post| - 1], post[|post| - 1];
      LastSplit(post);
      ConcatSnoc(front, r);
      assert t == Concat(pre) + text + Concat(front) + r;
      ReadsRunes(pre, text, front);
      ReadsRune(r, Concat(pre) + text + Concat(front));
    } else {
      assert t == text;
    }
  }

  lemma ReadsTrimmed(text: Text)
    ensures Reads(TrimSpace(text)) == Reads(text)
  {
    var pre, post := TrimSpaceSplits(text);
    var a: seq<Text> :| AllSpace(a) && pre == Concat(a);
    var b: seq<Text> :| AllSpace(b) && post == Concat(b);
    ReadsRunes(a, TrimSpace(text), b);
  }

  lemma LineReads(line: Line)
    requires line.Valid()
    ensures CleanLine(line.Text()) == (if line.link == [] then [] else [line.link]) && OneLine(line.Text())
  {
    TrimSpaceWhite(line.pre, line.link, line.post);
    TrimSpaceTrims(line.link);
  }

  lemma {:induction false} CleanLineTexts(lines: seq<Line>)
    requires AllValid(lines)
    ensures Clean(LineTexts(lines)) == LinksIn(lines)
  {
    if lines != [] {
      CleanLineTexts(lines[1..]);
      LineReads(lines[0]);
      CleanFirst(lines[0].Text(), LineTexts(lines[1..]));
    }
  }

  lemma JoinedLinesRead(lines: seq<Line>)
    requires lines != [] && AllValid(lines)
    ensures Reads(TrimSpace(JoinLines(LineTexts(lines)))) == LinksIn(lines)
  {
    CleanLineTexts(lines);
    forall i | 0 <= i < |lines|
      ensures OneLine(LineTexts(lines)[i])
    {
      LineReads(lines[i]);
    }
    SplitJoin(LineTexts(lines));
    ReadsTrimmed(JoinLines(LineTexts(lines)));
  }

  lemma LinkTextTrims(text: Text)
    requires IsLinkText(text)
    ensures IsLinkText(TrimSpace(text)) && TrimSpace(TrimSpace(text)) == TrimSpace(text)
  {
    TrimSpaceTrims(text);
    TrimSpaceTrims(TrimSpace(text));
    if HasPrefix(text, VMESS) {
      TrimSpaceKeeps(text, VMESS);
    } else if HasPrefix(text, VLESS) {
      TrimSpaceKeeps(text, VLESS);
    } else if HasPrefix(text, TROJAN) {
      TrimSpaceKeeps(text, TROJAN);
    } else {
      TrimSpaceKeeps(text, SS);
    }
  }

  lemma DecodeEncoded(content: Text, text: Text, padded: bool)
    requires text != [] && Base64.WithoutBreaks(content) == Base64.Encode(text, padded)
    ensures content != [] && !IsLinkText(content) && DecodeBody(content) == Some(text)
  {
    EncodedVisible(text, padded);
    forall i | 0 <= i < |content|
      ensures content[i] != COLON
    {
      if content[i] == COLON {
        Base64.OnlyBreaksDropped(content, COLON);
      }
    }
    assert VMESS[5] == VLESS[5] == TROJAN[6] == SS[2] == COLON;
    Base64.Wrapped(content, text, padded, true);
    Base64.Wrapped(content, text, padded, false);
    Base64.RoundTrip(text, padded);
    Base64.Unpadded(text);
  }

  /** The links of a body are read whatever white space surrounds it and them, and whichever way it is encoded. */
  lemma CarriedReadsBack(body: Text, lines: seq<Line>)
    requires lines != [] && AllValid(lines) && Carries(body, lines)
    ensures Parse(body) == Ok(LinksIn(lines))
  {
    var text := JoinLines(LineTexts(lines));
    var pre: Text, content: Text, post: Text :|
      White(pre) && White(post) && body == pre + content + post && Gives(content, text);
    TrimSpaceWhite(pre, content, post);
    GivenReads(content, text);
    JoinedLinesRead(lines);
  }

  lemma GivenReads(content: Text, text: Text)
    requires Gives(content, text)
    ensures TrimSpace(content) != []
    ensures DecodeBody(TrimSpace(content)).Some?
    ensures Reads(TrimSpace(DecodeBody(TrimSpace(content)).value)) == Reads(TrimSpace(text))
  {
    if content == text && IsLinkText(text) {
      LinkTextTrims(text);
    } else {
      var padded :| Base64.WithoutBreaks(content) == Base64.Encode(text, padded);
      TrimSpaceTrims(content);
      DecodeEncoded(content, text, padded);
    }
  }

  /**
    Reading a subscription body. Whatever is read is non-empty, trimmed and on one line. Links are read back
    unchanged and in order from any body that carries them. Only a body of nothing but white space is empty.
   */
  method ParseBody(body: Text) returns (r: Result<seq<Text>, BodyError>)
    ensures r == Parse(body)
    ensures r.Ok? ==> AllPlain(r.value)
    ensures forall lines: seq<Line> :: lines != [] && AllValid(lines) && Carries(body, lines) ==> r == Ok(LinksIn(lines))
    ensures r == Err(EmptyResponse) <==> White(body)
  {
    var content := TrimSpace(body);
    TrimSpaceEmptyIff(body);
    forall lines: seq<Line> | lines != [] && AllValid(lines) && Carries(body, lines)
      ensures Parse(body) == Ok(LinksIn(lines))
    {
      CarriedReadsBack(body, lines);
    }
    if content == [] {
      return Err(EmptyResponse);
    }
    var decoded := DecodeBody(content);
    if decoded.None? {
      return Err(NotBase64);
    }
    var configs := CleanLines(SplitLines(TrimSpace(decoded.value)));
    forall i | 0 <= i < |configs|
      ensures Plain(configs[i]) && configs[i] != []
    {
      ParseIsPlain(body, i);
    }
    r := Ok(configs);
  }

  /** Two stored links that differ only in host and port are printed once, whatever else is stored. */
  lemma MergedEntry(configs: seq<SubConfig>, i: nat, j: nat, a: Shape, b: Shape, host: Text, port: nat)
    requires i < j < |configs|
    requires configs[i].rawLink == a.Text() && configs[j].rawLink == b.Text()
    requires a.Valid() && b.Valid() && HASH !in a.host && HASH !in b.host
    requires DOLLAR !in host
    requires (a.scheme, a.user, a.tail) == (b.scheme, b.user, b.tail)
    requires LinksOf(configs, host, port).Some?
    ensures var links := LinksOf(configs, host, port).value;
            var merged := a.(host := host, digits := Decimal(port)).Text();
            && |links| == |configs| && links[i] == links[j] == merged
            && OccursOnce(Distinct(links), merged)
  {
    RewriteMerges(a, b, host, port);
    RewriteShape(a, host, port);
    RawShape(a);
    RawShape(b);
    RawShape(a.(host := host, digits := Decimal(port)));
    LinksAt(configs, host, port);
    var links := LinksOf(configs, host, port).value;
    assert LinkOf(configs[i], host, port) == LinkOf(configs[j], host, port) == Link(links[i]);
    DistinctOnce(links, links[i]);
  }

  predicate OccursOnce(links: seq<Text>, link: Text) {
    link in links && forall k, m :: 0 <= k < m < |links| ==> links[k] != link || links[m] != link
  }

  lemma DistinctOnce(links: seq<Text>, link: Text)
    requires link in links && link != []
    ensures OccursOnce(Distinct(links), link)
  {
    DistinctMembers(links, link);
    forall k, m | 0 <= k < m < |Distinct(links)|
      ensures Distinct(links)[k] != Distinct(links)[m]
    {
      DistinctOrder(links, k, m);
    }
  }

  lemma RawShape(s: Shape)
    requires PlainScheme(s.scheme)
    ensures s.Text() != [] && !HasPrefix(s.Text(), VMESS)
  {
    assert s.Text()[0] == s.scheme[0] && s.Text()[1] == s.scheme[1];
  }
}
