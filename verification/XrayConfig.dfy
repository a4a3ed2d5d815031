/**
  The Xray configuration file as balancer.go and observatory.go see it: outbounds, and the routing rules that
  are rewritten to force traffic to one outbound.
 */
module XrayConfig {
  import opened Bytes
  import opened Strings

  const PROXY: Text := [112, 114, 111, 120, 121, 45]  // "proxy-"

  /** A next hop of an outbound; `port` is the number the port field stands for, 0 when it stands for none. */
  datatype VNext = OtherVNext | VNext(address: Text, port: int)

  /** `tag` is "" when absent; `vnext` is None when the settings have no such list. */
  datatype Outbound = OtherOutbound | Outbound(tag: Text, vnext: Option<seq<VNext>>)

  /** `outboundTag` is "" when absent; `body` stands for the other fields. */
  datatype Rule = OtherRule(json: Text) | Rule(outboundTag: Text, hasBalancer: bool, body: Text)

  /** `rules` is None when the routing rules are null, absent or not a list. */
  datatype Config = Config(outbounds: seq<Outbound>, rules: Option<seq<Rule>>)

  // ---------- finding the outbound of an address ----------

  predicate IsProxy(o: Outbound) {
    o.Outbound? && HasPrefix(o.tag, PROXY)
  }

  predicate HopIs(v: VNext, addr: Text) {
    v.VNext? && Address(v.address, v.port) == addr
  }

  predicate Serves(o: Outbound, addr: Text) {
    IsProxy(o) && o.vnext.Some? && exists v :: v in o.vnext.value && HopIs(v, addr)
  }

  /** The tag of the first proxy outbound with a hop at the address, or "". */
  function FindOutboundTag(addr: Text, outbounds: seq<Outbound>): (tag: Text)
    ensures tag != [] ==> HasPrefix(tag, PROXY)
  {
    if outbounds == [] then []
    else if Serves(outbounds[0], addr) then outbounds[0].tag
    else FindOutboundTag(addr, outbounds[1..])
  }

  /** A tag is found exactly when an outbound serves the address, and then it is the tag of such an outbound. */
  lemma {:induction false} TagFoundIff(addr: Text, outbounds: seq<Outbound>)
    ensures var tag := FindOutboundTag(addr, outbounds);
            && (tag != [] <==> exists o :: o in outbounds && Serves(o, addr))
            && (tag != [] ==> exists o :: o in outbounds && Serves(o, addr) && o.tag == tag)
  {
    if outbounds != [] {
      TagFoundIff(addr, outbounds[1..]);
      assert outbounds == [outbounds[0]] + outbounds[1..];
      if Serves(outbounds[0], addr) {
        assert outbounds[0].tag != [];
      }
    }
  }

  lemma TagsSpelled()
    ensures Spells(PROXY, "proxy-") && Spells(FORCED_INBOUNDS, "vless-in,vless-ws-in")
  {
  }

  /** A proxy outbound with the host and port among its hops. */
  predicate HasHop(o: Outbound, host: Text, port: int) {
    o.Outbound? && PROXY <= o.tag && o.vnext.Some? && VNext(host, port) in o.vnext.value
  }

  lemma ServesIff(o: Outbound, host: Text, port: int)
    ensures Serves(o, Address(host, port)) <==> HasHop(o, host, port)
  {
    if Serves(o, Address(host, port)) {
      var v :| v in o.vnext.value && HopIs(v, Address(host, port));
      AddressInjective(v.address, v.port, host, port);
    }
    if HasHop(o, host, port) {
      assert HopIs(VNext(host, port), Address(host, port));
    }
  }

  /** The tag found for a host and port is that of the first proxy outbound that has both in one hop. */
  lemma {:induction false} FirstTag(host: Text, port: int, before: seq<Outbound>, o: Outbound, after: seq<Outbound>)
    requires HasHop(o, host, port)
    requires forall b :: b in before ==> !HasHop(b, host, port)
    ensures FindOutboundTag(Address(host, port), before + [o] + after) == o.tag
  {
    var outbounds := before + [o] + after;
    ServesIff(outbounds[0], host, port);
    if before != [] {
      assert outbounds[1..] == before[1..] + [o] + after;
      FirstTag(host, port, before[1..], o, after);
    }
  }

  /** Without such an outbound there is none. */
  lemma {:induction false} NoTag(host: Text, port: int, outbounds: seq<Outbound>)
    requires forall o :: o in outbounds ==> !HasHop(o, host, port)
    ensures FindOutboundTag(Address(host, port), outbounds) == []
  {
    if outbounds != [] {
      ServesIff(outbounds[0], host, port);
      NoTag(host, port, outbounds[1..]);
    }
  }

  method FindTag(addr: Text, outbounds: seq<Outbound>) returns (tag: Text)
    ensures tag == FindOutboundTag(addr, outbounds)
  {
    for i := 0 to |outbounds|
      invariant FindOutboundTag(addr, outbounds) == FindOutboundTag(addr, outbounds[i..])
    {
      var o := outbounds[i];
      assert outbounds[i..][0] == o && outbounds[i..][1..] == outbounds[i + 1..];
      if IsProxy(o) && o.vnext.Some? {
        var hops := o.vnext.value;
        for j := 0 to |hops|
          invariant forall k :: 0 <= k < j ==> !HopIs(hops[k], addr)
        {
          if HopIs(hops[j], addr) {
            assert Serves(o, addr);
            return o.tag;
          }
        }
      }
    }
    tag := [];
  }

  // ---------- the observatory's tag map ----------

  /** What one outbound contributes: only its first hop counts, and only with an address and a positive port. */
  function TagEntry(o: Outbound): Option<Text> {
    if IsProxy(o) && o.vnext.Some? && |o.vnext.value| > 0 && o.vnext.value[0].VNext? then
      var v := o.vnext.value[0];
      if v.address != [] && v.port > 0 then Some(Address(v.address, v.port)) else None
    else None
  }

  /** loadTagMap adds to the map it has; a later outbound with the same tag wins. */
  function TagMap(before: map<Text, Text>, outbounds: seq<Outbound>): map<Text, Text> {
    if outbounds == [] then before
    else
      var last := outbounds[|outbounds| - 1];
      var m := TagMap(before, outbounds[..|outbounds| - 1]);
      if TagEntry(last).Some? then m[last.tag := TagEntry(last).value] else m
  }

  method LoadTagMap(before: map<Text, Text>, outbounds: seq<Outbound>) returns (m: map<Text, Text>)
    ensures m == TagMap(before, outbounds)
  {
    m := before;
    for i := 0 to |outbounds|
      invariant m == TagMap(before, outbounds[..i])
    {
      assert outbounds[..i + 1][..i] == outbounds[..i];
      var o := outbounds[i];
      if IsProxy(o) && o.vnext.Some? && |o.vnext.value| > 0 && o.vnext.value[0].VNext? {
        var v := o.vnext.value[0];
        if v.address != [] && v.port > 0 {
          m := m[o.tag := Address(v.address, v.port)];
        }
      }
    }
    assert outbounds[..|outbounds|] == outbounds;
  }

  /** A proxy outbound whose first hop is a host and a positive port. */
  predicate StartsWith(o: Outbound, host: Text, port: int) {
    && o.Outbound? && PROXY <= o.tag
    && o.vnext.Some? && o.vnext.value != [] && o.vnext.value[0] == VNext(host, port)
    && host != [] && port > 0
  }

  predicate Contributes(o: Outbound, tag: Text) {
    o.Outbound? && o.tag == tag && o.vnext.Some? && o.vnext.value != [] && o.vnext.value[0].VNext?
    && StartsWith(o, o.vnext.value[0].address, o.vnext.value[0].port)
  }

  lemma EntryIff(o: Outbound, tag: Text)
    ensures Contributes(o, tag) <==> TagEntry(o).Some? && o.tag == tag
  {
  }

  /** The last outbound of a tag whose first hop has a host and a positive port decides. */
  lemma {:induction false} LastWatched(
      tags: map<Text, Text>, before: seq<Outbound>, o: Outbound, after: seq<Outbound>, host: Text, port: int)
    requires StartsWith(o, host, port)
    requires forall p :: p in after ==> !Contributes(p, o.tag)
    ensures var m := TagMap(tags, before + [o] + after);
            o.tag in m && m[o.tag] == Address(host, port)
    decreases |after|
  {
    var outbounds := before + [o] + after;
    if after == [] {
      assert outbounds[..|before|] == before;
    } else {
      var front, last := after[..|after| - 1], after[|after| - 1];
      LastSplit(after);
      assert outbounds[..|outbounds| - 1] == before + [o] + front;
      EntryIff(last, o.tag);
      LastWatched(tags, before, o, front, host, port);
    }
  }

  /** A tag to which no outbound contributes keeps what it had. */
  lemma {:induction false} Unwatched(tags: map<Text, Text>, outbounds: seq<Outbound>, tag: Text)
    requires forall o :: o in outbounds ==> !Contributes(o, tag)
    ensures var m := TagMap(tags, outbounds);
            (tag in m <==> tag in tags) && (tag in tags ==> m[tag] == tags[tag])
  {
    if outbounds != [] {
      LastSplit(outbounds);
      EntryIff(outbounds[|outbounds| - 1], tag);
      Unwatched(tags, outbounds[..|outbounds| - 1], tag);
    }
  }

  /** Every address the observatory can report on is one the router can be forced to. */
  lemma {:induction false} WatchedIsRoutable(outbounds: seq<Outbound>, tag: Text)
    requires tag in TagMap(map[], outbounds)
    ensures FindOutboundTag(TagMap(map[], outbounds)[tag], outbounds) != []
    ensures exists o :: o in outbounds && IsProxy(o) && o.tag == tag && Serves(o, TagMap(map[], outbounds)[tag])
  {
    var front, last := outbounds[..|outbounds| - 1], outbounds[|outbounds| - 1];
    var addr := TagMap(map[], outbounds)[tag];
    assert outbounds == front + [last];
    if TagEntry(last).Some? && last.tag == tag {
      assert HopIs(last.vnext.value[0], addr);
      assert last in outbounds && Serves(last, addr);
    } else {
      WatchedIsRoutable(front, tag);
    }
    TagFoundIff(addr, outbounds);
  }

  // ---------- rewriting the rules ----------

  predicate Keeps(r: Rule) {
    r.Rule? ==> !HasPrefix(r.outboundTag, PROXY) && !r.hasBalancer
  }

  function Kept(rules: seq<Rule>): seq<Rule> {
    if rules == [] then []
    else Kept(rules[..|rules| - 1]) + if Keeps(rules[|rules| - 1]) then [rules[|rules| - 1]] else []
  }

  /** The inbound tags of a forced rule: "vless-in" and "vless-ws-in". */
  const FORCED_INBOUNDS: Text :=
    [118, 108, 101, 115, 115, 45, 105, 110, 44, 118, 108, 101, 115, 115, 45, 119, 115, 45, 105, 110]

  function ForcedRule(tag: Text): Rule {
    Rule(tag, false, FORCED_INBOUNDS)
  }

  /** The rules in front of the kept ones: one forced rule if the address is set and has an outbound. */
  function Forced(addr: Text, outbounds: seq<Outbound>): seq<Rule> {
    if addr != [] && FindOutboundTag(addr, outbounds) != [] then [ForcedRule(FindOutboundTag(addr, outbounds))] else []
  }

  /** Go writes a nil slice as null, so an empty list of rules is no list at all when it is read again. */
  function AsJson(rules: seq<Rule>): Option<seq<Rule>> {
    if rules == [] then None else Some(rules)
  }

  /** What the rules should be for an address. */
  function Target(cfg: Config, addr: Text): seq<Rule>
    requires cfg.rules.Some?
  {
    Forced(addr, cfg.outbounds) + Kept(cfg.rules.value)
  }

  /** One rewrite of the configuration; without a rule list nothing is done. */
  function SyncRules(cfg: Config, addr: Text): Config {
    if cfg.rules.None? then cfg else cfg.(rules := AsJson(Target(cfg, addr)))
  }

  method KeepRules(rules: seq<Rule>) returns (newRules: seq<Rule>)
    ensures newRules == Kept(rules)
  {
    newRules := [];
    for i := 0 to |rules|
      invariant newRules == Kept(rules[..i])
    {
      assert rules[..i + 1][..i] == rules[..i];
      var r := rules[i];
      if r.OtherRule? {
        newRules := newRules + [r];
      } else if HasPrefix(r.outboundTag, PROXY) || r.hasBalancer {
      } else {
        newRules := newRules + [r];
      }
    }
    assert rules[..|rules|] == rules;
  }

  lemma {:induction false} KeptAppend(a: seq<Rule>, b: seq<Rule>)
    ensures Kept(a + b) == Kept(a) + Kept(b)
    decreases |b|
  {
    if b == [] {
      assert a + b == a;
    } else {
      KeptAppend(a, b[..|b| - 1]);
      assert (a + b)[..|a + b| - 1] == a + b[..|b| - 1];
    }
  }

  /** A rule that is no object, or has neither a proxy outbound nor a balancer, stays where it is; others go. */
  lemma KeptAround(a: seq<Rule>, r: Rule, b: seq<Rule>)
    ensures var stays := r.OtherRule? || (!(PROXY <= r.outboundTag) && !r.hasBalancer);
            Kept(a + [r] + b) == Kept(a) + (if stays then [r] else []) + Kept(b)
  {
    KeptAppend(a + [r], b);
    KeptAppend(a, [r]);
    assert [r][..0] == [];
  }

  /** So a rewrite puts at most one rule in front of those that stay, in their order. */
  lemma RuleStays(cfg: Config, addr: Text, a: seq<Rule>, r: Rule, b: seq<Rule>)
    requires cfg.rules == Some(a + [r] + b)
    requires r.OtherRule? || (!(PROXY <= r.outboundTag) && !r.hasBalancer)
    ensures var front := Forced(addr, cfg.outbounds);
            |front| <= 1 && SyncRules(cfg, addr) == cfg.(rules := Some(front + Kept(a) + [r] + Kept(b)))
  {
    var front := Forced(addr, cfg.outbounds);
    KeptAround(a, r, b);
    AppendAssoc(front, Kept(a) + [r], Kept(b));
    AppendAssoc(front, Kept(a), [r]);
  }

  lemma {:induction false} KeptKeeps(rules: seq<Rule>)
    ensures forall i :: 0 <= i < |Kept(rules)| ==> Keeps(Kept(rules)[i])
    ensures (forall i :: 0 <= i < |rules| ==> Keeps(rules[i])) ==> Kept(rules) == rules
  {
    if rules != [] {
      KeptKeeps(rules[..|rules| - 1]);
      assert rules == rules[..|rules| - 1] + [rules[|rules| - 1]];
    }
  }

  /** The forced rule never survives the next rewrite, the kept ones always do. */
  lemma KeptOfTarget(cfg: Config, addr: Text)
    requires cfg.rules.Some?
    ensures Kept(Target(cfg, addr)) == Kept(cfg.rules.value)
  {
    var forced, kept := Forced(addr, cfg.outbounds), Kept(cfg.rules.value);
    KeptAppend(forced, kept);
    KeptKeeps(cfg.rules.value);
    KeptKeeps(kept);
    assert Kept(forced) == [] by {
      if forced != [] {
        assert forced[..0] == [];
        assert !Keeps(forced[0]);
      }
    }
  }

  /** After a rewrite only the first rule can go to a proxy outbound, and none names a balancer. */
  lemma SyncedShape(cfg: Config, addr: Text, i: nat)
    requires cfg.rules.Some? && SyncRules(cfg, addr).rules.Some?
    requires i < |SyncRules(cfg, addr).rules.value|
    ensures var r := SyncRules(cfg, addr).rules.value[i];
            && (i > 0 ==> Keeps(r))
            && (r.Rule? ==> !r.hasBalancer)
            && (!Keeps(r) ==> i == 0 && addr != [] && ForcedTo(r, addr, cfg.outbounds))
  {
    KeptKeeps(cfg.rules.value);
    TagFoundIff(addr, cfg.outbounds);
  }

  /** The rule forces traffic to a proxy outbound with a hop at the address. */
  predicate ForcedTo(r: Rule, addr: Text, outbounds: seq<Outbound>) {
    exists o :: o in outbounds && Serves(o, addr) && r == Rule(o.tag, false, FORCED_INBOUNDS)
  }

  /** Whenever there is such an outbound, a rewrite puts a rule for one in front. */
  lemma TargetForces(cfg: Config, addr: Text)
    requires cfg.rules.Some? && addr != []
    requires exists o :: o in cfg.outbounds && Serves(o, addr)
    ensures Target(cfg, addr) != [] && ForcedTo(Target(cfg, addr)[0], addr, cfg.outbounds)
  {
    TagFoundIff(addr, cfg.outbounds);
  }

  /**
    Absorption: rewriting for a and then for b is rewriting for b, exactly unless no rule is kept, a has no
    outbound and b has one. Then the first rewrite leaves null, which the second does not touch.
   */
  lemma SyncAbsorbsIff(cfg: Config, a: Text, b: Text)
    requires cfg.rules.Some?
    ensures SyncRules(SyncRules(cfg, a), b) == SyncRules(cfg, b) <==>
            Kept(cfg.rules.value) != [] || Forced(a, cfg.outbounds) != [] || Forced(b, cfg.outbounds) == []
  {
    KeptOfTarget(cfg, a);
    var kept := Kept(cfg.rules.value);
    if kept != [] || Forced(a, cfg.outbounds) != [] {
      assert Target(cfg, a) != [];
    } else {
      assert Target(cfg, a) == [] && Target(cfg, b) == Forced(b, cfg.outbounds);
    }
  }

  /** Rewriting twice for the same address is rewriting once. */
  lemma SyncIdempotent(cfg: Config, a: Text)
    ensures SyncRules(SyncRules(cfg, a), a) == SyncRules(cfg, a)
  {
    if cfg.rules.Some? {
      SyncAbsorbsIff(cfg, a, a);
    }
  }

  // ---------- the file ----------

  /** The file on disk; None when it cannot be parsed. */
  type File = Option<Config>

  /** How one read-and-write of the file goes. A failed write may leave anything behind. */
  datatype Io = Works | ReadFails | WriteFails(left: File)

  function SyncFile(file: File, addr: Text, io: Io): File {
    if io.ReadFails? || file.None? || file.value.rules.None? then file
    else if io.WriteFails? then io.left
    else Some(SyncRules(file.value, addr))
  }

  /** A file without a list of rules, or without a configuration, is left alone. */
  lemma NothingToRewrite(file: File, addr: Text, io: Io)
    requires file.None? || file.value.rules.None?
    ensures SyncFile(file, addr, io) == file
  {
  }

  class XrayFile {
    var content: File

    /** The body of syncXrayLocked once the throttle has let it pass. */
    method Rewrite(addr: Text, io: Io)
      modifies this
      ensures content == SyncFile(old(content), addr, io)
    {
      if io.ReadFails? || content.None? || content.value.rules.None? {
        return;
      }
      var cfg := content.value;
      var newRules := KeepRules(cfg.rules.value);
      if addr != [] {
        var tag := FindTag(addr, cfg.outbounds);
        if tag != [] {
          newRules := [ForcedRule(tag)] + newRules;
        }
      }
      assert newRules == Target(cfg, addr);
      content := if io.WriteFails? then io.left else Some(cfg.(rules := AsJson(newRules)));
    }
  }
}
