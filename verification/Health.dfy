/** health.go: the status and ping tables, and the choice of the best server. */
module Health {
  import opened Bytes

  type Statuses = map<Text, bool>
  type Pings = map<Text, int>

  predicate Up(statuses: Statuses, addr: Text) {
    addr in statuses && statuses[addr]
  }

  /** A ping of 0, or none at all, counts as 9999. */
  function EffectivePing(pings: Pings, addr: Text): int {
    var ping := if addr in pings then pings[addr] else 0;
    if ping == 0 then 9999 else ping
  }

  /** `best` is an address that is up with the least effective ping, or "" when none is up. */
  ghost predicate IsBest(statuses: Statuses, pings: Pings, addrs: seq<Text>, best: Text) {
    if exists a :: a in addrs && Up(statuses, a) then
      && best in addrs && Up(statuses, best)
      && forall a :: a in addrs && Up(statuses, a) ==> EffectivePing(pings, best) <= EffectivePing(pings, a)
    else best == []
  }

  /**
    In terms of the tables: a best address is loaded and up, and no loaded address that is up answers faster. One
    that was never measured counts as slow, as 9999 milliseconds.
   */
  lemma BestIsFastest(statuses: Statuses, pings: Pings, addrs: seq<Text>, best: Text, a: Text)
    requires IsBest(statuses, pings, addrs, best)
    requires a in addrs && a in statuses && statuses[a]
    ensures best in addrs && best in statuses && statuses[best]
    ensures Measured(pings, best) && Measured(pings, a) ==> pings[best] <= pings[a]
    ensures !Measured(pings, best) && Measured(pings, a) ==> pings[a] >= 9999
    ensures Measured(pings, best) && !Measured(pings, a) ==> pings[best] <= 9999
  {
    assert Up(statuses, a);
  }

  predicate Measured(pings: Pings, addr: Text) {
    addr in pings && pings[addr] != 0
  }

  /** Nothing is chosen exactly when no loaded address is up; addresses themselves are never empty. */
  lemma NoBestIff(statuses: Statuses, pings: Pings, addrs: seq<Text>, best: Text)
    requires IsBest(statuses, pings, addrs, best) && [] !in addrs
    ensures best == [] <==> forall a :: a in addrs && a in statuses ==> !statuses[a]
  {
    if a :| a in addrs && a in statuses && statuses[a] {
      BestIsFastest(statuses, pings, addrs, best, a);
    } else {
      assert !exists a :: a in addrs && Up(statuses, a);
    }
  }

  // ---------- edge-triggered updates ----------

  datatype Report = Report(addr: Text, up: bool)

  datatype Edges = Edges(statuses: Statuses, notified: seq<Report>)

  /** A report changes the table, and is notified, only when it changes whether the address is up. */
  function EdgeStep(e: Edges, r: Report): Edges {
    if Up(e.statuses, r.addr) == r.up then e
    else Edges(e.statuses[r.addr := r.up], e.notified + [r])
  }

  function EdgeFold(statuses: Statuses, reports: seq<Report>): Edges {
    if reports == [] then Edges(statuses, [])
    else EdgeStep(EdgeFold(statuses, reports[..|reports| - 1]), reports[|reports| - 1])
  }

  /** The table when every report is simply stored. */
  function StoreFold(statuses: Statuses, reports: seq<Report>): Statuses {
    if reports == [] then statuses
    else
      var last := reports[|reports| - 1];
      StoreFold(statuses, reports[..|reports| - 1])[last.addr := last.up]
  }

  lemma FoldSnoc(statuses: Statuses, reports: seq<Report>, last: Report)
    ensures EdgeFold(statuses, reports + [last]) == EdgeStep(EdgeFold(statuses, reports), last)
    ensures StoreFold(statuses, reports + [last]) == StoreFold(statuses, reports)[last.addr := last.up]
  {
    assert (reports + [last])[..|reports|] == reports;
  }

  /** Both ways of updating agree on which addresses are up, though the tables may differ. */
  lemma {:induction false} EdgeAgreesWithStore(statuses: Statuses, reports: seq<Report>, addr: Text)
    ensures Up(EdgeFold(statuses, reports).statuses, addr) == Up(StoreFold(statuses, reports), addr)
  {
    if reports != [] {
      EdgeAgreesWithStore(statuses, reports[..|reports| - 1], addr);
      EdgeAgreesWithStore(statuses, reports[..|reports| - 1], reports[|reports| - 1].addr);
    }
  }

  /** Reading reports in two batches is reading them in one. */
  lemma {:induction false} EdgeBatches(statuses: Statuses, first: seq<Report>, second: seq<Report>)
    ensures var one, two := EdgeFold(statuses, first), EdgeFold(EdgeFold(statuses, first).statuses, second);
            EdgeFold(statuses, first + second) == Edges(two.statuses, one.notified + two.notified)
    decreases |second|
  {
    if second == [] {
      assert first + second == first;
      assert EdgeFold(statuses, first).notified + [] == EdgeFold(statuses, first).notified;
    } else {
      EdgeBatches(statuses, first, second[..|second| - 1]);
      assert (first + second)[..|first + second| - 1] == first + second[..|second| - 1];
    }
  }

  lemma {:induction false} StoreBatches(statuses: Statuses, first: seq<Report>, second: seq<Report>)
    ensures StoreFold(statuses, first + second) == StoreFold(StoreFold(statuses, first), second)
    decreases |second|
  {
    if second == [] {
      assert first + second == first;
    } else {
      StoreBatches(statuses, first, second[..|second| - 1]);
      assert (first + second)[..|first + second| - 1] == first + second[..|second| - 1];
    }
  }

  /** The last report about an address is what is stored. */
  lemma {:induction false} LastStored(statuses: Statuses, before: seq<Report>, r: Report, after: seq<Report>)
    requires !Mentions(after, r.addr)
    ensures var t := StoreFold(statuses, before + [r] + after);
            r.addr in t && t[r.addr] == r.up
    decreases |after|
  {
    if after == [] {
      FoldSnoc(statuses, before, r);
      assert before + [r] + after == before + [r];
    } else {
      var front, last := after[..|after| - 1], after[|after| - 1];
      LastSplit(after);
      AppendAssoc(before + [r], front, [last]);
      LastStored(statuses, before, r, front);
      FoldSnoc(statuses, before + [r] + front, last);
    }
  }

  /** The notifications alone, stored one by one, give the new table. */
  lemma {:induction false} NotifiedIsStored(statuses: Statuses, reports: seq<Report>)
    ensures var e := EdgeFold(statuses, reports);
            e.statuses == StoreFold(statuses, e.notified)
  {
    if reports != [] {
      var before := EdgeFold(statuses, reports[..|reports| - 1]);
      NotifiedIsStored(statuses, reports[..|reports| - 1]);
      FoldSnoc(statuses, before.notified, reports[|reports| - 1]);
    }
  }

  predicate Mentions(reports: seq<Report>, addr: Text) {
    exists r :: r in reports && r.addr == addr
  }

  /** Reports about an address hide what was known about it before; without any, it stays as it was. */
  lemma {:induction false} StoreForgets(one: Statuses, two: Statuses, reports: seq<Report>, addr: Text)
    ensures if Mentions(reports, addr) then Up(StoreFold(one, reports), addr) == Up(StoreFold(two, reports), addr)
            else Up(StoreFold(one, reports), addr) == Up(one, addr) && Up(StoreFold(two, reports), addr) == Up(two, addr)
  {
    if reports != [] {
      StoreForgets(one, two, reports[..|reports| - 1], addr);
      LastSplit(reports);
    }
  }

  /** The notifications about one address. */
  function About(notified: seq<Report>, addr: Text): seq<bool> {
    if notified == [] then []
    else
      var last := notified[|notified| - 1];
      About(notified[..|notified| - 1], addr) + if last.addr == addr then [last.up] else []
  }

  ghost predicate Alternates(bs: seq<bool>, before: bool) {
    forall i :: 0 <= i < |bs| ==> bs[i] == if i % 2 == 0 then !before else before
  }

  /** Notifications about one address alternate, starting with the opposite of its status before. */
  lemma {:induction false} NotificationsAlternate(statuses: Statuses, reports: seq<Report>, addr: Text)
    ensures var e := EdgeFold(statuses, reports);
            && Alternates(About(e.notified, addr), Up(statuses, addr))
            && Up(e.statuses, addr) == (Up(statuses, addr) == (|About(e.notified, addr)| % 2 == 0))
  {
    if reports != [] {
      var before := EdgeFold(statuses, reports[..|reports| - 1]);
      var last := reports[|reports| - 1];
      NotificationsAlternate(statuses, reports[..|reports| - 1], addr);
      assert (before.notified + [last])[..|before.notified|] == before.notified;
    }
  }

  // ---------- HealthChecker ----------

  datatype Candidate = Candidate(addr: Text, ping: int)

  datatype Probe = Probe(addr: Text, up: bool, ping: int)

  class HealthChecker {
    var statuses: Statuses
    var pings: Pings
    var observatoryOK: bool

    constructor ()
      ensures statuses == map[] && pings == map[] && !observatoryOK
    {
      statuses, pings, observatoryOK := map[], map[], false;
    }

    method SetStatus(addr: Text, up: bool)
      modifies `statuses
      ensures statuses == old(statuses)[addr := up]
    {
      statuses := statuses[addr := up];
    }

    method SetPing(addr: Text, pingMs: int)
      modifies `pings
      ensures pings == old(pings)[addr := pingMs]
    {
      pings := pings[addr := pingMs];
    }

    method SetObservatoryOK(ok: bool)
      modifies `observatoryOK
      ensures observatoryOK == ok
    {
      observatoryOK := ok;
    }

    method BestUp(addrs: seq<Text>) returns (best: Text)
      ensures IsBest(statuses, pings, addrs, best)
    {
      var candidates: seq<Candidate> := [];
      for i := 0 to |addrs|
        invariant forall c :: c in candidates ==>
                    c.addr in addrs && Up(statuses, c.addr) && c.ping == EffectivePing(pings, c.addr)
        invariant forall k :: 0 <= k < i && Up(statuses, addrs[k]) ==>
                    Candidate(addrs[k], EffectivePing(pings, addrs[k])) in candidates
      {
        if addrs[i] in statuses && statuses[addrs[i]] {
          candidates := candidates + [Candidate(addrs[i], EffectivePing(pings, addrs[i]))];
        }
      }
      if |candidates| == 0 {
        return [];
      }
      // Sorting by ping puts some candidate with the least ping first.
      LeastExists(candidates);
      var first :| 0 <= first < |candidates| && IsLeast(candidates, first);
      best := candidates[first].addr;
      forall a | a in addrs && Up(statuses, a)
        ensures EffectivePing(pings, best) <= EffectivePing(pings, a)
      {
        var k :| 0 <= k < |addrs| && addrs[k] == a;
        assert Candidate(a, EffectivePing(pings, a)) in candidates;
      }
    }

    /** One round of TCP probes: pings are stored, statuses only while the observatory is off. */
    method ProbeRound(probes: seq<Probe>) returns (notified: seq<Report>)
      modifies this
      ensures observatoryOK == old(observatoryOK)
      ensures if observatoryOK then statuses == old(statuses) && notified == []
              else Edges(statuses, notified) == EdgeFold(old(statuses), Reports(probes))
      ensures pings == PingFold(old(pings), probes)
    {
      notified := [];
      for i := 0 to |probes|
        invariant observatoryOK == old(observatoryOK)
        invariant if observatoryOK then statuses == old(statuses) && notified == []
                  else Edges(statuses, notified) == EdgeFold(old(statuses), Reports(probes[..i]))
        invariant pings == PingFold(old(pings), probes[..i])
      {
        var p := probes[i];
        ReportsSnoc(probes, i);
        var prevUp := p.addr in statuses && statuses[p.addr];
        SetPing(p.addr, p.ping);
        if !observatoryOK && prevUp != p.up {
          SetStatus(p.addr, p.up);
          notified := notified + [Report(p.addr, p.up)];
        }
      }
      assert probes[..|probes|] == probes;
    }
  }

  predicate IsLeast(candidates: seq<Candidate>, i: nat)
    requires i < |candidates|
  {
    forall c :: c in candidates ==> candidates[i].ping <= c.ping
  }

  lemma {:induction false} LeastExists(candidates: seq<Candidate>)
    requires candidates != []
    ensures exists i :: 0 <= i < |candidates| && IsLeast(candidates, i)
  {
    var last := candidates[|candidates| - 1];
    if |candidates| == 1 {
      assert IsLeast(candidates, 0);
    } else {
      var front := candidates[..|candidates| - 1];
      LeastExists(front);
      var i :| 0 <= i < |front| && IsLeast(front, i);
      assert candidates == front + [last];
      if front[i].ping <= last.ping {
        assert IsLeast(candidates, i);
      } else {
        assert IsLeast(candidates, |candidates| - 1);
      }
    }
  }

  function Reports(probes: seq<Probe>): seq<Report> {
    seq(|probes|, i requires 0 <= i < |probes| => Report(probes[i].addr, probes[i].up))
  }

  function PingFold(pings: Pings, probes: seq<Probe>): Pings {
    if probes == [] then pings
    else
      var last := probes[|probes| - 1];
      PingFold(pings, probes[..|probes| - 1])[last.addr := last.ping]
  }

  predicate Probes(probes: seq<Probe>, addr: Text) {
    exists p :: p in probes && p.addr == addr
  }

  /** The last ping of an address is what is stored. */
  lemma {:induction false} PingStored(pings: Pings, before: seq<Probe>, p: Probe, after: seq<Probe>)
    requires !Probes(after, p.addr)
    ensures var t := PingFold(pings, before + [p] + after);
            p.addr in t && t[p.addr] == p.ping
    decreases |after|
  {
    if after == [] {
      assert (before + [p] + after)[..|before|] == before;
    } else {
      var front := after[..|after| - 1];
      LastSplit(after);
      PingStored(pings, before, p, front);
      assert (before + [p] + after)[..|before| + |after|] == before + [p] + front;
    }
  }

  /** Other addresses keep theirs. */
  lemma {:induction false} PingKept(pings: Pings, probes: seq<Probe>, addr: Text)
    requires !Probes(probes, addr)
    ensures var t := PingFold(pings, probes);
            (addr in t <==> addr in pings) && (addr in pings ==> t[addr] == pings[addr])
  {
    if probes != [] {
      LastSplit(probes);
      PingKept(pings, probes[..|probes| - 1], addr);
    }
  }

  lemma ReportsSnoc(probes: seq<Probe>, i: nat)
    requires i < |probes|
    ensures probes[..i + 1][..i] == probes[..i]
    ensures Reports(probes[..i + 1])[..i] == Reports(probes[..i])
    ensures Reports(probes[..i + 1])[i] == Report(probes[i].addr, probes[i].up)
  {
  }
}
