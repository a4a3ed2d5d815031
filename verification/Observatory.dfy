/** observatory.go: status from the Xray log, read once as a whole and then line by line as it grows. */
module Observatory {
  import opened Bytes
  import opened Health
  import opened XrayConfig

  /** A log line: an observation about an outbound tag, or anything else. */
  datatype Line = OtherLine | Observed(tag: Text, alive: bool)

  /** The reports the lines amount to; tags that are not in the map are skipped. */
  function ReportsOf(tags: map<Text, Text>, lines: seq<Line>): seq<Report> {
    if lines == [] then []
    else
      var last := lines[|lines| - 1];
      ReportsOf(tags, lines[..|lines| - 1]) +
      if last.Observed? && last.tag in tags then [Report(tags[last.tag], last.alive)] else []
  }

  lemma {:induction false} ReportsAppend(tags: map<Text, Text>, a: seq<Line>, b: seq<Line>)
    ensures ReportsOf(tags, a + b) == ReportsOf(tags, a) + ReportsOf(tags, b)
    decreases |b|
  {
    if b == [] {
      assert a + b == a;
    } else {
      ReportsAppend(tags, a, b[..|b| - 1]);
      assert (a + b)[..|a + b| - 1] == a + b[..|b| - 1];
    }
  }

  /** An observation counts exactly if its tag is known, whether it is alive or dead; nothing else counts. */
  lemma OneLine(tags: map<Text, Text>, tag: Text, alive: bool)
    ensures ReportsOf(tags, [Observed(tag, alive)]) == if tag in tags then [Report(tags[tag], alive)] else []
    ensures ReportsOf(tags, [OtherLine]) == []
  {
    assert [Observed(tag, alive)][..0] == [] && [OtherLine][..0] == [];
  }

  class ObservatoryWatcher {
    const health: HealthChecker
    var tagToAddr: map<Text, Text>
    var offset: nat  // in lines, and always at the end of a line

    constructor (health: HealthChecker)
      ensures this.health == health && tagToAddr == map[] && offset == 0
    {
      this.health, tagToAddr, offset := health, map[], 0;
    }

    method LoadTags(file: File)
      modifies `tagToAddr
      ensures tagToAddr == if file.None? then old(tagToAddr) else TagMap(old(tagToAddr), file.value.outbounds)
    {
      if file.Some? {
        tagToAddr := LoadTagMap(tagToAddr, file.value.outbounds);
      }
    }

    /** scanLog: every observation in the log is stored. */
    method ScanLog(log: seq<Line>)
      modifies health
      ensures health.statuses == StoreFold(old(health.statuses), ReportsOf(tagToAddr, log))
      ensures health.pings == old(health.pings) && health.observatoryOK == old(health.observatoryOK)
    {
      for i := 0 to |log|
        invariant health.statuses == StoreFold(old(health.statuses), ReportsOf(tagToAddr, log[..i]))
        invariant health.pings == old(health.pings) && health.observatoryOK == old(health.observatoryOK)
      {
        LinesSnoc(old(health.statuses), tagToAddr, log, i);
        if log[i].Observed? && log[i].tag in tagToAddr {
          health.SetStatus(tagToAddr[log[i].tag], log[i].alive);
        }
      }
      assert log[..|log|] == log;
    }

    /**
      readNewLines: what was added to the log since the last call changes statuses and is notified only on
      edges. A log shorter than the offset has nothing new.
     */
    method ReadNewLines(log: seq<Line>) returns (notified: seq<Report>)
      modifies this`offset, health
      ensures Edges(health.statuses, notified) ==
              EdgeFold(old(health.statuses), ReportsOf(tagToAddr, Added(old(offset), log)))
      ensures offset == if old(offset) <= |log| then |log| else old(offset)
      ensures health.pings == old(health.pings) && health.observatoryOK == old(health.observatoryOK)
    {
      var lines := Added(offset, log);
      notified := [];
      for i := 0 to |lines|
        invariant offset == old(offset)
        invariant Edges(health.statuses, notified) == EdgeFold(old(health.statuses), ReportsOf(tagToAddr, lines[..i]))
        invariant health.pings == old(health.pings) && health.observatoryOK == old(health.observatoryOK)
      {
        LinesSnoc(old(health.statuses), tagToAddr, lines, i);
        if lines[i].Observed? && lines[i].tag in tagToAddr {
          var addr, alive := tagToAddr[lines[i].tag], lines[i].alive;
          var prevUp := addr in health.statuses && health.statuses[addr];
          if prevUp != alive {
            health.SetStatus(addr, alive);
            notified := notified + [Report(addr, alive)];
          }
        }
      }
      assert lines[..|lines|] == lines;
      if offset <= |log| {
        offset := |log|;
      }
    }

    /**
      Start, up to the first turn of the ticker: the whole log is scanned, and reading goes on from where the log
      ends by then, as `atStart` has it. A log that cannot be read counts as empty.
     */
    method Start(file: File, scanned: seq<Line>, atStart: seq<Line>)
      modifies this`tagToAddr, this`offset, health
      ensures tagToAddr == if file.None? then old(tagToAddr) else TagMap(old(tagToAddr), file.value.outbounds)
      ensures health.statuses == StoreFold(old(health.statuses), ReportsOf(tagToAddr, scanned))
      ensures health.observatoryOK && offset == |atStart| && health.pings == old(health.pings)
    {
      LoadTags(file);
      ScanLog(scanned);
      health.SetObservatoryOK(true);
      offset := |atStart|;
    }

    /** The turns of the ticker, each with the log as it is by then. */
    method Follow(logs: seq<seq<Line>>) returns (notified: seq<Report>)
      modifies this`offset, health
      ensures Edges(health.statuses, notified) ==
              EdgeFold(old(health.statuses), ReportsOf(tagToAddr, Arrived(old(offset), logs)))
      ensures offset == Mark(old(offset), logs)
      ensures health.pings == old(health.pings) && health.observatoryOK == old(health.observatoryOK)
      ensures forall addr :: Alternates(About(notified, addr), Up(old(health.statuses), addr))
    {
      notified := [];
      ghost var before := health.statuses;
      for i := 0 to |logs|
        invariant offset == Mark(old(offset), logs[..i])
        invariant Edges(health.statuses, notified) ==
                  EdgeFold(before, ReportsOf(tagToAddr, Arrived(old(offset), logs[..i])))
        invariant health.pings == old(health.pings) && health.observatoryOK == old(health.observatoryOK)
      {
        ArrivedSnoc(before, tagToAddr, old(offset), logs, i);
        var more := ReadNewLines(logs[i]);
        notified := notified + more;
      }
      assert logs[..|logs|] == logs;
      forall addr {
        NotificationsAlternate(before, ReportsOf(tagToAddr, Arrived(old(offset), logs)), addr);
      }
    }

    /** Scanning and then following leaves up what storing all lines that were read would, in order. */
    method Watch(file: File, scanned: seq<Line>, atStart: seq<Line>, logs: seq<seq<Line>>)
      returns (notified: seq<Report>)
      modifies this, health
      ensures tagToAddr == if file.None? then old(tagToAddr) else TagMap(old(tagToAddr), file.value.outbounds)
      ensures forall addr ::
                Up(health.statuses, addr) <==>
                Up(StoreFold(old(health.statuses), ReportsOf(tagToAddr, scanned + Arrived(|atStart|, logs))), addr)
    {
      Start(file, scanned, atStart);
      ghost var lines := Arrived(offset, logs);
      ghost var middle := health.statuses;
      notified := Follow(logs);
      forall addr {
        EdgeAgreesWithStore(middle, ReportsOf(tagToAddr, lines), addr);
      }
      ReportsAppend(tagToAddr, scanned, lines);
      StoreBatches(old(health.statuses), ReportsOf(tagToAddr, scanned), ReportsOf(tagToAddr, lines));
    }
  }

  /** One more line, for either way of updating. */
  lemma LinesSnoc(statuses: Statuses, tags: map<Text, Text>, lines: seq<Line>, i: nat)
    requires i < |lines|
    ensures var before, after := ReportsOf(tags, lines[..i]), ReportsOf(tags, lines[..i + 1]);
            if lines[i].Observed? && lines[i].tag in tags then
              var r := Report(tags[lines[i].tag], lines[i].alive);
              && EdgeFold(statuses, after) == EdgeStep(EdgeFold(statuses, before), r)
              && StoreFold(statuses, after) == StoreFold(statuses, before)[r.addr := r.up]
            else after == before
  {
    assert lines[..i + 1][..i] == lines[..i];
    if lines[i].Observed? && lines[i].tag in tags {
      FoldSnoc(statuses, ReportsOf(tags, lines[..i]), Report(tags[lines[i].tag], lines[i].alive));
    }
  }

  // ---------- a growing log ----------

  /** What a log holds beyond the offset. */
  function Added(offset: nat, log: seq<Line>): seq<Line> {
    if offset <= |log| then log[offset..] else []
  }

  /** Where reading has got to; a log that has become shorter does not set it back. */
  function Mark(offset: nat, logs: seq<seq<Line>>): nat {
    if logs == [] then offset
    else
      var mark, last := Mark(offset, logs[..|logs| - 1]), logs[|logs| - 1];
      if mark <= |last| then |last| else mark
  }

  /** All lines that are read, in order. */
  function Arrived(offset: nat, logs: seq<seq<Line>>): seq<Line> {
    if logs == [] then []
    else
      var front := logs[..|logs| - 1];
      Arrived(offset, front) + Added(Mark(offset, front), logs[|logs| - 1])
  }

  lemma ArrivedSnoc(statuses: Statuses, tags: map<Text, Text>, offset: nat, logs: seq<seq<Line>>, i: nat)
    requires i < |logs|
    ensures var mark := Mark(offset, logs[..i]);
            var one := EdgeFold(statuses, ReportsOf(tags, Arrived(offset, logs[..i])));
            var two := EdgeFold(one.statuses, ReportsOf(tags, Added(mark, logs[i])));
            && Mark(offset, logs[..i + 1]) == (if mark <= |logs[i]| then |logs[i]| else mark)
            && EdgeFold(statuses, ReportsOf(tags, Arrived(offset, logs[..i + 1]))) ==
               Edges(two.statuses, one.notified + two.notified)
  {
    assert logs[..i + 1][..i] == logs[..i];
    var before, more := Arrived(offset, logs[..i]), Added(Mark(offset, logs[..i]), logs[i]);
    ReportsAppend(tags, before, more);
    EdgeBatches(statuses, ReportsOf(tags, before), ReportsOf(tags, more));
  }

  /** A log that has become shorter than what was read has nothing new, until it is longer again. */
  lemma ShorterLog(offset: nat, logs: seq<seq<Line>>, log: seq<Line>)
    requires |log| < Mark(offset, logs)
    ensures Arrived(offset, logs + [log]) == Arrived(offset, logs) && Mark(offset, logs + [log]) == Mark(offset, logs)
  {
    assert (logs + [log])[..|logs|] == logs;
  }

  /** The log is only ever appended to, and held at least `offset` lines to begin with. */
  predicate Growing(offset: nat, logs: seq<seq<Line>>) {
    && (logs != [] ==> offset <= |logs[0]|)
    && forall i :: 0 < i < |logs| ==> logs[i - 1] <= logs[i]
  }

  /** Of a growing log every line after the offset is read once, however it grows. */
  lemma {:induction false} GrowingLog(offset: nat, logs: seq<seq<Line>>)
    requires logs != [] && Growing(offset, logs)
    ensures var last := logs[|logs| - 1];
            offset <= |last| && Mark(offset, logs) == |last| && Arrived(offset, logs) == last[offset..]
  {
    var front, last := logs[..|logs| - 1], logs[|logs| - 1];
    if front == [] {
      assert [] + last[offset..] == last[offset..];
    } else {
      GrowingLog(offset, front);
      var previous := front[|front| - 1];
      assert previous == logs[|logs| - 2] <= last;
      assert previous[offset..] + last[|previous|..] == last[offset..];
    }
  }

  /**
    Scanning at start-up and following a growing log afterwards leaves an address as up as one scan of the final
    log would, exactly when a later line reports on it or the lines written between scanning and measuring the log
    did not matter to it.
   */
  lemma WatchAgreesIff(statuses: Statuses, tags: map<Text, Text>, scanned: seq<Line>, atStart: seq<Line>,
                       logs: seq<seq<Line>>, addr: Text)
    requires scanned <= atStart && logs != [] && Growing(|atStart|, logs) && atStart <= logs[0]
    ensures var log := logs[|logs| - 1];
            var later := Arrived(|atStart|, logs);
            (Up(StoreFold(statuses, ReportsOf(tags, scanned + later)), addr) <==>
             Up(StoreFold(statuses, ReportsOf(tags, log)), addr)) <==>
            || Mentions(ReportsOf(tags, later), addr)
            || (Up(StoreFold(statuses, ReportsOf(tags, scanned)), addr) <==>
                Up(StoreFold(statuses, ReportsOf(tags, atStart)), addr))
  {
    var log, later := logs[|logs| - 1], Arrived(|atStart|, logs);
    GrowingLog(|atStart|, logs);
    GrownFrom(logs, atStart);
    TakeDrop(log, |atStart|);
    ReportsAppend(tags, scanned, later);
    ReportsAppend(tags, atStart, later);
    var one, all := ReportsOf(tags, scanned), ReportsOf(tags, atStart);
    StoreBatches(statuses, one, ReportsOf(tags, later));
    StoreBatches(statuses, all, ReportsOf(tags, later));
    StoreForgets(StoreFold(statuses, one), StoreFold(statuses, all), ReportsOf(tags, later), addr);
  }

  lemma {:induction false} GrownFrom(logs: seq<seq<Line>>, start: seq<Line>)
    requires logs != [] && start <= logs[0]
    requires forall i :: 0 < i < |logs| ==> logs[i - 1] <= logs[i]
    ensures start <= logs[|logs| - 1] && logs[|logs| - 1][..|start|] == start
  {
    if |logs| > 1 {
      GrownFrom(logs[..|logs| - 1], start);
      PrefixTransitive(start, logs[|logs| - 2], logs[|logs| - 1]);
    }
  }

  /** A line written between scanning and measuring is lost, and its address stays down. */
  lemma LineLost(tag: Text, addr: Text)
    ensures var tags, log := map[tag := addr], [Observed(tag, true)];
            && !Up(StoreFold(map[], ReportsOf(tags, [] + Arrived(|log|, [log]))), addr)
            && Up(StoreFold(map[], ReportsOf(tags, log)), addr)
  {
    var tags: map<Text, Text> := map[tag := addr];
    var log := [Observed(tag, true)];
    OneReport(tag, addr, true);
    GrowingLog(|log|, [log]);
    assert log[|log|..] == [] && [] + Arrived(|log|, [log]) == [];
  }

  lemma OneReport(tag: Text, addr: Text, alive: bool)
    ensures var reports := ReportsOf(map[tag := addr], [Observed(tag, alive)]);
            reports == [Report(addr, alive)] && StoreFold(map[], reports) == map[addr := alive]
  {
    assert [Observed(tag, alive)][..0] == [];
    assert [Report(addr, alive)][..0] == [];
  }

  /** The tables themselves may differ: a report that an unknown address is dead is stored only by the scan. */
  lemma TablesMayDiffer(tag: Text, addr: Text)
    ensures var reports := ReportsOf(map[tag := addr], [Observed(tag, false)]);
            addr !in EdgeFold(map[], reports).statuses && addr in StoreFold(map[], reports)
  {
    OneReport(tag, addr, false);
    assert [Report(addr, false)][..0] == [];
  }
}
