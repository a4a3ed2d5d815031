/** balancer.go: the balancer object. Each method is one lock hold, and is one step of the model. */
module Balancer {
  import opened Bytes
  import opened Health
  import opened XrayConfig
  import opened BalancerModel
  import opened Observatory

  class LoadBalancer {
    const health: HealthChecker
    const disk: XrayFile
    const failback: bool
    var currentAddr: Text
    var manualMode: bool
    var manualAddr: Text
    var backends: seq<Backend>
    var lastSyncedAddr: Text
    var lastSyncTime: Option<int>
    var failoverCount: nat
    var failbackCount: nat

    constructor (health: HealthChecker, disk: XrayFile, failback: bool, backends: seq<Backend>)
      requires health.statuses == map[] && health.pings == map[] && !health.observatoryOK
      ensures this.health == health && this.disk == disk
      ensures Abs() == InitialState(backends, failback, disk.content)
      ensures !manualMode && currentAddr == lastSyncedAddr == [] && lastSyncTime.None? && this.backends == backends
    {
      this.health, this.disk, this.failback, this.backends := health, disk, failback, backends;
      currentAddr, manualMode, manualAddr := [], false, [];
      lastSyncedAddr, lastSyncTime, failoverCount, failbackCount := [], None, 0, 0;
    }

    /** The model's state. */
    ghost function Abs(): State
      reads this, health, disk
    {
      State(currentAddr, manualMode, manualAddr, backends, lastSyncedAddr, lastSyncTime, failback,
            failoverCount, failbackCount, health.statuses, health.pings, health.observatoryOK, disk.content)
    }

    method LoadBackends(loaded: seq<Backend>)
      modifies this
      ensures Abs() == Next(old(Abs()), Load(loaded)) && backends == loaded
    {
      backends := loaded;
    }

    method SyncXrayLocked(addr: Text, env: Env)
      modifies this, disk
      ensures Abs() == Sync(old(Abs()), addr, env)
      ensures lastSyncedAddr == addr
      ensures addr != old(lastSyncedAddr) || old(lastSyncTime).None? || env.now - old(lastSyncTime).value >= 30_000_000_000 ==>
                lastSyncTime == Some(env.now) && disk.content == SyncFile(old(disk.content), addr, env.io)
    {
      if addr == lastSyncedAddr && lastSyncTime.Some? && env.now - lastSyncTime.value < SYNC_WINDOW {
        return;
      }
      lastSyncedAddr := addr;
      lastSyncTime := Some(env.now);
      disk.Rewrite(addr, env.io);
    }

    method SelectInitial(env: Env) returns (ghost best: Text)
      modifies this, disk
      ensures Enabled(old(Abs()), BalancerModel.SelectInitial(best, env))
      ensures Abs() == Next(old(Abs()), BalancerModel.SelectInitial(best, env))
      ensures manualMode == old(manualMode) && manualAddr == old(manualAddr) && backends == old(backends)
      ensures if !NoneUp(Abs()) then IsBest(health.statuses, health.pings, Addrs(backends), currentAddr)
              else if backends != [] then currentAddr == backends[0].Addr()
              else currentAddr == old(currentAddr)
      ensures backends != [] ==> lastSyncedAddr == currentAddr
    {
      var b := health.BestUp(Addrs(backends));
      best := b;
      SelectInitialChooses(Abs(), best, env);
      if b != [] {
        currentAddr := b;
        SyncXrayLocked(b, env);
        return;
      }
      var addrs := Addrs(backends);
      if |addrs| > 0 {
        currentAddr := addrs[0];
        SyncXrayLocked(addrs[0], env);
      }
    }

    method SelectBestUnlocked() returns (ghost best: Text)
      modifies this
      ensures !old(manualMode) ==> IsBest(health.statuses, health.pings, Addrs(old(backends)), best)
      ensures Abs() == Better(old(Abs()), best)
    {
      best := [];
      if manualMode {
        return;
      }
      var b := health.BestUp(Addrs(backends));
      best := b;
      if b != [] && b != currentAddr {
        currentAddr := b;
      }
    }

    method SelectBest(env: Env) returns (ghost best: Text)
      modifies this, disk
      ensures Enabled(old(Abs()), BalancerModel.SelectBest(best, env))
      ensures Abs() == Next(old(Abs()), BalancerModel.SelectBest(best, env))
      ensures manualMode == old(manualMode) && manualAddr == old(manualAddr)
      ensures if manualMode || NoneUp(Abs()) then currentAddr == old(currentAddr)
              else IsBest(health.statuses, health.pings, Addrs(backends), currentAddr)
      ensures lastSyncedAddr == currentAddr
    {
      best := SelectBestUnlocked();
      SyncXrayLocked(currentAddr, env);
    }

    method SetManual(addr: Text, env: Env) returns (ghost best: Text)
      modifies this, disk
      ensures Enabled(old(Abs()), BalancerModel.SetManual(addr, best, env))
      ensures Abs() == Next(old(Abs()), BalancerModel.SetManual(addr, best, env))
      ensures addr == [] ==>
                && !manualMode && manualAddr == []
                && if NoneUp(Abs()) then currentAddr == old(currentAddr)
                   else IsBest(health.statuses, health.pings, Addrs(backends), currentAddr)
      ensures addr != [] ==> manualMode && manualAddr == currentAddr == addr
      ensures lastSyncedAddr == currentAddr
    {
      best := [];
      if addr == [] {
        manualMode := false;
        manualAddr := [];
        best := SelectBestUnlocked();
        SyncXrayLocked(currentAddr, env);
        return;
      }
      manualMode := true;
      manualAddr := addr;
      currentAddr := addr;
      SyncXrayLocked(addr, env);
    }

    method Failover(env: Env) returns (ghost best: Text)
      modifies this, disk
      ensures Enabled(old(Abs()), BalancerModel.Failover(best, env))
      ensures Abs() == Next(old(Abs()), BalancerModel.Failover(best, env))
      ensures manualMode == old(manualMode) && manualAddr == old(manualAddr)
      ensures if manualMode || NoneUp(Abs()) then Abs() == old(Abs())
              else IsBest(health.statuses, health.pings, Addrs(backends), currentAddr)
      ensures if currentAddr == old(currentAddr) then Abs() == old(Abs())
              else failoverCount == old(failoverCount) + 1 && lastSyncedAddr == currentAddr
    {
      best := [];
      if manualMode {
        return;
      }
      var b := health.BestUp(Addrs(backends));
      best := b;
      FailoverChooses(Abs(), best, env);
      FailoverCounts(Abs(), best, env);
      if b != [] && b != currentAddr {
        currentAddr := b;
        failoverCount := failoverCount + 1;
        SyncXrayLocked(b, env);
      }
    }

    /** `fetchOk` says how fetching each backend's subscription would go. */
    method TryFailback(fetchOk: seq<bool>, env: Env) returns (ghost target: Text)
      requires |fetchOk| == |backends|
      modifies this, disk
      ensures Enabled(old(Abs()), BalancerModel.TryFailback(target, env))
      ensures Abs() == Next(old(Abs()), BalancerModel.TryFailback(target, env))
      ensures var s := old(Abs());
              if target == [] then forall i :: 0 <= i < |fetchOk| ==> !FailbackAt(s, fetchOk, i)
              else
                exists i :: && 0 <= i < |fetchOk| && FailbackAt(s, fetchOk, i) && s.backends[i].Addr() == target
                            && forall k :: 0 <= k < i ==> !FailbackAt(s, fetchOk, k)
      ensures if target == [] then Abs() == old(Abs())
              else currentAddr == lastSyncedAddr == target && failbackCount == old(failbackCount) + 1
    {
      target := [];
      if !failback || manualMode {
        return;
      }
      for i := 0 to |backends|
        invariant Abs() == old(Abs())
        invariant forall k :: 0 <= k < i ==> !FailbackAt(old(Abs()), fetchOk, k)
      {
        var addr := backends[i].Addr();
        if backends[i].primary && addr != currentAddr && addr in health.statuses && health.statuses[addr] {
          if fetchOk[i] {
            assert FailbackAt(old(Abs()), fetchOk, i);
            target := addr;
            currentAddr := addr;
            failbackCount := failbackCount + 1;
            SyncXrayLocked(addr, env);
            return;
          }
        }
      }
    }

    /** The callback of the probes and of the log watcher, run without interruption. */
    method OnStatusChange(addr: Text, up: bool, env: Env) returns (acted: bool, ghost best: Text)
      modifies this, disk
      ensures acted <==> !old(manualMode) && !up && addr == old(currentAddr)
      ensures acted ==> Enabled(old(Abs()), BalancerModel.Failover(best, env))
      ensures Abs() == if acted then Next(old(Abs()), BalancerModel.Failover(best, env)) else old(Abs())
      ensures acted && !Up(old(health.statuses), addr) ==> Served(Abs())
    {
      acted, best := false, [];
      if manualMode {
        return;
      }
      if !up && addr == currentAddr {
        acted := true;
        best := Failover(env);
      }
    }

    // ---------- the steps of the probes and of the log watcher ----------

    /** A round of probes is a run of the model. */
    method Probe(probes: seq<Probe>) returns (notified: seq<Report>, ghost es: seq<Event>)
      modifies health
      ensures es == PingEvents(probes) + StatusEvents(notified)
      ensures Run(old(Abs()), es) && Abs() == Final(old(Abs()), es)
      ensures health.observatoryOK ==> notified == []
    {
      ghost var s := Abs();
      notified := health.ProbeRound(probes);
      NotifiedIsStored(s.statuses, Reports(probes));
      es := PingEvents(probes) + StatusEvents(notified);
      ProbeRun(s, probes, notified);
    }

    /** So is looking at the log; only what is notified has changed. */
    method ReadLog(watcher: ObservatoryWatcher, log: seq<Line>) returns (notified: seq<Report>, ghost es: seq<Event>)
      requires watcher.health == health
      modifies watcher, health
      ensures es == StatusEvents(notified)
      ensures Run(old(Abs()), es) && Abs() == Final(old(Abs()), es)
    {
      ghost var s := Abs();
      ghost var lines := Added(watcher.offset, log);
      ghost var reports := ReportsOf(watcher.tagToAddr, lines);
      notified := watcher.ReadNewLines(log);
      NotifiedIsStored(s.statuses, reports);
      es := StatusEvents(notified);
      StatusRun(s, notified);
    }

    /** And so is starting the watcher. */
    method StartWatcher(watcher: ObservatoryWatcher, file: File, scanned: seq<Line>, atStart: seq<Line>)
      returns (ghost es: seq<Event>)
      requires watcher.health == health
      modifies watcher, health
      ensures es == StatusEvents(ReportsOf(watcher.tagToAddr, scanned)) + [SetObservatoryOK(true)]
      ensures Run(old(Abs()), es) && Abs() == Final(old(Abs()), es)
    {
      ghost var s := Abs();
      watcher.Start(file, scanned, atStart);
      ghost var reports := ReportsOf(watcher.tagToAddr, scanned);
      es := StatusEvents(reports) + [SetObservatoryOK(true)];
      StatusRun(s, reports);
      RunAppend(s, StatusEvents(reports), [SetObservatoryOK(true)]);
      OneEvent(Final(s, StatusEvents(reports)), SetObservatoryOK(true));
    }

    /**
      One turn of the ticker, without another step in between: reload, check subscriptions, and in automatic mode
      choose the best server.
     */
    method Tick(loaded: seq<Backend>, fetchOk: seq<bool>, envs: seq<Env>, env: Env)
      returns (ghost es: seq<Event>, ghost best: Text)
      requires |fetchOk| == |envs| == |loaded|
      modifies this, disk, health
      ensures var s1 := Next(old(Abs()), Load(loaded));
              && SubPass(s1, loaded, fetchOk, es)
              && var s2 := Final(s1, es);
                 if s2.manual then Abs() == s2
                 else
                   && Enabled(s2, BalancerModel.SelectBest(best, env))
                   && Abs() == Next(s2, BalancerModel.SelectBest(best, env))
      ensures !manualMode && !NoneUp(Abs()) ==> IsBest(health.statuses, health.pings, Addrs(backends), currentAddr)
    {
      best := [];
      LoadBackends(loaded);
      es := CheckSubscriptions(fetchOk, envs);
      if !manualMode {
        ghost var s := Abs();
        best := SelectBest(env);
        SelectBestChooses(s, best, env);
      }
    }

    /**
      One pass of subscription checks without another step in between. `fetchOk` says how each fetch goes; the
      environment of each failover is arbitrary.
     */
    method CheckSubscriptions(fetchOk: seq<bool>, envs: seq<Env>) returns (ghost es: seq<Event>)
      requires |fetchOk| == |envs| == |backends|
      modifies this, disk, health
      ensures SubPass(old(Abs()), old(backends), fetchOk, es)
      ensures Abs() == Final(old(Abs()), es)
      ensures forall a ::
                Up(health.statuses, a) <==>
                && Up(old(health.statuses), a)
                && !exists i :: 0 <= i < |fetchOk| && old(backends)[i].subURL != [] && !fetchOk[i] && old(backends)[i].Addr() == a
      ensures manualMode == old(manualMode) && (manualMode ==> currentAddr == old(currentAddr))
      ensures var s := old(Abs());
              !s.manual ==>
                (Served(Abs()) <==>
                 Up(s.statuses, s.current) || FetchFails(s.backends, fetchOk, s.current) || AllUpFail(s, s.backends, fetchOk))
    {
      ghost var s := Abs();
      es := CheckAll(backends, fetchOk, envs);
      SubPassMarks(s, s.backends, fetchOk, es);
      forall a
        ensures FetchFails(s.backends, fetchOk, a) <==>
                exists i :: 0 <= i < |fetchOk| && s.backends[i].subURL != [] && !fetchOk[i] && s.backends[i].Addr() == a
      {
      }
      if !s.manual {
        CascadeIff(s, s.backends, fetchOk, es);
      }
    }

    /** The loop over the snapshot. */
    method CheckAll(bes: seq<Backend>, fetchOk: seq<bool>, envs: seq<Env>) returns (ghost es: seq<Event>)
      requires |fetchOk| == |envs| == |bes|
      modifies this, disk, health
      ensures SubPass(old(Abs()), bes, fetchOk, es)
      ensures Abs() == Final(old(Abs()), es)
    {
      es := [];
      ghost var s := Abs();
      for i := 0 to |bes|
        invariant SubPass(s, bes[..i], fetchOk[..i], es) && Abs() == Final(s, es)
      {
        ghost var more := CheckOne(bes[i], fetchOk[i], envs[i]);
        SubPassExtend(s, bes, fetchOk, i, es, more);
        es := es + more;
      }
      assert bes[..|bes|] == bes && fetchOk[..|bes|] == fetchOk;
    }

    /** The body of the loop: a backend whose subscription cannot be fetched is down, and is left if it is active. */
    method CheckOne(be: Backend, ok: bool, env: Env) returns (ghost es: seq<Event>)
      modifies this, disk, health
      ensures OneCheck(old(Abs()), be, ok, es) && Abs() == Final(old(Abs()), es)
    {
      es := [];
      if be.subURL == [] || ok {
        return;
      }
      ghost var before := Abs();
      health.SetStatus(be.Addr(), false);
      ghost var down := BalancerModel.SetStatus(be.Addr(), false);
      es := [down];
      FinalShort(before, down, down);
      if be.Addr() == currentAddr {
        ghost var best := Failover(env);
        es := [down, BalancerModel.Failover(best, env)];
        FinalShort(before, down, es[1]);
      }
    }
  }
}
