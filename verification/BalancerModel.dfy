/**
  The balancer as a state machine. Each event is what one goroutine does while it holds one lock, so a run is
  any interleaving of the ticker, the probes, the log watcher, the administrator and the subscription checks.
  A goroutine that acts on a stale unlocked read of manualMode only adds an event at a moment of its choosing.
 */
module BalancerModel {
  import opened Bytes
  import opened Strings
  import opened Health
  import opened XrayConfig

  datatype Backend = Backend(host: Text, port: int, subURL: Text, primary: bool) {
    function Addr(): Text {
      Address(host, port)
    }
  }

  function Addrs(backends: seq<Backend>): (r: seq<Text>)
    ensures |r| == |backends| && forall i :: 0 <= i < |r| ==> r[i] == backends[i].Addr()
  {
    seq(|backends|, i requires 0 <= i < |backends| => backends[i].Addr())
  }

  /** Nanoseconds. */
  const SYNC_WINDOW := 30_000_000_000

  datatype State = State(
    current: Text,
    manual: bool,
    manualAddr: Text,
    backends: seq<Backend>,
    lastSynced: Text,
    lastSyncTime: Option<int>,  // None is the zero time, longer ago than anything
    failback: bool,             // from the configuration
    failovers: nat,
    failbacks: nat,
    statuses: Statuses,
    pings: Pings,
    observatoryOK: bool,
    file: File)

  /** The clock, and how access to the configuration file goes, during one lock hold. */
  datatype Env = Env(now: int, io: Io)

  /** `best` is what BestUp returned, where the step asked for it. */
  datatype Event =
    | Load(loaded: seq<Backend>)
    | SelectInitial(best: Text, env: Env)
    | SelectBest(best: Text, env: Env)
    | SetManual(addr: Text, best: Text, env: Env)
    | Failover(best: Text, env: Env)
    | TryFailback(target: Text, env: Env)
    | SetStatus(addr: Text, up: bool)
    | SetPing(addr: Text, ping: int)
    | SetObservatoryOK(ok: bool)

  function InitialState(backends: seq<Backend>, failback: bool, file: File): State {
    State([], false, [], backends, [], None, failback, 0, 0, map[], map[], false, file)
  }

  // ---------- steps ----------

  predicate Throttled(s: State, addr: Text, now: int) {
    addr == s.lastSynced && s.lastSyncTime.Some? && now - s.lastSyncTime.value < SYNC_WINDOW
  }

  /** syncXrayLocked */
  function Sync(s: State, addr: Text, env: Env): State {
    if Throttled(s, addr, env.now) then s
    else s.(lastSynced := addr, lastSyncTime := Some(env.now), file := SyncFile(s.file, addr, env.io))
  }

  /** selectBestUnlocked */
  function Better(s: State, best: Text): State {
    if s.manual || best == [] || best == s.current then s else s.(current := best)
  }

  /** The state a step leaves before it syncs, and whether it syncs; it always syncs to the current address. */
  datatype Decision = Decision(state: State, sync: bool)

  function Decide(s: State, e: Event): Decision {
    match e
    case Load(loaded) => Decision(s.(backends := loaded), false)
    case SelectInitial(best, _) =>
      if best != [] then Decision(s.(current := best), true)
      else if s.backends != [] then Decision(s.(current := s.backends[0].Addr()), true)
      else Decision(s, false)
    case SelectBest(best, _) => Decision(Better(s, best), true)
    case SetManual(addr, best, _) =>
      if addr == [] then Decision(Better(s.(manual := false, manualAddr := []), best), true)
      else Decision(s.(manual := true, manualAddr := addr, current := addr), true)
    case Failover(best, _) =>
      if s.manual || best == [] || best == s.current then Decision(s, false)
      else Decision(s.(current := best, failovers := s.failovers + 1), true)
    case TryFailback(target, _) =>
      if target == [] then Decision(s, false)
      else Decision(s.(current := target, failbacks := s.failbacks + 1), true)
    case SetStatus(addr, up) => Decision(s.(statuses := s.statuses[addr := up]), false)
    case SetPing(addr, ping) => Decision(s.(pings := s.pings[addr := ping]), false)
    case SetObservatoryOK(ok) => Decision(s.(observatoryOK := ok), false)
  }

  predicate HasEnv(e: Event) {
    e.SelectInitial? || e.SelectBest? || e.SetManual? || e.Failover? || e.TryFailback?
  }

  function Next(s: State, e: Event): State {
    var d := Decide(s, e);
    if d.sync then Sync(d.state, d.state.current, e.env) else d.state
  }

  /** A primary that may be returned to: it is up and not active, and automation is in charge. */
  ghost predicate FailbackTarget(s: State, target: Text) {
    && s.failback && !s.manual
    && target != s.current && Up(s.statuses, target)
    && exists b :: b in s.backends && b.primary && b.Addr() == target
  }

  /** Which choices the code can have made in this state. */
  ghost predicate Enabled(s: State, e: Event) {
    match e
    case SelectInitial(best, _) => IsBest(s.statuses, s.pings, Addrs(s.backends), best)
    case SelectBest(best, _) => !s.manual ==> IsBest(s.statuses, s.pings, Addrs(s.backends), best)
    case SetManual(addr, best, _) => addr == [] ==> IsBest(s.statuses, s.pings, Addrs(s.backends), best)
    case Failover(best, _) => !s.manual ==> IsBest(s.statuses, s.pings, Addrs(s.backends), best)
    case TryFailback(target, _) => target == [] || FailbackTarget(s, target)
    case _ => true
  }

  ghost predicate Run(s: State, es: seq<Event>)
    decreases |es|
  {
    es == [] || (Enabled(s, es[0]) && Run(Next(s, es[0]), es[1..]))
  }

  function Final(s: State, es: seq<Event>): State
    decreases |es|
  {
    if es == [] then s else Final(Next(s, es[0]), es[1..])
  }

  lemma {:induction false} RunAppend(s: State, a: seq<Event>, b: seq<Event>)
    ensures Run(s, a + b) <==> Run(s, a) && Run(Final(s, a), b)
    ensures Final(s, a + b) == Final(Final(s, a), b)
    decreases |a|
  {
    if a == [] {
      assert a + b == b;
    } else {
      assert (a + b)[1..] == a[1..] + b;
      RunAppend(Next(s, a[0]), a[1..], b);
    }
  }

  /** In automatic mode selectBest leaves a best server active, whatever was active, if any server is up. */
  lemma SelectBestChooses(s: State, best: Text, env: Env)
    requires Enabled(s, SelectBest(best, env)) && !s.manual
    ensures var t := Next(s, SelectBest(best, env));
            if NoneUp(s) then t.current == s.current
            else IsBest(t.statuses, t.pings, Addrs(t.backends), t.current)
  {
    if !NoneUp(s) {
      var a :| a in Addrs(s.backends) && Up(s.statuses, a);
    }
  }

  /** selectInitial, in either mode, takes a best server, or the first one loaded when none is up. */
  lemma SelectInitialChooses(s: State, best: Text, env: Env)
    requires Enabled(s, SelectInitial(best, env))
    ensures var t := Next(s, SelectInitial(best, env));
            && (t.manual, t.manualAddr, t.backends) == (s.manual, s.manualAddr, s.backends)
            && if !NoneUp(s) then IsBest(t.statuses, t.pings, Addrs(t.backends), t.current)
               else if s.backends != [] then t.current == s.backends[0].Addr()
               else t == s
  {
    if !NoneUp(s) {
      var a :| a in Addrs(s.backends) && Up(s.statuses, a);
    }
  }

  /** A failover in automatic mode leaves a best server active if any is up, and changes nothing otherwise. */
  lemma FailoverChooses(s: State, best: Text, env: Env)
    requires Enabled(s, Failover(best, env))
    ensures var t := Next(s, Failover(best, env));
            if s.manual || NoneUp(s) then t == s
            else IsBest(s.statuses, s.pings, Addrs(s.backends), t.current)
  {
    if !NoneUp(s) {
      var a :| a in Addrs(s.backends) && Up(s.statuses, a);
    }
  }

  /** It counts exactly if it moves. */
  lemma FailoverCounts(s: State, best: Text, env: Env)
    ensures var t := Next(s, Failover(best, env));
            && (t.manual, t.manualAddr, t.backends) == (s.manual, s.manualAddr, s.backends)
            && (t.statuses, t.pings) == (s.statuses, s.pings)
            && (if t.current == s.current then t == s else t.failovers == s.failovers + 1 && t.lastSynced == t.current)
  {
  }

  /** A sync is held back exactly for an address synced less than 30 seconds ago; otherwise the file is rewritten. */
  lemma SyncThrottle(s: State, addr: Text, env: Env)
    ensures Sync(s, addr, env) ==
            if addr == s.lastSynced && s.lastSyncTime.Some? && env.now - s.lastSyncTime.value < 30_000_000_000 then s
            else s.(lastSynced := addr, lastSyncTime := Some(env.now), file := SyncFile(s.file, addr, env.io))
  {
  }

  // ---------- routing agrees with the active address ----------

  /** Whenever no lock is held, the last address synced is the active one. */
  ghost predicate Agrees(s: State) {
    s.lastSynced == s.current
  }

  lemma AgreesStep(s: State, e: Event)
    requires Agrees(s)
    ensures Agrees(Next(s, e))
  {
    SyncFacts(s, e);
  }

  lemma {:induction false} AgreesAlways(s: State, es: seq<Event>)
    requires Agrees(s)
    ensures Agrees(Final(s, es))
    decreases |es|
  {
    if es != [] {
      AgreesStep(s, es[0]);
      AgreesAlways(Next(s, es[0]), es[1..]);
    }
  }

  /** The step syncs and the throttle lets it pass. */
  predicate Passes(s: State, e: Event) {
    var d := Decide(s, e);
    d.sync && !Throttled(d.state, d.state.current, e.env.now)
  }

  lemma DecideFacts(s: State, e: Event)
    ensures var d := Decide(s, e);
            && (d.state.lastSynced, d.state.lastSyncTime, d.state.file) == (s.lastSynced, s.lastSyncTime, s.file)
            && (d.sync ==> HasEnv(e))
            && (!d.sync ==> d.state.current == s.current)
  {
  }

  /** All that a step does to what was synced. */
  lemma SyncFacts(s: State, e: Event)
    requires Agrees(s)
    ensures var s' := Next(s, e);
            && Agrees(s')
            && s'.current == Decide(s, e).state.current
            && (if Passes(s, e) then
                  && HasEnv(e)
                  && s'.lastSyncTime == Some(e.env.now)
                  && s'.file == SyncFile(s.file, s'.current, e.env.io)
                  && (s'.current != s.current || s.lastSyncTime.None? || e.env.now - s.lastSyncTime.value >= SYNC_WINDOW)
                else
                  s'.current == s.current && s'.lastSyncTime == s.lastSyncTime && s'.file == s.file)
  {
    DecideFacts(s, e);
  }

  /** A change of the active address is never throttled. */
  lemma ChangePasses(s: State, e: Event)
    requires Agrees(s)
    requires Next(s, e).current != s.current
    ensures Passes(s, e) && Next(s, e).lastSyncTime == Some(e.env.now)
  {
    SyncFacts(s, e);
  }

  // ---------- the rules on disk ----------

  /** The file still holds the outbounds and the kept rules it had at the start, of which there are some. */
  ghost predicate KeepsOriginal(file: File, cfg: Config)
    requires cfg.rules.Some?
  {
    && file.Some? && file.value.rules.Some?
    && file.value.outbounds == cfg.outbounds
    && Kept(file.value.rules.value) == Kept(cfg.rules.value) != []
  }

  ghost predicate NoFailedWrite(es: seq<Event>) {
    forall i :: 0 <= i < |es| ==> (HasEnv(es[i]) ==> !es[i].env.io.WriteFails?)
  }

  /** Whether the last sync that passed the throttle could read and write the file; `before` if none passed. */
  function LastSyncWorked(s: State, es: seq<Event>, before: bool): bool
    decreases |es|
  {
    if es == [] then before
    else LastSyncWorked(Next(s, es[0]), es[1..], if Passes(s, es[0]) then es[0].env.io.Works? else before)
  }

  ghost predicate DiskRight(s: State, cfg: Config)
    requires cfg.rules.Some?
  {
    KeepsOriginal(s.file, cfg) && s.file.value.rules.value == Target(cfg, s.current)
  }

  /** If an outbound serves the active address, the file's first rule forces traffic to such an outbound. */
  ghost predicate Routed(s: State, cfg: Config)
    requires cfg.rules.Some?
  {
    s.current != [] && (exists o :: o in cfg.outbounds && Serves(o, s.current)) ==>
      && s.file.Some? && s.file.value.rules.Some? && s.file.value.rules.value != []
      && ForcedTo(s.file.value.rules.value[0], s.current, cfg.outbounds)
  }

  lemma DiskStep(s: State, e: Event, cfg: Config, worked: bool)
    requires cfg.rules.Some? && Agrees(s)
    requires HasEnv(e) ==> !e.env.io.WriteFails?
    requires KeepsOriginal(s.file, cfg) && (worked ==> DiskRight(s, cfg))
    ensures KeepsOriginal(Next(s, e).file, cfg)
    ensures (if Passes(s, e) then e.env.io.Works? else worked) ==> DiskRight(Next(s, e), cfg)
  {
    SyncFacts(s, e);
    SyncFileKeeps(s.file, Next(s, e).current, cfg);
  }

  lemma SyncFileKeeps(file: File, addr: Text, cfg: Config)
    requires cfg.rules.Some? && KeepsOriginal(file, cfg)
    ensures var f := SyncFile(file, addr, Works);
            KeepsOriginal(f, cfg) && f.value.rules.value == Target(cfg, addr)
  {
    KeptOfTarget(file.value, addr);
    assert Target(file.value, addr) == Target(cfg, addr) != [];
  }

  /**
    At every point of every run in which no write fails half way, if some rule of the original file is kept
    and the last sync that passed the throttle worked, the rules on disk are the forced rule of the active
    address followed by the original kept rules in order.
   */
  lemma {:induction false} DiskAgreesAlways(s: State, es: seq<Event>, cfg: Config, worked: bool)
    requires cfg.rules.Some? && Agrees(s)
    requires Run(s, es) && NoFailedWrite(es)
    requires KeepsOriginal(s.file, cfg) && (worked ==> DiskRight(s, cfg))
    ensures KeepsOriginal(Final(s, es).file, cfg)
    ensures LastSyncWorked(s, es, worked) ==> DiskRight(Final(s, es), cfg)
    decreases |es|
  {
    if es != [] {
      var e := es[0];
      AgreesStep(s, e);
      DiskStep(s, e, cfg, worked);
      forall i | 0 <= i < |es| - 1
        ensures HasEnv(es[1..][i]) ==> !es[1..][i].env.io.WriteFails?
      {
        assert es[1..][i] == es[i + 1];
      }
      DiskAgreesAlways(Next(s, e), es[1..], cfg, if Passes(s, e) then e.env.io.Works? else worked);
    }
  }

  /** The same from the start of the program: routing state and file agree with the active address. */
  lemma RoutingFromStart(backends: seq<Backend>, failback: bool, cfg: Config, es: seq<Event>)
    requires cfg.rules.Some? && Kept(cfg.rules.value) != []
    requires Run(InitialState(backends, failback, Some(cfg)), es) && NoFailedWrite(es)
    ensures var s := InitialState(backends, failback, Some(cfg));
            && Agrees(Final(s, es))
            && (LastSyncWorked(s, es, false) ==> DiskRight(Final(s, es), cfg) && Routed(Final(s, es), cfg))
  {
    var s := InitialState(backends, failback, Some(cfg));
    AgreesAlways(s, es);
    DiskAgreesAlways(s, es, cfg, false);
    var active := Final(s, es).current;
    if active != [] && exists o :: o in cfg.outbounds && Serves(o, active) {
      TargetForces(cfg, active);
    }
  }

  ghost predicate FileWorks(es: seq<Event>) {
    forall i :: 0 <= i < |es| ==> (HasEnv(es[i]) ==> es[i].env.io.Works?)
  }

  /** While the file can be read and written, a move of the active address is a sync that worked. */
  lemma {:induction false} MovesAreWritten(s: State, es: seq<Event>, before: bool)
    requires Agrees(s) && FileWorks(es)
    requires before || Final(s, es).current != s.current
    ensures LastSyncWorked(s, es, before)
    decreases |es|
  {
    if es != [] {
      SyncFacts(s, es[0]);
      assert forall i :: 0 <= i < |es| - 1 ==> es[1..][i] == es[i + 1];
      MovesAreWritten(Next(s, es[0]), es[1..], if Passes(s, es[0]) then es[0].env.io.Works? else before);
    }
  }

  /**
    In every run from the start during which the file can be read and written, the file routes to the active
    address whenever there is one.
   */
  lemma RoutingWhileFileWorks(backends: seq<Backend>, failback: bool, cfg: Config, es: seq<Event>)
    requires cfg.rules.Some? && Kept(cfg.rules.value) != []
    requires Run(InitialState(backends, failback, Some(cfg)), es) && FileWorks(es)
    ensures var t := Final(InitialState(backends, failback, Some(cfg)), es);
            t.current != [] ==> DiskRight(t, cfg) && Routed(t, cfg)
  {
    var s := InitialState(backends, failback, Some(cfg));
    RoutingFromStart(backends, failback, cfg, es);
    if Final(s, es).current != [] {
      MovesAreWritten(s, es, false);
    }
  }

  // ---------- how often syncs pass ----------

  function PassCount(s: State, es: seq<Event>): nat
    decreases |es|
  {
    if es == [] then 0 else (if Passes(s, es[0]) then 1 else 0) + PassCount(Next(s, es[0]), es[1..])
  }

  function ChangeCount(s: State, es: seq<Event>): nat
    decreases |es|
  {
    if es == [] then 0
    else (if Next(s, es[0]).current != s.current then 1 else 0) + ChangeCount(Next(s, es[0]), es[1..])
  }

  /** The clock readings of a run lie between from and to and do not go back. */
  ghost predicate Clocked(es: seq<Event>, from: int, to: int) {
    from <= to &&
    (es == [] ||
     if HasEnv(es[0]) then from <= es[0].env.now && Clocked(es[1..], es[0].env.now, to)
     else Clocked(es[1..], from, to))
  }

  /** Counting from a sync: syncs that pass without a change are a window apart. */
  lemma {:induction false} PassesAfterSync(s: State, es: seq<Event>, from: int, to: int)
    requires Agrees(s) && Clocked(es, from, to)
    requires s.lastSyncTime.Some? && s.lastSyncTime.value <= from
    ensures SYNC_WINDOW * (PassCount(s, es) - ChangeCount(s, es)) <= to - s.lastSyncTime.value
    decreases |es|
  {
    if es != [] {
      var e, s' := es[0], Next(s, es[0]);
      SyncFacts(s, e);
      if Passes(s, e) {
        PassesAfterSync(s', es[1..], e.env.now, to);
      } else {
        PassesAfterSync(s', es[1..], if HasEnv(e) then e.env.now else from, to);
      }
    }
  }

  /**
    Rate bound: in any stretch of a run lasting to - from, the syncs that pass the throttle number at most one,
    plus one for each full window, plus the changes of the active address.
   */
  lemma {:induction false} SyncRateBound(s: State, es: seq<Event>, from: int, to: int)
    requires Agrees(s) && Clocked(es, from, to)
    ensures PassCount(s, es) <= 1 + (to - from) / 30_000_000_000 + ChangeCount(s, es)
    decreases |es|
  {
    if es != [] {
      var e, s' := es[0], Next(s, es[0]);
      SyncFacts(s, e);
      if Passes(s, e) {
        PassesAfterSync(s', es[1..], e.env.now, to);
      } else {
        var later := if HasEnv(e) then e.env.now else from;
        SyncRateBound(s', es[1..], later, to);
        assert (to - later) / SYNC_WINDOW <= (to - from) / SYNC_WINDOW;
      }
    }
  }

  // ---------- the manual pin ----------

  ghost predicate Pinned(s: State) {
    s.manual ==> s.current == s.manualAddr
  }

  /** One step keeps the pin exactly unless it is selectInitial moving the active address off it. */
  lemma PinStepIff(s: State, e: Event)
    requires Pinned(s) && Enabled(s, e)
    ensures Pinned(Next(s, e)) <==>
            !(e.SelectInitial? && s.manual &&
              (if e.best != [] then e.best != s.manualAddr
               else s.backends != [] && s.backends[0].Addr() != s.manualAddr))
  {
  }

  ghost predicate NoInitial(es: seq<Event>) {
    forall i :: 0 <= i < |es| ==> !es[i].SelectInitial?
  }

  /** selectInitial comes before any SetManual. */
  ghost predicate InitialFirst(es: seq<Event>) {
    forall i, j :: 0 <= i < j < |es| && es[i].SetManual? ==> !es[j].SelectInitial?
  }

  lemma InitialFirstTail(es: seq<Event>)
    requires es != [] && InitialFirst(es)
    ensures InitialFirst(es[1..])
    ensures es[0].SetManual? ==> NoInitial(es[1..])
  {
    assert forall i :: 0 <= i < |es| - 1 ==> es[1..][i] == es[i + 1];
  }

  lemma NoInitialTail(es: seq<Event>)
    requires es != [] && NoInitial(es)
    ensures NoInitial(es[1..])
  {
    assert forall i :: 0 <= i < |es| - 1 ==> es[1..][i] == es[i + 1];
  }

  /** In every run in which selectInitial precedes any SetManual, manual mode means the pinned address is active. */
  lemma {:induction false} PinSurvives(s: State, es: seq<Event>)
    requires Run(s, es) && Pinned(s)
    requires NoInitial(es) || (!s.manual && InitialFirst(es))
    ensures Pinned(Final(s, es))
    decreases |es|
  {
    if es != [] {
      PinStepIff(s, es[0]);
      if NoInitial(es) {
        NoInitialTail(es);
      } else {
        InitialFirstTail(es);
      }
      PinSurvives(Next(s, es[0]), es[1..]);
    }
  }

  lemma PinHoldsStep(s: State, e: Event)
    requires Enabled(s, e) && s.manual && !e.SetManual? && !e.SelectInitial?
    ensures var t := Next(s, e);
            t.manual && t.current == s.current && t.manualAddr == s.manualAddr && t.failovers == s.failovers
  {
  }

  /** From a manual state nothing but SetManual and selectInitial moves the active address, or ends manual mode. */
  lemma {:induction false} PinHoldsStill(s: State, es: seq<Event>)
    requires Run(s, es) && s.manual
    requires forall i :: 0 <= i < |es| ==> !es[i].SetManual? && !es[i].SelectInitial?
    ensures var t := Final(s, es);
            t.manual && t.current == s.current && t.manualAddr == s.manualAddr && t.failovers == s.failovers
    decreases |es|
  {
    if es != [] {
      assert forall i :: 0 <= i < |es| - 1 ==> es[1..][i] == es[i + 1];
      PinHoldsStep(s, es[0]);
      PinHoldsStill(Next(s, es[0]), es[1..]);
    }
  }

  /**
    The order matters: the admin panel may pin an address while the first health checks still run, and
    selectInitial then moves away from it with manual mode still on.
   */
  lemma PinBrokenByLateInitial(a: Backend, pinned: Text, env: Env)
    requires pinned != [] && pinned != a.Addr()
    ensures var s := InitialState([a], true, None);
            var es := [SetManual(pinned, [], env), SelectInitial([], env)];
            Run(s, es) && Pinned(s) && !Pinned(Final(s, es))
  {
    var s := InitialState([a], true, None);
    var e1, e2 := SetManual(pinned, [], env), SelectInitial([], env);
    var s1 := Next(s, e1);
    FinalShort(s, e1, e2);
    FinalShort(s1, e2, e2);
    assert [e1, e2][1..] == [e2];
  }

  // ---------- returning to a primary ----------

  /** The i-th loaded backend is a primary that can be returned to, and its subscription can be fetched. */
  ghost predicate FailbackAt(s: State, fetchOk: seq<bool>, i: nat)
    requires |fetchOk| == |s.backends| && i < |s.backends|
  {
    && s.failback && !s.manual && fetchOk[i]
    && s.backends[i].primary && s.backends[i].Addr() != s.current && Up(s.statuses, s.backends[i].Addr())
  }

  // ---------- one pass of subscription checks ----------

  predicate Fails(bes: seq<Backend>, fetchOk: seq<bool>, i: nat)
    requires |fetchOk| == |bes| && i < |bes|
  {
    bes[i].subURL != [] && !fetchOk[i]
  }

  /** The events of checkSubscriptions over a snapshot of the backends, when no other step comes in between. */
  ghost predicate SubPass(s: State, bes: seq<Backend>, fetchOk: seq<bool>, es: seq<Event>)
    requires |fetchOk| == |bes|
    decreases |bes|
  {
    if bes == [] then es == []
    else if !Fails(bes, fetchOk, 0) then SubPass(s, bes[1..], fetchOk[1..], es)
    else
      var addr := bes[0].Addr();
      && es != [] && es[0] == SetStatus(addr, false)
      && var s1 := Next(s, es[0]);
         if addr == s1.current then
           && |es| >= 2 && es[1].Failover? && Enabled(s1, es[1])
           && SubPass(Next(s1, es[1]), bes[1..], fetchOk[1..], es[2..])
         else SubPass(s1, bes[1..], fetchOk[1..], es[1..])
  }

  function FailCount(bes: seq<Backend>, fetchOk: seq<bool>): nat
    requires |fetchOk| == |bes|
  {
    if bes == [] then 0 else (if Fails(bes, fetchOk, 0) then 1 else 0) + FailCount(bes[1..], fetchOk[1..])
  }

  ghost predicate FetchFails(bes: seq<Backend>, fetchOk: seq<bool>, addr: Text)
    requires |fetchOk| == |bes|
  {
    exists i :: 0 <= i < |bes| && Fails(bes, fetchOk, i) && bes[i].Addr() == addr
  }

  lemma FetchFailsCons(bes: seq<Backend>, fetchOk: seq<bool>, addr: Text)
    requires |fetchOk| == |bes| && bes != []
    ensures FetchFails(bes, fetchOk, addr) <==>
            (Fails(bes, fetchOk, 0) && bes[0].Addr() == addr) || FetchFails(bes[1..], fetchOk[1..], addr)
  {
    if FetchFails(bes, fetchOk, addr) {
      var i :| 0 <= i < |bes| && Fails(bes, fetchOk, i) && bes[i].Addr() == addr;
      if i > 0 {
        assert Fails(bes[1..], fetchOk[1..], i - 1) && bes[1..][i - 1].Addr() == addr;
      }
    }
    if FetchFails(bes[1..], fetchOk[1..], addr) {
      var i :| 0 <= i < |bes| - 1 && Fails(bes[1..], fetchOk[1..], i) && bes[1..][i].Addr() == addr;
      assert Fails(bes, fetchOk, i + 1) && bes[i + 1].Addr() == addr;
    }
  }

  ghost predicate NoneUp(s: State) {
    forall a :: a in Addrs(s.backends) ==> !Up(s.statuses, a)
  }

  ghost predicate Served(s: State) {
    Up(s.statuses, s.current) || NoneUp(s)
  }

  /** One failing backend: it is marked down, and if it is active the balancer fails over. */
  lemma FailingStep(s: State, addr: Text, best: Text, env: Env)
    requires !s.manual
    requires var s1 := Next(s, SetStatus(addr, false));
             addr == s1.current ==> Enabled(s1, Failover(best, env))
    ensures var s1 := Next(s, SetStatus(addr, false));
            var s2 := if addr == s1.current then Next(s1, Failover(best, env)) else s1;
            && !s2.manual && s2.backends == s.backends
            && s2.statuses == s.statuses[addr := false]
            && s.failovers <= s2.failovers <= s.failovers + 1
            && (s2.current != s.current ==> Up(s2.statuses, s2.current) && s2.current in Addrs(s.backends))
            && (addr == s.current || Served(s) ==> Served(s2))
            && (addr != s.current ==> s2.current == s.current)
  {
  }

  lemma RunTwo(s: State, es: seq<Event>)
    requires |es| >= 2
    ensures Run(s, es) <==>
            Enabled(s, es[0]) && Enabled(Next(s, es[0]), es[1]) && Run(Next(Next(s, es[0]), es[1]), es[2..])
    ensures Final(s, es) == Final(Next(Next(s, es[0]), es[1]), es[2..])
  {
    var t := es[1..];
    assert t[0] == es[1] && t[1..] == es[2..];
    assert Run(Next(s, es[0]), t) <==> Enabled(Next(s, es[0]), t[0]) && Run(Next(Next(s, es[0]), t[0]), t[1..]);
  }

  /** The pass over one backend: the state after it, and the events still to come. */
  lemma SubPassStep(s: State, bes: seq<Backend>, fetchOk: seq<bool>, es: seq<Event>) returns (s2: State, es2: seq<Event>)
    requires |fetchOk| == |bes| && bes != [] && SubPass(s, bes, fetchOk, es)
    requires !s.manual
    ensures SubPass(s2, bes[1..], fetchOk[1..], es2)
    ensures Final(s, es) == Final(s2, es2) && (Run(s2, es2) ==> Run(s, es))
    ensures !s2.manual && s2.backends == s.backends
    ensures if Fails(bes, fetchOk, 0) then
              var addr := bes[0].Addr();
              && s2.statuses == s.statuses[addr := false]
              && s.failovers <= s2.failovers <= s.failovers + 1
              && (s2.current != s.current ==> Up(s2.statuses, s2.current) && s2.current in Addrs(s.backends))
              && (addr == s.current || Served(s) ==> Served(s2))
              && (addr != s.current ==> s2.current == s.current)
            else s2 == s
  {
    if !Fails(bes, fetchOk, 0) {
      return s, es;
    }
    var addr := bes[0].Addr();
    var s1 := Next(s, es[0]);
    if addr == s1.current {
      var e := es[1];
      assert e == Failover(e.best, e.env);
      FailingStep(s, addr, e.best, e.env);
      RunTwo(s, es);
      s2, es2 := Next(s1, e), es[2..];
    } else {
      FailingStep(s, addr, [], Env(0, Works));
      s2, es2 := s1, es[1..];
    }
  }

  /** In either mode: the state and the events left after the first backend of a pass. */
  lemma SubPassHead(s: State, bes: seq<Backend>, fetchOk: seq<bool>, es: seq<Event>) returns (s2: State, es2: seq<Event>)
    requires |fetchOk| == |bes| && bes != [] && SubPass(s, bes, fetchOk, es)
    ensures SubPass(s2, bes[1..], fetchOk[1..], es2) && Final(s, es) == Final(s2, es2)
    ensures s2.backends == s.backends && s2.manual == s.manual && (s.manual ==> s2.current == s.current)
    ensures s2.statuses == if Fails(bes, fetchOk, 0) then s.statuses[bes[0].Addr() := false] else s.statuses
  {
    s2, es2 := s, es;
    if Fails(bes, fetchOk, 0) {
      s2, es2 := Next(s, es[0]), es[1..];
      if bes[0].Addr() == s2.current {
        RunTwo(s, es);
        s2, es2 := Next(s2, es[1]), es[2..];
      }
    }
  }

  /** In either mode a pass marks down exactly what failed; in manual mode it does nothing else. */
  lemma {:induction false} SubPassMarks(s: State, bes: seq<Backend>, fetchOk: seq<bool>, es: seq<Event>)
    requires |fetchOk| == |bes| && SubPass(s, bes, fetchOk, es)
    ensures var t := Final(s, es);
            && t.backends == s.backends && t.manual == s.manual && (s.manual ==> t.current == s.current)
            && (forall a :: Up(t.statuses, a) <==> Up(s.statuses, a) && !FetchFails(bes, fetchOk, a))
    decreases |bes|
  {
    if bes != [] {
      var s2, es2 := SubPassHead(s, bes, fetchOk, es);
      SubPassMarks(s2, bes[1..], fetchOk[1..], es2);
      forall a
        ensures Up(Final(s, es).statuses, a) <==> Up(s.statuses, a) && !FetchFails(bes, fetchOk, a)
      {
        FetchFailsCons(bes, fetchOk, a);
      }
    }
  }

  /** A pass is a run; it marks down exactly what failed, and fails over at most once for each failing backend. */
  lemma {:induction false} SubPassEffect(s: State, bes: seq<Backend>, fetchOk: seq<bool>, es: seq<Event>)
    requires |fetchOk| == |bes| && SubPass(s, bes, fetchOk, es)
    requires !s.manual
    ensures var t := Final(s, es);
            && Run(s, es)
            && !t.manual && t.backends == s.backends
            && (forall a :: Up(t.statuses, a) <==> Up(s.statuses, a) && !FetchFails(bes, fetchOk, a))
            && s.failovers <= t.failovers <= s.failovers + FailCount(bes, fetchOk)
    decreases |bes|
  {
    if bes != [] {
      var s2, es2 := SubPassStep(s, bes, fetchOk, es);
      SubPassEffect(s2, bes[1..], fetchOk[1..], es2);
      forall a
        ensures Up(Final(s, es).statuses, a) <==> Up(s.statuses, a) && !FetchFails(bes, fetchOk, a)
      {
        FetchFailsCons(bes, fetchOk, a);
      }
    }
  }

  /** Where the active address ends up. A new one was up all along. */
  lemma {:induction false} SubPassServes(s: State, bes: seq<Backend>, fetchOk: seq<bool>, es: seq<Event>)
    requires |fetchOk| == |bes| && SubPass(s, bes, fetchOk, es)
    requires !s.manual
    ensures var t := Final(s, es);
            && (Served(s) || FetchFails(bes, fetchOk, s.current) ==> Served(t))
            && (!FetchFails(bes, fetchOk, s.current) ==> t.current == s.current)
            && (t.current != s.current ==> Up(s.statuses, t.current) && t.current in Addrs(s.backends))
    decreases |bes|
  {
    if bes != [] {
      var s2, es2 := SubPassStep(s, bes, fetchOk, es);
      SubPassServes(s2, bes[1..], fetchOk[1..], es2);
      FetchFailsCons(bes, fetchOk, s.current);
    }
  }

  /** Of every loaded backend that is up the fetch fails. */
  ghost predicate AllUpFail(s: State, bes: seq<Backend>, fetchOk: seq<bool>)
    requires |fetchOk| == |bes|
  {
    forall a :: a in Addrs(s.backends) && Up(s.statuses, a) ==> FetchFails(bes, fetchOk, a)
  }

  /**
    Cascading failover: after a pass the active address is up or no loaded backend is, exactly when it was up
    before, or its own fetch fails, or so does that of every loaded backend that was up.
   */
  lemma CascadeIff(s: State, bes: seq<Backend>, fetchOk: seq<bool>, es: seq<Event>)
    requires |fetchOk| == |bes| && SubPass(s, bes, fetchOk, es)
    requires !s.manual
    ensures Served(Final(s, es)) <==>
            Up(s.statuses, s.current) || FetchFails(bes, fetchOk, s.current) || AllUpFail(s, bes, fetchOk)
  {
    SubPassEffect(s, bes, fetchOk, es);
    SubPassServes(s, bes, fetchOk, es);
  }

  lemma FinalShort(s: State, e1: Event, e2: Event)
    ensures Final(s, [e1]) == Next(s, e1) && (Run(s, [e1]) <==> Enabled(s, e1))
    ensures Final(s, [e1, e2]) == Next(Next(s, e1), e2)
  {
    assert [e1][1..] == [] && [e1, e2][1..] == [e2] && [e2][1..] == [];
    assert Final(Next(s, e1), [e2]) == Next(Next(s, e1), e2);
    assert Run(Next(s, e1), []);
  }

  /** The events a pass spends on one backend. */
  ghost predicate OneCheck(s: State, be: Backend, ok: bool, es: seq<Event>) {
    if be.subURL == [] || ok then es == []
    else
      && |es| >= 1 && es[0] == SetStatus(be.Addr(), false)
      && var s1 := Next(s, es[0]);
         if be.Addr() == s1.current then |es| == 2 && es[1].Failover? && Enabled(s1, es[1]) else |es| == 1
  }

  lemma SubPassSplit(s: State, bes: seq<Backend>, fetchOk: seq<bool>, es: seq<Event>) returns (n: nat)
    requires |fetchOk| == |bes| && bes != [] && SubPass(s, bes, fetchOk, es)
    ensures n <= |es| && OneCheck(s, bes[0], fetchOk[0], es[..n])
    ensures Final(s, es) == Final(Final(s, es[..n]), es[n..])
    ensures SubPass(Final(s, es[..n]), bes[1..], fetchOk[1..], es[n..])
  {
    n := if !Fails(bes, fetchOk, 0) then 0 else if bes[0].Addr() == Next(s, es[0]).current then 2 else 1;
    TakeDrop(es, n);
    RunAppend(s, es[..n], es[n..]);
    OneCheckFinal(s, bes[0], fetchOk[0], es[..n]);
  }

  lemma OneCheckFinal(s: State, be: Backend, ok: bool, es: seq<Event>)
    requires OneCheck(s, be, ok, es)
    ensures Final(s, es) ==
            if |es| == 0 then s else if |es| == 1 then Next(s, es[0]) else Next(Next(s, es[0]), es[1])
  {
    if |es| == 1 {
      assert es == [es[0]];
      FinalShort(s, es[0], es[0]);
    } else if |es| == 2 {
      assert es == [es[0], es[1]];
      FinalShort(s, es[0], es[1]);
    }
  }

  lemma SubPassCons(s: State, bes: seq<Backend>, fetchOk: seq<bool>, e1: seq<Event>, e2: seq<Event>)
    requires |fetchOk| == |bes| && bes != []
    requires OneCheck(s, bes[0], fetchOk[0], e1) && SubPass(Final(s, e1), bes[1..], fetchOk[1..], e2)
    ensures SubPass(s, bes, fetchOk, e1 + e2)
  {
    OneCheckFinal(s, bes[0], fetchOk[0], e1);
    AppendSlices(e1, e2);
    assert e1 != [] ==> (e1 + e2)[0] == e1[0];
    assert |e1| == 2 ==> (e1 + e2)[1] == e1[1];
    assert e1 == [] ==> e1 + e2 == e2;
  }

  /** A pass can be continued by checking one more backend. */
  lemma {:induction false} SubPassSnoc(
      s: State, bes: seq<Backend>, fetchOk: seq<bool>, es: seq<Event>, be: Backend, ok: bool, more: seq<Event>)
    requires |fetchOk| == |bes|
    requires SubPass(s, bes, fetchOk, es) && OneCheck(Final(s, es), be, ok, more)
    ensures SubPass(s, bes + [be], fetchOk + [ok], es + more)
    decreases |bes|
  {
    if bes == [] {
      assert bes + [be] == [be] && fetchOk + [ok] == [ok] && es + more == more && more + [] == more;
      assert [be][1..] == bes && [ok][1..] == fetchOk;
      SubPassCons(s, [be], [ok], more, []);
    } else {
      var n := SubPassSplit(s, bes, fetchOk, es);
      SubPassSnoc(Final(s, es[..n]), bes[1..], fetchOk[1..], es[n..], be, ok, more);
      assert (bes + [be])[1..] == bes[1..] + [be] && (fetchOk + [ok])[1..] == fetchOk[1..] + [ok];
      SubPassCons(s, bes + [be], fetchOk + [ok], es[..n], es[n..] + more);
      TakeDrop(es, n);
      AppendAssoc(es[..n], es[n..], more);
    }
  }

  /** The same, one backend further into a snapshot. */
  lemma SubPassExtend(s: State, bes: seq<Backend>, fetchOk: seq<bool>, i: nat, es: seq<Event>, more: seq<Event>)
    requires |fetchOk| == |bes| && i < |bes|
    requires SubPass(s, bes[..i], fetchOk[..i], es) && OneCheck(Final(s, es), bes[i], fetchOk[i], more)
    ensures SubPass(s, bes[..i + 1], fetchOk[..i + 1], es + more)
    ensures Final(s, es + more) == Final(Final(s, es), more)
  {
    SubPassSnoc(s, bes[..i], fetchOk[..i], es, bes[i], fetchOk[i], more);
    RunAppend(s, es, more);
    TakeOneMore(bes, i);
    TakeOneMore(fetchOk, i);
  }

  // ---------- probes and reports as events ----------

  function PingEvents(probes: seq<Probe>): seq<Event> {
    if probes == [] then []
    else
      var last := probes[|probes| - 1];
      PingEvents(probes[..|probes| - 1]) + [SetPing(last.addr, last.ping)]
  }

  function StatusEvents(reports: seq<Report>): seq<Event> {
    if reports == [] then []
    else
      var last := reports[|reports| - 1];
      StatusEvents(reports[..|reports| - 1]) + [SetStatus(last.addr, last.up)]
  }

  lemma OneEvent(s: State, e: Event)
    ensures Final(s, [e]) == Next(s, e) && (Run(s, [e]) <==> Enabled(s, e))
  {
    FinalShort(s, e, e);
  }

  lemma {:induction false} PingRun(s: State, probes: seq<Probe>)
    ensures Run(s, PingEvents(probes))
    ensures Final(s, PingEvents(probes)) == s.(pings := PingFold(s.pings, probes))
  {
    if probes != [] {
      var front, last := probes[..|probes| - 1], probes[|probes| - 1];
      var e := SetPing(last.addr, last.ping);
      PingRun(s, front);
      RunAppend(s, PingEvents(front), [e]);
      OneEvent(Final(s, PingEvents(front)), e);
    }
  }

  lemma {:induction false} StatusRun(s: State, reports: seq<Report>)
    ensures Run(s, StatusEvents(reports))
    ensures Final(s, StatusEvents(reports)) == s.(statuses := StoreFold(s.statuses, reports))
  {
    if reports != [] {
      var front, last := reports[..|reports| - 1], reports[|reports| - 1];
      var e := SetStatus(last.addr, last.up);
      StatusRun(s, front);
      RunAppend(s, StatusEvents(front), [e]);
      OneEvent(Final(s, StatusEvents(front)), e);
    }
  }

  /** Probing is a run: the pings, and then what was notified. */
  lemma ProbeRun(s: State, probes: seq<Probe>, notified: seq<Report>)
    ensures var es := PingEvents(probes) + StatusEvents(notified);
            && Run(s, es)
            && Final(s, es) ==
               s.(pings := PingFold(s.pings, probes), statuses := StoreFold(s.statuses, notified))
  {
    PingRun(s, probes);
    StatusRun(Final(s, PingEvents(probes)), notified);
    RunAppend(s, PingEvents(probes), StatusEvents(notified));
  }
}
