/** The monitor daemon as a transition system: one state manager that consumes IPC, udev
    and logind events, and the grace timers it spawns. */
module Monitor {
  import opened Wrappers
  import opened Registry

  type Serial = string
  type Token = nat
  /** Nanoseconds on the monotonic clock. */
  type Instant = nat

  function Seconds(n: nat): nat {
    n * 1_000_000_000
  }

  datatype OnUsbRemoved = Lock | Logout | Hook(path: string) | PowerOff

  datatype Config = Config(graceSeconds: nat, suspendGraceSeconds: nat, onUsbRemoved: OnUsbRemoved)

  datatype SuspendState = Awake | SuspendingAt(at: Instant) | ResumedAt(at: Instant) {
    predicate InGraceWindow(now: Instant, secs: nat) {
      match this
      case Awake => false
      case SuspendingAt(_) => true
      case ResumedAt(t) => Elapsed(now, t) < Seconds(secs)
    }
  }

  datatype IpcRequest =
    | Hello | Ping
    | SessionOpen(session: ActiveSession)
    | SessionClose(sessionId: Uuid)
    | GetActiveSessionByUid(uid: Uid)
    | UpdateSessionTarget(sessionId: Uuid, newTarget: SessionTarget)

  datatype UdevAction = Plug | Unplug | Change

  /** A spawned grace timer that has neither fired nor noticed its cancellation. */
  datatype Timer = Timer(serial: Serial, sessions: seq<ActiveSession>, due: Instant)

  /** One action request handed to the action runner, with the timer and instant it came from. */
  datatype Dispatch = Dispatch(serial: Serial, session: ActiveSession, action: OnUsbRemoved, at: Instant)

  /** The per-serial token map and the timers holding those tokens. */
  datatype Grace = Grace(tokens: map<Serial, Token>, timers: map<Token, Timer>, cancelled: set<Token>, nextToken: Token)

  datatype State = State(
    registry: Index,
    disk: set<ActiveSession>,
    grace: Grace,
    suspend: SuspendState,
    now: Instant,
    sent: seq<Dispatch>,
    running: bool)

  /** What can happen next. `present` is the answer of the udev query; `order` is the order
      in which a hash map or a file lists its sessions. */
  datatype Label =
    | Tick(elapsed: nat)
    | Ipc(request: IpcRequest, present: bool)
    | Udev(action: UdevAction, serial: Option<Serial>, order: seq<ActiveSession>)
    | PrepareForSleep(starting: bool)
    | SessionRemoved(logindId: string)
    | Fire(token: Token)
    | NoticeCancel(token: Token)
    | ShutDown
    | Restart(order: seq<ActiveSession>)

  // ------------------------------------------------------------------ steps

  ghost predicate Enabled(st: State, l: Label) {
    match l
    case Tick(_) => true
    case Ipc(_, _) => st.running
    case Udev(action, serial, order) =>
      st.running && (action.Unplug? && serial.Some? ==> Enumerates(order, BoundTo(st.registry, serial.value)))
    case PrepareForSleep(_) => st.running
    case SessionRemoved(_) => st.running
    case Fire(t) => Live(st.grace, t) && st.grace.timers[t].due <= st.now
    case NoticeCancel(t) => t in st.grace.timers && t in st.grace.cancelled
    case ShutDown => st.running
    case Restart(order) => Enumerates(order, st.disk)
  }

  ghost function Update(st: State, op: Op): State {
    var x := Registry.Apply(st.registry, op);
    st.(registry := x, disk := x.byId.Values)
  }

  ghost function OnIpc(st: State, req: IpcRequest, present: bool): State {
    match req
    case SessionOpen(s) => if s.usbSerial.Some? && !present then st else Update(st, Add(s))
    case SessionClose(id) => Update(st, Remove(id))
    case UpdateSessionTarget(id, t) => if id in st.registry.byId then Update(st, UpdateTarget(id, t)) else st
    case _ => st
  }

  /** Does an unplug of `serial` start a timer here? */
  ghost predicate Arms(cfg: Config, st: State, serial: Serial) {
    && !st.suspend.InGraceWindow(st.now, cfg.suspendGraceSeconds)
    && BoundTo(st.registry, serial) != {}
    && serial !in st.grace.tokens
  }

  function Arm(g: Grace, serial: Serial, sessions: seq<ActiveSession>, due: Instant): Grace {
    Grace(g.tokens[serial := g.nextToken], g.timers[g.nextToken := Timer(serial, sessions, due)],
          g.cancelled, g.nextToken + 1)
  }

  function Disarm(g: Grace, serial: Serial): Grace {
    if serial in g.tokens then
      g.(tokens := g.tokens - {serial}, cancelled := g.cancelled + {g.tokens[serial]})
    else g
  }

  function DisarmAll(g: Grace): Grace {
    g.(tokens := map[], cancelled := g.cancelled + g.tokens.Values)
  }

  /** The sessions a logind session id stands for. */
  function OnTarget(x: Index, logindId: string): set<Uuid> {
    set id | id in x.byId && x.byId[id].target.LogindId() == Some(logindId)
  }

  function DropAll(x: Index, ids: set<Uuid>): Index {
    Index(x.byId - ids, map u | u in x.byUid && x.byUid[u] !in ids :: x.byUid[u])
  }

  function Batch(cfg: Config, timer: Timer, at: Instant): seq<Dispatch> {
    seq(|timer.sessions|, i requires 0 <= i < |timer.sessions| =>
      Dispatch(timer.serial, timer.sessions[i], cfg.onUsbRemoved, at))
  }

  function Boot(x: Index, disk: set<ActiveSession>, nextToken: Token, now: Instant, sent: seq<Dispatch>): State {
    State(x, disk, Grace(map[], map[], {}, nextToken), Awake, now, sent, true)
  }

  ghost function OnUnplug(cfg: Config, st: State, serial: Serial, sessions: seq<ActiveSession>): State {
    if Arms(cfg, st, serial) then
      st.(grace := Arm(st.grace, serial, sessions, st.now + Seconds(cfg.graceSeconds)))
    else st
  }

  ghost function OnSessionRemoved(st: State, logindId: string): State {
    var ids := OnTarget(st.registry, logindId);
    var x := DropAll(st.registry, ids);
    if ids == {} then st else st.(registry := x, disk := x.byId.Values)
  }

  function DropTimer(g: Grace, t: Token): Grace {
    g.(timers := g.timers - {t})
  }

  /** The effect of a label; only meant where the label is enabled. */
  ghost function Step(cfg: Config, st: State, l: Label): State {
    match l
    case Tick(elapsed) => st.(now := st.now + elapsed)
    case Ipc(req, present) => OnIpc(st, req, present)
    case Udev(action, serial, order) =>
      if serial.None? || action.Change? then st
      else if action.Unplug? then OnUnplug(cfg, st, serial.value, order)
      else st.(grace := Disarm(st.grace, serial.value))
    case PrepareForSleep(starting) =>
      if starting then st.(grace := DisarmAll(st.grace), suspend := SuspendingAt(st.now))
      else st.(suspend := ResumedAt(st.now))
    case SessionRemoved(logindId) => OnSessionRemoved(st, logindId)
    case Fire(t) =>
      if t !in st.grace.timers then st
      else st.(grace := DropTimer(st.grace, t), sent := st.sent + Batch(cfg, st.grace.timers[t], st.now))
    case NoticeCancel(t) => st.(grace := DropTimer(st.grace, t))
    case ShutDown => st.(grace := DisarmAll(st.grace), running := false)
    case Restart(order) => Boot(Restore(order), st.disk, st.grace.nextToken, st.now, st.sent)
  }

  ghost predicate Next(cfg: Config, st: State, l: Label, st': State) {
    Enabled(st, l) && st' == Step(cfg, st, l)
  }

  /** A run of the daemon: states and the labels between them. */
  ghost predicate IsRun(cfg: Config, sts: seq<State>, ls: seq<Label>) {
    |sts| == |ls| + 1 && forall i :: 0 <= i < |ls| ==> Next(cfg, sts[i], ls[i], sts[i + 1])
  }

  /** The daemon as started on a snapshot. */
  ghost function Initial(sessions: seq<ActiveSession>, now: Instant): State {
    Boot(Restore(sessions), set s | s in sessions, 0, now, [])
  }

  // ------------------------------------------------------------- invariants

  predicate Live(g: Grace, t: Token) {
    t in g.timers && t !in g.cancelled
  }

  ghost predicate NoLiveTimer(g: Grace) {
    forall t :: !Live(g, t)
  }

  /** Each live timer's token is the one stored for its serial; stored tokens are
      uncancelled and belong to one serial each; fresh tokens are unused. */
  ghost predicate TokensAgree(g: Grace) {
    && (forall t :: Live(g, t) ==> g.timers[t].serial in g.tokens && g.tokens[g.timers[t].serial] == t)
    && (forall s :: s in g.tokens ==> g.tokens[s] !in g.cancelled && g.tokens[s] < g.nextToken)
    && (forall s, s' :: s in g.tokens && s' in g.tokens && g.tokens[s] == g.tokens[s'] ==> s == s')
    && (forall t :: t in g.timers || t in g.cancelled ==> t < g.nextToken)
  }

  ghost predicate Inv(st: State) {
    && Sound(st.registry)
    && st.disk == st.registry.byId.Values
    && TokensAgree(st.grace)
    && (!st.running ==> st.grace.tokens == map[])
    && (st.suspend.ResumedAt? ==> st.suspend.at <= st.now)
  }

  lemma DropAllSound(x: Index, ids: set<Uuid>)
    requires Sound(x)
    ensures Sound(DropAll(x, ids))
  {
  }

  lemma RestartKeepsInv(st: State, order: seq<ActiveSession>)
    requires Inv(st) && Enumerates(order, st.disk)
    ensures Restore(order).byId == st.registry.byId && Sound(Restore(order))
    ensures forall s :: s in st.disk && s.uid != 0 ==> s.uid in Restore(order).byUid
  {
    RestoreInverts(st.registry, order);
  }

  lemma StepKeepsSessions(cfg: Config, st: State, l: Label)
    requires Inv(st) && Enabled(st, l)
    ensures var st' := Step(cfg, st, l); Sound(st'.registry) && st'.disk == st'.registry.byId.Values
  {
    match l {
      case Ipc(req, _) =>
        if req.SessionOpen? { ApplySound(st.registry, Add(req.session)); }
        if req.SessionClose? { ApplySound(st.registry, Remove(req.sessionId)); }
        if req.UpdateSessionTarget? { ApplySound(st.registry, UpdateTarget(req.sessionId, req.newTarget)); }
      case SessionRemoved(logindId) => DropAllSound(st.registry, OnTarget(st.registry, logindId));
      case Restart(order) => RestartKeepsInv(st, order);
      case _ =>
    }
  }

  lemma ArmKeepsTokens(g: Grace, serial: Serial, sessions: seq<ActiveSession>, due: Instant)
    requires TokensAgree(g) && serial !in g.tokens
    ensures TokensAgree(Arm(g, serial, sessions, due))
  {
  }

  lemma DisarmKeepsTokens(g: Grace, serial: Serial)
    requires TokensAgree(g)
    ensures TokensAgree(Disarm(g, serial))
  {
  }

  lemma DisarmAllKeepsTokens(g: Grace)
    requires TokensAgree(g)
    ensures TokensAgree(DisarmAll(g)) && NoLiveTimer(DisarmAll(g))
  {
    forall t ensures !Live(DisarmAll(g), t) {
      if Live(g, t) {
        assert g.tokens[g.timers[t].serial] == t;
      }
    }
  }

  lemma DropTimerKeepsTokens(g: Grace, t: Token)
    requires TokensAgree(g)
    ensures TokensAgree(DropTimer(g, t))
  {
  }

  lemma StepKeepsTokens(cfg: Config, st: State, l: Label)
    requires TokensAgree(st.grace) && Enabled(st, l)
    requires !st.running ==> st.grace.tokens == map[]
    ensures var st' := Step(cfg, st, l); TokensAgree(st'.grace) && (!st'.running ==> st'.grace.tokens == map[])
  {
    match l {
      case Udev(action, serial, order) =>
        if serial.Some? {
          DisarmKeepsTokens(st.grace, serial.value);
          if serial.value !in st.grace.tokens {
            ArmKeepsTokens(st.grace, serial.value, order, st.now + Seconds(cfg.graceSeconds));
          }
        }
      case Fire(t) => DropTimerKeepsTokens(st.grace, t);
      case NoticeCancel(t) => DropTimerKeepsTokens(st.grace, t);
      case PrepareForSleep(_) => DisarmAllKeepsTokens(st.grace);
      case ShutDown => DisarmAllKeepsTokens(st.grace);
      case _ =>
    }
  }

  lemma StepKeepsInv(cfg: Config, st: State, l: Label)
    requires Inv(st) && Enabled(st, l)
    ensures Inv(Step(cfg, st, l))
  {
    StepKeepsSessions(cfg, st, l);
    StepKeepsTokens(cfg, st, l);
  }

  /** The daemon starts in the invariant exactly when the file repeats no id for different sessions. */
  lemma InitialInv(sessions: seq<ActiveSession>, now: Instant)
    ensures Inv(Initial(sessions, now)) <==> Consistent(sessions)
  {
    RestoreKeepsExactly(sessions);
  }

  /** The invariant holds in every reachable state. */
  lemma {:induction false} RunKeepsInv(cfg: Config, sts: seq<State>, ls: seq<Label>, n: nat)
    requires IsRun(cfg, sts, ls) && Inv(sts[0]) && n < |sts|
    ensures Inv(sts[n])
  {
    if n > 0 {
      RunKeepsInv(cfg, sts, ls, n - 1);
      assert Next(cfg, sts[n - 1], ls[n - 1], sts[n]);
      StepKeepsInv(cfg, sts[n - 1], ls[n - 1]);
    }
  }
}
