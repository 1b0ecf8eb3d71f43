/** What the monitor daemon guarantees over whole runs. */
module MonitorRuns {
  import opened Wrappers
  import opened Registry
  import opened Monitor
  import opened SuspendHistory

  // ------------------------------------------------- timers and their tokens

  /** In every reachable state a serial has at most one live timer: the one its token names. */
  lemma OneLiveTimerPerSerial(cfg: Config, sts: seq<State>, ls: seq<Label>, n: nat, t: Token, t': Token)
    requires IsRun(cfg, sts, ls) && Inv(sts[0]) && n < |sts|
    requires Live(sts[n].grace, t) && Live(sts[n].grace, t') && sts[n].grace.timers[t].serial == sts[n].grace.timers[t'].serial
    ensures t == t'
    ensures var serial := sts[n].grace.timers[t].serial;
            serial in sts[n].grace.tokens && sts[n].grace.tokens[serial] == t
  {
    RunKeepsInv(cfg, sts, ls, n);
  }

  // ------------------------------------------------------------ persistence

  /** At every event boundary the file holds the registry's sessions, and a restart there
      restores the same sessions under a sound index with an entry for every nonzero uid. */
  lemma RestartRestores(cfg: Config, sts: seq<State>, ls: seq<Label>, n: nat, order: seq<ActiveSession>)
    requires IsRun(cfg, sts, ls) && Inv(sts[0]) && n < |sts|
    requires Enumerates(order, sts[n].disk)
    ensures sts[n].disk == sts[n].registry.byId.Values
    ensures Step(cfg, sts[n], Restart(order)).registry.byId == sts[n].registry.byId
    ensures var x := Step(cfg, sts[n], Restart(order)).registry;
            Sound(x) && forall s :: s in sts[n].registry.byId.Values && s.uid != 0 ==> s.uid in x.byUid
  {
    RunKeepsInv(cfg, sts, ls, n);
    RestartKeepsInv(sts[n], order);
  }

  // ---------------------------------------------------------------- sessions

  ghost predicate SameButTarget(a: ActiveSession, b: ActiveSession) {
    a == b.(target := a.target)
  }

  /** Label `i` opened the session, and its device (if it names one) was present then. */
  ghost predicate OpenedAt(ls: seq<Label>, i: nat, s: ActiveSession) {
    && i < |ls| && ls[i].Ipc? && ls[i].request.SessionOpen?
    && SameButTarget(s, ls[i].request.session)
    && (s.usbSerial.Some? ==> ls[i].present)
  }

  lemma SessionsStep(cfg: Config, st: State, l: Label, id: Uuid)
    requires Inv(st) && Enabled(st, l) && id in Step(cfg, st, l).registry.byId
    ensures var s := Step(cfg, st, l).registry.byId[id];
            || (id in st.registry.byId && SameButTarget(s, st.registry.byId[id]))
            || (l.Ipc? && l.request == IpcRequest.SessionOpen(s) && (s.usbSerial.Some? ==> l.present))
  {
    if l.Restart? {
      RestartKeepsInv(st, l.order);
    }
  }

  /** Every tracked session was loaded at the start or opened since while its device was present,
      and nothing but its target has changed: no event and no restart makes up a session. */
  lemma {:induction false} SessionsWereOpened(cfg: Config, sts: seq<State>, ls: seq<Label>, n: nat, id: Uuid)
    requires IsRun(cfg, sts, ls) && Inv(sts[0]) && n < |sts| && id in sts[n].registry.byId
    ensures var s := sts[n].registry.byId[id];
            || (id in sts[0].registry.byId && SameButTarget(s, sts[0].registry.byId[id]))
            || exists i: nat :: i < n && OpenedAt(ls, i, s)
  {
    if n > 0 {
      assert Next(cfg, sts[n - 1], ls[n - 1], sts[n]);
      RunKeepsInv(cfg, sts, ls, n - 1);
      SessionsStep(cfg, sts[n - 1], ls[n - 1], id);
      var s := sts[n].registry.byId[id];
      if id in sts[n - 1].registry.byId && SameButTarget(s, sts[n - 1].registry.byId[id]) {
        SessionsWereOpened(cfg, sts, ls, n - 1, id);
        var t := sts[n - 1].registry.byId[id];
        if i: nat :| i < n - 1 && OpenedAt(ls, i, t) {
          assert OpenedAt(ls, i, s);
        }
      } else {
        assert OpenedAt(ls, n - 1, s);
      }
    }
  }

  /** A closed session, or one whose logind session ended, is gone; all others stay. */
  lemma ClosingIsExact(cfg: Config, st: State, id: Uuid, logindId: string, s: ActiveSession)
    requires Inv(st) && st.running
    ensures s in Step(cfg, st, Ipc(SessionClose(id), true)).registry.byId.Values <==>
            s in st.registry.byId.Values && s.sessionId != id
    ensures s in Step(cfg, st, SessionRemoved(logindId)).registry.byId.Values <==>
            s in st.registry.byId.Values && s.target != LogindSession(logindId)
  {
    var ids := OnTarget(st.registry, logindId);
    var (a, b) := (Registry.Apply(st.registry, Remove(id)), DropAll(st.registry, ids));
    if s in st.registry.byId.Values {
      assert st.registry.byId[s.sessionId] == s;
      assert s.sessionId != id ==> a.byId[s.sessionId] == s;
      assert s.sessionId !in ids ==> b.byId[s.sessionId] == s;
    }
  }

  // ---------------------------------------------------------------- suspend

  predicate Resume(l: Label) {
    l == PrepareForSleep(false)
  }

  ghost predicate NoRestart(ls: seq<Label>, i: nat, j: nat)
    requires j <= |ls|
  {
    forall k :: i < k < j ==> !ls[k].Restart?
  }

  /** No timer is live, and the suspend state still dates from `since` or later. */
  ghost predicate Quiet(st: State, since: Instant) {
    && NoLiveTimer(st.grace)
    && (st.suspend.SuspendingAt? || (st.suspend.ResumedAt? && since <= st.suspend.at <= st.now))
  }

  lemma QuietStep(cfg: Config, st: State, l: Label, since: Instant)
    requires Quiet(st, since) && Enabled(st, l) && !l.Restart?
    requires st.suspend.SuspendingAt? || st.now < since + Seconds(cfg.suspendGraceSeconds)
    requires Resume(l) ==> since <= st.now
    ensures Quiet(Step(cfg, st, l), since)
    ensures Step(cfg, st, l).sent == st.sent
  {
    var st' := Step(cfg, st, l);
    assert forall t :: t in st.grace.timers ==> Live(st.grace, t) || t in st.grace.cancelled;
    assert st.suspend.InGraceWindow(st.now, cfg.suspendGraceSeconds);
    assert st.grace.cancelled <= st'.grace.cancelled;
    assert forall t :: t in st'.grace.timers ==> t in st.grace.timers;
    forall t ensures !Live(st'.grace, t) {
      assert !Live(st.grace, t);
    }
  }

  /** From a suspend announcement until the suspend grace after the resume that follows it
      (`since` is no later than any resume in between), no timer is live and nothing is
      dispatched, whatever else arrives. */
  lemma {:induction false} SuspendSilencesTimers(
    cfg: Config, sts: seq<State>, ls: seq<Label>, i: nat, j: nat, since: Instant)
    requires IsRun(cfg, sts, ls) && Inv(sts[0])
    requires i < j <= |ls| && ls[i] == PrepareForSleep(true) && NoRestart(ls, i, j)
    requires forall k :: i < k < j && Resume(ls[k]) ==> since <= sts[k].now
    requires (exists k :: i < k < j && Resume(ls[k])) ==> sts[j].now < since + Seconds(cfg.suspendGraceSeconds)
    ensures NoLiveTimer(sts[j].grace) && sts[j].sent == sts[i].sent
    ensures Quiet(sts[j], since)
    ensures sts[j].suspend.SuspendingAt? || exists k :: i < k < j && Resume(ls[k])
  {
    assert Next(cfg, sts[j - 1], ls[j - 1], sts[j]);
    if j == i + 1 {
      RunKeepsInv(cfg, sts, ls, i);
      DisarmAllKeepsTokens(sts[i].grace);
    } else {
      ClockIsMonotone(cfg, sts, ls, j - 1, j);
      SuspendSilencesTimers(cfg, sts, ls, i, j - 1, since);
      QuietStep(cfg, sts[j - 1], ls[j - 1], since);
      if sts[j - 1].suspend.SuspendingAt? {
        SuspendStateStep(cfg, sts[j - 1], ls[j - 1]);
      }
    }
  }

  lemma SuspendStateStep(cfg: Config, st: State, l: Label)
    requires st.suspend.SuspendingAt? && !l.Restart?
    ensures Step(cfg, st, l).suspend.SuspendingAt? || Resume(l)
  {
  }

  /** Without the restart proviso that would be false: a restarted daemon is awake again and
      reacts to an unplug of any serial that has sessions, in the middle of the suspend. */
  lemma RestartForgetsSuspend(cfg: Config, st: State, order: seq<ActiveSession>, serial: Serial)
    requires Inv(st) && Enumerates(order, st.disk)
    ensures Arms(cfg, Step(cfg, st, Restart(order)), serial) <==> BoundTo(st.registry, serial) != {}
  {
    RestartKeepsInv(st, order);
    assert BoundTo(Restore(order), serial) == BoundTo(st.registry, serial);
  }

  /** Outside the window the daemon does react: once the suspend grace after a resume is over, or
      if there was no suspend, an unplug of a serial with sessions and no pending token starts a
      timer for exactly those sessions, due after the grace period; any other unplug starts none. */
  lemma UnplugStartsTimer(cfg: Config, st: State, serial: Serial, order: seq<ActiveSession>)
    requires Inv(st) && Enabled(st, Udev(Unplug, Some(serial), order))
    ensures var st' := Step(cfg, st, Udev(Unplug, Some(serial), order));
            if && !st.suspend.SuspendingAt?
               && (st.suspend.ResumedAt? ==> st.suspend.at + Seconds(cfg.suspendGraceSeconds) <= st.now)
               && order != [] && serial !in st.grace.tokens
            then
              && serial in st'.grace.tokens && Live(st'.grace, st'.grace.tokens[serial])
              && st'.grace.timers[st'.grace.tokens[serial]] == Timer(serial, order, st.now + Seconds(cfg.graceSeconds))
            else st' == st
  {
    assert order != [] ==> order[0] in BoundTo(st.registry, serial);
    assert forall s :: s in BoundTo(st.registry, serial) ==> s in order;
  }

  /** Shutting down leaves no live timer, and until a restart nothing more is dispatched. */
  lemma {:induction false} ShutDownSilencesTimers(cfg: Config, sts: seq<State>, ls: seq<Label>, i: nat, j: nat)
    requires IsRun(cfg, sts, ls) && Inv(sts[0])
    requires i < j <= |ls| && ls[i] == ShutDown && NoRestart(ls, i, j)
    ensures NoLiveTimer(sts[j].grace) && sts[j].sent == sts[i].sent && !sts[j].running
  {
    RunKeepsInv(cfg, sts, ls, j);
    assert Next(cfg, sts[j - 1], ls[j - 1], sts[j]);
    if j > i + 1 {
      ShutDownSilencesTimers(cfg, sts, ls, i, j - 1);
      var st := sts[j - 1];
      assert forall t :: t in st.grace.timers ==> Live(st.grace, t) || t in st.grace.cancelled;
    }
  }

  // --------------------------------------------------- one batch per removal

  predicate Interrupts(l: Label, serial: Serial) {
    || l == PrepareForSleep(true) || l.ShutDown? || l.Restart?
    || (l.Udev? && l.action.Plug? && l.serial == Some(serial))
  }

  /** The dispatches of one serial, in order. */
  function OfSerial(log: seq<Dispatch>, serial: Serial): seq<Dispatch> {
    if log == [] then []
    else OfSerial(log[..|log| - 1], serial) + if log[|log| - 1].serial == serial then [log[|log| - 1]] else []
  }

  lemma OfSerialSnoc(log: seq<Dispatch>, d: Dispatch, serial: Serial)
    ensures OfSerial(log + [d], serial) == OfSerial(log, serial) + if d.serial == serial then [d] else []
  {
    assert (log + [d])[..|log|] == log;
  }

  lemma {:induction false} OfSerialAppend(a: seq<Dispatch>, b: seq<Dispatch>, serial: Serial, of: Serial)
    requires forall i :: 0 <= i < |b| ==> b[i].serial == of
    ensures OfSerial(a + b, serial) == OfSerial(a, serial) + if of == serial then b else []
  {
    if b == [] {
      assert a + b == a;
    } else {
      var (init, last) := (b[..|b| - 1], b[|b| - 1]);
      OfSerialAppend(a, init, serial, of);
      OfSerialSnoc(a + init, last, serial);
      assert a + b == a + init + [last] && b == init + [last];
    }
  }

  /** One step that does not interrupt the timer of `serial`. */
  lemma UninterruptedTimer(cfg: Config, st: State, l: Label, serial: Serial, tok: Token)
    requires TokensAgree(st.grace) && Enabled(st, l) && !Interrupts(l, serial)
    requires serial in st.grace.tokens && st.grace.tokens[serial] == tok
    ensures var st' := Step(cfg, st, l);
            && serial in st'.grace.tokens && st'.grace.tokens[serial] == tok
            && (Live(st'.grace, tok) <==> Live(st.grace, tok) && l != Fire(tok))
            && (Live(st'.grace, tok) ==> st'.grace.timers[tok] == st.grace.timers[tok])
  {
    if l.Udev? && l.serial.Some? && l.action.Plug? && l.serial.value in st.grace.tokens {
      assert st.grace.tokens[l.serial.value] != tok;
    }
  }

  lemma UninterruptedLog(cfg: Config, st: State, l: Label, serial: Serial, tok: Token)
    requires TokensAgree(st.grace) && Enabled(st, l)
    requires serial in st.grace.tokens && st.grace.tokens[serial] == tok
    ensures OfSerial(Step(cfg, st, l).sent, serial) ==
            OfSerial(st.sent, serial) + if l == Fire(tok) then Batch(cfg, st.grace.timers[tok], st.now) else []
  {
    if l.Fire? {
      OfSerialAppend(st.sent, Batch(cfg, st.grace.timers[l.token], st.now), serial, st.grace.timers[l.token].serial);
    } else {
      assert Step(cfg, st, l).sent == st.sent;
    }
  }

  /** Label `k` fired the timer, after it was due, and sent exactly its batch. */
  ghost predicate FiredAt(cfg: Config, sts: seq<State>, ls: seq<Label>, i: nat, j: nat, k: nat, tok: Token, timer: Timer)
    requires IsRun(cfg, sts, ls) && i < |sts| && j <= |ls|
  {
    && i < k < j && ls[k] == Fire(tok) && timer.due <= sts[k].now
    && OfSerial(sts[j].sent, timer.serial) == OfSerial(sts[i].sent, timer.serial) + Batch(cfg, timer, sts[k].now)
    && forall m :: i < m < j && ls[m] == Fire(tok) ==> m == k
  }

  /** Between labels `i` and `j`: either the timer is still live with the sessions captured at
      `i` and its serial has dispatched nothing since, or it fired exactly once, once due, and the
      serial's dispatches since are exactly one per captured session. */
  ghost predicate OneBatch(cfg: Config, sts: seq<State>, ls: seq<Label>, i: nat, j: nat, tok: Token, timer: Timer)
    requires IsRun(cfg, sts, ls) && i < |sts| && j <= |ls|
  {
    var (g, serial) := (sts[j].grace, timer.serial);
    && serial in g.tokens && g.tokens[serial] == tok
    && if Live(g, tok) then
         && g.timers[tok] == timer
         && OfSerial(sts[j].sent, serial) == OfSerial(sts[i].sent, serial)
         && (forall k :: i < k < j ==> ls[k] != Fire(tok))
       else
         exists k: nat :: FiredAt(cfg, sts, ls, i, j, k, tok, timer)
  }

  lemma OneBatchStart(cfg: Config, sts: seq<State>, ls: seq<Label>, i: nat, serial: Serial)
    requires IsRun(cfg, sts, ls) && i < |ls| && TokensAgree(sts[i].grace) && Arms(cfg, sts[i], serial)
    requires ls[i].Udev? && ls[i].action.Unplug? && ls[i].serial == Some(serial)
    ensures OneBatch(cfg, sts, ls, i, i + 1, sts[i].grace.nextToken,
                     Timer(serial, ls[i].order, sts[i].now + Seconds(cfg.graceSeconds)))
  {
    assert Next(cfg, sts[i], ls[i], sts[i + 1]);
    assert Live(sts[i + 1].grace, sts[i].grace.nextToken);
  }

  lemma OneBatchStep(cfg: Config, sts: seq<State>, ls: seq<Label>, i: nat, j: nat, tok: Token, timer: Timer)
    requires IsRun(cfg, sts, ls) && i < j < |ls| && OneBatch(cfg, sts, ls, i, j, tok, timer)
    requires TokensAgree(sts[j].grace) && !Interrupts(ls[j], timer.serial)
    ensures OneBatch(cfg, sts, ls, i, j + 1, tok, timer)
  {
    var l := ls[j];
    assert Next(cfg, sts[j], l, sts[j + 1]);
    UninterruptedTimer(cfg, sts[j], l, timer.serial, tok);
    UninterruptedLog(cfg, sts[j], l, timer.serial, tok);
    if Live(sts[j].grace, tok) {
      if l == Fire(tok) {
        assert FiredAt(cfg, sts, ls, i, j + 1, j, tok, timer);
      }
    } else {
      var k: nat :| FiredAt(cfg, sts, ls, i, j, k, tok, timer);
      assert FiredAt(cfg, sts, ls, i, j + 1, k, tok, timer);
    }
  }

  lemma {:induction false} OneBatchRun(cfg: Config, sts: seq<State>, ls: seq<Label>, i: nat, j: nat, tok: Token, timer: Timer)
    requires IsRun(cfg, sts, ls) && Inv(sts[0]) && i < j <= |ls|
    requires OneBatch(cfg, sts, ls, i, i + 1, tok, timer)
    requires forall k :: i < k < j ==> !Interrupts(ls[k], timer.serial)
    ensures OneBatch(cfg, sts, ls, i, j, tok, timer)
  {
    if j > i + 1 {
      OneBatchRun(cfg, sts, ls, i, j - 1, tok, timer);
      RunKeepsInv(cfg, sts, ls, j - 1);
      OneBatchStep(cfg, sts, ls, i, j - 1, tok, timer);
    }
  }

  /** After an unplug that starts a timer, and as long as no plug of the serial, suspend, shutdown
      or restart interrupts it, its serial gets one batch at most, and exactly one once it fired:
      a further unplug of the serial starts nothing. */
  lemma OneBatchPerRemoval(
    cfg: Config, sts: seq<State>, ls: seq<Label>, i: nat, j: nat, serial: Serial)
    requires IsRun(cfg, sts, ls) && Inv(sts[0])
    requires i < j <= |ls| && ls[i].Udev? && ls[i].action.Unplug? && ls[i].serial == Some(serial)
    requires Arms(cfg, sts[i], serial)
    requires forall k :: i < k < j ==> !Interrupts(ls[k], serial)
    ensures NoDuplicates(ls[i].order)
    ensures forall s :: s in ls[i].order <==> s in sts[i].registry.byId.Values && s.usbSerial == Some(serial)
    ensures OneBatch(cfg, sts, ls, i, j, sts[i].grace.nextToken,
                     Timer(serial, ls[i].order, sts[i].now + Seconds(cfg.graceSeconds)))
  {
    assert Next(cfg, sts[i], ls[i], sts[i + 1]);
    RunKeepsInv(cfg, sts, ls, i);
    OneBatchStart(cfg, sts, ls, i, serial);
    OneBatchRun(cfg, sts, ls, i, j, sts[i].grace.nextToken, Timer(serial, ls[i].order, sts[i].now + Seconds(cfg.graceSeconds)));
  }

  // ------------------------------------------------------------- provenance

  ghost predicate StartedAt(cfg: Config, sts: seq<State>, ls: seq<Label>, i: nat, timer: Timer)
    requires IsRun(cfg, sts, ls)
  {
    && i < |ls| && ls[i] == Udev(Unplug, Some(timer.serial), timer.sessions)
    && Arms(cfg, sts[i], timer.serial)
    && timer.due == sts[i].now + Seconds(cfg.graceSeconds)
  }

  lemma TimersStep(cfg: Config, st: State, l: Label, t: Token)
    requires t in Step(cfg, st, l).grace.timers
    ensures var timer := Step(cfg, st, l).grace.timers[t];
            || (t in st.grace.timers && timer == st.grace.timers[t])
            || (l == Udev(Unplug, Some(timer.serial), timer.sessions) && Arms(cfg, st, timer.serial)
                && timer.due == st.now + Seconds(cfg.graceSeconds))
  {
  }

  lemma {:induction false} TimersHaveOrigins(cfg: Config, sts: seq<State>, ls: seq<Label>, n: nat, t: Token)
    requires IsRun(cfg, sts, ls) && n < |sts| && sts[0].grace.timers == map[] && t in sts[n].grace.timers
    ensures exists i: nat :: i < n && StartedAt(cfg, sts, ls, i, sts[n].grace.timers[t])
  {
    assert Next(cfg, sts[n - 1], ls[n - 1], sts[n]);
    TimersStep(cfg, sts[n - 1], ls[n - 1], t);
    if t in sts[n - 1].grace.timers && sts[n].grace.timers[t] == sts[n - 1].grace.timers[t] {
      TimersHaveOrigins(cfg, sts, ls, n - 1, t);
    } else {
      assert StartedAt(cfg, sts, ls, n - 1, sts[n].grace.timers[t]);
    }
  }

  /** Label `i` was an unplug of the dispatch's serial, handled outside the suspend window,
      when the dispatched session was bound to it, at least the grace period before. */
  ghost predicate CausedBy(cfg: Config, sts: seq<State>, ls: seq<Label>, i: nat, d: Dispatch)
    requires IsRun(cfg, sts, ls)
  {
    && i < |ls| && ls[i].Udev? && ls[i].action.Unplug? && ls[i].serial == Some(d.serial)
    && Attentive(cfg, sts, ls, i)
    && d.session in sts[i].registry.byId.Values && d.session.usbSerial == Some(d.serial)
    && sts[i].now + Seconds(cfg.graceSeconds) <= d.at
    && d.action == cfg.onUsbRemoved
  }

  lemma {:induction false} DispatchesHaveOrigins(cfg: Config, sts: seq<State>, ls: seq<Label>, n: nat, k: nat)
    requires IsRun(cfg, sts, ls) && n < |sts| && k < |sts[n].sent|
    requires sts[0].grace.timers == map[] && sts[0].sent == []
    ensures exists i: nat :: i < n && CausedBy(cfg, sts, ls, i, sts[n].sent[k])
  {
    var (st, l) := (sts[n - 1], ls[n - 1]);
    assert Next(cfg, st, l, sts[n]);
    if k < |st.sent| {
      DispatchesHaveOrigins(cfg, sts, ls, n - 1, k);
      SentGrows(cfg, st, l, k);
    } else {
      SentByTimer(cfg, st, l, k);
      TimersHaveOrigins(cfg, sts, ls, n - 1, l.token);
      var i: nat :| i < n - 1 && StartedAt(cfg, sts, ls, i, st.grace.timers[l.token]);
      OriginOf(cfg, sts, ls, i, st.grace.timers[l.token], sts[n].sent[k]);
    }
  }

  /** A new dispatch comes from a due timer, for one of its sessions. */
  ghost predicate FromTimer(cfg: Config, timer: Timer, d: Dispatch) {
    d.serial == timer.serial && d.session in timer.sessions && d.action == cfg.onUsbRemoved && timer.due <= d.at
  }

  lemma SentByTimer(cfg: Config, st: State, l: Label, k: nat)
    requires Enabled(st, l) && |st.sent| <= k < |Step(cfg, st, l).sent|
    ensures l.Fire? && l.token in st.grace.timers && FromTimer(cfg, st.grace.timers[l.token], Step(cfg, st, l).sent[k])
  {
    assert l.Fire?;
    assert Step(cfg, st, l).sent[k] == Batch(cfg, st.grace.timers[l.token], st.now)[k - |st.sent|];
  }

  lemma OriginOf(cfg: Config, sts: seq<State>, ls: seq<Label>, i: nat, timer: Timer, d: Dispatch)
    requires IsRun(cfg, sts, ls) && StartedAt(cfg, sts, ls, i, timer) && FromTimer(cfg, timer, d)
    ensures CausedBy(cfg, sts, ls, i, d)
  {
    assert Next(cfg, sts[i], ls[i], sts[i + 1]);
    AttentiveExactly(cfg, sts, ls, i);
    assert d.session in BoundTo(sts[i].registry, d.serial);
  }

  lemma SentGrows(cfg: Config, st: State, l: Label, k: nat)
    requires k < |st.sent|
    ensures k < |Step(cfg, st, l).sent| && Step(cfg, st, l).sent[k] == st.sent[k]
  {
  }

  // -------------------------------------------------------- the action runner

  datatype Call =
    | LockSession(id: string) | TerminateSession(id: string)
    | RunHook(path: string, session: ActiveSession) | PowerOffHost

  /** Which backend call an action request turns into; a lock or logout without a logind id is dropped. */
  function Handle(session: ActiveSession, action: OnUsbRemoved): Result<Call, string> {
    match action
    case Lock =>
      var id := session.target.LogindId();
      if id.Some? then Ok(LockSession(id.value)) else Err("Lock requested but session has no logind id")
    case Logout =>
      var id := session.target.LogindId();
      if id.Some? then Ok(TerminateSession(id.value)) else Err("Logout requested but session has no logind id")
    case Hook(path) => Ok(RunHook(path, session))
    case PowerOff => Ok(PowerOffHost)
  }

  predicate Names(call: Call, id: string) {
    call == LockSession(id) || call == TerminateSession(id)
  }

  /** What the action runner makes of dispatched requests. */
  function CallsOf(log: seq<Dispatch>): seq<Result<Call, string>> {
    seq(|log|, k requires 0 <= k < |log| => Handle(log[k].session, log[k].action))
  }

  /** What it makes of a batch for these sessions. */
  function CallsFor(sessions: seq<ActiveSession>, action: OnUsbRemoved): seq<Result<Call, string>> {
    seq(|sessions|, k requires 0 <= k < |sessions| => Handle(sessions[k], action))
  }

  ghost predicate FiredWithin(ls: seq<Label>, i: nat, j: nat, tok: Token)
    requires j <= |ls|
  {
    exists k :: i < k < j && ls[k] == Fire(tok)
  }

  /** The calls made for a serial between a removal that starts a timer and the next interruption
      are the configured action on each session bound at the removal, once each, if the timer
      fired, and none otherwise. */
  lemma CallsPerRemoval(cfg: Config, sts: seq<State>, ls: seq<Label>, i: nat, j: nat, serial: Serial)
    requires IsRun(cfg, sts, ls) && Inv(sts[0])
    requires i < j <= |ls| && ls[i].Udev? && ls[i].action.Unplug? && ls[i].serial == Some(serial)
    requires Arms(cfg, sts[i], serial)
    requires forall k :: i < k < j ==> !Interrupts(ls[k], serial)
    ensures NoDuplicates(ls[i].order)
    ensures forall s :: s in ls[i].order <==> s in sts[i].registry.byId.Values && s.usbSerial == Some(serial)
    ensures CallsOf(OfSerial(sts[j].sent, serial)) ==
            CallsOf(OfSerial(sts[i].sent, serial)) +
            if FiredWithin(ls, i, j, sts[i].grace.nextToken) then CallsFor(ls[i].order, cfg.onUsbRemoved) else []
  {
    OneBatchPerRemoval(cfg, sts, ls, i, j, serial);
    var (tok, timer) := (sts[i].grace.nextToken, Timer(serial, ls[i].order, sts[i].now + Seconds(cfg.graceSeconds)));
    var was := OfSerial(sts[i].sent, serial);
    if Live(sts[j].grace, tok) {
      assert !FiredWithin(ls, i, j, tok);
      assert CallsOf(was) + [] == CallsOf(was);
    } else {
      var k: nat :| FiredAt(cfg, sts, ls, i, j, k, tok, timer);
      assert FiredWithin(ls, i, j, tok);
      CallsOfBatch(cfg, was, timer, sts[k].now);
    }
  }

  /** The call `call` is what the policy demands for the session. */
  ghost predicate Obeys(action: OnUsbRemoved, s: ActiveSession, call: Result<Call, string>) {
    match action
    case Lock =>
      && (forall id :: call == Ok(LockSession(id)) <==> s.target == LogindSession(id))
      && (call.Ok? ==> call.value.LockSession?)
      && (call.Err? <==> !s.target.LogindSession?)
    case Logout =>
      && (forall id :: call == Ok(TerminateSession(id)) <==> s.target == LogindSession(id))
      && (call.Ok? ==> call.value.TerminateSession?)
      && (call.Err? <==> !s.target.LogindSession?)
    case Hook(path) => call == Ok(RunHook(path, s))
    case PowerOff => call == Ok(PowerOffHost)
  }

  /** The calls after `was` are one per session, in turn, each as the policy demands. */
  ghost predicate BatchObeys(
    was: seq<Result<Call, string>>, calls: seq<Result<Call, string>>, sessions: seq<ActiveSession>, action: OnUsbRemoved) {
    && |calls| == |was| + |sessions| && calls[..|was|] == was
    && forall k :: 0 <= k < |sessions| ==> Obeys(action, sessions[k], calls[|was| + k])
  }

  /** Once the timer of a removal has fired, the new calls for its serial are one per session bound
      at the removal, in turn: under Lock that locks exactly the logind session it is on, if any,
      and nothing else; likewise for the other policies. */
  lemma CallsObeyPolicy(cfg: Config, sts: seq<State>, ls: seq<Label>, i: nat, j: nat, serial: Serial)
    requires IsRun(cfg, sts, ls) && Inv(sts[0])
    requires i < j <= |ls| && ls[i].Udev? && ls[i].action.Unplug? && ls[i].serial == Some(serial)
    requires Arms(cfg, sts[i], serial)
    requires forall k :: i < k < j ==> !Interrupts(ls[k], serial)
    requires FiredWithin(ls, i, j, sts[i].grace.nextToken)
    ensures BatchObeys(CallsOf(OfSerial(sts[i].sent, serial)), CallsOf(OfSerial(sts[j].sent, serial)), ls[i].order, cfg.onUsbRemoved)
  {
    CallsPerRemoval(cfg, sts, ls, i, j, serial);
    CallsForObey(CallsOf(OfSerial(sts[i].sent, serial)), ls[i].order, cfg.onUsbRemoved);
  }

  lemma CallsForObey(was: seq<Result<Call, string>>, sessions: seq<ActiveSession>, action: OnUsbRemoved)
    ensures BatchObeys(was, was + CallsFor(sessions, action), sessions, action)
  {
    forall k | 0 <= k < |sessions| ensures Obeys(action, sessions[k], CallsFor(sessions, action)[k]) {
      HandleObeys(action, sessions[k]);
    }
  }

  lemma HandleObeys(action: OnUsbRemoved, s: ActiveSession)
    ensures Obeys(action, s, Handle(s, action))
  {
  }

  lemma CallsOfBatch(cfg: Config, log: seq<Dispatch>, timer: Timer, at: Instant)
    ensures CallsOf(log + Batch(cfg, timer, at)) == CallsOf(log) + CallsFor(timer.sessions, cfg.onUsbRemoved)
  {
  }

  /** Provenance over whole runs, restarts included: every lock or terminate call names a logind
      id that was the target of a session bound to serial `s` when an unplug of `s` was handled
      outside the suspend window, at least the grace period earlier. */
  lemma CallsHaveOrigins(cfg: Config, sts: seq<State>, ls: seq<Label>, n: nat, k: nat, id: string)
    requires IsRun(cfg, sts, ls) && n < |sts| && k < |sts[n].sent|
    requires sts[0].grace.timers == map[] && sts[0].sent == []
    requires var r := Handle(sts[n].sent[k].session, sts[n].sent[k].action); r.Ok? && Names(r.value, id)
    ensures exists i: nat :: i < n && CausedBy(cfg, sts, ls, i, sts[n].sent[k])
    ensures sts[n].sent[k].session.target == LogindSession(id)
  {
    DispatchesHaveOrigins(cfg, sts, ls, n, k);
  }
}
