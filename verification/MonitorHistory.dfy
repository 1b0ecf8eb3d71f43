/** The monitor daemon's tokens and uid index, read off the history of a run. */
module MonitorHistory {
  import opened Wrappers
  import opened Registry
  import opened Monitor
  import opened SuspendHistory
  import opened SessionHistory
  import opened MonitorRuns

  // ------------------------------------------------------------------ tokens

  /** The label is an unplug of `serial` that finds sessions bound to it, outside the suspend window. */
  ghost predicate Notices(cfg: Config, st: State, l: Label, serial: Serial) {
    && l.Udev? && l.action.Unplug? && l.serial == Some(serial) && l.order != []
    && !st.suspend.InGraceWindow(st.now, cfg.suspendGraceSeconds)
  }

  /** The same at label `i` of a run, from labels and clock readings. */
  ghost predicate Noticed(cfg: Config, sts: seq<State>, ls: seq<Label>, i: nat, serial: Serial)
    requires i < |ls| < |sts|
  {
    && ls[i].Udev? && ls[i].action.Unplug? && ls[i].serial == Some(serial) && ls[i].order != []
    && Attentive(cfg, sts, ls, i)
  }

  /** An unplug of `serial` was noticed at `i`, and nothing has interrupted it before `n`. */
  ghost predicate Outstanding(cfg: Config, sts: seq<State>, ls: seq<Label>, i: nat, n: nat, serial: Serial)
    requires IsRun(cfg, sts, ls) && n < |sts|
  {
    i < n && Noticed(cfg, sts, ls, i, serial) && forall k :: i < k < n ==> !Interrupts(ls[k], serial)
  }

  lemma TokenStep(cfg: Config, st: State, l: Label, serial: Serial)
    requires Inv(st) && Enabled(st, l)
    ensures serial in Step(cfg, st, l).grace.tokens <==>
            Notices(cfg, st, l, serial) || (serial in st.grace.tokens && !Interrupts(l, serial))
  {
    if l.Udev? && l.action.Unplug? && l.serial == Some(serial) {
      assert l.order != [] ==> l.order[0] in BoundTo(st.registry, serial);
      assert forall s :: s in BoundTo(st.registry, serial) ==> s in l.order;
    }
  }

  lemma OutstandingStep(cfg: Config, sts: seq<State>, ls: seq<Label>, i: nat, p: nat, serial: Serial)
    requires IsRun(cfg, sts, ls) && p < |ls|
    ensures Outstanding(cfg, sts, ls, i, p + 1, serial) <==>
            || (i == p && Noticed(cfg, sts, ls, p, serial))
            || (Outstanding(cfg, sts, ls, i, p, serial) && !Interrupts(ls[p], serial))
  {
  }

  /** In every run a serial has a token exactly when an unplug of it was noticed and not interrupted since. */
  lemma {:induction false} TokensAreHistory(cfg: Config, sts: seq<State>, ls: seq<Label>, n: nat, serial: Serial)
    requires IsRun(cfg, sts, ls) && Inv(sts[0]) && sts[0].grace.tokens == map[] && n < |sts|
    ensures serial in sts[n].grace.tokens <==> exists i: nat :: Outstanding(cfg, sts, ls, i, n, serial)
  {
    if n > 0 {
      var p := n - 1;
      TokensAreHistory(cfg, sts, ls, p, serial);
      RunKeepsInv(cfg, sts, ls, p);
      assert Next(cfg, sts[p], ls[p], sts[n]);
      TokenStep(cfg, sts[p], ls[p], serial);
      AttentiveExactly(cfg, sts, ls, p);
      forall i: nat ensures Outstanding(cfg, sts, ls, i, n, serial) <==>
                            (i == p && Noticed(cfg, sts, ls, p, serial))
                            || (Outstanding(cfg, sts, ls, i, p, serial) && !Interrupts(ls[p], serial)) {
        OutstandingStep(cfg, sts, ls, i, p, serial);
      }
      assert Noticed(cfg, sts, ls, p, serial) ==> Outstanding(cfg, sts, ls, p, n, serial);
    }
  }

  lemma {:induction false} FiredTokensAreOld(cfg: Config, sts: seq<State>, ls: seq<Label>, k: nat, n: nat)
    requires IsRun(cfg, sts, ls) && Inv(sts[0]) && k < n < |sts| && ls[k].Fire?
    ensures ls[k].token < sts[n].grace.nextToken
  {
    assert Next(cfg, sts[n - 1], ls[n - 1], sts[n]);
    if k < n - 1 {
      FiredTokensAreOld(cfg, sts, ls, k, n - 1);
    } else {
      RunKeepsInv(cfg, sts, ls, k);
    }
  }

  ghost predicate Fired(ls: seq<Label>, n: nat, tok: Token)
    requires n <= |ls|
  {
    exists k :: 0 <= k < n && ls[k] == Fire(tok)
  }

  /** The token held for a serial is new with the step, or the one held before. */
  lemma HeldToken(cfg: Config, st: State, l: Label, serial: Serial)
    requires Inv(st) && Enabled(st, l) && serial in Step(cfg, st, l).grace.tokens
    ensures var (g, tok) := (Step(cfg, st, l).grace, Step(cfg, st, l).grace.tokens[serial]);
            || (tok == st.grace.nextToken && Live(g, tok) && !l.Fire?)
            || (serial in st.grace.tokens && tok == st.grace.tokens[serial] && !Interrupts(l, serial))
  {
    if serial in st.grace.tokens && !Interrupts(l, serial) {
      UninterruptedTimer(cfg, st, l, serial, st.grace.tokens[serial]);
    } else {
      TokenStep(cfg, st, l, serial);
    }
  }

  /** A held token's timer is live exactly until it has fired. */
  lemma {:induction false} LiveUntilFired(cfg: Config, sts: seq<State>, ls: seq<Label>, n: nat, serial: Serial)
    requires IsRun(cfg, sts, ls) && Inv(sts[0]) && sts[0].grace.tokens == map[]
    requires n < |sts| && serial in sts[n].grace.tokens
    ensures Live(sts[n].grace, sts[n].grace.tokens[serial]) <==> !Fired(ls, n, sts[n].grace.tokens[serial])
  {
    var (p, tok) := (n - 1, sts[n].grace.tokens[serial]);
    RunKeepsInv(cfg, sts, ls, p);
    assert Next(cfg, sts[p], ls[p], sts[n]);
    HeldToken(cfg, sts[p], ls[p], serial);
    if serial in sts[p].grace.tokens && tok == sts[p].grace.tokens[serial] && !Interrupts(ls[p], serial) {
      LiveUntilFired(cfg, sts, ls, p, serial);
      UninterruptedTimer(cfg, sts[p], ls[p], serial, tok);
      assert Fired(ls, n, tok) <==> Fired(ls, p, tok) || ls[p] == Fire(tok);
    } else {
      forall k | 0 <= k < n && ls[k].Fire? ensures ls[k].token != tok {
        if k < p {
          FiredTokensAreOld(cfg, sts, ls, k, p);
        }
      }
    }
  }

  /** Which removals are acted on, from the history alone: one that finds sessions outside the
      suspend window starts a timer for them exactly when no earlier such removal of the serial is
      outstanding, and is dropped otherwise, even if the earlier timer has long fired. */
  lemma RemovalsActedOn(cfg: Config, sts: seq<State>, ls: seq<Label>, n: nat, serial: Serial)
    requires IsRun(cfg, sts, ls) && Inv(sts[0]) && sts[0].grace.tokens == map[]
    requires n < |ls| && Noticed(cfg, sts, ls, n, serial)
    ensures if exists i: nat :: Outstanding(cfg, sts, ls, i, n, serial) then sts[n + 1] == sts[n]
            else
              var g := sts[n + 1].grace;
              serial in g.tokens && Live(g, g.tokens[serial])
              && g.timers[g.tokens[serial]] == Timer(serial, ls[n].order, sts[n].now + Seconds(cfg.graceSeconds))
  {
    RunKeepsInv(cfg, sts, ls, n);
    TokensAreHistory(cfg, sts, ls, n, serial);
    AttentiveExactly(cfg, sts, ls, n);
    assert Next(cfg, sts[n], ls[n], sts[n + 1]);
    UnplugStartsTimer(cfg, sts[n], serial, ls[n].order);
  }

  /** A removal that finds sessions, no sooner than the suspend grace after the last resume and with
      no suspend since, leaves its serial with a token. */
  lemma ResumeEndsSilence(cfg: Config, sts: seq<State>, ls: seq<Label>, i: nat, n: nat, serial: Serial)
    requires IsRun(cfg, sts, ls) && Inv(sts[0]) && sts[0].grace.tokens == map[]
    requires i < n < |ls| && ls[i] == PrepareForSleep(false) && forall k :: i < k < n ==> !SetsSuspend(ls[k])
    requires sts[i].now + cfg.suspendGraceSeconds * 1_000_000_000 <= sts[n].now
    requires ls[n].Udev? && ls[n].action.Unplug? && ls[n].serial == Some(serial) && ls[n].order != []
    ensures serial in sts[n + 1].grace.tokens
  {
    assert forall k: nat :: LastSet(ls, k, n) ==> k == i;
    assert !NeverSet(ls, n);
    assert Outstanding(cfg, sts, ls, n, n + 1, serial);
    TokensAreHistory(cfg, sts, ls, n + 1, serial);
  }

  /** As long as no removal of a serial without a token is noticed, nothing is dispatched for it. */
  lemma {:induction false} NoRemovalNoCalls(cfg: Config, sts: seq<State>, ls: seq<Label>, i: nat, j: nat, serial: Serial)
    requires IsRun(cfg, sts, ls) && Inv(sts[0]) && i <= j < |sts| && serial !in sts[i].grace.tokens
    requires forall k :: i <= k < j ==> !Noticed(cfg, sts, ls, k, serial)
    ensures serial !in sts[j].grace.tokens && OfSerial(sts[j].sent, serial) == OfSerial(sts[i].sent, serial)
  {
    if i < j {
      var p := j - 1;
      NoRemovalNoCalls(cfg, sts, ls, i, p, serial);
      RunKeepsInv(cfg, sts, ls, p);
      assert Next(cfg, sts[p], ls[p], sts[j]);
      TokenStep(cfg, sts[p], ls[p], serial);
      AttentiveExactly(cfg, sts, ls, p);
      assert !Noticed(cfg, sts, ls, p, serial);
      if ls[p].Fire? {
        var timer := sts[p].grace.timers[ls[p].token];
        OfSerialAppend(sts[p].sent, Batch(cfg, timer, sts[p].now), serial, timer.serial);
      } else {
        assert sts[j].sent == sts[p].sent;
      }
    }
  }

  // ------------------------------------------------------------- uid lookups

  /** The label makes `id` the session of uid `u`: it opens it, or it is a restart on a file that
      lists it last among the sessions of `u`. */
  ghost predicate Claimed(l: Label, u: Uid, id: Uuid) {
    || (Opens(l) && Claims(Add(l.request.session), u, id))
    || (l.Restart? && exists i: nat :: LastOfUid(l.order, i) && l.order[i].uid == u && l.order[i].sessionId == id)
  }

  /** The label ends the claim of `id` on `u`: another session of the uid, the same session again,
      its close, the end of its logind session, or a restart, which indexes afresh. */
  ghost predicate Displaced(st: State, l: Label, u: Uid, id: Uuid) {
    || (Opens(l) && Displaces(Add(l.request.session), u, id))
    || (l.Ipc? && l.request == SessionClose(id))
    || (l.SessionRemoved? && id in OnTarget(st.registry, l.logindId))
    || l.Restart?
  }

  lemma LookupStep(cfg: Config, st: State, l: Label, u: Uid, id: Uuid)
    requires Inv(st) && Enabled(st, l)
    ensures Indexed(Step(cfg, st, l).registry, u, id) <==>
            Claimed(l, u, id) || (Indexed(st.registry, u, id) && !Displaced(st, l, u, id))
  {
    match l {
      case Ipc(SessionOpen(s), _) => ApplyIndexed(st.registry, Add(s), u, id);
      case Ipc(SessionClose(closed), _) => ApplyIndexed(st.registry, Remove(closed), u, id);
      case Ipc(UpdateSessionTarget(changed, t), _) => ApplyIndexed(st.registry, UpdateTarget(changed, t), u, id);
      case Restart(order) => RestoreIndexExactly(order, u, id);
      case _ =>
    }
  }

  /** Nothing from label `i` on has ended the claim by state `n`. */
  ghost predicate Kept(sts: seq<State>, ls: seq<Label>, i: nat, n: nat, u: Uid, id: Uuid)
    requires n <= |ls| <= |sts|
  {
    forall k :: i <= k < n ==> !Displaced(sts[k], ls[k], u, id)
  }

  ghost predicate ClaimedAt(sts: seq<State>, ls: seq<Label>, i: nat, n: nat, u: Uid, id: Uuid)
    requires n <= |ls| <= |sts|
  {
    i < n && Claimed(ls[i], u, id) && Kept(sts, ls, i + 1, n, u, id)
  }

  /** Over whole runs, logind removals and restarts included: a lookup by uid finds a session
      exactly when it holds the last claim on that uid that was not ended since. */
  lemma {:induction false} LookupsAreHistory(cfg: Config, sts: seq<State>, ls: seq<Label>, n: nat, u: Uid, id: Uuid)
    requires IsRun(cfg, sts, ls) && Inv(sts[0]) && n < |sts|
    ensures Indexed(sts[n].registry, u, id) <==>
            || (Indexed(sts[0].registry, u, id) && Kept(sts, ls, 0, n, u, id))
            || exists i: nat :: ClaimedAt(sts, ls, i, n, u, id)
  {
    if n > 0 {
      var p := n - 1;
      LookupsAreHistory(cfg, sts, ls, p, u, id);
      RunKeepsInv(cfg, sts, ls, p);
      assert Next(cfg, sts[p], ls[p], sts[n]);
      LookupStep(cfg, sts[p], ls[p], u, id);
      assert Kept(sts, ls, 0, n, u, id) <==> Kept(sts, ls, 0, p, u, id) && !Displaced(sts[p], ls[p], u, id);
      forall i: nat ensures ClaimedAt(sts, ls, i, n, u, id) <==>
                            (i == p && Claimed(ls[p], u, id))
                            || (ClaimedAt(sts, ls, i, p, u, id) && !Displaced(sts[p], ls[p], u, id)) {
      }
      if Claimed(ls[p], u, id) {
        assert ClaimedAt(sts, ls, p, n, u, id);
      }
    }
  }

  /** And what it finds is a tracked session of that uid. */
  lemma LookupsAreSound(cfg: Config, sts: seq<State>, ls: seq<Label>, n: nat, u: Uid, id: Uuid)
    requires IsRun(cfg, sts, ls) && Inv(sts[0]) && n < |sts| && Indexed(sts[n].registry, u, id)
    ensures u != 0 && id in sts[n].registry.byId && sts[n].registry.byId[id].uid == u
  {
    RunKeepsInv(cfg, sts, ls, n);
  }
}
