/** The monitor daemon's sessions, read off the labels of a run. */
module SessionHistory {
  import opened Wrappers
  import opened Registry
  import opened Monitor

  /** The label opens a session that is accepted: its device, if it names one, is present. */
  predicate Opens(l: Label) {
    l.Ipc? && l.request.SessionOpen? && (l.request.session.usbSerial.Some? ==> l.present)
  }

  predicate OpensId(l: Label, id: Uuid) {
    Opens(l) && l.request.session.sessionId == id
  }

  /** The label ends session `id` as it stands in `st`: it is opened anew, closed, or the logind
      session that is its target ends. */
  ghost predicate Ends(st: State, l: Label, id: Uuid) {
    || OpensId(l, id)
    || (l.Ipc? && l.request == SessionClose(id))
    || (l.SessionRemoved? && id in st.registry.byId && st.registry.byId[id].target == LogindSession(l.logindId))
  }

  predicate Retargets(l: Label, id: Uuid) {
    l.Ipc? && l.request.UpdateSessionTarget? && l.request.sessionId == id
  }

  lemma SessionStep(cfg: Config, st: State, l: Label, id: Uuid)
    requires Inv(st) && Enabled(st, l)
    ensures var x := Step(cfg, st, l).registry.byId;
            && (id in x <==> OpensId(l, id) || (id in st.registry.byId && !Ends(st, l, id)))
            && (OpensId(l, id) ==> x[id] == l.request.session)
            && (id in x && !OpensId(l, id) ==>
                  x[id] == if Retargets(l, id) then st.registry.byId[id].(target := l.request.newTarget) else st.registry.byId[id])
  {
    if l.Restart? {
      RestartKeepsInv(st, l.order);
    } else if l.SessionRemoved? {
      assert id in OnTarget(st.registry, l.logindId) <==> Ends(st, l, id);
    } else if l.Ipc? {
      IpcStep(st, l.request, l.present, id);
    }
  }

  lemma IpcStep(st: State, req: IpcRequest, present: bool, id: Uuid)
    ensures var (l, x) := (Ipc(req, present), OnIpc(st, req, present).registry.byId);
            && (id in x <==> OpensId(l, id) || (id in st.registry.byId && req != SessionClose(id)))
            && (OpensId(l, id) ==> x[id] == req.session)
            && (id in x && !OpensId(l, id) ==>
                  x[id] == if Retargets(l, id) then st.registry.byId[id].(target := req.newTarget) else st.registry.byId[id])
  {
    match req {
      case SessionOpen(s) => ApplyAt(st.registry, Add(s), id);
      case SessionClose(closed) => ApplyAt(st.registry, Remove(closed), id);
      case UpdateSessionTarget(changed, t) => ApplyAt(st.registry, UpdateTarget(changed, t), id);
      case _ =>
    }
  }

  /** Nothing from label `i` on ended the session by state `n`. */
  ghost predicate Lasts(sts: seq<State>, ls: seq<Label>, i: nat, n: nat, id: Uuid)
    requires n <= |ls| <= |sts|
  {
    forall k :: i <= k < n ==> !Ends(sts[k], ls[k], id)
  }

  /** Label `i` opened the session, and it lasts. */
  ghost predicate OpenedAt(sts: seq<State>, ls: seq<Label>, i: nat, n: nat, id: Uuid)
    requires n <= |ls| <= |sts|
  {
    i < n && OpensId(ls[i], id) && Lasts(sts, ls, i + 1, n, id)
  }

  /** The target last pushed for the session by the labels from `i` on, or else `first`. */
  function TargetAfter(first: SessionTarget, ls: seq<Label>, i: nat, n: nat, id: Uuid): SessionTarget
    requires n <= |ls|
    decreases n
  {
    if n <= i then first
    else if Retargets(ls[n - 1], id) then ls[n - 1].request.newTarget
    else TargetAfter(first, ls, i, n - 1, id)
  }

  /** The session, with the target last pushed from label `i` on. */
  function Current(s: ActiveSession, ls: seq<Label>, i: nat, n: nat): ActiveSession
    requires n <= |ls|
  {
    s.(target := TargetAfter(s.target, ls, i, n, s.sessionId))
  }

  lemma CurrentStep(s: ActiveSession, ls: seq<Label>, i: nat, n: nat)
    requires i < n <= |ls|
    ensures Current(s, ls, i, n) ==
            if Retargets(ls[n - 1], s.sessionId) then Current(s, ls, i, n - 1).(target := ls[n - 1].request.newTarget)
            else Current(s, ls, i, n - 1)
  {
  }

  /** One step of a session that it does not end. */
  lemma LastingStep(cfg: Config, sts: seq<State>, ls: seq<Label>, p: nat, id: Uuid)
    requires IsRun(cfg, sts, ls) && Inv(sts[0]) && p < |ls| && id in sts[p].registry.byId && !Ends(sts[p], ls[p], id)
    ensures id in sts[p + 1].registry.byId
    ensures var s := sts[p].registry.byId[id];
            sts[p + 1].registry.byId[id] == if Retargets(ls[p], id) then s.(target := ls[p].request.newTarget) else s
  {
    RunKeepsInv(cfg, sts, ls, p);
    assert Next(cfg, sts[p], ls[p], sts[p + 1]);
    SessionStep(cfg, sts[p], ls[p], id);
  }

  /** A session tracked at `i` and not ended since is tracked, as it was but for the target. */
  lemma {:induction false} TrackedSince(cfg: Config, sts: seq<State>, ls: seq<Label>, i: nat, n: nat, id: Uuid)
    requires IsRun(cfg, sts, ls) && Inv(sts[0]) && i <= n < |sts| && id in sts[i].registry.byId && Lasts(sts, ls, i, n, id)
    ensures id in sts[n].registry.byId && sts[n].registry.byId[id] == Current(sts[i].registry.byId[id], ls, i, n)
  {
    RunKeepsInv(cfg, sts, ls, i);
    if i < n {
      TrackedSince(cfg, sts, ls, i, n - 1, id);
      LastingStep(cfg, sts, ls, n - 1, id);
      CurrentStep(sts[i].registry.byId[id], ls, i, n);
    }
  }

  /** A session opened at `i` and not ended since is tracked, as opened but for the target. */
  lemma OpenedIsTracked(cfg: Config, sts: seq<State>, ls: seq<Label>, i: nat, n: nat, id: Uuid)
    requires IsRun(cfg, sts, ls) && Inv(sts[0]) && n < |sts| && OpenedAt(sts, ls, i, n, id)
    ensures id in sts[n].registry.byId && sts[n].registry.byId[id] == Current(ls[i].request.session, ls, i + 1, n)
  {
    RunKeepsInv(cfg, sts, ls, i);
    assert Next(cfg, sts[i], ls[i], sts[i + 1]);
    SessionStep(cfg, sts[i], ls[i], id);
    TrackedSince(cfg, sts, ls, i + 1, n, id);
  }

  lemma TrackedBefore(cfg: Config, sts: seq<State>, ls: seq<Label>, p: nat, id: Uuid)
    requires IsRun(cfg, sts, ls) && Inv(sts[0]) && p < |ls| && id in sts[p + 1].registry.byId && !OpensId(ls[p], id)
    ensures id in sts[p].registry.byId && !Ends(sts[p], ls[p], id)
  {
    RunKeepsInv(cfg, sts, ls, p);
    assert Next(cfg, sts[p], ls[p], sts[p + 1]);
    SessionStep(cfg, sts[p], ls[p], id);
  }

  /** A tracked session goes back to the start or to an opening. */
  lemma {:induction false} TrackedHasOrigin(cfg: Config, sts: seq<State>, ls: seq<Label>, n: nat, id: Uuid)
    requires IsRun(cfg, sts, ls) && Inv(sts[0]) && n < |sts| && id in sts[n].registry.byId
    ensures || (id in sts[0].registry.byId && Lasts(sts, ls, 0, n, id))
            || exists i: nat :: OpenedAt(sts, ls, i, n, id)
  {
    if n > 0 {
      var p := n - 1;
      if OpensId(ls[p], id) {
        assert OpenedAt(sts, ls, p, n, id);
      } else {
        TrackedBefore(cfg, sts, ls, p, id);
        TrackedHasOrigin(cfg, sts, ls, p, id);
        if i: nat :| OpenedAt(sts, ls, i, p, id) {
          assert OpenedAt(sts, ls, i, n, id);
        }
      }
    }
  }

  /** In every run a session is tracked exactly when its last accepted opening, or its listing at
      the start, was not ended since; it is as it was then, but for the last target pushed since.
      The file says the same. */
  lemma TrackedIsHistory(cfg: Config, sts: seq<State>, ls: seq<Label>, n: nat, id: Uuid)
    requires IsRun(cfg, sts, ls) && Inv(sts[0]) && n < |sts|
    ensures id in sts[n].registry.byId <==>
            || (id in sts[0].registry.byId && Lasts(sts, ls, 0, n, id))
            || exists i: nat :: OpenedAt(sts, ls, i, n, id)
    ensures id in sts[0].registry.byId && Lasts(sts, ls, 0, n, id) ==>
              sts[n].registry.byId[id] == Current(sts[0].registry.byId[id], ls, 0, n)
    ensures forall i: nat :: OpenedAt(sts, ls, i, n, id) ==>
              sts[n].registry.byId[id] == Current(ls[i].request.session, ls, i + 1, n)
    ensures sts[n].disk == sts[n].registry.byId.Values
  {
    RunKeepsInv(cfg, sts, ls, n);
    if id in sts[n].registry.byId {
      TrackedHasOrigin(cfg, sts, ls, n, id);
    }
    if id in sts[0].registry.byId && Lasts(sts, ls, 0, n, id) {
      TrackedSince(cfg, sts, ls, 0, n, id);
    }
    forall i: nat | OpenedAt(sts, ls, i, n, id)
      ensures id in sts[n].registry.byId && sts[n].registry.byId[id] == Current(ls[i].request.session, ls, i + 1, n)
    {
      OpenedIsTracked(cfg, sts, ls, i, n, id);
    }
  }
}
