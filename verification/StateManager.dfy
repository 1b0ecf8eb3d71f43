/** The state-manager task: handlers that update the daemon's fields in place, each
    proved to take exactly the step the transition system takes. */
module StateManager {
  import opened Wrappers
  import opened Registry
  import opened Monitor

  datatype ErrorCode = NoActiveSession | DeviceGone | BadRequest

  datatype ServerMessage =
    | HelloAck | Pong | Ack
    | ActiveSessionInfo(sessionId: Uuid, certCn: string, engineerSki: string, engineerCertSha256: string, hostIdHash: string)
    | SessionTargetUpdated(updatedId: Uuid)
    | Error(code: ErrorCode)

  function Describe(s: ActiveSession): ServerMessage {
    ActiveSessionInfo(s.sessionId, s.certCn, s.engineerSki, s.engineerCertSha256, s.hostIdHash)
  }

  /** Removing one more session from an index that already lost `done`. */
  lemma DropOneMore(x: Index, done: set<Uuid>, id: Uuid)
    requires Sound(x)
    ensures Registry.Apply(DropAll(x, done), Remove(id)) == DropAll(x, done + {id})
  {
    var (a, b) := (Registry.Apply(DropAll(x, done), Remove(id)), DropAll(x, done + {id}));
    assert a.byId == b.byId;
    assert a.byUid == b.byUid;
  }

  class Manager {
    const cfg: Config
    const registry: SessionRegistry
    var disk: set<ActiveSession>
    var graceTokens: map<Serial, Token>
    var timers: map<Token, Timer>
    var cancelled: set<Token>
    var nextToken: Token
    var suspend: SuspendState
    var now: Instant
    var sent: seq<Dispatch>
    var running: bool

    ghost function Timing(): Grace
      reads this
    {
      Grace(graceTokens, timers, cancelled, nextToken)
    }

    ghost function St(): State
      reads this, registry
    {
      State(registry.State(), disk, Timing(), suspend, now, sent, running)
    }

    ghost predicate Valid()
      reads this, registry
    {
      registry.Valid() && Inv(St())
    }

    constructor (cfg: Config, loaded: seq<ActiveSession>, at: Instant)
      ensures fresh(registry) && this.cfg == cfg && St() == Initial(loaded, at)
      ensures Valid() <==> Consistent(loaded)
    {
      this.cfg := cfg;
      registry := new SessionRegistry.FromSnapshot(loaded);
      disk := set s | s in loaded;
      graceTokens, timers, cancelled, nextToken := map[], map[], {}, 0;
      suspend, now, sent, running := Awake, at, [], true;
      new;
      InitialInv(loaded, at);
      RestoreSoundExactly(loaded);
    }

    /** Writes the registry's sessions to the store. */
    method Persist()
      requires registry.Valid()
      modifies this`disk
      ensures disk == registry.byId.Values
    {
      var snapshot := registry.Snapshot();
      disk := set s | s in snapshot;
    }

    method HandleIpc(req: IpcRequest, present: bool) returns (reply: ServerMessage)
      requires Valid() && running
      modifies this, registry
      ensures Valid() && St() == Step(cfg, old(St()), Ipc(req, present))
      ensures req.Hello? ==> reply == HelloAck
      ensures req.Ping? ==> reply == Pong
      ensures req.SessionOpen? ==> reply == if req.session.usbSerial.Some? && !present then Error(DeviceGone) else Ack
      ensures req.SessionClose? ==> reply == Ack
      ensures req.UpdateSessionTarget? ==>
                reply == if req.sessionId in old(registry.byId) then SessionTargetUpdated(req.sessionId) else Error(BadRequest)
      ensures req.GetActiveSessionByUid? ==>
                if req.uid !in registry.byUid then reply == Error(NoActiveSession)
                else
                  var s := registry.byId[registry.byUid[req.uid]];
                  && reply.ActiveSessionInfo? && reply.sessionId == s.sessionId && reply.certCn == s.certCn
                  && reply.engineerSki == s.engineerSki && reply.engineerCertSha256 == s.engineerCertSha256
                  && reply.hostIdHash == s.hostIdHash
    {
      StepKeepsInv(cfg, St(), Ipc(req, present));
      match req {
        case Hello => reply := HelloAck;
        case Ping => reply := Pong;
        case GetActiveSessionByUid(uid) =>
          var hit := registry.FindByUid(uid);
          reply := if hit.Some? then Describe(hit.value) else Error(NoActiveSession);
        case SessionOpen(session) =>
          if session.usbSerial.Some? && !present {
            reply := Error(DeviceGone);
          } else {
            registry.AddSession(session);
            Persist();
            reply := Ack;
          }
        case SessionClose(id) =>
          var _ := registry.RemoveSession(id);
          Persist();
          reply := Ack;
        case UpdateSessionTarget(id, target) =>
          var found := registry.SetTarget(id, target);
          if found {
            Persist();
            reply := SessionTargetUpdated(id);
          } else {
            reply := Error(BadRequest);
          }
      }
    }

    /** Spawns the grace timer of `serial` for the sessions bound to it now. */
    method StartTimer(serial: Serial, sessions: seq<ActiveSession>)
      modifies this`graceTokens, this`timers, this`nextToken
      ensures Timing() == Arm(old(Timing()), serial, sessions, now + Seconds(cfg.graceSeconds))
    {
      var token := nextToken;
      nextToken := nextToken + 1;
      graceTokens := graceTokens[serial := token];
      timers := timers[token := Timer(serial, sessions, now + Seconds(cfg.graceSeconds))];
    }

    method CancelTimer(serial: Serial)
      modifies this`graceTokens, this`cancelled
      ensures Timing() == Disarm(old(Timing()), serial)
    {
      if serial in graceTokens {
        var token := graceTokens[serial];
        graceTokens := graceTokens - {serial};
        cancelled := cancelled + {token};
      }
    }

    method HandleUdev(action: UdevAction, serial: Option<Serial>) returns (ghost order: seq<ActiveSession>)
      requires Valid() && running
      modifies this
      ensures Valid() && Enabled(old(St()), Udev(action, serial, order))
      ensures St() == Step(cfg, old(St()), Udev(action, serial, order))
    {
      ghost var before := St();
      order := [];
      if serial.Some? && action.Unplug? {
        order := HandleUnplug(serial.value);
      } else if serial.Some? && action.Plug? {
        CancelTimer(serial.value);
      }
      StepKeepsInv(cfg, before, Udev(action, serial, order));
    }

    method HandleUnplug(serial: Serial) returns (ghost order: seq<ActiveSession>)
      requires Valid() && running
      modifies this
      ensures Enumerates(order, BoundTo(old(St()).registry, serial))
      ensures St() == OnUnplug(cfg, old(St()), serial, order)
    {
      var sessions := registry.FindBySerial(serial);
      order := sessions;
      if suspend.InGraceWindow(now, cfg.suspendGraceSeconds) {
        return;
      }
      if sessions == [] {
        return;
      }
      assert sessions[0] in BoundTo(St().registry, serial);
      if serial in graceTokens {
        return;
      }
      StartTimer(serial, sessions);
    }

    /** Takes every token out of the map and cancels it. */
    method DrainTokens()
      modifies this`graceTokens, this`cancelled
      ensures graceTokens == map[]
      ensures cancelled == old(cancelled) + old(graceTokens).Values
    {
      while graceTokens != map[]
        invariant cancelled + graceTokens.Values == old(cancelled) + old(graceTokens).Values
        decreases graceTokens.Keys
      {
        var serial :| serial in graceTokens;
        var token := graceTokens[serial];
        ghost var before := graceTokens;
        graceTokens := graceTokens - {serial};
        cancelled := cancelled + {token};
        assert before.Values == graceTokens.Values + {token} by { TakeOut(before, serial); }
      }
    }

    method HandlePrepareForSleep(starting: bool)
      requires Valid() && running
      modifies this
      ensures Valid() && St() == Step(cfg, old(St()), PrepareForSleep(starting))
    {
      StepKeepsInv(cfg, St(), PrepareForSleep(starting));
      if starting {
        suspend := SuspendingAt(now);
        DrainTokens();
      } else {
        suspend := ResumedAt(now);
      }
    }

    method RemoveAll(ids: set<Uuid>)
      requires registry.Valid()
      modifies registry
      ensures registry.Valid() && registry.State() == DropAll(old(registry.State()), ids)
    {
      ghost var x := registry.State();
      ReplaySound(registry.initial, registry.history);
      ghost var done: set<Uuid> := {};
      var rest := ids;
      assert x == DropAll(x, done);
      while rest != {}
        invariant registry.Valid() && done + rest == ids
        invariant registry.State() == DropAll(x, done)
        decreases rest
      {
        var id :| id in rest;
        var _ := registry.RemoveSession(id);
        DropOneMore(x, done, id);
        rest, done := rest - {id}, done + {id};
      }
      assert done == ids;
    }

    method HandleSessionRemoved(logindId: string)
      requires Valid() && running
      modifies this, registry
      ensures Valid() && St() == Step(cfg, old(St()), SessionRemoved(logindId))
    {
      ghost var before := St();
      var all := registry.Snapshot();
      var ids := set s | s in all && s.target.LogindId() == Some(logindId) :: s.sessionId;
      TargetsOfSnapshot(before.registry, all, logindId);
      if ids != {} {
        RemoveAll(ids);
        Persist();
      }
      StepKeepsInv(cfg, before, SessionRemoved(logindId));
    }

    /** The sleep branch of a grace timer's task. */
    method TimerExpires(token: Token)
      requires Valid() && Enabled(St(), Fire(token))
      modifies this
      ensures Valid() && St() == Step(cfg, old(St()), Fire(token))
    {
      StepKeepsInv(cfg, St(), Fire(token));
      var timer := timers[token];
      timers := timers - {token};
      for i := 0 to |timer.sessions|
        invariant timers == old(timers) - {token}
        invariant sent == old(sent) + Batch(cfg, timer, now)[..i]
        invariant unchanged(this`disk, this`graceTokens, this`cancelled, this`nextToken, this`suspend, this`now, this`running)
      {
        sent := sent + [Dispatch(timer.serial, timer.sessions[i], cfg.onUsbRemoved, now)];
        assert Batch(cfg, timer, now)[..i + 1] == Batch(cfg, timer, now)[..i] + [Batch(cfg, timer, now)[i]];
      }
      assert Batch(cfg, timer, now)[..|timer.sessions|] == Batch(cfg, timer, now);
    }

    /** Leaving the event loop cancels every outstanding timer. */
    method StopLoop()
      requires Valid() && running
      modifies this
      ensures Valid() && St() == Step(cfg, old(St()), ShutDown)
    {
      StepKeepsInv(cfg, St(), ShutDown);
      DrainTokens();
      running := false;
    }
  }

  lemma TakeOut(m: map<Serial, Token>, serial: Serial)
    requires serial in m
    ensures m.Values == (m - {serial}).Values + {m[serial]}
  {
    var rest := m - {serial};
    forall t | t in m.Values ensures t in rest.Values + {m[serial]} {
      var s :| s in m && m[s] == t;
      if s != serial {
        assert s in rest && rest[s] == t;
      }
    }
  }

  lemma TargetsOfSnapshot(x: Index, all: seq<ActiveSession>, logindId: string)
    requires KeyedById(x) && Enumerates(all, x.byId.Values)
    ensures (set s | s in all && s.target.LogindId() == Some(logindId) :: s.sessionId) == OnTarget(x, logindId)
  {
    forall id | id in OnTarget(x, logindId)
      ensures id in set s | s in all && s.target.LogindId() == Some(logindId) :: s.sessionId
    {
      assert x.byId[id] in x.byId.Values;
    }
  }
}
