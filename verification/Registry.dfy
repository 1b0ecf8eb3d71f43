/** The active-session registry: a primary map and a reverse index by uid. */
module Registry {
  import opened Wrappers

  type Uuid = nat
  type Uid = u: nat | u < 0x1_0000_0000

  datatype SessionTarget = Tty(path: string) | Display(name: string) | LogindSession(id: string) | Unknown {
    function LogindId(): Option<string> {
      if LogindSession? then Some(id) else None
    }
  }

  datatype ActiveSession = ActiveSession(
    sessionId: Uuid, pamUser: string, pamService: string, target: SessionTarget,
    usbSerial: Option<string>, hostIdHash: string, openedAt: nat, certCn: string,
    certSerial: string, engineerSki: string, engineerCertSha256: string, uid: Uid)

  /** The two maps, as a value. */
  datatype Index = Index(byId: map<Uuid, ActiveSession>, byUid: map<Uid, Uuid>)

  const EMPTY: Index := Index(map[], map[])

  datatype Op = Add(session: ActiveSession) | Remove(id: Uuid) | UpdateTarget(id: Uuid, target: SessionTarget)

  // ------------------------------------------------ operations, as functions

  predicate Indexed(x: Index, u: Uid, id: Uuid) {
    u in x.byUid && x.byUid[u] == id
  }

  function Unindex(x: Index, u: Uid, id: Uuid): Index {
    if u != 0 && Indexed(x, u, id) then x.(byUid := x.byUid - {u}) else x
  }

  function Put(x: Index, s: ActiveSession): Index {
    Index(x.byId[s.sessionId := s], if s.uid != 0 then x.byUid[s.uid := s.sessionId] else x.byUid)
  }

  function Apply(x: Index, op: Op): Index {
    match op
    case Add(s) =>
      var id := s.sessionId;
      Put(if id in x.byId && x.byId[id].uid != s.uid then Unindex(x, x.byId[id].uid, id) else x, s)
    case Remove(id) =>
      if id in x.byId then Unindex(x.(byId := x.byId - {id}), x.byId[id].uid, id) else x
    case UpdateTarget(id, t) =>
      if id in x.byId then x.(byId := x.byId[id := x.byId[id].(target := t)]) else x
  }

  function Replay(x: Index, ops: seq<Op>): Index {
    if ops == [] then x else Apply(Replay(x, ops[..|ops| - 1]), ops[|ops| - 1])
  }

  lemma ReplaySnoc(x: Index, ops: seq<Op>, op: Op)
    ensures Replay(x, ops + [op]) == Apply(Replay(x, ops), op)
  {
    assert (ops + [op])[..|ops|] == ops;
  }

  /** Loading a snapshot inserts without looking for stale index entries. */
  function Restore(sessions: seq<ActiveSession>): Index {
    if sessions == [] then EMPTY else Put(Restore(sessions[..|sessions| - 1]), sessions[|sessions| - 1])
  }

  ghost function BoundTo(x: Index, serial: string): set<ActiveSession> {
    set s | s in x.byId.Values && s.usbSerial == Some(serial)
  }

  // ------------------------------------------------------------- invariants

  ghost predicate KeyedById(x: Index) {
    forall id :: id in x.byId ==> x.byId[id].sessionId == id
  }

  /** Every index entry points at a tracked session with that (nonzero) uid. */
  ghost predicate Sound(x: Index) {
    && KeyedById(x)
    && forall u :: u in x.byUid ==> u != 0 && x.byUid[u] in x.byId && x.byId[x.byUid[u]].uid == u
  }

  lemma ApplySound(x: Index, op: Op)
    requires Sound(x)
    ensures Sound(Apply(x, op))
  {
  }

  lemma {:induction false} ReplaySound(x: Index, ops: seq<Op>)
    requires Sound(x)
    ensures Sound(Replay(x, ops))
  {
    if ops != [] {
      ReplaySound(x, ops[..|ops| - 1]);
      ApplySound(Replay(x, ops[..|ops| - 1]), ops[|ops| - 1]);
    }
  }

  // ------------------------------------------- the index, read off a history

  /** Operations that end the claim of session `id` on uid `u`. */
  predicate Displaces(op: Op, u: Uid, id: Uuid) {
    match op
    case Add(s) => s.uid == u || s.sessionId == id
    case Remove(r) => r == id
    case UpdateTarget(_, _) => false
  }

  ghost predicate Undisturbed(ops: seq<Op>, from: nat, u: Uid, id: Uuid) {
    forall j :: from <= j < |ops| ==> !Displaces(ops[j], u, id)
  }

  predicate Claims(op: Op, u: Uid, id: Uuid) {
    op.Add? && u != 0 && op.session.uid == u && op.session.sessionId == id
  }

  /** `id` was the last session added under uid `u`, and has since been neither
      removed nor added again under another uid. */
  ghost predicate Owns(x: Index, ops: seq<Op>, u: Uid, id: Uuid) {
    || (Indexed(x, u, id) && Undisturbed(ops, 0, u, id))
    || exists i :: 0 <= i < |ops| && Claims(ops[i], u, id) && Undisturbed(ops, i + 1, u, id)
  }

  lemma OwnsStep(x: Index, ops: seq<Op>, op: Op, u: Uid, id: Uuid)
    ensures Owns(x, ops + [op], u, id) <==>
            Claims(op, u, id) || (Owns(x, ops, u, id) && !Displaces(op, u, id))
  {
    var all := ops + [op];
    assert all[|ops|] == op && forall j :: 0 <= j < |ops| ==> all[j] == ops[j];
    if Claims(op, u, id) {
      assert Claims(all[|ops|], u, id) && Undisturbed(all, |ops| + 1, u, id);
    }
    if Owns(x, ops, u, id) && !Displaces(op, u, id) {
      if i :| 0 <= i < |ops| && Claims(ops[i], u, id) && Undisturbed(ops, i + 1, u, id) {
        assert Claims(all[i], u, id) && Undisturbed(all, i + 1, u, id);
      } else {
        assert Undisturbed(all, 0, u, id);
      }
    }
    if Owns(x, all, u, id) && !Claims(op, u, id) {
      if i :| 0 <= i < |all| && Claims(all[i], u, id) && Undisturbed(all, i + 1, u, id) {
        assert i < |ops| && Claims(ops[i], u, id);
        assert Undisturbed(ops, i + 1, u, id) && !Displaces(all[|ops|], u, id);
      } else {
        assert Undisturbed(ops, 0, u, id) && !Displaces(all[|ops|], u, id);
      }
    }
  }

  /** What one operation does to the index. */
  lemma ApplyIndexed(x: Index, op: Op, u: Uid, id: Uuid)
    requires Sound(x)
    ensures Indexed(Apply(x, op), u, id) <==> Claims(op, u, id) || (Indexed(x, u, id) && !Displaces(op, u, id))
  {
  }

  /** After any sequence of operations the index holds exactly the claims the history gives. */
  lemma {:induction false} IndexIsHistory(x: Index, ops: seq<Op>, u: Uid, id: Uuid)
    requires Sound(x)
    ensures Indexed(Replay(x, ops), u, id) <==> Owns(x, ops, u, id)
  {
    if ops != [] {
      var (pre, op) := (ops[..|ops| - 1], ops[|ops| - 1]);
      assert ops == pre + [op];
      IndexIsHistory(x, pre, u, id);
      ReplaySound(x, pre);
      ApplyIndexed(Replay(x, pre), op, u, id);
      OwnsStep(x, pre, op, u, id);
    }
  }

  // ---------------------------------------- tracked sessions, off a history

  predicate Resets(op: Op, id: Uuid) {
    match op
    case Add(s) => s.sessionId == id
    case Remove(r) => r == id
    case UpdateTarget(_, _) => false
  }

  /** The session as it stands after the retargetings in `ops`. */
  function Retargeted(s: ActiveSession, ops: seq<Op>): ActiveSession {
    if ops == [] then s
    else
      var before := Retargeted(s, ops[..|ops| - 1]);
      var op := ops[|ops| - 1];
      if op.UpdateTarget? && op.id == s.sessionId then before.(target := op.target) else before
  }

  /** Operation `i` added session `id`, and nothing since added or removed it. */
  ghost predicate LastAdd(ops: seq<Op>, i: nat, id: Uuid) {
    && i < |ops| && ops[i].Add? && ops[i].session.sessionId == id
    && forall j :: i < j < |ops| ==> !Resets(ops[j], id)
  }

  lemma LastAddStep(ops: seq<Op>, op: Op, i: nat, id: Uuid)
    ensures LastAdd(ops + [op], i, id) <==>
            || (i == |ops| && op.Add? && op.session.sessionId == id)
            || (LastAdd(ops, i, id) && !Resets(op, id))
  {
    var all := ops + [op];
    assert all[|ops|] == op && forall j :: 0 <= j < |ops| ==> all[j] == ops[j];
    if LastAdd(all, i, id) && i < |ops| {
      assert !Resets(all[|ops|], id);
    }
  }

  lemma RetargetedStep(s: ActiveSession, ops: seq<Op>, op: Op)
    ensures Retargeted(s, ops + [op]) ==
            if op.UpdateTarget? && op.id == s.sessionId then Retargeted(s, ops).(target := op.target) else Retargeted(s, ops)
  {
    assert (ops + [op])[..|ops|] == ops;
  }

  /** From an empty registry, a session is present exactly when its last addition was not
      undone, and then as that addition gave it with the last target pushed since. */
  lemma {:induction false} SessionsAreHistory(ops: seq<Op>, id: Uuid)
    ensures id in Replay(EMPTY, ops).byId <==> exists i: nat :: LastAdd(ops, i, id)
    ensures forall i: nat :: LastAdd(ops, i, id) ==>
              Replay(EMPTY, ops).byId[id] == Retargeted(ops[i].session, ops[i + 1..])
  {
    if ops != [] {
      var (pre, op) := (ops[..|ops| - 1], ops[|ops| - 1]);
      assert ops == pre + [op];
      SessionsAreHistory(pre, id);
      ReplaySnoc(EMPTY, pre, op);
      ApplyAt(Replay(EMPTY, pre), op, id);
      LastAddStep(pre, op, |pre|, id);
      forall i: nat
        ensures LastAdd(ops, i, id) <==>
                (i == |pre| && op.Add? && op.session.sessionId == id) || (LastAdd(pre, i, id) && !Resets(op, id))
        ensures LastAdd(ops, i, id) ==>
                  Replay(EMPTY, ops).byId[id] == Retargeted(ops[i].session, ops[i + 1..])
      {
        LastAddStep(pre, op, i, id);
        if LastAdd(pre, i, id) {
          RetargetedStep(pre[i].session, pre[i + 1..], op);
          assert ops[i + 1..] == pre[i + 1..] + [op];
        }
      }
    }
  }

  /** What one operation does to the entry of one id. */
  lemma ApplyAt(x: Index, op: Op, id: Uuid)
    ensures id in Apply(x, op).byId <==> (op.Add? && op.session.sessionId == id) || (id in x.byId && !Resets(op, id))
    ensures op.Add? && op.session.sessionId == id ==> Apply(x, op).byId[id] == op.session
    ensures id in x.byId && !Resets(op, id) ==>
              Apply(x, op).byId[id] == if op.UpdateTarget? && op.id == id then x.byId[id].(target := op.target) else x.byId[id]
  {
  }

  // -------------------------------------------------------------- snapshots

  ghost predicate DistinctIds(sessions: seq<ActiveSession>) {
    forall i, j :: 0 <= i < j < |sessions| ==> sessions[i].sessionId != sessions[j].sessionId
  }

  lemma PutFresh(x: Index, s: ActiveSession)
    requires Sound(x) && s.sessionId !in x.byId
    ensures Sound(Put(x, s))
    ensures Put(x, s).byId.Values == x.byId.Values + {s}
  {
    var y := Put(x, s);
    assert y.byId[s.sessionId] == s;
    forall t | t in x.byId.Values ensures t in y.byId.Values {
      assert y.byId[t.sessionId] == t;
    }
  }

  /** Restoring sessions with distinct ids tracks exactly those sessions, under a sound
      index that has an entry for every nonzero uid present. */
  lemma {:induction false} RestoreDistinct(sessions: seq<ActiveSession>)
    requires DistinctIds(sessions)
    ensures Sound(Restore(sessions))
    ensures Restore(sessions).byId.Values == set s | s in sessions
    ensures forall s :: s in sessions && s.uid != 0 ==> s.uid in Restore(sessions).byUid
  {
    if sessions != [] {
      var (pre, last) := (sessions[..|sessions| - 1], sessions[|sessions| - 1]);
      RestoreDistinct(pre);
      var x := Restore(pre);
      assert sessions == pre + [last];
      FreshId(x, pre, last);
      PutFresh(x, last);
    }
  }

  lemma FreshId(x: Index, pre: seq<ActiveSession>, last: ActiveSession)
    requires DistinctIds(pre + [last]) && x.byId.Values == (set s | s in pre) && KeyedById(x)
    ensures last.sessionId !in x.byId
  {
    forall id | id in x.byId ensures id != last.sessionId {
      assert x.byId[id] in x.byId.Values;
      var i :| 0 <= i < |pre| && pre[i] == x.byId[id];
      assert (pre + [last])[i].sessionId != (pre + [last])[|pre|].sessionId;
    }
  }

  /** Restoring any listing of a registry's sessions gives back the same sessions. */
  lemma RestoreInverts(x: Index, sessions: seq<ActiveSession>)
    requires KeyedById(x) && Enumerates(sessions, x.byId.Values)
    ensures DistinctIds(sessions)
    ensures Restore(sessions).byId == x.byId
    ensures Sound(Restore(sessions))
    ensures forall s :: s in x.byId.Values && s.uid != 0 ==> s.uid in Restore(sessions).byUid
  {
    forall i, j | 0 <= i < j < |sessions| ensures sessions[i].sessionId != sessions[j].sessionId {
      assert sessions[i] in x.byId.Values && sessions[j] in x.byId.Values;
    }
    RestoreDistinct(sessions);
    var y := Restore(sessions);
    forall id ensures id in x.byId <==> id in y.byId {
      if id in x.byId {
        assert x.byId[id] in x.byId.Values && x.byId[id] in y.byId.Values;
      }
      if id in y.byId {
        assert y.byId[id] in y.byId.Values && y.byId[id] in x.byId.Values;
      }
    }
    forall id | id in x.byId ensures x.byId[id] == y.byId[id] {
      assert y.byId[id] in y.byId.Values && y.byId[id] in x.byId.Values;
    }
  }

  /** Session `i` of a listing is the last with its (nonzero) uid. */
  ghost predicate LastOfUid(sessions: seq<ActiveSession>, i: nat) {
    i < |sessions| && sessions[i].uid != 0 && forall k :: i < k < |sessions| ==> sessions[k].uid != sessions[i].uid
  }

  ghost predicate LastOfId(sessions: seq<ActiveSession>, j: nat) {
    j < |sessions| && forall k :: j < k < |sessions| ==> sessions[k].sessionId != sessions[j].sessionId
  }

  /** Sessions that are last for their uid are not replaced under their id by one of another uid. */
  ghost predicate Settled(sessions: seq<ActiveSession>) {
    forall i: nat, j: nat :: LastOfUid(sessions, i) && LastOfId(sessions, j) && sessions[i].sessionId == sessions[j].sessionId ==>
      sessions[i].uid == sessions[j].uid
  }

  lemma {:induction false} RestoredAt(sessions: seq<ActiveSession>, i: nat)
    requires i < |sessions|
    ensures sessions[i].sessionId in Restore(sessions).byId
    ensures LastOfUid(sessions, i) ==> Indexed(Restore(sessions), sessions[i].uid, sessions[i].sessionId)
    ensures LastOfId(sessions, i) ==> Restore(sessions).byId[sessions[i].sessionId] == sessions[i]
  {
    if i < |sessions| - 1 {
      RestoredAt(sessions[..|sessions| - 1], i);
    }
  }

  lemma {:induction false} RestoredUid(sessions: seq<ActiveSession>, u: Uid) returns (i: nat)
    requires u in Restore(sessions).byUid
    ensures LastOfUid(sessions, i) && sessions[i].uid == u
  {
    i := |sessions| - 1;
    if sessions[i].uid != u || u == 0 {
      i := RestoredUid(sessions[..|sessions| - 1], u);
    }
  }

  lemma {:induction false} RestoredId(sessions: seq<ActiveSession>, id: Uuid) returns (j: nat)
    requires id in Restore(sessions).byId
    ensures LastOfId(sessions, j) && sessions[j].sessionId == id
  {
    j := |sessions| - 1;
    if sessions[j].sessionId != id {
      j := RestoredId(sessions[..|sessions| - 1], id);
    }
  }

  /** Loading gives a sound index for exactly the settled listings. */
  lemma RestoreSoundExactly(sessions: seq<ActiveSession>)
    ensures Sound(Restore(sessions)) <==> Settled(sessions)
  {
    var x := Restore(sessions);
    forall i: nat, j: nat | LastOfUid(sessions, i) && LastOfId(sessions, j) && sessions[i].sessionId == sessions[j].sessionId
      ensures Sound(x) ==> sessions[i].uid == sessions[j].uid
    {
      RestoredAt(sessions, i);
      RestoredAt(sessions, j);
    }
    forall id | id in x.byId ensures x.byId[id].sessionId == id {
      var j := RestoredId(sessions, id);
      RestoredAt(sessions, j);
    }
    forall u | u in x.byUid && Settled(sessions) ensures u != 0 && x.byUid[u] in x.byId && x.byId[x.byUid[u]].uid == u {
      var i := RestoredUid(sessions, u);
      RestoredAt(sessions, i);
      var j := RestoredId(sessions, sessions[i].sessionId);
      RestoredAt(sessions, j);
    }
  }

  /** Entries that share an id are the same session. */
  ghost predicate Consistent(sessions: seq<ActiveSession>) {
    forall i, j :: 0 <= i < j < |sessions| && sessions[i].sessionId == sessions[j].sessionId ==> sessions[i] == sessions[j]
  }

  /** Loading keeps all listed sessions exactly when the listing is consistent. */
  lemma RestoreKeepsExactly(sessions: seq<ActiveSession>)
    ensures Consistent(sessions) ==> Sound(Restore(sessions))
    ensures Restore(sessions).byId.Values == (set s | s in sessions) <==> Consistent(sessions)
  {
    var x := Restore(sessions);
    RestoreSoundExactly(sessions);
    forall s | s in x.byId.Values ensures s in sessions && s.sessionId in x.byId && x.byId[s.sessionId] == s {
      var id :| id in x.byId && x.byId[id] == s;
      var j := RestoredId(sessions, id);
      RestoredAt(sessions, j);
    }
    forall i | 0 <= i < |sessions| && Consistent(sessions) ensures sessions[i] in x.byId.Values {
      RestoredAt(sessions, i);
      var j := RestoredId(sessions, sessions[i].sessionId);
      RestoredAt(sessions, j);
    }
  }

  /** After loading, a uid is indexed with the last listed session that has it. */
  lemma RestoreIndexExactly(sessions: seq<ActiveSession>, u: Uid, id: Uuid)
    ensures Indexed(Restore(sessions), u, id) <==>
            exists i: nat :: LastOfUid(sessions, i) && sessions[i].uid == u && sessions[i].sessionId == id
  {
    if u in Restore(sessions).byUid {
      var i := RestoredUid(sessions, u);
      RestoredAt(sessions, i);
    }
    forall i: nat | LastOfUid(sessions, i) ensures Indexed(Restore(sessions), sessions[i].uid, sessions[i].sessionId) {
      RestoredAt(sessions, i);
    }
  }

  /** The shortest unsettled listing: it repeats an id under another uid, which leaves a stale
      index entry behind, and a lookup by the old uid then hits the newer session. */
  lemma RepeatedIdIsUnsound(a: ActiveSession, b: ActiveSession)
    requires a.sessionId == b.sessionId && a.uid != b.uid && a.uid != 0
    ensures var x := Restore([a, b]);
            Indexed(x, a.uid, b.sessionId) && x.byId[b.sessionId].uid != a.uid && !Sound(x)
  {
    assert [a, b][..1] == [a] && [a][..0] == [];
    assert Restore([a]) == Put(EMPTY, a);
    assert Restore([a, b]) == Put(Put(EMPTY, a), b);
  }

  // -------------------------------------------------------------- the class

  class SessionRegistry {
    var byId: map<Uuid, ActiveSession>
    var byUid: map<Uid, Uuid>
    ghost var initial: Index
    ghost var history: seq<Op>

    function State(): Index
      reads this
    {
      Index(byId, byUid)
    }

    /** The maps are what the recorded history makes of a sound starting point. */
    ghost predicate Valid()
      reads this
    {
      Sound(initial) && State() == Replay(initial, history)
    }

    constructor ()
      ensures Valid() && State() == EMPTY && history == []
    {
      byId, byUid, initial, history := map[], map[], EMPTY, [];
    }

    constructor FromSnapshot(sessions: seq<ActiveSession>)
      ensures State() == Restore(sessions) == initial && history == []
      ensures Valid() <==> Settled(sessions)
    {
      byId, byUid, history := map[], map[], [];
      new;
      for i := 0 to |sessions|
        invariant State() == Restore(sessions[..i]) && history == []
      {
        var s := sessions[i];
        assert sessions[..i + 1][..i] == sessions[..i];
        if s.uid != 0 {
          byUid := byUid[s.uid := s.sessionId];
        }
        byId := byId[s.sessionId := s];
      }
      assert sessions[..|sessions|] == sessions;
      initial := State();
      RestoreSoundExactly(sessions);
    }

    ghost method Record(op: Op)
      requires Sound(initial) && State() == Apply(Replay(initial, history), op)
      modifies this`history
      ensures Valid() && history == old(history) + [op]
    {
      ReplaySnoc(initial, history, op);
      history := history + [op];
    }

    method AddSession(s: ActiveSession)
      requires Valid()
      modifies this
      ensures Valid() && initial == old(initial) && history == old(history) + [Add(s)]
      ensures State() == Apply(old(State()), Add(s))
    {
      if s.sessionId in byId {
        var existing := byId[s.sessionId];
        if existing.uid != 0 && existing.uid != s.uid && existing.uid in byUid && byUid[existing.uid] == s.sessionId {
          byUid := byUid - {existing.uid};
        }
      }
      if s.uid != 0 {
        byUid := byUid[s.uid := s.sessionId];
      }
      byId := byId[s.sessionId := s];
      Record(Add(s));
    }

    method RemoveSession(id: Uuid) returns (removed: Option<ActiveSession>)
      requires Valid()
      modifies this
      ensures Valid() && initial == old(initial) && history == old(history) + [Remove(id)]
      ensures State() == Apply(old(State()), Remove(id))
      ensures removed == if id in old(byId) then Some(old(byId)[id]) else None
    {
      if id !in byId {
        removed := None;
      } else {
        var s := byId[id];
        byId := byId - {id};
        if s.uid != 0 && s.uid in byUid && byUid[s.uid] == id {
          byUid := byUid - {s.uid};
        }
        removed := Some(s);
      }
      Record(Remove(id));
    }

    method SetTarget(id: Uuid, target: SessionTarget) returns (found: bool)
      requires Valid()
      modifies this
      ensures Valid() && initial == old(initial) && history == old(history) + [UpdateTarget(id, target)]
      ensures State() == Apply(old(State()), UpdateTarget(id, target))
      ensures found == (id in old(byId))
    {
      found := id in byId;
      if found {
        byId := byId[id := byId[id].(target := target)];
      }
      Record(UpdateTarget(id, target));
    }

    /** The indexed session: a hit is a tracked session with that uid, and it is the one the
        history gives; a miss means the history gives none. */
    method FindByUid(uid: Uid) returns (hit: Option<ActiveSession>)
      requires Valid()
      ensures hit == if uid in byUid && byUid[uid] in byId then Some(byId[byUid[uid]]) else None
      ensures hit.None? <==> forall id :: !Owns(initial, history, uid, id)
      ensures hit.Some? ==>
                && hit.value.uid == uid != 0
                && hit.value in byId.Values
                && Owns(initial, history, uid, hit.value.sessionId)
    {
      ReplaySound(initial, history);
      forall id ensures Indexed(State(), uid, id) <==> Owns(initial, history, uid, id) {
        IndexIsHistory(initial, history, uid, id);
      }
      if uid == 0 || uid !in byUid {
        hit := None;
      } else {
        var id := byUid[uid];
        hit := if id in byId then Some(byId[id]) else None;
        assert Indexed(State(), uid, id);
      }
    }

    method FindBySerial(serial: string) returns (found: seq<ActiveSession>)
      requires Valid()
      ensures Enumerates(found, BoundTo(State(), serial))
      ensures forall s :: s in found <==> s in byId.Values && s.usbSerial == Some(serial)
    {
      ReplaySound(initial, history);
      found := [];
      var rest := byId.Keys;
      while rest != {}
        invariant rest <= byId.Keys
        invariant forall s :: s in found <==> s in BoundTo(State(), serial) && s.sessionId !in rest
        invariant NoDuplicates(found)
        decreases rest
      {
        var id :| id in rest;
        var s := byId[id];
        if s.usbSerial == Some(serial) {
          found := found + [s];
        }
        rest := rest - {id};
      }
    }

    method Snapshot() returns (all: seq<ActiveSession>)
      requires Valid()
      ensures Enumerates(all, byId.Values)
    {
      ReplaySound(initial, history);
      all := [];
      var rest := byId.Keys;
      while rest != {}
        invariant rest <= byId.Keys
        invariant forall s :: s in all <==> s in byId.Values && s.sessionId !in rest
        invariant NoDuplicates(all)
        decreases rest
      {
        var id :| id in rest;
        all := all + [byId[id]];
        rest := rest - {id};
      }
    }
  }
}
