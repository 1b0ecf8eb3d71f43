/** The monitor daemon's clock and suspend state, read off the labels of a run. */
module SuspendHistory {
  import opened Wrappers
  import opened Registry
  import opened Monitor

  // ------------------------------------------------------------------- clock

  /** The time that passes over the labels. */
  function Ticks(ls: seq<Label>): nat {
    if ls == [] then 0
    else Ticks(ls[..|ls| - 1]) + if ls[|ls| - 1].Tick? then ls[|ls| - 1].elapsed else 0
  }

  lemma {:induction false} ClockIsHistory(cfg: Config, sts: seq<State>, ls: seq<Label>, n: nat)
    requires IsRun(cfg, sts, ls) && n < |sts|
    ensures sts[n].now == sts[0].now + Ticks(ls[..n])
  {
    if n > 0 {
      ClockIsHistory(cfg, sts, ls, n - 1);
      assert Next(cfg, sts[n - 1], ls[n - 1], sts[n]);
      assert ls[..n][..n - 1] == ls[..n - 1];
    }
  }

  // ----------------------------------------------------------------- suspend

  predicate SetsSuspend(l: Label) {
    l.PrepareForSleep? || l.Restart?
  }

  /** Label `i` is the last before `n` that says anything about sleep: logind's or a new process. */
  ghost predicate LastSet(ls: seq<Label>, i: nat, n: nat)
    requires n <= |ls|
  {
    i < n && SetsSuspend(ls[i]) && forall k :: i < k < n ==> !SetsSuspend(ls[k])
  }

  ghost predicate NeverSet(ls: seq<Label>, n: nat)
    requires n <= |ls|
  {
    forall k :: 0 <= k < n ==> !SetsSuspend(ls[k])
  }

  lemma {:induction false} LastSetExists(ls: seq<Label>, n: nat) returns (i: nat)
    requires n <= |ls| && !NeverSet(ls, n)
    ensures LastSet(ls, i, n)
  {
    i := n - 1;
    if !SetsSuspend(ls[i]) {
      i := LastSetExists(ls, n - 1);
    }
  }

  /** What a label that sets the suspend state sets it to. */
  ghost predicate SetTo(l: Label, at: Instant, s: SuspendState) {
    if l == PrepareForSleep(true) then s == SuspendingAt(at)
    else if l == PrepareForSleep(false) then s == ResumedAt(at)
    else s == Awake
  }

  lemma SuspendStep(cfg: Config, st: State, l: Label)
    ensures var s := Step(cfg, st, l).suspend;
            if SetsSuspend(l) then SetTo(l, st.now, s) else s == st.suspend
  {
  }

  /** In every run the suspend state is the one that the last such label gives, with its instant. */
  lemma {:induction false} SuspendIsHistory(cfg: Config, sts: seq<State>, ls: seq<Label>, i: nat, n: nat)
    requires IsRun(cfg, sts, ls) && n < |sts| && LastSet(ls, i, n)
    ensures SetTo(ls[i], sts[i].now, sts[n].suspend)
  {
    assert Next(cfg, sts[n - 1], ls[n - 1], sts[n]);
    SuspendStep(cfg, sts[n - 1], ls[n - 1]);
    if i < n - 1 {
      SuspendIsHistory(cfg, sts, ls, i, n - 1);
    }
  }

  /** Without such a label it is that of the start. */
  lemma {:induction false} SuspendUntouched(cfg: Config, sts: seq<State>, ls: seq<Label>, n: nat)
    requires IsRun(cfg, sts, ls) && n < |sts| && NeverSet(ls, n)
    ensures sts[n].suspend == sts[0].suspend
  {
    if n > 0 {
      assert Next(cfg, sts[n - 1], ls[n - 1], sts[n]);
      SuspendStep(cfg, sts[n - 1], ls[n - 1]);
      SuspendUntouched(cfg, sts, ls, n - 1);
    }
  }

  /** Removals count at `n`, from labels and clock readings: the last word on sleep is a restart, or
      a resume at least the suspend grace ago; or there was none since a start outside any window. */
  ghost predicate Attentive(cfg: Config, sts: seq<State>, ls: seq<Label>, n: nat)
    requires n <= |ls| < |sts|
  {
    && (NeverSet(ls, n) ==> !sts[0].suspend.InGraceWindow(sts[n].now, cfg.suspendGraceSeconds))
    && forall i: nat :: LastSet(ls, i, n) ==>
         || ls[i].Restart?
         || (ls[i] == PrepareForSleep(false) && sts[i].now + cfg.suspendGraceSeconds * 1_000_000_000 <= sts[n].now)
  }

  lemma {:induction false} ClockIsMonotone(cfg: Config, sts: seq<State>, ls: seq<Label>, i: nat, j: nat)
    requires IsRun(cfg, sts, ls) && i <= j < |sts|
    ensures sts[i].now <= sts[j].now
  {
    if i < j {
      ClockIsMonotone(cfg, sts, ls, i, j - 1);
      assert Next(cfg, sts[j - 1], ls[j - 1], sts[j]);
    }
  }

  lemma AttentiveExactly(cfg: Config, sts: seq<State>, ls: seq<Label>, n: nat)
    requires IsRun(cfg, sts, ls) && n < |sts|
    ensures Attentive(cfg, sts, ls, n) <==> !sts[n].suspend.InGraceWindow(sts[n].now, cfg.suspendGraceSeconds)
  {
    if NeverSet(ls, n) {
      SuspendUntouched(cfg, sts, ls, n);
    } else {
      var i := LastSetExists(ls, n);
      SuspendIsHistory(cfg, sts, ls, i, n);
      ClockIsMonotone(cfg, sts, ls, i, n);
      assert forall k: nat :: LastSet(ls, k, n) ==> k == i;
    }
  }
}
