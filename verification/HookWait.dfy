/** Supervising a hook process: poll for its exit, ask it to stop at the deadline, kill it
    two seconds later. */
module HookWait {
  import opened Wrappers

  const TERM_GRACE: nat := 2_000_000_000

  datatype WaitStatus = Exited(code: int) | Signaled(signo: int) | OtherStatus

  /** Answers of `waitpid`; only the non-blocking form can say that the child is alive. */
  datatype WaitAnswer = StillAlive | Changed(status: WaitStatus) | Interrupted | WaitErrno(errno: int)

  type BlockingAnswer = a: WaitAnswer | !a.StillAlive? witness Interrupted

  datatype KillAnswer = Delivered | NoSuchGroup | KillErrno(errno: int)

  datatype Signal = Term | Kill

  /** What the supervisor did and was told. */
  datatype Event =
    | Clock(t: nat)
    | Waited(blocking: bool, answer: WaitAnswer)
    | Sent(signal: Signal, reply: KillAnswer)

  datatype ExitStatus = ExitStatus(code: Option<int>, signal: Option<int>)

  function FromWaitStatus(ws: WaitStatus): ExitStatus {
    match ws
    case Exited(code) => ExitStatus(Some(code), None)
    case Signaled(signo) => ExitStatus(None, Some(signo))
    case OtherStatus => ExitStatus(None, None)
  }

  /** `Pending` stands for a run that the answers given so far do not finish. */
  datatype Verdict =
    | Done(status: ExitStatus, killedByTimeout: bool, elapsed: nat)
    | Failed(errno: int)
    | Pending

  type Trace = seq<Event>

  // ------------------------------------------------------ the system's answers

  /** What the system will say, call by call. */
  datatype Script = Script(polls: seq<WaitAnswer>, reaps: seq<BlockingAnswer>, clocks: seq<nat>, kills: seq<KillAnswer>)

  predicate Possible(e: Event) {
    e.Waited? && e.blocking ==> !e.answer.StillAlive?
  }

  /** A script that gives the answer of `e` first. */
  function Before(e: Event, rest: Script): Script
    requires Possible(e)
  {
    match e
    case Clock(t) => rest.(clocks := [t] + rest.clocks)
    case Waited(blocking, a) => if blocking then rest.(reaps := [a] + rest.reaps) else rest.(polls := [a] + rest.polls)
    case Sent(_, reply) => rest.(kills := [reply] + rest.kills)
  }

  /** The answers in a trace, followed by those still to come. */
  function Told(tr: Trace, rest: Script): Script
    requires forall i :: 0 <= i < |tr| ==> Possible(tr[i])
  {
    if tr == [] then rest else Before(tr[0], Told(tr[1..], rest))
  }

  // ------------------------------------------------------------ the protocol

  /** Where the supervisor stands; `killed` says that SIGTERM was sent. */
  datatype Phase =
    | Begin
    | Polling(start: nat, deadline: nat, killed: bool)
    | Checking(start: nat, deadline: nat, killed: bool)
    | Signalling(start: nat, killed: bool)
    | Termed(start: nat)
    | Reaping(start: nat)
    | Stopping(start: nat, status: WaitStatus, killed: bool)
    | Over(v: Verdict)

  /** The next call of each phase, with any answer to it. */
  predicate Fits(p: Phase, e: Event) {
    match p
    case Begin => e.Clock?
    case Polling(_, _, _) => e.Waited? && !e.blocking
    case Checking(_, _, _) => e.Clock?
    case Signalling(_, killed) => e.Sent? && e.signal == if killed then Kill else Term
    case Termed(_) => e.Clock?
    case Reaping(_) => e.Waited? && e.blocking && !e.answer.StillAlive?
    case Stopping(_, _, _) => e.Clock?
    case Over(_) => false
  }

  function After(p: Phase, e: Event, timeout: nat): Phase
    requires Fits(p, e)
  {
    match p
    case Begin => Polling(e.t, e.t + timeout, false)
    case Polling(start, deadline, killed) =>
      (match e.answer
       case StillAlive => Checking(start, deadline, killed)
       case Changed(ws) => Stopping(start, ws, killed)
       case Interrupted => p
       case WaitErrno(errno) => Over(Failed(errno)))
    case Checking(start, deadline, killed) =>
      if e.t >= deadline then Signalling(start, killed) else Polling(start, deadline, killed)
    case Signalling(start, killed) =>
      if e.reply.KillErrno? then Over(Failed(e.reply.errno)) else if killed then Reaping(start) else Termed(start)
    case Termed(start) => Polling(start, e.t + TERM_GRACE, true)
    case Reaping(start) =>
      (match e.answer
       case Changed(ws) => Stopping(start, ws, true)
       case Interrupted => p
       case WaitErrno(errno) => Over(Failed(errno)))
    case Stopping(start, ws, killed) => Over(Done(FromWaitStatus(ws), killed, Elapsed(e.t, start)))
  }

  /** The trace is one the protocol takes from phase `p`. */
  predicate Follows(p: Phase, tr: Trace, timeout: nat)
    decreases |tr|
  {
    tr == [] || (Fits(p, tr[0]) && Follows(After(p, tr[0], timeout), tr[1..], timeout))
  }

  function Reach(p: Phase, tr: Trace, timeout: nat): Phase
    requires Follows(p, tr, timeout)
    decreases |tr|
  {
    if tr == [] then p else Reach(After(p, tr[0], timeout), tr[1..], timeout)
  }

  /** The answer the phase asks for is not in the script. */
  predicate Starved(p: Phase, rest: Script) {
    match p
    case Polling(_, _, _) => rest.polls == []
    case Reaping(_) => rest.reaps == []
    case Signalling(_, _) => rest.kills == []
    case Over(_) => false
    case _ => rest.clocks == []
  }

  /** The supervisor stops with a verdict when the protocol is over, and only falls silent
      when the very answer it asks for is missing. */
  predicate Ends(p: Phase, rest: Script, v: Verdict) {
    if p.Over? then v == p.v else v == Pending && Starved(p, rest)
  }

  lemma {:induction false} FollowsSnoc(p: Phase, tr: Trace, e: Event, timeout: nat)
    requires Follows(p, tr, timeout) && Fits(Reach(p, tr, timeout), e)
    ensures Follows(p, tr + [e], timeout)
    ensures Reach(p, tr + [e], timeout) == After(Reach(p, tr, timeout), e, timeout)
    decreases |tr|
  {
    if tr == [] {
      assert [] + [e] == [e] && [e][1..] == [];
    } else {
      FollowsSnoc(After(p, tr[0], timeout), tr[1..], e, timeout);
      assert (tr + [e])[1..] == tr[1..] + [e];
    }
  }

  lemma {:induction false} FollowsInit(p: Phase, tr: Trace, timeout: nat)
    requires tr != [] && Follows(p, tr, timeout)
    ensures var (init, e) := (tr[..|tr| - 1], tr[|tr| - 1]);
            && Follows(p, init, timeout) && Fits(Reach(p, init, timeout), e)
            && Reach(p, tr, timeout) == After(Reach(p, init, timeout), e, timeout)
    decreases |tr|
  {
    if |tr| > 1 {
      FollowsInit(After(p, tr[0], timeout), tr[1..], timeout);
      assert tr[1..][..|tr| - 2] == tr[..|tr| - 1][1..];
    }
  }

  lemma {:induction false} ToldSnoc(tr: Trace, e: Event, rest: Script)
    requires Possible(e) && forall i :: 0 <= i < |tr| ==> Possible(tr[i])
    ensures Told(tr + [e], rest) == Told(tr, Before(e, rest))
  {
    if tr == [] {
      assert [] + [e] == [e] && [e][1..] == [];
    } else {
      ToldSnoc(tr[1..], e, rest);
      assert (tr + [e])[1..] == tr[1..] + [e];
    }
  }

  /** The system's answers determine the run: two finished runs on the same script are the same. */
  lemma {:induction false} OneRun(
    p: Phase, tr: Trace, rest: Script, v: Verdict, tr': Trace, rest': Script, v': Verdict, timeout: nat)
    requires Follows(p, tr, timeout) && (forall i :: 0 <= i < |tr| ==> Possible(tr[i]))
    requires Follows(p, tr', timeout) && (forall i :: 0 <= i < |tr'| ==> Possible(tr'[i]))
    requires Told(tr, rest) == Told(tr', rest')
    requires Ends(Reach(p, tr, timeout), rest, v) && Ends(Reach(p, tr', timeout), rest', v')
    ensures tr == tr' && rest == rest' && v == v'
    decreases |tr|
  {
    if tr != [] && tr' != [] {
      SameAnswer(p, tr[0], Told(tr[1..], rest), tr'[0], Told(tr'[1..], rest'));
      OneRun(After(p, tr[0], timeout), tr[1..], rest, v, tr'[1..], rest', v', timeout);
      assert tr == [tr[0]] + tr[1..] && tr' == [tr'[0]] + tr'[1..];
    }
  }

  lemma SameAnswer(p: Phase, e: Event, s: Script, e': Event, s': Script)
    requires Fits(p, e) && Fits(p, e') && Possible(e) && Possible(e') && Before(e, s) == Before(e', s')
    ensures e == e' && s == s'
  {
    match e {
      case Clock(t) => HeadTail(t, s.clocks, e'.t, s'.clocks);
      case Waited(true, a) => HeadTail(a, s.reaps, e'.answer, s'.reaps);
      case Waited(false, a) => HeadTail(a, s.polls, e'.answer, s'.polls);
      case Sent(_, reply) => HeadTail(reply, s.kills, e'.reply, s'.kills);
    }
  }

  lemma HeadTail<T>(x: T, xs: seq<T>, y: T, ys: seq<T>)
    requires [x] + xs == [y] + ys
    ensures x == y && xs == ys
  {
    assert ([x] + xs)[0] == x && ([y] + ys)[0] == y;
    assert ([x] + xs)[1..] == xs && ([y] + ys)[1..] == ys;
  }

  // ---------------------------------------------------------- what it promises

  predicate IsReap(e: Event) {
    e.Waited? && e.answer.Changed?
  }

  ghost predicate NoReap(tr: Trace) {
    forall i :: 0 <= i < |tr| ==> !IsReap(tr[i])
  }

  /** The only signal sent is the one at `s`. */
  ghost predicate OnlySignal(tr: Trace, s: int) {
    forall i :: 0 <= i < |tr| && tr[i].Sent? ==> i == s
  }

  /** SIGTERM at `s`, right after a clock reading past the deadline, as the first signal. */
  ghost predicate TermAllowed(tr: Trace, s: int, timeout: nat)
    requires 0 <= s < |tr|
  {
    && 1 <= s && tr[0].Clock? && tr[s - 1].Clock? && tr[s - 1].t >= tr[0].t + timeout
    && OnlySignal(tr[..s], -1)
  }

  /** SIGKILL at `k`, right after a clock reading two seconds past the reading that followed
      the SIGTERM at `s`, as the second signal. */
  ghost predicate KillAllowed(tr: Trace, s: int, k: int)
    requires 0 <= k < |tr|
  {
    && 0 <= s && s + 2 <= k && tr[s].Sent? && tr[s].signal.Term?
    && tr[s + 1].Clock? && tr[k - 1].Clock? && tr[k - 1].t >= tr[s + 1].t + 2_000_000_000
    && OnlySignal(tr[..k], s)
  }

  ghost predicate SignalAllowed(tr: Trace, i: int, timeout: nat)
    requires 0 <= i < |tr| && tr[i].Sent?
  {
    && NoReap(tr[..i])
    && match tr[i].signal
       case Term => TermAllowed(tr, i, timeout)
       case Kill => exists s :: KillAllowed(tr, s, i)
  }

  /** Every signal was allowed where it was sent. */
  ghost predicate Safe(tr: Trace, timeout: nat) {
    forall i :: 0 <= i < |tr| && tr[i].Sent? ==> SignalAllowed(tr, i, timeout)
  }

  ghost predicate TermAt(tr: Trace, s: int) {
    0 <= s && s + 1 < |tr| && tr[s].Sent? && tr[s].signal.Term? && tr[s + 1].Clock?
  }

  ghost predicate TermSent(tr: Trace) {
    exists s :: 0 <= s < |tr| && tr[s].Sent? && tr[s].signal.Term?
  }

  /** The trace ends with the child found alive and a clock reading past the current deadline. */
  ghost predicate Due(tr: Trace, timeout: nat) {
    && 2 <= |tr| && tr[0].Clock? && tr[|tr| - 1].Clock? && tr[|tr| - 2] == Waited(false, StillAlive)
    && (|| (OnlySignal(tr, -1) && tr[|tr| - 1].t >= tr[0].t + timeout)
        || (exists s :: TermAt(tr, s) && OnlySignal(tr, s) && tr[|tr| - 1].t >= tr[s + 1].t + 2_000_000_000))
  }

  /** Whenever a signal is due, it is the next thing that happens. */
  ghost predicate Prompt(tr: Trace, timeout: nat) {
    forall i :: 0 < i < |tr| && Due(tr[..i], timeout) ==> tr[i].Sent?
  }

  /** What the caller is told agrees with what happened. */
  ghost predicate Answers(tr: Trace, v: Verdict) {
    match v
    case Done(status, killed, elapsed) =>
      && 3 <= |tr| && tr[0].Clock? && IsReap(tr[|tr| - 2]) && NoReap(tr[..|tr| - 2])
      && tr[|tr| - 1].Clock? && elapsed == (if tr[0].t <= tr[|tr| - 1].t then tr[|tr| - 1].t - tr[0].t else 0)
      && (forall c :: status.code == Some(c) <==> tr[|tr| - 2].answer.status == Exited(c))
      && (forall g :: status.signal == Some(g) <==> tr[|tr| - 2].answer.status == Signaled(g))
      && (killed <==> TermSent(tr))
    case Failed(errno) =>
      && NoReap(tr) && tr != []
      && var last := tr[|tr| - 1];
         (last.Waited? && last.answer == WaitErrno(errno)) || (last.Sent? && last.reply == KillErrno(errno))
    case Pending => false
  }

  /** In a safe trace each signal goes out at most once, SIGTERM before SIGKILL, and none
      after the child was reaped. */
  lemma SafeMeans(tr: Trace, timeout: nat, i: int, j: int)
    requires Safe(tr, timeout) && 0 <= i < j < |tr| && tr[j].Sent?
    ensures !IsReap(tr[i])
    ensures tr[i].Sent? ==> tr[i].signal.Term? && tr[j].signal.Kill?
  {
    assert SignalAllowed(tr, j, timeout);
    assert tr[..j][i] == tr[i];
    if tr[j].signal.Kill? {
      var s :| KillAllowed(tr, s, j);
    }
  }

  lemma AllowedInPrefix(tr: Trace, e: Event, i: int, timeout: nat)
    requires 0 <= i < |tr| && tr[i].Sent? && SignalAllowed(tr, i, timeout)
    ensures SignalAllowed(tr + [e], i, timeout)
  {
    assert (tr + [e])[..i] == tr[..i];
    if tr[i].signal.Kill? {
      var s :| KillAllowed(tr, s, i);
      assert KillAllowed(tr + [e], s, i);
    }
  }

  lemma SafeAppend(tr: Trace, e: Event, timeout: nat)
    requires Safe(tr, timeout) && (e.Sent? ==> SignalAllowed(tr + [e], |tr|, timeout))
    ensures Safe(tr + [e], timeout)
  {
    forall i | 0 <= i < |tr + [e]| && (tr + [e])[i].Sent? ensures SignalAllowed(tr + [e], i, timeout) {
      if i < |tr| {
        AllowedInPrefix(tr, e, i, timeout);
      }
    }
  }

  lemma PromptAppend(tr: Trace, e: Event, timeout: nat)
    requires Prompt(tr, timeout) && (Due(tr, timeout) ==> e.Sent?)
    ensures Prompt(tr + [e], timeout)
  {
    var all := tr + [e];
    forall i | 0 < i < |all| && Due(all[..i], timeout) ensures all[i].Sent? {
      assert all[..i] == if i < |tr| then tr[..i] else tr;
    }
  }

  /** Nothing was reaped yet, and the only signal so far is the SIGTERM at `s`, if `killed`. */
  ghost predicate Watching(tr: Trace, start: nat, killed: bool, s: int) {
    && tr != [] && tr[0] == Clock(start) && NoReap(tr) && OnlySignal(tr, s)
    && (if killed then TermAt(tr, s) else s == -1)
  }

  ghost function Deadline(tr: Trace, start: nat, killed: bool, s: int, timeout: nat): nat
    requires Watching(tr, start, killed, s)
  {
    if killed then tr[s + 1].t + TERM_GRACE else start + timeout
  }

  /** What a phase says of the trace that led to it. */
  ghost predicate Means(tr: Trace, p: Phase, timeout: nat, s: int) {
    match p
    case Begin => tr == []
    case Polling(start, deadline, killed) =>
      Watching(tr, start, killed, s) && deadline == Deadline(tr, start, killed, s, timeout) && !Due(tr, timeout)
    case Checking(start, deadline, killed) =>
      && Watching(tr, start, killed, s) && deadline == Deadline(tr, start, killed, s, timeout)
      && tr[|tr| - 1] == Waited(false, StillAlive)
    case Signalling(start, killed) =>
      && Watching(tr, start, killed, s) && tr[|tr| - 1].Clock? && tr[|tr| - 1].t >= Deadline(tr, start, killed, s, timeout)
      && (killed ==> s + 1 < |tr| - 1)
    case Termed(start) =>
      && tr != [] && tr[0] == Clock(start) && NoReap(tr) && s == |tr| - 1 > 0 && OnlySignal(tr, s)
      && tr[s].Sent? && tr[s].signal.Term?
    case Reaping(start) =>
      tr != [] && tr[0] == Clock(start) && NoReap(tr) && TermSent(tr) && !tr[|tr| - 1].Clock?
    case Stopping(start, ws, killed) =>
      && 2 <= |tr| && tr[0] == Clock(start) && NoReap(tr[..|tr| - 1])
      && tr[|tr| - 1].Waited? && tr[|tr| - 1].answer == Changed(ws) && (killed <==> TermSent(tr))
    case Over(v) => Answers(tr, v)
  }

  lemma TermSentAppend(tr: Trace, e: Event)
    ensures TermSent(tr + [e]) <==> TermSent(tr) || (e.Sent? && e.signal.Term?)
  {
    var all := tr + [e];
    assert all[|tr|] == e;
    if s :| 0 <= s < |tr| && tr[s].Sent? && tr[s].signal.Term? {
      assert all[s] == tr[s];
    }
  }

  lemma WatchingAppend(tr: Trace, e: Event, start: nat, killed: bool, s: int, timeout: nat)
    requires Watching(tr, start, killed, s) && !e.Sent? && !IsReap(e)
    ensures Watching(tr + [e], start, killed, s)
    ensures Deadline(tr + [e], start, killed, s, timeout) == Deadline(tr, start, killed, s, timeout)
  {
  }

  lemma WatchedTerm(tr: Trace, start: nat, killed: bool, s: int)
    requires Watching(tr, start, killed, s)
    ensures killed <==> TermSent(tr)
  {
    if killed {
      assert tr[s].Sent? && tr[s].signal.Term?;
    }
  }

  lemma NotYetDue(tr: Trace, start: nat, killed: bool, s: int, timeout: nat)
    requires Watching(tr, start, killed, s) && tr[|tr| - 1].Clock? && tr[|tr| - 1].t < Deadline(tr, start, killed, s, timeout)
    ensures !Due(tr, timeout)
  {
  }

  /** One poll. */
  lemma PollStep(tr: Trace, p: Phase, e: Event, timeout: nat, s: int)
    requires p.Polling? && Means(tr, p, timeout, s) && Fits(p, e)
    ensures Means(tr + [e], After(p, e, timeout), timeout, s)
  {
    WatchedTerm(tr, p.start, p.killed, s);
    if e.answer.Changed? {
      TermSentAppend(tr, e);
      assert (tr + [e])[..|tr|] == tr;
    } else {
      WatchingAppend(tr, e, p.start, p.killed, s, timeout);
    }
  }

  /** The clock reading after a child was found alive. */
  lemma CheckStep(tr: Trace, p: Phase, e: Event, timeout: nat, s: int)
    requires p.Checking? && Means(tr, p, timeout, s) && Fits(p, e)
    ensures Means(tr + [e], After(p, e, timeout), timeout, s)
  {
    WatchingAppend(tr, e, p.start, p.killed, s, timeout);
    if e.t < p.deadline {
      NotYetDue(tr + [e], p.start, p.killed, s, timeout);
    }
  }

  /** A signal, which is always allowed. */
  lemma SignalStep(tr: Trace, p: Phase, e: Event, timeout: nat, s: int)
    requires p.Signalling? && Means(tr, p, timeout, s) && Fits(p, e)
    ensures SignalAllowed(tr + [e], |tr|, timeout)
    ensures Means(tr + [e], After(p, e, timeout), timeout, |tr|)
  {
    var all := tr + [e];
    assert all[..|tr|] == tr;
    TermSentAppend(tr, e);
    WatchedTerm(tr, p.start, p.killed, s);
    if p.killed {
      assert KillAllowed(all, s, |tr|);
    }
  }

  lemma OtherStep(tr: Trace, p: Phase, e: Event, timeout: nat, s: int)
    requires (p.Begin? || p.Termed? || p.Reaping? || p.Stopping?) && Means(tr, p, timeout, s) && Fits(p, e)
    ensures Means(tr + [e], After(p, e, timeout), timeout, if p.Begin? then -1 else s)
  {
    TermSentAppend(tr, e);
    assert (tr + [e])[..|tr|] == tr;
    if p.Stopping? {
      assert (tr + [e])[..|tr| - 1] == tr[..|tr| - 1];
    }
  }

  lemma MeansStep(tr: Trace, p: Phase, e: Event, timeout: nat, s: int) returns (s': int)
    requires Means(tr, p, timeout, s) && Fits(p, e)
    ensures Means(tr + [e], After(p, e, timeout), timeout, s')
    ensures e.Sent? ==> SignalAllowed(tr + [e], |tr|, timeout)
    ensures Due(tr, timeout) ==> e.Sent?
  {
    s' := if p.Begin? then -1 else s;
    if p.Polling? {
      PollStep(tr, p, e, timeout, s);
    } else if p.Checking? {
      CheckStep(tr, p, e, timeout, s);
    } else if p.Signalling? {
      SignalStep(tr, p, e, timeout, s);
      s' := |tr|;
    } else {
      OtherStep(tr, p, e, timeout, s);
    }
  }

  lemma {:induction false} RunMeans(tr: Trace, timeout: nat) returns (s: int)
    requires Follows(Begin, tr, timeout)
    ensures Means(tr, Reach(Begin, tr, timeout), timeout, s)
    ensures Safe(tr, timeout) && Prompt(tr, timeout)
    decreases |tr|
  {
    if tr == [] {
      s := -1;
    } else {
      var (init, e) := (tr[..|tr| - 1], tr[|tr| - 1]);
      assert tr == init + [e];
      FollowsInit(Begin, tr, timeout);
      s := RunMeans(init, timeout);
      s := MeansStep(init, Reach(Begin, init, timeout), e, timeout, s);
      SafeAppend(init, e, timeout);
      PromptAppend(init, e, timeout);
    }
  }

  /** In every run of the protocol, finished or not, each signal was allowed where it was sent
      and sent where it was due; a verdict agrees with what happened. */
  lemma RunsAreSafe(tr: Trace, timeout: nat)
    requires Follows(Begin, tr, timeout)
    ensures Safe(tr, timeout) && Prompt(tr, timeout)
    ensures Reach(Begin, tr, timeout).Over? ==> Answers(tr, Reach(Begin, tr, timeout).v)
  {
    var _ := RunMeans(tr, timeout);
  }

  // ---------------------------------------------------------- the supervisor

  /** The operating system, as the answers still to be given. */
  class System {
    var polls: seq<WaitAnswer>
    var reaps: seq<BlockingAnswer>
    var clocks: seq<nat>
    var kills: seq<KillAnswer>
    ghost var trace: Trace

    function Rest(): Script
      reads this
    {
      Script(polls, reaps, clocks, kills)
    }

    constructor (script: Script)
      ensures Rest() == script && trace == []
    {
      polls, reaps, clocks, kills, trace := script.polls, script.reaps, script.clocks, script.kills, [];
    }

    method Now() returns (t: Option<nat>)
      modifies this
      ensures t.None? ==> old(clocks) == [] && Rest() == old(Rest()) && trace == old(trace)
      ensures t.Some? ==> Before(Clock(t.value), Rest()) == old(Rest()) && trace == old(trace) + [Clock(t.value)]
    {
      if clocks == [] {
        return None;
      }
      assert clocks == [clocks[0]] + clocks[1..];
      t, clocks := Some(clocks[0]), clocks[1..];
      trace := trace + [Clock(t.value)];
    }

    method Poll() returns (a: Option<WaitAnswer>)
      modifies this
      ensures a.None? ==> old(polls) == [] && Rest() == old(Rest()) && trace == old(trace)
      ensures a.Some? ==> Before(Waited(false, a.value), Rest()) == old(Rest()) && trace == old(trace) + [Waited(false, a.value)]
    {
      if polls == [] {
        return None;
      }
      assert polls == [polls[0]] + polls[1..];
      a, polls := Some(polls[0]), polls[1..];
      trace := trace + [Waited(false, a.value)];
    }

    method Reap() returns (a: Option<BlockingAnswer>)
      modifies this
      ensures a.None? ==> old(reaps) == [] && Rest() == old(Rest()) && trace == old(trace)
      ensures a.Some? ==> Before(Waited(true, a.value), Rest()) == old(Rest()) && trace == old(trace) + [Waited(true, a.value)]
    {
      if reaps == [] {
        return None;
      }
      assert reaps == [reaps[0]] + reaps[1..];
      a, reaps := Some(reaps[0]), reaps[1..];
      trace := trace + [Waited(true, a.value)];
    }

    method KillGroup(signal: Signal) returns (a: Option<KillAnswer>)
      modifies this
      ensures a.None? ==> old(kills) == [] && Rest() == old(Rest()) && trace == old(trace)
      ensures a.Some? ==> Before(Sent(signal, a.value), Rest()) == old(Rest()) && trace == old(trace) + [Sent(signal, a.value)]
    {
      if kills == [] {
        return None;
      }
      assert kills == [kills[0]] + kills[1..];
      a, kills := Some(kills[0]), kills[1..];
      trace := trace + [Sent(signal, a.value)];
    }

    /** The run so far is one of the protocol, on the answers of `script`, and stands at `p`. */
    ghost predicate At(script: Script, timeout: nat, p: Phase)
      reads this
    {
      && Follows(Begin, trace, timeout) && Reach(Begin, trace, timeout) == p
      && (forall i :: 0 <= i < |trace| ==> Possible(trace[i])) && Told(trace, Rest()) == script
    }

    /** The run is a complete one of the protocol on the answers of `script`, with verdict `v`. */
    ghost predicate Followed(script: Script, timeout: nat, v: Verdict)
      reads this
    {
      exists p :: At(script, timeout, p) && Ends(p, Rest(), v)
    }
  }

  /** One call: the answer moves from the script to the trace. */
  lemma Advance(tr: Trace, before: Script, e: Event, rest: Script, timeout: nat, p: Phase)
    requires Follows(Begin, tr, timeout) && Reach(Begin, tr, timeout) == p && Fits(p, e)
    requires Possible(e) && (forall i :: 0 <= i < |tr| ==> Possible(tr[i])) && Before(e, rest) == before
    ensures Follows(Begin, tr + [e], timeout) && Reach(Begin, tr + [e], timeout) == After(p, e, timeout)
    ensures Told(tr + [e], rest) == Told(tr, before)
  {
    FollowsSnoc(Begin, tr, e, timeout);
    ToldSnoc(tr, e, rest);
  }

  /** The closing clock reading once the child was reaped. */
  method Finish(sys: System, ghost script: Script, ghost timeout: nat, start: nat, ws: WaitStatus, killed: bool)
    returns (v: Verdict)
    requires sys.At(script, timeout, Stopping(start, ws, killed))
    modifies sys
    ensures sys.Followed(script, timeout, v)
  {
    ghost var (tr, before, p) := (sys.trace, sys.Rest(), Stopping(start, ws, killed));
    var t := sys.Now();
    if t.None? {
      assert sys.At(script, timeout, p);
      return Pending;
    }
    Advance(tr, before, Clock(t.value), sys.Rest(), timeout, p);
    v := Done(FromWaitStatus(ws), killed, Elapsed(t.value, start));
    assert sys.At(script, timeout, Over(v));
  }

  /** Polls until the child is reaped, an error, or a clock reading at or past `deadline`.
      `None` means the deadline has passed. */
  method PollUntil(sys: System, ghost script: Script, ghost timeout: nat, start: nat, deadline: nat, killed: bool)
    returns (v: Option<Verdict>)
    requires sys.At(script, timeout, Polling(start, deadline, killed))
    modifies sys
    ensures v.Some? ==> sys.Followed(script, timeout, v.value)
    ensures v.None? ==> sys.At(script, timeout, Signalling(start, killed))
  {
    ghost var p := Polling(start, deadline, killed);
    while true
      invariant sys.At(script, timeout, p)
      decreases |sys.polls|
    {
      ghost var (tr, before) := (sys.trace, sys.Rest());
      var a := sys.Poll();
      if a.None? {
        assert sys.At(script, timeout, p);
        return Some(Pending);
      }
      Advance(tr, before, Waited(false, a.value), sys.Rest(), timeout, p);
      match a.value {
        case Changed(ws) =>
          var done := Finish(sys, script, timeout, start, ws, killed);
          return Some(done);
        case WaitErrno(errno) =>
          assert sys.At(script, timeout, Over(Failed(errno)));
          return Some(Failed(errno));
        case Interrupted =>
        case StillAlive =>
          ghost var (polled, left, q) := (sys.trace, sys.Rest(), Checking(start, deadline, killed));
          var t := sys.Now();
          if t.None? {
            assert sys.At(script, timeout, q);
            return Some(Pending);
          }
          Advance(polled, left, Clock(t.value), sys.Rest(), timeout, q);
          if t.value >= deadline {
            return None;
          }
      }
    }
  }

  /** The whole protocol, against any answers of the system. */
  method WaitWithTimeout(sys: System, timeout: nat) returns (v: Verdict)
    requires sys.trace == []
    modifies sys
    ensures sys.Followed(old(sys.Rest()), timeout, v)
  {
    ghost var script := sys.Rest();
    assert sys.At(script, timeout, Begin);
    var start := sys.Now();
    if start.None? {
      assert sys.At(script, timeout, Begin);
      return Pending;
    }
    Advance([], script, Clock(start.value), sys.Rest(), timeout, Begin);
    var r := PollUntil(sys, script, timeout, start.value, start.value + timeout, false);
    if r.Some? {
      return r.value;
    }
    v := Escalate(sys, script, timeout, start.value);
  }

  method Escalate(sys: System, ghost script: Script, ghost timeout: nat, start: nat) returns (v: Verdict)
    requires sys.At(script, timeout, Signalling(start, false))
    modifies sys
    ensures sys.Followed(script, timeout, v)
  {
    ghost var (tr, before) := (sys.trace, sys.Rest());
    var term := sys.KillGroup(Term);
    if term.None? {
      assert sys.At(script, timeout, Signalling(start, false));
      return Pending;
    }
    Advance(tr, before, Sent(Term, term.value), sys.Rest(), timeout, Signalling(start, false));
    if term.value.KillErrno? {
      assert sys.At(script, timeout, Over(Failed(term.value.errno)));
      return Failed(term.value.errno);
    }
    ghost var (termed, left) := (sys.trace, sys.Rest());
    var t := sys.Now();
    if t.None? {
      assert sys.At(script, timeout, Termed(start));
      return Pending;
    }
    Advance(termed, left, Clock(t.value), sys.Rest(), timeout, Termed(start));
    var r := PollUntil(sys, script, timeout, start, t.value + TERM_GRACE, true);
    if r.Some? {
      return r.value;
    }
    v := ForceKill(sys, script, timeout, start);
  }

  method ForceKill(sys: System, ghost script: Script, ghost timeout: nat, start: nat) returns (v: Verdict)
    requires sys.At(script, timeout, Signalling(start, true))
    modifies sys
    ensures sys.Followed(script, timeout, v)
  {
    ghost var (tr, before) := (sys.trace, sys.Rest());
    var killed := sys.KillGroup(Kill);
    if killed.None? {
      assert sys.At(script, timeout, Signalling(start, true));
      return Pending;
    }
    Advance(tr, before, Sent(Kill, killed.value), sys.Rest(), timeout, Signalling(start, true));
    if killed.value.KillErrno? {
      assert sys.At(script, timeout, Over(Failed(killed.value.errno)));
      return Failed(killed.value.errno);
    }
    v := ReapBlocking(sys, script, timeout, start);
  }

  /** Waits for the killed child without a deadline. */
  method ReapBlocking(sys: System, ghost script: Script, ghost timeout: nat, start: nat) returns (v: Verdict)
    requires sys.At(script, timeout, Reaping(start))
    modifies sys
    ensures sys.Followed(script, timeout, v)
  {
    while true
      invariant sys.At(script, timeout, Reaping(start))
      decreases |sys.reaps|
    {
      ghost var (tr, before) := (sys.trace, sys.Rest());
      var a := sys.Reap();
      if a.None? {
        assert sys.At(script, timeout, Reaping(start));
        return Pending;
      }
      Advance(tr, before, Waited(true, a.value), sys.Rest(), timeout, Reaping(start));
      match a.value {
        case Changed(ws) =>
          v := Finish(sys, script, timeout, start, ws, true);
          return;
        case WaitErrno(errno) =>
          assert sys.At(script, timeout, Over(Failed(errno)));
          return Failed(errno);
        case Interrupted =>
      }
    }
  }
}
