/** The search for a credential over USB partitions: each candidate is mounted, probed, and
    unmounted again unless it binds. */
module CandidateSearch {
  import opened Wrappers
  import Text

  const U32_END: nat := 0x1_0000_0000

  type Path = string

  datatype DiscoveryError = P12NotFound(path: Path) | OtherDiscovery(message: string)

  /** What the device, the discovery and the envelope check will say of a candidate. */
  datatype Candidate =
    | MkdirFails(error: string)
    | MountFails(error: string)
    | NotFound(path: Path)
    | DiscoveryFails(message: string)
    | BadEnvelope(error: string)
    | GoodEnvelope

  datatype FlowResult =
    | Bound(index: nat)
    | MountError(error: string)
    | DiscoveryFailed(reason: DiscoveryError)
    | EnvelopeInvalid(error: string)

  /** Whether unmounting and removing the directory of a candidate will work. */
  datatype Fate = Fate(unmounts: bool, removes: bool)

  /** What was done to mount points; clean-up that fails is logged and passed over. */
  datatype MountEvent = Mounted(target: Target) | Unmounted(target: Target, ok: bool) | Removed(target: Target, ok: bool)

  // ------------------------------------------------------------ mount points

  /** A mount point, by the counter value it was derived from. */
  datatype Target = Target(base: Path, sessionId: string, seqNo: nat) {
    /** The bare session id first, then numbered. */
    function Path(): Path {
      base + "/" + if seqNo == 0 then sessionId else sessionId + "-" + Text.Padded(seqNo, 1)
    }
  }

  lemma PathShape(t: Target)
    ensures t.Path() == t.base + "/" + t.sessionId + if t.seqNo == 0 then "" else "-" + Text.Padded(t.seqNo, 1)
  {
    if t.seqNo != 0 {
      var d := Text.Padded(t.seqNo, 1);
      assert t.base + "/" + (t.sessionId + "-" + d) == t.base + "/" + t.sessionId + ("-" + d);
    }
  }

  /** In one session, different counter values never share a path. */
  lemma PathsDiffer(base: Path, sessionId: string, m: nat, n: nat)
    ensures Target(base, sessionId, m).Path() == Target(base, sessionId, n).Path() <==> m == n
  {
    PathShape(Target(base, sessionId, m));
    PathShape(Target(base, sessionId, n));
    var stem := base + "/" + sessionId;
    if m != n && m != 0 && n != 0 {
      var (a, b) := (stem + ("-" + Text.Padded(m, 1)), stem + ("-" + Text.Padded(n, 1)));
      if a == b {
        assert a[|stem| + 1..] == Text.Padded(m, 1) && b[|stem| + 1..] == Text.Padded(n, 1);
        Text.PaddedOrder(m, n, 1);
      }
    }
  }

  // ---------------------------------------------------------- the loop's verdict

  /** Candidates the search moves on from. */
  predicate Skipped(c: Candidate) {
    c.NotFound? || c.BadEnvelope?
  }

  /** Index of the first candidate that ends the search, or the number of candidates. */
  function FirstStop(cs: seq<Candidate>): nat {
    if cs == [] || !Skipped(cs[0]) then 0 else 1 + FirstStop(cs[1..])
  }

  function LastEnvelopeError(cs: seq<Candidate>): Option<string> {
    if cs == [] then None
    else if cs[|cs| - 1].BadEnvelope? then Some(cs[|cs| - 1].error)
    else LastEnvelopeError(cs[..|cs| - 1])
  }

  function LastMissing(cs: seq<Candidate>): Option<Path> {
    if cs == [] then None
    else if cs[|cs| - 1].NotFound? then Some(cs[|cs| - 1].path)
    else LastMissing(cs[..|cs| - 1])
  }

  function Exhausted(cs: seq<Candidate>, pattern: Path): FlowResult {
    match LastEnvelopeError(cs)
    case Some(e) => EnvelopeInvalid(e)
    case None =>
      var missing := LastMissing(cs);
      DiscoveryFailed(P12NotFound(if missing.Some? then missing.value else pattern))
  }

  function Verdict(cs: seq<Candidate>, pattern: Path): FlowResult {
    var i := FirstStop(cs);
    FirstStopIsFirst(cs);
    if i == |cs| then Exhausted(cs, pattern)
    else
      match cs[i]
      case MkdirFails(e) => MountError(e)
      case MountFails(e) => MountError(e)
      case DiscoveryFails(m) => DiscoveryFailed(OtherDiscovery(m))
      case _ => Bound(i)
  }

  lemma {:induction false} FirstStopIsFirst(cs: seq<Candidate>)
    ensures var i := FirstStop(cs);
            i <= |cs| && (forall k :: 0 <= k < i ==> Skipped(cs[k])) && (i < |cs| ==> !Skipped(cs[i]))
  {
    if cs != [] && Skipped(cs[0]) {
      FirstStopIsFirst(cs[1..]);
    }
  }

  lemma FirstStopIs(cs: seq<Candidate>, i: nat)
    requires i <= |cs| && (forall k :: 0 <= k < i ==> Skipped(cs[k])) && (i < |cs| ==> !Skipped(cs[i]))
    ensures FirstStop(cs) == i
  {
    FirstStopIsFirst(cs);
  }

  /** The last candidate with a bad envelope is at `k`. */
  ghost predicate LastBad(cs: seq<Candidate>, k: int) {
    0 <= k < |cs| && cs[k].BadEnvelope? && forall m :: k < m < |cs| ==> !cs[m].BadEnvelope?
  }

  lemma {:induction false} LastEnvelopeErrorMeaning(cs: seq<Candidate>)
    ensures match LastEnvelopeError(cs)
            case None => forall k :: 0 <= k < |cs| ==> !cs[k].BadEnvelope?
            case Some(e) => exists k :: LastBad(cs, k) && cs[k].error == e
  {
    if cs != [] {
      var init := cs[..|cs| - 1];
      LastEnvelopeErrorMeaning(init);
      if cs[|cs| - 1].BadEnvelope? {
        assert LastBad(cs, |cs| - 1);
      } else if LastEnvelopeError(init).Some? {
        var k :| LastBad(init, k) && init[k].error == LastEnvelopeError(init).value;
        assert LastBad(cs, k);
      }
    }
  }

  /** The search binds the first candidate with a valid envelope, provided only skippable ones
      come before it; the first candidate that cannot be mounted or probed aborts it. */
  lemma VerdictWhenStopped(cs: seq<Candidate>, pattern: Path, i: nat)
    ensures Verdict(cs, pattern) == Bound(i) <==>
            i < |cs| && cs[i].GoodEnvelope? && forall k :: 0 <= k < i ==> Skipped(cs[k])
    ensures i < |cs| && (forall k :: 0 <= k < i ==> Skipped(cs[k])) ==>
              && (forall e :: cs[i] == MkdirFails(e) || cs[i] == MountFails(e) ==> Verdict(cs, pattern) == MountError(e))
              && (forall m :: cs[i] == DiscoveryFails(m) ==> Verdict(cs, pattern) == DiscoveryFailed(OtherDiscovery(m)))
  {
    FirstStopIsFirst(cs);
    if i < |cs| && !Skipped(cs[i]) && forall k :: 0 <= k < i ==> Skipped(cs[k]) {
      FirstStopIs(cs, i);
    }
  }

  /** When every candidate is skippable, an envelope error is reported exactly when some candidate
      had one, and then the last one; otherwise the last missing file is. */
  lemma VerdictWhenExhausted(cs: seq<Candidate>, pattern: Path)
    requires forall k :: 0 <= k < |cs| ==> Skipped(cs[k])
    ensures Verdict(cs, pattern).EnvelopeInvalid? <==> exists k :: 0 <= k < |cs| && cs[k].BadEnvelope?
    ensures Verdict(cs, pattern).EnvelopeInvalid? ==> exists k :: LastBad(cs, k) && cs[k].error == Verdict(cs, pattern).error
    ensures (forall k :: 0 <= k < |cs| ==> cs[k].NotFound?) ==>
              Verdict(cs, pattern) == DiscoveryFailed(P12NotFound(if cs == [] then pattern else cs[|cs| - 1].path))
  {
    FirstStopIs(cs, |cs|);
    LastEnvelopeErrorMeaning(cs);
  }

  // ----------------------------------------------------- what a search leaves

  datatype Names = Names(base: Path, sessionId: string) {
    /** The counter wraps at 2^32. */
    function At(n: nat): Target {
      Target(base, sessionId, n % U32_END)
    }

    /** The mount points of the next `n` attempts. */
    function Points(from: nat, n: nat): seq<Target> {
      seq(n, k requires 0 <= k < n => At(from + k))
    }
  }

  /** What is mounted, which directories exist, and how that came about. */
  datatype Disk = Disk(mounts: set<Target>, dirs: set<Target>, log: seq<MountEvent>)

  /** Making `p` and then undoing it, if that works. */
  function MadeAndUndone(targets: set<Target>, p: Target, ok: bool): set<Target> {
    if ok then targets - {p} else targets + {p}
  }

  function Round(p: Target, fate: Fate): seq<MountEvent> {
    [Mounted(p), Unmounted(p, fate.unmounts), Removed(p, fate.removes)]
  }

  /** One attempt that came to nothing: mount, unmount, remove. */
  function RoundDone(d: Disk, p: Target, fate: Fate): Disk {
    Disk(MadeAndUndone(d.mounts, p, fate.unmounts), MadeAndUndone(d.dirs, p, fate.removes), d.log + Round(p, fate))
  }

  function RoundsDone(d: Disk, points: seq<Target>, fates: seq<Fate>, n: nat): Disk
    requires n <= |points| == |fates|
  {
    if n == 0 then d else RoundDone(RoundsDone(d, points, fates, n - 1), points[n - 1], fates[n - 1])
  }

  /** The attempt that ends the search; a failed mount leaves its directory. */
  function Ended(d: Disk, c: Candidate, p: Target, fate: Fate): Disk {
    if c.GoodEnvelope? then Disk(d.mounts + {p}, d.dirs + {p}, d.log + [Mounted(p)])
    else if c.MountFails? then d.(dirs := d.dirs + {p})
    else if c.MkdirFails? then d
    else RoundDone(d, p, fate)
  }

  function SearchDone(d: Disk, points: seq<Target>, cs: seq<Candidate>, fates: seq<Fate>): Disk
    requires |points| == |cs| == |fates|
  {
    var i := FirstStop(cs);
    FirstStopIsFirst(cs);
    var before := RoundsDone(d, points, fates, i);
    if i == |cs| then before else Ended(before, cs[i], points[i], fates[i])
  }

  /** Before anything is mounted, everything mounted earlier was to be unmounted and then removed. */
  ghost predicate OneAtATime(log: seq<MountEvent>) {
    forall i, j :: 0 <= i < j < |log| && log[i].Mounted? && log[j].Mounted? ==> i + 2 < j && CleanedUp(log, i)
  }

  ghost predicate CleanedUp(log: seq<MountEvent>, i: int)
    requires 0 <= i < |log| && log[i].Mounted?
  {
    && i + 2 < |log|
    && log[i + 1].Unmounted? && log[i + 1].target == log[i].target
    && log[i + 2].Removed? && log[i + 2].target == log[i].target
  }

  /** Moreover all mounts were cleaned up. */
  ghost predicate AllCleanedUp(log: seq<MountEvent>) {
    OneAtATime(log) && forall i :: 0 <= i < |log| && log[i].Mounted? ==> CleanedUp(log, i)
  }

  lemma AppendRound(log: seq<MountEvent>, p: Target, fate: Fate)
    requires AllCleanedUp(log)
    ensures AllCleanedUp(log + Round(p, fate))
  {
    var all := log + Round(p, fate);
    forall i | 0 <= i < |all| && all[i].Mounted? ensures CleanedUp(all, i) {
      assert i < |log| ==> log[i].Mounted? && CleanedUp(log, i);
    }
    forall i, j | 0 <= i < j < |all| && all[i].Mounted? && all[j].Mounted? ensures i + 2 < j {
      assert i < |log| && log[i].Mounted? && CleanedUp(log, i);
      assert j < |log| ==> log[j].Mounted?;
    }
  }

  lemma {:induction false} RoundsCleanUp(d: Disk, points: seq<Target>, fates: seq<Fate>, n: nat)
    requires n <= |points| == |fates| && AllCleanedUp(d.log)
    ensures AllCleanedUp(RoundsDone(d, points, fates, n).log)
  {
    if n > 0 {
      RoundsCleanUp(d, points, fates, n - 1);
      AppendRound(RoundsDone(d, points, fates, n - 1).log, points[n - 1], fates[n - 1]);
    }
  }

  lemma AppendMount(log: seq<MountEvent>, p: Target)
    requires AllCleanedUp(log)
    ensures OneAtATime(log + [Mounted(p)])
  {
    var all := log + [Mounted(p)];
    forall i, j | 0 <= i < j < |all| && all[i].Mounted? && all[j].Mounted? ensures i + 2 < j && CleanedUp(all, i) {
      assert log[i].Mounted? && CleanedUp(log, i);
      assert j < |log| ==> log[j].Mounted?;
    }
  }

  /** For every candidate list and pattern of outcomes, mounts are strictly one at a time, and
      every mount but a bound one is cleaned up. */
  lemma SearchOneAtATime(d: Disk, points: seq<Target>, cs: seq<Candidate>, fates: seq<Fate>, pattern: Path)
    requires |points| == |cs| == |fates| && AllCleanedUp(d.log)
    ensures OneAtATime(SearchDone(d, points, cs, fates).log)
    ensures !Verdict(cs, pattern).Bound? ==> AllCleanedUp(SearchDone(d, points, cs, fates).log)
  {
    var i := FirstStop(cs);
    FirstStopIsFirst(cs);
    RoundsCleanUp(d, points, fates, i);
    if i < |cs| {
      var log := RoundsDone(d, points, fates, i).log;
      AppendMount(log, points[i]);
      AppendRound(log, points[i], fates[i]);
    }
  }

  /** Attempt `k` is the last of `n` at mount point `p`. */
  ghost predicate LastAt(points: seq<Target>, n: nat, k: int, p: Target)
    requires n <= |points|
  {
    0 <= k < n && points[k] == p && forall m :: k < m < n ==> points[m] != p
  }

  /** `p` was there before and not tried, or the clean-up of the last attempt at it failed. */
  ghost predicate LeftBehind(points: seq<Target>, oks: seq<bool>, n: nat, before: set<Target>, p: Target)
    requires n <= |points| == |oks|
  {
    || (p in before && p !in points[..n])
    || exists k :: LastAt(points, n, k, p) && !oks[k]
  }

  function Unmounts(fates: seq<Fate>): seq<bool> {
    seq(|fates|, i requires 0 <= i < |fates| => fates[i].unmounts)
  }

  function Removes(fates: seq<Fate>): seq<bool> {
    seq(|fates|, i requires 0 <= i < |fates| => fates[i].removes)
  }

  lemma LeftStep(points: seq<Target>, oks: seq<bool>, n: nat, before: set<Target>, p: Target)
    requires 0 < n <= |points| == |oks|
    ensures LeftBehind(points, oks, n, before, p) <==>
            if points[n - 1] == p then !oks[n - 1] else LeftBehind(points, oks, n - 1, before, p)
  {
    assert points[..n] == points[..n - 1] + [points[n - 1]];
    if points[n - 1] == p {
      assert LastAt(points, n, n - 1, p);
    } else {
      assert forall k :: LastAt(points, n, k, p) <==> LastAt(points, n - 1, k, p);
    }
  }

  lemma {:induction false} RoundsLeave(d: Disk, points: seq<Target>, fates: seq<Fate>, n: nat, p: Target)
    requires n <= |points| == |fates|
    ensures var d' := RoundsDone(d, points, fates, n);
            && (p in d'.mounts <==> LeftBehind(points, Unmounts(fates), n, d.mounts, p))
            && (p in d'.dirs <==> LeftBehind(points, Removes(fates), n, d.dirs, p))
  {
    if n > 0 {
      RoundsLeave(d, points, fates, n - 1, p);
      LeftStep(points, Unmounts(fates), n, d.mounts, p);
      LeftStep(points, Removes(fates), n, d.dirs, p);
    }
  }

  /** The attempts that were cleaned up after. */
  function Completed(cs: seq<Candidate>): (n: nat)
    ensures n <= |cs|
  {
    var i := FirstStop(cs);
    FirstStopIsFirst(cs);
    if i < |cs| && cs[i].DiscoveryFails? then i + 1 else i
  }

  /** After any search a device is mounted exactly where the search bound one or where it was left
      behind, and a directory exists exactly where one was bound, failed to be mounted on, or was
      left behind. */
  lemma OutstandingExactly(d: Disk, points: seq<Target>, cs: seq<Candidate>, fates: seq<Fate>, p: Target)
    requires |points| == |cs| == |fates|
    ensures var (d', i, n) := (SearchDone(d, points, cs, fates), FirstStop(cs), Completed(cs));
            && (p in d'.mounts <==>
                  || (i < |cs| && cs[i].GoodEnvelope? && p == points[i])
                  || LeftBehind(points, Unmounts(fates), n, d.mounts, p))
            && (p in d'.dirs <==>
                  || (i < |cs| && (cs[i].GoodEnvelope? || cs[i].MountFails?) && p == points[i])
                  || LeftBehind(points, Removes(fates), n, d.dirs, p))
  {
    var i := FirstStop(cs);
    FirstStopIsFirst(cs);
    RoundsLeave(d, points, fates, i, p);
    if i < |cs| && cs[i].DiscoveryFails? {
      RoundsLeave(d, points, fates, i + 1, p);
    }
  }

  /** Where all clean-up works and nothing was there before, exactly the bound mount is outstanding. */
  lemma CleanSearch(d: Disk, points: seq<Target>, cs: seq<Candidate>, fates: seq<Fate>)
    requires |points| == |cs| == |fates| && d.mounts == {} && forall k :: 0 <= k < |fates| ==> fates[k].unmounts
    ensures var (d', i) := (SearchDone(d, points, cs, fates), FirstStop(cs));
            d'.mounts == if i < |cs| && cs[i].GoodEnvelope? then {points[i]} else {}
  {
    forall p ensures p in SearchDone(d, points, cs, fates).mounts <==>
                     FirstStop(cs) < |cs| && cs[FirstStop(cs)].GoodEnvelope? && p == points[FirstStop(cs)] {
      OutstandingExactly(d, points, cs, fates, p);
    }
  }

  /** Two attempts share a mount point exactly when they are a multiple of 2^32 attempts apart. */
  lemma AttemptsReuseExactly(io: Names, m: nat, n: nat)
    ensures io.At(m).Path() == io.At(n).Path() <==> m % U32_END == n % U32_END
  {
    PathsDiffer(io.base, io.sessionId, m % U32_END, n % U32_END);
  }

  /** The bare stem at count zero, and otherwise the stem, a dash and the count in decimal. */
  ghost predicate PathSays(path: Path, stem: Path, count: nat) {
    if count == 0 then path == stem
    else
      && |path| > |stem| + 1 && path[..|stem|] == stem && path[|stem|] == '-' && path[|stem| + 1] != '0'
      && Text.AllDigits(path[|stem| + 1..]) && Text.Number(path[|stem| + 1..]) == count
  }

  lemma NumberedPath(stem: Path, count: nat)
    requires count > 0
    ensures PathSays(stem + ("-" + Text.Padded(count, 1)), stem, count)
  {
    var digits := Text.Padded(count, 1);
    Text.PaddedReads(count, 1);
    Text.PaddedLeads(count);
    var path := stem + ("-" + digits);
    assert path[|stem| + 1..] == digits && path[|stem| + 1] == digits[0];
  }

  lemma TargetText(t: Target)
    ensures PathSays(t.Path(), t.base + "/" + t.sessionId, t.seqNo)
  {
    PathShape(t);
    var stem := t.base + "/" + t.sessionId;
    if t.seqNo == 0 {
      assert stem + "" == stem;
    } else {
      NumberedPath(stem, t.seqNo);
    }
  }

  /** What the mount point of attempt `n` is called: the bare session id at first, then with the
      counter in decimal. */
  lemma MountPointText(io: Names, n: nat)
    ensures PathSays(io.At(n).Path(), io.base + "/" + io.sessionId, n % 4_294_967_296)
  {
    TargetText(io.At(n));
  }

  // ------------------------------------------------------------- the classes

  function WrappingIncrement(n: nat, ghost unwrapped: nat): (r: nat)
    requires n == unwrapped % U32_END
    ensures r == (unwrapped + 1) % U32_END
  {
    if n + 1 == U32_END then 0 else n + 1
  }

  class FlowIo {
    const names: Names
    var mountSeq: nat
    var dirs: set<Target>
    var mounts: set<Target>
    var log: seq<MountEvent>
    ghost var attempts: nat

    ghost predicate Valid()
      reads this
    {
      mountSeq == attempts % U32_END
    }

    function Now(): Disk
      reads this
    {
      Disk(mounts, dirs, log)
    }

    constructor (base: Path, sessionId: string)
      ensures Valid() && Now() == Disk({}, {}, []) && attempts == 0
      ensures names == Names(base, sessionId)
    {
      names := Names(base, sessionId);
      mountSeq, dirs, mounts, log, attempts := 0, {}, {}, [], 0;
    }

    /** Creates the next mount point and mounts the device there; a failed mount leaves the
        directory behind. */
    method Mount(c: Candidate) returns (r: Result<Target, string>)
      requires Valid()
      modifies this
      ensures Valid() && attempts == old(attempts) + 1
      ensures var (p, d) := (names.At(old(attempts)), old(Now()));
              if c.MkdirFails? then r == Err(c.error) && Now() == d
              else if c.MountFails? then r == Err(c.error) && Now() == d.(dirs := d.dirs + {p})
              else r == Ok(p) && Now() == Disk(d.mounts + {p}, d.dirs + {p}, d.log + [Mounted(p)])
    {
      var seqNo := mountSeq;
      mountSeq := WrappingIncrement(seqNo, attempts);
      attempts := attempts + 1;
      var target := Target(names.base, names.sessionId, seqNo);
      if c.MkdirFails? {
        return Err(c.error);
      }
      dirs := dirs + {target};
      if c.MountFails? {
        return Err(c.error);
      }
      mounts, log := mounts + {target}, log + [Mounted(target)];
      return Ok(target);
    }
  }

  class MountGuard {
    const target: Target
    const mounted: bool

    constructor Adopt(mountpoint: Target)
      ensures target == mountpoint && mounted
    {
      target, mounted := mountpoint, true;
    }

    /** Going out of scope: unmount first, then remove the directory, each whether or not it works. */
    method Drop(io: FlowIo, fate: Fate)
      modifies io`mounts, io`dirs, io`log
      ensures io.mounts == old(io.mounts) - if mounted && fate.unmounts then {target} else {}
      ensures io.dirs == old(io.dirs) - if fate.removes then {target} else {}
      ensures io.log == old(io.log) + (if mounted then [Unmounted(target, fate.unmounts)] else []) + [Removed(target, fate.removes)]
    {
      if mounted {
        if fate.unmounts {
          io.mounts := io.mounts - {target};
        }
        io.log := io.log + [Unmounted(target, fate.unmounts)];
      }
      if fate.removes {
        io.dirs := io.dirs - {target};
      }
      io.log := io.log + [Removed(target, fate.removes)];
    }
  }

  /** What one candidate means for the loop. */
  datatype Probe = Binds | Skips | Aborts(result: FlowResult)

  /** Mounts one candidate and probes it. The guard's scope ends here unless it binds. */
  method Try(io: FlowIo, c: Candidate, fate: Fate) returns (r: Probe)
    requires io.Valid()
    modifies io
    ensures io.Valid() && io.attempts == old(io.attempts) + 1
    ensures r == if c.GoodEnvelope? then Binds
                 else if Skipped(c) then Skips
                 else if c.DiscoveryFails? then Aborts(DiscoveryFailed(OtherDiscovery(c.message)))
                 else Aborts(MountError(c.error))
    ensures io.Now() == Ended(old(io.Now()), c, io.names.At(old(io.attempts)), fate)
  {
    var mounted := io.Mount(c);
    if mounted.Err? {
      return Aborts(MountError(mounted.error));
    }
    var guard := new MountGuard.Adopt(mounted.value);
    if c.GoodEnvelope? {
      return Binds;
    }
    guard.Drop(io, fate);
    if Skipped(c) {
      return Skips;
    }
    return Aborts(DiscoveryFailed(OtherDiscovery(c.message)));
  }

  /** What the specification says of a search that ends at candidate `i`. */
  lemma StopsAt(cs: seq<Candidate>, pattern: Path, i: nat)
    requires i < |cs| && (forall k :: 0 <= k < i ==> Skipped(cs[k])) && !Skipped(cs[i])
    ensures FirstStop(cs) == i
    ensures Verdict(cs, pattern) == if cs[i].GoodEnvelope? then Bound(i)
                                    else if cs[i].DiscoveryFails? then DiscoveryFailed(OtherDiscovery(cs[i].message))
                                    else MountError(cs[i].error)
  {
    FirstStopIs(cs, i);
  }

  /** The candidate loop, from whatever was mounted before. */
  method Search(io: FlowIo, cs: seq<Candidate>, fates: seq<Fate>, pattern: Path) returns (r: FlowResult)
    requires io.Valid() && |fates| == |cs|
    modifies io
    ensures io.Valid() && r == Verdict(cs, pattern)
    ensures io.Now() == SearchDone(old(io.Now()), io.names.Points(old(io.attempts), |cs|), cs, fates)
  {
    var lastDiscoveryErr: Option<Path> := None;
    var lastEnvelopeErr: Option<string> := None;
    ghost var (from, was) := (io.attempts, io.Now());
    ghost var points := io.names.Points(from, |cs|);
    for i := 0 to |cs|
      invariant io.Valid() && io.attempts == from + i
      invariant io.Now() == RoundsDone(was, points, fates, i)
      invariant forall k :: 0 <= k < i ==> Skipped(cs[k])
      invariant lastDiscoveryErr == LastMissing(cs[..i]) && lastEnvelopeErr == LastEnvelopeError(cs[..i])
    {
      assert points[i] == io.names.At(from + i);
      var probe := Try(io, cs[i], fates[i]);
      assert cs[..i + 1][..i] == cs[..i];
      if probe.Binds? {
        StopsAt(cs, pattern, i);
        return Bound(i);
      }
      if probe.Aborts? {
        StopsAt(cs, pattern, i);
        return probe.result;
      }
      if cs[i].BadEnvelope? {
        lastEnvelopeErr := Some(cs[i].error);
      } else {
        lastDiscoveryErr := Some(cs[i].path);
      }
    }
    FirstStopIs(cs, |cs|);
    assert cs[..|cs|] == cs;
    if lastEnvelopeErr.Some? {
      return EnvelopeInvalid(lastEnvelopeErr.value);
    }
    return DiscoveryFailed(P12NotFound(if lastDiscoveryErr.Some? then lastDiscoveryErr.value else pattern));
  }
}
