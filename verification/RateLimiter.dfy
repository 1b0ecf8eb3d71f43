/** The bounded deduplication cache for parse-failure audit events, compared with the
    unbounded limiter it approximates. */
module RateLimiter {
  import opened Wrappers

  /** One minute, in nanoseconds. */
  const WINDOW: nat := 60_000_000_000
  const CACHE_CAP: nat := 256

  type Fingerprint = string
  type Cache = map<Fingerprint, nat>

  /** One call with its clock reading, the entry it evicted (if any) and its answer. */
  datatype Call = Call(fp: Fingerprint, at: nat, victim: Option<Fingerprint>, admitted: bool)

  function Retained(c: Cache, now: nat): Cache {
    map k | k in c && Elapsed(now, c[k]) < WINDOW :: c[k]
  }

  ghost predicate Oldest(c: Cache, k: Fingerprint) {
    k in c && forall k' :: k' in c ==> c[k] <= c[k']
  }

  /** A full cache evicts an oldest entry, any other cache none. */
  ghost predicate Evicts(c: Cache, victim: Option<Fingerprint>) {
    if |c| >= CACHE_CAP then victim.Some? && Oldest(c, victim.value) else victim.None?
  }

  function Without(c: Cache, victim: Option<Fingerprint>): Cache {
    if victim.Some? then c - {victim.value} else c
  }

  ghost predicate Next(c: Cache, call: Call, c': Cache) {
    var r := Retained(c, call.at);
    if call.fp in r then
      !call.admitted && c' == r
    else
      call.admitted && Evicts(r, call.victim) && c' == Without(r, call.victim)[call.fp := call.at]
  }

  class ParseFailLimiter {
    var cache: Cache

    constructor ()
      ensures cache == map[]
    {
      cache := map[];
    }

    method OldestKey() returns (oldest: Fingerprint)
      requires cache != map[]
      ensures Oldest(cache, oldest)
    {
      var rest := cache.Keys;
      oldest :| oldest in cache;
      while rest != {}
        invariant oldest in cache
        invariant forall k :: k in cache && k !in rest ==> cache[oldest] <= cache[k]
        decreases rest
      {
        var k :| k in rest;
        if k in cache && cache[k] < cache[oldest] {
          oldest := k;
        }
        rest := rest - {k};
      }
    }

    method ShouldEmit(fp: Fingerprint, now: nat) returns (permitted: bool, ghost victim: Option<Fingerprint>)
      modifies this
      ensures Next(old(cache), Call(fp, now, victim, permitted), cache)
    {
      victim := None;
      cache := map k | k in cache && Elapsed(now, cache[k]) < WINDOW :: cache[k];
      if fp in cache && Elapsed(now, cache[fp]) < WINDOW {
        return false, victim;
      }
      if |cache| >= CACHE_CAP {
        var oldest := OldestKey();
        victim := Some(oldest);
        cache := cache - {oldest};
      }
      cache := cache[fp := now];
      permitted := true;
    }
  }

  // ------------------------------------------------------------------- runs

  /** A history of calls on an initially empty cache, with a clock that does not go back. */
  ghost predicate IsRun(cs: seq<Cache>, calls: seq<Call>) {
    && |cs| == |calls| + 1 && cs[0] == map[]
    && (forall i :: 0 <= i < |calls| ==> Next(cs[i], calls[i], cs[i + 1]))
    && (forall i, j :: 0 <= i <= j < |calls| ==> calls[i].at <= calls[j].at)
  }

  lemma SubsetSize<T>(a: set<T>, b: set<T>)
    requires a <= b
    ensures |a| <= |b|
  {
    assert b == a + (b - a);
  }

  lemma EvictionMakesRoom(c: Cache, victim: Option<Fingerprint>, fp: Fingerprint, at: nat)
    requires |c| <= CACHE_CAP && Evicts(c, victim)
    ensures |Without(c, victim)[fp := at]| <= CACHE_CAP
  {
    var d := Without(c, victim);
    assert d.Keys == if victim.Some? then c.Keys - {victim.value} else c.Keys;
    assert |d.Keys| < CACHE_CAP;
    assert d[fp := at].Keys == d.Keys + {fp};
  }

  /** The cache never holds more than 256 fingerprints. */
  lemma {:induction false} CacheIsBounded(cs: seq<Cache>, calls: seq<Call>, n: nat)
    requires IsRun(cs, calls) && n < |cs|
    ensures |cs[n]| <= 256
  {
    if n > 0 {
      CacheIsBounded(cs, calls, n - 1);
      var (call, r) := (calls[n - 1], Retained(cs[n - 1], calls[n - 1].at));
      assert Next(cs[n - 1], call, cs[n]);
      assert r.Keys <= cs[n - 1].Keys;
      SubsetSize(r.Keys, cs[n - 1].Keys);
      if call.admitted {
        EvictionMakesRoom(r, call.victim, call.fp, call.at);
      }
    }
  }

  /** Every entry is an admission of that fingerprint, at that time. */
  lemma {:induction false} EntriesAreAdmissions(cs: seq<Cache>, calls: seq<Call>, n: nat, k: Fingerprint)
    requires IsRun(cs, calls) && n < |cs| && k in cs[n]
    ensures exists m :: 0 <= m < n && calls[m].admitted && calls[m].fp == k && calls[m].at == cs[n][k]
  {
    var call := calls[n - 1];
    assert Next(cs[n - 1], call, cs[n]);
    if k in cs[n - 1] && cs[n - 1][k] == cs[n][k] {
      EntriesAreAdmissions(cs, calls, n - 1, k);
    } else {
      assert calls[n - 1].admitted && calls[n - 1].fp == k;
    }
  }

  /** A suppressed call repeats a fingerprint admitted less than a minute before. */
  lemma SuppressionIsJustified(cs: seq<Cache>, calls: seq<Call>, n: nat)
    requires IsRun(cs, calls) && n < |calls| && !calls[n].admitted
    ensures exists m :: 0 <= m < n && calls[m].admitted && calls[m].fp == calls[n].fp && calls[n].at - calls[m].at < 60_000_000_000
  {
    assert Next(cs[n], calls[n], cs[n + 1]);
    EntriesAreAdmissions(cs, calls, n, calls[n].fp);
  }

  // ------------------------------------------------------------ readmission

  /** The other fingerprints admitted before call `n`, no earlier than call `i`. */
  ghost function Others(calls: seq<Call>, i: nat, n: nat): set<Fingerprint>
    requires i < n <= |calls|
  {
    set m | 0 <= m < n && calls[m].admitted && calls[i].at <= calls[m].at && calls[m].fp != calls[i].fp :: calls[m].fp
  }

  /** At the call that evicts the fingerprint of call `i`, 256 others have been admitted. */
  lemma EvictedByCrowd(cs: seq<Cache>, calls: seq<Call>, i: nat, n: nat)
    requires IsRun(cs, calls) && i < n < |calls| && calls[n].admitted && calls[n].fp != calls[i].fp
    requires var r := Retained(cs[n], calls[n].at);
             calls[i].fp in r && calls[i].at <= r[calls[i].fp] && |r| >= CACHE_CAP && Oldest(r, calls[i].fp)
    ensures |Others(calls, i, n + 1)| >= 256
  {
    var r := Retained(cs[n], calls[n].at);
    assert Next(cs[n], calls[n], cs[n + 1]);
    var crowd := r.Keys - {calls[i].fp} + {calls[n].fp};
    assert |crowd| >= 256;
    forall k | k in crowd ensures k in Others(calls, i, n + 1) {
      if k == calls[n].fp {
        assert calls[i].at <= calls[n].at;
      } else {
        EntriesAreAdmissions(cs, calls, n, k);
      }
    }
    SubsetSize(crowd, Others(calls, i, n + 1));
  }

  lemma {:induction false} KeptOrCrowded(cs: seq<Cache>, calls: seq<Call>, i: nat, n: nat)
    requires IsRun(cs, calls) && i < n <= |calls| && calls[i].admitted
    requires calls[n - 1].at - calls[i].at < WINDOW
    ensures || (calls[i].fp in cs[n] && calls[i].at <= cs[n][calls[i].fp])
            || |Others(calls, i, n)| >= 256
  {
    var (p, fp) := (n - 1, calls[i].fp);
    assert Next(cs[p], calls[p], cs[n]);
    if i < p {
      assert calls[p - 1].at <= calls[p].at;
      KeptOrCrowded(cs, calls, i, p);
      if |Others(calls, i, p)| >= 256 {
        assert Others(calls, i, p) <= Others(calls, i, n);
        SubsetSize(Others(calls, i, p), Others(calls, i, n));
      } else {
        var r := Retained(cs[p], calls[p].at);
        assert fp in r;
        if calls[p].admitted && calls[p].victim == Some(fp) {
          EvictedByCrowd(cs, calls, i, p);
        }
      }
    }
  }

  /** The same fingerprint is admitted twice within a minute only if at least 256 other
      fingerprints were admitted in the meantime, counting from the first admission's instant. */
  lemma ReadmissionNeedsCrowd(cs: seq<Cache>, calls: seq<Call>, i: nat, j: nat)
    requires IsRun(cs, calls) && i < j < |calls|
    requires calls[i].admitted && calls[j].admitted && calls[i].fp == calls[j].fp
    requires calls[j].at - calls[i].at < WINDOW
    ensures |Others(calls, i, j)| >= 256
  {
    assert calls[j - 1].at <= calls[j].at;
    KeptOrCrowded(cs, calls, i, j);
    assert Next(cs[j], calls[j], cs[j + 1]);
  }

  /** The other fingerprints admitted before call `n`, strictly later than call `i`. */
  ghost function Later(calls: seq<Call>, i: nat, n: nat): set<Fingerprint>
    requires i < n <= |calls|
  {
    set m | 0 <= m < n && calls[m].admitted && calls[i].at < calls[m].at && calls[m].fp != calls[i].fp :: calls[m].fp
  }

  lemma {:induction false} EntryIsRecent(cs: seq<Cache>, calls: seq<Call>, i: nat, n: nat)
    requires IsRun(cs, calls) && i < n <= |calls| && calls[i].admitted && calls[i].fp in cs[n]
    ensures calls[i].at <= cs[n][calls[i].fp]
  {
    assert Next(cs[n - 1], calls[n - 1], cs[n]);
    if i < n - 1 && calls[i].fp in cs[n - 1] {
      EntryIsRecent(cs, calls, i, n - 1);
    }
  }

  /** A call that leaves an entry of time `at` in place leaves every newer one. */
  lemma NewerStep(c: Cache, call: Call, c': Cache, fp: Fingerprint, at: nat)
    requires Next(c, call, c') && fp in c' && c'[fp] == at < call.at && call.at - at < WINDOW
    ensures fp in c && c[fp] == at
    ensures forall k :: k in c && at < c[k] ==> k in c' && at < c'[k]
  {
  }

  lemma LaterStep(calls: seq<Call>, i: nat, p: nat, k: Fingerprint)
    requires i < p < |calls| && k in Later(calls, i, p + 1)
    ensures k in Later(calls, i, p) || (calls[p].admitted && k == calls[p].fp && calls[i].at < calls[p].at)
  {
  }

  lemma NoneLater(cs: seq<Cache>, calls: seq<Call>, i: nat, n: nat)
    requires IsRun(cs, calls) && i < n <= |calls| && calls[n - 1].at <= calls[i].at
    ensures Later(calls, i, n) == {}
  {
    assert forall m :: 0 <= m < n ==> calls[m].at <= calls[n - 1].at;
  }

  lemma AdmittedIsCached(c: Cache, call: Call, c': Cache)
    requires Next(c, call, c') && call.admitted
    ensures call.fp in c' && c'[call.fp] == call.at
  {
  }

  /** As long as an entry stays, so does everything admitted after it: only an oldest one goes. */
  lemma {:induction false} NewerStay(cs: seq<Cache>, calls: seq<Call>, i: nat, n: nat, k: Fingerprint)
    requires IsRun(cs, calls) && i < n <= |calls| && calls[i].admitted && calls[n - 1].at - calls[i].at < WINDOW
    requires calls[i].fp in cs[n] && cs[n][calls[i].fp] == calls[i].at && k in Later(calls, i, n)
    ensures k in cs[n] && calls[i].at < cs[n][k]
  {
    var p := n - 1;
    assert Next(cs[p], calls[p], cs[n]);
    if calls[p].at <= calls[i].at {
      NoneLater(cs, calls, i, n);
    } else {
      assert calls[p - 1].at <= calls[p].at;
      NewerStep(cs[p], calls[p], cs[n], calls[i].fp, calls[i].at);
      LaterStep(calls, i, p, k);
      if k in Later(calls, i, p) {
        NewerStay(cs, calls, i, p, k);
      } else {
        AdmittedIsCached(cs[p], calls[p], cs[n]);
      }
    }
  }

  /** Once 256 others have been admitted strictly later, the fingerprint is admitted again. */
  lemma CrowdReadmits(cs: seq<Cache>, calls: seq<Call>, i: nat, j: nat)
    requires IsRun(cs, calls) && i < j < |calls| && calls[i].admitted && calls[j].fp == calls[i].fp
    requires forall m :: i < m < j && calls[m].fp == calls[i].fp ==> !calls[m].admitted
    requires calls[j].at - calls[i].at < WINDOW && |Later(calls, i, j)| >= 256
    ensures calls[j].admitted
  {
    assert Next(cs[j], calls[j], cs[j + 1]);
    var fp := calls[i].fp;
    if fp in cs[j] {
      EntryIsRecent(cs, calls, i, j);
      EntriesAreAdmissions(cs, calls, j, fp);
      assert calls[j - 1].at <= calls[j].at;
      forall k | k in Later(calls, i, j) ensures k in cs[j] {
        NewerStay(cs, calls, i, j, k);
      }
      CacheIsBounded(cs, calls, j);
      SubsetSize(Later(calls, i, j) + {fp}, cs[j].Keys);
    }
  }

  /** So "one record a minute" fails in exactly one way: with no other fingerprint admitted at the
      very instant of the last admission, a repeat within the minute is admitted if and only if 256
      other fingerprints have been admitted since. */
  lemma ReadmissionExactly(cs: seq<Cache>, calls: seq<Call>, i: nat, j: nat)
    requires IsRun(cs, calls) && i < j < |calls| && calls[i].admitted && calls[j].fp == calls[i].fp
    requires forall m :: i < m < j && calls[m].fp == calls[i].fp ==> !calls[m].admitted
    requires calls[j].at - calls[i].at < WINDOW
    requires forall m :: 0 <= m < j && calls[m].admitted && calls[m].fp != calls[i].fp ==> calls[m].at != calls[i].at
    ensures calls[j].admitted <==> |Others(calls, i, j)| >= 256
  {
    assert Others(calls, i, j) == Later(calls, i, j);
    if calls[j].admitted {
      ReadmissionNeedsCrowd(cs, calls, i, j);
    } else if |Others(calls, i, j)| >= 256 {
      CrowdReadmits(cs, calls, i, j);
    }
  }

  // ------------------------------------------------------- a readmitting run

  lemma {:induction false} OldestExists(c: Cache) returns (k: Fingerprint)
    requires c != map[]
    ensures Oldest(c, k)
    decreases |c|
  {
    k :| k in c;
    var rest := c - {k};
    assert forall k' :: k' in c ==> k' == k || k' in rest;
    if rest != map[] {
      assert rest.Keys == c.Keys - {k};
      var k' := OldestExists(rest);
      if c[k'] < c[k] {
        k := k';
      }
    }
  }

  lemma AnswerExists(c: Cache, fp: Fingerprint, at: nat) returns (call: Call, c': Cache)
    ensures call.fp == fp && call.at == at && Next(c, call, c')
  {
    var r := Retained(c, at);
    var victim: Option<Fingerprint> := None;
    if |r| >= CACHE_CAP {
      var k := OldestExists(r);
      victim := Some(k);
    }
    call := Call(fp, at, victim, fp !in r);
    c' := if fp in r then r else Without(r, victim)[fp := at];
  }

  /** Every sequence of fingerprints has a run, one call a nanosecond. */
  lemma {:induction false} RunExists(fps: seq<Fingerprint>) returns (cs: seq<Cache>, calls: seq<Call>)
    ensures IsRun(cs, calls) && |calls| == |fps|
    ensures forall i :: 0 <= i < |fps| ==> calls[i].fp == fps[i] && calls[i].at == i
  {
    if fps == [] {
      cs, calls := [map[]], [];
    } else {
      var n := |fps| - 1;
      cs, calls := RunExists(fps[..n]);
      var call, c := AnswerExists(cs[n], fps[n], n);
      cs, calls := cs + [c], calls + [call];
    }
  }

  function NameOf(k: nat): Fingerprint {
    seq(k, _ => 'x')
  }

  ghost function Names(n: nat): set<Fingerprint> {
    set k | 1 <= k <= n :: NameOf(k)
  }

  lemma {:induction false} NamesDiffer(n: nat)
    ensures |Names(n)| == n
  {
    if n == 0 {
      assert Names(n) == {};
    } else {
      NamesDiffer(n - 1);
      assert Names(n) == Names(n - 1) + {NameOf(n)};
      assert forall s :: s in Names(n - 1) ==> |s| < n == |NameOf(n)|;
    }
  }

  /** The names of length 0 to 256 in turn, then the first once more. */
  function Flood(): seq<Fingerprint> {
    seq(257, k requires k >= 0 => NameOf(k)) + [NameOf(0)]
  }

  lemma FloodIsAdmitted(cs: seq<Cache>, calls: seq<Call>, n: nat)
    requires IsRun(cs, calls) && n < 257 <= |calls|
    requires forall i :: 0 <= i < 257 ==> |calls[i].fp| == i
    ensures calls[n].admitted
  {
    if !calls[n].admitted {
      SuppressionIsJustified(cs, calls, n);
    }
  }

  /** A run of 258 calls within a microsecond in which the first fingerprint is admitted twice. */
  lemma FloodReadmits() returns (cs: seq<Cache>, calls: seq<Call>)
    ensures IsRun(cs, calls) && |calls| == 258
    ensures calls[0].fp == calls[257].fp && calls[257].at - calls[0].at < 1000 < WINDOW
    ensures calls[0].admitted && calls[257].admitted
  {
    cs, calls := RunExists(Flood());
    assert forall i :: 0 <= i < 257 ==> calls[i].fp == NameOf(i);
    forall i | 0 <= i < 257 ensures calls[i].admitted {
      FloodIsAdmitted(cs, calls, i);
    }
    NamesDiffer(256);
    forall s | s in Names(256) ensures s in Later(calls, 0, 257) {
      var k :| 1 <= k <= 256 && s == NameOf(k);
      assert calls[k].fp == s;
    }
    SubsetSize(Names(256), Later(calls, 0, 257));
    CrowdReadmits(cs, calls, 0, 257);
  }

  // ---------------------------------------------------- the unbounded limiter

  /** What a limiter with unbounded memory answers: admit unless the same
      fingerprint was admitted less than a minute ago. */
  ghost predicate Ideal(calls: seq<Call>, n: nat)
    requires n < |calls|
    decreases n
  {
    forall m :: 0 <= m < n && calls[m].fp == calls[n].fp && Elapsed(calls[n].at, calls[m].at) < 60_000_000_000 ==> !Ideal(calls, m)
  }

  /** Fingerprints the unbounded limiter admitted in the minute up to and including call `n`. */
  ghost function IdealRecent(calls: seq<Call>, n: nat): set<Fingerprint>
    requires n < |calls|
  {
    set m | 0 <= m <= n && Ideal(calls, m) && Elapsed(calls[n].at, calls[m].at) < 60_000_000_000 :: calls[m].fp
  }

  ghost predicate NeverCrowded(calls: seq<Call>) {
    forall n :: 0 <= n < |calls| ==> |IdealRecent(calls, n)| <= 256
  }

  ghost predicate AgreesBefore(calls: seq<Call>, n: nat)
    requires n <= |calls|
  {
    forall m :: 0 <= m < n ==> (calls[m].admitted <==> Ideal(calls, m))
  }

  /** Everything admitted in the minute before the last call is still cached. */
  ghost predicate Complete(cs: seq<Cache>, calls: seq<Call>, n: nat)
    requires |cs| == |calls| + 1 && n <= |calls|
  {
    forall m :: 0 <= m < n && calls[m].admitted && Elapsed(calls[n - 1].at, calls[m].at) < WINDOW ==>
      calls[m].fp in cs[n] && calls[m].at <= cs[n][calls[m].fp]
  }

  lemma NoEviction(cs: seq<Cache>, calls: seq<Call>, n: nat)
    requires IsRun(cs, calls) && n < |calls| && NeverCrowded(calls) && AgreesBefore(calls, n)
    requires calls[n].admitted && Ideal(calls, n)
    ensures calls[n].victim.None?
  {
    var r := Retained(cs[n], calls[n].at);
    assert Next(cs[n], calls[n], cs[n + 1]);
    var recent := r.Keys + {calls[n].fp};
    forall k | k in recent ensures k in IdealRecent(calls, n) {
      if k != calls[n].fp {
        EntriesAreAdmissions(cs, calls, n, k);
      }
    }
    SubsetSize(recent, IdealRecent(calls, n));
    assert |recent| == |r.Keys| + 1;
  }

  lemma CompleteStep(cs: seq<Cache>, calls: seq<Call>, n: nat)
    requires IsRun(cs, calls) && n < |calls| && Complete(cs, calls, n)
    requires calls[n].admitted ==> calls[n].victim.None?
    ensures Complete(cs, calls, n + 1)
  {
    assert Next(cs[n], calls[n], cs[n + 1]);
    forall m | 0 <= m < n && calls[m].admitted && Elapsed(calls[n].at, calls[m].at) < WINDOW
      ensures calls[m].fp in cs[n + 1] && calls[m].at <= cs[n + 1][calls[m].fp]
    {
      assert calls[m].at <= calls[n - 1].at <= calls[n].at;
      assert calls[m].fp in Retained(cs[n], calls[n].at);
    }
  }

  /** If no minute sees more than 256 fingerprints admitted by the unbounded limiter,
      the bounded one gives exactly its answers. */
  lemma {:induction false} AgreesWithUnbounded(cs: seq<Cache>, calls: seq<Call>, n: nat)
    requires IsRun(cs, calls) && n <= |calls| && NeverCrowded(calls)
    ensures AgreesBefore(calls, n) && Complete(cs, calls, n)
  {
    if n > 0 {
      var p := n - 1;
      AgreesWithUnbounded(cs, calls, p);
      assert Next(cs[p], calls[p], cs[n]);
      if calls[p].admitted {
        forall m | 0 <= m < p && calls[m].fp == calls[p].fp && Elapsed(calls[p].at, calls[m].at) < WINDOW
          ensures !calls[m].admitted
        {
          assert calls[m].at <= calls[p - 1].at <= calls[p].at;
        }
        NoEviction(cs, calls, p);
      } else {
        SuppressionIsJustified(cs, calls, p);
      }
      CompleteStep(cs, calls, p);
    }
  }
}
