/** Counting certificate markers in a trust file. */
module PemCount {
  import opened Wrappers

  /** `-----BEGIN CERTIFICATE-----` */
  const MARKER: Bytes :=
    [45, 45, 45, 45, 45, 66, 69, 71, 73, 78, 32, 67, 69, 82, 84, 73, 70, 73, 67, 65, 84, 69, 45, 45, 45, 45, 45]

  /** The marker is that text in ASCII. */
  lemma MarkerText()
    ensures |MARKER| == |"-----BEGIN CERTIFICATE-----"|
    ensures forall i :: 0 <= i < |MARKER| ==> MARKER[i] == "-----BEGIN CERTIFICATE-----"[i] as int
  {
  }

  predicate OccursAt(needle: Bytes, bytes: Bytes, i: nat) {
    i + |needle| <= |bytes| && bytes[i..i + |needle|] == needle
  }

  /** Positions of pairwise disjoint occurrences, from left to right. */
  ghost predicate IsPacking(needle: Bytes, bytes: Bytes, p: seq<nat>) {
    && (forall k :: 0 <= k < |p| ==> OccursAt(needle, bytes, p[k]))
    && (forall k :: 0 < k < |p| ==> p[k - 1] + |needle| <= p[k])
  }

  /** Occurrence `n` of every packing that has one starts at `i` or later. */
  ghost predicate Ahead(needle: Bytes, bytes: Bytes, n: nat, i: nat) {
    forall p :: IsPacking(needle, bytes, p) && n < |p| ==> i <= p[n]
  }

  /** The scan stands at `i`, having taken the occurrences `found`; no packing does better so far. */
  ghost predicate Counted(needle: Bytes, bytes: Bytes, found: seq<nat>, i: nat) {
    && IsPacking(needle, bytes, found)
    && (found != [] ==> found[|found| - 1] + |needle| <= i)
    && Ahead(needle, bytes, |found|, i)
  }

  lemma Found(needle: Bytes, bytes: Bytes, found: seq<nat>, i: nat)
    requires Counted(needle, bytes, found, i) && OccursAt(needle, bytes, i)
    ensures Counted(needle, bytes, found + [i], i + |needle|)
  {
    TakeGreedily(needle, bytes, |found|, i);
    Extend(needle, bytes, found, i);
  }

  lemma Missed(needle: Bytes, bytes: Bytes, found: seq<nat>, i: nat)
    requires Counted(needle, bytes, found, i) && !OccursAt(needle, bytes, i)
    ensures Counted(needle, bytes, found, i + 1)
  {
    SkipMismatch(needle, bytes, |found|, i);
  }

  /** Leftmost-first counting finds as many disjoint occurrences as there can be, also when
      the needle overlaps itself. */
  method Count(needle: Bytes, bytes: Bytes) returns (n: nat)
    requires needle != []
    ensures exists p :: IsPacking(needle, bytes, p) && |p| == n
    ensures forall p :: IsPacking(needle, bytes, p) ==> |p| <= n
  {
    n := 0;
    var i := 0;
    ghost var found: seq<nat> := [];
    while i + |needle| <= |bytes|
      invariant Counted(needle, bytes, found, i) && |found| == n
      decreases |bytes| - i
    {
      if bytes[i..i + |needle|] == needle {
        Found(needle, bytes, found, i);
        n := n + 1;
        found := found + [i];
        i := i + |needle|;
      } else {
        Missed(needle, bytes, found, i);
        i := i + 1;
      }
    }
    NoneLeft(needle, bytes, n, i);
  }

  lemma NoneLeft(needle: Bytes, bytes: Bytes, n: nat, i: nat)
    requires Ahead(needle, bytes, n, i) && i + |needle| > |bytes|
    ensures forall p :: IsPacking(needle, bytes, p) ==> |p| <= n
  {
    forall p | IsPacking(needle, bytes, p) ensures |p| <= n {
      assert n < |p| ==> OccursAt(needle, bytes, p[n]);
    }
  }

  lemma Extend(needle: Bytes, bytes: Bytes, p: seq<nat>, i: nat)
    requires IsPacking(needle, bytes, p) && OccursAt(needle, bytes, i)
    requires p != [] ==> p[|p| - 1] + |needle| <= i
    ensures IsPacking(needle, bytes, p + [i])
  {
  }

  lemma TakeGreedily(needle: Bytes, bytes: Bytes, n: nat, i: nat)
    requires Ahead(needle, bytes, n, i)
    ensures Ahead(needle, bytes, n + 1, i + |needle|)
  {
    forall p | IsPacking(needle, bytes, p) && n + 1 < |p| ensures i + |needle| <= p[n + 1] {
      assert p[(n + 1) - 1] + |needle| <= p[n + 1];
    }
  }

  lemma SkipMismatch(needle: Bytes, bytes: Bytes, n: nat, i: nat)
    requires Ahead(needle, bytes, n, i) && !OccursAt(needle, bytes, i)
    ensures Ahead(needle, bytes, n, i + 1)
  {
    forall p | IsPacking(needle, bytes, p) && n < |p| ensures i + 1 <= p[n] {
      assert OccursAt(needle, bytes, p[n]);
    }
  }

  /** The number of PEM blocks in a file: the maximum number of disjoint markers. */
  method CountPemBlocks(bytes: Bytes) returns (n: nat)
    ensures exists p :: IsPacking(MARKER, bytes, p) && |p| == n
    ensures forall p :: IsPacking(MARKER, bytes, p) ==> |p| <= n
  {
    n := Count(MARKER, bytes);
  }
}
