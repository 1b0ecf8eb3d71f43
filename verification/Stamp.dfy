/** The compact UTC stamp `YYYYMMDDTHHMMSSZ` and the order of stamps as text. */
module Stamp {
  import opened Wrappers
  import opened Calendar
  import opened Text

  // ---------------------------------------------------------------- the code

  /** `{:04}` of an i32 year; the width of a negative number includes its sign. */
  function YearText(y: int): string {
    if y < 0 then "-" + Padded(-y, 3) else Padded(y, 4)
  }

  /** `{:02}` of each field in turn. */
  function Pairs(fields: seq<nat>): string {
    if fields == [] then "" else Padded(fields[0], 2) + Pairs(fields[1..])
  }

  predicate NonNegative(u: Utc) {
    0 <= u.month && 0 <= u.day && 0 <= u.hour && 0 <= u.minute && 0 <= u.second
  }

  function Compact(u: Utc): string
    requires NonNegative(u)
  {
    YearText(u.year) + (Pairs([u.month, u.day]) + ("T" + (Pairs([u.hour, u.minute, u.second]) + "Z")))
  }

  function CompactStamp(secs: nat): string {
    CivilRanges(secs / SECS_PER_DAY);
    Compact(EpochToUtc(secs))
  }

  // ---------------------------------------------------------- order of fields

  predicate FieldsLess(xs: seq<nat>, ys: seq<nat>)
    requires |xs| == |ys|
  {
    xs != [] && (xs[0] < ys[0] || (xs[0] == ys[0] && FieldsLess(xs[1..], ys[1..])))
  }

  lemma TwoDigits(n: nat)
    requires n < 100
    ensures |Padded(n, 2)| == 2
  {
    assert Padded(n, 2) == Padded(n / 10, 1) + [Digit(n % 10)];
    assert Padded(n / 10, 1) == [Digit(n / 10)];
  }

  ghost predicate AllTwoDigit(xs: seq<nat>) {
    forall i :: 0 <= i < |xs| ==> xs[i] < 100
  }

  lemma {:induction false} PairsOrder(xs: seq<nat>, ys: seq<nat>, s: string, t: string)
    requires |xs| == |ys| && AllTwoDigit(xs) && AllTwoDigit(ys)
    ensures TextLess(Pairs(xs) + s, Pairs(ys) + t) <==> FieldsLess(xs, ys) || (xs == ys && TextLess(s, t))
    ensures |Pairs(xs)| == 2 * |xs|
  {
    if xs == [] {
      assert Pairs(xs) + s == s && Pairs(ys) + t == t;
    } else {
      TwoDigits(xs[0]);
      TwoDigits(ys[0]);
      PaddedOrder(xs[0], ys[0], 2);
      PairsOrder(xs[1..], ys[1..], s, t);
      TextLessConcat(Padded(xs[0], 2), Padded(ys[0], 2), Pairs(xs[1..]) + s, Pairs(ys[1..]) + t);
      assert Pairs(xs) + s == Padded(xs[0], 2) + (Pairs(xs[1..]) + s);
      assert Pairs(ys) + t == Padded(ys[0], 2) + (Pairs(ys[1..]) + t);
      assert xs == [xs[0]] + xs[1..] && ys == [ys[0]] + ys[1..];
    }
  }

  // ------------------------------------------------------------ the theorems

  lemma CompactOrder(a: Utc, b: Utc)
    requires Valid(a) && Valid(b) && |Compact(a)| == |Compact(b)|
    ensures TextLess(Compact(a), Compact(b)) <==> Before(a, b)
  {
    var (da, db) := ([a.month, a.day], [b.month, b.day]);
    var (ta, tb) := ([a.hour, a.minute, a.second], [b.hour, b.minute, b.second]);
    PairsOrder(ta, tb, "Z", "Z");
    PairsOrder(tb, ta, "Z", "Z");
    TextLessConcat("T", "T", Pairs(ta) + "Z", Pairs(tb) + "Z");
    PairsOrder(da, db, "T" + (Pairs(ta) + "Z"), "T" + (Pairs(tb) + "Z"));
    PairsOrder(db, da, "", "");
    TextLessConcat(YearText(a.year), YearText(b.year),
                   Pairs(da) + ("T" + (Pairs(ta) + "Z")), Pairs(db) + ("T" + (Pairs(tb) + "Z")));
    PaddedOrder(a.year, b.year, 4);
    FieldsBefore(a, b);
  }

  lemma FieldsBefore(a: Utc, b: Utc)
    requires Valid(a) && Valid(b)
    ensures var (da, db) := ([a.month, a.day], [b.month, b.day]);
            var (ta, tb) := ([a.hour, a.minute, a.second], [b.hour, b.minute, b.second]);
            Before(a, b) <==>
              a.year < b.year || (a.year == b.year && (FieldsLess(da, db) || (da == db && FieldsLess(ta, tb))))
  {
    ConsLess(a.second, [], b.second, []);
    assert [a.second] + [] == [a.second] && [b.second] + [] == [b.second];
    assert [a.day] + [] == [a.day] && [b.day] + [] == [b.day];
    assert [a.minute] + [a.second] == [a.minute, a.second] && [b.minute] + [b.second] == [b.minute, b.second];
    ConsLess(a.minute, [a.second], b.minute, [b.second]);
    ConsLess(a.hour, [a.minute, a.second], b.hour, [b.minute, b.second]);
    ConsLess(a.day, [], b.day, []);
    ConsLess(a.month, [a.day], b.month, [b.day]);
    assert [a.month] + [a.day] == [a.month, a.day] && [b.month] + [b.day] == [b.month, b.day];
    assert [a.hour] + [a.minute, a.second] == [a.hour, a.minute, a.second];
    assert [b.hour] + [b.minute, b.second] == [b.hour, b.minute, b.second];
    var (da, db) := ([a.month, a.day], [b.month, b.day]);
    assert da == db <==> a.month == b.month && a.day == b.day by {
      if da == db { assert da[0] == db[0] && da[1] == db[1]; }
    }
  }

  lemma ConsLess(x: nat, xs: seq<nat>, y: nat, ys: seq<nat>)
    requires |xs| == |ys|
    ensures FieldsLess([x] + xs, [y] + ys) <==> x < y || (x == y && FieldsLess(xs, ys))
  {
    assert ([x] + xs)[1..] == xs && ([y] + ys)[1..] == ys;
  }

  /** Stamps of equal length sort as text exactly in the order of the instants. */
  lemma StampsSortLikeInstants(s: nat, t: nat)
    requires s < YEAR_OVERFLOW && t < YEAR_OVERFLOW
    requires |CompactStamp(s)| == |CompactStamp(t)|
    ensures TextLess(CompactStamp(s), CompactStamp(t)) <==> s < t
    ensures CompactStamp(s) == CompactStamp(t) <==> s == t
  {
    EpochToUtcIsExact(s);
    EpochToUtcIsExact(t);
    EpochToUtcIsMonotone(s, t);
    EpochToUtcIsMonotone(t, s);
    CompactOrder(EpochToUtc(s), EpochToUtc(t));
    CompactOrder(EpochToUtc(t), EpochToUtc(s));
    TextLessConcat(CompactStamp(s), CompactStamp(t), "", "");
  }

  /** A decimal number with an optional minus sign. */
  function Signed(s: string): int {
    if s != "" && s[0] == '-' then -Number(s[1..]) else Number(s)
  }

  /** Where the fields stand in a stamp with a year of `w` characters. */
  ghost predicate Reads(t: string, w: nat, u: Utc)
    requires |t| == w + 12
  {
    && Signed(t[..w]) == u.year && Number(t[w..w + 2]) == u.month && Number(t[w + 2..w + 4]) == u.day
    && t[w + 4] == 'T'
    && Number(t[w + 5..w + 7]) == u.hour && Number(t[w + 7..w + 9]) == u.minute && Number(t[w + 9..w + 11]) == u.second
    && t[w + 11] == 'Z'
  }

  lemma Slices(y: string, a: string, b: string, c: string, d: string, e: string)
    requires |a| == |b| == |c| == |d| == |e| == 2
    ensures var (t, w) := (y + ((a + b) + ("T" + ((c + d + e) + "Z"))), |y|);
            && |t| == w + 12 && t[..w] == y && t[w..w + 2] == a && t[w + 2..w + 4] == b && t[w + 4] == 'T'
            && t[w + 5..w + 7] == c && t[w + 7..w + 9] == d && t[w + 9..w + 11] == e && t[w + 11] == 'Z'
  {
  }

  lemma PairsOf(a: nat, b: nat, c: nat)
    ensures Pairs([a, b]) == Padded(a, 2) + Padded(b, 2)
    ensures Pairs([a, b, c]) == Padded(a, 2) + Padded(b, 2) + Padded(c, 2)
  {
    assert [c][1..] == [] && [b][1..] == [] && [a, b][1..] == [b] && [b, c][1..] == [c] && [a, b, c][1..] == [b, c];
    assert Pairs([b]) == Padded(b, 2) + "" && Pairs([c]) == Padded(c, 2) + "";
    assert Pairs([b, c]) == Padded(b, 2) + Padded(c, 2);
    Assoc(Padded(a, 2), Padded(b, 2), Padded(c, 2));
  }

  /** Every stamp reads back as the date and time it was made of, wrapped years included. */
  lemma StampReadsBack(secs: nat)
    ensures var t := CompactStamp(secs);
            |t| >= 16 && Reads(t, |t| - 12, EpochToUtc(secs))
  {
    EpochToUtcWraps(secs);
    CivilRanges(secs / SECS_PER_DAY);
    CompactReads(EpochToUtc(secs));
  }

  lemma YearReads(y: int)
    ensures Signed(YearText(y)) == y && |YearText(y)| >= 4
  {
    if y < 0 {
      PaddedReads(-y, 3);
      assert YearText(y)[1..] == Padded(-y, 3);
    } else {
      PaddedReads(y, 4);
      assert '0' <= Padded(y, 4)[0];
    }
  }

  lemma CompactReads(u: Utc)
    requires NonNegative(u) && u.month < 100 && u.day < 100 && u.hour < 100 && u.minute < 100 && u.second < 100
    ensures var t := Compact(u); |t| >= 16 && Reads(t, |t| - 12, u)
  {
    YearReads(u.year);
    FieldReads(u.month);
    FieldReads(u.day);
    FieldReads(u.hour);
    FieldReads(u.minute);
    FieldReads(u.second);
    PairsOf(u.month, u.day, 0);
    PairsOf(u.hour, u.minute, u.second);
    Slices(YearText(u.year), Padded(u.month, 2), Padded(u.day, 2), Padded(u.hour, 2), Padded(u.minute, 2), Padded(u.second, 2));
  }

  lemma FieldReads(n: nat)
    requires n < 100
    ensures |Padded(n, 2)| == 2 && Number(Padded(n, 2)) == n
  {
    TwoDigits(n);
    PaddedReads(n, 2);
  }

  /** Up to the year 9999 every stamp has the sixteen characters of the documented format. */
  lemma StampHasSixteenCharacters(secs: nat)
    requires secs < YEAR_OVERFLOW
    ensures |CompactStamp(secs)| == 16 <==> EpochToUtc(secs).year <= 9999
  {
    EpochToUtcIsExact(secs);
    var u := EpochToUtc(secs);
    PairsOrder([u.month, u.day], [u.month, u.day], "", "");
    PairsOrder([u.hour, u.minute, u.second], [u.hour, u.minute, u.second], "", "");
    YearWidth(u.year);
  }

  lemma {:induction false} YearWidth(y: nat)
    ensures |Padded(y, 4)| == 4 <==> y <= 9999
  {
    PaddedNonEmpty(y / 10 / 10 / 10 / 10, 1);
    assert |Padded(y, 4)| == |Padded(y / 10 / 10 / 10, 1)| + 3 by {
      assert |Padded(y / 10, 3)| == |Padded(y / 10 / 10, 2)| + 1;
    }
  }

  /** Across a change of length the text order can invert: the last second of
      the year 9999 sorts after the first second of the year 10000. */
  lemma StampOrderBreaksAtYear10000()
    ensures TextLess(CompactStamp(253_402_300_800), CompactStamp(253_402_300_799))
  {
    var (a, b) := (Utc(9999, 12, 31, 23, 59, 59), Utc(10_000, 1, 1, 0, 0, 0));
    YearClosedForm(9999);
    YearClosedForm(10_000);
    MonthTable(9999);
    EpochToUtcIsOnto(a);
    EpochToUtcIsOnto(b);
    assert CountSeconds(a) == 253_402_300_799 && CountSeconds(b) == 253_402_300_800;
    LeadingDigits();
  }

  /** The first second of the year 10000. */
  const YEAR_10000: nat := 253_402_300_800

  /** Instants before the first second of a year convert to earlier years. */
  lemma BeforeYear(secs: nat, u: Utc)
    requires Valid(u) && u == Utc(u.year, 1, 1, 0, 0, 0) && secs < CountSeconds(u)
    ensures secs < YEAR_OVERFLOW && EpochToUtc(secs).year < u.year
  {
    EpochToUtcIsOnto(u);
    EpochToUtcIsMonotone(secs, CountSeconds(u));
    EpochToUtcIsExact(secs);
    BeforeNewYear(EpochToUtc(secs), u.year);
  }

  lemma BeforeNewYear(u: Utc, y: int)
    requires Valid(u) && Before(u, Utc(y, 1, 1, 0, 0, 0))
    ensures u.year < y
  {
  }

  lemma NewYear10000()
    ensures Valid(Utc(10_000, 1, 1, 0, 0, 0)) && CountSeconds(Utc(10_000, 1, 1, 0, 0, 0)) == YEAR_10000
  {
    YearClosedForm(10_000);
  }

  ghost predicate SortsBelow(bound: nat) {
    forall s: nat, t: nat :: s < bound && t < bound ==> (TextLess(CompactStamp(s), CompactStamp(t)) <==> s < t)
  }

  /** Stamps sort like instants up to a bound exactly when it does not reach past the year 9999. */
  lemma StampsSortExactlyBefore10000(bound: nat)
    ensures SortsBelow(bound) <==> bound <= YEAR_10000
  {
    if bound <= YEAR_10000 {
      forall s: nat, t: nat | s < bound && t < bound ensures TextLess(CompactStamp(s), CompactStamp(t)) <==> s < t {
        NewYear10000();
        BeforeYear(s, Utc(10_000, 1, 1, 0, 0, 0));
        BeforeYear(t, Utc(10_000, 1, 1, 0, 0, 0));
        StampHasSixteenCharacters(s);
        StampHasSixteenCharacters(t);
        StampsSortLikeInstants(s, t);
      }
    } else {
      StampOrderBreaksAtYear10000();
    }
  }

  lemma LeadingDigits()
    ensures Padded(9999, 4)[..1] == "9" && Padded(10_000, 4)[..1] == "1"
  {
    assert Padded(999, 3) == Padded(99, 2) + "9" && Padded(99, 2) == Padded(9, 1) + "9";
    assert Padded(1000, 3) == Padded(100, 2) + "0" && Padded(100, 2) == Padded(10, 1) + "0";
    assert Padded(10, 1) == Padded(1, 1) + "0";
  }
}
