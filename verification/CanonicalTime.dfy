/** Canonical UTC timestamps. The kernel and the acceptance ledger accept only second precision; the dashboard
    also admits fractions, and still compares some timestamps as strings. */
module CanonicalTime {
  import opened Prelude
  import opened Calendar

  predicate IsDigit(c: char) {
    '0' <= c <= '9'
  }

  function Digit(c: char): nat
    requires IsDigit(c)
  {
    (c as int) - ('0' as int)
  }

  /** `YYYY-MM-DDTHH:MM:SS`, the nineteen characters before the zone or the fraction. */
  predicate HasStem(s: string) {
    && |s| >= 19
    && forall i :: 0 <= i < 19 ==>
         if i == 4 || i == 7 then s[i] == '-'
         else if i == 10 then s[i] == 'T'
         else if i == 13 || i == 16 then s[i] == ':'
         else IsDigit(s[i])
  }

  predicate HasCanonicalShape(s: string) {
    |s| == 20 && HasStem(s) && s[19] == 'Z'
  }

  function Two(s: string, at: nat): nat
    requires at + 1 < |s| && IsDigit(s[at]) && IsDigit(s[at + 1])
  {
    10 * Digit(s[at]) + Digit(s[at + 1])
  }

  function Fields(s: string): DateTime
    requires HasStem(s)
  {
    DateTime(100 * Two(s, 0) + Two(s, 2), Two(s, 5), Two(s, 8), Two(s, 11), Two(s, 14), Two(s, 17))
  }

  /** Section 5.7 of RFC 3339: a leap second is the last second of a month. */
  predicate IsLeapSecond(t: DateTime) {
    t.RealDate() && t.hour == 23 && t.minute == 59 && t.second == 60 && t.day == MonthLength(t.year, t.month)
  }

  /** `validate_utc_timestamp`: the shape, and a value the RFC 3339 parser accepts. */
  predicate IsCanonical(s: string) {
    HasCanonicalShape(s)
    && (var t := Fields(s); t.RealDate() && (t.RealTime() || IsLeapSecond(t)))
  }

  const NANOS := 1_000_000_000

  /** The instant a canonical timestamp denotes, in nanoseconds. The parser reads a leap second as the last
      nanosecond before it. */
  function Instant(s: string): int
    requires IsCanonical(s)
  {
    var t := Fields(s);
    if t.second == 60 then NANOS * (t.Seconds() - 1) + (NANOS - 1) else NANOS * t.Seconds()
  }

  /** `epoch_seconds`, up to the constant offset of the epoch. */
  function EpochSeconds(s: string): int
    requires IsCanonical(s)
  {
    Instant(s) / NANOS
  }

  function FirstDifference(a: string, b: string): (k: nat)
    requires |a| == |b| && a != b
    ensures k < |a| && a[..k] == b[..k] && a[k] != b[k]
  {
    if a[0] != b[0] then 0
    else
      assert a == [a[0]] + a[1..] && b == [b[0]] + b[1..];
      var k := 1 + FirstDifference(a[1..], b[1..]);
      assert a[..k] == [a[0]] + a[1..][..k-1] && b[..k] == [b[0]] + b[1..][..k-1];
      k
  }

  /** The order of two strings is the order of their first differing characters. */
  lemma OrderAtFirstDifference(a: string, b: string, k: nat)
    requires k < |a| && k < |b| && a[..k] == b[..k] && a[k] != b[k]
    ensures Less(a, b) <==> a[k] < b[k]
  {
    LessAfterCommonPrefix(a, b, k);
  }

  lemma StemOrder(a: string, b: string, k: nat)
    requires HasStem(a) && HasStem(b) && k < 19
    requires a[..k] == b[..k] && a[k] < b[k]
    ensures Earlier(Fields(a), Fields(b))
  {
    assert forall i :: 0 <= i < k ==> a[i] == a[..k][i] == b[..k][i] == b[i];
  }

  lemma EarlierInstant(a: string, b: string)
    requires IsCanonical(a) && IsCanonical(b) && Earlier(Fields(a), Fields(b))
    ensures Instant(a) < Instant(b)
  {
    var x, y := Fields(a), Fields(b);
    if !(x.year == y.year && x.month == y.month && x.day == y.day) {
      EarlierDateEarlierDay(x, y);
    }
  }

  /** Two canonical timestamps that differ first differ in the stem. */
  lemma StemsDiffer(a: string, b: string) returns (k: nat)
    requires IsCanonical(a) && IsCanonical(b) && a != b
    ensures HasStem(a) && HasStem(b) && k < 19 && a[..k] == b[..k] && a[k] != b[k]
  {
    k := FirstDifference(a, b);
  }

  lemma EarlierAtDifference(a: string, b: string, k: nat)
    requires IsCanonical(a) && IsCanonical(b)
    requires HasStem(a) && HasStem(b) && k < 19 && a[..k] == b[..k] && a[k] < b[k]
    ensures Instant(a) < Instant(b) && Less(a, b)
  {
    hide Less, Instant, IsCanonical;
    OrderAtFirstDifference(a, b, k);
    StemOrder(a, b, k);
    EarlierInstant(a, b);
  }

  /** Lexical order on canonical timestamps is temporal order, and no instant has two spellings. */
  lemma LexicalOrderIsTemporalOrder(a: string, b: string)
    requires IsCanonical(a) && IsCanonical(b)
    ensures Less(a, b) <==> Instant(a) < Instant(b)
    ensures a == b <==> Instant(a) == Instant(b)
  {
    hide Less, Instant, IsCanonical, HasStem;
    LessIsTotal(a, b);
    if a != b {
      var k := StemsDiffer(a, b);
      if a[k] < b[k] {
        EarlierAtDifference(a, b, k);
      } else {
        EarlierAtDifference(b, a, k);
      }
    }
  }

  /** Truncated to whole seconds the order survives only weakly: two timestamps collapse exactly when one is the
      leap second right after the other. */
  lemma EpochSecondsMergeOnlyLeapSeconds(a: string, b: string)
    requires IsCanonical(a) && IsCanonical(b) && Less(a, b)
    ensures EpochSeconds(a) <= EpochSeconds(b)
    ensures EpochSeconds(a) == EpochSeconds(b) <==>
            IsLeapSecond(Fields(b)) && Fields(a) == Fields(b).(second := 59)
  {
    LexicalOrderIsTemporalOrder(a, b);
    var x, y := Fields(a), Fields(b);
    assert EpochSeconds(a) == if x.second == 60 then x.Seconds() - 1 else x.Seconds();
    assert EpochSeconds(b) == if y.second == 60 then y.Seconds() - 1 else y.Seconds();
    if EpochSeconds(a) == EpochSeconds(b) && x.second != 60 {
      assert x.Seconds() == y.(second := 59).Seconds();
      SecondsAreInjective(x, y.(second := 59));
    }
  }

  lemma SecondsAreInjective(x: DateTime, y: DateTime)
    requires x.RealDate() && x.RealTime() && y.RealDate() && y.RealTime()
    requires x.Seconds() == y.Seconds()
    ensures x == y
  {
    if !(x.year == y.year && x.month == y.month && x.day == y.day) {
      if Earlier(x, y) {
        EarlierDateEarlierDay(x, y);
      } else {
        EarlierDateEarlierDay(y, x);
      }
    }
  }

  /** The first moment of the month after. */
  function NextMonth(t: DateTime): (next: DateTime)
    requires t.RealDate()
    ensures next.RealDate()
  {
    if t.month == 12 then DateTime(t.year + 1, 1, 1, 0, 0, 0) else DateTime(t.year, t.month + 1, 1, 0, 0, 0)
  }

  /** A sixtieth second is accepted exactly where one can be inserted, right before the first day of a month, and stands for the
      last nanosecond before that. */
  lemma LeapSecondsEndMonths(s: string)
    requires HasCanonicalShape(s) && Fields(s).RealDate() && Fields(s).second == 60
    ensures var t := Fields(s);
            IsCanonical(s) <==> t.hour == 23 && t.minute == 59 && NextMonth(t).DayNumber() == t.DayNumber() + 1
    ensures IsCanonical(s) ==> Instant(s) == 1_000_000_000 * NextMonth(Fields(s)).Seconds() - 1
  {
    hide DaysBeforeYear, DaysBeforeMonth, IsLeapYear;
    MonthEnds(Fields(s));
  }

  lemma MonthEnds(t: DateTime)
    requires t.RealDate()
    ensures NextMonth(t).DayNumber() == t.DayNumber() + 1 <==> t.day == MonthLength(t.year, t.month)
  {
    hide MonthLength, YearLength;
    MonthsEndWhereTheNextBegins(t.year, t.month);
    if t.month == 12 {
      assert DaysBeforeYear(t.year + 1) == DaysBeforeYear(t.year) + YearLength(t.year);
    }
  }

  // ----- The acceptance ledger: the same shape under Python's calendar -----

  /** `validate_timestamp` of the acceptance ledger: years start at 1 and no leap second exists. */
  predicate IsLedgerTimestamp(s: string) {
    HasCanonicalShape(s) && (var t := Fields(s); t.RealDate() && t.RealTime() && t.year >= 1)
  }

  /** Everything the acceptance ledger accepts, the kernel accepts too. The kernel accepts exactly leap seconds
      and year 0 beyond it. */
  lemma LedgerTimestampsAreCanonical(s: string)
    ensures IsLedgerTimestamp(s) <==>
            IsCanonical(s) && !IsLeapSecond(Fields(s)) && Fields(s).year != 0
  {
  }

  // ----- The dashboard: optional fractions of a second -----

  predicate AllDigits(s: string) {
    forall i :: 0 <= i < |s| ==> IsDigit(s[i])
  }

  /** `CANONICAL_UTC_TIMESTAMP` of the dashboard, on a time `fromisoformat` accepts. */
  predicate IsDashboardTimestamp(s: string) {
    && HasStem(s)
    && (var t := Fields(s); t.RealDate() && t.RealTime() && t.year >= 1)
    && |s| >= 20
    && (|| s[19..] == "Z"
        || (|s| > 21 && s[19] == '.' && s[|s|-1] == 'Z' && AllDigits(s[20..|s|-1])))
  }

  /** The digits after the decimal point; none for a whole second. */
  function Fraction(s: string): string
    requires IsDashboardTimestamp(s)
  {
    if s[19] == 'Z' then "" else s[20..|s|-1]
  }

  function FractionValue(digits: string): (r: real)
    requires AllDigits(digits)
    ensures 0.0 <= r < 1.0
  {
    if digits == "" then 0.0 else (Digit(digits[0]) as real + FractionValue(digits[1..])) / 10.0
  }

  /** The instant a dashboard timestamp denotes, in seconds. */
  function DashboardInstant(s: string): real
    requires IsDashboardTimestamp(s)
  {
    Fields(s).Seconds() as real + FractionValue(Fraction(s))
  }

  /** Without a fraction the dashboard admits what the acceptance ledger does. */
  lemma WholeSecondsAreLedgerTimestamps(s: string)
    ensures IsLedgerTimestamp(s) <==> IsDashboardTimestamp(s) && |s| == 20
  {
  }

  predicate OnlyZeros(s: string) {
    forall i :: 0 <= i < |s| ==> s[i] == '0'
  }

  predicate ProperPrefix(a: string, b: string) {
    |a| < |b| && b[..|a|] == a
  }

  lemma {:induction false} FractionIsZeroOnlyOfZeros(digits: string)
    requires AllDigits(digits)
    ensures FractionValue(digits) == 0.0 <==> OnlyZeros(digits)
  {
    if digits != "" {
      FractionIsZeroOnlyOfZeros(digits[1..]);
      assert digits == [digits[0]] + digits[1..];
      if OnlyZeros(digits[1..]) && digits[0] == '0' {
        assert OnlyZeros(digits);
      }
    }
  }

  lemma {:induction false} FractionExtension(a: string, b: string)
    requires AllDigits(a) && AllDigits(b) && |a| <= |b| && b[..|a|] == a
    ensures FractionValue(a) <= FractionValue(b)
    ensures FractionValue(a) == FractionValue(b) <==> OnlyZeros(b[|a|..])
  {
    if a == "" {
      assert b[0..] == b;
      FractionIsZeroOnlyOfZeros(b);
    } else {
      assert a[0] == b[..|a|][0] == b[0];
      assert b[1..][..|a[1..]|] == b[..|a|][1..] == a[1..];
      assert b[1..][|a[1..]|..] == b[|a|..];
      FractionExtension(a[1..], b[1..]);
    }
  }

  lemma {:induction false} FractionOrder(a: string, b: string, k: nat)
    requires AllDigits(a) && AllDigits(b) && k < |a| && k < |b| && a[..k] == b[..k] && a[k] < b[k]
    ensures FractionValue(a) < FractionValue(b)
    decreases k
  {
    if k > 0 {
      assert a[0] == a[..k][0] == b[..k][0] == b[0];
      assert a[1..][..k-1] == a[..k][1..] == b[..k][1..] == b[1..][..k-1];
      FractionOrder(a[1..], b[1..], k - 1);
    }
  }

  /** Where the fractions start to matter: the stems agree. */
  predicate SameSecond(a: string, b: string) {
    |a| >= 19 && |b| >= 19 && a[..19] == b[..19]
  }

  lemma SameSecondSameFields(a: string, b: string)
    requires HasStem(a) && HasStem(b) && SameSecond(a, b)
    ensures Fields(a) == Fields(b)
  {
    assert forall i :: 0 <= i < 19 ==> a[i] == a[..19][i] == b[..19][i] == b[i];
  }

  lemma DifferentSeconds(a: string, b: string)
    requires IsDashboardTimestamp(a) && IsDashboardTimestamp(b) && !SameSecond(a, b)
    ensures a != b
    ensures Less(a, b) <==> DashboardInstant(a) < DashboardInstant(b)
    ensures DashboardInstant(a) != DashboardInstant(b)
  {
    var k := FirstDifference(a[..19], b[..19]);
    assert a[..k] == a[..19][..k] == b[..19][..k] == b[..k];
    assert a[k] == a[..19][k] && b[k] == b[..19][k];
    OrderAtFirstDifference(a, b, k);
    if a[k] < b[k] {
      StemOrder(a, b, k);
      EarlierSeconds(Fields(a), Fields(b));
    } else {
      StemOrder(b, a, k);
      EarlierSeconds(Fields(b), Fields(a));
    }
  }

  lemma EarlierSeconds(x: DateTime, y: DateTime)
    requires x.RealDate() && x.RealTime() && y.RealDate() && y.RealTime() && Earlier(x, y)
    ensures x.Seconds() + 1 <= y.Seconds()
  {
    if !(x.year == y.year && x.month == y.month && x.day == y.day) {
      EarlierDateEarlierDay(x, y);
    }
  }

  lemma FractionParts(s: string, m: nat)
    requires IsDashboardTimestamp(s) && Fraction(s) != "" && m <= |Fraction(s)|
    ensures |s| == 21 + |Fraction(s)| && s[19] == '.'
    ensures s[..20 + m] == s[..19] + ['.'] + Fraction(s)[..m]
    ensures m < |Fraction(s)| ==> s[20 + m] == Fraction(s)[m] && IsDigit(s[20 + m])
    ensures m == |Fraction(s)| ==> s[20 + m] == 'Z'
  {
  }

  /** When one fraction extends the other, the longer one is the smaller string, whatever its digits. */
  lemma LongerFractionSortsFirst(a: string, b: string)
    requires IsDashboardTimestamp(a) && IsDashboardTimestamp(b) && SameSecond(a, b)
    requires ProperPrefix(Fraction(a), Fraction(b))
    ensures Less(b, a) && !Less(a, b) && a != b
    ensures DashboardInstant(a) <= DashboardInstant(b)
    ensures DashboardInstant(a) == DashboardInstant(b) <==> OnlyZeros(Fraction(b)[|Fraction(a)|..])
  {
    var f, g := Fraction(a), Fraction(b);
    var k := |a| - 1;
    SameSecondSameFields(a, b);
    FractionExtension(f, g);
    FractionParts(b, |f|);
    if f == "" {
      assert a[19..][0] == 'Z' && k == 19;
    } else {
      FractionParts(a, |f|);
      assert f[..|f|] == f && g[..|f|] == f;
    }
    assert a[..k] == b[..k] && b[k] < a[k];
    OrderAtFirstDifference(a, b, k);
    OrderAtFirstDifference(b, a, k);
  }

  lemma DifferingFractions(a: string, b: string, k: nat)
    requires IsDashboardTimestamp(a) && IsDashboardTimestamp(b) && SameSecond(a, b)
    requires k < |Fraction(a)| && k < |Fraction(b)| && Fraction(a)[..k] == Fraction(b)[..k]
    requires Fraction(a)[k] < Fraction(b)[k]
    ensures Less(a, b) && !Less(b, a) && a != b
    ensures DashboardInstant(a) < DashboardInstant(b)
  {
    var f, g := Fraction(a), Fraction(b);
    SameSecondSameFields(a, b);
    FractionOrder(f, g, k);
    FractionParts(a, k);
    FractionParts(b, k);
    OrderAtFirstDifference(a, b, 20 + k);
    OrderAtFirstDifference(b, a, 20 + k);
  }

  lemma SameFractions(a: string, b: string)
    requires IsDashboardTimestamp(a) && IsDashboardTimestamp(b) && SameSecond(a, b)
    requires Fraction(a) == Fraction(b)
    ensures a == b
  {
    assert a == a[..19] + a[19..] && b == b[..19] + b[19..];
    if Fraction(a) != "" {
      assert a == a[..19] + ['.'] + Fraction(a) + ['Z'];
      assert b == b[..19] + ['.'] + Fraction(b) + ['Z'];
    }
  }

  /** The first place two fractions differ, or where the shorter one ends. */
  function CommonLength(f: string, g: string): (k: nat)
    ensures k <= |f| && k <= |g| && f[..k] == g[..k]
    ensures k == |f| || k == |g| || f[k] != g[k]
  {
    if f == "" || g == "" || f[0] != g[0] then 0
    else
      var k := 1 + CommonLength(f[1..], g[1..]);
      assert f[..k] == [f[0]] + f[1..][..k-1] && g[..k] == [g[0]] + g[1..][..k-1];
      k
  }

  /** The `as_of` filter keeps an event when its receive time is at most `cutoff` as a string, and the walk back from a decision
      compares an event's two times so. This is the order of the instants exactly when the first one's fraction is no proper
      prefix of the second's, and any digits it has beyond the second's are zeros. */
  predicate StringOrderIsReliable(received: string, cutoff: string)
    requires IsDashboardTimestamp(received) && IsDashboardTimestamp(cutoff)
  {
    SameSecond(received, cutoff) ==>
      && !ProperPrefix(Fraction(received), Fraction(cutoff))
      && (ProperPrefix(Fraction(cutoff), Fraction(received)) ==>
            OnlyZeros(Fraction(received)[|Fraction(cutoff)|..]))
  }

  lemma StringCutoffIsTemporalExactlyWhen(received: string, cutoff: string)
    requires IsDashboardTimestamp(received) && IsDashboardTimestamp(cutoff)
    ensures (AtMost(received, cutoff) <==> DashboardInstant(received) <= DashboardInstant(cutoff))
            <==> StringOrderIsReliable(received, cutoff)
  {
    if SameSecond(received, cutoff) {
      StringCutoffWithinOneSecond(received, cutoff);
    } else {
      DifferentSeconds(received, cutoff);
    }
  }

  lemma StringCutoffWithinOneSecond(received: string, cutoff: string)
    requires IsDashboardTimestamp(received) && IsDashboardTimestamp(cutoff) && SameSecond(received, cutoff)
    ensures (AtMost(received, cutoff) <==> DashboardInstant(received) <= DashboardInstant(cutoff))
            <==> StringOrderIsReliable(received, cutoff)
  {
    hide IsDashboardTimestamp, DashboardInstant, Less;
    var f, g := Fraction(received), Fraction(cutoff);
    var k := CommonLength(f, g);
    if f == g {
      SameFractions(received, cutoff);
    } else if k == |f| {
      LongerFractionSortsFirst(received, cutoff);
    } else if k == |g| {
      LongerFractionSortsFirst(cutoff, received);
    } else if f[k] < g[k] {
      DifferingFractions(received, cutoff, k);
    } else {
      DifferingFractions(cutoff, received, k);
    }
  }

  /** The failing case: half a second past any whole-second cutoff, an event is later and still kept. */
  lemma FractionSlipsPastCutoff(cutoff: string)
    requires IsDashboardTimestamp(cutoff) && |cutoff| == 20
    ensures var received := cutoff[..19] + ".5Z";
            && IsDashboardTimestamp(received)
            && AtMost(received, cutoff)
            && DashboardInstant(cutoff) < DashboardInstant(received)
  {
    hide Less, DaysBeforeYear, DaysBeforeMonth;
    var received := cutoff[..19] + ".5Z";
    assert received[..19] == cutoff[..19];
    assert forall i :: 0 <= i < 19 ==> received[i] == cutoff[i];
    SameSecondSameFields(received, cutoff);
    assert Fraction(received) == "5";
    LongerFractionSortsFirst(cutoff, received);
  }
}
