/**
 Claiming days for a schedule: the first name to claim a key keeps it. The claims are the opening and
 named days, then the yearly series, then the monthly one, each series from its first date still to come.
 */
module MemorialClaims {
  import opened Results
  import opened Engine
  import opened MemorialSeries
  import opened MemorialSchedule

  // --- Entries ---

  predicate HasKey(w: seq<Entry>, key: Key) {
    exists e :: e in w && e.key == key
  }

  /** `dict.setdefault`: a key already claimed keeps its name. */
  function Claim(w: seq<Entry>, e: Entry): seq<Entry> {
    if HasKey(w, e.key) then w else w + [e]
  }

  function ClaimAll(w: seq<Entry>, claims: seq<Entry>): seq<Entry> {
    if claims == [] then w
    else Claim(ClaimAll(w, claims[..|claims| - 1]), claims[|claims| - 1])
  }

  /** Assignment to a key: in place if it is there, at the end if not. */
  function Assign(w: seq<Entry>, e: Entry): seq<Entry> {
    if w == [] then [e]
    else if w[0].key == e.key then [e] + w[1..]
    else [w[0]] + Assign(w[1..], e)
  }

  ghost predicate DistinctKeys(w: seq<Entry>) {
    forall i, j :: 0 <= i < j < |w| ==> w[i].key != w[j].key
  }

  /** In a list of claims, one key is always claimed under one name. */
  ghost predicate OneName(claims: seq<Entry>) {
    forall e, f :: e in claims && f in claims && e.key == f.key ==> e == f
  }

  lemma {:induction false} ClaimAllIs(w: seq<Entry>, claims: seq<Entry>)
    requires DistinctKeys(w) && OneName(claims)
    ensures DistinctKeys(ClaimAll(w, claims))
    ensures forall e :: e in ClaimAll(w, claims) <==> e in w || (e in claims && !HasKey(w, e.key))
  {
    if claims != [] {
      var front, last := claims[..|claims| - 1], claims[|claims| - 1];
      assert claims == front + [last];
      ClaimAllIs(w, front);
      var mid := ClaimAll(w, front);
      if HasKey(mid, last.key) && !HasKey(w, last.key) {
        var e :| e in mid && e.key == last.key;
        assert e in front && e == last;
      }
    }
  }

  lemma {:induction false} AssignIs(w: seq<Entry>, e: Entry)
    requires DistinctKeys(w)
    ensures DistinctKeys(Assign(w, e))
    ensures forall f :: f in Assign(w, e) <==> f == e || (f in w && f.key != e.key)
  {
    if w != [] && w[0].key != e.key {
      AssignIs(w[1..], e);
      var rest := Assign(w[1..], e);
      assert forall f :: f in w <==> f == w[0] || f in w[1..];
      assert forall f :: f in Assign(w, e) <==> f == w[0] || f in rest;
    } else if w != [] {
      assert forall f :: f in w <==> f == w[0] || f in w[1..];
      assert forall f :: f in Assign(w, e) <==> f == e || f in w[1..];
    }
  }

  // --- What is claimed ---

  function LiteralDays(first: int, n: nat): (w: seq<Entry>)
    ensures |w| == n
    ensures forall i :: 0 <= i < n ==> w[i] == Entry(Lit(first + i), DayCode(first + i), DayLabel(first + i))
  {
    seq(n, i requires 0 <= i < n => Entry(Lit(first + i), DayCode(first + i), DayLabel(first + i)))
  }

  function OpeningDays(c: Choice): seq<Entry> {
    match c.opening
    case DaysOneToTen => LiteralDays(1, 10)
    case DaysFiveToNine => LiteralDays(5, 5)
    case _ => []
  }

  predicate TenthWanted(c: Choice) {
    c.opening == DaysOneToTen || c.opening == TenthOnly || 10 in c.dayCounts
  }

  /** The named days picked, the tenth aside. */
  function PickedDays(c: Choice, days: seq<int>): (w: seq<Entry>)
    ensures forall e :: e in w <==> exists n :: n in days && n != 10 && e == Entry(NamedKey(c.death, n), DayCode(n), NamedTitle(n))
  {
    if days == [] then []
    else
      var n := days[|days| - 1];
      var front := PickedDays(c, days[..|days| - 1]);
      assert forall d :: d in days <==> d in days[..|days| - 1] || d == n;
      if n == 10 then front else front + [Entry(NamedKey(c.death, n), DayCode(n), NamedTitle(n))]
  }

  function OpeningEntries(c: Choice): seq<Entry> {
    var opening := ClaimAll([], OpeningDays(c));
    if TenthWanted(c) then Assign(opening, Entry(Lit(10), DayCode(10), Dasmi)) else opening
  }

  function NamedEntries(c: Choice): seq<Entry> {
    ClaimAll(OpeningEntries(c), PickedDays(c, c.dayCounts))
  }

  function PlainKey(c: Choice, monthly: bool, k: int): Key {
    if monthly then CanonMonth(c.death, k) else Y(k)
  }

  function PlainDate(c: Choice, monthly: bool, k: int): int
    requires DeathDate(c.system, c.death).Ok? && k >= 1
  {
    CanonSameDate(c, k);
    KeyDate(c, PlainKey(c, monthly, k))
  }

  lemma PlainDatesIncrease(c: Choice, monthly: bool, i: int, j: int)
    requires DeathDate(c.system, c.death).Ok? && 1 <= i && 1 <= j
    ensures i < j <==> PlainDate(c, monthly, i) < PlainDate(c, monthly, j)
  {
    hide KeyDate, DeathDate, CanonMonth;
    CanonSameDate(c, i);
    CanonSameDate(c, j);
    if i < j {
      SeriesDatesIncrease(c, i, j);
    } else if j < i {
      SeriesDatesIncrease(c, j, i);
    }
  }

  predicate IsFirstFrom(c: Choice, monthly: bool, first: int)
    requires DeathDate(c.system, c.death).Ok? && c.startFrom.Some?
  {
    && first >= 1 && PlainDate(c, monthly, first) >= c.startFrom.value
    && (first > 1 ==> PlainDate(c, monthly, first - 1) < c.startFrom.value)
  }

  lemma {:induction false} FirstFromExists(c: Choice, monthly: bool, k: int)
    requires DeathDate(c.system, c.death).Ok? && k >= 1 && c.startFrom.Some?
    requires k > 1 ==> PlainDate(c, monthly, k - 1) < c.startFrom.value
    ensures exists first :: IsFirstFrom(c, monthly, first)
    decreases c.startFrom.value - PlainDate(c, monthly, k)
  {
    hide PlainDate, ParsiToGregorian;
    if PlainDate(c, monthly, k) >= c.startFrom.value {
      assert IsFirstFrom(c, monthly, k);
    } else {
      PlainDatesIncrease(c, monthly, k, k + 1);
      FirstFromExists(c, monthly, k + 1);
    }
  }

  /** The first k of the series not before the start date. */
  ghost function FirstFrom(c: Choice, monthly: bool): (first: int)
    requires DeathDate(c.system, c.death).Ok? && c.startFrom.Some?
    ensures IsFirstFrom(c, monthly, first)
  {
    FirstFromExists(c, monthly, 1);
    var first :| IsFirstFrom(c, monthly, first);
    first
  }

  lemma OneFirst(c: Choice, monthly: bool, i: int, j: int)
    requires DeathDate(c.system, c.death).Ok? && c.startFrom.Some?
    requires IsFirstFrom(c, monthly, i) && IsFirstFrom(c, monthly, j)
    ensures i == j
  {
    hide PlainDate, ParsiToGregorian;
    if i < j {
      PlainDatesIncrease(c, monthly, i - 1 + 1, j - 1);
      PlainDatesIncrease(c, monthly, j - 1, i);
    } else if j < i {
      PlainDatesIncrease(c, monthly, i - 1, j);
    }
  }

  function SeriesLength(c: Choice, monthly: bool): int {
    if monthly then c.monthlyMonths else c.yearlyYears
  }

  /** The k a series starts from: the first still to come, when starting late. */
  ghost function FirstK(c: Choice, monthly: bool): (first: int)
    requires DeathDate(c.system, c.death).Ok?
    ensures first >= 1
  {
    if c.startFrom.Some? && SeriesLength(c, monthly) != 0 then FirstFrom(c, monthly) else 1
  }

  /** Every check of the choice passes and neither series starts absurdly far from the death. */
  ghost predicate Accepted(c: Choice) {
    ValidChoice(c) && FirstK(c, false) <= FIRST_VALID_LIMIT && FirstK(c, true) <= FIRST_VALID_LIMIT
  }

  /** From `FirstK` on, and only from there, the series is still to come. */
  lemma FirstKIsFirst(c: Choice, monthly: bool, k: int)
    requires DeathDate(c.system, c.death).Ok? && k >= 1 && SeriesLength(c, monthly) != 0
    ensures k >= FirstK(c, monthly) <==> (c.startFrom.Some? ==> PlainDate(c, monthly, k) >= c.startFrom.value)
  {
    hide PlainDate, DeathDate;
    var first := FirstK(c, monthly);
    PlainDatesIncrease(c, monthly, k, first);
    if first > 1 {
      PlainDatesIncrease(c, monthly, first - 1, k);
    }
  }

  function PlainTitle(c: Choice, monthly: bool, k: int): Label {
    if monthly then (if c.plainLabels then Monthly else MonthLabel(k))
    else (if c.plainLabels then Yearly else YearLabel(k))
  }

  function PlainCode(monthly: bool, k: int): Code {
    if monthly then MonthCode(k) else YearCode(k)
  }

  function PlainEntry(c: Choice, monthly: bool, k: int): Entry {
    Entry(PlainKey(c, monthly, k), PlainCode(monthly, k), PlainTitle(c, monthly, k))
  }

  /** `n` members of the yearly or monthly series, from the `first`-th. */
  function PlainClaims(c: Choice, monthly: bool, first: int, n: nat): (w: seq<Entry>)
    ensures |w| == n
    ensures forall i :: 0 <= i < n ==> w[i] == PlainEntry(c, monthly, first + i)
  {
    seq(n, i requires 0 <= i < n => PlainEntry(c, monthly, first + i))
  }

  ghost function WantedEntries(c: Choice): seq<Entry>
    requires ValidChoice(c)
  {
    var withYears := ClaimAll(NamedEntries(c), PlainClaims(c, false, FirstK(c, false), c.yearlyYears));
    ClaimAll(withYears, PlainClaims(c, true, FirstK(c, true), c.monthlyMonths))
  }

  /** The keys of the yearly series from `y0` and the monthly one from `m0`. */
  predicate SeriesHas(c: Choice, y0: int, m0: int, key: Key) {
    || (key.Y? && y0 <= key.k < y0 + c.yearlyYears)
    || exists k :: m0 <= k < m0 + c.monthlyMonths && key == CanonMonth(c.death, k)
  }

  /** The keys of the two series chosen. */
  ghost predicate InSeries(c: Choice, key: Key)
    requires DeathDate(c.system, c.death).Ok?
  {
    SeriesHas(c, FirstK(c, false), FirstK(c, true), key)
  }

  // --- What comes of the claims ---

  lemma NamedKeyInjective(c: Choice, m: int, n: int)
    requires IsNamedDay(m) && IsNamedDay(n) && NamedKey(c.death, m) == NamedKey(c.death, n)
    ensures m == n
  {
  }

  lemma CanonInjective(death: Death, i: int, j: int)
    requires CanonMonth(death, i) == CanonMonth(death, j)
    ensures i == j
  {
  }

  lemma PlainClaimsOneName(c: Choice, monthly: bool, first: int, n: nat)
    ensures OneName(PlainClaims(c, monthly, first, n))
  {
    var w := PlainClaims(c, monthly, first, n);
    forall i, j | 0 <= i < n && 0 <= j < n && w[i].key == w[j].key
      ensures w[i] == w[j]
    {
      if monthly {
        CanonInjective(c.death, first + i, first + j);
      }
    }
  }

  /** The code a claim carries names its key. */
  function KeyOfCode(death: Death, code: Code): Key {
    match code
    case DayCode(n) => if 1 <= n <= 10 then Lit(n) else NamedKey(death, n)
    case YearCode(k) => Y(k)
    case MonthCode(k) => CanonMonth(death, k)
    case _ => Lit(0)
  }

  predicate FromClaims(c: Choice, e: Entry) {
    && e.key == KeyOfCode(c.death, e.code)
    && (e.code.DayCode? || e.code.YearCode? || e.code.MonthCode?)
    && ValidKey(e.key)
    && (e.key.DeciKey? ==> e.key.n == 29 || e.key.n == 59 || e.key.n == 179 || e.key.n == 359)
  }

  lemma OpeningEntriesAre(c: Choice)
    ensures DistinctKeys(OpeningEntries(c))
    ensures forall e :: e in OpeningEntries(c) ==> FromClaims(c, e)
  {
    hide ClaimAll, Assign;
    ClaimAllIs([], OpeningDays(c));
    if TenthWanted(c) {
      AssignIs(ClaimAll([], OpeningDays(c)), Entry(Lit(10), DayCode(10), Dasmi));
    }
  }

  lemma PickedDayIs(c: Choice, n: int)
    requires IsNamedDay(n) && n != 10
    ensures FromClaims(c, Entry(NamedKey(c.death, n), DayCode(n), NamedTitle(n)))
  {
  }

  lemma PickedDaysAre(c: Choice)
    requires forall n :: n in c.dayCounts ==> IsNamedDay(n)
    ensures OneName(PickedDays(c, c.dayCounts))
    ensures forall e :: e in PickedDays(c, c.dayCounts) ==> FromClaims(c, e)
  {
    hide NamedKey, IsNamedDay, FromClaims, NamedTitle;
    var picked := PickedDays(c, c.dayCounts);
    forall e, f | e in picked && f in picked && e.key == f.key
      ensures e == f
    {
      var m :| m in c.dayCounts && m != 10 && e == Entry(NamedKey(c.death, m), DayCode(m), NamedTitle(m));
      var n :| n in c.dayCounts && n != 10 && f == Entry(NamedKey(c.death, n), DayCode(n), NamedTitle(n));
      NamedKeyInjective(c, m, n);
    }
    forall e | e in picked
      ensures FromClaims(c, e)
    {
      var n :| n in c.dayCounts && n != 10 && e == Entry(NamedKey(c.death, n), DayCode(n), NamedTitle(n));
      PickedDayIs(c, n);
    }
  }

  lemma NamedEntriesAre(c: Choice)
    requires forall n :: n in c.dayCounts ==> IsNamedDay(n)
    ensures DistinctKeys(NamedEntries(c))
    ensures forall e :: e in NamedEntries(c) ==> FromClaims(c, e)
  {
    hide OpeningEntries, PickedDays, FromClaims, ClaimAll;
    OpeningEntriesAre(c);
    PickedDaysAre(c);
    ClaimAllIs(OpeningEntries(c), PickedDays(c, c.dayCounts));
  }

  /** Claims of a series are made under codes that name their keys, and only on keys of the series. */
  lemma PlainClaimsAre(c: Choice, monthly: bool)
    requires DeathDate(c.system, c.death).Ok? && SeriesLength(c, monthly) >= 0
    ensures var claims := PlainClaims(c, monthly, FirstK(c, monthly), SeriesLength(c, monthly));
            && OneName(claims)
            && forall e :: e in claims ==> FromClaims(c, e) && InSeries(c, e.key)
  {
    hide FirstK, DeathDate, NamedKey;
    PlainClaimsOneName(c, monthly, FirstK(c, monthly), SeriesLength(c, monthly));
  }

  /** Every key is claimed once, and by a code that names it; every member of the two series is claimed. */
  lemma WantedEntriesAre(c: Choice)
    requires ValidChoice(c)
    ensures DistinctKeys(WantedEntries(c))
    ensures forall e :: e in WantedEntries(c) ==> FromClaims(c, e)
    ensures forall e :: e in WantedEntries(c) ==>
              e in NamedEntries(c)
              || (!HasKey(NamedEntries(c), e.key) && InSeries(c, e.key))
    ensures forall key :: InSeries(c, key) ==> HasKey(WantedEntries(c), key)
  {
    hide NamedEntries, FirstK, CanonMonth, FromClaims, InSeries;
    NamedEntriesAre(c);
    var named := NamedEntries(c);
    PlainClaimsAre(c, false);
    PlainClaimsAre(c, true);
    var years := PlainClaims(c, false, FirstK(c, false), c.yearlyYears);
    var months := PlainClaims(c, true, FirstK(c, true), c.monthlyMonths);
    ClaimAllIs(named, years);
    var mid := ClaimAll(named, years);
    ClaimAllIs(mid, months);
    forall key | InSeries(c, key)
      ensures HasKey(WantedEntries(c), key)
    {
      SeriesClaimed(c, key);
    }
  }

  lemma NamedByDay(c: Choice)
    requires forall n :: n in c.dayCounts ==> IsNamedDay(n)
    ensures DistinctKeys(NamedEntries(c))
    ensures forall e :: e in NamedEntries(c) ==> e.code.DayCode?
  {
    hide ClaimAll, Assign, FromClaims;
    OpeningEntriesAre(c);
    ClaimAllIs([], OpeningDays(c));
    AssignIs(ClaimAll([], OpeningDays(c)), Entry(Lit(10), DayCode(10), Dasmi));
    PickedDaysAre(c);
    ClaimAllIs(OpeningEntries(c), PickedDays(c, c.dayCounts));
  }

  /** A code of the monthly or yearly series is only ever claimed for one of the members chosen. */
  lemma PlainCodesAreChosen(c: Choice, e: Entry, monthly: bool, k: int)
    requires ValidChoice(c) && e in WantedEntries(c) && e.code == PlainCode(monthly, k)
    ensures FirstK(c, monthly) <= k < FirstK(c, monthly) + SeriesLength(c, monthly)
  {
    hide NamedEntries, FirstK, CanonMonth, ClaimAll;
    NamedByDay(c);
    var years := PlainClaims(c, false, FirstK(c, false), c.yearlyYears);
    var months := PlainClaims(c, true, FirstK(c, true), c.monthlyMonths);
    PlainClaimsOneName(c, false, FirstK(c, false), c.yearlyYears);
    PlainClaimsOneName(c, true, FirstK(c, true), c.monthlyMonths);
    ClaimAllIs(NamedEntries(c), years);
    ClaimAllIs(ClaimAll(NamedEntries(c), years), months);
    assert e in years || e in months;
  }

  lemma SeriesClaimed(c: Choice, key: Key)
    requires ValidChoice(c) && InSeries(c, key)
    requires DistinctKeys(NamedEntries(c))
    ensures HasKey(WantedEntries(c), key)
  {
    hide NamedEntries, FirstK, CanonMonth;
    var y0, m0 := FirstK(c, false), FirstK(c, true);
    var years, months := PlainClaims(c, false, y0, c.yearlyYears), PlainClaims(c, true, m0, c.monthlyMonths);
    PlainClaimsOneName(c, false, y0, c.yearlyYears);
    PlainClaimsOneName(c, true, m0, c.monthlyMonths);
    ClaimAllIs(NamedEntries(c), years);
    ClaimAllIs(ClaimAll(NamedEntries(c), years), months);
    var mid := ClaimAll(NamedEntries(c), years);
    if key.Y? && y0 <= key.k < y0 + c.yearlyYears {
      assert years[key.k - y0].key == key;
      ClaimedKey(NamedEntries(c), years, years[key.k - y0]);
      var e :| e in mid && e.key == key;
      assert e in WantedEntries(c);
    } else {
      var k :| m0 <= k < m0 + c.monthlyMonths && key == CanonMonth(c.death, k);
      ClaimedKey(mid, months, months[k - m0]);
    }
  }

  /** A claim's key is held by somebody afterwards. */
  lemma ClaimedKey(w: seq<Entry>, claims: seq<Entry>, e: Entry)
    requires DistinctKeys(w) && OneName(claims) && e in claims
    ensures HasKey(ClaimAll(w, claims), e.key)
  {
    ClaimAllIs(w, claims);
    if HasKey(w, e.key) {
      var f :| f in w && f.key == e.key;
      assert f in ClaimAll(w, claims);
    } else {
      assert e in ClaimAll(w, claims);
    }
  }
}
