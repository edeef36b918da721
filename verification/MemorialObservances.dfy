/**
 The lists of Parab, Roj Fravardin and birthday observances, as the schedule builds them: nested scans
 over years and Mahs. Each list is proved to be one unbroken span of its series.
 */
module MemorialObservances {
  import opened Results
  import opened Engine
  import opened RojMahCount
  import opened MemorialSeries

  function ParabSeries(all: bool): Series {
    if all then AllParabs else FravardinTirParabs
  }

  /** The observance on the j-th member of a Parab, Roj Fravardin or birthday series. */
  function ObservanceAt(system: CalendarSystem, death: Death, s: Series, j: int): Observance
    requires Start(death).Ok?
  {
    var t := Slot(s, j);
    var roj, mah, year := IndexRoj(t), IndexMah(t), IndexYear(t);
    var code, title :=
      if s.RojFravardin? then FravRojCode(year, mah)
      else if s.Birthday? then BirthdayCode(year)
      else ParabCode(mah, year),
      if s.RojFravardin? then RojFravardinLabel
      else if s.Birthday? then BirthdayLabel
      else ParabLabel(mah);
    Observance(code, title, t - DeathIndex(death) + 1, Some(roj), Some(mah), year, OccursOn(system, s, j), None)
  }

  /** `n` members in a row, from the one numbered `first`. */
  function Span(system: CalendarSystem, death: Death, s: Series, first: int, n: nat): (out: seq<Observance>)
    requires Start(death).Ok?
    ensures |out| == n
    ensures forall i :: 0 <= i < n ==> out[i] == ObservanceAt(system, death, s, first + i)
  {
    seq(n, i requires 0 <= i < n => ObservanceAt(system, death, s, first + i))
  }

  lemma SpanGrows(system: CalendarSystem, death: Death, s: Series, first: int, n: nat)
    requires Start(death).Ok?
    ensures Span(system, death, s, first, n + 1)
            == Span(system, death, s, first, n) + [ObservanceAt(system, death, s, first + n)]
  {
  }

  /** The next `n` members of a series still to come: all a family is promised. */
  ghost function NextMembers(system: CalendarSystem, death: Death, s: Series, startFrom: Option<int>, n: nat): seq<Observance>
    requires Start(death).Ok?
  {
    Span(system, death, s, FirstKept(system, death, s, startFrom), n)
  }

  /** They are exactly the next `n` members: of the right number, in order, and nothing kept is passed over. */
  lemma NextMembersAreNext(system: CalendarSystem, death: Death, s: Series, startFrom: Option<int>, n: nat)
    requires DeathDate(system, death).Ok?
    ensures var out := NextMembers(system, death, s, startFrom, n);
            && |out| == n
            && (forall i, k :: 0 <= i < k < n ==> out[i].date < out[k].date)
            && (forall o :: o in out ==> Kept(system, death, startFrom, o.date))
            && (forall j :: Kept(system, death, startFrom, OccursOn(system, s, j)) ==>
                  ObservanceAt(system, death, s, j) in out
                  || forall o :: o in out ==> o.date < OccursOn(system, s, j))
  {
    hide Slot, DateOf, ParsiToGregorian, DeathIndex, FirstKept, Kept;
    var first := FirstKept(system, death, s, startFrom);
    var out := NextMembers(system, death, s, startFrom, n);
    forall i, k | 0 <= i < k < n
      ensures out[i].date < out[k].date
    {
      OccursInOrder(system, s, first + i, first + k);
    }
    forall i | 0 <= i < n
      ensures Kept(system, death, startFrom, out[i].date)
    {
      FirstKeptIsFirst(system, death, s, startFrom, first + i);
    }
    forall j | Kept(system, death, startFrom, OccursOn(system, s, j))
      ensures ObservanceAt(system, death, s, j) in out || forall o :: o in out ==> o.date < OccursOn(system, s, j)
    {
      FirstKeptIsFirst(system, death, s, startFrom, j);
      if j < first + n {
        assert out[j - first] == ObservanceAt(system, death, s, j);
      } else {
        forall i | 0 <= i < n
          ensures out[i].date < OccursOn(system, s, j)
        {
          OccursInOrder(system, s, first + i, j);
        }
      }
    }
  }

  // --- Parabs ---

  function ParabMahs(all: bool): seq<int> {
    if all then [1, 2, 3, 4, 5, 6, 7, 8, 9, 10, 11, 12] else [1, 4]
  }

  /** The scan's place in the series. */
  lemma ParabSlot(all: bool, year: int, idx: nat)
    requires idx < |ParabMahs(all)|
    ensures |ParabMahs(all)| == PerYear(ParabSeries(all))
    ensures 1 <= ParabMahs(all)[idx] <= 12
    ensures Slot(ParabSeries(all), PerYear(ParabSeries(all)) * year + idx)
            == Index(year, ParabMahs(all)[idx], ParabRoj(ParabMahs(all)[idx]))
  {
    if all {
      assert (12 * year + idx) % 12 == idx;
      assert ParabMahs(all)[idx] == idx + 1;
    } else {
      assert (2 * year + idx) / 2 == year;
    }
  }

  /** Counting from day 2 through the last anniversary is a span of whole years of the series. */
  lemma ParabRange(all: bool, death: Death, years: nat, j: int)
    requires Start(death).Ok?
    ensures var s := ParabSeries(all);
            var first := FirstAfter(s, DeathIndex(death));
            2 <= Slot(s, j) - DeathIndex(death) + 1 <= CYCLE_DAYS * years + 1
            <==> first <= j < first + PerYear(s) * years
  {
    hide Slot, DeathIndex;
    var s := ParabSeries(all);
    var first := FirstAfter(s, DeathIndex(death));
    SlotYears(s, first, years);
    SlotYears(s, first - 1, years);
    SlotOrder(s, first, j);
    SlotOrder(s, j, first - 1);
    SlotOrder(s, j, first + PerYear(s) * years);
    SlotOrder(s, j, first + PerYear(s) * years - 1);
  }

  /** The scan of `years + 1` years starts before the span and ends after it. */
  lemma ParabScan(all: bool, death: Death, years: nat)
    requires Start(death).Ok?
    ensures var s := ParabSeries(all);
            var first := FirstAfter(s, DeathIndex(death));
            var base := Start(death).value.1;
            PerYear(s) * base <= first && first + PerYear(s) * years <= PerYear(s) * (base + years + 1)
  {
    hide Slot;
    var s := ParabSeries(all);
    var base := Start(death).value.1;
    var first := FirstAfter(s, DeathIndex(death));
    ParabSlot(all, base, 0);
    ParabSlot(all, base - 1, |ParabMahs(all)| - 1);
    ParabSlot(all, base + years + 1, 0);
    SlotYears(s, first - 1, years);
    SlotOrder(s, first, PerYear(s) * base - 1);
    SlotOrder(s, first - 1 + PerYear(s) * years, PerYear(s) * (base + years + 1));
  }

  /** One step of the scan, in terms of the series. */
  lemma ParabStep(all: bool, death: Death, system: CalendarSystem, years: nat, year: int, idx: nat)
    requires Start(death).Ok? && idx < |ParabMahs(all)|
    ensures var s := ParabSeries(all);
            var mah := ParabMahs(all)[idx];
            var roj := ParabRoj(mah);
            var j := PerYear(s) * year + idx;
            var first := FirstAfter(s, DeathIndex(death));
            var dayNumber := Index(year, mah, roj) - DeathIndex(death) + 1;
            && 1 <= mah <= 12
            && (2 <= dayNumber <= CYCLE_DAYS * years + 1 <==> first <= j < first + PerYear(s) * years)
            && ParsiToGregorian(year, system, AskRojMah(mah, roj)).Ok?
            && ObservanceAt(system, death, s, j)
               == Observance(ParabCode(mah, year), ParabLabel(mah), dayNumber, Some(roj), Some(mah), year,
                             ParsiToGregorian(year, system, AskRojMah(mah, roj)).value, None)
  {
    hide Slot, DateOf, ParsiToGregorian, ParabRoj, FirstAfter, Start;
    var mah := ParabMahs(all)[idx];
    ParabSlot(all, year, idx);
    ParabRange(all, death, years, PerYear(ParabSeries(all)) * year + idx);
    DateOfRojMah(system, year, mah, ParabRoj(mah));
    IndexParts(year, mah, ParabRoj(mah));
  }

  method ParabObservances(death: Death, system: CalendarSystem, all: bool, years: nat) returns (out: seq<Observance>)
    requires Start(death).Ok?
    ensures out == Span(system, death, ParabSeries(all), FirstAfter(ParabSeries(all), DeathIndex(death)),
                        PerYear(ParabSeries(all)) * years)
  {
    hide Slot, FirstAfter, ObservanceAt, ParsiToGregorian, ParabRoj;
    var (start, base) := Start(death).value;
    var mahs := ParabMahs(all);
    ghost var s := ParabSeries(all);
    ghost var first := FirstAfter(s, DeathIndex(death));
    ghost var total := PerYear(s) * years;
    out := [];
    ParabScan(all, death, years);
    var yearOffset := 0;
    while yearOffset < years + 1
      invariant 0 <= yearOffset <= years + 1
      invariant out == Span(system, death, s, first, Taken(first, total, PerYear(s) * (base + yearOffset)))
    {
      var year := base + yearOffset;
      var idx := 0;
      ParabSlot(all, year, 0);
      while idx < |mahs|
        invariant 0 <= idx <= |mahs| == PerYear(s)
        invariant out == Span(system, death, s, first, Taken(first, total, PerYear(s) * year + idx))
      {
        var mah := mahs[idx];
        var roj := ParabRoj(mah);
        ghost var j := PerYear(s) * year + idx;
        ParabStep(all, death, system, years, year, idx);
        var dayNumber := DAYS_PER_MONTH * (mah - 1) + (roj - 1) - start + CYCLE_DAYS * yearOffset + 1;
        assert dayNumber == Index(year, mah, roj) - DeathIndex(death) + 1;
        if 2 <= dayNumber <= CYCLE_DAYS * years + 1 {
          var o := Observance(ParabCode(mah, year), ParabLabel(mah), dayNumber, Some(roj), Some(mah), year,
                              ParsiToGregorian(year, system, AskRojMah(mah, roj)).value, None);
          assert o == ObservanceAt(system, death, s, j);
          SpanGrows(system, death, s, first, j - first);
          out := out + [o];
        }
        idx := idx + 1;
      }
      assert PerYear(s) * year + idx == PerYear(s) * (base + yearOffset + 1);
      yearOffset := yearOffset + 1;
    }
  }

  /** How much of a span of `total` from `first` a scan has taken before slot `j`. */
  function Taken(first: int, total: nat, j: int): nat {
    if j <= first then 0 else if j >= first + total then total else j - first
  }

  // --- Roj Fravardin ---

  method FravardinRojObservances(death: Death, deathDate: int, system: CalendarSystem, months: nat,
                                 notBefore: Option<int>, extraYears: nat)
    returns (out: seq<Observance>)
    requires DeathDate(system, death) == Ok(deathDate)
    requires months > 0
    requires extraYears == Gone(system, death, notBefore)
    ensures out == NextMembers(system, death, RojFravardin, notBefore, months)
  {
    hide Slot, DateOf, FirstKept, ParsiToGregorian, Gone;
    var (start, base) := Start(death).value;
    ghost var first := FirstKept(system, death, RojFravardin, notBefore);
    out := [];
    FravardinScan(system, death, notBefore, months);
    var year := death.year;
    while year < death.year + months / 12 + 3 + extraYears
      invariant death.year <= year <= death.year + months / 12 + 3 + extraYears
      invariant |out| < months
      invariant out == Span(system, death, RojFravardin, first, Taken(first, months, 12 * year))
    {
      var mah := 1;
      while mah < 13
        invariant 1 <= mah <= 13
        invariant |out| < months
        invariant out == Span(system, death, RojFravardin, first, Taken(first, months, 12 * year + mah - 1))
      {
        ghost var j := 12 * year + mah - 1;
        FravardinSlot(system, year, mah);
        FirstKeptIsFirst(system, death, RojFravardin, notBefore, j);
        var when := ParsiToGregorian(year, system, AskRojMah(mah, FRAVARDIN_ROJ)).value;
        if !(when <= deathDate || (notBefore.Some? && when < notBefore.value)) {
          var o := Observance(FravRojCode(year, mah), RojFravardinLabel,
                              (year - base) * CYCLE_DAYS + DAYS_PER_MONTH * (mah - 1) + (FRAVARDIN_ROJ - 1) - start + 1,
                              Some(FRAVARDIN_ROJ), Some(mah), year, when, None);
          assert o == ObservanceAt(system, death, RojFravardin, j);
          SpanGrows(system, death, RojFravardin, first, j - first);
          out := out + [o];
          if |out| == months {
            return;
          }
        }
        mah := mah + 1;
      }
      year := year + 1;
    }
    assert false;
  }

  lemma FravardinSlot(system: CalendarSystem, year: int, mah: int)
    requires 1 <= mah <= 12
    ensures var j := 12 * year + mah - 1;
            && Slot(RojFravardin, j) == Index(year, mah, FRAVARDIN_ROJ)
            && IndexMah(Slot(RojFravardin, j)) == mah && IndexRoj(Slot(RojFravardin, j)) == FRAVARDIN_ROJ
            && IndexYear(Slot(RojFravardin, j)) == year
            && ParsiToGregorian(year, system, AskRojMah(mah, FRAVARDIN_ROJ)) == Ok(OccursOn(system, RojFravardin, j))
  {
    hide ParsiToGregorian, DateOf;
    IndexParts(year, mah, FRAVARDIN_ROJ);
    DateOfRojMah(system, year, mah, FRAVARDIN_ROJ);
  }

  /** months / 12 + 3 years, and the ones gone, reach past the last month asked for. */
  lemma FravardinScan(system: CalendarSystem, death: Death, notBefore: Option<int>, months: nat)
    requires DeathDate(system, death).Ok?
    ensures var first := FirstKept(system, death, RojFravardin, notBefore);
            12 * death.year <= first
            && first + months <= 12 * (death.year + months / 12 + 3 + Gone(system, death, notBefore))
  {
    hide DateOf, ParsiToGregorian, Gone, FirstKept;
    var j0 := FirstAfter(RojFravardin, DeathIndex(death));
    GoneCovers(system, death, RojFravardin, notBefore);
    SlotOrder(RojFravardin, 12 * death.year - 1, j0);
    SlotOrder(RojFravardin, j0 - 1, 12 * (death.year + 1) + 1);
  }

  // --- Birthdays ---

  method BirthdayObservances(death: Death, deathDate: int, system: CalendarSystem, roj: int, mah: int, years: nat,
                             notBefore: Option<int>, extraYears: nat)
    returns (out: seq<Observance>)
    requires DeathDate(system, death) == Ok(deathDate)
    requires 1 <= roj <= 30 && 1 <= mah <= 12 && years > 0
    requires extraYears == Gone(system, death, notBefore)
    ensures out == NextMembers(system, death, Birthday(roj, mah), notBefore, years)
  {
    hide DateOf, FirstKept, ParsiToGregorian, Gone;
    var (start, base) := Start(death).value;
    ghost var s := Birthday(roj, mah);
    ghost var first := FirstKept(system, death, s, notBefore);
    out := [];
    BirthdayScan(system, death, roj, mah, notBefore);
    var year := death.year;
    while year < death.year + years + 2 + extraYears
      invariant death.year <= year <= death.year + years + 2 + extraYears
      invariant |out| < years
      invariant out == Span(system, death, s, first, Taken(first, years, year))
    {
      IndexParts(year, mah, roj);
      DateOfRojMah(system, year, mah, roj);
      FirstKeptIsFirst(system, death, s, notBefore, year);
      var when := ParsiToGregorian(year, system, AskRojMah(mah, roj)).value;
      if !(when <= deathDate || (notBefore.Some? && when < notBefore.value)) {
        var o := Observance(BirthdayCode(year), BirthdayLabel,
                            (year - base) * CYCLE_DAYS + DAYS_PER_MONTH * (mah - 1) + (roj - 1) - start + 1,
                            Some(roj), Some(mah), year, when, None);
        assert o == ObservanceAt(system, death, s, year);
        SpanGrows(system, death, s, first, year - first);
        out := out + [o];
        if |out| == years {
          return;
        }
      }
      year := year + 1;
    }
    assert false;
  }

  /** One birthday a year, so the years asked for, two more, and the ones gone are enough. */
  lemma BirthdayScan(system: CalendarSystem, death: Death, roj: int, mah: int, notBefore: Option<int>)
    requires DeathDate(system, death).Ok?
    requires 1 <= roj <= 30 && 1 <= mah <= 12
    ensures var first := FirstKept(system, death, Birthday(roj, mah), notBefore);
            death.year <= first <= death.year + 2 + Gone(system, death, notBefore)
  {
    hide DateOf, ParsiToGregorian, Gone, FirstKept;
    var s := Birthday(roj, mah);
    var j0 := FirstAfter(s, DeathIndex(death));
    GoneCovers(system, death, s, notBefore);
    SlotOrder(s, death.year - 1, j0);
    SlotOrder(s, j0 - 1, death.year + 2);
  }
}
