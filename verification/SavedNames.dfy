/**
 A family's saved names: pairs, two rows under one group number and of one status, and the singles of the
 living family. Merging the names an event was booked with adds what is new and disturbs nothing.
 */
module SavedNames {
  import opened Results
  import opened Text

  datatype Status = Living | Departed

  datatype Section = PairSection | Farmayeshne | OtherSection

  datatype Row = Row(title: string, name: string, status: Status, group: Option<int>)

  datatype Typed = Typed(section: Section, row: Row)

  // --- Comparing names ---

  function TrimStart(s: string): (r: string)
    ensures r == [] || !IsSpace(r[0])
  {
    if s != [] && IsSpace(s[0]) then TrimStart(s[1..]) else s
  }

  function TrimEnd(s: string): (r: string)
    ensures r == [] || !IsSpace(r[|r| - 1])
    ensures r <= s
  {
    if s != [] && IsSpace(s[|s| - 1]) then TrimEnd(s[..|s| - 1]) else s
  }

  function Trim(s: string): string {
    TrimEnd(TrimStart(s))
  }

  lemma TrimOnce(s: string)
    ensures Trim(Trim(s)) == Trim(s)
  {
  }

  predicate AllSpace(s: string) {
    forall i :: 0 <= i < |s| ==> IsSpace(s[i])
  }

  lemma {:induction false} TrimStartExactly(s: string)
    ensures exists lead: string :: s == lead + TrimStart(s) && AllSpace(lead)
  {
    if s != [] && IsSpace(s[0]) {
      TrimStartExactly(s[1..]);
      var lead: string :| s[1..] == lead + TrimStart(s[1..]) && AllSpace(lead);
      assert s == ([s[0]] + lead) + TrimStart(s) && AllSpace([s[0]] + lead);
    } else {
      assert s == [] + TrimStart(s) && AllSpace([]);
    }
  }

  lemma {:induction false} TrimEndExactly(s: string)
    ensures exists trail: string :: s == TrimEnd(s) + trail && AllSpace(trail)
  {
    if s != [] && IsSpace(s[|s| - 1]) {
      var front := s[..|s| - 1];
      TrimEndExactly(front);
      var trail: string :| front == TrimEnd(front) + trail && AllSpace(trail);
      assert s == TrimEnd(s) + (trail + [s[|s| - 1]]) && AllSpace(trail + [s[|s| - 1]]);
    } else {
      assert s == TrimEnd(s) + [] && AllSpace([]);
    }
  }

  /** Trimmed, a name loses the white space around it and no more. */
  lemma TrimExactly(s: string)
    ensures exists lead: string, trail: string :: s == lead + Trim(s) + trail && AllSpace(lead) && AllSpace(trail)
    ensures Trim(s) != [] ==> !IsSpace(Trim(s)[0]) && !IsSpace(Trim(s)[|Trim(s)| - 1])
  {
    hide TrimStart, TrimEnd, IsSpace;
    TrimStartExactly(s);
    TrimEndExactly(TrimStart(s));
    var lead: string :| s == lead + TrimStart(s) && AllSpace(lead);
    var trail: string :| TrimStart(s) == TrimEnd(TrimStart(s)) + trail && AllSpace(trail);
    assert s == lead + Trim(s) + trail;
    TrimmedEnds(s);
  }

  lemma TrimmedEnds(s: string)
    ensures Trim(s) != [] ==> !IsSpace(Trim(s)[0]) && !IsSpace(Trim(s)[|Trim(s)| - 1])
  {
    hide IsSpace;
    var start := TrimStart(s);
    assert TrimEnd(start) <= start;
  }

  /** Names are compared trimmed and case-folded; what folding does to a name is left open. */
  function Key(fold: string -> string, r: Row): (string, string) {
    (r.title, fold(Trim(r.name)))
  }

  function PairKey(fold: string -> string, members: seq<Row>): (Status, (string, string), (string, string))
    requires |members| == 2
  {
    (members[0].status, Key(fold, members[0]), Key(fold, members[1]))
  }

  /** Two rows are one name if title and folded name agree; two pairs are one if status and both names do, in order. */
  lemma SameName(fold: string -> string, a: seq<Row>, b: seq<Row>)
    requires |a| == 2 && |b| == 2
    ensures PairKey(fold, a) == PairKey(fold, b) <==>
              && a[0].status == b[0].status
              && a[0].title == b[0].title && fold(Trim(a[0].name)) == fold(Trim(b[0].name))
              && a[1].title == b[1].title && fold(Trim(a[1].name)) == fold(Trim(b[1].name))
  {
    hide Trim;
  }

  // --- Grouping ---

  /** The rows of a group, in order. */
  function Members(rows: seq<Row>, g: int): (r: seq<Row>)
    ensures forall i :: 0 <= i < |r| ==> r[i].group == Some(g)
  {
    if rows == [] then []
    else
      var last := rows[|rows| - 1];
      Members(rows[..|rows| - 1], g) + if last.group == Some(g) then [last] else []
  }

  /** The groups, in the order they first appear. */
  function GroupOrder(rows: seq<Row>): seq<int> {
    if rows == [] then []
    else
      var order, last := GroupOrder(rows[..|rows| - 1]), rows[|rows| - 1];
      if last.group.Some? && last.group.value !in order then order + [last.group.value] else order
  }

  function InGroup(g: int): Row -> bool {
    (r: Row) => r.group == Some(g)
  }

  /** The rows of a group are exactly those that carry its number, in order. */
  lemma {:induction false} MembersExactly(rows: seq<Row>, g: int) returns (at: seq<nat>)
    ensures IsFilter(rows, Members(rows, g), at, InGroup(g))
  {
    hide IsFilter;
    at := [];
    FilterOfNone(InGroup(g));
    if rows != [] {
      var front, last := rows[..|rows| - 1], rows[|rows| - 1];
      var before := MembersExactly(front, g);
      at := FilterGrows(front, Members(front, g), before, InGroup(g), last);
      assert front + [last] == rows;
      assert InGroup(g)(last) <==> last.group == Some(g);
      assert Members(rows, g) == if last.group == Some(g) then Members(front, g) + [last] else Members(front, g);
    } else {
      assert rows == [] && Members(rows, g) == [];
    }
  }

  /** A group has a row before the other has any. */
  ghost predicate BeginsBefore(rows: seq<Row>, g: int, h: int) {
    exists i :: 0 <= i < |rows| && rows[i].group == Some(g) && forall j :: 0 <= j <= i ==> rows[j].group != Some(h)
  }

  lemma BeginsBeforeStill(rows: seq<Row>, last: Row, g: int, h: int)
    requires BeginsBefore(rows, g, h)
    ensures BeginsBefore(rows + [last], g, h)
  {
    var i :| 0 <= i < |rows| && rows[i].group == Some(g) && forall j :: 0 <= j <= i ==> rows[j].group != Some(h);
    assert (rows + [last])[i] == rows[i];
  }

  /** Groups are listed by their first row. */
  lemma {:induction false} OrderIsByFirstRow(rows: seq<Row>)
    ensures forall a, b :: 0 <= a < b < |GroupOrder(rows)| ==> BeginsBefore(rows, GroupOrder(rows)[a], GroupOrder(rows)[b])
  {
    if rows != [] {
      hide GroupOrder, BeginsBefore;
      var front, last := rows[..|rows| - 1], rows[|rows| - 1];
      assert front + [last] == rows;
      OrderIsByFirstRow(front);
      OrderOneMore(front, last);
      var before, order := GroupOrder(front), GroupOrder(rows);
      forall a, b | 0 <= a < b < |order|
        ensures BeginsBefore(rows, order[a], order[b])
      {
        if b >= |before| {
          LastGroupIsNew(front, before[a], order[b]);
        }
        BeginsBeforeStill(front, last, order[a], order[b]);
      }
    } else {
      assert GroupOrder(rows) == [];
    }
  }

  lemma LastGroupIsNew(rows: seq<Row>, g: int, h: int)
    requires g in GroupOrder(rows) && h !in GroupOrder(rows)
    ensures BeginsBefore(rows, g, h)
  {
    hide Members, GroupOrder;
    OrderHasAll(rows, g);
    OrderHasAll(rows, h);
    NoMembers(rows, g);
    NoMembers(rows, h);
    var i :| 0 <= i < |rows| && rows[i].group == Some(g);
  }

  lemma MembersOneMore(rows: seq<Row>, last: Row, g: int)
    ensures Members(rows + [last], g) == if last.group == Some(g) then Members(rows, g) + [last] else Members(rows, g)
  {
    assert (rows + [last])[..|rows|] == rows;
  }

  lemma {:induction false} MembersOfJoined(a: seq<Row>, b: seq<Row>, g: int)
    ensures Members(a + b, g) == Members(a, g) + Members(b, g)
  {
    if b == [] {
      assert a + b == a;
    } else {
      MembersOfJoined(a, b[..|b| - 1], g);
      assert (a + b)[..|a + b| - 1] == a + b[..|b| - 1];
    }
  }

  lemma {:induction false} NoMembers(rows: seq<Row>, g: int)
    ensures Members(rows, g) == [] <==> forall i :: 0 <= i < |rows| ==> rows[i].group != Some(g)
  {
    if rows != [] {
      var front := rows[..|rows| - 1];
      NoMembers(front, g);
      assert forall i :: 0 <= i < |front| ==> front[i] == rows[i];
    }
  }

  lemma {:induction false} OrderHasAll(rows: seq<Row>, g: int)
    ensures Members(rows, g) != [] <==> g in GroupOrder(rows)
  {
    if rows != [] {
      OrderHasAll(rows[..|rows| - 1], g);
    }
  }

  lemma {:induction false} OrderIsDistinct(rows: seq<Row>)
    ensures forall i, j :: 0 <= i < j < |GroupOrder(rows)| ==> GroupOrder(rows)[i] != GroupOrder(rows)[j]
  {
    if rows != [] {
      OrderIsDistinct(rows[..|rows| - 1]);
    }
  }

  // --- What a valid section is ---

  predicate IsPair(members: seq<Row>) {
    |members| == 2 && members[0].status == members[1].status
  }

  ghost predicate ValidPairs(rows: seq<Row>) {
    && (forall i :: 0 <= i < |rows| ==> rows[i].group.Some?)
    && (forall g :: Members(rows, g) != [] ==> IsPair(Members(rows, g)))
  }

  ghost predicate ValidSingles(rows: seq<Row>) {
    forall i :: 0 <= i < |rows| ==> rows[i].group.None? && rows[i].status == Living
  }

  ghost predicate HasPair(fold: string -> string, rows: seq<Row>, key: (Status, (string, string), (string, string))) {
    exists g :: |Members(rows, g)| == 2 && PairKey(fold, Members(rows, g)) == key
  }

  ghost predicate HasSingle(fold: string -> string, rows: seq<Row>, key: (string, string)) {
    exists i :: 0 <= i < |rows| && Key(fold, rows[i]) == key
  }

  /** The pair rows typed that name someone. */
  function OfferedPairs(names: seq<Typed>): seq<Row> {
    if names == [] then []
    else
      var last := names[|names| - 1];
      OfferedPairs(names[..|names| - 1])
      + if last.section.PairSection? && last.row.group.Some? && Trim(last.row.name) != "" then [last.row] else []
  }

  predicate OffersSingle(n: Typed) {
    n.section.Farmayeshne? && Trim(n.row.name) != ""
  }

  /** Every whole pair that was typed is already among the saved ones. */
  ghost predicate KnowsPairs(fold: string -> string, pairs: seq<Row>, names: seq<Typed>) {
    forall g :: IsPair(Members(OfferedPairs(names), g)) ==> HasPair(fold, pairs, PairKey(fold, Members(OfferedPairs(names), g)))
  }

  /** Everything whole that was typed is already among the saved names. */
  ghost predicate KnowsAll(fold: string -> string, pairs: seq<Row>, singles: seq<Row>, names: seq<Typed>) {
    && KnowsPairs(fold, pairs, names)
    && (forall i :: 0 <= i < |names| && OffersSingle(names[i]) ==> HasSingle(fold, singles, Key(fold, names[i].row)))
  }

  /** The rows typed in the pair section, with a group and a name, in order. */
  lemma {:induction false} OfferedExactly(names: seq<Typed>) returns (typed: seq<Typed>, at: seq<nat>)
    ensures |typed| == |OfferedPairs(names)| && forall i :: 0 <= i < |typed| ==> OfferedPairs(names)[i] == typed[i].row
    ensures IsFilter(names, typed, at, OffersHalf())
  {
    hide IsFilter;
    typed, at := [], [];
    FilterOfNone(OffersHalf());
    if names != [] {
      hide Trim;
      var front, last := names[..|names| - 1], names[|names| - 1];
      var before, places := OfferedExactly(front);
      at := FilterGrows(front, before, places, OffersHalf(), last);
      typed := if OffersHalf()(last) then before + [last] else before;
      assert front + [last] == names;
    }
  }

  function OffersHalf(): Typed -> bool {
    (n: Typed) => n.section == PairSection && n.row.group.Some? && Trim(n.row.name) != ""
  }

  /** A pair as it is stored: titles and status as typed, the names trimmed, under one number. */
  predicate StoredAs(a: Row, b: Row, members: seq<Row>) {
    && |members| == 2 && members[0].status == members[1].status && a.group.Some? && b.group == a.group
    && a == Row(members[0].title, Trim(members[0].name), members[0].status, a.group)
    && b == Row(members[1].title, Trim(members[1].name), members[1].status, a.group)
  }

  /** What is added comes two by two, each two a pair that was typed. */
  ghost predicate AddedAsTyped(added: seq<Row>, names: seq<Typed>) {
    && |added| % 2 == 0
    && forall i :: 0 <= i < |added| && i % 2 == 0 ==> AddedPair(added, i, names)
  }

  ghost predicate AddedPair(added: seq<Row>, i: int, names: seq<Typed>)
    requires 0 <= i < |added|
  {
    i + 1 < |added| && exists h :: StoredAs(added[i], added[i + 1], Members(OfferedPairs(names), h))
  }

  lemma AddedOneMore(added: seq<Row>, a: Row, b: Row, names: seq<Typed>, h: int)
    requires AddedAsTyped(added, names) && StoredAs(a, b, Members(OfferedPairs(names), h))
    ensures AddedAsTyped(added + [a, b], names)
  {
    hide Members, OfferedPairs, StoredAs;
    var all := added + [a, b];
    forall i | 0 <= i < |all| && i % 2 == 0
      ensures AddedPair(all, i, names)
    {
      if i < |added| {
        assert AddedPair(added, i, names);
        var k :| StoredAs(added[i], added[i + 1], Members(OfferedPairs(names), k));
        assert StoredAs(all[i], all[i + 1], Members(OfferedPairs(names), k));
      } else {
        assert StoredAs(all[i], all[i + 1], Members(OfferedPairs(names), h));
      }
    }
  }

  /** Nothing is among `after` that was neither there before nor typed whole. */
  ghost predicate OnlyTyped(fold: string -> string, before: seq<Row>, after: seq<Row>, names: seq<Typed>) {
    forall key :: HasPair(fold, after, key) ==>
      HasPair(fold, before, key)
      || exists g :: IsPair(Members(OfferedPairs(names), g)) && PairKey(fold, Members(OfferedPairs(names), g)) == key
  }

  lemma PairJoins(rows: seq<Row>, a: Row, b: Row, g: int, h: int)
    requires a.group == Some(g) == b.group
    ensures Members(rows + [a, b], h) == Members(rows, h) + if h == g then [a, b] else []
  {
    MembersOfJoined(rows, [a], h);
    MembersOfJoined(rows + [a], [b], h);
    assert rows + [a] + [b] == rows + [a, b];
  }

  /** Two rows under a number no other row has make one more pair, and touch no other. */
  lemma OneMorePair(fold: string -> string, rows: seq<Row>, a: Row, b: Row, g: int)
    requires a.group == Some(g) == b.group && a.status == b.status
    requires GroupsBelow(rows, g)
    ensures GroupsBelow(rows + [a, b], g + 1)
    ensures ValidPairs(rows) ==> ValidPairs(rows + [a, b])
    ensures forall key :: HasPair(fold, rows + [a, b], key) <==> HasPair(fold, rows, key) || key == PairKey(fold, [a, b])
  {
    hide Members;
    var all := rows + [a, b];
    NoMembers(rows, g);
    forall h
      ensures Members(all, h) == Members(rows, h) + if h == g then [a, b] else []
    {
      PairJoins(rows, a, b, g, h);
    }
    assert Members(all, g) == [a, b];
    forall key
      ensures HasPair(fold, all, key) <==> HasPair(fold, rows, key) || key == PairKey(fold, [a, b])
    {
      PairKept(fold, rows, all, g, a, b, key);
    }
  }

  lemma PairKept(fold: string -> string, rows: seq<Row>, all: seq<Row>, g: int, a: Row, b: Row,
                 key: (Status, (string, string), (string, string)))
    requires Members(rows, g) == [] && Members(all, g) == [a, b]
    requires forall h :: h != g ==> Members(all, h) == Members(rows, h)
    ensures HasPair(fold, all, key) <==> HasPair(fold, rows, key) || key == PairKey(fold, [a, b])
  {
    hide Members, Key;
    if HasPair(fold, rows, key) {
      var h :| |Members(rows, h)| == 2 && PairKey(fold, Members(rows, h)) == key;
      assert Members(all, h) == Members(rows, h);
    }
    if key == PairKey(fold, [a, b]) {
      assert |Members(all, g)| == 2 && PairKey(fold, Members(all, g)) == key;
    }
  }

  predicate GroupsBelow(rows: seq<Row>, g: int) {
    forall i :: 0 <= i < |rows| ==> rows[i].group.Some? ==> rows[i].group.value < g
  }

  // --- Only whole pairs ---

  /** The rows of complete pairs, group by group. */
  function WholePairs(rows: seq<Row>, order: seq<int>): seq<Row> {
    if order == [] then []
    else
      var members := Members(rows, order[|order| - 1]);
      WholePairs(rows, order[..|order| - 1]) + if IsPair(members) then members else []
  }

  /** Rows with their group in `order`, as often as they occur. */
  function Among(rows: seq<Row>, order: seq<int>): multiset<Row> {
    if rows == [] then multiset{}
    else
      var last := rows[|rows| - 1];
      Among(rows[..|rows| - 1], order)
      + if last.group.Some? && last.group.value in order then multiset{last} else multiset{}
  }

  lemma {:induction false} AmongOneMore(rows: seq<Row>, order: seq<int>, g: int)
    requires g !in order
    ensures Among(rows, order + [g]) == Among(rows, order) + multiset(Members(rows, g))
  {
    if rows != [] {
      AmongOneMore(rows[..|rows| - 1], order, g);
    }
  }

  lemma {:induction false} AmongNone(rows: seq<Row>)
    ensures Among(rows, []) == multiset{}
  {
    if rows != [] {
      AmongNone(rows[..|rows| - 1]);
    }
  }

  lemma {:induction false} AmongAll(rows: seq<Row>, order: seq<int>)
    requires forall i :: 0 <= i < |rows| ==> rows[i].group.Some? && rows[i].group.value in order
    ensures Among(rows, order) == multiset(rows)
  {
    if rows == [] {
    } else {
      AmongAll(rows[..|rows| - 1], order);
      assert rows[..|rows| - 1] + [rows[|rows| - 1]] == rows;
    }
  }

  lemma {:induction false} WholePairsAre(rows: seq<Row>, order: seq<int>)
    requires forall g :: g in order ==> IsPair(Members(rows, g))
    requires forall i, j :: 0 <= i < j < |order| ==> order[i] != order[j]
    ensures multiset(WholePairs(rows, order)) == Among(rows, order)
  {
    if order == [] {
      AmongNone(rows);
    } else {
      var front, g := order[..|order| - 1], order[|order| - 1];
      assert front + [g] == order;
      WholePairsAre(rows, front);
      AmongOneMore(rows, front, g);
    }
  }

  /** What is offered, whatever the rows: of each group its two rows if it is a pair, and nothing else of it. */
  lemma {:induction false} WholePairsExactly(rows: seq<Row>, order: seq<int>, g: int)
    requires forall i, j :: 0 <= i < j < |order| ==> order[i] != order[j]
    ensures Members(WholePairs(rows, order), g) ==
              if g in order && IsPair(Members(rows, g)) then Members(rows, g) else []
    ensures forall i :: 0 <= i < |WholePairs(rows, order)| ==> WholePairs(rows, order)[i].group.Some?
  {
    hide Members, IsPair;
    NoneIn(g);
    if order != [] {
      var front, last := order[..|order| - 1], order[|order| - 1];
      assert front + [last] == order;
      WholePairsExactly(rows, front, g);
      var members := Members(rows, last);
      MembersOfJoined(WholePairs(rows, front), if IsPair(members) then members else [], g);
      MembersOfMembers(rows, last, g);
    }
  }

  lemma NoneIn(g: int)
    ensures Members([], g) == []
  {
  }

  lemma {:induction false} MembersOfMembers(rows: seq<Row>, g: int, h: int)
    ensures Members(Members(rows, g), h) == if g == h then Members(rows, g) else []
  {
    if rows != [] {
      var front, last := rows[..|rows| - 1], rows[|rows| - 1];
      assert front + [last] == rows;
      MembersOfMembers(front, g, h);
      hide Members;
      MembersOneMore(front, last, g);
      MembersOneMore(Members(front, g), last, h);
    }
  }

  /** From a valid section, only whole pairs are offered and not one row is lost. */
  lemma NoPairIsLost(rows: seq<Row>)
    requires ValidPairs(rows)
    ensures multiset(WholePairs(rows, GroupOrder(rows))) == multiset(rows)
  {
    var order := GroupOrder(rows);
    OrderIsDistinct(rows);
    forall g | g in order
      ensures IsPair(Members(rows, g))
    {
      OrderHasAll(rows, g);
    }
    forall i | 0 <= i < |rows|
      ensures rows[i].group.value in order
    {
      NoMembers(rows, rows[i].group.value);
      OrderHasAll(rows, rows[i].group.value);
    }
    WholePairsAre(rows, order);
    AmongAll(rows, order);
  }

  function DepartedOnly(rows: seq<Row>): seq<Row> {
    if rows == [] then []
    else
      var last := rows[|rows| - 1];
      DepartedOnly(rows[..|rows| - 1]) + if last.status.Departed? then [last] else []
  }

  function HasDeparted(): Row -> bool {
    (r: Row) => r.status == Departed
  }

  /** Only the departed are offered, all of them, in order. */
  lemma {:induction false} DepartedExactly(rows: seq<Row>) returns (at: seq<nat>)
    ensures IsFilter(rows, DepartedOnly(rows), at, HasDeparted())
  {
    hide IsFilter;
    at := [];
    FilterOfNone(HasDeparted());
    if rows != [] {
      var front, last := rows[..|rows| - 1], rows[|rows| - 1];
      var before := DepartedExactly(front);
      at := FilterGrows(front, DepartedOnly(front), before, HasDeparted(), last);
      assert front + [last] == rows;
      assert HasDeparted()(last) <==> last.status == Departed;
      assert DepartedOnly(rows) == if last.status == Departed then DepartedOnly(front) + [last] else DepartedOnly(front);
    } else {
      assert rows == [] && DepartedOnly(rows) == [];
    }
  }

  lemma DepartedOneMore(rows: seq<Row>, last: Row)
    ensures DepartedOnly(rows + [last]) == if last.status.Departed? then DepartedOnly(rows) + [last] else DepartedOnly(rows)
  {
    assert (rows + [last])[..|rows|] == rows;
  }

  lemma {:induction false} MembersOfDeparted(rows: seq<Row>, g: int)
    ensures Members(DepartedOnly(rows), g) == DepartedOnly(Members(rows, g))
  {
    if rows != [] {
      var front, last := rows[..|rows| - 1], rows[|rows| - 1];
      MembersOfDeparted(front, g);
      assert front + [last] == rows;
      hide Members, DepartedOnly;
      MembersOneMore(front, last, g);
      MembersOneMore(DepartedOnly(front), last, g);
      DepartedOneMore(front, last);
      DepartedOneMore(Members(front, g), last);
    }
  }

  lemma {:induction false} DepartedAreRows(rows: seq<Row>)
    ensures forall i :: 0 <= i < |DepartedOnly(rows)| ==> DepartedOnly(rows)[i] in rows
  {
    if rows != [] {
      DepartedAreRows(rows[..|rows| - 1]);
    }
  }

  /** The departed of a valid section are whole pairs themselves: offering only them breaks up no pair. */
  lemma DepartedStayWhole(rows: seq<Row>)
    requires ValidPairs(rows)
    ensures ValidPairs(DepartedOnly(rows))
  {
    hide Members, DepartedOnly;
    var departed := DepartedOnly(rows);
    forall g | Members(departed, g) != []
      ensures IsPair(Members(departed, g))
    {
      MembersOfDeparted(rows, g);
      DepartedPair(Members(rows, g));
    }
    DepartedAreRows(rows);
    forall i | 0 <= i < |departed|
      ensures departed[i].group.Some?
    {
      assert departed[i] in rows;
    }
  }

  lemma DepartedPair(members: seq<Row>)
    requires members != [] ==> IsPair(members)
    ensures DepartedOnly(members) == members || DepartedOnly(members) == []
  {
    if members != [] {
      assert members == [members[0]] + [members[1]];
      DepartedOneMore([members[0]], members[1]);
      DepartedOneMore([], members[0]);
      assert [] + [members[0]] == [members[0]];
    }
  }

  // --- The rows, changed in place ---

  ghost predicate Grouped(rows: seq<Row>, order: seq<int>, groups: map<int, seq<Row>>) {
    && order == GroupOrder(rows)
    && (forall g :: g in groups <==> g in order)
    && (forall g :: Members(rows, g) == if g in groups then groups[g] else [])
  }

  lemma SameGroups(rows: seq<Row>, row: Row, order: seq<int>, groups: map<int, seq<Row>>)
    requires Grouped(rows, order, groups) && row.group.None?
    ensures Grouped(rows + [row], order, groups)
  {
    hide Members, GroupOrder;
    OrderOneMore(rows, row);
    forall g
      ensures Members(rows + [row], g) == Members(rows, g)
    {
      MembersOneMore(rows, row, g);
    }
  }

  lemma NewGroup(rows: seq<Row>, row: Row, order: seq<int>, groups: map<int, seq<Row>>, g: int)
    requires Grouped(rows, order, groups) && row.group == Some(g) && g !in groups
    ensures Grouped(rows + [row], order + [g], groups[g := [row]])
  {
    hide Members, GroupOrder;
    OrderOneMore(rows, row);
    forall h
      ensures Members(rows + [row], h) == if h == g then [row] else Members(rows, h)
    {
      MembersOneMore(rows, row, h);
    }
  }

  lemma LargerGroup(rows: seq<Row>, row: Row, order: seq<int>, groups: map<int, seq<Row>>, g: int)
    requires Grouped(rows, order, groups) && row.group == Some(g) && g in groups
    ensures Grouped(rows + [row], order, groups[g := groups[g] + [row]])
  {
    hide Members, GroupOrder;
    OrderOneMore(rows, row);
    forall h
      ensures Members(rows + [row], h) == if h == g then groups[g] + [row] else Members(rows, h)
    {
      MembersOneMore(rows, row, h);
    }
  }

  /** Rows by group, and the groups in the order they first appear. */
  method GroupRows(rows: seq<Row>) returns (order: seq<int>, groups: map<int, seq<Row>>)
    ensures order == GroupOrder(rows)
    ensures forall g :: g in groups <==> g in order
    ensures forall g :: Members(rows, g) == if g in groups then groups[g] else []
  {
    hide Grouped, GroupOrder, Members;
    order, groups := [], map[];
    var i := 0;
    NoRowsNoGroups(rows[..0]);
    while i < |rows|
      invariant 0 <= i <= |rows| && Grouped(rows[..i], order, groups)
    {
      var row := rows[i];
      assert rows[..i + 1] == rows[..i] + [row];
      if row.group.None? {
        SameGroups(rows[..i], row, order, groups);
      } else if row.group.value !in groups {
        NewGroup(rows[..i], row, order, groups, row.group.value);
        order := order + [row.group.value];
        groups := groups[row.group.value := [row]];
      } else {
        LargerGroup(rows[..i], row, order, groups, row.group.value);
        groups := groups[row.group.value := groups[row.group.value] + [row]];
      }
      i := i + 1;
    }
    assert rows[..i] == rows;
    GroupedGives(rows, order, groups);
  }

  lemma GroupedGives(rows: seq<Row>, order: seq<int>, groups: map<int, seq<Row>>)
    requires Grouped(rows, order, groups)
    ensures order == GroupOrder(rows)
    ensures forall g :: g in groups <==> g in order
    ensures forall g :: Members(rows, g) == if g in groups then groups[g] else []
  {
  }

  lemma OrderOneMore(rows: seq<Row>, last: Row)
    ensures var order := GroupOrder(rows);
            GroupOrder(rows + [last]) ==
              if last.group.Some? && last.group.value !in order then order + [last.group.value] else order
  {
    assert (rows + [last])[..|rows|] == rows;
  }

  lemma NoRowsNoGroups(rows: seq<Row>)
    requires rows == []
    ensures Grouped(rows, [], map[])
  {
  }

  /** Only rows of complete pairs of one status, in the order the pairs first appear. */
  method CompletePairs(rows: seq<Row>) returns (whole: seq<Row>)
    ensures whole == WholePairs(rows, GroupOrder(rows))
    ensures ValidPairs(rows) ==> multiset(whole) == multiset(rows)
  {
    hide Members, GroupOrder;
    var order, groups := GroupRows(rows);
    whole := [];
    var i := 0;
    while i < |order|
      invariant 0 <= i <= |order|
      invariant whole == WholePairs(rows, order[..i])
    {
      assert order[..i + 1][..i] == order[..i];
      var g := order[i];
      assert g in order && g in groups;
      if IsPair(groups[g]) {
        whole := whole + groups[g];
      }
      i := i + 1;
    }
    assert order[..i] == order;
    if ValidPairs(rows) {
      NoPairIsLost(rows);
    }
  }

  /** A section may be written exactly when it is valid. */
  method ValidateSectionNames(section: Section, rows: seq<Row>) returns (ok: bool)
    ensures ok <==> if section.Farmayeshne? then ValidSingles(rows) else ValidPairs(rows)
  {
    hide Members, GroupOrder;
    if section.Farmayeshne? {
      return forall i :: 0 <= i < |rows| ==> rows[i].group.None? && rows[i].status == Living;
    }
    if exists i :: 0 <= i < |rows| && rows[i].group.None? {
      return false;
    }
    var order, groups := GroupRows(rows);
    var i := 0;
    while i < |order|
      invariant 0 <= i <= |order|
      invariant forall j :: 0 <= j < i ==> IsPair(Members(rows, order[j]))
    {
      OrderHasAll(rows, order[i]);
      if !IsPair(groups[order[i]]) {
        return false;
      }
      i := i + 1;
    }
    return true;
  }

  /** The next free group number, past every one in use. */
  method NextGroup(rows: seq<Row>) returns (next: int)
    ensures GroupsBelow(rows, next)
  {
    var order, _ := GroupRows(rows);
    var max := if order == [] then 0 else order[0];
    var i := 0;
    while i < |order|
      invariant 0 <= i <= |order|
      invariant forall j :: 0 <= j < i ==> order[j] <= max
    {
      if order[i] > max {
        max := order[i];
      }
      i := i + 1;
    }
    forall k | 0 <= k < |rows| && rows[k].group.Some?
      ensures rows[k].group.value <= max
    {
      NoMembers(rows, rows[k].group.value);
      OrderHasAll(rows, rows[k].group.value);
    }
    next := max + 1;
  }

  /** Every complete pair of the rows, as it is compared. */
  method PairKeys(fold: string -> string, rows: seq<Row>) returns (keys: set<(Status, (string, string), (string, string))>)
    ensures forall key :: key in keys <==> HasPair(fold, rows, key)
  {
    hide Members, GroupOrder, Key;
    var _, groups := GroupRows(rows);
    keys := set g | g in groups && |groups[g]| == 2 :: PairKey(fold, groups[g]);
    forall key
      ensures key in keys <==> HasPair(fold, rows, key)
    {
      if HasPair(fold, rows, key) {
        var g :| |Members(rows, g)| == 2 && PairKey(fold, Members(rows, g)) == key;
        assert g in groups && groups[g] == Members(rows, g);
      }
    }
  }

  /** The new pair rows: each whole pair typed that is not known yet, once, under the next free number. */
  method NewPairs(fold: string -> string, pairs: seq<Row>, names: seq<Typed>) returns (added: seq<Row>)
    ensures ValidPairs(pairs) ==> ValidPairs(pairs + added)
    ensures KnowsPairs(fold, pairs + added, names)
    ensures OnlyTyped(fold, pairs, pairs + added, names)
    ensures AddedAsTyped(added, names)
    ensures KnowsPairs(fold, pairs, names) ==> added == []
  {
    hide Members, GroupOrder, Key, ValidPairs, HasPair, GroupsBelow, Trim, AddedAsTyped;
    NoneAdded(names);
    ghost var offered := OfferedPairs(names);
    var haves := PairKeys(fold, pairs);
    var next := NextGroup(pairs);
    var rows := Offered(names);
    var order, incoming := GroupRows(rows);
    added := [];
    var i := 0;
    assert pairs + [] == pairs;
    while i < |order|
      invariant 0 <= i <= |order|
      invariant ValidPairs(pairs) ==> ValidPairs(pairs + added)
      invariant GroupsBelow(pairs + added, next)
      invariant forall key :: key in haves <==> HasPair(fold, pairs + added, key)
      invariant forall j :: 0 <= j < i && IsPair(Members(offered, order[j])) ==> PairKey(fold, Members(offered, order[j])) in haves
      invariant OnlyTyped(fold, pairs, pairs + added, names)
      invariant AddedAsTyped(added, names)
      invariant KnowsPairs(fold, pairs, names) ==> added == []
    {
      var group := order[i];
      assert group in order && group in incoming;
      var members := incoming[group];
      assert members == Members(offered, group);
      i := i + 1;
      if IsPair(members) && PairKey(fold, members) !in haves {
        var a := Row(members[0].title, Trim(members[0].name), members[0].status, Some(next));
        var b := Row(members[1].title, Trim(members[1].name), members[1].status, Some(next));
        SameKeys(fold, members, a, b);
        AddedOneMore(added, a, b, names, group);
        OneMorePair(fold, pairs + added, a, b, next);
        assert pairs + added + [a, b] == pairs + (added + [a, b]);
        haves := haves + {PairKey(fold, members)};
        added := added + [a, b];
        next := next + 1;
      }
    }
    forall g | IsPair(Members(offered, g))
      ensures HasPair(fold, pairs + added, PairKey(fold, Members(offered, g)))
    {
      OrderHasAll(offered, g);
    }
  }

  lemma NoneAdded(names: seq<Typed>)
    ensures AddedAsTyped([], names)
  {
  }

  method Offered(names: seq<Typed>) returns (rows: seq<Row>)
    ensures rows == OfferedPairs(names)
  {
    rows := [];
    var i := 0;
    while i < |names|
      invariant 0 <= i <= |names| && rows == OfferedPairs(names[..i])
    {
      var n := names[i];
      assert names[..i + 1][..i] == names[..i];
      if n.section.PairSection? && n.row.group.Some? && Trim(n.row.name) != "" {
        rows := rows + [n.row];
      }
      i := i + 1;
    }
    assert names[..i] == names;
  }

  /** Stored trimmed, a pair is compared as it was typed. */
  lemma SameKeys(fold: string -> string, members: seq<Row>, a: Row, b: Row)
    requires |members| == 2
    requires a.title == members[0].title && a.name == Trim(members[0].name) && a.status == members[0].status
    requires b.title == members[1].title && b.name == Trim(members[1].name)
    ensures PairKey(fold, [a, b]) == PairKey(fold, members)
  {
    TrimOnce(members[0].name);
    TrimOnce(members[1].name);
  }

  /** The new single rows: each name typed that is not known yet, once. */
  method NewSingles(fold: string -> string, singles: seq<Row>, names: seq<Typed>) returns (added: seq<Row>)
    ensures ValidSingles(singles) ==> ValidSingles(singles + added)
    ensures forall i :: 0 <= i < |names| && OffersSingle(names[i]) ==> HasSingle(fold, singles + added, Key(fold, names[i].row))
    ensures forall key :: HasSingle(fold, singles + added, key) ==>
      HasSingle(fold, singles, key) || exists i :: 0 <= i < |names| && OffersSingle(names[i]) && Key(fold, names[i].row) == key
    ensures (forall i :: 0 <= i < |names| && OffersSingle(names[i]) ==> HasSingle(fold, singles, Key(fold, names[i].row))) ==> added == []
    ensures forall r :: r in added ==> SingleAsTyped(r, names)
  {
    hide Key, HasSingle, Trim, OffersSingle;
    var haves := SingleKeys(fold, singles);
    added := [];
    assert singles + [] == singles;
    var i := 0;
    while i < |names|
      invariant 0 <= i <= |names|
      invariant ValidSingles(singles) ==> ValidSingles(singles + added)
      invariant forall key :: key in haves <==> HasSingle(fold, singles + added, key)
      invariant forall j :: 0 <= j < i && OffersSingle(names[j]) ==> Key(fold, names[j].row) in haves
      invariant forall key :: HasSingle(fold, singles + added, key) ==>
        HasSingle(fold, singles, key) || exists j :: 0 <= j < |names| && OffersSingle(names[j]) && Key(fold, names[j].row) == key
      invariant (forall j :: 0 <= j < |names| && OffersSingle(names[j]) ==> HasSingle(fold, singles, Key(fold, names[j].row))) ==> added == []
      invariant forall r :: r in added ==> SingleAsTyped(r, names)
    {
      var n := names[i];
      i := i + 1;
      if OffersSingle(n) && Key(fold, n.row) !in haves {
        var row := Row(n.row.title, Trim(n.row.name), Living, None);
        OneMoreSingle(fold, singles + added, n.row, row);
        OneAsTyped(names, i - 1);
        assert singles + added + [row] == singles + (added + [row]);
        haves := haves + {Key(fold, n.row)};
        added := added + [row];
      }
    }
  }

  /** A single as it is stored: a name typed in its section, trimmed, living and in no pair. */
  ghost predicate SingleAsTyped(r: Row, names: seq<Typed>) {
    exists i :: 0 <= i < |names| && names[i].section == Farmayeshne && Trim(names[i].row.name) != ""
                && r == Row(names[i].row.title, Trim(names[i].row.name), Living, None)
  }

  lemma OneAsTyped(names: seq<Typed>, i: nat)
    requires i < |names| && OffersSingle(names[i])
    ensures SingleAsTyped(Row(names[i].row.title, Trim(names[i].row.name), Living, None), names)
  {
  }

  method SingleKeys(fold: string -> string, rows: seq<Row>) returns (keys: set<(string, string)>)
    ensures forall key :: key in keys <==> HasSingle(fold, rows, key)
  {
    hide Key;
    keys := set i | 0 <= i < |rows| :: Key(fold, rows[i]);
  }

  lemma OneMoreSingle(fold: string -> string, rows: seq<Row>, typed: Row, row: Row)
    requires row.title == typed.title && row.name == Trim(typed.name)
    ensures forall key :: HasSingle(fold, rows + [row], key) <==> HasSingle(fold, rows, key) || key == Key(fold, typed)
  {
    hide Trim;
    var all := rows + [row];
    TrimOnceKey(fold, typed, row);
    assert all[|rows|] == row;
    assert forall i :: 0 <= i < |rows| ==> all[i] == rows[i];
  }

  lemma TrimOnceKey(fold: string -> string, typed: Row, row: Row)
    requires row.title == typed.title && row.name == Trim(typed.name)
    ensures Key(fold, row) == Key(fold, typed)
  {
    TrimOnce(typed.name);
  }

  class Pool {
    const fold: string -> string
    var pairs: seq<Row>
    var singles: seq<Row>

    constructor (fold: string -> string)
      ensures Valid() && pairs == [] && singles == []
      ensures this.fold == fold
    {
      this.fold := fold;
      pairs, singles := [], [];
    }

    ghost predicate Valid()
      reads this
    {
      ValidPairs(pairs) && ValidSingles(singles)
    }

    /** Replace one section whole, or refuse it. */
    method ReplaceSection(section: Section, rows: seq<Row>) returns (ok: bool)
      modifies this
      ensures ok <==> if section.Farmayeshne? then ValidSingles(rows) else ValidPairs(rows)
      ensures pairs == if ok && !section.Farmayeshne? then rows else old(pairs)
      ensures singles == if ok && section.Farmayeshne? then rows else old(singles)
    {
      ok := ValidateSectionNames(section, rows);
      if ok {
        if section.Farmayeshne? {
          singles := rows;
        } else {
          pairs := rows;
        }
      }
    }

    /**
     Remember the names an event was booked with. A valid pool is never refused, stays valid, keeps every row
     it had in its place, gains exactly the whole pairs and names it did not know, and gains nothing the second time.
     */
    method MergeSavedNames(names: seq<Typed>) returns (ok: bool)
      modifies this
      ensures old(Valid()) ==> ok && Valid()
      ensures old(pairs) <= pairs && old(singles) <= singles
      ensures ok ==> KnowsAll(fold, pairs, singles, names) && OnlyTyped(fold, old(pairs), pairs, names)
      ensures ok ==> forall key :: HasSingle(fold, singles, key) ==>
        HasSingle(fold, old(singles), key) || exists i :: 0 <= i < |names| && OffersSingle(names[i]) && Key(fold, names[i].row) == key
      ensures ok ==> AddedAsTyped(pairs[|old(pairs)|..], names) && forall r :: r in singles[|old(singles)|..] ==> SingleAsTyped(r, names)
      ensures old(KnowsAll(fold, pairs, singles, names)) ==> ok && pairs == old(pairs) && singles == old(singles)
    {
      hide ValidPairs, ValidSingles, HasPair, HasSingle, Members, Key, OffersSingle, OfferedPairs, OnlyTyped;
      var newPairs := NewPairs(fold, pairs, names);
      var newSingles := NewSingles(fold, singles, names);
      ok := true;
      assert pairs + [] == pairs && singles + [] == singles;
      if newPairs != [] {
        ok := ReplaceSection(PairSection, pairs + newPairs);
        if !ok {
          return;
        }
      }
      if newSingles != [] {
        ok := ReplaceSection(Farmayeshne, singles + newSingles);
      }
    }

    /** Take out a saved pair row, its partner with it. */
    method DeletePairRow(i: nat)
      requires i < |pairs|
      modifies this
      ensures old(ValidPairs(pairs)) ==> ValidPairs(pairs)
      ensures pairs == if old(pairs)[i].group.Some? then Without(old(pairs), old(pairs)[i].group.value)
                       else old(pairs)[..i] + old(pairs)[i + 1..]
      ensures singles == old(singles)
    {
      if pairs[i].group.Some? {
        if ValidPairs(pairs) {
          WithoutIsValid(pairs, pairs[i].group.value);
        }
        pairs := Without(pairs, pairs[i].group.value);
      } else {
        pairs := pairs[..i] + pairs[i + 1..];
      }
    }
  }

  function Without(rows: seq<Row>, g: int): seq<Row> {
    if rows == [] then []
    else
      var last := rows[|rows| - 1];
      Without(rows[..|rows| - 1], g) + if last.group == Some(g) then [] else [last]
  }

  function NotInGroup(g: int): Row -> bool {
    (r: Row) => r.group != Some(g)
  }

  /** Taking out a group leaves exactly the rows of no group or another, in order. */
  lemma {:induction false} WithoutExactly(rows: seq<Row>, g: int) returns (at: seq<nat>)
    ensures IsFilter(rows, Without(rows, g), at, NotInGroup(g))
  {
    hide IsFilter;
    at := [];
    FilterOfNone(NotInGroup(g));
    if rows != [] {
      var front, last := rows[..|rows| - 1], rows[|rows| - 1];
      var before := WithoutExactly(front, g);
      at := FilterGrows(front, Without(front, g), before, NotInGroup(g), last);
      assert front + [last] == rows;
      assert NotInGroup(g)(last) <==> last.group != Some(g);
      assert Without(rows, g) == if last.group != Some(g) then Without(front, g) + [last] else Without(front, g);
    } else {
      assert rows == [] && Without(rows, g) == [];
    }
  }

  lemma WithoutOneMore(rows: seq<Row>, last: Row, g: int)
    ensures Without(rows + [last], g) == if last.group == Some(g) then Without(rows, g) else Without(rows, g) + [last]
  {
    assert (rows + [last])[..|rows|] == rows;
  }

  lemma {:induction false} MembersWithout(rows: seq<Row>, g: int, h: int)
    ensures Members(Without(rows, g), h) == if h == g then [] else Members(rows, h)
  {
    if rows != [] {
      var front, last := rows[..|rows| - 1], rows[|rows| - 1];
      MembersWithout(front, g, h);
      assert front + [last] == rows;
      hide Members, Without;
      WithoutOneMore(front, last, g);
      MembersOneMore(front, last, h);
      MembersOneMore(Without(front, g), last, h);
    }
  }

  lemma {:induction false} WithoutAreRows(rows: seq<Row>, g: int)
    ensures forall i :: 0 <= i < |Without(rows, g)| ==> Without(rows, g)[i] in rows
  {
    if rows != [] {
      WithoutAreRows(rows[..|rows| - 1], g);
    }
  }

  /** Taking out one group leaves every other whole. */
  lemma WithoutIsValid(rows: seq<Row>, g: int)
    requires ValidPairs(rows)
    ensures ValidPairs(Without(rows, g))
    ensures forall h :: Members(Without(rows, g), h) == if h == g then [] else Members(rows, h)
  {
    hide Members, Without;
    forall h
      ensures Members(Without(rows, g), h) == if h == g then [] else Members(rows, h)
    {
      MembersWithout(rows, g, h);
    }
    WithoutAreRows(rows, g);
    forall i | 0 <= i < |Without(rows, g)|
      ensures Without(rows, g)[i].group.Some?
    {
      assert Without(rows, g)[i] in rows;
    }
  }
}
