/**
 * The figures of the report: the global summary (total, online, offline), and
 * the per-category sheet, one row per category in ascending name order with
 * that category's total, online and offline counts.
 */
module Report {
  import opened Probing

  // ---------------------------------------------------------------------------
  // Counting.

  datatype Status = AnyStatus | Online | Offline

  /** Which outcomes a figure counts: those of every category, or of one category,
      with the given status. */
  datatype Filter = Every(status: Status) | InCategory(name: string, status: Status)

  predicate Holds(f: Filter, o: Outcome) {
    && (f.InCategory? ==> o.category == f.name)
    && match f.status
       case AnyStatus => true
       case Online => o.success
       case Offline => !o.success
  }

  /** The number of outcomes f selects: sum(1 for r in results if ...). */
  function Count(rs: seq<Outcome>, f: Filter): nat {
    if rs == [] then 0
    else
      var n := |rs| - 1;
      Count(rs[..n], f) + (if Holds(f, rs[n]) then 1 else 0)
  }

  lemma CountStep(rs: seq<Outcome>, i: nat, f: Filter)
    requires i < |rs|
    ensures Count(rs[..i + 1], f) == Count(rs[..i], f) + (if Holds(f, rs[i]) then 1 else 0)
  {
    assert rs[..i + 1][..i] == rs[..i];
  }

  lemma {:induction false} CountAppend(a: seq<Outcome>, b: seq<Outcome>, f: Filter)
    ensures Count(a + b, f) == Count(a, f) + Count(b, f)
    decreases |b|
  {
    if b == [] {
      assert a + b == a;
    } else {
      var n := |b| - 1;
      CountAppend(a, b[..n], f);
      assert (a + b)[..|a + b| - 1] == a + b[..n];
    }
  }

  /** Taking one outcome out of a sequence takes it out of every count. */
  lemma CountRemove(b: seq<Outcome>, k: nat, f: Filter)
    requires k < |b|
    ensures Count(b, f) == Count(b[..k] + b[k + 1..], f) + (if Holds(f, b[k]) then 1 else 0)
  {
    var x := b[k];
    assert b == b[..k] + [x] + b[k + 1..];
    CountAppend(b[..k], [x], f);
    CountAppend(b[..k] + [x], b[k + 1..], f);
    CountAppend(b[..k], b[k + 1..], f);
    assert [x][..0] == [];
  }

  /** A count depends on which outcomes there are, not on the order they came in. */
  lemma {:induction false} CountPermutation(a: seq<Outcome>, b: seq<Outcome>, f: Filter)
    requires multiset(a) == multiset(b)
    ensures Count(a, f) == Count(b, f)
    decreases |a|
  {
    if a == [] {
      assert |b| == |multiset(b)| == 0;
    } else {
      var n := |a| - 1;
      var x := a[n];
      assert x in multiset(b);
      var k :| 0 <= k < |b| && b[k] == x;
      var rest := b[..k] + b[k + 1..];
      MultisetDropLast(a);
      MultisetSplit(b, k);
      CountPermutation(a[..n], rest, f);
      CountRemove(b, k, f);
    }
  }

  lemma MultisetDropLast(a: seq<Outcome>)
    requires a != []
    ensures multiset(a[..|a| - 1]) == multiset(a) - multiset{a[|a| - 1]}
  {
    assert a == a[..|a| - 1] + [a[|a| - 1]];
  }

  /** Every outcome is online or offline and not both. */
  lemma {:induction false} CountOnlineOffline(rs: seq<Outcome>, c: string)
    ensures Count(rs, InCategory(c, AnyStatus)) == Count(rs, InCategory(c, Online)) + Count(rs, InCategory(c, Offline))
    ensures |rs| == Count(rs, Every(Online)) + Count(rs, Every(Offline))
    decreases |rs|
  {
    if rs != [] {
      CountOnlineOffline(rs[..|rs| - 1], c);
    }
  }

  /** An outcome of category c counts towards category c. */
  lemma {:induction false} CountMember(rs: seq<Outcome>, i: nat)
    requires i < |rs|
    ensures Count(rs, InCategory(rs[i].category, AnyStatus)) >= 1
    decreases |rs|
  {
    var n := |rs| - 1;
    if i < n {
      CountMember(rs[..n], i);
      assert rs[..n][i] == rs[i];
    } else {
      assert Holds(InCategory(rs[i].category, AnyStatus), rs[n]);
    }
  }

  // ---------------------------------------------------------------------------
  // The global summary.

  datatype Summary = Summary(total: nat, online: nat, offline: int)

  /** total, online and offline as the code computes them: offline is the difference. */
  function Totals(rs: seq<Outcome>): Summary {
    var online := Count(rs, Every(Online));
    Summary(|rs|, online, |rs| - online)
  }

  /** The difference is the number of failed outcomes, so it is never negative, and
      the figures do not depend on the order the results arrived in: the sheet
      (unsorted results) and the final summary agree with the outcomes in job order. */
  lemma TotalsMeaning(rs: seq<Outcome>, other: seq<Outcome>)
    requires multiset(rs) == multiset(other)
    ensures Totals(rs).offline == Count(rs, Every(Offline)) >= 0
    ensures Totals(rs).online + Totals(rs).offline == Totals(rs).total == |rs|
    ensures Totals(rs) == Totals(other)
  {
    CountOnlineOffline(rs, "");
    CountPermutation(rs, other, Every(Online));
    assert |rs| == |multiset(rs)| == |other|;
  }

  // ---------------------------------------------------------------------------
  // Grouping by category.

  datatype Stats = Stats(total: nat, online: nat, offline: nat)

  function Categories(rs: seq<Outcome>): set<string> {
    set i | 0 <= i < |rs| :: rs[i].category
  }

  /** The figures of category c among rs. */
  function StatsOf(rs: seq<Outcome>, c: string): Stats {
    Stats(Count(rs, InCategory(c, AnyStatus)), Count(rs, InCategory(c, Online)), Count(rs, InCategory(c, Offline)))
  }

  lemma CategoriesStep(rs: seq<Outcome>, i: nat)
    requires i < |rs|
    ensures Categories(rs[..i + 1]) == Categories(rs[..i]) + {rs[i].category}
  {
    var a, b := rs[..i], rs[..i + 1];
    forall c | c in Categories(b)
      ensures c in Categories(a) + {rs[i].category}
    {
      var j :| 0 <= j < |b| && c == b[j].category;
      if j < i {
        assert b[j] == a[j];
      }
    }
    forall c | c in Categories(a)
      ensures c in Categories(b)
    {
      var j :| 0 <= j < |a| && c == a[j].category;
      assert b[j] == a[j];
    }
  }

  /** One more result of a category: its total and its online or offline count go up by one. */
  function Tally(s: Stats, success: bool): Stats {
    if success then Stats(s.total + 1, s.online + 1, s.offline)
    else Stats(s.total + 1, s.online, s.offline + 1)
  }

  lemma StatsStep(rs: seq<Outcome>, i: nat, c: string)
    requires i < |rs|
    ensures StatsOf(rs[..i + 1], c) ==
      if rs[i].category != c then StatsOf(rs[..i], c) else Tally(StatsOf(rs[..i], c), rs[i].success)
  {
    CountStep(rs, i, InCategory(c, AnyStatus));
    CountStep(rs, i, InCategory(c, Online));
    CountStep(rs, i, InCategory(c, Offline));
  }

  lemma StatsEmpty(c: string)
    ensures StatsOf([], c) == Stats(0, 0, 0)
  {
  }

  predicate Distinct(names: seq<string>) {
    forall i, j :: 0 <= i < j < |names| ==> names[i] != names[j]
  }

  /** The dictionary filled at lines 295-304; `order` is its key order, the order in
      which the categories were first met. */
  method GroupByCategory(results: seq<Outcome>) returns (stats: map<string, Stats>, order: seq<string>)
    ensures stats.Keys == Categories(results)
    ensures forall c :: c in stats ==> stats[c] == StatsOf(results, c)
    ensures Distinct(order) && (forall c :: c in order <==> c in stats)
  {
    stats := map[];
    order := [];
    for i := 0 to |results|
      invariant stats.Keys == Categories(results[..i])
      invariant forall c :: c in stats ==> stats[c] == StatsOf(results[..i], c)
      invariant Distinct(order) && (forall c :: c in order <==> c in stats)
    {
      var r := results[i];
      var cat := r.category;
      GroupStep(results, i, stats);
      var before := stats;
      if cat !in stats {
        stats := stats[cat := Stats(0, 0, 0)];
        order := order + [cat];
      }
      stats := stats[cat := Tally(stats[cat], r.success)];
      assert stats == before[cat := Tally(if cat in before then before[cat] else Stats(0, 0, 0), r.success)];
    }
    assert results[..|results|] == results;
  }

  /** Counting one more result into the dictionary keeps it equal to the figures of
      the results read so far. */
  lemma GroupStep(rs: seq<Outcome>, i: nat, stats: map<string, Stats>)
    requires i < |rs|
    requires stats.Keys == Categories(rs[..i])
    requires forall c :: c in stats ==> stats[c] == StatsOf(rs[..i], c)
    ensures var cat := rs[i].category;
      var next := stats[cat := Tally(if cat in stats then stats[cat] else Stats(0, 0, 0), rs[i].success)];
      && next.Keys == Categories(rs[..i + 1])
      && forall c :: c in next ==> next[c] == StatsOf(rs[..i + 1], c)
  {
    var cat := rs[i].category;
    CategoriesStep(rs, i);
    StatsStep(rs, i, cat);
    if cat !in stats {
      NotMetCounts(rs[..i], cat);
    }
    forall c | c in stats && c != cat
      ensures StatsOf(rs[..i + 1], c) == stats[c]
    {
      StatsStep(rs, i, c);
    }
  }

  /** A category that does not occur has nothing counted. */
  lemma {:induction false} NotMetCounts(rs: seq<Outcome>, c: string)
    requires c !in Categories(rs)
    ensures StatsOf(rs, c) == Stats(0, 0, 0)
    decreases |rs|
  {
    if rs != [] {
      var n := |rs| - 1;
      assert c != rs[n].category;
      CategoriesStep(rs, n);
      assert rs[..n + 1] == rs;
      NotMetCounts(rs[..n], c);
    }
  }

  // ---------------------------------------------------------------------------
  // sorted(categories.items()): Python orders strings by code point, lexicographically.

  predicate StrLess(a: string, b: string)
    decreases |a|
  {
    if a == [] then b != []
    else b != [] && (a[0] < b[0] || (a[0] == b[0] && StrLess(a[1..], b[1..])))
  }

  lemma {:induction false} StrLessIrreflexive(a: string)
    ensures !StrLess(a, a)
    decreases |a|
  {
    if a != [] {
      StrLessIrreflexive(a[1..]);
    }
  }

  lemma {:induction false} StrLessTransitive(a: string, b: string, c: string)
    requires StrLess(a, b) && StrLess(b, c)
    ensures StrLess(a, c)
    decreases |a|
  {
    if a != [] && a[0] == b[0] && b[0] == c[0] {
      StrLessTransitive(a[1..], b[1..], c[1..]);
    }
  }

  lemma {:induction false} StrLessTotal(a: string, b: string)
    requires a != b
    ensures StrLess(a, b) || StrLess(b, a)
    decreases |a|
  {
    if a != [] && b != [] && a[0] == b[0] {
      assert a == [a[0]] + a[1..] && b == [b[0]] + b[1..];
      StrLessTotal(a[1..], b[1..]);
    }
  }

  predicate StrictlySorted(names: seq<string>) {
    forall i, j :: 0 <= i < j < |names| ==> StrLess(names[i], names[j])
  }

  function InsertName(x: string, s: seq<string>): (r: seq<string>)
    ensures multiset(r) == multiset(s) + multiset{x}
    decreases |s|
  {
    if s == [] then [x]
    else if StrLess(x, s[0]) then [x] + s
    else
      assert s == [s[0]] + s[1..];
      [s[0]] + InsertName(x, s[1..])
  }

  lemma {:induction false} InsertNameSorted(x: string, s: seq<string>)
    requires StrictlySorted(s) && x !in s
    ensures StrictlySorted(InsertName(x, s))
    decreases |s|
  {
    if s != [] {
      if StrLess(x, s[0]) {
        var r := [x] + s;
        forall i, j | 0 <= i < j < |r|
          ensures StrLess(r[i], r[j])
        {
          if i == 0 {
            assert r[j] == s[j - 1];
            if j > 1 {
              StrLessTransitive(x, s[0], s[j - 1]);
            }
          } else {
            assert r[i] == s[i - 1] && r[j] == s[j - 1];
          }
        }
      } else {
        StrLessTotal(x, s[0]);
        var tail := s[1..];
        assert StrictlySorted(tail);
        InsertNameSorted(x, tail);
        var rest := InsertName(x, tail);
        var r := [s[0]] + rest;
        forall i, j | 0 <= i < j < |r|
          ensures StrLess(r[i], r[j])
        {
          if i == 0 {
            var y := r[j];
            assert y == rest[j - 1];
            assert y in multiset(rest);
            assert y in multiset(tail) || y == x;
            if y != x {
              var k :| 0 <= k < |tail| && tail[k] == y;
              assert y == s[k + 1];
            }
          } else {
            assert r[i] == rest[i - 1] && r[j] == rest[j - 1];
          }
        }
      }
    }
  }

  function SortNames(names: seq<string>): (r: seq<string>)
    ensures multiset(r) == multiset(names)
    decreases |names|
  {
    if names == [] then []
    else
      var n := |names| - 1;
      assert names == names[..n] + [names[n]];
      InsertName(names[n], SortNames(names[..n]))
  }

  /** Sorting distinct names orders them strictly, and keeps exactly the same names. */
  lemma {:induction false} SortNamesSorted(names: seq<string>)
    requires Distinct(names)
    ensures StrictlySorted(SortNames(names))
    ensures forall c :: c in SortNames(names) <==> c in names
    decreases |names|
  {
    if names != [] {
      var n := |names| - 1;
      var init := names[..n];
      assert Distinct(init);
      SortNamesSorted(init);
      assert names[n] !in init;
      assert names[n] !in SortNames(init) by {
        assert multiset(SortNames(init)) == multiset(init);
      }
      InsertNameSorted(names[n], SortNames(init));
      forall c
        ensures c in SortNames(names) <==> c in names
      {
        assert c in SortNames(names) <==> c in multiset(SortNames(names));
        assert c in names <==> c in multiset(names);
      }
    }
  }

  // ---------------------------------------------------------------------------
  // The per-category sheet.

  datatype Row = Row(name: string, stats: Stats)

  /** What the sheet holds for results rs: one row per category, in strictly
      ascending name order, with that category's figures. */
  predicate IsCategoryReport(rows: seq<Row>, rs: seq<Outcome>) {
    && (forall i, j :: 0 <= i < j < |rows| ==> StrLess(rows[i].name, rows[j].name))
    && (forall i :: 0 <= i < |rows| ==> rows[i].name in Categories(rs) && rows[i].stats == StatsOf(rs, rows[i].name))
    && (forall c :: c in Categories(rs) ==> exists i :: 0 <= i < |rows| && rows[i].name == c)
  }

  /** create_excel_report's second sheet at lines 295-351, without the cell styling. */
  method CategoryReport(results: seq<Outcome>) returns (rows: seq<Row>)
    ensures IsCategoryReport(rows, results)
  {
    var stats, order := GroupByCategory(results);
    var names := SortNames(order);
    SortNamesSorted(order);
    rows := [];
    for i := 0 to |names|
      invariant |rows| == i
      invariant forall k :: 0 <= k < i ==> names[k] in stats && rows[k] == Row(names[k], stats[names[k]])
    {
      rows := rows + [Row(names[i], stats[names[i]])];
    }
    RowsReport(names, stats, rows, results);
  }

  /** One row per sorted name, holding that name's figures, is the sheet. */
  lemma RowsReport(names: seq<string>, stats: map<string, Stats>, rows: seq<Row>, results: seq<Outcome>)
    requires StrictlySorted(names) && (forall c :: c in names <==> c in stats)
    requires stats.Keys == Categories(results) && (forall c :: c in stats ==> stats[c] == StatsOf(results, c))
    requires |rows| == |names|
    requires forall k :: 0 <= k < |rows| ==> names[k] in stats && rows[k] == Row(names[k], stats[names[k]])
    ensures IsCategoryReport(rows, results)
  {
    forall c | c in Categories(results)
      ensures exists i :: 0 <= i < |rows| && rows[i].name == c
    {
      var i :| 0 <= i < |names| && names[i] == c;
      assert rows[i].name == c;
    }
  }

  /** The first row of a sheet names the least category. */
  lemma FirstRowLeast(a: seq<Row>, rs: seq<Outcome>, c: string)
    requires IsCategoryReport(a, rs) && a != []
    requires c in Categories(rs) && c != a[0].name
    ensures StrLess(a[0].name, c)
  {
    var i :| 0 <= i < |a| && a[i].name == c;
  }

  lemma SameFirstRow(a: seq<Row>, b: seq<Row>, rs: seq<Outcome>)
    requires IsCategoryReport(a, rs) && IsCategoryReport(b, rs) && a != [] && b != []
    ensures a[0] == b[0]
  {
    var x, y := a[0].name, b[0].name;
    if x != y {
      FirstRowLeast(a, rs, y);
      FirstRowLeast(b, rs, x);
      StrLessTransitive(x, y, x);
      StrLessIrreflexive(x);
    }
  }

  lemma CategoriesEmpty(rs: seq<Outcome>)
    ensures Categories(rs) == {} <==> rs == []
  {
    if rs != [] {
      assert rs[0].category in Categories(rs);
    }
  }

  /** A sheet has no rows exactly when there are no results. */
  lemma ReportEmpty(a: seq<Row>, rs: seq<Outcome>)
    requires IsCategoryReport(a, rs)
    ensures a == [] <==> Categories(rs) == {}
  {
    if a != [] {
      assert a[0].name in Categories(rs);
    }
    if Categories(rs) != {} {
      var c :| c in Categories(rs);
      var i :| 0 <= i < |a| && a[i].name == c;
    }
  }

  /** The sheet is determined by the results: two sheets for the same results are equal. */
  lemma {:induction false} CategoryReportUnique(a: seq<Row>, b: seq<Row>, rs: seq<Outcome>)
    requires IsCategoryReport(a, rs) && IsCategoryReport(b, rs)
    ensures a == b
    decreases |a| + |b|
  {
    ReportEmpty(a, rs);
    ReportEmpty(b, rs);
    if a != [] && b != [] {
      SameFirstRow(a, b, rs);
      var x := a[0].name;
      RestIsReport(a, rs, x);
      RestIsReport(b, rs, x);
      CategoryReportUnique(a[1..], b[1..], RestOf(rs, x));
      ConsEqual(a, b);
    }
  }

  lemma ConsEqual(a: seq<Row>, b: seq<Row>)
    requires a != [] && b != [] && a[0] == b[0] && a[1..] == b[1..]
    ensures a == b
  {
    assert a == [a[0]] + a[1..] && b == [b[0]] + b[1..];
  }

  /** rs without the outcomes of category x. */
  function RestOf(rs: seq<Outcome>, x: string): seq<Outcome> {
    if rs == [] then []
    else
      var n := |rs| - 1;
      RestOf(rs[..n], x) + (if rs[n].category == x then [] else [rs[n]])
  }

  /** One more outcome at the end. */
  lemma CategoriesSnoc(s: seq<Outcome>, o: Outcome)
    ensures Categories(s + [o]) == Categories(s) + {o.category}
  {
    var r := s + [o];
    assert r[..|s|] == s;
    CategoriesStep(r, |s|);
    assert r[..|s| + 1] == r;
  }

  lemma StatsSnoc(s: seq<Outcome>, o: Outcome, c: string)
    ensures o.category != c ==> StatsOf(s + [o], c) == StatsOf(s, c)
  {
    var r := s + [o];
    assert r[..|s|] == s;
    StatsStep(r, |s|, c);
    assert r[..|s| + 1] == r;
  }

  /** Removing category x keeps every other category. */
  lemma {:induction false} RestOfCategories(rs: seq<Outcome>, x: string, c: string)
    requires c != x
    ensures c in Categories(RestOf(rs, x)) <==> c in Categories(rs)
    decreases |rs|
  {
    if rs != [] {
      var n := |rs| - 1;
      var init := rs[..n];
      RestOfCategories(init, x, c);
      CategoriesStep(rs, n);
      assert rs[..n + 1] == rs;
      if rs[n].category != x {
        CategoriesSnoc(RestOf(init, x), rs[n]);
      } else {
        assert RestOf(init, x) + [] == RestOf(init, x);
      }
    }
  }

  /** ... and the figures of every other category. */
  lemma {:induction false} RestOfStats(rs: seq<Outcome>, x: string, c: string)
    requires c != x
    ensures StatsOf(RestOf(rs, x), c) == StatsOf(rs, c)
    decreases |rs|
  {
    if rs != [] {
      var n := |rs| - 1;
      var init := rs[..n];
      RestOfStats(init, x, c);
      StatsStep(rs, n, c);
      assert rs[..n + 1] == rs;
      var r0 := RestOf(init, x);
      if rs[n].category != x {
        var r := r0 + [rs[n]];
        assert r[..|r0|] == r0;
        StatsStep(r, |r0|, c);
        assert r[..|r0| + 1] == r;
      } else {
        assert r0 + [] == r0;
      }
    }
  }

  lemma RestOfMeaning(rs: seq<Outcome>, x: string, c: string)
    requires c != x
    ensures c in Categories(RestOf(rs, x)) <==> c in Categories(rs)
    ensures StatsOf(RestOf(rs, x), c) == StatsOf(rs, c)
  {
    RestOfCategories(rs, x, c);
    RestOfStats(rs, x, c);
  }

  lemma {:induction false} RestOfDrops(rs: seq<Outcome>, x: string)
    ensures x !in Categories(RestOf(rs, x))
    decreases |rs|
  {
    if rs != [] {
      var n := |rs| - 1;
      var r0 := RestOf(rs[..n], x);
      RestOfDrops(rs[..n], x);
      if rs[n].category != x {
        CategoriesSnoc(r0, rs[n]);
      } else {
        assert r0 + [] == r0;
      }
    }
  }

  /** Removing the first row of a sheet leaves the sheet of the other categories. */
  lemma RestIsReport(a: seq<Row>, rs: seq<Outcome>, x: string)
    requires IsCategoryReport(a, rs) && a != [] && a[0].name == x
    ensures IsCategoryReport(a[1..], RestOf(rs, x))
  {
    var t := a[1..];
    forall i | 0 <= i < |t|
      ensures t[i].name in Categories(RestOf(rs, x)) && t[i].stats == StatsOf(RestOf(rs, x), t[i].name)
    {
      assert t[i] == a[i + 1];
      assert StrLess(x, t[i].name);
      StrLessIrreflexive(x);
      RestOfMeaning(rs, x, t[i].name);
    }
    forall c | c in Categories(RestOf(rs, x))
      ensures exists i :: 0 <= i < |t| && t[i].name == c
    {
      RestOfDrops(rs, x);
      assert c != x;
      RestOfMeaning(rs, x, c);
      var i :| 0 <= i < |a| && a[i].name == c;
      assert i > 0;
      assert t[i - 1].name == c;
    }
    forall i, j | 0 <= i < j < |t|
      ensures StrLess(t[i].name, t[j].name)
    {
      assert t[i] == a[i + 1] && t[j] == a[j + 1];
    }
  }

  // ---------------------------------------------------------------------------
  // What the sheet's figures mean.

  lemma CategoriesPermutation(a: seq<Outcome>, b: seq<Outcome>)
    requires multiset(a) == multiset(b)
    ensures Categories(a) == Categories(b)
  {
    forall c | c in Categories(a)
      ensures c in Categories(b)
    {
      var i :| 0 <= i < |a| && a[i].category == c;
      assert a[i] in multiset(b);
      var j :| 0 <= j < |b| && b[j] == a[i];
    }
    forall c | c in Categories(b)
      ensures c in Categories(a)
    {
      var i :| 0 <= i < |b| && b[i].category == c;
      assert b[i] in multiset(a);
      var j :| 0 <= j < |a| && a[j] == b[i];
    }
  }

  /** The sheet does not depend on the order in which the pool returned the results. */
  lemma ReportPermutation(rows: seq<Row>, a: seq<Outcome>, b: seq<Outcome>)
    requires multiset(a) == multiset(b) && IsCategoryReport(rows, a)
    ensures IsCategoryReport(rows, b)
  {
    CategoriesPermutation(a, b);
    forall i | 0 <= i < |rows|
      ensures rows[i].stats == StatsOf(b, rows[i].name)
    {
      var c := rows[i].name;
      CountPermutation(a, b, InCategory(c, AnyStatus));
      CountPermutation(a, b, InCategory(c, Online));
      CountPermutation(a, b, InCategory(c, Offline));
    }
  }

  /** Every row counts at least one host, so the percentage never divides by zero,
      and every host it counts is online or offline. */
  lemma RowFigures(rows: seq<Row>, rs: seq<Outcome>)
    requires IsCategoryReport(rows, rs)
    ensures forall i :: 0 <= i < |rows| ==>
      rows[i].stats.total >= 1 && rows[i].stats.total == rows[i].stats.online + rows[i].stats.offline
  {
    forall i | 0 <= i < |rows|
      ensures rows[i].stats.total >= 1 && rows[i].stats.total == rows[i].stats.online + rows[i].stats.offline
    {
      var c := rows[i].name;
      var j :| 0 <= j < |rs| && rs[j].category == c;
      CountMember(rs, j);
      CountOnlineOffline(rs, c);
    }
  }

  function Field(s: Stats, st: Status): nat {
    match st
    case AnyStatus => s.total
    case Online => s.online
    case Offline => s.offline
  }

  /** The sum of one column of the sheet. */
  function SumRows(rows: seq<Row>, st: Status): nat {
    if rows == [] then 0 else Field(rows[0].stats, st) + SumRows(rows[1..], st)
  }

  /** The hosts of one category plus all the others are all the hosts. */
  lemma {:induction false} CountSplitOff(rs: seq<Outcome>, x: string, st: Status)
    ensures Count(rs, Every(st)) == Count(rs, InCategory(x, st)) + Count(RestOf(rs, x), Every(st))
    decreases |rs|
  {
    if rs != [] {
      var n := |rs| - 1;
      CountSplitOff(rs[..n], x, st);
      var r0 := RestOf(rs[..n], x);
      if rs[n].category != x {
        var r := r0 + [rs[n]];
        assert r[..|r0|] == r0;
        CountStep(r, |r0|, Every(st));
        assert r[..|r0| + 1] == r;
      } else {
        assert r0 + [] == r0;
      }
    }
  }

  /** Each column of the sheet adds up to the corresponding global figure: the
      totals to the number of results, the online and offline columns to the
      online and offline counts of the summary. */
  lemma {:induction false} ReportSums(rows: seq<Row>, rs: seq<Outcome>, st: Status)
    requires IsCategoryReport(rows, rs)
    ensures SumRows(rows, st) == Count(rs, Every(st))
    decreases |rows|
  {
    ReportEmpty(rows, rs);
    CategoriesEmpty(rs);
    if rows != [] {
      var x := rows[0].name;
      RestIsReport(rows, rs, x);
      ReportSums(rows[1..], RestOf(rs, x), st);
      CountSplitOff(rs, x, st);
    }
  }

  /** The totals column adds up to the number of results. */
  lemma ReportCoversAll(rows: seq<Row>, rs: seq<Outcome>)
    requires IsCategoryReport(rows, rs)
    ensures SumRows(rows, AnyStatus) == |rs|
    ensures SumRows(rows, Online) == Totals(rs).online
    ensures SumRows(rows, Offline) == Totals(rs).offline
  {
    ReportSums(rows, rs, AnyStatus);
    ReportSums(rows, rs, Online);
    ReportSums(rows, rs, Offline);
    CountEvery(rs);
    CountOnlineOffline(rs, "");
  }

  lemma {:induction false} CountEvery(rs: seq<Outcome>)
    ensures Count(rs, Every(AnyStatus)) == |rs|
    decreases |rs|
  {
    if rs != [] {
      CountEvery(rs[..|rs| - 1]);
    }
  }
}
