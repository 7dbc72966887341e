/** The structure of the menu table: records grouped by school level, the
    levels laid out in a fixed order, one header cell per level spanning its
    schools, one column per school with its abbreviated name and its menu
    cell. The HTML markup and styling around these pieces are not modelled. */
module MenuTable {
  import opened Sequences
  import opened Strings
  import opened Schools
  import opened Queries

  /** The records of one level, in input order. */
  function InCategory(rs: seq<SchoolRecord>, c: Level): (out: seq<SchoolRecord>)
    ensures |out| <= |rs|
  {
    if |rs| == 0 then []
    else (if rs[0].category == c then [rs[0]] else []) + InCategory(rs[1..], c)
  }

  /** The selection holds records of the chosen level only. */
  lemma {:induction false} InCategoryOnly(rs: seq<SchoolRecord>, c: Level)
    ensures forall i :: 0 <= i < |InCategory(rs, c)| ==> InCategory(rs, c)[i].category == c
  {
    if |rs| > 0 {
      var head: seq<SchoolRecord> := if rs[0].category == c then [rs[0]] else [];
      var rest := InCategory(rs[1..], c);
      assert InCategory(rs, c) == head + rest;
      InCategoryOnly(rs[1..], c);
      assert forall i :: |head| <= i < |head + rest| ==> (head + rest)[i] == rest[i - |head|];
    }
  }

  lemma {:induction false} InCategoryConcat(xs: seq<SchoolRecord>, ys: seq<SchoolRecord>, c: Level)
    ensures InCategory(xs + ys, c) == InCategory(xs, c) + InCategory(ys, c)
  {
    if |xs| == 0 {
      assert xs + ys == ys;
    } else {
      var head: seq<SchoolRecord> := if xs[0].category == c then [xs[0]] else [];
      assert (xs + ys)[1..] == xs[1..] + ys;
      assert InCategory(xs + ys, c) == head + InCategory(xs[1..] + ys, c);
      assert InCategory(xs, c) == head + InCategory(xs[1..], c);
      InCategoryConcat(xs[1..], ys, c);
      ConcatAssoc(head, InCategory(xs[1..], c), InCategory(ys, c));
    }
  }

  /** Appending a record extends exactly the group of its level. */
  lemma InCategoryAppend(rs: seq<SchoolRecord>, r: SchoolRecord)
    ensures forall c :: InCategory(rs + [r], c) == InCategory(rs, c) + (if r.category == c then [r] else [])
  {
    forall c ensures InCategory(rs + [r], c) == InCategory(rs, c) + (if r.category == c then [r] else []) {
      InCategoryConcat(rs, [r], c);
    }
  }

  /** Selecting one level of a selection of level `d` keeps it whole when the
      levels agree and empties it otherwise. */
  lemma {:induction false} InCategoryTwice(rs: seq<SchoolRecord>, d: Level, c: Level)
    ensures InCategory(InCategory(rs, d), c) == if c == d then InCategory(rs, d) else []
  {
    if |rs| > 0 {
      var head: seq<SchoolRecord> := if rs[0].category == d then [rs[0]] else [];
      InCategoryConcat(head, InCategory(rs[1..], d), c);
      InCategoryTwice(rs[1..], d, c);
      assert InCategory(head, c) == if c == d then head else [] by {
        if |head| > 0 {
          assert head[1..] == [];
        }
      }
    }
  }

  /** The `categories` dictionary: for each level present, its records in
      input order, built by appending each record to its level's list. */
  function GroupByCategory(rs: seq<SchoolRecord>): (groups: map<Level, seq<SchoolRecord>>)
    ensures forall c :: c in groups ==> groups[c] == InCategory(rs, c) && |groups[c]| > 0
    ensures forall c :: c !in groups ==> InCategory(rs, c) == []
    decreases |rs|
  {
    if |rs| == 0 then map[]
    else
      var n := |rs| - 1;
      var r := rs[n];
      var g := GroupByCategory(rs[..n]);
      assert rs == rs[..n] + [r];
      InCategoryAppend(rs[..n], r);
      g[r.category := (if r.category in g then g[r.category] else []) + [r]]
  }

  /** The school columns of the levels from position `k` of `LevelOrder`
      on, read off the dictionary as the table loops do. */
  function ColumnsFrom(groups: map<Level, seq<SchoolRecord>>, k: nat): seq<SchoolRecord>
    requires k <= |LevelOrder|
    decreases |LevelOrder| - k
  {
    if k == |LevelOrder| then []
    else
      var c := LevelOrder[k];
      (if c in groups then groups[c] else []) + ColumnsFrom(groups, k + 1)
  }

  /** The school columns of the table, left to right: a stable sort of the
      records by level, so no school is lost or repeated, levels come in
      `LevelOrder`, and each level keeps the input order. */
  function Columns(rs: seq<SchoolRecord>): (cols: seq<SchoolRecord>)
    ensures multiset(cols) == multiset(rs)
    ensures forall i, j :: 0 <= i < j < |cols| ==> Rank(cols[i].category) <= Rank(cols[j].category)
    ensures forall c :: InCategory(cols, c) == InCategory(rs, c)
  {
    ColumnsFromByRank(rs, 0);
    ByRankSorted(rs, 0);
    ByRankPermutation(rs, 0);
    RankAtLeastBounds(rs);
    ByRankStable(rs);
    ColumnsFrom(GroupByCategory(rs), 0)
  }

  /** Reference layout: the records of each level from position `k` on, level
      after level, each level in input order. */
  function ByRank(rs: seq<SchoolRecord>, k: nat): seq<SchoolRecord>
    requires k <= |LevelOrder|
    decreases |LevelOrder| - k
  {
    if k == |LevelOrder| then []
    else InCategory(rs, LevelOrder[k]) + ByRank(rs, k + 1)
  }

  /** Every record in `out` sits at position `k` of `LevelOrder` or later. */
  predicate RanksFrom(out: seq<SchoolRecord>, k: nat) {
    forall i :: 0 <= i < |out| ==> k <= Rank(out[i].category)
  }

  /** The records of `out` come level by level in `LevelOrder`. */
  predicate RankSorted(out: seq<SchoolRecord>) {
    forall i, j :: 0 <= i < j < |out| ==> Rank(out[i].category) <= Rank(out[j].category)
  }

  /** The reference layout holds levels from position `k` on, in order. */
  lemma {:induction false} ByRankSorted(rs: seq<SchoolRecord>, k: nat)
    requires k <= |LevelOrder|
    ensures RanksFrom(ByRank(rs, k), k) && RankSorted(ByRank(rs, k))
    decreases |LevelOrder| - k
  {
    if k < |LevelOrder| {
      var here, rest := InCategory(rs, LevelOrder[k]), ByRank(rs, k + 1);
      assert ByRank(rs, k) == here + rest;
      ByRankSorted(rs, k + 1);
      RankOfOrder(k);
      InCategoryOnly(rs, LevelOrder[k]);
      SortedConcat(here, rest, k);
    }
  }

  /** A block of one level followed by sorted later levels is sorted. */
  lemma SortedConcat(here: seq<SchoolRecord>, rest: seq<SchoolRecord>, k: nat)
    requires forall i :: 0 <= i < |here| ==> Rank(here[i].category) == k
    requires RanksFrom(rest, k + 1) && RankSorted(rest)
    ensures RanksFrom(here + rest, k) && RankSorted(here + rest)
  {
    var out := here + rest;
    assert forall i :: 0 <= i < |here| ==> out[i] == here[i];
    assert forall i :: |here| <= i < |out| ==> out[i] == rest[i - |here|];
  }

  /** The dictionary-driven columns are the reference layout. */
  lemma {:induction false} ColumnsFromByRank(rs: seq<SchoolRecord>, k: nat)
    requires k <= |LevelOrder|
    ensures ColumnsFrom(GroupByCategory(rs), k) == ByRank(rs, k)
    decreases |LevelOrder| - k
  {
    if k < |LevelOrder| {
      ColumnsFromByRank(rs, k + 1);
    }
  }

  lemma {:induction false} ByRankInCategory(rs: seq<SchoolRecord>, k: nat, c: Level)
    requires k <= |LevelOrder|
    ensures InCategory(ByRank(rs, k), c) == if k <= Rank(c) then InCategory(rs, c) else []
    decreases |LevelOrder| - k
  {
    if k < |LevelOrder| {
      var d := LevelOrder[k];
      var here, rest := InCategory(rs, d), ByRank(rs, k + 1);
      assert ByRank(rs, k) == here + rest;
      InCategoryConcat(here, rest, c);
      InCategoryTwice(rs, d, c);
      ByRankInCategory(rs, k + 1, c);
      RankOfOrder(k);
      if c == d {
        assert Rank(c) == k;
        assert InCategory(rest, c) == [];
        assert InCategory(here, c) + [] == InCategory(rs, c);
      } else {
        assert Rank(c) != k;
        assert InCategory(here, c) == [];
        assert [] + InCategory(rest, c) == InCategory(rest, c);
      }
    } else {
      assert ByRank(rs, k) == [];
      assert Rank(c) < k;
    }
  }
  /** The reference layout keeps every level's records in input order. */
  lemma ByRankStable(rs: seq<SchoolRecord>)
    ensures forall c :: InCategory(ByRank(rs, 0), c) == InCategory(rs, c)
  {
    forall c ensures InCategory(ByRank(rs, 0), c) == InCategory(rs, c) {
      ByRankInCategory(rs, 0, c);
    }
  }


  /** The records whose level sits at position `k` of `LevelOrder` or
      later. */
  function RankAtLeast(rs: seq<SchoolRecord>, k: nat): (out: seq<SchoolRecord>)
    ensures |out| <= |rs|
  {
    if |rs| == 0 then []
    else (if Rank(rs[0].category) >= k then [rs[0]] else []) + RankAtLeast(rs[1..], k)
  }

  lemma {:induction false} RankAtLeastSplit(rs: seq<SchoolRecord>, k: nat)
    requires k < |LevelOrder|
    ensures multiset(RankAtLeast(rs, k)) == multiset(InCategory(rs, LevelOrder[k])) + multiset(RankAtLeast(rs, k + 1))
  {
    if |rs| > 0 {
      var r, rest := rs[0], rs[1..];
      var a: seq<SchoolRecord> := if Rank(r.category) >= k then [r] else [];
      var b: seq<SchoolRecord> := if r.category == LevelOrder[k] then [r] else [];
      var c: seq<SchoolRecord> := if Rank(r.category) >= k + 1 then [r] else [];
      assert RankAtLeast(rs, k) == a + RankAtLeast(rest, k);
      assert InCategory(rs, LevelOrder[k]) == b + InCategory(rest, LevelOrder[k]);
      assert RankAtLeast(rs, k + 1) == c + RankAtLeast(rest, k + 1);
      RankAtLeastSplit(rest, k);
      SplitOne(r, k);
      MultisetStep(a, b, c, RankAtLeast(rest, k), InCategory(rest, LevelOrder[k]), RankAtLeast(rest, k + 1));
    }
  }

  /** One record sits at position `k` or after it. */
  lemma SplitOne(r: SchoolRecord, k: nat)
    requires k < |LevelOrder|
    ensures multiset(if Rank(r.category) >= k then [r] else []) ==
            multiset(if r.category == LevelOrder[k] then [r] else []) +
            multiset(if Rank(r.category) >= k + 1 then [r] else [])
  {
    RankOfOrder(k);
  }

  lemma {:induction false} RankAtLeastBounds(rs: seq<SchoolRecord>)
    ensures RankAtLeast(rs, 0) == rs
    ensures RankAtLeast(rs, |LevelOrder|) == []
  {
    if |rs| > 0 {
      RankAtLeastBounds(rs[1..]);
    }
  }

  lemma {:induction false} ByRankPermutation(rs: seq<SchoolRecord>, k: nat)
    requires k <= |LevelOrder|
    ensures multiset(ByRank(rs, k)) == multiset(RankAtLeast(rs, k))
    decreases |LevelOrder| - k
  {
    if k < |LevelOrder| {
      ByRankPermutation(rs, k + 1);
      RankAtLeastSplit(rs, k);
    } else {
      RankAtLeastBounds(rs);
    }
  }

  /** A level header: the level's name spanning `colspan` school columns. */
  datatype HeaderCell = HeaderCell(category: Level, colspan: nat)

  /** The header cells of the levels from position `k` of `LevelOrder` on:
      one per level present in the dictionary, spanning its list. */
  function HeaderFrom(groups: map<Level, seq<SchoolRecord>>, k: nat): (hs: seq<HeaderCell>)
    requires k <= |LevelOrder|
    ensures forall i :: 0 <= i < |hs| ==>
              k <= Rank(hs[i].category) && hs[i].category in groups &&
              hs[i].colspan == |groups[hs[i].category]|
    ensures forall i, j :: 0 <= i < j < |hs| ==> Rank(hs[i].category) < Rank(hs[j].category)
    decreases |LevelOrder| - k
  {
    if k == |LevelOrder| then []
    else
      var c := LevelOrder[k];
      RankOfOrder(k);
      (if c in groups then [HeaderCell(c, |groups[c]|)] else []) + HeaderFrom(groups, k + 1)
  }

  /** Every level present from position `k` on has its header cell. */
  lemma {:induction false} HeaderFromComplete(groups: map<Level, seq<SchoolRecord>>, k: nat, c: Level)
    requires k <= Rank(c) && c in groups
    ensures HeaderCell(c, |groups[c]|) in HeaderFrom(groups, k)
    decreases |LevelOrder| - k
  {
    RankOfOrder(k);
    if LevelOrder[k] != c {
      HeaderFromComplete(groups, k + 1, c);
    }
  }

  /** The level header row, after its `구분` label cell: one header per level
      present, in `LevelOrder`, spanning as many columns as the level has
      records; the spans add up to the number of school columns. */
  function Header(rs: seq<SchoolRecord>): (hs: seq<HeaderCell>)
    ensures forall i :: 0 <= i < |hs| ==> hs[i].colspan == |InCategory(rs, hs[i].category)| > 0
    ensures forall i, j :: 0 <= i < j < |hs| ==> Rank(hs[i].category) < Rank(hs[j].category)
    ensures forall c :: InCategory(rs, c) != [] ==> HeaderCell(c, |InCategory(rs, c)|) in hs
    ensures SpanTotal(hs) == |Columns(rs)|
  {
    var groups := GroupByCategory(rs);
    HeaderFromCovers(groups);
    HeaderFromSpans(groups, 0);
    HeaderFrom(groups, 0)
  }

  /** Every level of the dictionary gets its header. */
  lemma HeaderFromCovers(groups: map<Level, seq<SchoolRecord>>)
    ensures forall c :: c in groups ==> HeaderCell(c, |groups[c]|) in HeaderFrom(groups, 0)
  {
    forall c | c in groups ensures HeaderCell(c, |groups[c]|) in HeaderFrom(groups, 0) {
      HeaderFromComplete(groups, 0, c);
    }
  }

  function SpanTotal(hs: seq<HeaderCell>): nat {
    if |hs| == 0 then 0 else hs[0].colspan + SpanTotal(hs[1..])
  }

  lemma {:induction false} SpanTotalConcat(xs: seq<HeaderCell>, ys: seq<HeaderCell>)
    ensures SpanTotal(xs + ys) == SpanTotal(xs) + SpanTotal(ys)
  {
    if |xs| == 0 {
      assert xs + ys == ys;
    } else {
      assert (xs + ys)[1..] == xs[1..] + ys;
      SpanTotalConcat(xs[1..], ys);
    }
  }

  lemma {:induction false} HeaderFromSpans(groups: map<Level, seq<SchoolRecord>>, k: nat)
    requires k <= |LevelOrder|
    ensures SpanTotal(HeaderFrom(groups, k)) == |ColumnsFrom(groups, k)|
    decreases |LevelOrder| - k
  {
    if k < |LevelOrder| {
      var c := LevelOrder[k];
      var head: seq<HeaderCell> := if c in groups then [HeaderCell(c, |groups[c]|)] else [];
      var cols: seq<SchoolRecord> := if c in groups then groups[c] else [];
      assert HeaderFrom(groups, k) == head + HeaderFrom(groups, k + 1);
      assert ColumnsFrom(groups, k) == cols + ColumnsFrom(groups, k + 1);
      assert SpanTotal(head) == |cols| by {
        if c in groups {
          assert head[1..] == [];
        }
      }
      var tail := HeaderFrom(groups, k + 1);
      HeaderFromSpans(groups, k + 1);
      SpanTotalConcat(head, tail);
      assert SpanTotal(HeaderFrom(groups, k)) == SpanTotal(head) + SpanTotal(tail);
      assert |ColumnsFrom(groups, k)| == |cols| + |ColumnsFrom(groups, k + 1)|;
    } else {
      assert HeaderFrom(groups, k) == [];
      assert ColumnsFrom(groups, k) == [];
    }
  }

  /** The column heading of a school: `name.replace('학교', '').replace('등', '')`. */
  function Abbreviate(name: string): (r: string)
    ensures '등' !in r
    ensures |r| <= |name|
  {
    var s := RemoveAll(name, "학교");
    RemoveAllChar(s, '등');
    RemoveAll(s, "등")
  }

  /** A name in which neither pattern occurs is shown in full. */
  lemma AbbreviateKeepsPlain(name: string)
    requires !Contains(name, "학교") && !Contains(name, "등")
    ensures Abbreviate(name) == name
  {
  }

  /** A high-school name `p` + `고등학교` is shown as `p`, which ends in `고`
      for `황지고등학교`. */
  lemma AbbreviateHighSchool(p: string)
    requires '학' !in p && '등' !in p
    ensures Abbreviate(p + "등학교") == p
  {
    RemoveSchoolSuffix(p);
    RemoveDeungSuffix(p);
  }

  lemma RemoveSchoolSuffix(p: string)
    requires '학' !in p
    ensures RemoveAll(p + "등학교", "학교") == p + "등"
  {
    var s := p + "등학교";
    assert s[|p| + 1..|p| + 3] == "학교";
    forall j | 0 <= j < |p| + 1 ensures !OccursAt(s, "학교", j) {
      assert s[j] != '학' by {
        if j < |p| {
          assert s[j] == p[j];
        }
      }
    }
    IndexOfLeftmost(s, "학교", |p| + 1);
    assert s[..|p| + 1] == p + "등";
    assert s[|p| + 3..] == "";
    assert RemoveAll("", "학교") == "";
  }

  lemma RemoveDeungSuffix(p: string)
    requires '등' !in p
    ensures RemoveAll(p + "등", "등") == p
  {
    var t := p + "등";
    forall j | 0 <= j < |p| ensures !OccursAt(t, "등", j) {
      OccursAtChar(t, '등', j);
      assert t[j] == p[j];
    }
    OccursAtChar(t, '등', |p|);
    IndexOfLeftmost(t, "등", |p|);
    assert t[..|p|] == p;
    assert t[|p| + 1..] == "";
    assert RemoveAll("", "등") == "";
  }

  lemma AbbreviateExample()
    ensures Abbreviate("황지고등학교") == "황지고"
  {
    AbbreviateHighSchool("황지고");
    assert "황지고" + "등학교" == "황지고등학교";
  }

  /** The separator between the items of a menu cell. */
  const CellBreak: string := "<br>"

  /** A menu cell: the items with `<br>` between consecutive ones. */
  function MenuCell(items: seq<string>): string {
    Join(items, CellBreak)
  }

  /** A cell of `n` items holds `n - 1` breaks, and splitting at them gives
      the items back, when no item holds a break itself. */
  lemma MenuCellBreaks(items: seq<string>)
    requires |items| > 0
    requires forall k :: 0 <= k < |items| ==> !Contains(items[k], CellBreak)
    ensures Count(MenuCell(items), CellBreak) == |items| - 1
    ensures Split(MenuCell(items), CellBreak) == items
  {
    NoBorderByFirstChar(CellBreak);
    JoinCount(items, CellBreak);
    SplitJoin(items, CellBreak);
  }

  /** The table structure: the level headers, the label of the school-name
      row (the meal name), and per school column its heading and its menu
      cell. The fixed labels `구분` and `… 메뉴` of the other two rows are
      not kept. */
  datatype Table = Table(nameRowLabel: string, header: seq<HeaderCell>, names: seq<string>, cells: seq<string>)

  /** `create_school_menu_table` without its markup. */
  function BuildTable(shown: seq<SchoolRecord>, mealName: string): (t: Table)
    ensures t.nameRowLabel == mealName
    ensures t.header == Header(shown)
    ensures |t.names| == |t.cells| == |Columns(shown)| == SpanTotal(t.header)
    ensures forall i :: 0 <= i < |t.names| ==>
              t.names[i] == Abbreviate(Columns(shown)[i].name) && t.cells[i] == MenuCell(Columns(shown)[i].menu)
  {
    var cols := Columns(shown);
    HeaderFromSpans(GroupByCategory(shown), 0);
    Table(mealName, Header(shown), Headings(cols), Cells(cols))
  }

  /** The column headings, one per school column. */
  function Headings(cols: seq<SchoolRecord>): (ns: seq<string>)
    ensures |ns| == |cols|
    ensures forall i :: 0 <= i < |cols| ==> ns[i] == Abbreviate(cols[i].name)
  {
    if |cols| == 0 then [] else [Abbreviate(cols[0].name)] + Headings(cols[1..])
  }

  /** The menu cells, one per school column. */
  function Cells(cols: seq<SchoolRecord>): (cs: seq<string>)
    ensures |cs| == |cols|
    ensures forall i :: 0 <= i < |cols| ==> cs[i] == MenuCell(cols[i].menu)
  {
    if |cols| == 0 then [] else [MenuCell(cols[0].menu)] + Cells(cols[1..])
  }
}
