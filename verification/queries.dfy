/** The run behind the query button: one directory lookup and at most one
    meal lookup per school, strictly one school after the other, then the
    filter that keeps the schools with a menu to show. */
module Queries {
  import opened Optional
  import opened Sequences
  import opened Strings
  import opened Schools
  import opened Neis

  /** One result row: the school level (`학교급`), the school name (`학교명`)
      and the menu (`메뉴`). */
  datatype SchoolRecord = SchoolRecord(category: Level, name: string, menu: seq<string>)

  /** The menu recorded for a school whose code could not be found. */
  const NoCodeNotice: string := "❌ 학교 코드를 찾을 수 없습니다."

  /** Python truthiness of the code `search_school_code` returns: `None` and
      the empty string are false. */
  predicate Truthy(code: Option<string>) {
    code.Some? && code.value != ""
  }

  /** The code found for a school, given the directory answer each school
      name receives. Every lookup is sent with the office-of-education code
      `K10` (Gangwon province); that constant is folded into `directory`. */
  function CodeFor(directory: string -> DirectoryResponse, name: string): Option<string> {
    SearchSchoolCode(directory(name), name)
  }

  /** The menu recorded for one school: the meal lookup's answer when the
      code is truthy, the missing-code notice otherwise. */
  function MenuFor(directory: string -> DirectoryResponse, meals: string -> MealResponse, name: string): seq<string>
  {
    var code := CodeFor(directory, name);
    if Truthy(code) then FetchMealMenu(meals(code.value)) else [NoCodeNotice]
  }

  /** The record the loop appends for one school. */
  function RecordFor(directory: string -> DirectoryResponse, meals: string -> MealResponse, name: string): SchoolRecord {
    SchoolRecord(Category(name), name, MenuFor(directory, meals, name))
  }

  /** One turn of the loop: classify the school, look its code up, and
      request its meals only when the code is truthy. `fetchedMeals` tells
      whether the meal lookup was made. */
  method QueryOne(name: string, directory: string -> DirectoryResponse, meals: string -> MealResponse)
    returns (r: SchoolRecord, ghost fetchedMeals: bool)
    ensures r.name == name && r.category == Category(name)
    ensures Truthy(CodeFor(directory, name)) ==> r.menu == FetchMealMenu(meals(CodeFor(directory, name).value))
    ensures !Truthy(CodeFor(directory, name)) ==> r.menu == [NoCodeNotice]
    ensures fetchedMeals <==> Truthy(CodeFor(directory, name))
    ensures r == RecordFor(directory, meals, name)
  {
    var category := Category(name);
    var code := SearchSchoolCode(directory(name), name);
    if code.Some? && code.value != "" {
      var menu := FetchMealMenu(meals(code.value));
      r, fetchedMeals := SchoolRecord(category, name, menu), true;
    } else {
      r, fetchedMeals := SchoolRecord(category, name, [NoCodeNotice]), false;
    }
  }

  /** The loop over the roster. `directory` gives the school-directory answer
      for a name and `meals` the meal answer for a code (the office code
      `K10`, the date and the meal kind are fixed for the run). `fetched`
      traces the meal lookups: its i-th entry tells whether the i-th school's
      meals were requested. */
  method QueryAll(schools: seq<string>, directory: string -> DirectoryResponse, meals: string -> MealResponse)
    returns (results: seq<SchoolRecord>, ghost fetched: seq<bool>)
    ensures |results| == |schools|
    ensures forall i :: 0 <= i < |schools| ==>
              results[i].name == schools[i] && results[i].category == Category(schools[i]) &&
              results[i].menu == MenuFor(directory, meals, schools[i])
    ensures |fetched| == |schools|
    ensures forall i :: 0 <= i < |schools| ==> (fetched[i] <==> Truthy(CodeFor(directory, schools[i])))
  {
    results := [];
    fetched := [];
    var i := 0;
    while i < |schools|
      invariant 0 <= i <= |schools|
      invariant |results| == i
      invariant forall j :: 0 <= j < i ==>
                  results[j].name == schools[j] && results[j].category == Category(schools[j]) &&
                  results[j].menu == MenuFor(directory, meals, schools[j])
      invariant |fetched| == i
      invariant forall j :: 0 <= j < i ==> (fetched[j] <==> Truthy(CodeFor(directory, schools[j])))
    {
      var r, fetchedMeals := QueryOne(schools[i], directory, meals);
      fetched := fetched + [fetchedMeals];
      results := results + [r];
      i := i + 1;
    }
  }

  /** A menu worth showing: a non-empty list whose first item carries none
      of the phrases of the three notices. */
  predicate ShowsMenu(menu: seq<string>) {
    && |menu| > 0
    && !Contains(menu[0], "정보가 없습니다")
    && !Contains(menu[0], "실패했습니다")
    && !Contains(menu[0], "찾을 수 없습니다")
  }

  /** The records with a menu worth showing, in their original order. */
  function SuccessFilter(rs: seq<SchoolRecord>): (out: seq<SchoolRecord>)
    ensures IsSubsequence(out, rs) && |out| <= |rs|
    ensures forall r :: r in out <==> r in rs && ShowsMenu(r.menu)
    ensures forall r :: r in out ==>
              r.menu != [] && r.menu != [FailureNotice] && r.menu != [NoDataNotice] && r.menu != [NoCodeNotice]
  {
    NoticesNotShown();
    if |rs| == 0 then []
    else
      assert rs == [rs[0]] + rs[1..];
      if ShowsMenu(rs[0].menu) then
        SubsequenceCons(rs[0], SuccessFilter(rs[1..]), rs[1..]);
        [rs[0]] + SuccessFilter(rs[1..])
      else
        SubsequencePrepend(SuccessFilter(rs[1..]), [rs[0]], rs[1..]);
        SuccessFilter(rs[1..])
  }

  /** Filtering distributes over concatenation: each record is judged on its
      own, so a repeated record is kept as often as it occurs. */
  lemma {:induction false} SuccessFilterConcat(xs: seq<SchoolRecord>, ys: seq<SchoolRecord>)
    ensures SuccessFilter(xs + ys) == SuccessFilter(xs) + SuccessFilter(ys)
  {
    if |xs| == 0 {
      assert xs + ys == ys;
    } else {
      assert (xs + ys)[1..] == xs[1..] + ys;
      SuccessFilterConcat(xs[1..], ys);
    }
  }

  /** The filter keeps every occurrence of a record with a menu to show and
      none of the others, so the number of schools shown is fixed. */
  lemma {:induction false} SuccessFilterCounts(rs: seq<SchoolRecord>)
    ensures forall r :: multiset(SuccessFilter(rs))[r] == if ShowsMenu(r.menu) then multiset(rs)[r] else 0
  {
    if |rs| > 0 {
      SuccessFilterCounts(rs[1..]);
      assert rs == [rs[0]] + rs[1..];
    }
  }

  /** None of the three notices, and no empty menu, reaches the table. */
  lemma NoticesNotShown()
    ensures !ShowsMenu([FailureNotice])
    ensures !ShowsMenu([NoDataNotice])
    ensures !ShowsMenu([NoCodeNotice])
    ensures !ShowsMenu([])
  {
    FailureNoticeHasPhrase();
    NoDataNoticeHasPhrase();
    NoCodeNoticeHasPhrase();
  }

  lemma FailureNoticeHasPhrase()
    ensures Contains(FailureNotice, "실패했습니다")
  {
    assert FailureNotice[11..17] == "실패했습니다";
    ContainsAt(FailureNotice, "실패했습니다", 11);
  }

  lemma NoDataNoticeHasPhrase()
    ensures Contains(NoDataNotice, "정보가 없습니다")
  {
    assert NoDataNotice[0..8] == "정보가 없습니다";
    ContainsAt(NoDataNotice, "정보가 없습니다", 0);
  }

  lemma NoCodeNoticeHasPhrase()
    ensures Contains(NoCodeNotice, "찾을 수 없습니다")
  {
    assert NoCodeNotice[9..18] == "찾을 수 없습니다";
    ContainsAt(NoCodeNotice, "찾을 수 없습니다", 9);
  }

  /** A menu that the filter lets through came from a meal answer with a
      record whose `DDISH_NM` is a string, and is that string's dish list. */
  lemma ShownMenuIsDishes(resp: MealResponse)
    requires ShowsMenu(FetchMealMenu(resp))
    ensures resp.MealRows? && |resp.rows| > 0 && resp.rows[0].dishes.Str?
    ensures FetchMealMenu(resp) == Dishes(resp.rows[0].dishes.s)
  {
    NoticesNotShown();
  }

  /** A school's menu that the filter lets through was fetched with a truthy
      code, and is the dish list of the `DDISH_NM` string of the first record
      of that code's meal answer. */
  lemma ShownMenuFor(directory: string -> DirectoryResponse, meals: string -> MealResponse, name: string)
    requires ShowsMenu(MenuFor(directory, meals, name))
    ensures Truthy(CodeFor(directory, name))
    ensures var resp := meals(CodeFor(directory, name).value);
            && resp.MealRows? && |resp.rows| > 0 && resp.rows[0].dishes.Str?
            && MenuFor(directory, meals, name) == Dishes(resp.rows[0].dishes.s)
  {
    NoticesNotShown();
  }

  /** What the run ends with: no results at all, no school with a menu, or the
      schools to show with the totals for the summary line. */
  datatype Outcome =
    | QueryFailed
    | NothingToShow
    | Shown(total: nat, succeeded: nat, shown: seq<SchoolRecord>)

  /** The branches after the loop. */
  function Summarize(results: seq<SchoolRecord>): (o: Outcome)
    ensures o.QueryFailed? <==> |results| == 0
    ensures o.NothingToShow? ==> forall r :: r in results ==> !ShowsMenu(r.menu)
    ensures o.Shown? ==>
              && o.total == |results|
              && o.succeeded == |o.shown|
              && 0 < o.succeeded <= o.total
              && o.shown == SuccessFilter(results)
    ensures |results| > 0 && (exists r :: r in results && ShowsMenu(r.menu)) ==> o.Shown?
  {
    if |results| == 0 then QueryFailed
    else
      var shown := SuccessFilter(results);
      if |shown| == 0 then NothingToShow
      else Shown(|results|, |shown|, shown)
  }
}
