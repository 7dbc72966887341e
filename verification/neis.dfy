/** The two NEIS Open API lookups, reduced to their decision logic: picking a
    school code out of a school-directory answer, and turning a meal-service
    answer into a list of dishes or a one-line notice. The HTTP request, the
    status check and the JSON decoding are not modelled; their outcome is the
    abstract response each function takes. */
module Neis {
  import opened Optional
  import opened Sequences
  import opened Strings
  import opened Allergens

  /** A member of a decoded JSON object: absent, `null`, or a string. */
  datatype Field = Missing | Null | Str(s: string)

  /** One row of the `schoolInfo` answer: `SCHUL_NM` and `SD_SCHUL_CODE`. */
  datatype DirectoryRow = DirectoryRow(name: Field, code: Field)

  /** The school-directory answer as the code sees it: the request, status
      check or decoding raised; the body has no `row` list; or the rows. */
  datatype DirectoryResponse =
    | DirectoryFailed
    | DirectoryNoRows
    | DirectoryRows(rows: seq<DirectoryRow>)

  /** One row of the `mealServiceDietInfo` answer; only `DDISH_NM` is read. */
  datatype MealRecord = MealRecord(dishes: Field)

  /** The meal-service answer: the request, status check or decoding raised;
      the body has no `row` list; or the rows. */
  datatype MealResponse =
    | MealFailed
    | MealNoRows
    | MealRows(rows: seq<MealRecord>)

  /** The notice returned when the meal lookup raised. */
  const FailureNotice: string := "정보를 불러오는 데 실패했습니다."

  /** The notice returned when the meal answer has no rows. */
  const NoDataNotice: string := "정보가 없습니다."

  /** The separator between dishes in `DDISH_NM`. */
  const DishSeparator: string := "<br/>"

  /** What `row['SD_SCHUL_CODE']` yields: a missing key raises and the
      exception handler answers `None`, and a `null` code is `None` too. */
  function CodeValue(f: Field): Option<string>
  {
    if f.Str? then Some(f.s) else None
  }

  /** The name scan stops at a row whose name is missing (the lookup raises)
      or equals the query (the code is returned). */
  predicate StopsScan(row: DirectoryRow, query: string) {
    row.name.Missing? || row.name == Str(query)
  }

  /** The scan reaches row `i`: every row before it has a name, and not the
      query's. */
  predicate ScanReaches(rows: seq<DirectoryRow>, query: string, i: nat)
    requires i <= |rows|
  {
    forall j :: 0 <= j < i ==> !StopsScan(rows[j], query)
  }

  /** The first index at or after `i` where the name scan stops. */
  function FirstStop(rows: seq<DirectoryRow>, query: string, i: nat): (r: Option<nat>)
    requires i <= |rows|
    ensures r.Some? ==> i <= r.value < |rows| && StopsScan(rows[r.value], query)
    ensures r.Some? ==> forall j :: i <= j < r.value ==> !StopsScan(rows[j], query)
    ensures r.None? ==> forall j :: i <= j < |rows| ==> !StopsScan(rows[j], query)
    decreases |rows| - i
  {
    if i == |rows| then None
    else if StopsScan(rows[i], query) then Some(i)
    else FirstStop(rows, query, i + 1)
  }

  /** `search_school_code`: the code of the first row named exactly like the
      query, else the first row's code; `None` when the lookup failed, the
      answer has no rows, the row list is empty, or a row before any match
      has no name. */
  function SearchSchoolCode(resp: DirectoryResponse, query: string): (r: Option<string>)
    ensures !resp.DirectoryRows? ==> r.None?
    ensures resp.DirectoryRows? ==>
              forall i :: 0 <= i < |resp.rows| && ScanReaches(resp.rows, query, i) && resp.rows[i].name == Str(query)
                ==> r == CodeValue(resp.rows[i].code)
    ensures resp.DirectoryRows? ==>
              forall i :: 0 <= i < |resp.rows| && ScanReaches(resp.rows, query, i) && resp.rows[i].name.Missing?
                ==> r.None?
    ensures (resp.DirectoryRows? && |resp.rows| > 0 && ScanReaches(resp.rows, query, |resp.rows|)) ==>
              r == CodeValue(resp.rows[0].code)
    ensures resp.DirectoryRows? && |resp.rows| == 0 ==> r.None?
    ensures r.Some? ==> resp.DirectoryRows? && exists i :: 0 <= i < |resp.rows| && resp.rows[i].code == Str(r.value)
  {
    match resp
    case DirectoryFailed => None
    case DirectoryNoRows => None
    case DirectoryRows(rows) =>
      match FirstStop(rows, query, 0)
      case Some(i) => if rows[i].name.Missing? then None else CodeValue(rows[i].code)
      case None => if |rows| == 0 then None else CodeValue(rows[0].code)
  }

  /** Python's `[d.strip() for d in ps if d.strip()]`. */
  function CleanItems(ps: seq<string>): (ds: seq<string>)
    ensures |ds| <= |ps|
    ensures forall k :: 0 <= k < |ds| ==> ds[k] != "" && Trimmed(ds[k])
  {
    if |ps| == 0 then []
    else
      var t := Trim(ps[0]);
      if t == "" then CleanItems(ps[1..]) else [t] + CleanItems(ps[1..])
  }

  /** Every strip of a piece, in piece order. */
  function TrimAll(ps: seq<string>): (ts: seq<string>)
    ensures |ts| == |ps|
    ensures forall k :: 0 <= k < |ps| ==> ts[k] == Trim(ps[k])
  {
    if |ps| == 0 then [] else [Trim(ps[0])] + TrimAll(ps[1..])
  }

  /** The kept items are the non-empty strips, in the order of their pieces. */
  lemma {:induction false} CleanItemsOrder(ps: seq<string>)
    ensures IsSubsequence(CleanItems(ps), TrimAll(ps))
    ensures forall x :: x in CleanItems(ps) <==> x != "" && x in TrimAll(ps)
  {
    if |ps| == 0 {
    } else {
      CleanItemsOrder(ps[1..]);
      var t := Trim(ps[0]);
      assert TrimAll(ps) == [t] + TrimAll(ps[1..]);
      if t == "" {
        SubsequencePrepend(CleanItems(ps[1..]), [t], TrimAll(ps[1..]));
      } else {
        SubsequenceCons(t, CleanItems(ps[1..]), TrimAll(ps[1..]));
      }
    }
  }

  /** A pattern no piece contains is contained in no kept item. */
  lemma {:induction false} CleanItemsKeepOut(ps: seq<string>, pat: string)
    requires forall k :: 0 <= k < |ps| ==> !Contains(ps[k], pat)
    ensures forall k :: 0 <= k < |CleanItems(ps)| ==> !Contains(CleanItems(ps)[k], pat)
  {
    if |ps| > 0 {
      TrimKeepsOut(ps[0], pat);
      CleanItemsKeepOut(ps[1..], pat);
    }
  }

  /** Cleaning a concatenation of piece lists cleans each list. */
  lemma {:induction false} CleanItemsConcat(ps: seq<string>, qs: seq<string>)
    ensures CleanItems(ps + qs) == CleanItems(ps) + CleanItems(qs)
  {
    if |ps| == 0 {
      assert ps + qs == qs;
    } else {
      assert (ps + qs)[1..] == ps[1..] + qs;
      CleanItemsConcat(ps[1..], qs);
    }
  }

  /** Items already non-empty and stripped pass the cleaning unchanged. */
  lemma {:induction false} CleanItemsIdentity(ds: seq<string>)
    requires forall k :: 0 <= k < |ds| ==> ds[k] != "" && Trimmed(ds[k])
    ensures CleanItems(ds) == ds
  {
    if |ds| > 0 {
      TrimTrimmed(ds[0]);
      CleanItemsIdentity(ds[1..]);
    }
  }

  /** The dish list of a `DDISH_NM` value: allergen groups deleted, split on
      `<br/>`, each piece stripped, empty pieces dropped. */
  function Dishes(d: string): (ds: seq<string>)
    ensures forall k :: 0 <= k < |ds| ==>
              ds[k] != "" && Trimmed(ds[k]) && !Contains(ds[k], DishSeparator)
  {
    var ps := Split(StripAllergens(d), DishSeparator);
    SplitPiecesClean(StripAllergens(d), DishSeparator);
    CleanItemsKeepOut(ps, DishSeparator);
    CleanItems(ps)
  }

  lemma DishSeparatorNoBorder()
    ensures NoBorder(DishSeparator)
  {
    NoBorderByFirstChar(DishSeparator);
  }

  /** The dishes are the non-empty strips of the separated pieces of the
      cleaned text, in their order, every non-empty strip is a dish, and the
      cleaned text holds no allergen group. */
  lemma DishesOrder(d: string)
    ensures IsSubsequence(Dishes(d), TrimAll(Split(StripAllergens(d), DishSeparator)))
    ensures forall x :: x in Dishes(d) <==> x != "" && x in TrimAll(Split(StripAllergens(d), DishSeparator))
    ensures !ContainsDigitGroup(StripAllergens(d))
  {
    CleanItemsOrder(Split(StripAllergens(d), DishSeparator));
    StripLeavesNoDigitGroup(d);
  }

  /** Text without `(` holds no allergen group. */
  lemma NoParenNoGroup(s: string)
    requires '(' !in s
    ensures !ContainsDigitGroup(s)
  {
    forall i, r ensures !DigitGroup(s, i, r) {
      if 0 <= i < |s| {
        assert s[i] in s;
      }
    }
  }

  /** A character found in neither the pieces nor the separator is not in
      their join. */
  lemma {:induction false} JoinAvoids(ps: seq<string>, sep: string, c: char)
    requires c !in sep
    requires forall k :: 0 <= k < |ps| ==> c !in ps[k]
    ensures c !in Join(ps, sep)
  {
    if |ps| > 1 {
      JoinAvoids(ps[1..], sep, c);
    }
  }

  /** For text up to a separator that has no `(`, the dishes before and after
      the separator are parsed independently. */
  lemma DishesSplitAtSeparator(a: string, b: string)
    requires '(' !in a
    ensures Dishes(a + DishSeparator + b) == Dishes(a) + Dishes(b)
  {
    var a' := a + DishSeparator;
    assert '(' !in a' by {
      assert forall k :: 0 <= k < |a'| ==> a'[k] in a || a'[k] in DishSeparator;
    }
    StripPlainPrefix(a', b);
    NoParenNoGroup(a);
    StripIdentity(a);
    DishSeparatorNoBorder();
    SplitConcat(a, DishSeparator, StripAllergens(b));
    CleanItemsConcat(Split(a, DishSeparator), Split(StripAllergens(b), DishSeparator));
  }

  /** A dish the parser can return unchanged: non-empty, stripped, without
      `<br/>` and without `(`. */
  predicate PlainDish(x: string) {
    x != "" && Trimmed(x) && !Contains(x, DishSeparator) && '(' !in x
  }

  /** Plain dishes joined with `<br/>` hold no allergen group to delete. */
  lemma {:induction false} PlainJoinUnstripped(ds: seq<string>)
    requires forall k :: 0 <= k < |ds| ==> PlainDish(ds[k])
    ensures StripAllergens(Join(ds, DishSeparator)) == Join(ds, DishSeparator)
  {
    var s := Join(ds, DishSeparator);
    JoinAvoids(ds, DishSeparator, '(');
    NoParenNoGroup(s);
    StripIdentity(s);
  }

  /** Writing plain dishes out with `<br/>` and parsing them back gives the
      same dishes. */
  lemma DishesRoundTrip(ds: seq<string>)
    requires forall k :: 0 <= k < |ds| ==> PlainDish(ds[k])
    ensures Dishes(Join(ds, DishSeparator)) == ds
  {
    PlainJoinUnstripped(ds);
    if |ds| == 0 {
      DishesEmpty();
    } else {
      DishSeparatorNoBorder();
      SplitJoin(ds, DishSeparator);
      CleanItemsIdentity(ds);
    }
  }

  /** A piece without `<` is never split. */
  lemma SplitWhole(x: string)
    requires '<' !in x
    ensures Split(x, DishSeparator) == [x]
  {
    MissingCharNotContained(x, DishSeparator, '<');
  }

  /** Text without `(` passes the allergen scan unchanged. */
  lemma NoParenUnstripped(s: string)
    requires '(' !in s
    ensures StripAllergens(s) == s
  {
    NoParenNoGroup(s);
    StripIdentity(s);
  }

  /** A digit group right after a dish goes, and the dish stays. */
  lemma StripGroupAfterDish(a: string, g: string, rest: string)
    requires PlainDish(a)
    requires ')' !in g && DigitIn(g, 0, |g|)
    ensures StripAllergens(a + ("(" + g + ")" + rest)) == a + StripAllergens(rest)
  {
    StripPlainPrefix(a, "(" + g + ")" + rest);
    StripLeadingGroup(g, rest);
  }

  lemma StripLeadingGroup(g: string, rest: string)
    requires ')' !in g && DigitIn(g, 0, |g|)
    ensures StripAllergens("(" + g + ")" + rest) == StripAllergens(rest)
  {
    assert "" + "(" + g + ")" + rest == "(" + g + ")" + rest;
    RemovesLeadingGroup("", g, rest);
  }

  /** Regrouping of the closed pair, so the allergen deletion can be applied
      to the dish and its group first. */
  lemma ClosedPairShape(a: string, g: string, b: string)
    ensures a + "(" + g + ")" + DishSeparator + b + DishSeparator
            == a + ("(" + g + ")" + (DishSeparator + (b + DishSeparator + "")))
  {
  }

  /** The text after the first dish's group has no `(` when the second dish
      has none. */
  lemma ClosedPairNoParen(b: string)
    requires '(' !in b
    ensures '(' !in DishSeparator + (b + DishSeparator + "")
  {
    var ps := ["", b, ""];
    JoinAvoids(ps, DishSeparator, '(');
    assert Join(ps[2..], DishSeparator) == "";
    assert Join(ps[1..], DishSeparator) == b + DishSeparator + "";
  }

  /** Splitting two dishes, each closed by `<br/>`, leaves an empty last piece. */
  lemma SplitTwoClosed(a: string, b: string)
    requires '<' !in a && '<' !in b
    ensures Split(a + DishSeparator + (b + DishSeparator + ""), DishSeparator) == [a, b, ""]
  {
    DishSeparatorNoBorder();
    SplitConcat(a, DishSeparator, b + DishSeparator + "");
    SplitConcat(b, DishSeparator, "");
    SplitWhole(a);
    SplitWhole(b);
    SplitWhole("");
  }

  /** A dish followed by its allergen group, then a second dish, each
      closed by `<br/>`: the group goes, and the trailing separator leaves no
      empty dish behind. */
  lemma DishesWithGroup(a: string, g: string, b: string)
    requires PlainDish(a) && PlainDish(b) && '<' !in a && '<' !in b
    requires ')' !in g && DigitIn(g, 0, |g|)
    ensures Dishes(a + "(" + g + ")" + DishSeparator + b + DishSeparator) == [a, b]
  {
    var rest := DishSeparator + (b + DishSeparator + "");
    ClosedPairShape(a, g, b);
    StripGroupAfterDish(a, g, rest);
    ClosedPairNoParen(b);
    NoParenUnstripped(rest);
    ConcatAssoc(a, DishSeparator, b + DishSeparator + "");
    SplitTwoClosed(a, b);
    TrimTrimmed(a);
    TrimTrimmed(b);
    assert Trim("") == "";
    var ps := [a, b, ""];
    assert CleanItems(ps[2..]) == [];
    assert CleanItems(ps[1..]) == [b] + CleanItems(ps[2..]);
  }

  /** A dish name written in Hangul syllables only is a plain dish. */
  lemma HangulDish(x: string)
    requires x != "" && forall k :: 0 <= k < |x| ==> '가' <= x[k] <= '힣'
    ensures PlainDish(x) && '<' !in x
  {
    MissingCharNotContained(x, DishSeparator, '<');
  }

  /** The rice keeps its name once its allergen codes `(1.5.6)` go. */
  lemma DishesExample()
    ensures Dishes("백미밥" + "(1.5.6)" + "<br/>" + "김치찌개" + "<br/>") == ["백미밥", "김치찌개"]
  {
    var a, g, b := "백미밥", "1.5.6", "김치찌개";
    assert IsDigit(g[0]);
    HangulDish(a);
    HangulDish(b);
    DishesWithGroup(a, g, b);
    assert "(1.5.6)" == "(" + g + ")";
    ConcatAssoc(a, "(" + g, ")");
    ConcatAssoc(a, "(", g);
  }

  /** `fetch_meal_menu`: the dishes of the first meal record, or a one-line
      notice when there is nothing to parse. */
  function FetchMealMenu(resp: MealResponse): (menu: seq<string>)
    ensures resp.MealFailed? ==> menu == [FailureNotice]
    ensures resp.MealNoRows? ==> menu == [NoDataNotice]
    ensures resp.MealRows? && |resp.rows| == 0 ==> menu == [FailureNotice]
    ensures resp.MealRows? && |resp.rows| > 0 && resp.rows[0].dishes.Null? ==> menu == [FailureNotice]
    ensures resp.MealRows? && |resp.rows| > 0 && resp.rows[0].dishes.Missing? ==> menu == []
    ensures resp.MealRows? && |resp.rows| > 0 && resp.rows[0].dishes.Str? ==>
              menu == Dishes(resp.rows[0].dishes.s)
  {
    match resp
    case MealFailed => [FailureNotice]
    case MealNoRows => [NoDataNotice]
    case MealRows(rows) =>
      if |rows| == 0 then [FailureNotice]
      else
        match rows[0].dishes
        case Missing => Dishes("")
        case Null => [FailureNotice]
        case Str(d) => Dishes(d)
  }

  /** An empty `DDISH_NM` gives no dishes. */
  lemma DishesEmpty()
    ensures Dishes("") == []
  {
    assert Split("", DishSeparator) == [""];
    assert Trim("") == "";
  }
}
