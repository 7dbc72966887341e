/** The fixed query targets and the school-level classification by name. */
module Schools {
  import opened Strings

  /** The schools of the Taebaek area, in the order they are queried. */
  const TaebaekSchools: seq<string> := [
    "동점초등학교", "미동초등학교", "삼성초등학교", "상장초등학교", "장성초등학교",
    "철암초등학교", "태백초등학교", "태서초등학교", "통리초등학교", "함태초등학교",
    "황지중앙초등학교", "황지초등학교",
    "상장중학교", "세연중학교", "태백중학교", "함태중학교", "황지중학교",
    "장성여자고등학교", "철암고등학교", "한국항공고등학교", "황지고등학교",
    "황지정보산업고등학교",
    "태백라온학교"
  ]

  /** The school level (`학교급`) of a school. */
  datatype Level = Elementary | Middle | High | Special | Other

  /** The label a level carries in the results and the table header. */
  function LevelName(l: Level): string {
    match l
    case Elementary => "초등학교"
    case Middle => "중학교"
    case High => "고등학교"
    case Special => "특수학교"
    case Other => "기타"
  }

  /** The levels, in the order the menu table shows them. */
  const LevelOrder: seq<Level> := [Elementary, Middle, High, Special, Other]

  /** The label order of the menu table. */
  lemma LevelOrderNames()
    ensures seq(|LevelOrder|, i requires 0 <= i < |LevelOrder| => LevelName(LevelOrder[i]))
            == ["초등학교", "중학교", "고등학교", "특수학교", "기타"]
  {
  }

  /** Distinct levels carry distinct labels. */
  lemma LevelNameInjective(l: Level, m: Level)
    ensures LevelName(l) == LevelName(m) <==> l == m
  {
    if l != m {
      assert LevelName(l)[0] != LevelName(m)[0];
    }
  }

  /** The position of a level in `LevelOrder`. */
  function Rank(l: Level): (k: nat)
    ensures k < |LevelOrder| && LevelOrder[k] == l
  {
    match l
    case Elementary => 0
    case Middle => 1
    case High => 2
    case Special => 3
    case Other => 4
  }

  /** `Rank` and `LevelOrder` are inverse to each other. */
  lemma RankOfOrder(k: nat)
    requires k < |LevelOrder|
    ensures Rank(LevelOrder[k]) == k
  {
    if k == 0 {} else if k == 1 {} else if k == 2 {} else if k == 3 {} else {}
  }

  /** The name fragments looked for, in this order; the i-th one selects
      `LevelOrder[i]`, and a name with none of them is `Other` (`기타`). */
  const Markers: seq<string> := ["초등학교", "중학교", "고등학교", "라온학교"]

  /** The school level of a name: the first marker, in the order of
      `Markers`, that occurs in the name decides; `Other` when none does. */
  function Category(name: string): (l: Level)
    ensures l != Other ==> Rank(l) < |Markers| && Contains(name, Markers[Rank(l)])
    ensures l == Other <==> forall j :: 0 <= j < |Markers| ==> !Contains(name, Markers[j])
  {
    if Contains(name, "초등학교") then Elementary
    else if Contains(name, "중학교") then Middle
    else if Contains(name, "고등학교") then High
    else if Contains(name, "라온학교") then Special
    else Other
  }

  /** The level is decided by the first marker present, in marker order. */
  lemma CategoryFirstMatch(name: string)
    ensures forall i :: 0 <= i < |Markers| ==>
              (Category(name) == LevelOrder[i] <==>
                 Contains(name, Markers[i]) && forall j :: 0 <= j < i ==> !Contains(name, Markers[j]))
    ensures Category(name) == Other <==> forall j :: 0 <= j < |Markers| ==> !Contains(name, Markers[j])
  {
    var m0, m1, m2, m3 := Contains(name, Markers[0]), Contains(name, Markers[1]),
                          Contains(name, Markers[2]), Contains(name, Markers[3]);
    assert (forall j :: 0 <= j < 1 ==> !Contains(name, Markers[j])) <==> !m0;
    assert (forall j :: 0 <= j < 2 ==> !Contains(name, Markers[j])) <==> !m0 && !m1;
    assert (forall j :: 0 <= j < 3 ==> !Contains(name, Markers[j])) <==> !m0 && !m1 && !m2;
    assert (forall j :: 0 <= j < 4 ==> !Contains(name, Markers[j])) <==> !m0 && !m1 && !m2 && !m3;
  }

  /** A name with `초등학교` in it is an elementary school, whatever else it
      contains. */
  lemma ElementaryWins(p: string, q: string)
    ensures Category(p + "초등학교" + q) == Elementary
  {
    var s := p + "초등학교" + q;
    assert s[|p|..|p| + 4] == "초등학교";
    ContainsAt(s, "초등학교", |p|);
  }

  /** A name ending in `중학교` and free of `초` is a middle school. */
  lemma MiddleBySuffix(p: string)
    requires '초' !in p
    ensures Category(p + "중학교") == Middle
  {
    var s := p + "중학교";
    assert s[|p|..] == "중학교";
    ContainsAt(s, "중학교", |p|);
    MissingCharNotContained(s, "초등학교", '초');
  }

  /** A name ending in `고등학교` and free of `초` and `중` is a high school. */
  lemma HighBySuffix(p: string)
    requires '초' !in p && '중' !in p
    ensures Category(p + "고등학교") == High
  {
    var s := p + "고등학교";
    assert s[|p|..] == "고등학교";
    ContainsAt(s, "고등학교", |p|);
    MissingCharNotContained(s, "초등학교", '초');
    MissingCharNotContained(s, "중학교", '중');
  }

  /** The first twelve schools of the roster are elementary schools. */
  lemma RosterElementary()
    ensures forall i :: 0 <= i < 12 ==> Category(TaebaekSchools[i]) == Elementary
  {
    var ps := ["동점", "미동", "삼성", "상장", "장성", "철암", "태백", "태서", "통리", "함태", "황지중앙", "황지"];
    forall i | 0 <= i < 12 ensures Category(TaebaekSchools[i]) == Elementary {
      assert TaebaekSchools[i] == ps[i] + "초등학교" + "";
      ElementaryWins(ps[i], "");
    }
  }

  /** The next five are middle schools. */
  lemma RosterMiddle()
    ensures forall i :: 12 <= i < 17 ==> Category(TaebaekSchools[i]) == Middle
  {
    var ps := ["상장", "세연", "태백", "함태", "황지"];
    forall i | 12 <= i < 17 ensures Category(TaebaekSchools[i]) == Middle {
      assert TaebaekSchools[i] == ps[i - 12] + "중학교";
      MiddleBySuffix(ps[i - 12]);
    }
  }

  /** The next five are high schools. */
  lemma RosterHigh()
    ensures forall i :: 17 <= i < 22 ==> Category(TaebaekSchools[i]) == High
  {
    var ps := ["장성여자", "철암", "한국항공", "황지", "황지정보산업"];
    forall i | 17 <= i < 22 ensures Category(TaebaekSchools[i]) == High {
      assert TaebaekSchools[i] == ps[i - 17] + "고등학교";
      HighBySuffix(ps[i - 17]);
    }
  }

  /** The last school of the roster is the special school. */
  lemma RosterSpecial()
    ensures |TaebaekSchools| == 23
    ensures Category(TaebaekSchools[22]) == Special
  {
    var s := TaebaekSchools[22];
    assert s[2..6] == "라온학교";
    ContainsAt(s, "라온학교", 2);
    MissingCharNotContained(s, "초등학교", '초');
    MissingCharNotContained(s, "중학교", '중');
    MissingCharNotContained(s, "고등학교", '고');
  }
}
