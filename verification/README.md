# Taebaek school-meal lookup — a Dafny model

`taebaek_meal.py` is a small Streamlit page. For one date and meal (breakfast, lunch or dinner), it asks the NEIS Open API (the Korean education-data service) for the menus of the 23 schools in the Taebaek area. It then shows them side by side, grouped by school level. This project models the decision logic of that page as pure Dafny functions. The HTTP answers become abstract datatypes, and the properties the page relies on are proved.

| file | module | what it holds |
|---|---|---|
| `optional.dfy` | `Optional` | `Option` |
| `sequences.dfy` | `Sequences` | order-preserving subsequences |
| `strings.dfy` | `Strings` | Python's `str.isspace`, `strip`, `in`, `find`, `split`, `join`, `count` and `replace(pat, '')` |
| `allergens.dfy` | `Allergens` | `re.sub(r'\s*\([^)]*\d[^)]*\)', '', s)` as a left-to-right scanner, with the regular expression stated independently |
| `schools.dfy` | `Schools` | the roster, `get_school_category`, the level order of the table |
| `neis.dfy` | `Neis` | `search_school_code` and `fetch_meal_menu` over abstract answers, the dish-list parser |
| `queries.dfy` | `Queries` | the per-school loop (with a ghost trace of meal lookups), the success filter, the branches after the loop |
| `menu_table.dfy` | `MenuTable` | `create_school_menu_table` without markup: grouping, column order, colspans, name abbreviation, menu cells |

Decoded JSON is modelled as follows:
- A member of a decoded JSON object is a `Field`: `Missing`, `Null` or `Str(s)`.
- A failed request, a failed status check or a decoding error is the `…Failed` constructor of the answer.
- A body without a `row` list is `…NoRows`.

The source's `try`/`except` blocks become explicit outcomes:
- `s['SCHUL_NM']` or `s['SD_SCHUL_CODE']` on a row without that key raises, and `search_school_code` then returns `None`.
- `record.get('DDISH_NM', '')` on a missing key gives `''`, so the menu is the empty list.
- A `null` `DDISH_NM` makes `re.sub` raise, which gives the failure notice.

Behaviour worth noting:
- **Sequential lookups.** The schools are looked up one after the other, in roster order. There is no worker pool and no reassembly by completion order.
- **Allergen groups are deleted.** They are never parsed into allergen codes. `백미밥(1.5.6)` becomes the dish `백미밥` and nothing else.
- **Empty `row` list.** A meal answer whose `row` list is empty makes `['row'][0]` raise. It therefore gives the failure notice (`정보를 불러오는 데 실패했습니다.`), not the no-data notice.
- **School-code fallback.**
  - With no exact name match, the first row's code is used.
  - A row without `SCHUL_NM` met before any match ends the search with `None`.
  - An empty string code counts as "not found", because the page tests the code's truthiness.

## Model

| member | source | states |
|---|---|---|
| Schools.Category | taebaek_meal.py:40-51 | a level other than `기타` is one whose marker occurs in the name, and `기타` is returned exactly when no marker occurs |
| Schools.CategoryFirstMatch | taebaek_meal.py:40-51 | the level is the one of the first of `초등학교`, `중학교`, `고등학교`, `라온학교` contained in the name (both directions), and `기타` exactly when none is |
| Schools.ElementaryWins | taebaek_meal.py:42-43 | any name containing `초등학교` is elementary, whatever else it contains |
| Schools.MiddleBySuffix | taebaek_meal.py:42-45 | a name ending in `중학교` without `초` is a middle school |
| Schools.HighBySuffix | taebaek_meal.py:42-47 | a name ending in `고등학교` without `초` or `중` is a high school |
| Schools.RosterElementary | taebaek_meal.py:29-32 | the first twelve roster schools are classified elementary |
| Schools.RosterMiddle | taebaek_meal.py:33 | roster schools 12 to 16 are classified middle |
| Schools.RosterHigh | taebaek_meal.py:34-35 | roster schools 17 to 21 are classified high |
| Schools.RosterSpecial | taebaek_meal.py:29-37 | the roster has 23 schools and the last, `태백라온학교`, is classified special |
| Schools.LevelName | taebaek_meal.py:43-51 | the label of each level: the strings `get_school_category` returns, which are also the `category_order` entries at line 118 (a definition, no contract) |
| Schools.Rank | taebaek_meal.py:118 | every level has a position in the table's level order, and the order holds that level there |
| Schools.RankOfOrder | taebaek_meal.py:118 | position and level order are mutually inverse |
| Schools.LevelOrderNames | taebaek_meal.py:118 | the labels of the level order are `초등학교, 중학교, 고등학교, 특수학교, 기타` in that order |
| Schools.LevelNameInjective | taebaek_meal.py:42-51 | two levels carry the same label only if they are the same level |
| Neis.CodeValue | taebaek_meal.py:68-70 | the code a row yields: `SD_SCHUL_CODE` when it is a string; `None` when the key is missing (the `KeyError` is caught) or the value is `null` (a definition, no contract) |
| Neis.FirstStop | taebaek_meal.py:66-68 | finds the first row from `i` on that matches the query or lacks a name, and no earlier one |
| Neis.SearchSchoolCode | taebaek_meal.py:53-72 | a failed lookup or an answer without rows gives `None`; the first row named exactly like the query gives its code; a nameless row before any match gives `None`; with neither, the first row gives the code (`None` for an empty row list); a returned code is the `SD_SCHUL_CODE` of some row |
| Neis.FetchMealMenu | taebaek_meal.py:74-96 | errors, an empty row list and a `null` dish field give exactly the failure notice; no rows gives exactly the no-data notice; a missing dish field gives `[]`; a string dish field gives exactly that string's dish list (`Dishes`), so every dish is non-empty, stripped and free of `<br/>`, and an empty string gives `[]` |
| Neis.DishesEmpty | taebaek_meal.py:88 | an empty `DDISH_NM` yields no dishes |
| Neis.Dishes | taebaek_meal.py:88-93 | every dish is non-empty, has no surrounding whitespace and holds no `<br/>` |
| Neis.DishesOrder | taebaek_meal.py:89-92 | the dishes are an order-preserving subsequence of the stripped `<br/>`-pieces of the cleaned text, every non-empty stripped piece is among them, and the cleaned text holds no digit group |
| Neis.DishesRoundTrip | taebaek_meal.py:88-93 | plain dishes joined with `<br/>` are parsed back to exactly the same list |
| Neis.DishesSplitAtSeparator | taebaek_meal.py:90-92 | for text before a `<br/>` that has no `(`, the dish list of the whole is the dishes before followed by the dishes after |
| Neis.DishesWithGroup | taebaek_meal.py:88-93 | a dish followed by its digit group and a second dish, each ended by `<br/>`, parse to exactly the two dish names |
| Neis.DishesExample | taebaek_meal.py:88-93 | `백미밥(1.5.6)<br/>김치찌개<br/>` parses to `["백미밥", "김치찌개"]` |
| Neis.PlainJoinUnstripped | taebaek_meal.py:90 | plain dishes joined with `<br/>` contain nothing the allergen pattern deletes |
| Neis.NoParenUnstripped | taebaek_meal.py:90 | text without `(` is left unchanged by the allergen deletion |
| Neis.NoParenNoGroup | taebaek_meal.py:90 | text without `(` contains no digit group |
| Neis.StripGroupAfterDish | taebaek_meal.py:90 | a digit group right after a plain dish is deleted and the dish kept |
| Neis.StripLeadingGroup | taebaek_meal.py:90 | a leading digit group is deleted |
| Neis.SplitWhole | taebaek_meal.py:92 | a piece without `<` is not split |
| Neis.SplitTwoClosed | taebaek_meal.py:92 | two dishes, each ended by `<br/>`, split into the two and a trailing empty piece |
| Neis.CleanItems | taebaek_meal.py:92 | kept items are non-empty and stripped, and at most as many as the pieces |
| Neis.TrimAll | taebaek_meal.py:92 | one stripped item per piece, in order |
| Neis.CleanItemsOrder | taebaek_meal.py:92 | kept items are an order-preserving subsequence of the stripped pieces, and an item is kept exactly when it is a non-empty strip |
| Neis.CleanItemsKeepOut | taebaek_meal.py:92 | a pattern no piece contains is in no kept item |
| Neis.CleanItemsConcat | taebaek_meal.py:92 | cleaning distributes over concatenated piece lists |
| Neis.CleanItemsIdentity | taebaek_meal.py:92 | items already non-empty and stripped pass unchanged |
| Neis.DishSeparatorNoBorder | taebaek_meal.py:92 | no proper prefix of `<br/>` is also a suffix of it, so occurrences cannot overlap |
| Allergens.ClosingParen | taebaek_meal.py:90 | finds the first `)` at or after `i`, or reports that there is none |
| Allergens.ClosingParenUnique | taebaek_meal.py:90 | a `)` with none before it from `i` is the one found |
| Allergens.MatchLen | taebaek_meal.py:90 | a match at the front is between 2 and `|s|` characters long |
| Allergens.MatchLenIsRegexMatch | taebaek_meal.py:90 | the scanner's match length at the front is `e` exactly when the prefix of length `e` matches `\s*\([^)]*\d[^)]*\)` (stated independently as spaces, `(`, no `)`, a digit, final `)`) |
| Allergens.MatchLenSound | taebaek_meal.py:90 | a match the scanner reports is a prefix the pattern matches |
| Allergens.MatchLenComplete | taebaek_meal.py:90 | every prefix the pattern matches is the one the scanner reports |
| Allergens.MatchGivesGroup | taebaek_meal.py:90 | the parenthesised part of a match is a digit group |
| Allergens.StripAllergens | taebaek_meal.py:90 | deleting matches never lengthens the text |
| Allergens.StripSubsequence | taebaek_meal.py:90 | the kept characters keep their order: the result is a subsequence of the input |
| Allergens.StripNoNewChar | taebaek_meal.py:90 | the deletion introduces no character absent from the input |
| Allergens.StripLeavesNoDigitGroup | taebaek_meal.py:90 | the result contains no `(` … `)` group with a digit and no inner `)` |
| Allergens.StripIdentity | taebaek_meal.py:90 | text with no digit group is returned unchanged |
| Allergens.StripFixpoint | taebaek_meal.py:90 | text is unchanged exactly when it contains no digit group |
| Allergens.StripIdempotent | taebaek_meal.py:90 | deleting twice is deleting once |
| Allergens.KeepsDigitFreeGroup | taebaek_meal.py:90 | a parenthesised group with no digit, such as `(가)`, is kept unchanged |
| Allergens.RemovesLeadingGroup | taebaek_meal.py:90 | leading whitespace together with a digit group is deleted |
| Allergens.StripPlainPrefix | taebaek_meal.py:90 | a prefix without `(` that does not end in whitespace is kept unchanged |
| Strings.IsSpace | taebaek_meal.py:90-92 | the characters Python's `str.isspace` accepts, used by `strip()` and by the pattern's `\s` (a definition, no contract) |
| Strings.IsDigit | taebaek_meal.py:90 | the pattern's `\d`, restricted to the ASCII digits (a definition, no contract; see Left out) |
| Strings.LeadingSpaces | taebaek_meal.py:92 | counts exactly the whitespace run at the front |
| Strings.TrailingSpaces | taebaek_meal.py:92 | counts exactly the whitespace run at the back |
| Strings.Trim | taebaek_meal.py:92 | `strip()` yields a stripped infix of the input, with only whitespace cut at either end |
| Strings.TrimTrimmed | taebaek_meal.py:92 | stripping stripped text changes nothing |
| Strings.IndexOf | taebaek_meal.py:92 | a found occurrence lies inside the text |
| Strings.IndexOfSpec | taebaek_meal.py:92 | `find` reports an occurrence, and none exists before it |
| Strings.IndexOfLeftmost | taebaek_meal.py:92 | the leftmost occurrence is the one reported |
| Strings.Contains | taebaek_meal.py:42-48 | Python's `pat in s`, as a successful `find` (a definition; `Strings.ContainsIff` characterises it) |
| Strings.ContainsIff | taebaek_meal.py:42-48 | `pat in s` holds exactly when some index starts an occurrence |
| Strings.Split | taebaek_meal.py:92 | `split` yields at least one piece |
| Strings.SplitPiecesClean | taebaek_meal.py:92 | no piece contains the separator |
| Strings.SplitCount | taebaek_meal.py:92 | there is one more piece than separator occurrences |
| Strings.JoinSplit | taebaek_meal.py:92 | joining the pieces with the separator gives back the text |
| Strings.SplitJoin | taebaek_meal.py:151-154 | splitting separator-free items joined with a non-self-overlapping separator gives back the items |
| Strings.Join | taebaek_meal.py:149-154 | Python's `sep.join(items)` (a definition; `Strings.JoinSplit`, `Strings.SplitJoin` and `Strings.JoinCount` relate it to `split`) |
| Strings.JoinCount | taebaek_meal.py:151-154 | `n` separator-free items joined contain `n - 1` separators |
| Strings.RemoveAll | taebaek_meal.py:135 | `replace(pat, '')` never lengthens the text |
| Strings.RemoveAllLength | taebaek_meal.py:135 | the text shrinks by `|pat|` for every occurrence removed |
| Strings.RemoveAllSubsequence | taebaek_meal.py:135 | the remaining characters keep their order |
| Strings.RemoveAllIsJoinOfSplit | taebaek_meal.py:135 | `replace(pat, '')` equals `''.join(split(pat))` |
| Strings.RemoveAllChar | taebaek_meal.py:135 | removing a one-character pattern leaves no such character |
| Queries.ShownMenuFor | taebaek_meal.py:216-232 | a school's menu that passes the filter was fetched with a truthy code, and is the dish list of the `DDISH_NM` string of that code's first meal record |
| Queries.CodeFor | taebaek_meal.py:216 | the call `search_school_code(OFFICE_CODE, school_name)`, with the directory answer for that name given as a parameter (a definition, no contract) |
| Queries.MenuFor | taebaek_meal.py:218-222 | the menu recorded for a school: the meal lookup's menu when the code is truthy, the not-found notice otherwise (a definition, no contract; `Queries.ShownMenuFor` states what a shown menu is) |
| Queries.RecordFor | taebaek_meal.py:215-222 | the dictionary appended for one school: its level, its name and its menu (a definition, no contract) |
| Queries.QueryOne | taebaek_meal.py:215-222 | the record carries the name, its level and the menu for its code; the meal lookup happens exactly when the code is truthy |
| Queries.QueryAll | taebaek_meal.py:211-222 | one record per school, in roster order, with name, level and menu as above; the i-th meal lookup happens exactly when the i-th code is truthy |
| Queries.SuccessFilter | taebaek_meal.py:224-232 | the kept records are an order-preserving subsequence, so at most all of them; a record is kept exactly when its menu is non-empty and its first item has none of the three notice phrases; no kept record has an empty menu or one of the three notices as its menu |
| Queries.SuccessFilterCounts | taebaek_meal.py:226-232 | every occurrence of a record with a menu to show is kept and no other record is, so the number of schools shown is fixed even when records repeat |
| Queries.SuccessFilterConcat | taebaek_meal.py:226-232 | each record is judged on its own: filtering a concatenation is the concatenation of the filtered parts |
| Queries.Truthy | taebaek_meal.py:218 | Python truthiness of the returned code: `None` and `''` are false, any other string is true (a definition, no contract) |
| Queries.ShowsMenu | taebaek_meal.py:228-231 | the filter test: a non-empty list whose first item contains none of `정보가 없습니다`, `실패했습니다`, `찾을 수 없습니다` (a definition, no contract) |
| Queries.NoticesNotShown | taebaek_meal.py:224-232 | the failure, no-data and not-found notices and the empty menu never pass the filter |
| Queries.FailureNoticeHasPhrase | taebaek_meal.py:95 | the failure notice contains `실패했습니다` |
| Queries.NoDataNoticeHasPhrase | taebaek_meal.py:96 | the no-data notice contains `정보가 없습니다` |
| Queries.NoCodeNoticeHasPhrase | taebaek_meal.py:222 | the not-found notice contains `찾을 수 없습니다` |
| Queries.ShownMenuIsDishes | taebaek_meal.py:224-232 | a menu that passes the filter came from a meal answer with a dish string and is that string's dish list |
| Queries.Summarize | taebaek_meal.py:224-256 | no results gives the failure branch; otherwise the table is shown exactly when some menu passes the filter, with the total and the success count |
| MenuTable.InCategory | taebaek_meal.py:101-106 | a level's group is no longer than the input |
| MenuTable.InCategoryOnly | taebaek_meal.py:101-106 | a level's group holds only records of that level |
| MenuTable.InCategoryConcat | taebaek_meal.py:101-106 | grouping distributes over concatenation |
| MenuTable.InCategoryAppend | taebaek_meal.py:102-106 | appending a record extends exactly the group of its level |
| MenuTable.InCategoryTwice | taebaek_meal.py:101-106 | selecting a level in a group of another level selects nothing |
| MenuTable.GroupByCategory | taebaek_meal.py:101-106 | the dictionary holds exactly the levels present, each with its records in input order |
| MenuTable.ColumnsFromByRank | taebaek_meal.py:130-132 | the columns read off the dictionary equal the reference layout, level after level |
| MenuTable.ByRankSorted | taebaek_meal.py:130-132 | the reference layout is sorted by level position |
| MenuTable.ByRankInCategory | taebaek_meal.py:130-132 | the layout holds each level's records in input order, from position `k` on |
| MenuTable.RankAtLeast | taebaek_meal.py:130-132 | the records from a level position on are no more than the input |
| MenuTable.RankAtLeastSplit | taebaek_meal.py:130-132 | the records from position `k` on are those of level `k` plus those from `k + 1` on |
| MenuTable.RankAtLeastBounds | taebaek_meal.py:130-132 | from position 0 on is every record, past the last position none |
| MenuTable.ByRankPermutation | taebaek_meal.py:130-132 | the layout from `k` on is a permutation of the records from `k` on |
| MenuTable.Columns | taebaek_meal.py:130-132 | the school columns are a permutation of the records (no school lost or repeated), ordered by level in table order, and each level keeps the input order |
| MenuTable.ByRankStable | taebaek_meal.py:130-132 | the reference layout keeps each level's records in input order |
| MenuTable.Header | taebaek_meal.py:118-122 | one header per level present, in table order, each with colspan equal to its level's (positive) record count; the colspans add up to the number of school columns |
| MenuTable.HeaderFromCovers | taebaek_meal.py:119-122 | every level in the dictionary gets its header |
| MenuTable.HeaderFrom | taebaek_meal.py:118-122 | one header per present level, in level order, each spanning its group |
| MenuTable.HeaderFromComplete | taebaek_meal.py:119-122 | every present level gets its header |
| MenuTable.SpanTotalConcat | taebaek_meal.py:118-122 | spans add up over concatenated headers |
| MenuTable.HeaderFromSpans | taebaek_meal.py:118-122 | the spans from position `k` on add up to the columns from `k` on |
| MenuTable.Abbreviate | taebaek_meal.py:135 | the heading holds no `등` and is no longer than the name |
| MenuTable.AbbreviateKeepsPlain | taebaek_meal.py:135 | a name with neither `학교` nor `등` is its own heading |
| MenuTable.AbbreviateHighSchool | taebaek_meal.py:134-135 | a name ending in `등학교` loses that ending, for example `…고등학교` becomes `…고` |
| MenuTable.RemoveSchoolSuffix | taebaek_meal.py:135 | removing `학교` from `p등학교` leaves `p등` when `p` has no `학` |
| MenuTable.RemoveDeungSuffix | taebaek_meal.py:135 | removing `등` from `p등` leaves `p` when `p` has no `등` |
| MenuTable.AbbreviateExample | taebaek_meal.py:135 | `황지고등학교` becomes `황지고` |
| MenuTable.MenuCellBreaks | taebaek_meal.py:149-154 | a cell of `n` break-free items holds `n - 1` breaks, and splitting at them gives the items back |
| MenuTable.Headings | taebaek_meal.py:130-137 | one abbreviated heading per column, in column order |
| MenuTable.Cells | taebaek_meal.py:145-157 | one menu cell per column, in column order |
| MenuTable.MenuCell | taebaek_meal.py:149-154 | a cell is the menu items joined with `<br>` (a definition; its round trip is `MenuTable.MenuCellBreaks`) |
| MenuTable.BuildTable | taebaek_meal.py:98-161 | the label of the school-name row is the meal name; the header row is `Header` of the shown records (one cell per present level, in level order, spanning that level's schools); headings, cells and columns are equally many and the spans add up to them; column `i` has its school's abbreviated name and menu cell |

## Left out

- The Streamlit page is left out because it is presentation only: page setup, date and meal widgets, progress bar, messages, metrics and CSS.
- HTTP requests, status checks, JSON decoding, timeouts and the TLS-warning setup are left out because they are foreign I/O. The directory and meal answers are parameters of type `DirectoryResponse` and `MealResponse`.
- The API key from `st.secrets` and the locale setup are left out because they are process bootstrap.
- The date and the meal code are fixed for one run. They live inside the `meals` parameter of `Queries.QueryAll`, and `strftime` date formatting is not modelled.
- The success-rate percentage is left out because it is floating-point formatting. `Queries.Summarize` returns the two counts it is computed from.
- Queries.QueryAll does not model a concurrent fan-out, because the code has none.
- Neis.SearchSchoolCode does not model every malformed directory answer. A `schoolInfo` without a second element, or one of a different shape, raises in the code and is folded into `DirectoryFailed`.
- JSON numbers, lists or objects where the code expects a string are not modelled; a field is missing, `null` or a string.
- Strings.IsDigit covers the ASCII digits only, while Python's `\d` on a `str` matches every Unicode decimal digit. A parenthesised group whose only digits are non-ASCII (full-width `１`, for example) is therefore kept by the model and deleted by the code.
- MenuTable.BuildTable keeps the table structure and drops its markup. It also drops the two fixed label cells, `구분` at the start of the header row (line 116) and `{meal_name} 메뉴` at the start of the menu row (line 143); only the school-name row's label, the meal name (line 128), is kept. A menu cell is its items joined with `<br>`, without the `<span>` around each item or the styling attributes.
- The non-list branch of the menu cell (`taebaek_meal.py:155-156`) is left out because it is unreachable: every record's menu is a list.
- Allergen codes are never parsed into numbers, because the code only deletes the groups.
