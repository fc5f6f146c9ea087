/**
  The sampling and normalisation pipelines of `getCategoryIds` and
  `getCategoryData`, and the `Promise.all` join of `setupTheGame`, as pure
  functions of the already fetched responses. A response is None when the
  request failed or its body could not be processed.
 */
module Sampler {
  import opened Seqs
  import opened Data
  import opened Shuffle

  /** `cat.clues_count >= NUMBER_OF_CLUES_PER_CATEGORY`; a missing count compares false. */
  predicate IsEligible(c: CategorySummary): (b: bool)
    ensures c.cluesCount.None? ==> !b
    ensures c.cluesCount.Some? ==> (b <==> c.cluesCount.value >= NumberOfCluesPerCategory)
  {
    c.cluesCount.Some? && c.cluesCount.value >= NumberOfCluesPerCategory
  }

  function Eligible(pool: seq<CategorySummary>): seq<CategorySummary>
  {
    Filter(pool, IsEligible)
  }

  function IdsOf(cats: seq<CategorySummary>): (ids: seq<CategoryId>)
  {
    seq(|cats|, k requires 0 <= k < |cats| => cats[k].id)
  }

  function CategoryKey(c: CategorySummary): CategoryId
  {
    c.id
  }

  /**
    `getCategoryIds`: keep the eligible categories, shuffle them, take the
    first `NumberOfCategories` and return their ids; a failed fetch is caught
    and yields the empty list.
   */
  function GetCategoryIds(response: Option<seq<CategorySummary>>, draws: seq<nat>): (ids: seq<CategoryId>)
    requires response.Some? ==> ValidDraws(draws, |Eligible(response.value)|)
    ensures response.None? ==> ids == []
    ensures response.Some? ==> |ids| == Min(NumberOfCategories, |Eligible(response.value)|)
    ensures response.Some? ==>
      forall k :: 0 <= k < |ids| ==> exists c :: c in response.value && IsEligible(c) && c.id == ids[k]
  {
    match response
    case None => []
    case Some(pool) =>
      var eligible := Eligible(pool);
      ShuffledPrefix(eligible, draws, Min(NumberOfCategories, |eligible|));
      IdsOf(Shuffled(eligible, draws)[..Min(NumberOfCategories, |eligible|)])
  }

  /** When the API lists every category once, the game never gets the same category twice. */
  lemma GetCategoryIdsDistinct(pool: seq<CategorySummary>, draws: seq<nat>)
    requires ValidDraws(draws, |Eligible(pool)|)
    requires DistinctBy(pool, CategoryKey)
    ensures Distinct(GetCategoryIds(Some(pool), draws))
  {
    var eligible := Eligible(pool);
    var n := Min(NumberOfCategories, |eligible|);
    FilterKeepsDistinctBy(pool, IsEligible, CategoryKey);
    ShuffledPrefixKeepsDistinctBy(eligible, draws, n, CategoryKey);
    var sliced := Shuffled(eligible, draws)[..n];
    var ids := GetCategoryIds(Some(pool), draws);
    forall a, b | 0 <= a < b < |ids| ensures ids[a] != ids[b] {
      assert ids[a] == CategoryKey(sliced[a]) && ids[b] == CategoryKey(sliced[b]);
    }
  }

  /** `c.question && c.answer`: both present and non-empty. */
  predicate IsUsable(c: RawClue): (b: bool)
    ensures c.question.None? || c.question == Some("") ==> !b
    ensures c.answer.None? || c.answer == Some("") ==> !b
    ensures c.question.Some? && c.question != Some("") && c.answer.Some? && c.answer != Some("") ==> b
  {
    c.question.Some? && |c.question.value| > 0 && c.answer.Some? && |c.answer.value| > 0
  }

  function Usable(clues: seq<RawClue>): seq<RawClue>
  {
    Filter(clues, IsUsable)
  }

  /** `c.value || (i + 1) * 200`: a missing, null or zero value falls back to the 1-based rank times 200. */
  function ClueValue(value: Option<int>, i: nat): (v: int)
    ensures v != 0
    ensures value.Some? && value.value != 0 ==> v == value.value
    ensures value.None? || value.value == 0 ==> 200 <= v && v % 200 == 0 && v / 200 == i + 1
  {
    if value.Some? && value.value != 0 then value.value else (i + 1) * 200
  }

  /** `shuffle(usable).slice(0, NUMBER_OF_CLUES_PER_CATEGORY)`. */
  function ChooseClues(all: seq<RawClue>, draws: seq<nat>): (chosen: seq<RawClue>)
    requires ValidDraws(draws, |Usable(all)|)
    ensures |chosen| == Min(NumberOfCluesPerCategory, |Usable(all)|)
    ensures forall k :: 0 <= k < |chosen| ==> chosen[k] in all && IsUsable(chosen[k])
    ensures multiset(chosen) <= multiset(Usable(all))
  {
    var usable := Usable(all);
    ShuffledPrefix(usable, draws, Min(NumberOfCluesPerCategory, |usable|));
    Shuffled(usable, draws)[..Min(NumberOfCluesPerCategory, |usable|)]
  }

  /** The `chosen.map((c, i) => ...)` step. */
  function Normalise(chosen: seq<RawClue>): (clues: seq<Clue>)
    requires forall k :: 0 <= k < |chosen| ==> IsUsable(chosen[k])
    ensures |clues| == |chosen|
    ensures forall i :: 0 <= i < |clues| ==>
      && clues[i].id == chosen[i].id
      && chosen[i].question == Some(clues[i].question) && |clues[i].question| > 0
      && chosen[i].answer == Some(clues[i].answer) && |clues[i].answer| > 0
      && clues[i].value == ClueValue(chosen[i].value, i)
  {
    seq(|chosen|, i requires 0 <= i < |chosen| && IsUsable(chosen[i]) =>
      Clue(chosen[i].id, chosen[i].question.value, chosen[i].answer.value, ClueValue(chosen[i].value, i)))
  }

  /**
    `getCategoryData(categoryId)`: a failed request propagates as an
    exception (None); otherwise the category carries the requested id, the
    fetched title and at most `NumberOfCluesPerCategory` usable clues.
   */
  function GetCategoryData(categoryId: CategoryId, response: Option<RawCategory>, draws: seq<nat>): (r: Option<Category>)
    requires response.Some? ==> ValidDraws(draws, |Usable(response.value.clues)|)
    ensures r.Some? <==> response.Some?
    ensures r.Some? ==> r.value.id == categoryId && r.value.title == response.value.title
    ensures r.Some? ==> |r.value.clues| == Min(NumberOfCluesPerCategory, |Usable(response.value.clues)|)
    ensures r.Some? ==> forall k :: 0 <= k < |r.value.clues| ==>
      var c := r.value.clues[k];
      |c.question| > 0 && |c.answer| > 0 &&
      exists raw :: raw in response.value.clues &&
        raw.id == c.id && raw.question == Some(c.question) && raw.answer == Some(c.answer)
  {
    match response
    case None => None
    case Some(data) =>
      var chosen := ChooseClues(data.clues, draws);
      Some(Category(categoryId, data.title, Normalise(chosen)))
  }

  function RawClueKey(c: RawClue): ClueId
  {
    c.id
  }

  /**
    Shuffling and slicing never choose a clue twice: when the response lists
    each clue id once, so does the category put on the board, and clicking
    one cell takes one clue off it.
   */
  lemma GetCategoryDataDistinct(categoryId: CategoryId, data: RawCategory, draws: seq<nat>)
    requires ValidDraws(draws, |Usable(data.clues)|)
    requires DistinctBy(data.clues, RawClueKey)
    ensures var clues := GetCategoryData(categoryId, Some(data), draws).value.clues;
            forall a, b :: 0 <= a < b < |clues| ==> clues[a].id != clues[b].id
  {
    var usable := Usable(data.clues);
    var n := Min(NumberOfCluesPerCategory, |usable|);
    FilterKeepsDistinctBy(data.clues, IsUsable, RawClueKey);
    ShuffledPrefixKeepsDistinctBy(usable, draws, n, RawClueKey);
    var chosen := ChooseClues(data.clues, draws);
    var clues := GetCategoryData(categoryId, Some(data), draws).value.clues;
    assert clues == Normalise(chosen);
    forall a, b | 0 <= a < b < |clues| ensures clues[a].id != clues[b].id {
      assert clues[a].id == RawClueKey(chosen[a]) && clues[b].id == RawClueKey(chosen[b]);
    }
  }

  /** Value fallback: a value is kept when truthy, and otherwise lies in {200, 400, ..., 200 * NumberOfCluesPerCategory}. */
  lemma ClueValueFallback(categoryId: CategoryId, data: RawCategory, draws: seq<nat>, k: nat)
    requires ValidDraws(draws, |Usable(data.clues)|)
    requires k < |GetCategoryData(categoryId, Some(data), draws).value.clues|
    ensures var raw := ChooseClues(data.clues, draws)[k];
            var v := GetCategoryData(categoryId, Some(data), draws).value.clues[k].value;
            && (raw.value.Some? && raw.value.value != 0 ==> v == raw.value.value)
            && (raw.value.None? || raw.value.value == 0 ==>
                  v == (k + 1) * 200 && 200 <= v <= 200 * NumberOfCluesPerCategory && v % 200 == 0)
  {
  }

  /** The `Promise.all(ids.map(getCategoryData))` join: one failure fails the whole list. */
  function FetchAll(ids: seq<CategoryId>, responses: seq<Option<RawCategory>>, draws: seq<seq<nat>>): (r: Option<seq<Category>>)
    requires |responses| == |ids| && |draws| == |ids|
    requires forall k :: 0 <= k < |ids| && responses[k].Some? ==> ValidDraws(draws[k], |Usable(responses[k].value.clues)|)
    ensures r.Some? <==> forall k :: 0 <= k < |ids| ==> responses[k].Some?
    ensures r.Some? ==> |r.value| == |ids|
    ensures r.Some? ==> forall k :: 0 <= k < |ids| ==>
      Some(r.value[k]) == GetCategoryData(ids[k], responses[k], draws[k])
  {
    if |ids| == 0 then Some([])
    else
      match GetCategoryData(ids[0], responses[0], draws[0])
      case None => None
      case Some(first) =>
        match FetchAll(ids[1..], responses[1..], draws[1..])
        case None => None
        case Some(rest) => Some([first] + rest)
  }

  /**
    The data part of `setupTheGame` (jeopardy.js lines 53-54): the ids, then
    one category per id, `responses[k]` answering the request for the k-th id.
   */
  function SetupTheGame(list: Option<seq<CategorySummary>>, listDraws: seq<nat>,
                        responses: seq<Option<RawCategory>>, draws: seq<seq<nat>>): (r: Setup)
    requires list.Some? ==> ValidDraws(listDraws, |Eligible(list.value)|)
    requires |responses| == |GetCategoryIds(list, listDraws)| && |draws| == |responses|
    requires forall k :: 0 <= k < |responses| && responses[k].Some? ==>
      ValidDraws(draws[k], |Usable(responses[k].value.clues)|)
    ensures r.Fetched? <==> forall k :: 0 <= k < |responses| ==> responses[k].Some?
    ensures r.Fetched? ==> |r.categories| == |responses| <= NumberOfCategories
    ensures r.Fetched? ==> forall k :: 0 <= k < |r.categories| ==>
      r.categories[k].id == GetCategoryIds(list, listDraws)[k] &&
      |r.categories[k].clues| == Min(NumberOfCluesPerCategory, |Usable(responses[k].value.clues)|)
  {
    var ids := GetCategoryIds(list, listDraws);
    match FetchAll(ids, responses, draws)
    case None => Threw
    case Some(cats) => Fetched(cats)
  }

  /**
    A failed category-list request is swallowed by `getCategoryIds`: the
    start then "succeeds" with no categories at all.
   */
  lemma FailedListFetchGivesEmptyBoard(listDraws: seq<nat>)
    ensures SetupTheGame(None, listDraws, [], []) == Fetched([])
  {
  }

  /**
    Eligibility is judged on the API's `clues_count`, usability afterwards,
    so a fetched board is full exactly when every fetched category has
    enough usable clues.
   */
  lemma FullBoardIffEnoughUsableClues(list: Option<seq<CategorySummary>>, listDraws: seq<nat>,
                                      responses: seq<Option<RawCategory>>, draws: seq<seq<nat>>)
    requires list.Some? ==> ValidDraws(listDraws, |Eligible(list.value)|)
    requires |responses| == |GetCategoryIds(list, listDraws)| && |draws| == |responses|
    requires forall k :: 0 <= k < |responses| && responses[k].Some? ==>
      ValidDraws(draws[k], |Usable(responses[k].value.clues)|)
    requires SetupTheGame(list, listDraws, responses, draws).Fetched?
    ensures FullBoard(SetupTheGame(list, listDraws, responses, draws).categories) <==>
      forall k :: 0 <= k < |responses| ==> |Usable(responses[k].value.clues)| >= NumberOfCluesPerCategory
  {
    var cats := SetupTheGame(list, listDraws, responses, draws).categories;
    assert forall k :: 0 <= k < |responses| ==>
      |cats[k].clues| == Min(NumberOfCluesPerCategory, |Usable(responses[k].value.clues)|);
  }

  /**
    An eligible category (its `clues_count` is 5) whose detail holds one clue
    with an empty question yields only four clues: the board cannot be full.
   */
  lemma EligibleCategoryCanFallShort(id: CategoryId, title: string, clue: RawClue, blank: RawClue, draws: seq<nat>)
    requires IsUsable(clue) && blank.question == Some("")
    requires ValidDraws(draws, 4)
    ensures var detail := RawCategory(title, [clue, clue, clue, clue, blank]);
            && IsEligible(CategorySummary(id, Some(|detail.clues|)))
            && ValidDraws(draws, |Usable(detail.clues)|)
            && GetCategoryData(id, Some(detail), draws).Some?
            && |GetCategoryData(id, Some(detail), draws).value.clues| == 4
            && !FullBoard([GetCategoryData(id, Some(detail), draws).value])
  {
    var c1, c2, c3 := [clue, blank], [clue, clue, blank], [clue, clue, clue, blank];
    var c4 := [clue, clue, clue, clue, blank];
    assert |Usable([blank])| == 0 by { assert [blank][1..] == []; }
    assert |Usable(c1)| == 1 by { assert c1[1..] == [blank]; }
    assert |Usable(c2)| == 2 by { assert c2[1..] == c1; }
    assert |Usable(c3)| == 3 by { assert c3[1..] == c2; }
    assert |Usable(c4)| == 4 by { assert c4[1..] == c3; }
    var cat := GetCategoryData(id, Some(RawCategory(title, c4)), draws).value;
    assert |[cat][0].clues| < NumberOfCluesPerCategory;
  }
}
