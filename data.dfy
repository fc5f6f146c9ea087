/**
  The two tunable constants of the game and the records it passes around:
  what the quiz API returns, and what the board keeps after normalisation.
 */
module Data {
  import opened Seqs

  /** How many categories (board columns) a game asks for. */
  const NumberOfCategories: nat := 6
  /** How many clues (board rows) each category contributes. */
  const NumberOfCluesPerCategory: nat := 5

  type CategoryId = int
  type ClueId = int

  /** One entry of the category list endpoint; `cluesCount` is None when the field is missing or null. */
  datatype CategorySummary = CategorySummary(id: CategoryId, cluesCount: Option<int>)

  /**
    One clue as the category endpoint returns it. A missing or null question,
    answer or value is None; JavaScript truthiness of these fields is decided
    by the Sampler.
   */
  datatype RawClue = RawClue(id: ClueId, question: Option<string>, answer: Option<string>, value: Option<int>)

  /** The body of the category endpoint's answer. */
  datatype RawCategory = RawCategory(title: string, clues: seq<RawClue>)

  /** A clue admitted to the board. */
  datatype Clue = Clue(id: ClueId, question: string, answer: string, value: int)

  /** A board column: the category and the clues still on it. */
  datatype Category = Category(id: CategoryId, title: string, clues: seq<Clue>)

  /** How the fetching part of a game start ended: categories in hand, or an exception. */
  datatype Setup = Fetched(categories: seq<Category>) | Threw

  /** Every category has a clue for every board row, so the table can be drawn. */
  predicate FullBoard(cats: seq<Category>)
  {
    forall k :: 0 <= k < |cats| ==> |cats[k].clues| >= NumberOfCluesPerCategory
  }
}
