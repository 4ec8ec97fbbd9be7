/**
 The records the trivia API hands to the game, and the board dimensions both
 game variants share. Network access is not modelled: a fetched record is an
 input value, and a failed fetch is `None`.
 */
module Api {

  /** Present-or-absent value; `None` stands for a failed fetch, a JavaScript
      `undefined`/`null`, or a `NaN` number. */
  datatype Option<+T> = None | Some(value: T)

  /** Number of categories on a board (NUM_CATEGORIES, and the literal 6 of the
      second variant). */
  const NumCategories: nat := 6

  /** Number of clues per category, i.e. board rows (NUM_QUESTIONS_PER_CAT, and
      the literal 5 of the second variant). */
  const CluesPerCategory: nat := 5

  /** One clue as the category-detail endpoint returns it; `value` is the dollar
      value, which the API may leave null. */
  datatype ApiClue = ApiClue(question: string, answer: string, value: Option<int>)

  /** One category as the category-detail endpoint returns it. */
  datatype ApiCategory = ApiCategory(title: string, clues: seq<ApiClue>)

  /** One record of the category-listing endpoint; only its id is used. */
  datatype ListingRecord = ListingRecord(id: int, title: string)

  function Min(a: int, b: int): int {
    if a <= b then a else b
  }
}
