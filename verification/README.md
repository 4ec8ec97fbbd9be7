# Trivia board game: a Dafny model

This project models the game logic of a browser trivia board in its two
variants.

- **The reveal-only board (`jeopardy.js`).** An API category is shaped into a
  title plus at most five clues, each not yet showing. The table has one header
  per category and five rows with one `?` cell per category. Each clue steps
  through the states not shown (`null`), question and answer. The answer state
  is terminal.
- **The scored board (`jeopardy2.js`).**
  - Six header cells and a five-by-six board of `$200`…`$1000` labels are built.
  - The six fetch results are filtered down to the categories that loaded.
    Their titles reach the header only when the page is cleared before it is
    built (`Scored.StartGame`). In the source's order of calls, `clearBoard`
    removes the header cells first, so no title is shown (first finding).
  - A click decodes the cell's label and picks the first clue of that value in
    the column's category.
  - The player's reply is compared with the lower-cased, tag-stripped canonical
    answer.
  - The score rule adds or subtracts the clue's points. If the player declines
    an incorrect verdict, the cell is re-armed.

Everything is a pure function over immutable datatypes:

| module (file) | contents |
|---|---|
| `Api` (api.dfy) | `Option`, the API records, the board dimensions 6 and 5 |
| `Decimal` (decimal.dfy) | the decimal rendering of a number, and `parseInt` as section 19.2.5 of ECMA-262 defines it |
| `Answers` (answers.dfy) | ASCII lower-casing, the tag-stripping regular expression, and the verdict |
| `Scoring` (scoring.dfy) | the `updateScore` rule |
| `Classic` (classic.dfy) | `jeopardy.js` |
| `Scored` (scored.dfy) | `jeopardy2.js` |

These parts of the program become parameters:
- A network response is an input value.
- A failed fetch is `None`.
- The `prompt` reply is a string.
- The `confirm` answer is a boolean.
- The page (header texts, board cells with their text and whether their click
  handler is attached, the score, and the loaded categories) is a `Scored.Page`
  value.

Where the source's own comments and its code disagree, the model follows the
code:
- **Clue count per category.** The comment on the clue-count constant
  (jeopardy.js:21) assumes each category has five questions, and the
  `fillTable` comment (jeopardy.js:68-71) asks for that many body rows.
  `getCategory` only truncates, so a category with fewer clues keeps fewer
  (`Classic.ShapeNeverPads`). `fillTable` then leaves the body out
  (`Classic.FillTable`).
- **A declined verdict.** The comment at jeopardy2.js:120 says declining
  allows another try. As written, the answer stays on the cell, and the retry
  decodes the tail of the answer as a dollar value. For "Plath" it selects
  nothing; for an answer such as "1400" it selects a different clue, the $400
  one. That is the second finding below.
- **Failed fetches.** The reveal-only variant fails the whole setup when one
  fetch fails. The scored variant drops failed fetches and keeps the rest. Both
  behaviours are modelled, each in its own variant.

Neither variant validates the fields of an API response, so a response is
taken as given.

## Model

| member | source | states |
|---|---|---|
| `Classic.CategoryIds` | jeopardy.js:32-38 | one id per listing record, in record order |
| `Classic.FreshClues` | jeopardy.js:58-62 | each API clue maps to a clue with the same question and answer, not yet showing, with the order and count kept |
| `Classic.ShapeCategory` | jeopardy.js:52-64 | the title is kept; exactly min(5, number of source clues) clues are kept; they are the source prefix in order, with question and answer copied and `showing` null |
| `Classic.ShapeNeverPads` | jeopardy.js:58 | truncation never pads: a category with at most five clues keeps them all, and one with more keeps exactly five |
| `Classic.Headers` | jeopardy.js:80-84 | one header per category, holding its title, in category order |
| `Classic.BodyRow` | jeopardy.js:86-96 | row i has one cell per category; cell c shows `?`, carries the question and answer of clue i of category c, and has `showing` "null" |
| `Classic.FillTable` | jeopardy.js:74-100 | headers as above; if every category has at least five clues, the body is 5 rows × one cell per category, with cell (i, c) carrying clue i of category c; each body row has one cell per category, even when there are no categories; the body is empty exactly when some category is short |
| `Classic.FreshTableCarriesSourceClues` | jeopardy.js:86-96 | a table built from freshly shaped categories shows `?` everywhere, and cell (i, c) carries the i-th source clue of category c |
| `Classic.Click` | jeopardy.js:116-123 | not shown → question, displaying the question; question → answer, displaying the answer; answer → unchanged, with no display change |
| `Classic.ClickMovesForward` | jeopardy.js:102-108 | a click advances the state one stage, except from the answer, where it stays; the state never moves back and never skips |
| `Classic.AnswerIsTerminal` | jeopardy.js:123 | once the answer shows, any number of further clicks leaves the clue unchanged |
| `Classic.ClicksSettleOnAnswer` | jeopardy.js:116-123 | from not shown, two or more clicks end at the answer; a third click is a no-op |
| `Classic.ClickAt` | jeopardy.js:110-124 | clicking the clue at (category, clue) applies the transition to that clue only; every other clue and category is unchanged; a coordinate naming no clue gives no result |
| `Classic.FetchAll` | jeopardy.js:150 | the join succeeds exactly when every fetch succeeds; it then holds the shaped categories in id order |
| `Classic.SetupAndStart` | jeopardy.js:147-153 | fails exactly when some fetch fails (fail-fast); otherwise there is one category per listing record, category k is the shaped k-th fetched category, the table is filled from them, header k is the k-th fetched title, and every clue starts not shown |
| `Decimal.NatToDecimal` | jeopardy2.js:35 | the rendering of a number is a non-empty string of decimal digits, with no leading zero unless the number is 0 |
| `Decimal.DecimalValueRoundTrip` | jeopardy2.js:35 | the digit value of the rendering of n is n |
| `Decimal.DigitRun` | jeopardy2.js:88 | the digits `parseInt` reads are the longest prefix made of radix digits |
| `Decimal.DigitRunStops` | jeopardy2.js:88 | a run of digits followed by a non-digit, or by nothing, is read exactly to its end |
| `Decimal.ParseInt` | jeopardy2.js:88 | text without a single decimal digit parses to `NaN`; a negative result needs a leading minus after the white space, and a positive one its absence |
| `Decimal.TrimAtDigit` | jeopardy2.js:88 | white-space skipping stops at a leading decimal digit |
| `Decimal.UnsignedAtDigit` | jeopardy2.js:88 | text starting with a decimal digit has no sign and, unless its second character is `x`/`X`, no hexadecimal prefix, so it is read in base 10 |
| `Decimal.ParseSkipsSpace` | jeopardy2.js:88 | a leading white-space character does not change what `parseInt` reads |
| `Decimal.ParseDigitsThen` | jeopardy2.js:88 | a run of decimal digits followed by a non-digit other than `x`/`X`, or by nothing, parses to the run's value |
| `Decimal.ParseDecimalThen` | jeopardy2.js:88 | the decimal rendering of n followed by such text (`"200px"`) parses to n |
| `Decimal.ParseDecimal` | jeopardy2.js:88 | `parseInt` of the decimal rendering of any non-negative n is n |
| `Decimal.ParseNonNumeric` | jeopardy2.js:88 | text that starts with something other than white space, a sign or a digit parses to `NaN` |
| `Scored.DecodeLabel` | jeopardy2.js:88 | a label of at most one character, or whose tail after the first character holds no decimal digit, decodes to `NaN`; a label whose tail is the decimal rendering of n decodes to n, whatever its first character |
| `Scored.LabelRoundTrip` | jeopardy2.js:88 | decoding the label `'$' + 200*(i+1)` of row i (built at line 35) by dropping its first character and parsing gives 200*(i+1) |
| `Scored.LabelsDistinct` | jeopardy2.js:35 | different rows carry different labels |
| `Scored.SetupCategoryTitles` | jeopardy2.js:14-23 | the old header is replaced by exactly six empty header cells; the board, score and categories are untouched |
| `Scored.SetupGameBoard` | jeopardy2.js:25-41 | the old board is replaced by exactly 5 rows of 6 armed cells, and every cell of row i decodes to 200*(i+1); everything else is untouched |
| `Scored.ClearBoard` | jeopardy2.js:69-73 | the board and header are emptied and the score is 0 |
| `Scored.FilterResults` | jeopardy2.js:64 | the survivors are exactly the categories whose fetch succeeded; there are never more survivors than results; nothing is dropped exactly when no fetch failed |
| `Scored.FilterAppend` | jeopardy2.js:64 | filtering distributes over concatenation, so the survivors keep their original order |
| `Scored.FilterSingle` | jeopardy2.js:52-64 | a failed fetch contributes nothing, and a successful one contributes its category |
| `Scored.DisplayFrom` | jeopardy2.js:77-81 | the `forEach` from index k writes the title of category j into header cell j for every j ≥ k where both exist; other cells keep their text |
| `Scored.DisplayCategories` | jeopardy2.js:75-82 | header cell k gets the k-th surviving title when both exist; header cells beyond the survivors are untouched; the header count is unchanged |
| `Scored.GenerateCategories` | jeopardy2.js:49-67 | after the fetches settle, the loaded categories are the filtered results, at most 6; the score is 0, and the board and header are empty |
| `Scored.StartGameAsWritten` | jeopardy2.js:8-12 | in the source's order of calls, the resulting page has no header cells and no board (see Findings) |
| `Scored.StartGameAsWrittenIsBlank` | jeopardy2.js:8-12 | as written, a started game has no header and no board, and every click on it does nothing |
| `Scored.StartGame` | jeopardy2.js:8-12 | clearing first: the score is 0, the board is the fresh 5×6 labelled board, there are 6 header cells, header k holds the k-th surviving title and the rest are empty |
| `Scored.RestartForgetsPreviousGame` | jeopardy2.js:69-73 | a restart depends only on the fetch results; all earlier clue states and the score are forgotten |
| `Scored.FirstWithValue` | jeopardy2.js:90 | `find` returns the first clue whose value equals v; when it finds nothing, no clue has value v |
| `Scored.Select` | jeopardy2.js:84-95 | a click selects something exactly when the cell is armed, its column has a category, its label decodes to a number v, and that category has a clue worth v; it then selects the first clue worth v, for v points |
| `Scored.FreshBoardSelects` | jeopardy2.js:84-93 | on a freshly started board, cell (row, col) selects the first clue worth 200*(row+1) in category col, and selects nothing when the category or the clue is missing |
| `Scored.Judged` | jeopardy2.js:97-121 | after the prompt, the score follows the score rule for the verdict; the cell is re-armed exactly when the rule says so, shows the answer unless a re-armed label is restored; no other cell, header or category changes |
| `Scored.ClickAsWritten` | jeopardy2.js:97-121 | as written, a click with nothing selected changes nothing; a judged cell always shows the answer afterwards and is re-armed exactly when an incorrect verdict is declined; correct → +points, incorrect and confirmed → −points, declined → score unchanged; no other cell, header or category changes |
| `Scored.Click` | jeopardy2.js:97-121 | a click with nothing selected changes nothing; correct → +points and the answer shows, disarmed; incorrect and confirmed → −points and the answer shows, disarmed; incorrect and declined → page unchanged; no other cell, header or category changes |
| `Scored.DeclineRestoresPage` | jeopardy2.js:118-120 | with the label restored, declining an incorrect verdict on an armed cell gives back the page exactly as it was |
| `Scored.CommittedCellIgnoresClicks` | jeopardy2.js:102 | once a verdict is committed, the cell's handler is gone and later clicks do nothing |
| `Scored.PoetsCommittedIgnoresClicks` | jeopardy2.js:102 | on a one-clue page, the correct reply "plath" scores 200, and a later click with a wrong reply changes nothing |
| `Scored.DeclineThenRetry` | jeopardy2.js:118-121 | after a declined incorrect verdict, the next click on the cell is judged exactly like a first click |
| `Scored.RetryAfterDeclineAsWritten` | jeopardy2.js:118-121 | as written, the re-armed cell reads "Plath", so a retry with the right reply does nothing; with the label restored, the same clicks score +200 |
| `Scored.NumericRetryAfterDeclineAsWritten` | jeopardy2.js:88-120 | as written, declining a wrong reply to the $200 clue "1400" leaves "1400" on the armed cell, and the next click there selects the $400 clue instead |
| `Scored.DecodeYearsAnswer` | jeopardy2.js:88 | the answer text "1400" read as a cell label decodes to 400 |
| `Scored.YearsRetrySelection` | jeopardy2.js:88-93 | a click on the cell showing "1400" selects the category's $400 clue |
| `Answers.Lower` | jeopardy2.js:98 | lower-casing keeps the length and lower-cases each ASCII letter in place |
| `Answers.LowerIdempotent` | jeopardy2.js:98 | a lower-cased string has no upper-case letter, and lower-casing it again changes nothing |
| `Answers.LowerIgnoresCase` | jeopardy2.js:98 | strings that differ only in letter case lower-case to the same text |
| `Answers.StripTags` | jeopardy2.js:99 | tag stripping never lengthens a string |
| `Answers.StripCompleteTag` | jeopardy2.js:99 | a complete tag `<b>`, with b non-empty and free of `>`, is deleted and the text after it is stripped on its own |
| `Answers.StripUnterminatedTag` | jeopardy2.js:99 | a `<` followed by non-empty text free of `>` deletes everything to the end of the text |
| `Answers.StripItalic` | jeopardy2.js:99 | italic markup around text without `<` is removed completely |
| `Answers.StripWithoutAngle` | jeopardy2.js:99 | a string with no `<` is left unchanged |
| `Answers.StripTagFreeUnchanged` | jeopardy2.js:99 | a string in which the expression matches nowhere is left unchanged |
| `Answers.StripLeavesTagFree` | jeopardy2.js:99 | the expression matches nowhere in the result |
| `Answers.StripIdempotent` | jeopardy2.js:99 | stripping twice equals stripping once |
| `Answers.StripPlainPrefix` | jeopardy2.js:99 | a prefix without `<` passes through unchanged, whatever follows it |
| `Answers.StripCommutesWithLower` | jeopardy2.js:99 | lower-casing and stripping commute, so their order does not matter |
| `Answers.CanonicalAnswer` | jeopardy2.js:99 | lower-casing then stripping equals stripping then lower-casing; the canonical answer is no longer than the source answer, has no upper-case letter, and contains no tag |
| `Answers.NormalisedReply` | jeopardy2.js:98 | the reply keeps its length and each character is lower-cased in place, so no upper case is left; no tag is stripped |
| `Answers.Judge` | jeopardy2.js:98-107 | the verdict is correct if and only if the lower-cased reply equals the lower-cased answer with its tags removed |
| `Answers.JudgeIgnoresReplyCase` | jeopardy2.js:98-107 | the verdict does not depend on the letter case of the reply |
| `Answers.ReplyWithTagIsIncorrect` | jeopardy2.js:98-107 | a reply that contains a tag anywhere is never judged correct, because the reply is not stripped |
| `Answers.PlathExample` | jeopardy2.js:98-107 | `<i>Plath</i>` accepts `plath` and `PLATH` and rejects `plat` |
| `Scoring.UpdateScore` | jeopardy2.js:112-121 | correct → score + points, whatever the confirmation; incorrect and confirmed → score − points; incorrect and declined → score unchanged and the cell is re-armed |
| `Scoring.ScoreDelta` | jeopardy2.js:113-121 | the score moves by exactly ±points or not at all; the cell is re-armed exactly on a declined incorrect verdict, and then the score stays; with positive points the score rises exactly on a correct verdict |
| `Scoring.CorrectThenConcededCancel` | jeopardy2.js:116 | gaining and then conceding the same value cancels out |
| `Scoring.ScoreScenario` | jeopardy2.js:112-121 | 0 → +200 correct → 200; a conceded −400 → −200; declining instead keeps 200 and re-arms the cell |

## Findings

| source | as written | input that shows it | evidently intended | confidence | as-written member | corrected member |
|---|---|---|---|---|---|---|
| jeopardy2.js:8-12 | `startGame` builds the header and the board, then calls `generateCategories`, whose first step `clearBoard` empties both again; `displayCategories` then finds no header cells, and there is no cell to click | any start: the page ends with no header cells and no board (`Scored.StartGameAsWrittenIsBlank`) | reset the score and the old board first, then build the new header and board, then show the titles (line 50 says the board is reset before new categories are fetched) | high; not executed | `Scored.StartGameAsWritten` | `Scored.StartGame` |
| jeopardy2.js:101-120 | a declined incorrect verdict re-arms the cell, but its text is now the answer, so the next click decodes `answer.slice(1)` | answer "Plath", reply "Sexton", declined: the cell reads "Plath", "lath" parses to `NaN`, and the retry selects nothing (`Scored.RetryAfterDeclineAsWritten`); answer "1400", reply "1399", declined: "400" parses to 400, and the retry selects the $400 clue of the same category (`Scored.NumericRetryAfterDeclineAsWritten`) | "Allow to try again": the retry should prompt for the same clue; the corrected model restores the dollar label on decline | high; not executed | `Scored.ClickAsWritten` | `Scored.Click` |

The rest of the scored model (`Scored.FreshBoardSelects`, `Scored.DeclineThenRetry`,
`Scored.CommittedCellIgnoresClicks`, `Scored.RestartForgetsPreviousGame`) is about the
corrected `Scored.StartGame` and `Scored.Click`.

## Left out

- Network access: `fetch`, `response.json`, `response.ok`, the random category
  id and the logging in the fetch error handler are left out. Listing and detail
  responses are input values, and a failed fetch is `None`.
- Concurrency: `Promise.all` and the async sequencing are left out. Only the
  joined result list is modelled. In the scored variant this is the filtered
  list. In `Classic.SetupAndStart` it is a fail-fast join.
- DOM work, the loading spinner (jeopardy.js:130-138), showing the game
  container, and adding or removing event listeners are left out. A board cell's
  `armed` flag stands for its attached click handler. The `prompt`, `confirm`
  and `alert` dialogs are parameters or omitted; `alert` has no effect on state.
  A `null` reply from a cancelled `prompt` is left out.
- HTML parsing is left out. A cell's text is the string written to it, and
  `innerHTML` markup is not rendered to `textContent`.
- `Answers.Lower`: only ASCII letters are lower-cased. `toLowerCase` also folds
  the rest of Unicode.
- `Decimal.NatToDecimal`: the exponent notation JavaScript uses for numbers of
  10^21 and above is not modelled. Labels only reach 1000.
- `Decimal.ParseInt`: its contract states only when the result is `NaN` and
  its sign. The value read is stated by `Decimal.ParseDigitsThen` for decimal
  text; no lemma states the value of hexadecimal text.
- `Decimal.ParseDecimal`: integers are unbounded. The double-precision rounding
  of very long digit runs is not modelled. `parseInt` of an already numeric
  value (jeopardy2.js:100) is taken to be that value.
- `Classic.ClickAt`: the clue is addressed by an explicit (category, clue)
  coordinate. The source reads `data-cat-id` and `data-clue-id` attributes that
  `fillTable` never sets (jeopardy.js:112-113 vs jeopardy.js:92-95).
- `Classic.FillTable`: when a category has fewer than five clues, the source
  fails partway through. The model keeps only what is visible: the header
  without a body. Repeated calls that append extra header rows to an existing
  table head are not modelled.
- `Classic.SetupAndStart` follows jeopardy.js:147-153. Line 157 redeclares
  `setupAndStart` with an empty body, and no handler calls either version. That
  broken tail and the TODO stubs have no behaviour to model.
- The score display's `parseInt(innerText)` round trip is not modelled. The
  score is a plain integer.
- Scored clue values the API leaves null are `None`, and they never match a
  label.
