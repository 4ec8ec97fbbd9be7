/**
 The scored game variant (`jeopardy2.js`). The page is an immutable value:
 the header cells' text, the board of clue cells (each with its text and
 whether its click handler is attached), the score, and the loaded
 categories. Network results, the prompt reply and the confirmation answer
 are parameters.
 */
module Scored {
  import opened Api
  import opened Decimal
  import opened Answers
  import opened Scoring

  /** A board cell: its displayed text and whether clicking it reveals a clue. */
  datatype BoardCell = BoardCell(text: string, armed: bool)

  datatype Page = Page(header: seq<string>, board: seq<seq<BoardCell>>, score: int, categories: seq<ApiCategory>)

  /** Dollar value of board row `row` (0-based). */
  function RowValue(row: nat): nat {
    200 * (row + 1)
  }

  /** The label of every cell in board row `row`: `'$' + 200 * (row + 1)`. */
  function DollarLabel(row: nat): string {
    "$" + NatToDecimal(RowValue(row))
  }

  /** `parseInt(text.slice(1))`: the value of a cell label, `None` for `NaN`.
      The first character is dropped whatever it is; a label of at most one
      character, or whose tail holds no digit, is not a number, and a tail
      that is the decimal rendering of `n` decodes to `n`. */
  function DecodeLabel(text: string): (r: Option<int>)
    ensures |text| <= 1 ==> r.None?
    ensures (forall i :: 1 <= i < |text| ==> !IsDigit(text[i], 10)) ==> r.None?
    ensures |text| > 0 ==> forall n: nat :: text[1..] == NatToDecimal(n) ==> r == Some(n)
  {
    var tail := if |text| == 0 then text else text[1..];
    assert forall i :: 0 <= i < |tail| ==> tail[i] == text[i + 1];
    forall n: nat | tail == NatToDecimal(n) ensures ParseInt(tail) == Some(n) {
      ParseDecimal(n);
    }
    ParseInt(tail)
  }

  /** Decoding a row's label gives back the row's dollar value. */
  lemma LabelRoundTrip(row: nat)
    ensures DecodeLabel(DollarLabel(row)) == Some(RowValue(row))
  {
    assert DollarLabel(row)[1..] == NatToDecimal(RowValue(row));
    ParseDecimal(RowValue(row));
  }

  /** Different rows carry different labels. */
  lemma LabelsDistinct(i: nat, j: nat)
    requires i != j
    ensures DollarLabel(i) != DollarLabel(j)
  {
    LabelRoundTrip(i);
    LabelRoundTrip(j);
  }

  /** A fresh board row: every cell labelled with the row's value and armed. */
  function LabelRow(row: nat): seq<BoardCell> {
    seq(NumCategories, _ => BoardCell(DollarLabel(row), true))
  }

  /** Is `board` the fresh five-by-six board, every cell armed and decoding to
      its row's value? */
  predicate FreshBoard(board: seq<seq<BoardCell>>) {
    && |board| == CluesPerCategory
    && forall i :: 0 <= i < |board| ==> board[i] == LabelRow(i)
  }

  /** `setupCategoryTitles`: drop the old header cells and create six empty
      ones. */
  function SetupCategoryTitles(p: Page): (q: Page)
    ensures |q.header| == NumCategories
    ensures forall k :: 0 <= k < |q.header| ==> q.header[k] == ""
    ensures q.board == p.board && q.score == p.score && q.categories == p.categories
  {
    p.(header := seq(NumCategories, _ => ""))
  }

  /** `setupGameBoard`: drop the old cells and build five rows of six armed
      cells; each cell's label decodes to its row's dollar value. */
  function SetupGameBoard(p: Page): (q: Page)
    ensures FreshBoard(q.board)
    ensures forall i, j :: 0 <= i < CluesPerCategory && 0 <= j < NumCategories ==>
      && |q.board[i]| == NumCategories
      && q.board[i][j].armed
      && DecodeLabel(q.board[i][j].text) == Some(RowValue(i))
    ensures q.header == p.header && q.score == p.score && q.categories == p.categories
  {
    forall i: nat { LabelRoundTrip(i); }
    p.(board := seq(CluesPerCategory, i requires 0 <= i < CluesPerCategory => LabelRow(i)))
  }

  /** `clearBoard`: empty the board and the header and reset the score. */
  function ClearBoard(p: Page): (q: Page)
    ensures q.board == [] && q.header == [] && q.score == 0
    ensures q.categories == p.categories
  {
    p.(board := [], header := [], score := 0)
  }

  /** `results.filter(category => category)`: the categories whose fetch
      succeeded, in fetch order. */
  function FilterResults(results: seq<Option<ApiCategory>>): (cats: seq<ApiCategory>)
    ensures |cats| <= |results|
    ensures forall x :: x in cats <==> Some(x) in results
    ensures |cats| == |results| <==> forall k :: 0 <= k < |results| ==> results[k].Some?
  {
    if |results| == 0 then []
    else
      var rest := FilterResults(results[1..]);
      assert forall x :: Some(x) in results <==> Some(x) == results[0] || Some(x) in results[1..];
      match results[0]
      case None => rest
      case Some(c) => [c] + rest
  }

  /** Filtering distributes over concatenation: the survivors of a list are
      the survivors of its first part followed by those of the rest, so the
      original order is kept. */
  lemma {:induction false} FilterAppend(a: seq<Option<ApiCategory>>, b: seq<Option<ApiCategory>>)
    ensures FilterResults(a + b) == FilterResults(a) + FilterResults(b)
    decreases |a|
  {
    if |a| == 0 {
      assert a + b == b;
    } else {
      assert (a + b)[1..] == a[1..] + b;
      FilterAppend(a[1..], b);
    }
  }

  /** A failed fetch contributes nothing, a successful one its category. */
  lemma FilterSingle(r: Option<ApiCategory>)
    ensures FilterResults([r]) == if r.Some? then [r.value] else []
  {
  }

  /** The `forEach` of `displayCategories` from index `k` on: the title of
      category `j` goes into header cell `j` when that cell exists. */
  function DisplayFrom(header: seq<string>, cats: seq<ApiCategory>, k: nat): (h: seq<string>)
    ensures |h| == |header|
    ensures forall j :: 0 <= j < |header| ==>
      h[j] == if k <= j < |cats| then cats[j].title else header[j]
    decreases |cats| - k
  {
    if k >= |cats| then header
    else
      var next := if k < |header| then header[k := cats[k].title] else header;
      DisplayFrom(next, cats, k + 1)
  }

  /** `displayCategories`: header cell `k` gets the title of the `k`-th loaded
      category when both exist; every other header cell keeps its text. */
  function DisplayCategories(header: seq<string>, cats: seq<ApiCategory>): (h: seq<string>)
    ensures |h| == |header|
    ensures forall k :: 0 <= k < |header| && k < |cats| ==> h[k] == cats[k].title
    ensures forall k :: |cats| <= k < |header| ==> h[k] == header[k]
  {
    DisplayFrom(header, cats, 0)
  }

  /** `generateCategories`, once all six fetches have settled: clear the page,
      keep the categories that loaded and show their titles. */
  function GenerateCategories(p: Page, results: seq<Option<ApiCategory>>): (q: Page)
    requires |results| == NumCategories
    ensures q.categories == FilterResults(results) && |q.categories| <= NumCategories
    ensures q.score == 0 && q.board == [] && q.header == []
  {
    var cleared := ClearBoard(p);
    var cats := FilterResults(results);
    cleared.(categories := cats, header := DisplayCategories(cleared.header, cats))
  }

  /** `startGame` as the source orders it: build the header and board, then
      generate the categories, whose first step clears both again. */
  function StartGameAsWritten(p: Page, results: seq<Option<ApiCategory>>): (q: Page)
    requires |results| == NumCategories
    ensures q.header == [] && q.board == []
    ensures q.score == 0 && q.categories == FilterResults(results)
  {
    GenerateCategories(SetupGameBoard(SetupCategoryTitles(p)), results)
  }

  /** `startGame` with the clearing done first: reset the score and the page,
      build six header cells and the five-by-six board, then show the titles
      of the categories that loaded. */
  function StartGame(p: Page, results: seq<Option<ApiCategory>>): (q: Page)
    requires |results| == NumCategories
    ensures q.score == 0
    ensures q.categories == FilterResults(results)
    ensures FreshBoard(q.board)
    ensures |q.header| == NumCategories
    ensures forall k :: 0 <= k < NumCategories ==>
      q.header[k] == if k < |q.categories| then q.categories[k].title else ""
  {
    var built := SetupGameBoard(SetupCategoryTitles(ClearBoard(p)));
    var cats := FilterResults(results);
    built.(categories := cats, header := DisplayCategories(built.header, cats))
  }

  /** Restarting forgets everything about the previous game: the new page
      depends only on the fetch results. */
  lemma RestartForgetsPreviousGame(p1: Page, p2: Page, results: seq<Option<ApiCategory>>)
    requires |results| == NumCategories
    ensures StartGame(p1, results) == StartGame(p2, results)
  {
  }

  /** Index of the first clue worth `v` (`clueList.find`). */
  function FirstWithValue(clues: seq<ApiClue>, v: int): (k: Option<nat>)
    ensures k.Some? ==> k.value < |clues| && clues[k.value].value == Some(v)
    ensures k.Some? ==> forall j :: 0 <= j < k.value ==> clues[j].value != Some(v)
    ensures k.None? ==> forall j :: 0 <= j < |clues| ==> clues[j].value != Some(v)
  {
    if |clues| == 0 then None
    else if clues[0].value == Some(v) then Some(0)
    else
      match FirstWithValue(clues[1..], v)
      case None => None
      case Some(j) => Some(j + 1)
  }

  /** The clue a click selects and the points it is worth. */
  datatype Selection = Selection(clue: ApiClue, points: int)

  /** `revealClue` up to the prompt: the cell must be armed; its position in
      its row picks the category, its label's value picks that category's
      first clue of equal value. Any miss selects nothing. */
  function Select(p: Page, row: nat, col: nat): (s: Option<Selection>)
    ensures s.Some? ==>
      && row < |p.board| && col < |p.board[row]| && p.board[row][col].armed
      && col < |p.categories|
      && DecodeLabel(p.board[row][col].text) == Some(s.value.points)
      && FirstWithValue(p.categories[col].clues, s.value.points).Some?
      && s.value.clue == p.categories[col].clues[FirstWithValue(p.categories[col].clues, s.value.points).value]
    ensures
      && row < |p.board| && col < |p.board[row]| && p.board[row][col].armed
      && col < |p.categories|
      && DecodeLabel(p.board[row][col].text).Some?
      && FirstWithValue(p.categories[col].clues, DecodeLabel(p.board[row][col].text).value).Some?
      ==> s.Some?
  {
    if row < |p.board| && col < |p.board[row]| && p.board[row][col].armed && col < |p.categories| then
      match DecodeLabel(p.board[row][col].text)
      case None => None
      case Some(v) =>
        match FirstWithValue(p.categories[col].clues, v)
        case None => None
        case Some(k) => Some(Selection(p.categories[col].clues[k], v))
    else None
  }

  /** The page after the judged-answer flow on cell (`row`, `col`): the cell
      shows the answer and is disarmed, the verdict is scored, and a declined
      incorrect verdict re-arms the cell. `restoreLabel` chooses whether the
      re-armed cell gets its dollar label back. */
  function Judged(p: Page, row: nat, col: nat, s: Selection, reply: string, confirmed: bool, restoreLabel: bool): (q: Page)
    requires row < |p.board| && col < |p.board[row]|
    ensures q.categories == p.categories && q.header == p.header
    ensures |q.board| == |p.board| && |q.board[row]| == |p.board[row]|
    ensures forall i :: 0 <= i < |p.board| && i != row ==> q.board[i] == p.board[i]
    ensures forall j :: 0 <= j < |p.board[row]| && j != col ==> q.board[row][j] == p.board[row][j]
    ensures var u := UpdateScore(p.score, Judge(reply, s.clue.answer), confirmed, s.points);
      && q.score == u.score
      && q.board[row][col].armed == u.rearm
      && q.board[row][col].text == if u.rearm && restoreLabel then p.board[row][col].text else s.clue.answer
  {
    var u := UpdateScore(p.score, Judge(reply, s.clue.answer), confirmed, s.points);
    var text := if u.rearm && restoreLabel then p.board[row][col].text else s.clue.answer;
    p.(score := u.score, board := p.board[row := p.board[row][col := BoardCell(text, u.rearm)]])
  }

  /** A click on cell (`row`, `col`) as the source handles it: a declined
      incorrect verdict re-arms the cell but leaves the answer as its text. */
  function ClickAsWritten(p: Page, row: nat, col: nat, reply: string, confirmed: bool): (q: Page)
    ensures Select(p, row, col).None? ==> q == p
    ensures Select(p, row, col).Some? ==>
      var s := Select(p, row, col).value;
      var verdict := Judge(reply, s.clue.answer);
      && q.categories == p.categories && q.header == p.header
      && |q.board| == |p.board|
      && (forall i :: 0 <= i < |p.board| && i != row ==> q.board[i] == p.board[i])
      && |q.board[row]| == |p.board[row]|
      && (forall j :: 0 <= j < |p.board[row]| && j != col ==> q.board[row][j] == p.board[row][j])
      && q.board[row][col].text == s.clue.answer
      && (q.board[row][col].armed <==> verdict == Incorrect && !confirmed)
      && (verdict == Correct ==> q.score == p.score + s.points)
      && (verdict == Incorrect && confirmed ==> q.score == p.score - s.points)
      && (verdict == Incorrect && !confirmed ==> q.score == p.score)
  {
    match Select(p, row, col)
    case None => p
    case Some(s) => Judged(p, row, col, s, reply, confirmed, false)
  }

  /** A click on cell (`row`, `col`), with a declined incorrect verdict
      restoring the cell's label so that it can be tried again. */
  function Click(p: Page, row: nat, col: nat, reply: string, confirmed: bool): (q: Page)
    ensures Select(p, row, col).None? ==> q == p
    ensures Select(p, row, col).Some? ==>
      var s := Select(p, row, col).value;
      var verdict := Judge(reply, s.clue.answer);
      && q.categories == p.categories && q.header == p.header
      && |q.board| == |p.board|
      && (forall i :: 0 <= i < |p.board| && i != row ==> q.board[i] == p.board[i])
      && |q.board[row]| == |p.board[row]|
      && (forall j :: 0 <= j < |p.board[row]| && j != col ==> q.board[row][j] == p.board[row][j])
      && (verdict == Correct ==> q.score == p.score + s.points && q.board[row][col] == BoardCell(s.clue.answer, false))
      && (verdict == Incorrect && confirmed ==> q.score == p.score - s.points && q.board[row][col] == BoardCell(s.clue.answer, false))
      && (verdict == Incorrect && !confirmed ==> q == p)
  {
    match Select(p, row, col)
    case None => p
    case Some(s) =>
      var q := Judged(p, row, col, s, reply, confirmed, true);
      if Judge(reply, s.clue.answer) == Incorrect && !confirmed then
        DeclineRestoresPage(p, row, col, s, reply);
        q
      else q
  }

  /** With the label restored, declining an incorrect verdict on an armed
      cell gives back the page exactly as it was before the click. */
  lemma DeclineRestoresPage(p: Page, row: nat, col: nat, s: Selection, reply: string)
    requires row < |p.board| && col < |p.board[row]| && p.board[row][col].armed
    requires Judge(reply, s.clue.answer) == Incorrect
    ensures Judged(p, row, col, s, reply, false, true) == p
  {
    var q := Judged(p, row, col, s, reply, false, true);
    assert q.board[row][col] == p.board[row][col];
    assert q.board[row] == p.board[row];
    assert q.board == p.board;
  }

  /** A cell whose verdict was committed is disarmed: clicking it again does
      nothing, whatever the reply. */
  lemma CommittedCellIgnoresClicks(p: Page, row: nat, col: nat, reply: string, confirmed: bool, reply2: string, confirmed2: bool)
    requires Select(p, row, col).Some?
    requires Judge(reply, Select(p, row, col).value.clue.answer) == Correct || confirmed
    ensures var q := Click(p, row, col, reply, confirmed);
      Click(q, row, col, reply2, confirmed2) == q
  {
  }

  /** Declining is an undo: after a declined incorrect verdict, the next click
      on the cell is judged exactly as if it were the first. */
  lemma DeclineThenRetry(p: Page, row: nat, col: nat, reply: string, reply2: string, confirmed2: bool)
    requires Select(p, row, col).Some?
    requires Judge(reply, Select(p, row, col).value.clue.answer) == Incorrect
    ensures Click(Click(p, row, col, reply, false), row, col, reply2, confirmed2) == Click(p, row, col, reply2, confirmed2)
  {
  }

  /** On a freshly started board, clicking cell (`row`, `col`) selects the
      first clue worth the row's value in category `col`, and selects nothing
      when that category is missing or has no such clue. */
  lemma FreshBoardSelects(p: Page, results: seq<Option<ApiCategory>>, row: nat, col: nat)
    requires |results| == NumCategories
    requires row < CluesPerCategory && col < NumCategories
    ensures var q := StartGame(p, results);
      && (Select(q, row, col).Some? <==>
            col < |q.categories| && FirstWithValue(q.categories[col].clues, RowValue(row)).Some?)
      && (Select(q, row, col).Some? ==>
            && Select(q, row, col).value.points == RowValue(row)
            && Select(q, row, col).value.clue == q.categories[col].clues[FirstWithValue(q.categories[col].clues, RowValue(row)).value])
  {
    LabelRoundTrip(row);
  }

  /** As written, `startGame` leaves neither a header nor a board: the clearing
      inside `generateCategories` removes what the two setup calls built, and
      no click can reveal anything. */
  lemma StartGameAsWrittenIsBlank(p: Page, results: seq<Option<ApiCategory>>, row: nat, col: nat, reply: string, confirmed: bool)
    requires |results| == NumCategories
    ensures StartGameAsWritten(p, results).header == []
    ensures StartGameAsWritten(p, results).board == []
    ensures ClickAsWritten(StartGameAsWritten(p, results), row, col, reply, confirmed) == StartGameAsWritten(p, results)
  {
  }

  /** A one-clue page: category "Poets" with the $200 clue answered "Plath". */
  function PoetsPage(): Page {
    Page([""], [[BoardCell(DollarLabel(0), true)]], 0,
         [ApiCategory("Poets", [ApiClue("Author of The Bell Jar", "Plath", Some(200))])])
  }

  lemma PoetsVerdicts()
    ensures Judge("Sexton", "Plath") == Incorrect
    ensures Judge("plath", "Plath") == Correct
  {
    StripWithoutAngle(Lower("Plath"));
    assert CanonicalAnswer("Plath") == Lower("Plath");
    assert NormalisedReply("Sexton")[0] == 's';
    assert Lower("Plath")[0] == 'p';
    assert Lower("Plath") == "plath";
    assert Lower("plath") == "plath";
  }

  lemma PoetsSelection()
    ensures Select(PoetsPage(), 0, 0) == Some(PoetsSelected())
  {
    LabelRoundTrip(0);
  }

  function PoetsSelected(): Selection {
    Selection(ApiClue("Author of The Bell Jar", "Plath", Some(200)), 200)
  }

  lemma PoetsJudgedDeclined()
    ensures Judged(PoetsPage(), 0, 0, PoetsSelected(), "Sexton", false, false) == PoetsPage().(board := [[BoardCell("Plath", true)]])
  {
    var p := PoetsPage();
    PoetsVerdicts();
    var u := UpdateScore(p.score, Judge("Sexton", "Plath"), false, 200);
    assert u == ScoreUpdate(0, true);
    var row := p.board[0][0 := BoardCell("Plath", true)];
    assert row == [BoardCell("Plath", true)];
    assert p.board[0 := row] == [row];
  }

  /** The Poets page after the declined wrong reply "Sexton", as written. */
  lemma PoetsDeclinedAsWritten()
    ensures ClickAsWritten(PoetsPage(), 0, 0, "Sexton", false) == PoetsPage().(board := [[BoardCell("Plath", true)]])
  {
    PoetsSelection();
    assert Select(PoetsPage(), 0, 0) == Some(PoetsSelected());
    PoetsJudgedDeclined();
  }

  /** On that page the re-armed cell selects nothing. */
  lemma PoetsRetrySelectsNothing()
    ensures Select(PoetsPage().(board := [[BoardCell("Plath", true)]]), 0, 0) == None
  {
    assert "Plath"[1..] == "lath";
    ParseNonNumeric("lath");
  }

  /** As written, the retry the decline offers cannot happen: the re-armed cell
      now reads "Plath", whose tail "lath" is not a number, so the next click,
      even with the right reply, selects nothing. With the label restored, the
      same two clicks score the clue. */
  lemma RetryAfterDeclineAsWritten()
    ensures var p1 := ClickAsWritten(PoetsPage(), 0, 0, "Sexton", false);
      && p1.board[0][0] == BoardCell("Plath", true)
      && p1.score == 0
      && ClickAsWritten(p1, 0, 0, "plath", true) == p1
    ensures Click(Click(PoetsPage(), 0, 0, "Sexton", false), 0, 0, "plath", true).score == 200
  {
    PoetsDeclinedAsWritten();
    PoetsRetrySelectsNothing();
    PoetsSelection();
    PoetsVerdicts();
    DeclineThenRetry(PoetsPage(), 0, 0, "Sexton", "plath", true);
  }

  /** On the Poets page, once "plath" has scored the clue, a second click on
      the cell, even with a wrong reply, changes nothing. */
  lemma PoetsCommittedIgnoresClicks()
    ensures var q := Click(PoetsPage(), 0, 0, "plath", true);
      && q.score == 200
      && Click(q, 0, 0, "Sexton", false) == q
  {
    PoetsSelection();
    PoetsVerdicts();
    CommittedCellIgnoresClicks(PoetsPage(), 0, 0, "plath", true, "Sexton", false);
  }

  /** A two-clue page: category "Years" with the $200 clue answered "1400"
      and the $400 clue answered "1066". */
  function YearsPage(): Page {
    Page([""], [[BoardCell(DollarLabel(0), true)]], 0,
         [ApiCategory("Years", [ApiClue("Year Chaucer died", "1400", Some(200)),
                                ApiClue("Year of the Battle of Hastings", "1066", Some(400))])])
  }

  function YearsFirst(): Selection {
    Selection(ApiClue("Year Chaucer died", "1400", Some(200)), 200)
  }

  function YearsSecond(): Selection {
    Selection(ApiClue("Year of the Battle of Hastings", "1066", Some(400)), 400)
  }

  lemma YearsVerdict()
    ensures Judge("1399", "1400") == Incorrect
  {
    StripWithoutAngle("1400");
    assert Lower("1399")[3] == '9';
    assert Lower("1400")[3] == '0';
  }

  lemma YearsSelection()
    ensures Select(YearsPage(), 0, 0) == Some(YearsFirst())
  {
    LabelRoundTrip(0);
  }

  /** The decimal rendering of 400 is the text "400". */
  lemma Render400()
    ensures NatToDecimal(400) == "400"
  {
    assert NatToDecimal(4) == "4";
    assert NatToDecimal(40) == "40";
  }

  /** The answer "1400" read as a label: its tail "400" is a dollar value. */
  lemma DecodeYearsAnswer()
    ensures DecodeLabel("1400") == Some(400)
  {
    assert "1400"[1..] == "400";
    Render400();
  }

  lemma YearsRetrySelection()
    ensures Select(YearsPage().(board := [[BoardCell("1400", true)]]), 0, 0) == Some(YearsSecond())
  {
    DecodeYearsAnswer();
    var clues := YearsPage().categories[0].clues;
    assert clues[0].value != Some(400) && clues[1].value == Some(400);
    assert FirstWithValue(clues, 400) == Some(1);
  }

  lemma YearsJudgedDeclined()
    ensures Judged(YearsPage(), 0, 0, YearsFirst(), "1399", false, false) == YearsPage().(board := [[BoardCell("1400", true)]])
  {
    var p := YearsPage();
    YearsVerdict();
    var u := UpdateScore(p.score, Judge("1399", "1400"), false, 200);
    assert u == ScoreUpdate(0, true);
    var row := p.board[0][0 := BoardCell("1400", true)];
    assert row == [BoardCell("1400", true)];
    assert p.board[0 := row] == [row];
  }

  /** As written, declining a wrong reply to the $200 clue "1400" re-arms the
      cell with the text "1400", and the next click on it selects the $400
      clue of the same category, worth 400 points: a different clue. */
  lemma NumericRetryAfterDeclineAsWritten()
    ensures var p1 := ClickAsWritten(YearsPage(), 0, 0, "1399", false);
      && p1 == YearsPage().(board := [[BoardCell("1400", true)]])
      && Select(p1, 0, 0) == Some(YearsSecond())
  {
    YearsSelection();
    YearsJudgedDeclined();
    YearsRetrySelection();
  }
}
