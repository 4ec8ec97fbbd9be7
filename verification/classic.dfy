/**
 The reveal-only game variant (`jeopardy.js`): shaping API categories into
 board categories, projecting listing records to ids, laying out the table,
 and the per-clue reveal state machine. The table is an abstract value (a
 header row of titles and a body of cells) instead of DOM nodes.
 */
module Classic {
  import opened Api

  /** What a clue shows: nothing yet (`null`), its question, or its answer. */
  datatype Showing = Hidden | Question | Answer

  datatype Clue = Clue(question: string, answer: string, showing: Showing)

  datatype Category = Category(title: string, clues: seq<Clue>)

  /** A body cell: its text and the `data-` attributes the source sets. */
  datatype Cell = Cell(text: string, question: string, answer: string, showing: string)

  /** The filled table: one header per category and the body rows. An empty
      body means the body section was never attached. */
  datatype Table = Table(headers: seq<string>, body: seq<seq<Cell>>)

  /** Ids of the listing records, one per record, in order (`getCategoryIds`). */
  function CategoryIds(listing: seq<ListingRecord>): (ids: seq<int>)
    ensures |ids| == |listing|
    ensures forall k :: 0 <= k < |listing| ==> ids[k] == listing[k].id
  {
    if |listing| == 0 then []
    else [listing[0].id] + CategoryIds(listing[1..])
  }

  /** Each API clue becomes a board clue that is not yet showing. */
  function FreshClues(source: seq<ApiClue>): (clues: seq<Clue>)
    ensures |clues| == |source|
    ensures forall k :: 0 <= k < |source| ==>
      clues[k] == Clue(source[k].question, source[k].answer, Hidden)
  {
    if |source| == 0 then []
    else [Clue(source[0].question, source[0].answer, Hidden)] + FreshClues(source[1..])
  }

  /** `getCategory`: keep the title and the first five clues, each hidden. */
  function ShapeCategory(data: ApiCategory): (c: Category)
    ensures c.title == data.title
    ensures |c.clues| == Min(CluesPerCategory, |data.clues|)
    ensures forall k :: 0 <= k < |c.clues| ==>
      && c.clues[k].question == data.clues[k].question
      && c.clues[k].answer == data.clues[k].answer
      && c.clues[k].showing == Hidden
  {
    Category(data.title, FreshClues(data.clues[..Min(CluesPerCategory, |data.clues|)]))
  }

  /** Shaping never pads: a category keeps all its clues when it has at most
      five, and exactly five otherwise. */
  lemma ShapeNeverPads(data: ApiCategory)
    ensures |ShapeCategory(data).clues| <= |data.clues|
    ensures |data.clues| <= CluesPerCategory ==> |ShapeCategory(data).clues| == |data.clues|
    ensures |data.clues| >= CluesPerCategory ==> |ShapeCategory(data).clues| == CluesPerCategory
  {
  }

  /** Header titles, one per category, in order. */
  function Headers(categories: seq<Category>): (h: seq<string>)
    ensures |h| == |categories|
    ensures forall c :: 0 <= c < |categories| ==> h[c] == categories[c].title
  {
    if |categories| == 0 then []
    else [categories[0].title] + Headers(categories[1..])
  }

  /** Can every category fill all body rows? */
  predicate FullCategories(categories: seq<Category>) {
    forall c :: 0 <= c < |categories| ==> |categories[c].clues| >= CluesPerCategory
  }

  /** Body row `i`: the `i`-th clue of every category, covered by `?`. */
  function BodyRow(categories: seq<Category>, i: nat): (row: seq<Cell>)
    requires i < CluesPerCategory && FullCategories(categories)
    ensures |row| == |categories|
    ensures forall c :: 0 <= c < |categories| ==>
      row[c] == Cell("?", categories[c].clues[i].question, categories[c].clues[i].answer, "null")
  {
    if |categories| == 0 then []
    else
      var clue := categories[0].clues[i];
      [Cell("?", clue.question, clue.answer, "null")] + BodyRow(categories[1..], i)
  }

  /** `fillTable`: one header per category, then five rows with one `?` cell
      per category. A category with fewer than five clues makes the source
      fail on a missing clue after the header is built and before the body is
      attached, so the body stays empty. */
  function FillTable(categories: seq<Category>): (t: Table)
    ensures |t.headers| == |categories|
    ensures forall c :: 0 <= c < |categories| ==> t.headers[c] == categories[c].title
    ensures t.body == [] <==> !FullCategories(categories)
    ensures FullCategories(categories) ==>
      && |t.body| == CluesPerCategory
      && (forall i :: 0 <= i < CluesPerCategory ==> |t.body[i]| == |categories|)
      && forall i, c :: 0 <= i < CluesPerCategory && 0 <= c < |categories| ==>
           && |t.body[i]| == |categories|
           && t.body[i][c] == Cell("?", categories[c].clues[i].question, categories[c].clues[i].answer, "null")
  {
    var headers := Headers(categories);
    if !FullCategories(categories) then Table(headers, [])
    else Table(headers, seq(CluesPerCategory, i requires 0 <= i < CluesPerCategory => BodyRow(categories, i)))
  }

  /** A clue after one click, and the text the cell now displays (`None`:
      the display is left as it was). */
  datatype Reveal = Reveal(clue: Clue, display: Option<string>)

  /** `handleClick` on one clue: hidden shows the question, the question shows
      the answer, and the answer ignores the click. */
  function Click(clue: Clue): (r: Reveal)
    ensures r.clue.question == clue.question && r.clue.answer == clue.answer
    ensures clue.showing == Hidden ==> r.clue.showing == Question && r.display == Some(clue.question)
    ensures clue.showing == Question ==> r.clue.showing == Answer && r.display == Some(clue.answer)
    ensures clue.showing == Answer ==> r == Reveal(clue, None)
  {
    match clue.showing
    case Hidden => Reveal(clue.(showing := Question), Some(clue.question))
    case Question => Reveal(clue.(showing := Answer), Some(clue.answer))
    case Answer => Reveal(clue, None)
  }

  /** Position of a state on the path hidden, question, answer. */
  function Stage(s: Showing): nat {
    match s
    case Hidden => 0
    case Question => 1
    case Answer => 2
  }

  /** A click moves one stage forward, except from the answer, where it
      stays: the state never moves back and never skips. */
  lemma ClickMovesForward(clue: Clue)
    ensures Stage(Click(clue).clue.showing) == if clue.showing == Answer then 2 else Stage(clue.showing) + 1
  {
  }

  /** The clue after `n` clicks. */
  function Clicks(clue: Clue, n: nat): Clue
    decreases n
  {
    if n == 0 then clue else Clicks(Click(clue).clue, n - 1)
  }

  /** Once the answer shows, any number of clicks leaves the clue as it is. */
  lemma {:induction false} AnswerIsTerminal(clue: Clue, n: nat)
    requires clue.showing == Answer
    ensures Clicks(clue, n) == clue
    decreases n
  {
    if n > 0 {
      AnswerIsTerminal(clue, n - 1);
    }
  }

  /** Two clicks reveal the answer of a hidden clue, and every further click
      changes nothing. */
  lemma ClicksSettleOnAnswer(clue: Clue, n: nat)
    requires clue.showing == Hidden && n >= 2
    ensures Clicks(clue, n) == clue.(showing := Answer)
  {
    var answered := clue.(showing := Answer);
    assert Clicks(clue, n) == Clicks(answered, n - 2);
    AnswerIsTerminal(answered, n - 2);
  }

  /** The outcome of clicking the cell addressed by category `c`, clue `i`. */
  datatype BoardClick = BoardClick(categories: seq<Category>, display: Option<string>)

  /** `handleClick` on the clue at (category `c`, clue `i`), located by the
      coordinate instead of the cell's attributes. `None` when the coordinate
      names no clue (the source fails on the missing entry). Only the
      addressed clue changes. */
  function ClickAt(categories: seq<Category>, c: nat, i: nat): (r: Option<BoardClick>)
    ensures r.Some? <==> c < |categories| && i < |categories[c].clues|
    ensures r.Some? ==>
      var after := Click(categories[c].clues[i]);
      && r.value.display == after.display
      && |r.value.categories| == |categories|
      && r.value.categories[c].title == categories[c].title
      && r.value.categories[c].clues == categories[c].clues[i := after.clue]
      && forall d :: 0 <= d < |categories| && d != c ==> r.value.categories[d] == categories[d]
  {
    if c < |categories| && i < |categories[c].clues| then
      var category := categories[c];
      var after := Click(category.clues[i]);
      Some(BoardClick(categories[c := category.(clues := category.clues[i := after.clue])], after.display))
    else None
  }

  /** Fetch outcome for one category id (`None`: the request failed). */
  type Fetcher = int -> Option<ApiCategory>

  /** `Promise.all` over the detail requests: all shaped categories in id
      order, or `None` as soon as any request fails. */
  function FetchAll(ids: seq<int>, fetch: Fetcher): (r: Option<seq<Category>>)
    ensures r.Some? <==> forall k :: 0 <= k < |ids| ==> fetch(ids[k]).Some?
    ensures r.Some? ==>
      && |r.value| == |ids|
      && forall k :: 0 <= k < |ids| ==> r.value[k] == ShapeCategory(fetch(ids[k]).value)
  {
    if |ids| == 0 then Some([])
    else
      match fetch(ids[0])
      case None => None
      case Some(data) =>
        match FetchAll(ids[1..], fetch)
        case None => None
        case Some(rest) => Some([ShapeCategory(data)] + rest)
  }

  /** A started game: the categories and the filled table. */
  datatype Game = Game(categories: seq<Category>, table: Table)

  /** `setupAndStart`: fetch the listing's categories and fill the table.
      Any failed request fails the whole setup and no table is built. */
  function SetupAndStart(listing: seq<ListingRecord>, fetch: Fetcher): (g: Option<Game>)
    ensures g.Some? <==> forall k :: 0 <= k < |listing| ==> fetch(listing[k].id).Some?
    ensures g.Some? ==>
      && |g.value.categories| == |listing|
      && g.value.table == FillTable(g.value.categories)
      && forall k :: 0 <= k < |listing| ==>
           && g.value.categories[k] == ShapeCategory(fetch(listing[k].id).value)
           && g.value.table.headers[k] == fetch(listing[k].id).value.title
           && forall j :: 0 <= j < |g.value.categories[k].clues| ==> g.value.categories[k].clues[j].showing == Hidden
  {
    match FetchAll(CategoryIds(listing), fetch)
    case None => None
    case Some(categories) => Some(Game(categories, FillTable(categories)))
  }

  /** A table built from freshly shaped categories that each have at least
      five clues shows `?` everywhere, and cell (i, c) carries the i-th source
      clue of category c. */
  lemma FreshTableCarriesSourceClues(data: seq<ApiCategory>)
    requires forall c :: 0 <= c < |data| ==> |data[c].clues| >= CluesPerCategory
    ensures var t := FillTable(seq(|data|, c requires 0 <= c < |data| => ShapeCategory(data[c])));
      && |t.body| == CluesPerCategory
      && forall i, c :: 0 <= i < CluesPerCategory && 0 <= c < |data| ==>
           t.body[i][c] == Cell("?", data[c].clues[i].question, data[c].clues[i].answer, "null")
  {
    var categories := seq(|data|, c requires 0 <= c < |data| => ShapeCategory(data[c]));
    assert FullCategories(categories);
  }
}
