/**
  The click-driven game state of jeopardy.js: the module-level variables
  `categories`, `activeClue`, `activeClueMode` and `isPlayButtonClickable`,
  and the three handlers that change them. The transitions are first given
  as functions on a `State` value (so that runs of clicks can be reasoned
  about), then as the methods of the class `Game`, whose fields are those
  variables.
 */
module Game {
  import opened Seqs
  import opened Data
  import Board
  import opened Sampler
  import opened Shuffle

  /** `activeClueMode`: 0 (no clue open), 1 (question shown), 2 (answer shown). */
  datatype Mode = Idle | Question | Answer

  datatype State = State(categories: seq<Category>, activeClue: Option<Clue>, mode: Mode, playClickable: bool)

  /**
    What a click handler leaves in the `#active-clue` panel: untouched, a text,
    emptied, "The End!", or untouched because the handler threw a TypeError
    after (or before) changing the state.
   */
  datatype Panel = Unchanged | Shows(text: string) | Cleared | TheEnd | Crashed

  datatype Step = Step(state: State, panel: Panel)

  /** How `handleClickOfPlay` ends: returned at once, "Game Ready!", or the error alert. */
  datatype PlayResult = Ignored | GameReady | StartFailed

  datatype PlayStep = PlayStep(state: State, result: PlayResult)

  /** The values the module-level variables start with when the page loads. */
  const Initial: State := State([], None, Idle, true)

  /** `categories.find(c => c.id === catId)`, as the index of the category found. */
  function LookupCategory(cats: seq<Category>, catId: CategoryId): (r: Option<nat>)
    ensures r.Some? ==> r.value < |cats| && cats[r.value].id == catId
    ensures r.Some? ==> forall j :: 0 <= j < r.value ==> cats[j].id != catId
    ensures r.None? <==> forall j :: 0 <= j < |cats| ==> cats[j].id != catId
  {
    FindFirst(cats, (c: Category) => c.id == catId)
  }

  /** `category.clues.find(c => c.id === clueId)`; None stands for `undefined`. */
  function LookupClue(clues: seq<Clue>, clueId: ClueId): (r: Option<Clue>)
    ensures r.Some? ==> r.value in clues && r.value.id == clueId
    ensures r.Some? ==> exists m :: 0 <= m < |clues| && clues[m] == r.value &&
                                    forall j :: 0 <= j < m ==> clues[j].id != clueId
    ensures r.None? <==> forall c :: c in clues ==> c.id != clueId
  {
    match FindFirst(clues, (c: Clue) => c.id == clueId)
    case None => None
    case Some(m) => Some(clues[m])
  }

  /** `category.clues.filter(c => c.id !== clueId)`. */
  function RemoveClue(clues: seq<Clue>, clueId: ClueId): (r: seq<Clue>)
    ensures forall c :: c in r <==> c in clues && c.id != clueId
    ensures forall c :: multiset(r)[c] == if c.id != clueId then multiset(clues)[c] else 0
    ensures |r| <= |clues|
    ensures LookupClue(clues, clueId).Some? ==> |r| < |clues|
  {
    FilterCounts(clues, (c: Clue) => c.id != clueId);
    Filter(clues, (c: Clue) => c.id != clueId)
  }

  /** `categories.every(c => c.clues.length === 0)`: no clue is left on the whole board. */
  predicate AllCluesViewed(cats: seq<Category>): (b: bool)
    ensures b <==> TotalClues(cats) == 0
  {
    NoCluesLeft(cats);
    forall k :: 0 <= k < |cats| ==> |cats[k].clues| == 0
  }

  function TotalClues(cats: seq<Category>): nat
  {
    if |cats| == 0 then 0 else |cats[0].clues| + TotalClues(cats[1..])
  }

  lemma {:induction false} NoCluesLeft(cats: seq<Category>)
    ensures TotalClues(cats) == 0 <==> forall k :: 0 <= k < |cats| ==> |cats[k].clues| == 0
  {
    if |cats| > 0 {
      NoCluesLeft(cats[1..]);
      assert forall k :: 1 <= k < |cats| ==> cats[k] == cats[1..][k - 1];
    }
  }

  /**
    `handleClickOfClue(catId, clueId)`. There is no stage guard: the click
    works whatever clue is open. An unknown category throws at once; an
    unknown clue (a cell already viewed) still runs every assignment and
    throws only when the question is read.
   */
  function ClueClicked(s: State, catId: CategoryId, clueId: ClueId): (r: Step)
    ensures LookupCategory(s.categories, catId).None? ==> r == Step(s, Crashed)
    ensures LookupCategory(s.categories, catId).Some? ==>
      var k := LookupCategory(s.categories, catId).value;
      var cats := r.state.categories;
      && |cats| == |s.categories|
      && (forall j :: 0 <= j < |cats| && j != k ==> cats[j] == s.categories[j])
      && cats[k].id == catId && cats[k].title == s.categories[k].title
      && (forall c :: c in cats[k].clues <==> c in s.categories[k].clues && c.id != clueId)
      && (forall c :: multiset(cats[k].clues)[c] == if c.id != clueId then multiset(s.categories[k].clues)[c] else 0)
      && r.state.activeClue == LookupClue(s.categories[k].clues, clueId)
      && r.state.mode == Question
      && (r.state.playClickable <==> s.playClickable || AllCluesViewed(cats))
      && r.panel == (if r.state.activeClue.Some? then Shows(r.state.activeClue.value.question) else Crashed)
  {
    match LookupCategory(s.categories, catId)
    case None => Step(s, Crashed)
    case Some(k) =>
      var category := s.categories[k];
      var clue := LookupClue(category.clues, clueId);
      var cats := s.categories[k := category.(clues := RemoveClue(category.clues, clueId))];
      var clickable := if AllCluesViewed(cats) then true else s.playClickable;
      Step(State(cats, clue, Question, clickable),
           if clue.Some? then Shows(clue.value.question) else Crashed)
  }

  /**
    `handleClickOfActiveClue`. The end-of-game branch tests
    `categories.length === 0`, not whether the clues are used up.
   */
  function ActiveClueClicked(s: State): (r: Step)
    ensures r.state.categories == s.categories
    ensures s.mode == Idle ==> r == Step(s, Unchanged)
    ensures s.mode != Idle ==> r.state.mode == (if s.mode == Question then Answer else Idle)
    ensures r.state.activeClue == (if s.mode == Answer then None else s.activeClue)
    ensures r.panel == TheEnd <==> s.mode == Answer && |s.categories| == 0
    ensures s.mode == Answer && |s.categories| > 0 ==> r.panel == Cleared
    ensures r.state.playClickable <==> s.playClickable || r.panel == TheEnd
    ensures s.mode == Question ==> r.panel == (if s.activeClue.Some? then Shows(s.activeClue.value.answer) else Crashed)
  {
    match s.mode
    case Idle => Step(s, Unchanged)
    case Question =>
      Step(s.(mode := Answer), if s.activeClue.Some? then Shows(s.activeClue.value.answer) else Crashed)
    case Answer =>
      if |s.categories| == 0 then
        Step(s.(mode := Idle, activeClue := None, playClickable := true), TheEnd)
      else
        Step(s.(mode := Idle, activeClue := None), Cleared)
  }

  /**
    `handleClickOfPlay` with the outcome of fetching given. `categories` is
    replaced before the table is drawn, so a board that cannot be drawn is
    installed and still reported as an error; the flag stays false either way.
   */
  function PlayClicked(s: State, setup: Setup): (r: PlayStep)
    ensures !s.playClickable ==> r == PlayStep(s, Ignored)
    ensures s.playClickable ==>
      && !r.state.playClickable
      && r.state.mode == s.mode && r.state.activeClue == s.activeClue
      && r.state.categories == (if setup.Fetched? then setup.categories else s.categories)
      && (r.result == GameReady <==> setup.Fetched? && FullBoard(setup.categories))
      && (r.result == StartFailed <==> setup.Threw? || !FullBoard(setup.categories))
  {
    if !s.playClickable then PlayStep(s, Ignored)
    else match setup
      case Threw => PlayStep(s.(playClickable := false), StartFailed)
      case Fetched(cats) =>
        PlayStep(s.(categories := cats, playClickable := false), if FullBoard(cats) then GameReady else StartFailed)
  }

  /** A user action on the page. */
  datatype Event = Play(setup: Setup) | ClueClick(catId: CategoryId, clueId: ClueId) | ActiveClick

  function Apply(s: State, e: Event): State
  {
    match e
    case Play(setup) => PlayClicked(s, setup).state
    case ClueClick(catId, clueId) => ClueClicked(s, catId, clueId).state
    case ActiveClick => ActiveClueClicked(s).state
  }

  function Run(s: State, events: seq<Event>): State
    decreases |events|
  {
    if |events| == 0 then s else Run(Apply(s, events[0]), events[1..])
  }

  predicate NoRestart(events: seq<Event>)
  {
    forall k :: 0 <= k < |events| ==> !events[k].Play?
  }

  predicate NoClueClicks(events: seq<Event>)
  {
    forall k :: 0 <= k < |events| ==> !events[k].ClueClick?
  }

  /** The part of the intended "an open clue exists exactly in stages 1 and 2" that the code keeps. */
  predicate Consistent(s: State)
  {
    s.mode == Idle ==> s.activeClue == None
  }

  // ---------------------------------------------------------------------
  // Properties of single transitions
  // ---------------------------------------------------------------------

  /** The panel cycle of one clue: question, answer, cleared, then clicks do nothing. */
  lemma ActiveClickCycle(s: State)
    requires s.mode == Question
    ensures var s1 := ActiveClueClicked(s).state;
            var s2 := ActiveClueClicked(s1).state;
            && s1.mode == Answer && s1.activeClue == s.activeClue && s1.categories == s.categories
            && s2.mode == Idle && s2.activeClue == None && s2.categories == s.categories
            && ActiveClueClicked(s2) == Step(s2, Unchanged)
  {
  }

  lemma {:induction false} TotalCluesUpdate(cats: seq<Category>, k: nat, c: Category)
    requires k < |cats|
    ensures TotalClues(cats[k := c]) + |cats[k].clues| == TotalClues(cats) + |c.clues|
  {
    if k > 0 {
      assert cats[k := c][1..] == cats[1..][k - 1 := c];
      TotalCluesUpdate(cats[1..], k - 1, c);
    } else {
      assert cats[k := c][1..] == cats[1..];
    }
  }

  /** A click on a cell whose clue is still there takes at least one clue off the board; any other click takes none. */
  lemma ClueClickShrinksBoard(s: State, catId: CategoryId, clueId: ClueId)
    ensures var k := LookupCategory(s.categories, catId);
            var after := TotalClues(ClueClicked(s, catId, clueId).state.categories);
            if k.Some? && LookupClue(s.categories[k.value].clues, clueId).Some?
            then after < TotalClues(s.categories)
            else after == TotalClues(s.categories)
  {
    match LookupCategory(s.categories, catId)
    case None =>
    case Some(k) =>
      var category := s.categories[k];
      var removed := category.(clues := RemoveClue(category.clues, clueId));
      TotalCluesUpdate(s.categories, k, removed);
      if LookupClue(category.clues, clueId).None? {
        assert RemoveClue(category.clues, clueId) == category.clues by {
          var p := (c: Clue) => c.id != clueId;
          assert forall j :: 0 <= j < |category.clues| ==> p(category.clues[j]) by {
            forall j | 0 <= j < |category.clues| ensures p(category.clues[j]) {
              assert category.clues[j] in category.clues;
            }
          }
          FilterAllKept(category.clues, p);
        }
        assert removed == category;
      }
  }

  /**
    Clicking a cell whose clue was already viewed leaves stage 1 with no
    clue: the handler throws at `clue.question`, and the next click on the
    panel throws at `activeClue.answer` after moving to stage 2.
   */
  lemma ViewedCellLeavesQuestionWithoutClue(s: State, catId: CategoryId, clueId: ClueId)
    requires LookupCategory(s.categories, catId).Some?
    requires LookupClue(s.categories[LookupCategory(s.categories, catId).value].clues, clueId).None?
    ensures var r := ClueClicked(s, catId, clueId);
            && r.panel == Crashed
            && r.state.mode == Question && r.state.activeClue == None
            && ActiveClueClicked(r.state).panel == Crashed
            && ActiveClueClicked(r.state).state.mode == Answer
  {
  }

  /**
    Restarting does not reset `activeClueMode` or `activeClue`: when the
    last clue opened its question and then Play was pressed, the next click
    on the panel shows the previous game's answer.
   */
  lemma RestartKeepsOpenClue(s: State, cats: seq<Category>, clue: Clue)
    requires s.playClickable && s.mode == Question && s.activeClue == Some(clue)
    ensures var s1 := PlayClicked(s, Fetched(cats)).state;
            s1.categories == cats && ActiveClueClicked(s1).panel == Shows(clue.answer)
  {
  }

  /**
    Selecting a clue and clicking the panel twice shows its question, then
    its answer, then clears the panel; "The End!" is not shown, because the
    category list is not empty.
   */
  lemma SelectThenDismiss(s: State, catId: CategoryId, clueId: ClueId)
    requires LookupCategory(s.categories, catId).Some?
    requires LookupClue(s.categories[LookupCategory(s.categories, catId).value].clues, clueId).Some?
    ensures var clue := LookupClue(s.categories[LookupCategory(s.categories, catId).value].clues, clueId).value;
            var r1 := ClueClicked(s, catId, clueId);
            var r2 := ActiveClueClicked(r1.state);
            var r3 := ActiveClueClicked(r2.state);
            && r1.panel == Shows(clue.question)
            && r2.panel == Shows(clue.answer)
            && r3.panel == Cleared
            && r3.state.mode == Idle && r3.state.activeClue == None
            && r3.state.playClickable == r1.state.playClickable
  {
  }

  // ---------------------------------------------------------------------
  // Properties of runs of clicks
  // ---------------------------------------------------------------------

  lemma {:induction false} RunKeepsConsistent(s: State, events: seq<Event>)
    requires Consistent(s)
    ensures Consistent(Run(s, events))
    decreases |events|
  {
    if |events| > 0 {
      RunKeepsConsistent(Apply(s, events[0]), events[1..]);
    }
  }

  /**
    Until the next restart, clicks keep every category in its place with its
    id and title, and only ever take clues away: a clue once removed does
    not come back.
   */
  lemma {:induction false} ClicksOnlyRemoveClues(s: State, events: seq<Event>)
    requires NoRestart(events)
    ensures |Run(s, events).categories| == |s.categories|
    ensures forall j :: 0 <= j < |s.categories| ==>
      Run(s, events).categories[j].id == s.categories[j].id &&
      Run(s, events).categories[j].title == s.categories[j].title
    ensures forall j, c :: 0 <= j < |s.categories| && c in Run(s, events).categories[j].clues ==>
      c in s.categories[j].clues
    decreases |events|
  {
    if |events| > 0 {
      assert NoRestart(events[1..]) by {
        forall k | 0 <= k < |events[1..]| ensures !events[1..][k].Play? {
          assert events[1..][k] == events[k + 1];
        }
      }
      ClicksOnlyRemoveClues(Apply(s, events[0]), events[1..]);
    }
  }

  /** On a board with at least one category, no sequence of clicks before the next restart ever shows "The End!". */
  lemma NeverTheEndOnABoard(s: State, events: seq<Event>)
    requires |s.categories| > 0 && NoRestart(events)
    ensures ActiveClueClicked(Run(s, events)).panel != TheEnd
  {
    ClicksOnlyRemoveClues(s, events);
  }

  /** No categories, no open clue, Play disabled: every handler leaves this state as it is. */
  predicate Dead(s: State)
  {
    s.categories == [] && s.mode == Idle && !s.playClickable
  }

  lemma {:induction false} DeadGameStaysDead(s: State, events: seq<Event>)
    requires Dead(s)
    ensures Run(s, events) == s
    decreases |events|
  {
    if |events| > 0 {
      assert Apply(s, events[0]) == s;
      DeadGameStaysDead(s, events[1..]);
    }
  }

  /**
    A first start whose detail request failed (it throws before
    `categories` is assigned), or whose category-list request failed (an
    empty board reported as ready), leaves the page in a state no click
    can leave.
   */
  lemma FailedFirstStartIsFinal(setup: Setup, events: seq<Event>)
    requires setup == Threw || setup == Fetched([])
    ensures PlayClicked(Initial, setup).result == (if setup.Threw? then StartFailed else GameReady)
    ensures Run(PlayClicked(Initial, setup).state, events) == PlayClicked(Initial, setup).state
  {
    DeadGameStaysDead(PlayClicked(Initial, setup).state, events);
  }

  /**
    A restart whose category-list request failed installs no categories but
    keeps the open clue: two panel clicks then show the previous game's
    answer and "The End!", and Play becomes clickable again.
   */
  lemma EmptyRestartEndsOpenClue(s: State, clue: Clue)
    requires s.playClickable && s.mode == Question && s.activeClue == Some(clue)
    ensures var s1 := PlayClicked(s, Fetched([])).state;
            var r2 := ActiveClueClicked(s1);
            var r3 := ActiveClueClicked(r2.state);
            && !s1.playClickable && s1.categories == []
            && r2.panel == Shows(clue.answer)
            && r3.panel == TheEnd && r3.state.playClickable
            && Run(s1, [ActiveClick, ActiveClick]) == r3.state
            && r3.state != s1
  {
    var s1 := PlayClicked(s, Fetched([])).state;
    assert Run(s1, [ActiveClick, ActiveClick]) == Run(ActiveClueClicked(s1).state, [ActiveClick]);
  }

  /**
    The same restart made while the previous answer is shown: one panel
    click dismisses it with "The End!" and makes Play clickable again.
   */
  lemma EmptyRestartEndsShownAnswer(s: State)
    requires s.playClickable && s.mode == Answer
    ensures var s1 := PlayClicked(s, Fetched([])).state;
            var r2 := ActiveClueClicked(s1);
            && !s1.playClickable && s1.categories == [] && s1.mode == Answer
            && r2.panel == TheEnd && r2.state.playClickable
            && r2.state.mode == Idle && r2.state.activeClue == None
  {
  }

  /**
    A start that fetched a non-empty board too short to draw reports an
    error, yet the board is installed: its cells still work, and Play is
    raised again once every clue of the board has been removed.
   */
  lemma ShortStartStillPlays(s: State, cats: seq<Category>, catId: CategoryId, clueId: ClueId)
    requires s.playClickable && !FullBoard(cats)
    requires LookupCategory(cats, catId).Some?
    requires LookupClue(cats[LookupCategory(cats, catId).value].clues, clueId).Some?
    ensures var p := PlayClicked(s, Fetched(cats));
            var r := ClueClicked(p.state, catId, clueId);
            && p.result == StartFailed && !p.state.playClickable
            && r.panel.Shows? && r.state != p.state
            && (r.state.playClickable <==> TotalClues(r.state.categories) == 0)
  {
    var p := PlayClicked(s, Fetched(cats));
    ClueClickShrinksBoard(p.state, catId, clueId);
  }

  lemma {:induction false} LockedWithoutCells(s: State, events: seq<Event>)
    requires !s.playClickable && |s.categories| > 0 && NoClueClicks(events)
    ensures !Run(s, events).playClickable && |Run(s, events).categories| == |s.categories|
    decreases |events|
  {
    if |events| > 0 {
      assert NoClueClicks(events[1..]) by {
        forall k | 0 <= k < |events[1..]| ensures !events[1..][k].ClueClick? {
          assert events[1..][k] == events[k + 1];
        }
      }
      LockedWithoutCells(Apply(s, events[0]), events[1..]);
    }
  }

  /**
    A restart that throws leaves `isPlayButtonClickable` false although the
    button is enabled again; with the table emptied no clue can be clicked,
    so no later click on Play or on the panel makes Play clickable again.
   */
  lemma FailedRestartLocksPlay(s: State, events: seq<Event>)
    requires s.playClickable && |s.categories| > 0 && NoClueClicks(events)
    ensures PlayClicked(s, Threw).result == StartFailed
    ensures !Run(PlayClicked(s, Threw).state, events).playClickable
  {
    LockedWithoutCells(PlayClicked(s, Threw).state, events);
  }

  /**
    One category holding one clue without a value: the clue is worth 200;
    the table cannot be completed (one row out of five), so the start reports
    an error, yet the board is installed and its first row drawn. Viewing the
    clue re-enables Play at once, and dismissing its answer clears the panel
    instead of showing "The End!".
   */
  lemma SingleClueGame()
    ensures var raw := RawClue(1, Some("Q"), Some("A"), None);
            && ValidDraws([0], |Usable([raw])|)
            && GetCategoryData(7, Some(RawCategory("T", [raw])), [0]) == Some(Category(7, "T", [Clue(1, "Q", "A", 200)]))
            && var p := PlayClicked(Initial, Fetched([Category(7, "T", [Clue(1, "Q", "A", 200)])]));
               var r1 := ClueClicked(p.state, 7, 1);
               var r2 := ActiveClueClicked(r1.state);
               var r3 := ActiveClueClicked(r2.state);
               && p.result == StartFailed
               && r1.panel == Shows("Q") && r1.state.playClickable
               && r2.panel == Shows("A")
               && r3.panel == Cleared && r3.state.mode == Idle && r3.state.activeClue == None
  {
    var raw := RawClue(1, Some("Q"), Some("A"), None);
    assert Usable([raw]) == [raw] by { assert [raw][1..] == []; }
    assert Shuffled([raw], [0]) == [raw];
    assert ChooseClues([raw], [0]) == [raw];
    assert Normalise([raw]) == [Clue(1, "Q", "A", 200)];
    var cat := Category(7, "T", [Clue(1, "Q", "A", 200)]);
    assert !FullBoard([cat]) by { assert |[cat][0].clues| < NumberOfCluesPerCategory; }
    var s1 := PlayClicked(Initial, Fetched([cat])).state;
    assert LookupCategory(s1.categories, 7) == Some(0);
    assert LookupClue(cat.clues, 1) == Some(Clue(1, "Q", "A", 200));
    assert RemoveClue(cat.clues, 1) == [] by { assert cat.clues[1..] == []; }
  }

  // ---------------------------------------------------------------------
  // The module-level variables and the handlers that change them
  // ---------------------------------------------------------------------

  class Game {
    var categories: seq<Category>
    var activeClue: Option<Clue>
    var activeClueMode: Mode
    var isPlayButtonClickable: bool

    function Snapshot(): State
      reads this
    {
      State(categories, activeClue, activeClueMode, isPlayButtonClickable)
    }

    /**
      The class form of `Consistent`: in stage 0 no clue is open. Every
      handler keeps it (the run-level statement is `RunKeepsConsistent`), and
      `HandleClickOfActiveClue` relies on it for its stage-0 case.
     */
    ghost predicate Valid()
      reads this
    {
      Consistent(Snapshot())
    }

    constructor ()
      ensures Valid() && Snapshot() == Initial
    {
      categories := [];
      activeClue := None;
      activeClueMode := Idle;
      isPlayButtonClickable := true;
    }

    /** `handleClickOfPlay` around `setupTheGame`, whose fetching ended in `setup`. */
    method HandleClickOfPlay(setup: Setup) returns (result: PlayResult)
      requires Valid()
      modifies this
      ensures Valid()
      ensures PlayStep(Snapshot(), result) == PlayClicked(old(Snapshot()), setup)
    {
      if !isPlayButtonClickable {
        return Ignored;
      }
      isPlayButtonClickable := false;
      match setup
      case Threw =>
        result := StartFailed;
      case Fetched(cats) =>
        categories := cats;
        var _, _, drawn := Board.FillTable(cats);
        result := if drawn then GameReady else StartFailed;
    }

    /** `handleClickOfClue` for the cell keyed (`catId`, `clueId`). */
    method HandleClickOfClue(catId: CategoryId, clueId: ClueId) returns (panel: Panel)
      requires Valid()
      modifies this
      ensures Valid()
      ensures Step(Snapshot(), panel) == ClueClicked(old(Snapshot()), catId, clueId)
    {
      var k := LookupCategory(categories, catId);
      if k.None? {
        return Crashed;
      }
      var category := categories[k.value];
      var clue := LookupClue(category.clues, clueId);
      categories := categories[k.value := category.(clues := RemoveClue(category.clues, clueId))];
      if AllCluesViewed(categories) {
        isPlayButtonClickable := true;
      }
      activeClue := clue;
      activeClueMode := Question;
      panel := if clue.Some? then Shows(clue.value.question) else Crashed;
    }

    /** `handleClickOfActiveClue`. */
    method HandleClickOfActiveClue() returns (panel: Panel)
      requires Valid()
      modifies this
      ensures Valid()
      ensures Step(Snapshot(), panel) == ActiveClueClicked(old(Snapshot()))
      ensures old(activeClueMode) != Answer ==> categories == old(categories) && activeClue == old(activeClue)
      ensures activeClueMode == Idle ==> activeClue == None && panel != Crashed
    {
      if activeClueMode == Idle {
        return Unchanged;
      }
      if activeClueMode == Question {
        activeClueMode := Answer;
        panel := if activeClue.Some? then Shows(activeClue.value.answer) else Crashed;
      } else {
        activeClueMode := Idle;
        activeClue := None;
        panel := Cleared;
        if |categories| == 0 {
          isPlayButtonClickable := true;
          panel := TheEnd;
        }
      }
    }
  }
}
