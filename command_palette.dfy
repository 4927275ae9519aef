/**
 * The command palette: its list of actions, the case-insensitive filter over
 * their labels, and the state machine of `isOpen`, `query` and `activeIndex`
 * driven by the global shortcut, the input's key handler and the mouse.
 *
 * An action's `perform` is an effect label; navigation, the clipboard, the
 * alert and analytics are outside the model. Lower-casing covers ASCII only.
 */
module CommandPalette {
  import opened Wrappers

  datatype Project = Project(slug: string, title: string)

  /** What an action's `perform` does. */
  datatype Effect = Navigate(href: string) | CopyEmail(address: string)

  /** An entry of `actions`; `caption` is the source's `label`, a reserved word here. */
  datatype Action = Action(id: string, caption: string, perform: Effect)

  /** A keyboard event, as far as the handlers look at it. */
  datatype KeyEvent = KeyEvent(key: string, metaKey: bool, ctrlKey: bool)

  const Email: string := "rithvikvibhu@gmail.com"
  const CopyEmailId: string := "copy-email"

  /** The six actions listed before the projects. */
  const FixedActions: seq<Action> := [
    Action("home", "Go to Home", Navigate("/")),
    Action("projects", "Go to Projects", Navigate("/projects")),
    Action("stats", "Go to Stats", Navigate("/stats")),
    Action("about", "Go to About", Navigate("/about")),
    Action("links", "Go to Find Me", Navigate("/links")),
    Action(CopyEmailId, "Copy Email", CopyEmail(Email))
  ]

  function ProjectAction(p: Project): Action
  {
    Action("project-" + p.slug, "Project: " + p.title, Navigate("/projects/" + p.slug))
  }

  function ProjectActions(projects: seq<Project>): seq<Action>
  {
    if |projects| == 0 then [] else [ProjectAction(projects[0])] + ProjectActions(projects[1..])
  }

  /** The `actions` array: the fixed actions, then one per project. */
  function Actions(projects: seq<Project>): seq<Action>
  {
    FixedActions + ProjectActions(projects)
  }

  /** Only the copy-email action is identified as `copy-email`, and it copies. */
  ghost predicate CopyEmailIdIsCopy(actions: seq<Action>)
  {
    forall a :: a in actions && a.id == CopyEmailId ==> a.perform.CopyEmail?
  }

  predicate DistinctIds(actions: seq<Action>)
  {
    forall i, j :: 0 <= i < j < |actions| ==> actions[i].id != actions[j].id
  }

  predicate DistinctSlugs(projects: seq<Project>)
  {
    forall i, j :: 0 <= i < j < |projects| ==> projects[i].slug != projects[j].slug
  }

  lemma {:induction false} ProjectActionsSpec(projects: seq<Project>)
    ensures |ProjectActions(projects)| == |projects|
    ensures forall i :: 0 <= i < |projects| ==> ProjectActions(projects)[i] == ProjectAction(projects[i])
  {
    if |projects| > 0 {
      ProjectActionsSpec(projects[1..]);
    }
  }

  /** No fixed action's id has the form `project-<slug>`. */
  lemma FixedIdIsNotProjectId(a: Action, slug: string)
    requires a in FixedActions
    ensures a.id != "project-" + slug
  {
    var pid := "project-" + slug;
    assert pid[..8] == "project-";
    if a.id == "projects" {
      assert a.id[7] != pid[7];
    } else if a.id == CopyEmailId {
      assert a.id[0] != pid[0];
    }
  }

  /** Project ids never clash with `copy-email`, nor with each other for different slugs. */
  lemma ProjectIdSpec(s1: string, s2: string)
    ensures "project-" + s1 != CopyEmailId
    ensures "project-" + s1 == "project-" + s2 ==> s1 == s2
  {
    var p1, p2 := "project-" + s1, "project-" + s2;
    assert p1[0] == 'p';
    if p1 == p2 {
      assert p1[8..] == s1 && p2[8..] == s2;
    }
  }

  /** Where each project's action sits in the list. */
  lemma ActionsLayout(projects: seq<Project>)
    ensures |Actions(projects)| == |FixedActions| + |projects|
    ensures Actions(projects)[..|FixedActions|] == FixedActions
    ensures forall i :: 0 <= i < |projects| ==> Actions(projects)[|FixedActions| + i] == ProjectAction(projects[i])
  {
    ProjectActionsSpec(projects);
  }

  lemma ActionsCopyEmail(projects: seq<Project>)
    ensures CopyEmailIdIsCopy(Actions(projects))
  {
    var acts := Actions(projects);
    var n := |FixedActions|;
    ActionsLayout(projects);
    forall a | a in acts && a.id == CopyEmailId ensures a.perform.CopyEmail? {
      var k :| 0 <= k < |acts| && acts[k] == a;
      if k >= n {
        ProjectIdSpec(projects[k - n].slug, "");
      }
    }
  }

  lemma ActionsDistinct(projects: seq<Project>)
    requires DistinctSlugs(projects)
    ensures DistinctIds(Actions(projects))
  {
    var acts := Actions(projects);
    var n := |FixedActions|;
    ActionsLayout(projects);
    forall i, j | 0 <= i < j < |acts| ensures acts[i].id != acts[j].id {
      if j < n {
      } else if i < n {
        assert acts[i] in FixedActions;
        FixedIdIsNotProjectId(acts[i], projects[j - n].slug);
      } else {
        ProjectIdSpec(projects[i - n].slug, projects[j - n].slug);
      }
    }
  }

  /**
   * The action list is the six fixed actions followed by `project-<slug>`
   * actions labelled `Project: <title>`, one per project in project order;
   * `copy-email` names only the copy action; and ids are distinct when slugs are.
   */
  lemma ActionsSpec(projects: seq<Project>)
    ensures |Actions(projects)| == |FixedActions| + |projects|
    ensures Actions(projects)[..|FixedActions|] == FixedActions
    ensures forall i :: 0 <= i < |projects| ==>
      && Actions(projects)[|FixedActions| + i].id == "project-" + projects[i].slug
      && Actions(projects)[|FixedActions| + i].caption == "Project: " + projects[i].title
    ensures CopyEmailIdIsCopy(Actions(projects))
    ensures DistinctSlugs(projects) ==> DistinctIds(Actions(projects))
  {
    ActionsLayout(projects);
    ActionsCopyEmail(projects);
    if DistinctSlugs(projects) {
      ActionsDistinct(projects);
    }
  }

  // ---------------------------------------------------------------------
  // Filtering
  // ---------------------------------------------------------------------

  /** `toLowerCase` on ASCII letters. */
  function LowerChar(c: char): char
  {
    if 'A' <= c <= 'Z' then (c as int + 32) as char else c
  }

  function Lower(s: string): string
  {
    seq(|s|, i requires 0 <= i < |s| => LowerChar(s[i]))
  }

  /** `hay.includes(needle)`. */
  function Includes(hay: string, needle: string): bool
    decreases |hay|
  {
    if needle <= hay then true
    else if |hay| == 0 then false
    else Includes(hay[1..], needle)
  }

  /** `Includes` finds `needle` exactly when it occurs at some position of `hay`. */
  lemma {:induction false} IncludesSpec(hay: string, needle: string)
    ensures Includes(hay, needle) <==> exists i :: 0 <= i <= |hay| && needle <= hay[i..]
  {
    if needle <= hay {
      assert hay[0..] == hay;
    } else if |hay| > 0 {
      IncludesSpec(hay[1..], needle);
      if exists i :: 0 <= i <= |hay| && needle <= hay[i..] {
        var i :| 0 <= i <= |hay| && needle <= hay[i..];
        assert i > 0;
        assert hay[1..][i - 1..] == hay[i..];
      }
      if Includes(hay[1..], needle) {
        var i :| 0 <= i <= |hay| - 1 && needle <= hay[1..][i..];
        assert hay[1..][i..] == hay[i + 1..];
      }
    }
  }

  /** An action is listed for a query when its lower-cased label contains the lower-cased query. */
  predicate Matches(a: Action, query: string)
  {
    Includes(Lower(a.caption), Lower(query))
  }

  /** `filteredActions`. */
  function Filtered(actions: seq<Action>, query: string): seq<Action>
  {
    if |actions| == 0 then []
    else (if Matches(actions[0], query) then [actions[0]] else []) + Filtered(actions[1..], query)
  }

  /** The filter keeps order: filtering a concatenation filters each part. */
  lemma {:induction false} FilteredAppend(a: seq<Action>, b: seq<Action>, query: string)
    ensures Filtered(a + b, query) == Filtered(a, query) + Filtered(b, query)
  {
    if |a| == 0 {
      assert a + b == b;
    } else {
      assert (a + b)[0] == a[0] && (a + b)[1..] == a[1..] + b;
      FilteredAppend(a[1..], b, query);
    }
  }

  /** The filter keeps exactly the matching actions, and never lengthens the list. */
  lemma {:induction false} FilteredMembers(actions: seq<Action>, query: string)
    ensures forall a :: a in Filtered(actions, query) <==> a in actions && Matches(a, query)
    ensures |Filtered(actions, query)| <= |actions|
  {
    if |actions| > 0 {
      FilteredMembers(actions[1..], query);
      assert actions == [actions[0]] + actions[1..];
    }
  }

  /** An empty query lists every action. */
  lemma {:induction false} FilteredEmptyQuery(actions: seq<Action>)
    ensures Filtered(actions, "") == actions
  {
    if |actions| > 0 {
      assert Lower("") == "";
      assert Matches(actions[0], "");
      FilteredEmptyQuery(actions[1..]);
    }
  }

  lemma LowerIdempotent(s: string)
    ensures Lower(Lower(s)) == Lower(s)
  {
  }

  /** The case of the query does not matter. */
  lemma {:induction false} FilteredIgnoresQueryCase(actions: seq<Action>, query: string)
    ensures Filtered(actions, query) == Filtered(actions, Lower(query))
  {
    LowerIdempotent(query);
    if |actions| > 0 {
      FilteredIgnoresQueryCase(actions[1..], query);
    }
  }

  // ---------------------------------------------------------------------
  // The cursor
  // ---------------------------------------------------------------------

  /**
   * ArrowDown's new `activeIndex` over `n` visible entries: the next entry,
   * wrapping from the last to the first. On an empty list it stays put
   * (the source computes `x % 0` there; see `EmptyListArrowLosesCursor`).
   */
  function NextIndex(i: int, n: int): int
  {
    if n == 0 then i else (i + 1) % n
  }

  /** ArrowUp's new `activeIndex`: the previous entry, wrapping from the first to the last. */
  function PrevIndex(i: int, n: int): int
  {
    if n == 0 then i else (i - 1 + n) % n
  }

  /** The cursor designates one of `n` entries, or is 0 when there are none. */
  predicate CursorOk(i: int, n: int)
  {
    0 <= i && (i < n || i == 0)
  }

  lemma ModInRange(x: int, n: int)
    requires 0 <= x < 2 * n
    ensures x % n == if x < n then x else x - n
  {
    var r := if x < n then x else x - n;
    var q := if x < n then 0 else 1;
    assert x == q * n + r && 0 <= r < n;
  }

  /**
   * Over a non-empty list, ArrowDown and ArrowUp wrap around the ends, stay
   * within the list, and undo each other.
   */
  lemma CursorWraps(i: int, n: int)
    requires 0 <= i < n
    ensures NextIndex(i, n) == if i == n - 1 then 0 else i + 1
    ensures PrevIndex(i, n) == if i == 0 then n - 1 else i - 1
    ensures PrevIndex(NextIndex(i, n), n) == i
    ensures NextIndex(PrevIndex(i, n), n) == i
  {
    ModInRange(i + 1, n);
    ModInRange(i - 1 + n, n);
    var j, k := NextIndex(i, n), PrevIndex(i, n);
    ModInRange(j - 1 + n, n);
    ModInRange(k + 1, n);
  }

  /** Neither arrow key can take the cursor off the list. */
  lemma CursorStaysOk(i: int, n: int)
    requires n >= 0 && CursorOk(i, n)
    ensures CursorOk(NextIndex(i, n), n) && CursorOk(PrevIndex(i, n), n)
  {
    if n > 0 {
      CursorWraps(i, n);
    }
  }

  /** A JavaScript number, as far as the cursor arithmetic of the source needs one. */
  datatype JsNumber = Int(v: int) | NaN

  /** JavaScript `a + k`. */
  function JsAdd(a: JsNumber, k: int): JsNumber
  {
    match a
    case NaN => NaN
    case Int(x) => Int(x + k)
  }

  /** JavaScript `a % n`: NaN for a NaN operand or `n == 0`, else the remainder truncated toward zero. */
  function JsRem(a: JsNumber, n: int): JsNumber
  {
    match a
    case NaN => NaN
    case Int(x) => if n == 0 then NaN else Int(if x >= 0 then x % n else -((-x) % n))
  }

  /** ArrowDown as the source writes it: `(prev + 1) % filteredActions.length`. */
  function ArrowDownAsWritten(prev: JsNumber, n: int): JsNumber
  {
    JsRem(JsAdd(prev, 1), n)
  }

  /** ArrowUp as the source writes it: `(prev - 1 + filteredActions.length) % filteredActions.length`. */
  function ArrowUpAsWritten(prev: JsNumber, n: int): JsNumber
  {
    JsRem(JsAdd(JsAdd(prev, -1), n), n)
  }

  /** `filteredActions[activeIndex]`, `undefined` (here `None`) when there is no such entry. */
  function EntryAt(visible: seq<Action>, index: JsNumber): Option<Action>
  {
    match index
    case NaN => None
    case Int(i) => if 0 <= i < |visible| then Some(visible[i]) else None
  }

  /**
   * As written, an arrow key pressed while no action matches sets
   * `activeIndex` to NaN; Escape then clears the query without resetting it,
   * so every action is listed again but none is highlighted, Enter selects
   * nothing and the arrow keys keep the cursor at NaN.
   */
  lemma EmptyListArrowLosesCursor(actions: seq<Action>)
    requires |actions| > 0
    ensures ArrowDownAsWritten(Int(0), 0) == NaN
    ensures ArrowUpAsWritten(Int(0), 0) == NaN
    ensures EntryAt(Filtered(actions, ""), NaN) == None
    ensures ArrowDownAsWritten(NaN, |actions|) == NaN && ArrowUpAsWritten(NaN, |actions|) == NaN
  {
    FilteredEmptyQuery(actions);
  }

  /** Where the source's arithmetic has a non-empty list, the corrected cursor agrees with it. */
  lemma ArrowAsWrittenAgrees(i: int, n: int)
    requires 0 <= i < n
    ensures ArrowDownAsWritten(Int(i), n) == Int(NextIndex(i, n))
    ensures ArrowUpAsWritten(Int(i), n) == Int(PrevIndex(i, n))
  {
  }

  // ---------------------------------------------------------------------
  // The palette's state
  // ---------------------------------------------------------------------

  /** Cmd+K or Ctrl+K. */
  predicate IsToggleChord(e: KeyEvent)
  {
    (e.metaKey || e.ctrlKey) && e.key == "k"
  }

  class Palette {
    const actions: seq<Action>
    var isOpen: bool
    var query: string
    var activeIndex: int

    /** `filteredActions` for the current query. */
    function Visible(): seq<Action>
      reads this
    {
      Filtered(actions, query)
    }

    /** The cursor designates a listed action whenever one is listed. */
    ghost predicate Valid()
      reads this
    {
      CopyEmailIdIsCopy(actions) && CursorOk(activeIndex, |Visible()|)
    }

    constructor (projects: seq<Project>)
      ensures actions == Actions(projects)
      ensures !isOpen && query == "" && activeIndex == 0
      ensures Valid()
    {
      actions := Actions(projects);
      isOpen := false;
      query := "";
      activeIndex := 0;
      ActionsSpec(projects);
    }

    /** The effect on `isOpen`: opening clears the query and moves the cursor to the top. */
    method ResetOnOpen()
      requires Valid()
      modifies this
      ensures query == "" && activeIndex == 0 && isOpen == old(isOpen)
      ensures Valid()
    {
      query := "";
      activeIndex := 0;
    }

    /** Cmd/Ctrl+K: toggles the palette. */
    method Toggle()
      requires Valid()
      modifies this
      ensures Valid()
      ensures isOpen == !old(isOpen)
      ensures isOpen ==> query == "" && activeIndex == 0
      ensures !isOpen ==> query == old(query) && activeIndex == old(activeIndex)
    {
      isOpen := !isOpen;
      if isOpen {
        ResetOnOpen();
      }
    }

    /** Escape seen by the window listener, or a click on the backdrop: closes the palette. */
    method Close()
      requires Valid()
      modifies this
      ensures Valid()
      ensures !isOpen && query == old(query) && activeIndex == old(activeIndex)
    {
      isOpen := false;
    }

    /** The window's `keydown` listener. */
    method GlobalKeydown(e: KeyEvent)
      requires Valid()
      modifies this
      ensures Valid()
      ensures e.key == "Escape" ==> !isOpen && query == old(query) && activeIndex == old(activeIndex)
      ensures IsToggleChord(e) ==> isOpen == !old(isOpen)
      ensures IsToggleChord(e) && isOpen ==> query == "" && activeIndex == 0
      ensures IsToggleChord(e) && !isOpen ==> query == old(query) && activeIndex == old(activeIndex)
      ensures !IsToggleChord(e) && e.key != "Escape" ==> unchanged(this)
    {
      if IsToggleChord(e) {
        Toggle();
      }
      if e.key == "Escape" {
        Close();
      }
    }

    /** The input's `onChange`: the new query, with the cursor back at the top. */
    method TypeQuery(q: string)
      requires Valid() && isOpen
      modifies this
      ensures Valid()
      ensures query == q && activeIndex == 0 && isOpen
    {
      query := q;
      activeIndex := 0;
    }

    method ArrowDown()
      requires Valid() && isOpen
      modifies this
      ensures Valid()
      ensures activeIndex == NextIndex(old(activeIndex), |Visible()|)
      ensures query == old(query) && isOpen
    {
      CursorStaysOk(activeIndex, |Visible()|);
      activeIndex := NextIndex(activeIndex, |Visible()|);
    }

    method ArrowUp()
      requires Valid() && isOpen
      modifies this
      ensures Valid()
      ensures activeIndex == PrevIndex(old(activeIndex), |Visible()|)
      ensures query == old(query) && isOpen
    {
      CursorStaysOk(activeIndex, |Visible()|);
      activeIndex := PrevIndex(activeIndex, |Visible()|);
    }

    /**
     * Escape in the input: a non-empty query is cleared and the event stops
     * there; with an empty query nothing happens here and the event goes on to
     * the window. Returns whether it goes on.
     */
    method EscapeInInput() returns (propagates: bool)
      requires Valid() && isOpen
      modifies this
      ensures Valid()
      ensures propagates == (old(query) == "")
      ensures query == "" && activeIndex == old(activeIndex) && isOpen
    {
      propagates := query == "";
      if !propagates {
        FilteredMembers(actions, query);
        FilteredEmptyQuery(actions);
        query := "";
      }
    }

    /** `action.perform()`: copying the e-mail address closes the palette itself. */
    method Perform(a: Action)
      requires Valid()
      modifies this
      ensures Valid()
      ensures isOpen == (old(isOpen) && !a.perform.CopyEmail?)
      ensures query == old(query) && activeIndex == old(activeIndex)
    {
      if a.perform.CopyEmail? {
        isOpen := false;
      }
    }

    /**
     * Enter: performs the highlighted action and closes the palette (the
     * explicit close is skipped for `copy-email`, whose effect closes it);
     * with no highlighted action nothing changes.
     */
    method Enter() returns (performed: Option<Effect>)
      requires Valid() && isOpen
      modifies this
      ensures Valid()
      ensures old(activeIndex) < |old(Visible())| ==>
        performed == Some(old(Visible())[old(activeIndex)].perform) && !isOpen
      ensures old(activeIndex) >= |old(Visible())| ==> performed == None && isOpen
      ensures query == old(query) && activeIndex == old(activeIndex)
    {
      var visible := Visible();
      if activeIndex < |visible| {
        var action := visible[activeIndex];
        Perform(action);
        if action.id != CopyEmailId {
          isOpen := false;
        } else {
          FilteredMembers(actions, query);
          assert action in actions;
        }
        performed := Some(action.perform);
      } else {
        performed := None;
      }
    }

    /** Moving the mouse over the `index`-th listed action highlights it. */
    method Hover(index: int)
      requires Valid() && isOpen && 0 <= index < |Visible()|
      modifies this
      ensures Valid()
      ensures activeIndex == index && query == old(query) && isOpen
    {
      activeIndex := index;
    }

    /** Clicking the `index`-th listed action performs it and closes the palette. */
    method Click(index: int) returns (performed: Effect)
      requires Valid() && isOpen && 0 <= index < |Visible()|
      modifies this
      ensures Valid()
      ensures performed == old(Visible())[index].perform && !isOpen
      ensures query == old(query) && activeIndex == old(activeIndex)
    {
      var action := Visible()[index];
      Perform(action);
      isOpen := false;
      performed := action.perform;
    }

    /**
     * A key pressed in the input: the input's handler runs first, then, unless
     * it stopped the event, the window's listener.
     */
    method InputKeydown(e: KeyEvent) returns (performed: Option<Effect>)
      requires Valid() && isOpen
      modifies this
      ensures Valid()
      ensures e.key == "ArrowDown" ==>
        activeIndex == NextIndex(old(activeIndex), |old(Visible())|) && query == old(query) && isOpen
      ensures e.key == "ArrowUp" ==>
        activeIndex == PrevIndex(old(activeIndex), |old(Visible())|) && query == old(query) && isOpen
      ensures e.key == "Escape" ==>
        query == "" && activeIndex == old(activeIndex) && isOpen == (old(query) != "")
      ensures e.key == "Enter" ==> query == old(query) && activeIndex == old(activeIndex)
      ensures e.key == "Enter" && old(activeIndex) < |old(Visible())| ==>
        performed == Some(old(Visible())[old(activeIndex)].perform) && !isOpen
      ensures e.key == "Enter" && old(activeIndex) >= |old(Visible())| ==> performed == None && isOpen
      ensures IsToggleChord(e) ==> !isOpen && query == old(query) && activeIndex == old(activeIndex)
      ensures !IsToggleChord(e) && e.key !in {"ArrowDown", "ArrowUp", "Escape", "Enter"} ==> unchanged(this)
      ensures e.key != "Enter" ==> performed == None
    {
      performed := None;
      var propagates := true;
      if e.key == "ArrowDown" {
        ArrowDown();
      } else if e.key == "ArrowUp" {
        ArrowUp();
      } else if e.key == "Escape" {
        propagates := EscapeInInput();
      } else if e.key == "Enter" {
        performed := Enter();
      }
      if propagates {
        GlobalKeydown(e);
      }
    }
  }
}
