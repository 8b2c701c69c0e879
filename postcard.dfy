/**
 * The per-card interaction state machine of PostCard
 * (15-project/src/components/PostCard.tsx): menu visibility, the favorite
 * flag and the card's own copy of the post text, the five handlers that change
 * them, and the outside-click listener that follows the menu's visibility.
 *
 * The host dialogs are inputs: the answer of `prompt` is an `Option<string>`
 * (None for a cancelled prompt), the answer of `window.confirm` a `bool`, and
 * the click target is reduced to "inside the menu region or not".
 */
module PostCards {
  import opened Wrappers

  /** The three pieces of state a card owns, as a value. */
  datatype CardState = CardState(menuVisible: bool, isFavorite: bool, postContent: string)

  /** State right after the card is first rendered with `content`. */
  function InitialState(content: string): (s: CardState)
  {
    CardState(false, false, content)
  }

  /** The menu's `div` (and so `menuRef.current`) exists exactly while the menu is rendered. */
  predicate MenuMounted(s: CardState)
  {
    s.menuVisible
  }

  /** `toggleMenu`. */
  function Toggled(s: CardState): (t: CardState)
  {
    s.(menuVisible := !s.menuVisible)
  }

  /** `handleClickOutside`: closes the menu only if its region exists and the target lies outside it. */
  function ClickedOutside(s: CardState, targetInsideMenu: bool): (t: CardState)
  {
    if MenuMounted(s) && !targetInsideMenu then s.(menuVisible := false) else s
  }

  /** JavaScript truthiness of the value `prompt` returns: not null and not the empty string. */
  predicate Truthy(answer: Option<string>)
  {
    answer.Some? && answer.value != ""
  }

  /** `handleEdit`, given the answer of the prompt. */
  function Edited(s: CardState, answer: Option<string>): (t: CardState)
  {
    if Truthy(answer) then s.(postContent := answer.value) else s
  }

  /** `handleFavorite`. */
  function Favorited(s: CardState): (t: CardState)
  {
    s.(isFavorite := !s.isFavorite)
  }

  /** The favorite indicator paragraph's text. */
  function FavoriteIndicator(isFavorite: bool): (text: string)
    ensures text != "" <==> isFavorite
  {
    if isFavorite then "⭐ В избранном" else ""
  }

  lemma ToggledInvolution(s: CardState)
    ensures Toggled(Toggled(s)) == s
    ensures Toggled(s).isFavorite == s.isFavorite && Toggled(s).postContent == s.postContent
  {
  }

  lemma FavoritedInvolution(s: CardState)
    ensures Favorited(Favorited(s)) == s
    ensures Favorited(s).menuVisible == s.menuVisible && Favorited(s).postContent == s.postContent
  {
  }

  /** A user interaction with one card; `Delete` does not change the card's own state. */
  datatype Event =
    | Toggle
    | MouseDown(targetInsideMenu: bool)
    | Edit(answer: Option<string>)
    | Delete(confirmed: bool)
    | Favorite

  function Step(s: CardState, e: Event): (t: CardState)
  {
    match e
    case Toggle => Toggled(s)
    case MouseDown(inside) => ClickedOutside(s, inside)
    case Edit(answer) => Edited(s, answer)
    case Delete(_) => s
    case Favorite => Favorited(s)
  }

  /** The state after handling `evs` in order, starting from `s`. */
  function Run(s: CardState, evs: seq<Event>): (t: CardState)
    decreases |evs|
  {
    if evs == [] then s else Step(Run(s, evs[..|evs| - 1]), evs[|evs| - 1])
  }

  predicate IsOutsideClick(e: Event)
  {
    e.MouseDown? && !e.targetInsideMenu
  }

  predicate HasOutsideClick(evs: seq<Event>)
  {
    exists i :: 0 <= i < |evs| && IsOutsideClick(evs[i])
  }

  /** The events after the last outside click (all of `evs` if there is none). */
  function SinceLastOutsideClick(evs: seq<Event>): (since: seq<Event>)
    decreases |evs|
  {
    if evs == [] then []
    else if IsOutsideClick(evs[|evs| - 1]) then []
    else SinceLastOutsideClick(evs[..|evs| - 1]) + [evs[|evs| - 1]]
  }

  function ToggleCount(evs: seq<Event>): (n: nat)
    decreases |evs|
  {
    if evs == [] then 0
    else ToggleCount(evs[..|evs| - 1]) + (if evs[|evs| - 1].Toggle? then 1 else 0)
  }

  /**
   * Menu visibility is the parity of the toggles since the last outside click,
   * counted from closed once such a click happened and from the starting
   * visibility otherwise.
   */
  lemma HasOutsideClickSnoc(pre: seq<Event>, e: Event)
    ensures HasOutsideClick(pre + [e]) <==> HasOutsideClick(pre) || IsOutsideClick(e)
  {
    var evs := pre + [e];
    if HasOutsideClick(evs) && !IsOutsideClick(e) {
      var i :| 0 <= i < |evs| && IsOutsideClick(evs[i]);
      assert i < |pre| && pre[i] == evs[i];
    }
    if HasOutsideClick(pre) {
      var i :| 0 <= i < |pre| && IsOutsideClick(pre[i]);
      assert evs[i] == pre[i];
    }
    if IsOutsideClick(e) {
      assert IsOutsideClick(evs[|evs| - 1]);
    }
  }

  lemma {:induction false} MenuParity(s: CardState, evs: seq<Event>)
    ensures Run(s, evs).menuVisible ==
            ((if HasOutsideClick(evs) then false else s.menuVisible) != (ToggleCount(SinceLastOutsideClick(evs)) % 2 == 1))
  {
    if evs != [] {
      var pre, e := evs[..|evs| - 1], evs[|evs| - 1];
      assert evs == pre + [e];
      MenuParity(s, pre);
      HasOutsideClickSnoc(pre, e);
      assert Run(s, evs) == Step(Run(s, pre), e);
      if !IsOutsideClick(e) {
        var since := SinceLastOutsideClick(pre);
        assert SinceLastOutsideClick(evs) == since + [e];
        assert (since + [e])[..|since + [e]| - 1] == since;
        assert ToggleCount(since + [e]) == ToggleCount(since) + (if e.Toggle? then 1 else 0);
      }
    }
  }

  /** From a fresh card, the menu is open exactly when an odd number of toggles followed the last outside click. */
  lemma MenuParityFromInitial(content: string, evs: seq<Event>)
    ensures Run(InitialState(content), evs).menuVisible == (ToggleCount(SinceLastOutsideClick(evs)) % 2 == 1)
  {
    MenuParity(InitialState(content), evs);
  }

  /**
   * One mouse-down dispatched to every mounted card, `inside[i]` telling whether
   * the target lies in card i's menu region: each card reacts on its own state only.
   */
  function DispatchMouseDown(cards: seq<CardState>, inside: seq<bool>): (r: seq<CardState>)
    requires |inside| == |cards|
    ensures |r| == |cards|
    ensures forall i :: 0 <= i < |r| ==>
              r[i].menuVisible == (cards[i].menuVisible && inside[i]) &&
              r[i].isFavorite == cards[i].isFavorite && r[i].postContent == cards[i].postContent
  {
    seq(|cards|, i requires 0 <= i < |cards| => ClickedOutside(cards[i], inside[i]))
  }

  /** A card: its props `id` and `title`, and the state it owns. */
  class PostCard {
    const id: int
    const title: string
    var menuVisible: bool
    var isFavorite: bool
    var postContent: string

    /** The mousedown listener of this card is registered on the document. */
    ghost var listenerAttached: bool
    /** The value of `menuVisible` the listener effect last ran with. */
    ghost var effectMenuVisible: bool
    /** The card has been committed at least once and not torn down. */
    ghost var mounted: bool
    /** How many times the effect body has run. */
    ghost var effectRuns: nat

    /** An attached listener always belongs to the last effect run, and only a mounted card has one. */
    ghost predicate Valid()
      reads this
    {
      (mounted ==> listenerAttached == effectMenuVisible) && (!mounted ==> !listenerAttached)
    }

    function State(): (s: CardState)
      reads this
    {
      CardState(menuVisible, isFavorite, postContent)
    }

    constructor (id: int, title: string, content: string)
      ensures this.id == id && this.title == title
      ensures !menuVisible && !isFavorite && postContent == content
      ensures State() == InitialState(content)
      ensures Valid() && !mounted && !listenerAttached && effectRuns == 0
    {
      this.id := id;
      this.title := title;
      menuVisible := false;
      isFavorite := false;
      postContent := content;
      listenerAttached := false;
      effectMenuVisible := false;
      mounted := false;
      effectRuns := 0;
    }

    method ToggleMenu()
      modifies this`menuVisible
      ensures menuVisible == !old(menuVisible)
      ensures isFavorite == old(isFavorite) && postContent == old(postContent)
      ensures State() == Toggled(old(State()))
    {
      menuVisible := !menuVisible;
    }

    method HandleClickOutside(targetInsideMenu: bool)
      modifies this`menuVisible
      ensures menuVisible == (old(menuVisible) && targetInsideMenu)
      ensures isFavorite == old(isFavorite) && postContent == old(postContent)
      ensures State() == ClickedOutside(old(State()), targetInsideMenu)
    {
      if MenuMounted(State()) && !targetInsideMenu {
        menuVisible := false;
      }
    }

    /**
     * React's commit of the listener effect, whose dependency is `menuVisible`:
     * when the card is first mounted or the dependency changed, the previous
     * run's cleanup detaches the listener and the effect body runs; otherwise
     * nothing runs. The body attaches the handler when the menu is visible. Its
     * other branch removes the handler of the current render, which is a fresh
     * closure that was never added, so that branch detaches nothing: only the
     * cleanup takes the attached listener off.
     */
    method CommitListenerEffect()
      requires Valid()
      modifies this`listenerAttached, this`effectMenuVisible, this`mounted, this`effectRuns
      ensures Valid() && mounted
      ensures listenerAttached == menuVisible
      ensures effectMenuVisible == menuVisible
      ensures effectRuns == old(effectRuns) + if !old(mounted) || menuVisible != old(effectMenuVisible) then 1 else 0
    {
      if !mounted || menuVisible != effectMenuVisible {
        if mounted {
          listenerAttached := false;
        }
        if menuVisible {
          listenerAttached := true;
        }
        effectMenuVisible := menuVisible;
        mounted := true;
        effectRuns := effectRuns + 1;
      }
    }

    /** Teardown of the card: the effect's cleanup detaches the listener whatever the menu's state. */
    method Unmount()
      modifies this`listenerAttached, this`mounted
      ensures Valid() && !mounted && !listenerAttached
      ensures State() == old(State())
    {
      listenerAttached := false;
      mounted := false;
    }

    /** `handleEdit`; `answer` is what the prompt, seeded with `postContent`, returned. */
    method HandleEdit(answer: Option<string>)
      modifies this`postContent
      ensures postContent == if Truthy(answer) then answer.value else old(postContent)
      ensures menuVisible == old(menuVisible) && isFavorite == old(isFavorite)
      ensures State() == Edited(old(State()), answer)
    {
      if Truthy(answer) {
        postContent := answer.value;
      }
    }

    /**
     * `handleDelete`; `confirmed` is the answer of the confirmation dialog.
     * The result is the id `onDelete` is called with, or None when it is not called.
     * The card's own state is left alone (nothing is modified).
     */
    method HandleDelete(confirmed: bool) returns (deleteRequest: Option<int>)
      ensures confirmed ==> deleteRequest == Some(id)
      ensures !confirmed ==> deleteRequest == None
    {
      if confirmed {
        deleteRequest := Some(id);
      } else {
        deleteRequest := None;
      }
    }

    method HandleFavorite()
      modifies this`isFavorite
      ensures isFavorite == !old(isFavorite)
      ensures menuVisible == old(menuVisible) && postContent == old(postContent)
      ensures State() == Favorited(old(State()))
    {
      isFavorite := !isFavorite;
    }

    /** The indicator text this card renders. */
    function IndicatorText(): (text: string)
      reads this
      ensures text == "" <==> !isFavorite
    {
      FavoriteIndicator(isFavorite)
    }
  }
}
