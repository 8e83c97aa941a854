/** The keyboard list navigation of ui/src/utils/useKeyNav.tsx: an active index and the
    id of the active item, moved by ArrowUp / ArrowDown, with Meta+Enter and registered
    custom keys acting on the active item, and a click selecting an item directly. The
    callbacks the hook calls are recorded as effects, in call order. */
module KeyNavModel {
  import opened Wrappers
  import opened Slices

  /** A call the handler makes: `onSelect(item, isOpeningLink)`, a custom action with
      the item at the index (undefined past the end) and the index, or scrolling the
      element with that `data-index` into view. */
  datatype Effect<T> =
    | Select(item: T, openLink: bool)
    | Custom(key: string, current: Option<T>, index: int)
    | ScrollTo(index: int)

  /** The hook's state. */
  datatype Nav = Nav(activeIndex: int, activeItemId: Option<string>)

  /** What one event does: the new state, the calls made, and whether the handler
      stopped with a TypeError (the default `getItemId` reads `.id` of the undefined
      value found past either end of the list). */
  datatype Reaction<T> = Reaction(nav: Nav, effects: seq<Effect<T>>, threw: bool)

  const Initial := Nav(-1, None)

  /** `getItemId(item) || null`: an empty id counts as none. */
  function IdOrNull(id: string): (r: Option<string>)
    ensures r.Some? <==> id != ""
    ensures r.Some? ==> r.value == id
  {
    if id == "" then None else Some(id)
  }

  /** The arrow keys' common part once the new index `i` is known: the index is set
      first; the id lookup then fails outside the list, and otherwise the id is set,
      `onSelect(item)` is called and the item is scrolled into view. */
  function MoveTo<T>(nav: Nav, items: seq<T>, idOf: T -> string, hasOnSelect: bool, i: int): Reaction<T> {
    if 0 <= i < |items| then
      Reaction(Nav(i, IdOrNull(idOf(items[i]))),
               (if hasOnSelect then [Select(items[i], false)] else []) + [ScrollTo(i)],
               false)
    else
      Reaction(Nav(i, nav.activeItemId), [], true)
  }

  /** The scroll that ends every handled key when the index is not negative. */
  function Scroll<T>(i: int): seq<Effect<T>> {
    if i >= 0 then [ScrollTo(i)] else []
  }

  /** `handleKeyDown` for a key press with the Meta modifier `meta`; `customKeys` are
      the keys of `customActions`. */
  function HandleKey<T>(nav: Nav, items: seq<T>, idOf: T -> string, hasOnSelect: bool,
                        customKeys: set<string>, key: string, meta: bool): Reaction<T>
  {
    var i := nav.activeIndex;
    if |items| == 0 then Reaction(nav, [], false)
    else if key == "ArrowUp" then MoveTo(nav, items, idOf, hasOnSelect, Max(0, i - 1))
    else if key == "ArrowDown" then MoveTo(nav, items, idOf, hasOnSelect, Min(|items| - 1, i + 1))
    else if key == "Enter" then
      var open: seq<Effect<T>> :=
        if meta && 0 <= i < |items| && hasOnSelect then [Select(items[i], true)] else [];
      Reaction(nav, open + Scroll(i), false)
    else
      var custom: seq<Effect<T>> :=
        if key in customKeys && i >= 0 then [Custom(key, if i < |items| then Some(items[i]) else None, i)] else [];
      Reaction(nav, custom + Scroll(i), false)
  }

  /** `handleItemClick(item, index)`. */
  function HandleClick<T>(item: T, index: int, idOf: T -> string, hasOnSelect: bool): Reaction<T> {
    Reaction(Nav(index, IdOrNull(idOf(item))), if hasOnSelect then [Select(item, false)] else [], false)
  }

  /** The hook's state as a React component holds it. */
  class KeyNav<T> {
    var activeIndex: int
    var activeItemId: Option<string>

    function State(): Nav
      reads this
    {
      Nav(activeIndex, activeItemId)
    }

    /** `useState(-1)` and `useState(null)`. */
    constructor ()
      ensures State() == Initial
    {
      activeIndex := -1;
      activeItemId := None;
    }

    /** The `setActiveIndex` the hook returns. */
    method SetActiveIndex(index: int)
      modifies this
      ensures State() == Nav(index, old(activeItemId))
    {
      activeIndex := index;
    }

    method HandleKeyDown(items: seq<T>, idOf: T -> string, hasOnSelect: bool,
                         customKeys: set<string>, key: string, meta: bool)
      returns (effects: seq<Effect<T>>, threw: bool)
      modifies this
      ensures Reaction(State(), effects, threw) ==
        HandleKey(old(State()), items, idOf, hasOnSelect, customKeys, key, meta)
    {
      effects, threw := [], false;
      if |items| == 0 {
        return;
      }
      var current := activeIndex;
      if key == "ArrowUp" || key == "ArrowDown" {
        current := if key == "ArrowUp" then Max(0, current - 1) else Min(|items| - 1, current + 1);
        activeIndex := current;
        if !(0 <= current < |items|) {
          threw := true;
          return;
        }
        activeItemId := IdOrNull(idOf(items[current]));
        if hasOnSelect && current >= 0 {
          effects := effects + [Select(items[current], false)];
        }
      } else if key == "Enter" {
        if meta && current >= 0 && current < |items| {
          if hasOnSelect {
            effects := effects + [Select(items[current], true)];
          }
        }
      } else if key in customKeys && current >= 0 {
        effects := effects + [Custom(key, if current < |items| then Some(items[current]) else None, current)];
      }
      if current >= 0 {
        effects := effects + [ScrollTo(current)];
      }
    }

    method HandleItemClick(item: T, index: int, idOf: T -> string, hasOnSelect: bool)
      returns (effects: seq<Effect<T>>)
      modifies this
      ensures Reaction(State(), effects, false) == HandleClick(item, index, idOf, hasOnSelect)
    {
      activeIndex := index;
      activeItemId := IdOrNull(idOf(item));
      effects := if hasOnSelect then [Select(item, false)] else [];
    }
  }

  // ---------------------------------------------------------------- laws

  /** The index is either -1 (nothing active) or a position in the list. */
  predicate InRange(nav: Nav, n: nat) {
    -1 <= nav.activeIndex < n
  }

  /** The initial state is in range for a list of any length. */
  lemma InitialInRange(n: nat)
    ensures InRange(Initial, n) && Initial.activeItemId.None?
  {
  }

  /** With an empty list no key does anything. */
  lemma EmptyListIgnoresKeys<T>(nav: Nav, idOf: T -> string, hasOnSelect: bool,
                               customKeys: set<string>, key: string, meta: bool)
    ensures HandleKey(nav, [], idOf, hasOnSelect, customKeys, key, meta) == Reaction(nav, [], false)
  {
  }

  /** ArrowDown from -1 or a position lands on a position: the next one, or the last. The
      active id is that item's id, `onSelect` receives that item (when given), and the
      item is scrolled into view. */
  lemma ArrowDownLands<T>(nav: Nav, items: seq<T>, idOf: T -> string, hasOnSelect: bool,
                          customKeys: set<string>, meta: bool)
    requires |items| > 0 && nav.activeIndex >= -1
    ensures var r := HandleKey(nav, items, idOf, hasOnSelect, customKeys, "ArrowDown", meta);
      var i := r.nav.activeIndex;
      && !r.threw
      && 0 <= i < |items|
      && (i == nav.activeIndex + 1 || i == |items| - 1)
      && r.nav.activeItemId == IdOrNull(idOf(items[i]))
      && (Select(items[i], false) in r.effects <==> hasOnSelect)
      && r.effects[|r.effects| - 1] == ScrollTo(i)
  {
    var r := HandleKey(nav, items, idOf, hasOnSelect, customKeys, "ArrowDown", meta);
    var i := r.nav.activeIndex;
    assert r.effects == (if hasOnSelect then [Select(items[i], false)] else []) + [ScrollTo(i)];
  }

  /** ArrowUp from a position, or from one past the end, lands on the previous position
      (or stays on the first), with the same id, select and scroll effects. */
  lemma ArrowUpLands<T>(nav: Nav, items: seq<T>, idOf: T -> string, hasOnSelect: bool,
                        customKeys: set<string>, meta: bool)
    requires |items| > 0 && nav.activeIndex <= |items|
    ensures var r := HandleKey(nav, items, idOf, hasOnSelect, customKeys, "ArrowUp", meta);
      var i := r.nav.activeIndex;
      && !r.threw
      && 0 <= i < |items|
      && (i == nav.activeIndex - 1 || i == 0)
      && r.nav.activeItemId == IdOrNull(idOf(items[i]))
      && (Select(items[i], false) in r.effects <==> hasOnSelect)
      && r.effects[|r.effects| - 1] == ScrollTo(i)
  {
    var r := HandleKey(nav, items, idOf, hasOnSelect, customKeys, "ArrowUp", meta);
    var i := r.nav.activeIndex;
    assert r.effects == (if hasOnSelect then [Select(items[i], false)] else []) + [ScrollTo(i)];
  }

  /** The handler fails only on an arrow key whose new index is outside the list, which
      needs an index already outside -1 .. length - 1. */
  lemma ThrowsOnlyOutOfRange<T>(nav: Nav, items: seq<T>, idOf: T -> string, hasOnSelect: bool,
                                customKeys: set<string>, key: string, meta: bool)
    ensures var r := HandleKey(nav, items, idOf, hasOnSelect, customKeys, key, meta);
      r.threw <==>
        && |items| > 0
        && ((key == "ArrowUp" && nav.activeIndex > |items|)
            || (key == "ArrowDown" && nav.activeIndex < -1))
  {
  }

  /** Meta+Enter never moves the index or changes the id, and it opens the active item
      exactly when the index is a position of the list and `onSelect` is given. */
  lemma MetaEnterOpens<T>(nav: Nav, items: seq<T>, idOf: T -> string, hasOnSelect: bool,
                          customKeys: set<string>, meta: bool)
    requires |items| > 0
    ensures var r := HandleKey(nav, items, idOf, hasOnSelect, customKeys, "Enter", meta);
      && r.nav == nav && !r.threw
      && ((exists x :: Select(x, true) in r.effects) <==>
            meta && 0 <= nav.activeIndex < |items| && hasOnSelect)
      && (meta && 0 <= nav.activeIndex < |items| && hasOnSelect ==>
            r.effects[0] == Select(items[nav.activeIndex], true))
  {
    var r := HandleKey(nav, items, idOf, hasOnSelect, customKeys, "Enter", meta);
    if meta && 0 <= nav.activeIndex < |items| && hasOnSelect {
      assert Select(items[nav.activeIndex], true) in r.effects;
    }
  }

  /** Any other key leaves the state alone, and runs its custom action exactly when one
      is registered for it and the index is not negative. */
  lemma CustomKeyRuns<T>(nav: Nav, items: seq<T>, idOf: T -> string, hasOnSelect: bool,
                         customKeys: set<string>, key: string, meta: bool)
    requires |items| > 0 && key != "ArrowUp" && key != "ArrowDown" && key != "Enter"
    ensures var r := HandleKey(nav, items, idOf, hasOnSelect, customKeys, key, meta);
      && r.nav == nav && !r.threw
      && ((exists c, i :: Custom(key, c, i) in r.effects) <==> key in customKeys && nav.activeIndex >= 0)
      && (forall x, b :: Select(x, b) !in r.effects)
  {
    var r := HandleKey(nav, items, idOf, hasOnSelect, customKeys, key, meta);
    var i := nav.activeIndex;
    if key in customKeys && i >= 0 {
      assert Custom(key, if i < |items| then Some(items[i]) else None, i) in r.effects;
    }
  }

  /** A click makes the clicked item active. This only unfolds `HandleClick`, as a
      reading aid next to the key laws. */
  lemma ClickSelects<T>(item: T, index: int, idOf: T -> string, hasOnSelect: bool)
    ensures var r := HandleClick(item, index, idOf, hasOnSelect);
      && r.nav.activeIndex == index
      && r.nav.activeItemId == IdOrNull(idOf(item))
      && (r.effects == [Select(item, false)] <==> hasOnSelect)
      && (r.effects == [] <==> !hasOnSelect)
  {
  }

  /** Keys and clicks on a list position keep the index in range, so from the initial
      state the handler never fails while the list keeps its length. */
  lemma {:induction false} KeysKeepInRange<T>(nav: Nav, items: seq<T>, idOf: T -> string, hasOnSelect: bool,
                                             customKeys: set<string>, key: string, meta: bool)
    requires InRange(nav, |items|)
    ensures var r := HandleKey(nav, items, idOf, hasOnSelect, customKeys, key, meta);
      InRange(r.nav, |items|) && !r.threw
  {
    if |items| > 0 && key == "ArrowDown" {
      ArrowDownLands(nav, items, idOf, hasOnSelect, customKeys, meta);
    } else if |items| > 0 && key == "ArrowUp" {
      ArrowUpLands(nav, items, idOf, hasOnSelect, customKeys, meta);
    }
  }
}
