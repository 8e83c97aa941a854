/** The list toggle both selectors use (ui/src/components/SubSelector.tsx:54-57,
    ui/src/components/SourceSelector.tsx:41-44): drop every occurrence of a selected
    value, or append a value that is not selected. */
module Toggle {
  import opened Multisets

  /** `list.filter(v => v !== x)`. */
  function Without(list: seq<string>, x: string): (r: seq<string>)
    ensures forall y :: y in r <==> y in list && y != x
    ensures |r| <= |list|
  {
    if list == [] then []
    else
      var init := list[..|list| - 1];
      var last := list[|list| - 1];
      assert forall i :: 0 <= i < |init| ==> init[i] == list[i];
      Without(init, x) + (if last == x then [] else [last])
  }

  /** `list.includes(x) ? list.filter(v => v !== x) : [...list, x]`. */
  function Toggled(list: seq<string>, x: string): seq<string> {
    if x in list then Without(list, x) else list + [x]
  }

  /** A value the list does not hold is left as it was. */
  lemma {:induction false} WithoutAbsent(list: seq<string>, x: string)
    requires x !in list
    ensures Without(list, x) == list
  {
    if list != [] {
      var init := list[..|list| - 1];
      WithoutAbsent(init, x);
      assert list == init + [list[|list| - 1]];
    }
  }

  /** Filtering keeps the relative order and does not create repeats. */
  lemma {:induction false} WithoutDistinct(list: seq<string>, x: string)
    requires Distinct(list)
    ensures Distinct(Without(list, x))
  {
    if list != [] {
      var init := list[..|list| - 1];
      var last := list[|list| - 1];
      assert forall i :: 0 <= i < |init| ==> init[i] == list[i];
      WithoutDistinct(init, x);
      assert last !in init;
    }
  }

  /** Toggling flips the membership of the toggled value and no other; it keeps a list
      without repeats free of them; the removal takes every occurrence, and an append
      goes at the end. */
  lemma ToggledSpec(list: seq<string>, x: string)
    ensures x in Toggled(list, x) <==> x !in list
    ensures forall y :: y != x ==> (y in Toggled(list, x) <==> y in list)
    ensures x !in list ==> Toggled(list, x) == list + [x]
    ensures Distinct(list) ==> Distinct(Toggled(list, x))
  {
    if Distinct(list) && x in list {
      WithoutDistinct(list, x);
    }
  }

  /** Toggling a value twice, starting from a list without it, restores the list. */
  lemma ToggleTwiceRestores(list: seq<string>, x: string)
    requires x !in list
    ensures Toggled(Toggled(list, x), x) == list
  {
    var t := list + [x];
    assert x in t;
    var init := t[..|t| - 1];
    assert init == list;
    WithoutAbsent(list, x);
  }
}
