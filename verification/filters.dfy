/**
  Selection rules of the filter sidebar. The selection (category, subcategory,
  tags) is owned by the caller; the sidebar only reports what a click asks for.
 */
module Filters {
  import opened Common

  /**
    What a click on `clicked` asks for, given the current selection: clicking the
    selected item clears it, clicking anything else selects it.
   */
  function Toggle(selected: Option<string>, clicked: string): (r: Selection)
    ensures r.Clear? <==> selected == Some(clicked)
    ensures r.Select? ==> r.value == clicked
  {
    if selected == Some(clicked) then Clear else Select(clicked)
  }

  /** The selection prop a caller passes back after receiving `e` (`null` becomes absent). */
  function Stored(e: Selection): (r: Option<string>)
    ensures e.Select? <==> r.Some?
    ensures e.Select? ==> r.value == e.value
  {
    match e
    case Clear => None
    case Select(v) => Some(v)
  }

  /** One click, with its outcome fed back as the new selection. */
  function Click(selected: Option<string>, clicked: string): Option<string> {
    Stored(Toggle(selected, clicked))
  }

  /** After one click the clicked item is selected exactly when it was not, and nothing else is. */
  lemma ClickFlips(selected: Option<string>, clicked: string)
    ensures Click(selected, clicked) == Some(clicked) <==> selected != Some(clicked)
    ensures Click(selected, clicked) == None <==> selected == Some(clicked)
  {
  }

  /**
    Clicking the same item twice: select then deselect returns to no selection;
    starting from that item selected, deselect then select returns to it.
   */
  lemma ClickTwice(selected: Option<string>, clicked: string)
    ensures Click(Click(selected, clicked), clicked)
         == if selected == Some(clicked) then selected else None
  {
  }

  /**
    `hasActiveFilters`: a truthy category or subcategory, or some tag. Absent
    props and empty strings are not filters.
   */
  function HasActiveFilters(category: Option<string>, subcategory: Option<string>, tags: seq<string>): (r: bool)
    ensures Truthy(category) || Truthy(subcategory) || tags != [] ==> r
    ensures r ==> Truthy(category) || Truthy(subcategory) || tags != []
    ensures tags != [] ==> r
    ensures r ==> category.Some? || subcategory.Some? || tags != []
    ensures category in {None, Some("")} && subcategory in {None, Some("")} ==> (r <==> tags != [])
  {
    Truthy(category) || Truthy(subcategory) || |tags| > 0
  }

  /**
    Clicking a non-empty unselected category makes a filter active; clicking
    the selected one, with no subcategory and no tag, leaves none.
   */
  lemma ClickActivates(selected: Option<string>, clicked: string, subcategory: Option<string>, tags: seq<string>)
    ensures clicked != "" && selected != Some(clicked) ==> HasActiveFilters(Click(selected, clicked), subcategory, tags)
    ensures selected == Some(clicked) && !Truthy(subcategory) && tags == [] ==> !HasActiveFilters(Click(selected, clicked), subcategory, tags)
  {
  }

  /** The caller's toggle of a reported tag (external to the sidebar): remove it if present, else add it. */
  function ToggleTag(selected: seq<string>, tag: string): (r: seq<string>)
    ensures tag in r <==> tag !in selected
    ensures forall t :: t != tag ==> (t in r <==> t in selected)
  {
    if tag in selected then Remove(selected, tag) else selected + [tag]
  }

  function Remove(s: seq<string>, x: string): (r: seq<string>)
    ensures x !in r
    ensures forall t :: t != x ==> (t in r <==> t in s)
  {
    if s == [] then []
    else if s[0] == x then Remove(s[1..], x)
    else [s[0]] + Remove(s[1..], x)
  }

  /** The caller's tag selection after receiving each reported tag in turn. */
  function ToggleTags(selected: seq<string>, reported: seq<string>): seq<string>
    decreases |reported|
  {
    if reported == [] then selected else ToggleTags(ToggleTag(selected, reported[0]), reported[1..])
  }
}
