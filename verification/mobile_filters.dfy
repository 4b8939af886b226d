/**
  The mobile filter drawer: a "Filters" button carrying the number of active
  filters, and a drawer holding a full sidebar whose callbacks are the
  drawer's own pass-through handlers. The drawer's open flag starts false.
 */
module MobileFilters {
  import opened Common
  import opened CategoryTree
  import opened Controls
  import Filters
  import Sidebar
  import Urls

  datatype Props = Props(
    categories: seq<Category>,
    tags: seq<string>,
    selectedCategory: Option<string>,
    selectedSubcategory: Option<string>,
    selectedTags: Option<seq<string>>,
    onCategoryChange: bool,
    onSubcategoryChange: bool,
    onTagToggle: bool,
    onClearFilters: bool)

  /**
    `activeFilterCount`: one for a non-empty category, one for a non-empty
    subcategory, and one per selected tag (none when the tags are absent).
   */
  function ActiveFilterCount(p: Props): (n: nat)
    ensures n == 0 <==> !Filters.HasActiveFilters(p.selectedCategory, p.selectedSubcategory, p.selectedTags.OrDefault([]))
    ensures |p.selectedTags.OrDefault([])| <= n <= |p.selectedTags.OrDefault([])| + 2
    ensures p.selectedTags.None? ==> n <= 2
  {
    (if Truthy(p.selectedCategory) then 1 else 0)
    + (if Truthy(p.selectedSubcategory) then 1 else 0)
    + |p.selectedTags.OrDefault([])|
  }

  /** Whether the count badge on the "Filters" button is shown: for a positive count. */
  function ShowsCountBadge(p: Props): (r: bool)
    ensures r <==> Filters.HasActiveFilters(p.selectedCategory, p.selectedSubcategory, p.selectedTags.OrDefault([]))
    ensures r ==> Truthy(p.selectedCategory) || Truthy(p.selectedSubcategory) || p.selectedTags.Some?
  {
    ActiveFilterCount(p) > 0
  }

  /** `handleCategoryChange`: the value goes unchanged to onCategoryChange, or nowhere. */
  function HandleCategoryChange(p: Props, v: Selection): (r: Option<Selection>)
    ensures r.Some? <==> p.onCategoryChange
    ensures r.Some? ==> r.value == v
  {
    if p.onCategoryChange then Some(v) else None
  }

  /** `handleSubcategoryChange`: the value goes unchanged to onSubcategoryChange, or nowhere. */
  function HandleSubcategoryChange(p: Props, v: Selection): (r: Option<Selection>)
    ensures r.Some? <==> p.onSubcategoryChange
    ensures r.Some? ==> r.value == v
  {
    if p.onSubcategoryChange then Some(v) else None
  }

  /** `handleTagToggle`: the tag goes unchanged to onTagToggle, or nowhere. */
  function HandleTagToggle(p: Props, tag: string): (r: Option<string>)
    ensures r.Some? <==> p.onTagToggle
    ensures r.Some? ==> r.value == tag
  {
    if p.onTagToggle then Some(tag) else None
  }

  /** `handleClearFilters`: whether onClearFilters is called. */
  function HandleClearFilters(p: Props): (called: bool)
    ensures called <==> p.onClearFilters
  {
    p.onClearFilters
  }

  /**
    The sidebar inside the drawer: the selection unchanged, every callback
    supplied (the drawer's handlers exist whether or not the caller's do), and
    the default base URL.
   */
  function InnerProps(p: Props, enc: Urls.Encoder): (sp: Sidebar.Props)
    ensures sp.categories == p.categories && sp.tags == p.tags
    ensures sp.selectedCategory == p.selectedCategory && sp.selectedSubcategory == p.selectedSubcategory
    ensures sp.selectedTags == p.selectedTags
    ensures sp.onCategoryChange && sp.onSubcategoryChange && sp.onTagToggle && sp.onClearFilters
    ensures sp.baseUrl.None?
  {
    Sidebar.Props(p.categories, p.tags, p.selectedCategory, p.selectedSubcategory, p.selectedTags,
                  true, true, true, true, None, enc)
  }

  /** The badge count and the inner sidebar's "Clear all" agree: both appear exactly when a filter is active. */
  lemma ClearAllIffCount(p: Props, enc: Urls.Encoder)
    ensures Sidebar.OffersClearAll(InnerProps(p, enc)) <==> ShowsCountBadge(p)
  {
  }

  /**
    The count adds up one per filter: from the empty selection it is zero, and
    selecting a truthy category or subcategory where there was none, or adding
    one more tag, raises it by exactly one.
   */
  lemma ActiveFilterCountSteps(p: Props, name: string, tag: string)
    ensures ActiveFilterCount(p.(selectedCategory := None, selectedSubcategory := None, selectedTags := None)) == 0
    ensures !Truthy(p.selectedCategory) && name != "" ==>
              ActiveFilterCount(p.(selectedCategory := Some(name))) == ActiveFilterCount(p) + 1
    ensures !Truthy(p.selectedSubcategory) && name != "" ==>
              ActiveFilterCount(p.(selectedSubcategory := Some(name))) == ActiveFilterCount(p) + 1
    ensures ActiveFilterCount(p.(selectedTags := Some(p.selectedTags.OrDefault([]) + [tag]))) == ActiveFilterCount(p) + 1
    ensures ActiveFilterCount(p.(selectedCategory := None)) == ActiveFilterCount(p.(selectedCategory := Some("")))
  {
  }

  /** The badge examples: nothing selected, a category, a category with two tags, and empty strings. */
  lemma CountExamples(p: Props)
    ensures ActiveFilterCount(p.(selectedCategory := None, selectedSubcategory := None, selectedTags := None)) == 0
    ensures ActiveFilterCount(p.(selectedCategory := Some("Fiction"), selectedSubcategory := None, selectedTags := Some([]))) == 1
    ensures ActiveFilterCount(p.(selectedCategory := Some("Fiction"), selectedSubcategory := Some("Fantasy"),
                                 selectedTags := Some(["Bestseller", "Classic"]))) == 4
    ensures !ShowsCountBadge(p.(selectedCategory := Some(""), selectedSubcategory := Some(""), selectedTags := Some([])))
  {
  }

  /**
    Whatever the caller supplies, the drawer's sidebar shows buttons only: no
    category, subcategory or tag is ever a link.
   */
  lemma InnerSidebarHasNoLinks(p: Props, enc: Urls.Encoder, c: Category, tag: string)
    ensures Count(Widgets(Controls.Render(Sidebar.SidebarStyle(InnerProps(p, enc)), c)), IsLink) == 0
    ensures Sidebar.TagBadge(InnerProps(p, enc), tag).action.Report?
  {
    Sidebar.NoLinksInCallbackMode(InnerProps(p, enc), c);
  }

  /**
    A category click inside the drawer reaches the caller exactly when
    onCategoryChange is supplied, with the sidebar's toggle of the clicked name.
   */
  lemma CategoryClickThroughDrawer(p: Props, enc: Urls.Encoder, name: string)
    ensures var inner := Sidebar.HandleCategoryClick(InnerProps(p, enc), name);
      && inner.Some?
      && HandleCategoryChange(p, inner.value) == (if p.onCategoryChange then Some(Filters.Toggle(p.selectedCategory, name)) else None)
  {
  }

  /** The same for a subcategory click. */
  lemma SubcategoryClickThroughDrawer(p: Props, enc: Urls.Encoder, sub: string)
    ensures var inner := Sidebar.HandleSubcategoryClick(InnerProps(p, enc), sub);
      && inner.Some?
      && HandleSubcategoryChange(p, inner.value) == (if p.onSubcategoryChange then Some(Filters.Toggle(p.selectedSubcategory, sub)) else None)
  {
  }

  /**
    "Clear all" inside the drawer: the inner sidebar offers it exactly when the
    count badge shows, its handler always reports (the drawer supplies one), and
    the report reaches the caller exactly when onClearFilters is supplied.
   */
  lemma ClearAllThroughDrawer(p: Props, enc: Urls.Encoder, s: Sidebar.ViewState)
    ensures Sidebar.OffersClearAll(InnerProps(p, enc)) <==> ShowsCountBadge(p)
    ensures var inner := Sidebar.HandleClearFilters(InnerProps(p, enc), s);
      && inner.reported.Some?
      && inner.after == Sidebar.CloseOnMobile(s)
      && (HandleClearFilters(p) <==> p.onClearFilters)
  {
    ClearAllIffCount(p, enc);
  }

  /** The onTagToggle calls the caller receives for the tags the inner sidebar reports, in order. */
  function ForwardTags(p: Props, reported: seq<string>): (r: seq<string>)
    ensures p.onTagToggle ==> r == reported
    ensures !p.onTagToggle ==> r == []
    decreases |reported|
  {
    if reported == [] then []
    else Sidebar.Reports(HandleTagToggle(p, reported[0])) + ForwardTags(p, reported[1..])
  }

  /**
    As written, one click on a tag button inside the drawer reaches the caller
    twice, since the inner sidebar reports it twice; a caller that toggles on
    each report ends where it started.
   */
  lemma TagToggleThroughDrawerAsWritten(p: Props, enc: Urls.Encoder, s: Sidebar.ViewState, tag: string, selected: seq<string>)
    ensures Sidebar.TagButtonReportsAsWritten(InnerProps(p, enc), s, tag) == [tag, tag]
    ensures ForwardTags(p, Sidebar.TagButtonReportsAsWritten(InnerProps(p, enc), s, tag))
         == if p.onTagToggle then [tag, tag] else []
    ensures p.onTagToggle ==>
      (tag in Filters.ToggleTags(selected, ForwardTags(p, Sidebar.TagButtonReportsAsWritten(InnerProps(p, enc), s, tag)))
       <==> tag in selected)
  {
    Sidebar.TagClickLostAsWritten(InnerProps(p, enc), s, tag, selected);
  }

  /** Corrected: one click reaches the caller once, exactly when onTagToggle is supplied, and flips the tag. */
  lemma TagToggleThroughDrawer(p: Props, enc: Urls.Encoder, s: Sidebar.ViewState, tag: string, selected: seq<string>)
    ensures ForwardTags(p, Sidebar.TagButtonReports(InnerProps(p, enc), s, tag))
         == if p.onTagToggle then [tag] else []
    ensures p.onTagToggle ==>
      (tag in Filters.ToggleTags(selected, ForwardTags(p, Sidebar.TagButtonReports(InnerProps(p, enc), s, tag)))
       <==> tag !in selected)
  {
    Sidebar.TagClickToggles(InnerProps(p, enc), s, tag, selected);
  }

  // ---------------------------------------------------------------------------
  // The drawer's open flag
  // ---------------------------------------------------------------------------

  /** The sheet asking to open or close, or one of the drawer's handlers running. */
  datatype DrawerEvent =
    | OpenChange(open: bool)
    | CategoryChange(category: Selection)
    | SubcategoryChange(subcategory: Selection)
    | TagToggle(tag: string)
    | ClearFilters

  /** As written: only the sheet's own open-change sets the flag; the handlers leave it alone. */
  function DrawerStepAsWritten(open: bool, e: DrawerEvent): (r: bool)
    ensures e.OpenChange? ==> r == e.open
    ensures !e.OpenChange? ==> r == open
  {
    if e.OpenChange? then e.open else open
  }

  /** As intended by the handlers' own comment: every filter action inside the drawer closes it. */
  function DrawerStep(open: bool, e: DrawerEvent): (r: bool)
    ensures e.OpenChange? ==> r == e.open
    ensures !e.OpenChange? ==> !r
  {
    if e.OpenChange? then e.open else false
  }

  function DrawerRunAsWritten(open: bool, events: seq<DrawerEvent>): bool
    decreases |events|
  {
    if events == [] then open else DrawerRunAsWritten(DrawerStepAsWritten(open, events[0]), events[1..])
  }

  function DrawerRun(open: bool, events: seq<DrawerEvent>): bool
    decreases |events|
  {
    if events == [] then open else DrawerRun(DrawerStep(open, events[0]), events[1..])
  }

  /** The drawer starts closed. */
  const DrawerInitial: bool := false

  /** As written, opening the drawer and choosing a category leaves it open. */
  lemma DrawerStaysOpenAsWritten()
    ensures DrawerRunAsWritten(DrawerInitial, [OpenChange(true), CategoryChange(Select("Fiction"))])
  {
    var es := [OpenChange(true), CategoryChange(Select("Fiction"))];
    assert es[1..] == [CategoryChange(Select("Fiction"))];
    assert es[1..][1..] == [];
  }

  /** As written, no run of filter actions ever changes the flag: an open drawer stays open. */
  lemma {:induction false} DrawerIgnoresActionsAsWritten(open: bool, events: seq<DrawerEvent>)
    requires forall i :: 0 <= i < |events| ==> !events[i].OpenChange?
    decreases |events|
    ensures DrawerRunAsWritten(open, events) == open
  {
    if events != [] {
      DrawerIgnoresActionsAsWritten(DrawerStepAsWritten(open, events[0]), events[1..]);
    }
  }

  /** Corrected: a run whose last event is a filter action leaves the drawer closed. */
  lemma {:induction false} DrawerClosesAfterAction(open: bool, events: seq<DrawerEvent>)
    requires events != [] && !events[|events| - 1].OpenChange?
    decreases |events|
    ensures !DrawerRun(open, events)
  {
    if |events| > 1 {
      assert events[1..][|events[1..]| - 1] == events[|events| - 1];
      DrawerClosesAfterAction(DrawerStep(open, events[0]), events[1..]);
    }
  }

  /** The correction changes nothing for runs of open-change requests alone. */
  lemma {:induction false} DrawerAgreesOnOpenChanges(open: bool, events: seq<DrawerEvent>)
    requires forall i :: 0 <= i < |events| ==> events[i].OpenChange?
    decreases |events|
    ensures DrawerRun(open, events) == DrawerRunAsWritten(open, events)
  {
    if events != [] {
      DrawerAgreesOnOpenChanges(DrawerStep(open, events[0]), events[1..]);
    }
  }
}
