/**
  The filter sidebar: a recursive category list, a tag list, a "Clear all"
  action, and a responsive layout that is an inline panel on desktop and a sheet
  with a floating trigger on mobile. Selection is owned by the caller and passed
  in as props; callbacks that are supplied switch the matching controls from
  links to buttons.
 */
module Sidebar {
  import opened Common
  import opened CategoryTree
  import opened Controls
  import Urls
  import Filters
  import TagList
  import MobileDetection

  /** The component's props; `None` is an omitted optional prop, a `false` callback one not supplied. */
  datatype Props = Props(
    categories: seq<Category>,
    tags: seq<string>,
    selectedCategory: Option<string>,
    selectedSubcategory: Option<string>,
    selectedTags: Option<seq<string>>,
    onCategoryChange: bool,
    onSubcategoryChange: bool,
    onTagToggle: bool,
    onClearFilters: bool,
    baseUrl: Option<string>,
    encode: Urls.Encoder)

  function SelectedTags(p: Props): seq<string> {
    p.selectedTags.OrDefault([])
  }

  function BaseUrl(p: Props): string {
    p.baseUrl.OrDefault(Urls.DefaultBaseUrl)
  }

  predicate HasActiveFilters(p: Props) {
    Filters.HasActiveFilters(p.selectedCategory, p.selectedSubcategory, SelectedTags(p))
  }

  /** Whether "Clear all" is offered: only with onClearFilters, and then exactly when some filter is active. */
  function OffersClearAll(p: Props): (r: bool)
    ensures r ==> p.onClearFilters
    ensures p.onClearFilters ==> (r <==> Filters.HasActiveFilters(p.selectedCategory, p.selectedSubcategory, SelectedTags(p)))
    ensures r ==> Truthy(p.selectedCategory) || Truthy(p.selectedSubcategory) || SelectedTags(p) != []
  {
    HasActiveFilters(p) && p.onClearFilters
  }

  /** The clear-all scenarios of the sidebar's tests. */
  lemma ClearAllExamples(p: Props)
    requires p.onClearFilters
    ensures OffersClearAll(p.(selectedCategory := Some("Fiction"), selectedSubcategory := Some("Science Fiction"), selectedTags := Some(["Bestseller"])))
    ensures !OffersClearAll(p.(selectedCategory := Some(""), selectedSubcategory := Some(""), selectedTags := Some([])))
    ensures !OffersClearAll(p.(selectedCategory := None, selectedSubcategory := None, selectedTags := None))
  {
  }

  /** Without onClearFilters there is no "Clear all", whatever the selection. */
  lemma NoClearAllWithoutCallback(p: Props)
    requires !p.onClearFilters
    ensures !OffersClearAll(p)
  {
  }

  function CreateCategoryUrl(p: Props, category: string, subcategory: Option<string>): Option<string> {
    Urls.CreateCategoryUrl(p.encode, p.onCategoryChange, BaseUrl(p), category, subcategory)
  }

  // ---------------------------------------------------------------------------
  // Click handlers
  // ---------------------------------------------------------------------------

  /** `handleCategoryClick`: the toggled category goes to onCategoryChange, if supplied. */
  function HandleCategoryClick(p: Props, category: string): (r: Option<Selection>)
    ensures r.Some? <==> p.onCategoryChange
    ensures r.Some? ==> (r.value == Clear <==> p.selectedCategory == Some(category))
    ensures r.Some? && r.value.Select? ==> r.value.value == category
  {
    if p.onCategoryChange then Some(Filters.Toggle(p.selectedCategory, category)) else None
  }

  /** `handleSubcategoryClick`: the toggled subcategory goes to onSubcategoryChange, if supplied. */
  function HandleSubcategoryClick(p: Props, subcategory: string): (r: Option<Selection>)
    ensures r.Some? <==> p.onSubcategoryChange
    ensures r.Some? ==> (r.value == Clear <==> p.selectedSubcategory == Some(subcategory))
    ensures r.Some? && r.value.Select? ==> r.value.value == subcategory
  {
    if p.onSubcategoryChange then Some(Filters.Toggle(p.selectedSubcategory, subcategory)) else None
  }

  /** What a handler does: the value reported to its callback, if any, and the view state after it. */
  datatype Handled<T> = Handled(reported: Option<T>, after: ViewState)

  /** Closing the sheet after a selection, as the handlers do: only in the mobile layout. */
  function CloseOnMobile(s: ViewState): (r: ViewState)
    ensures r.isMobile == s.isMobile
    ensures r.sheetOpen <==> s.sheetOpen && !s.isMobile
  {
    if s.isMobile then s.(sheetOpen := false) else s
  }

  /** `handleTagClick`: the tag goes unchanged to onTagToggle, if supplied; then the sheet closes on mobile. */
  function HandleTagClick(p: Props, s: ViewState, tag: string): (r: Handled<string>)
    ensures r.reported.Some? <==> p.onTagToggle
    ensures r.reported.Some? ==> r.reported.value == tag
    ensures r.after == Step(s, TagClick)
  {
    Handled(if p.onTagToggle then Some(tag) else None, CloseOnMobile(s))
  }

  /** `handleClearFilters`: onClearFilters runs, if supplied; then the sheet closes on mobile. */
  function HandleClearFilters(p: Props, s: ViewState): (r: Handled<()>)
    ensures r.reported.Some? <==> p.onClearFilters
    ensures r.after == Step(s, ClearFilters)
  {
    Handled(if p.onClearFilters then Some(()) else None, CloseOnMobile(s))
  }

  /** Clicking the selected category asks for no category; feeding that back and clicking again selects it. */
  lemma CategoryClickRoundTrip(p: Props, category: string)
    requires p.onCategoryChange
    requires p.selectedCategory != Some(category)
    ensures HandleCategoryClick(p, category) == Some(Select(category))
    ensures var p' := p.(selectedCategory := Filters.Stored(HandleCategoryClick(p, category).value));
            HandleCategoryClick(p', category) == Some(Clear)
  {
  }

  // ---------------------------------------------------------------------------
  // The category list
  // ---------------------------------------------------------------------------

  /** A category's own control: a toggle button in callback mode, else a link to its URL. */
  function CategoryControl(p: Props, name: string): (c: Control)
    ensures c.kind == CategoryKind && c.text == name
    ensures c.highlighted <==> p.selectedCategory == Some(name)
    ensures c.action.Button? <==> p.onCategoryChange
    ensures c.action.Button? ==> Some(c.action.emit) == HandleCategoryClick(p, name)
    ensures c.action.Link? ==> c.action.href == Urls.CategoryUrl(p.encode, BaseUrl(p), name, None)
  {
    Control(CategoryKind, name, p.selectedCategory == Some(name),
            if p.onCategoryChange then Button(Filters.Toggle(p.selectedCategory, name))
            else Link(Href(CreateCategoryUrl(p, name, None))))
  }

  /**
    A string subcategory's control. Its kind (button or link) follows
    onSubcategoryChange, but its URL is built by createCategoryUrl, which is
    absent whenever onCategoryChange is supplied.
   */
  function SubcategoryControl(p: Props, parent: string, sub: string): (c: Control)
    ensures c.kind == SubcategoryKind && c.text == sub
    ensures c.highlighted <==> p.selectedCategory == Some(parent) && p.selectedSubcategory == Some(sub)
    ensures c.action.Button? <==> p.onSubcategoryChange
    ensures c.action.Button? ==> Some(c.action.emit) == HandleSubcategoryClick(p, sub)
    ensures c.action.Link? && !p.onCategoryChange ==>
              c.action.href == Urls.CategoryUrl(p.encode, BaseUrl(p), parent, Some(sub))
    ensures c.action.Link? && p.onCategoryChange ==> c.action.href == "#"
  {
    Control(SubcategoryKind, sub, p.selectedCategory == Some(parent) && p.selectedSubcategory == Some(sub),
            if p.onSubcategoryChange then Button(Filters.Toggle(p.selectedSubcategory, sub))
            else Link(Href(CreateCategoryUrl(p, parent, Some(sub)))))
  }

  /**
    The sidebar's style for `renderCategoryItem`: selection and highlight are
    decided by name at every depth, and a string subcategory is highlighted
    under the category it sits in.
   */
  function SidebarStyle(p: Props): Style {
    Style(name => CategoryControl(p, name), (parent, sub) => SubcategoryControl(p, parent, sub))
  }

  /**
    The category list: `renderCategoryItem` applied to each top-level category,
    in order; read in document order it is the preorder listing of all the
    categories, each entry rendered on its own.
   */
  function RenderCategories(p: Props): (ns: seq<Node>)
    ensures |ns| == |p.categories|
    ensures forall i :: 0 <= i < |ns| ==> ns[i] == Render(SidebarStyle(p), p.categories[i])
    ensures WidgetsOf(ns) == Concat(ForestEntries(p.categories), Renderer(SidebarStyle(p)))
  {
    RenderAllFollowsEntries(SidebarStyle(p), p.categories);
    RenderAll(SidebarStyle(p), p.categories)
  }

  /** Whether the control an entry renders to is highlighted. */
  predicate EntryHighlighted(p: Props, e: Entry) {
    match e
    case CategoryEntry(n, _) => p.selectedCategory == Some(n)
    case SubcategoryEntry(parent, t) => p.selectedCategory == Some(parent) && p.selectedSubcategory == Some(t)
  }

  /** Whether the control an entry renders to is a link whose href fell back to '#'. */
  predicate EntryDeadLink(p: Props, e: Entry) {
    e.SubcategoryEntry? && p.onCategoryChange && !p.onSubcategoryChange
  }

  /** Whether the control an entry renders to is a link. */
  predicate EntryLink(p: Props, e: Entry) {
    if e.CategoryEntry? then !p.onCategoryChange else !p.onSubcategoryChange
  }

  /** The control of each entry, by the sidebar's style. */
  lemma SidebarEntryControl(p: Props, e: Entry)
    ensures var c := EntryControl(SidebarStyle(p), e);
      && (IsHighlighted(Ctl(c)) <==> EntryHighlighted(p, e))
      && (IsDeadLink(Ctl(c)) <==> EntryDeadLink(p, e))
      && (IsLink(Ctl(c)) <==> EntryLink(p, e))
  {
    match e
    case CategoryEntry(n, _) =>
      var c := CategoryControl(p, n);
      assert EntryControl(SidebarStyle(p), e) == c;
      if c.action.Link? {
        assert |c.action.href| > 1;
      }
    case SubcategoryEntry(parent, t) =>
      assert EntryControl(SidebarStyle(p), e) == SubcategoryControl(p, parent, t);
  }

  /** A highlight exactly on the selected entries: a string subcategory only under its selected parent. */
  lemma HighlightCount(p: Props, c: Category)
    ensures Count(Widgets(Render(SidebarStyle(p), c)), IsHighlighted) == Count(Entries(c), e => EntryHighlighted(p, e))
  {
    forall e ensures IsHighlighted(Ctl(EntryControl(SidebarStyle(p), e))) == EntryHighlighted(p, e) {
      SidebarEntryControl(p, e);
    }
    RenderCount(SidebarStyle(p), c, IsHighlighted, e => EntryHighlighted(p, e));
  }

  /**
    A '#' link exactly for each string subcategory when categories are in
    callback mode but subcategories are not, and none otherwise.
   */
  lemma DeadLinkCount(p: Props, c: Category)
    ensures Count(Widgets(Render(SidebarStyle(p), c)), IsDeadLink)
         == if p.onCategoryChange && !p.onSubcategoryChange then Count(Entries(c), IsStringSub) else 0
  {
    forall e ensures IsDeadLink(Ctl(EntryControl(SidebarStyle(p), e))) == EntryDeadLink(p, e) {
      SidebarEntryControl(p, e);
    }
    if p.onCategoryChange && !p.onSubcategoryChange {
      RenderCount(SidebarStyle(p), c, IsDeadLink, IsStringSub);
    } else {
      RenderCount(SidebarStyle(p), c, IsDeadLink, NoEntry);
      CountNone(Entries(c), NoEntry);
    }
  }

  /** Links exactly where a callback is missing. */
  lemma LinkCount(p: Props, c: Category)
    ensures Count(Widgets(Render(SidebarStyle(p), c)), IsLink) == Count(Entries(c), e => EntryLink(p, e))
  {
    forall e ensures IsLink(Ctl(EntryControl(SidebarStyle(p), e))) == EntryLink(p, e) {
      SidebarEntryControl(p, e);
    }
    RenderCount(SidebarStyle(p), c, IsLink, e => EntryLink(p, e));
  }

  /** With both category callbacks supplied the tree holds no link at all, so no '#' either. */
  lemma NoLinksInCallbackMode(p: Props, c: Category)
    requires p.onCategoryChange && p.onSubcategoryChange
    ensures Count(Widgets(Render(SidebarStyle(p), c)), IsLink) == 0
  {
    forall e ensures IsLink(Ctl(EntryControl(SidebarStyle(p), e))) == NoEntry(e) {
      SidebarEntryControl(p, e);
    }
    RenderCount(SidebarStyle(p), c, IsLink, NoEntry);
    CountNone(Entries(c), NoEntry);
  }

  /** Without a selected category nothing in the tree is highlighted. */
  lemma NoHighlightWithoutSelection(p: Props, c: Category)
    requires p.selectedCategory.None?
    ensures Count(Widgets(Render(SidebarStyle(p), c)), IsHighlighted) == 0
  {
    HighlightCount(p, c);
    CountNone(Entries(c), e => EntryHighlighted(p, e));
  }

  // ---------------------------------------------------------------------------
  // Tags
  // ---------------------------------------------------------------------------

  /** A tag badge of the sidebar: the same styling and link rule as the tag list. */
  function TagBadge(p: Props, tag: string): (b: TagList.Badge)
    ensures b.tag == tag
    ensures b.variant == TagList.Default <==> tag in SelectedTags(p)
    ensures b.action.Report? <==> p.onTagToggle
    ensures b.action.Report? ==> b.action.tag == tag
    ensures b.action.Navigate? ==> b.action.href == Urls.TagUrl(p.encode, BaseUrl(p), tag)
  {
    TagList.BadgeFor(p.encode, SelectedTags(p), p.onTagToggle, BaseUrl(p), tag)
  }

  function Reports(r: Option<string>): seq<string> {
    if r.Some? then [r.value] else []
  }

  /**
    The onTagToggle calls from one click on a tag's button in callback mode, as
    written: the button's handler runs, then the click bubbles to the enclosing
    Badge, whose own onClick runs the same handler again.
   */
  function TagButtonReportsAsWritten(p: Props, s: ViewState, tag: string): (r: seq<string>)
    ensures p.onTagToggle ==> r == [tag, tag]
    ensures !p.onTagToggle ==> r == []
  {
    var first := HandleTagClick(p, s, tag);
    Reports(first.reported) + Reports(HandleTagClick(p, first.after, tag).reported)
  }

  /** The intended onTagToggle calls from one click on a tag's button: the handler runs once. */
  function TagButtonReports(p: Props, s: ViewState, tag: string): (r: seq<string>)
    ensures p.onTagToggle ==> r == [tag]
    ensures !p.onTagToggle ==> r == []
  {
    Reports(HandleTagClick(p, s, tag).reported)
  }

  /** As written, a caller that toggles on each report ends where it started: the click is lost. */
  lemma TagClickLostAsWritten(p: Props, s: ViewState, tag: string, selected: seq<string>)
    requires p.onTagToggle
    ensures tag in Filters.ToggleTags(selected, TagButtonReportsAsWritten(p, s, tag)) <==> tag in selected
  {
    var once := Filters.ToggleTag(selected, tag);
    assert [tag, tag][1..] == [tag];
    assert Filters.ToggleTags(selected, [tag, tag]) == Filters.ToggleTags(once, [tag]);
    assert [tag][1..] == [];
    assert Filters.ToggleTags(once, [tag]) == Filters.ToggleTag(once, tag);
  }

  /** The intended behaviour: one click adds an unselected tag and removes a selected one. */
  lemma TagClickToggles(p: Props, s: ViewState, tag: string, selected: seq<string>)
    requires p.onTagToggle
    ensures tag in Filters.ToggleTags(selected, TagButtonReports(p, s, tag)) <==> tag !in selected
  {
    assert [tag][1..] == [];
    assert Filters.ToggleTags(selected, [tag]) == Filters.ToggleTag(selected, tag);
  }

  // ---------------------------------------------------------------------------
  // Responsive layout
  // ---------------------------------------------------------------------------

  const MobileBreakpoint: int := 768

  datatype ViewState = ViewState(isMobile: bool, sheetOpen: bool)

  /** Both flags start false, before the mount-time width check. */
  const Initial: ViewState := ViewState(false, false)

  /**
    A window resize (the mount-time check is one too), the sheet asking to open
    or close, or a click: on a category, subcategory or tag control, or on
    "Clear all".
   */
  datatype Event =
    | Resize(width: int)
    | SheetOpenChange(open: bool)
    | CategoryClick
    | SubcategoryClick
    | TagClick
    | ClearFilters

  predicate IsClick(e: Event) {
    e.CategoryClick? || e.SubcategoryClick? || e.TagClick? || e.ClearFilters?
  }

  /**
    One transition. Clicks close the sheet only in the mobile layout. The sheet
    and its trigger exist only in the mobile layout, so open-change events have
    no effect on desktop.
   */
  function Step(s: ViewState, e: Event): (r: ViewState)
    ensures e.Resize? ==> (r.isMobile <==> e.width < MobileBreakpoint) && r.sheetOpen == s.sheetOpen
    ensures !e.Resize? ==> r.isMobile == s.isMobile
    ensures r.sheetOpen && !s.sheetOpen ==> e == SheetOpenChange(true) && s.isMobile
    ensures IsClick(e) && s.isMobile ==> !r.sheetOpen
    ensures !s.isMobile && !e.Resize? ==> r == s
    ensures e.SheetOpenChange? && s.isMobile ==> r == s.(sheetOpen := e.open)
  {
    match e
    case Resize(w) => s.(isMobile := w < MobileBreakpoint)
    case SheetOpenChange(o) => if s.isMobile then s.(sheetOpen := o) else s
    case _ => CloseOnMobile(s)
  }

  function Run(s: ViewState, events: seq<Event>): ViewState
    decreases |events|
  {
    if events == [] then s else Run(Step(s, events[0]), events[1..])
  }

  datatype Layout = SheetLayout(open: bool) | InlineAside

  /** The mobile layout is a sheet with a floating trigger; the desktop one an inline aside. */
  function LayoutOf(s: ViewState): (l: Layout)
    ensures l.SheetLayout? <==> s.isMobile
    ensures l.SheetLayout? ==> l.open == s.sheetOpen
  {
    if s.isMobile then SheetLayout(s.sheetOpen) else InlineAside
  }

  /** The width of the last resize among the events, if any. */
  function LastWidth(events: seq<Event>): Option<int>
    decreases |events|
  {
    if events == [] then None
    else match LastWidth(events[1..])
      case Some(w) => Some(w)
      case None => if events[0].Resize? then Some(events[0].width) else None
  }

  /** The layout follows the last width seen; before any width is seen it is the one the run started with. */
  lemma {:induction false} RunFollowsLastWidth(s: ViewState, events: seq<Event>)
    decreases |events|
    ensures LastWidth(events).None? ==> Run(s, events).isMobile == s.isMobile
    ensures LastWidth(events).Some? ==> (Run(s, events).isMobile <==> LastWidth(events).value < MobileBreakpoint)
  {
    if events != [] {
      RunFollowsLastWidth(Step(s, events[0]), events[1..]);
    }
  }

  predicate NeverNarrow(events: seq<Event>) {
    forall i :: 0 <= i < |events| && events[i].Resize? ==> events[i].width >= MobileBreakpoint
  }

  /** A window that is never narrower than the breakpoint keeps the initial state: inline, sheet closed. */
  lemma {:induction false} DesktopStaysInline(events: seq<Event>)
    requires NeverNarrow(events)
    decreases |events|
    ensures Run(Initial, events) == Initial
    ensures LayoutOf(Run(Initial, events)) == InlineAside
  {
    if events != [] {
      assert Step(Initial, events[0]) == Initial;
      assert NeverNarrow(events[1..]) by {
        forall i | 0 <= i < |events[1..]| && events[1..][i].Resize?
          ensures events[1..][i].width >= MobileBreakpoint
        {
          assert events[1..][i] == events[i + 1];
        }
      }
      DesktopStaysInline(events[1..]);
    }
  }

  function HookEvents(events: seq<Event>): (r: seq<MobileDetection.Event>)
    requires forall i :: 0 <= i < |events| ==> events[i].Resize?
    ensures |r| == |events|
    ensures forall i :: 0 <= i < |r| ==> r[i] == MobileDetection.Resize(events[i].width)
  {
    if events == [] then [] else [MobileDetection.Resize(events[0].width)] + HookEvents(events[1..])
  }

  /** On the same resizes, the sidebar's own width check agrees with the detection hook at its default breakpoint. */
  lemma {:induction false} AgreesWithDetection(s: ViewState, d: MobileDetection.Detection, events: seq<Event>)
    requires d.breakpoint == MobileDetection.DefaultBreakpoint
    requires s.isMobile == d.isMobile
    requires forall i :: 0 <= i < |events| ==> events[i].Resize?
    decreases |events|
    ensures Run(s, events).isMobile == MobileDetection.Run(d, HookEvents(events)).isMobile
  {
    if events != [] {
      var hs := HookEvents(events);
      assert hs[0] == MobileDetection.Resize(events[0].width);
      assert hs[1..] == HookEvents(events[1..]);
      AgreesWithDetection(Step(s, events[0]), MobileDetection.Step(d, hs[0]), events[1..]);
    }
  }

  /** The sidebar's own mobile-layout test scenarios. */
  lemma LayoutExamples()
    ensures LayoutOf(Step(Initial, Resize(500))) == SheetLayout(false)
    ensures LayoutOf(Step(Initial, Resize(600))) == SheetLayout(false)
    ensures LayoutOf(Step(Initial, Resize(1024))) == InlineAside
    ensures LayoutOf(Step(Initial, Resize(768))) == InlineAside
  {
  }
}
