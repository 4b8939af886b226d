/**
  The stand-alone category item: one category and, recursively, everything
  beneath it. Unlike the sidebar's own renderer it is told whether it is
  selected (`isSelected`) instead of comparing names, hands that same flag to
  nested categories, highlights nothing, and runs onMobileClose after every
  click.
 */
module CategoryItem {
  import opened Common
  import opened CategoryTree
  import opened Controls
  import Urls
  import Filters
  import Sidebar

  /** The props of one category item other than the category itself. */
  datatype Props = Props(
    isSelected: bool,
    selectedSubcategory: Option<string>,
    onCategoryChange: bool,
    onSubcategoryChange: bool,
    onMobileClose: bool,
    baseUrl: Option<string>,
    encode: Urls.Encoder)

  function BaseUrl(p: Props): string {
    p.baseUrl.OrDefault(Urls.DefaultBaseUrl)
  }

  function CreateCategoryUrl(p: Props, category: string, subcategory: Option<string>): Option<string> {
    Urls.CreateCategoryUrl(p.encode, p.onCategoryChange, BaseUrl(p), category, subcategory)
  }

  /** What a click causes: the value passed to the category or subcategory callback, and whether onMobileClose runs. */
  datatype ClickEffect = ClickEffect(emitted: Option<Selection>, mobileClosed: bool)

  /** `handleCategoryClick`: `null` when selected, else the name; then onMobileClose. */
  function HandleCategoryClick(p: Props, name: string): (r: ClickEffect)
    ensures r.emitted.Some? <==> p.onCategoryChange
    ensures r.emitted.Some? ==> (r.emitted.value == Clear <==> p.isSelected)
    ensures r.emitted.Some? && r.emitted.value.Select? ==> r.emitted.value.value == name
    ensures r.mobileClosed <==> p.onMobileClose
  {
    ClickEffect(if p.onCategoryChange then Some(if p.isSelected then Clear else Select(name)) else None,
                p.onMobileClose)
  }

  /** `handleSubcategoryClick`: the subcategory toggled against selectedSubcategory; then onMobileClose. */
  function HandleSubcategoryClick(p: Props, sub: string): (r: ClickEffect)
    ensures r.emitted.Some? <==> p.onSubcategoryChange
    ensures r.emitted.Some? ==> (r.emitted.value == Clear <==> p.selectedSubcategory == Some(sub))
    ensures r.emitted.Some? && r.emitted.value.Select? ==> r.emitted.value.value == sub
    ensures r.mobileClosed <==> p.onMobileClose
  {
    ClickEffect(if p.onSubcategoryChange then Some(Filters.Toggle(p.selectedSubcategory, sub)) else None,
                p.onMobileClose)
  }

  /** A link's own click handler is onMobileClose. */
  function HandleLinkClick(p: Props): (r: ClickEffect)
    ensures r.emitted.None?
    ensures r.mobileClosed <==> p.onMobileClose
  {
    ClickEffect(None, p.onMobileClose)
  }

  /**
    `isSubSelected`: computed for each string subcategory, though no markup uses
    it; it needs the item selected and `sub` the selected subcategory.
   */
  function IsSubSelected(p: Props, sub: string): (r: bool)
    ensures r ==> p.isSelected && Truthy(p.selectedSubcategory) == (sub != "")
    ensures r <==> p.isSelected && p.selectedSubcategory == Some(sub)
  {
    p.isSelected && p.selectedSubcategory == Some(sub)
  }

  /** The category's control: a button emitting what a click emits, or a link to the category URL. */
  function CategoryControl(p: Props, name: string): (c: Control)
    ensures c.kind == CategoryKind && c.text == name && !c.highlighted
    ensures c.action.Button? <==> p.onCategoryChange
    ensures c.action.Button? ==> Some(c.action.emit) == HandleCategoryClick(p, name).emitted
    ensures c.action.Link? ==> c.action.href == Urls.CategoryUrl(p.encode, BaseUrl(p), name, None)
  {
    Control(CategoryKind, name, false,
            if p.onCategoryChange then Button(if p.isSelected then Clear else Select(name))
            else Link(Href(CreateCategoryUrl(p, name, None))))
  }

  /**
    A string subcategory's control. As in the sidebar, a link's URL carries the
    parent's name and the subcategory, and falls back to '#' when
    onCategoryChange is supplied.
   */
  function SubcategoryControl(p: Props, parent: string, sub: string): (c: Control)
    ensures c.kind == SubcategoryKind && c.text == sub && !c.highlighted
    ensures c.action.Button? <==> p.onSubcategoryChange
    ensures c.action.Button? ==> Some(c.action.emit) == HandleSubcategoryClick(p, sub).emitted
    ensures c.action.Link? && !p.onCategoryChange ==>
              c.action.href == Urls.CategoryUrl(p.encode, BaseUrl(p), parent, Some(sub))
    ensures c.action.Link? && p.onCategoryChange ==> c.action.href == "#"
  {
    Control(SubcategoryKind, sub, false,
            if p.onSubcategoryChange then Button(Filters.Toggle(p.selectedSubcategory, sub))
            else Link(Href(CreateCategoryUrl(p, parent, Some(sub)))))
  }

  /** Nested category items get the same props, `isSelected` included: one style for the whole tree. */
  function ItemStyle(p: Props): Style {
    Style(name => CategoryControl(p, name), (parent, sub) => SubcategoryControl(p, parent, sub))
  }

  function Render(p: Props, c: Category): Node {
    Controls.Render(ItemStyle(p), c)
  }

  /** A category without subcategories is exactly one control, with no expand trigger. */
  lemma LeafIsOneControl(p: Props, c: Category)
    requires !HasSubcategories(c)
    ensures Widgets(Render(p, c)) == [Ctl(CategoryControl(p, c.name))]
    ensures Count(Widgets(Render(p, c)), IsTrigger) == 0
  {
    RenderShape(ItemStyle(p), c);
  }

  /** A category with subcategories has one control per name of its tree and one trigger per expandable category. */
  lemma ItemShape(p: Props, c: Category)
    ensures Count(Widgets(Render(p, c)), IsControl) == |Entries(c)|
    ensures Count(Widgets(Render(p, c)), IsTrigger) == Count(Entries(c), IsExpandable)
  {
    RenderShape(ItemStyle(p), c);
  }

  /** What a category button of the item emits: `null` when the item is selected, else its own name. */
  predicate FollowsIsSelected(p: Props, w: Widget) {
    w.Ctl? && w.control.kind == CategoryKind && w.control.action.Button? ==>
      w.control.action.emit == if p.isSelected then Clear else Select(w.control.text)
  }

  /**
    The selection flag is inherited: every category button of the tree, nested
    ones included, emits `null` when the top item is selected and its own name
    otherwise.
   */
  lemma InheritedSelection(p: Props, c: Category)
    ensures forall w :: w in Widgets(Render(p, c)) ==> FollowsIsSelected(p, w)
  {
    forall e ensures FollowsIsSelected(p, Ctl(EntryControl(ItemStyle(p), e))) {
      match e
      case CategoryEntry(n, _) =>
        assert EntryControl(ItemStyle(p), e) == CategoryControl(p, n);
      case SubcategoryEntry(parent, t) =>
        assert EntryControl(ItemStyle(p), e) == SubcategoryControl(p, parent, t);
    }
    RenderEvery(ItemStyle(p), c, w => FollowsIsSelected(p, w));
  }

  /** The item never highlights anything, `isSubSelected` notwithstanding. */
  lemma NothingHighlighted(p: Props, c: Category)
    ensures Count(Widgets(Render(p, c)), IsHighlighted) == 0
  {
    forall e ensures IsHighlighted(Ctl(EntryControl(ItemStyle(p), e))) == NoEntry(e) {
      match e
      case CategoryEntry(n, _) =>
        assert EntryControl(ItemStyle(p), e) == CategoryControl(p, n);
      case SubcategoryEntry(parent, t) =>
        assert EntryControl(ItemStyle(p), e) == SubcategoryControl(p, parent, t);
    }
    RenderCount(ItemStyle(p), c, IsHighlighted, NoEntry);
    CountNone(Entries(c), NoEntry);
  }

  /**
    A comparison mapping, not a call the sidebar makes (it renders its own
    markup): the item props that describe the same selection, callbacks and
    base path as the sidebar's props for one top-level category, so that the
    two renderers can be set side by side.
   */
  function ForSidebar(sp: Sidebar.Props, name: string, onMobileClose: bool): (p: Props)
    ensures p.isSelected <==> sp.selectedCategory == Some(name)
    ensures p.selectedSubcategory == sp.selectedSubcategory
    ensures p.onCategoryChange == sp.onCategoryChange && p.onSubcategoryChange == sp.onSubcategoryChange
    ensures p.baseUrl == sp.baseUrl && p.encode == sp.encode
  {
    Props(sp.selectedCategory == Some(name), sp.selectedSubcategory, sp.onCategoryChange,
          sp.onSubcategoryChange, onMobileClose, sp.baseUrl, sp.encode)
  }

  /**
    For a direct string subcategory the item's `isSubSelected` is the sidebar's
    highlight rule: parent selected and subcategory selected.
   */
  lemma SubSelectedIsSidebarHighlight(sp: Sidebar.Props, parent: string, sub: string, onMobileClose: bool)
    ensures IsSubSelected(ForSidebar(sp, parent, onMobileClose), sub)
        <==> Sidebar.SubcategoryControl(sp, parent, sub).highlighted
  {
  }

  /**
    On a one-level category the item and the sidebar render the same controls
    with the same actions, in the same order; only the highlight differs.
   */
  lemma AgreesWithSidebarOnFlat(sp: Sidebar.Props, c: Category, onMobileClose: bool)
    requires IsFlat(c)
    ensures PlainAll(Widgets(Render(ForSidebar(sp, c.name, onMobileClose), c)))
         == PlainAll(Widgets(Controls.Render(Sidebar.SidebarStyle(sp), c)))
  {
    var p := ForSidebar(sp, c.name, onMobileClose);
    FlatEntries(c);
    forall e | e in Entries(c)
      ensures Plain(Ctl(EntryControl(ItemStyle(p), e))) == Plain(Ctl(EntryControl(Sidebar.SidebarStyle(sp), e)))
    {
      match e
      case CategoryEntry(n, _) =>
        assert EntryControl(ItemStyle(p), e) == CategoryControl(p, n);
        assert EntryControl(Sidebar.SidebarStyle(sp), e) == Sidebar.CategoryControl(sp, n);
      case SubcategoryEntry(parent, t) =>
        assert EntryControl(ItemStyle(p), e) == SubcategoryControl(p, parent, t);
        assert EntryControl(Sidebar.SidebarStyle(sp), e) == Sidebar.SubcategoryControl(sp, parent, t);
    }
    RenderAgree(ItemStyle(p), Sidebar.SidebarStyle(sp), c);
  }

  /**
    Deeper down the two disagree: with Fiction selected and a nested Fantasy
    category under it, the item's Fantasy button asks to clear the selection
    while the sidebar's asks to select Fantasy.
   */
  lemma NestedSelectionDiffers(sp: Sidebar.Props, onMobileClose: bool)
    requires sp.selectedCategory == Some("Fiction") && sp.onCategoryChange
    ensures var p := ForSidebar(sp, "Fiction", onMobileClose);
      && CategoryControl(p, "Fantasy").action == Button(Clear)
      && Sidebar.CategoryControl(sp, "Fantasy").action == Button(Select("Fantasy"))
  {
    assert "Fantasy" != "Fiction";
  }
}
