# Filter sidebar selection and URL logic

A Dafny model of the filter sidebar of the sharebrary UI library: the
recursive category list, the tag list, the "Clear all" action, the link-mode
URL builders, the selection toggles reported to the caller, the mobile
filter drawer with its active-filter count, and the mobile/desktop layout
state with its mobile-detection hook.

The selection (category, subcategory, tags) belongs to the caller and comes
in as props. Each supplied callback switches the matching controls from links
to buttons. A button reports what a click asks for: `null` for the selected
item, else the clicked value; a tag is reported as it is. A link navigates to
`baseUrl?category=…[&subcategory=…]` or `baseUrl?tag=…`.

Modules, one per file:

- `Common`: optional props (`Option`, `OrDefault` for default parameters), the
  `string | null` selection, JavaScript truthiness, the `|| '#'` href
  fallback, counting.
- `CategoryTree`: the recursive category shape. An absent subcategory list is
  the empty sequence. A subcategory is a plain name or a nested category.
  `Entries` gives the preorder listing of all names of a tree.
- `Urls`: the URL builders. `encodeURIComponent` (section 19.2.6.5 of
  ECMA-262) is a parameter, and the ghost predicate `IsComponentEncoder`
  states what the proofs need of it. A query parser is the builders' inverse.
- `Filters`: the toggle rule, `hasActiveFilters`, and the caller's tag toggle.
- `Controls`: the rendered tree, abstracted to controls (button or link,
  text, highlight) and disclosure triggers. One generic recursive renderer is
  parameterised by a `Style`. It is proved to be the entry-by-entry image of
  the preorder listing.
- `Sidebar`, `CategoryItem`, `TagList`, `MobileFilters`: the four components.
- `MobileDetection`: the `useMobileDetection` hook.

Clicks are modelled by what they cause: the value passed to a callback, and
whether a sheet is closed. Window width comes in as the payload of resize
events.

## Model

| member | source | states |
|---|---|---|
| Common.Href | src/libs/ui/src/lib/sidebar/sidebar.tsx:166 | a link's href is the built URL when there is a non-empty one, and '#' exactly when the URL is absent or empty |
| Urls.CategoryUrl | src/libs/ui/src/lib/sidebar/sidebar.tsx:83-88 | the URL is the base path, `?category=` and the encoded category, followed by `&subcategory=` and the encoded subcategory exactly when the subcategory is truthy |
| Urls.TagUrl | src/libs/ui/src/lib/sidebar/sidebar.tsx:96 | the URL is the base path, `?tag=` and the encoded tag |
| Urls.CreateCategoryUrl | src/libs/ui/src/lib/sidebar/sidebar.tsx:78-89 | no URL exactly when onCategoryChange is supplied; otherwise the category URL of the base, category and subcategory |
| Urls.CreateTagUrl | src/libs/ui/src/lib/sidebar/sidebar.tsx:91-97 | no URL exactly when onTagToggle is supplied; otherwise the tag URL of the base and tag |
| Urls.ParseCategoryUrl | src/libs/ui/src/lib/sidebar/sidebar.tsx:83-88 | for any base path, a category URL reads back as its base, the encoded category, and the encoded subcategory exactly when the subcategory is truthy |
| Urls.ParseTagUrl | src/libs/ui/src/lib/sidebar/sidebar.tsx:96 | for any base path, a tag URL reads back as its base and the encoded tag |
| Urls.CategoryUrlInjective | src/libs/ui/src/lib/sidebar/sidebar.tsx:83-88 | for any base paths, equal category URLs come from equal base, category and truthy subcategory; an absent subcategory and an empty one give the same URL |
| Urls.TagUrlInjective | src/libs/ui/src/lib/sidebar/sidebar.tsx:96 | for any base paths, equal tag URLs come from equal base and tag |
| Urls.CategoryAndTagUrlsDiffer | src/libs/ui/src/lib/sidebar/sidebar.tsx:78-97 | for any base paths, a category URL is never a tag URL |
| Urls.FictionLink | src/libs/ui/src/lib/sidebar/sidebar.spec.tsx:108-112 | Fiction links to `/library?category=Fiction` under the default base path, also with an empty subcategory |
| Urls.NonFictionLink | src/libs/ui/src/lib/sidebar/sidebar.spec.tsx:109-112 | Non-Fiction links to `/library?category=Non-Fiction` |
| Urls.FantasyLink | src/libs/ui/src/lib/sidebar/sidebar.tsx:83-88 | the subcategory part is appended after the category: `/library?category=Fiction&subcategory=Fantasy` |
| Urls.BestsellerLink | src/libs/ui/src/lib/sidebar/sidebar.spec.tsx:148-151 | the Bestseller tag links to `/library?tag=Bestseller` |
| Filters.Toggle | src/libs/ui/src/lib/sidebar/sidebar.tsx:100-113 | a click asks for `null` exactly when the clicked value is the selected one, and otherwise for the clicked value |
| Filters.ClickFlips | src/libs/ui/src/lib/sidebar/sidebar.tsx:100-104 | with the result fed back as the selection, the clicked item is selected afterwards exactly when it was not before, and the selection is empty otherwise |
| Filters.ClickTwice | src/libs/ui/src/lib/sidebar/sidebar.tsx:100-104 | two clicks on the same item: select then deselect returns to no selection; from that item selected, deselect then select returns to it |
| Filters.HasActiveFilters | src/libs/ui/src/lib/sidebar/sidebar.tsx:56-59 | a filter is active exactly when the category is truthy, the subcategory is truthy, or some tag is selected; absent props and empty strings are not filters |
| Filters.ClickActivates | src/libs/ui/src/lib/sidebar/sidebar.tsx:56-59 | clicking a non-empty unselected category makes a filter active; clicking the only selected filter leaves none |
| Sidebar.HandleCategoryClick | src/libs/ui/src/lib/sidebar/sidebar.tsx:100-104 | onCategoryChange is called exactly when supplied: with `null` exactly when the clicked name is the selected category, and otherwise with the name |
| Sidebar.HandleSubcategoryClick | src/libs/ui/src/lib/sidebar/sidebar.tsx:107-113 | the same rule against selectedSubcategory; nothing is emitted without onSubcategoryChange |
| Sidebar.HandleTagClick | src/libs/ui/src/lib/sidebar/sidebar.tsx:116-125 | the tag goes unchanged to onTagToggle, exactly when it is supplied; the view state afterwards is the state machine's step on a tag click |
| Sidebar.CloseOnMobile | src/libs/ui/src/lib/sidebar/sidebar.tsx:121-124 | the layout flag is unchanged, and the sheet stays open only if it was open on desktop: on mobile it is closed |
| Sidebar.HandleClearFilters | src/libs/ui/src/lib/sidebar/sidebar.tsx:128-136 | onClearFilters is called exactly when supplied; the view state afterwards is the state machine's step on "Clear all" |
| Sidebar.CategoryClickRoundTrip | src/libs/ui/src/lib/sidebar/sidebar.tsx:100-104 | clicking an unselected category selects it; feeding that back and clicking again asks for `null` |
| Sidebar.ClearAllExamples | src/libs/ui/src/lib/sidebar/sidebar.tsx:56-59 | "Clear all" shows for a selected category, subcategory and tag; not for empty strings and an empty tag list; not with nothing selected |
| Sidebar.OffersClearAll | src/libs/ui/src/lib/sidebar/sidebar.tsx:284 | "Clear all" needs onClearFilters, and with it appears exactly when a filter is active, so only with a truthy category or subcategory or a selected tag |
| Sidebar.NoClearAllWithoutCallback | src/libs/ui/src/lib/sidebar/sidebar.tsx:284 | without onClearFilters there is no "Clear all", whatever the selection |
| Sidebar.CategoryControl | src/libs/ui/src/lib/sidebar/sidebar.tsx:142-172 | a category is highlighted exactly when its name is selected; it is a button exactly in callback mode, emitting the click handler's value, and otherwise a link to its category URL |
| Sidebar.SubcategoryControl | src/libs/ui/src/lib/sidebar/sidebar.tsx:236-267 | a string subcategory is highlighted exactly when its parent is the selected category and it is the selected subcategory; it is a button exactly when onSubcategoryChange is supplied; its link carries parent and subcategory, or is '#' when onCategoryChange is supplied |
| Sidebar.RenderCategories | src/libs/ui/src/lib/sidebar/sidebar.tsx:302-304 | one rendered item per top-level category, in order; in document order the list is the preorder listing of all categories, each entry rendered on its own |
| Sidebar.SidebarEntryControl | src/libs/ui/src/lib/sidebar/sidebar.tsx:139-278 | for each name of the tree, its control is highlighted, a link, or a '#' link exactly as the per-entry rules say |
| Sidebar.HighlightCount | src/libs/ui/src/lib/sidebar/sidebar.tsx:142-150 | a rendered category, at any depth, has as many highlighted controls as it has names the highlight rule selects |
| Sidebar.DeadLinkCount | src/libs/ui/src/lib/sidebar/sidebar.tsx:258-265 | a rendered category has one '#' link per string subcategory when onCategoryChange is supplied and onSubcategoryChange is not, and none otherwise |
| Sidebar.LinkCount | src/libs/ui/src/lib/sidebar/sidebar.tsx:153-172 | a rendered category has as many links as it has names whose callback is missing |
| Sidebar.NoLinksInCallbackMode | src/libs/ui/src/lib/sidebar/sidebar.tsx:191-210 | with both category callbacks supplied a rendered category holds no link at all |
| Sidebar.NoHighlightWithoutSelection | src/libs/ui/src/lib/sidebar/sidebar.tsx:142 | with no selected category nothing in the tree is highlighted |
| Sidebar.TagBadge | src/libs/ui/src/lib/sidebar/sidebar.tsx:315-343 | a tag badge is 'default' exactly when its tag is selected; it holds a button reporting its tag exactly when onTagToggle is supplied, and otherwise a link to the tag URL |
| Sidebar.TagButtonReportsAsWritten | src/libs/ui/src/lib/sidebar/sidebar.tsx:316-333 | one click on a tag's button reports the tag twice in callback mode, once from the button and once from the enclosing badge, and nothing otherwise |
| Sidebar.TagClickLostAsWritten | src/libs/ui/src/lib/sidebar/sidebar.tsx:316-333 | with the caller toggling on every report, a click on a tag's button leaves the tag's selection as it was |
| Sidebar.TagButtonReports | src/libs/ui/src/lib/sidebar/sidebar.tsx:326-333 | one click reports the tag once in callback mode and nothing otherwise |
| Sidebar.TagClickToggles | src/libs/ui/src/lib/sidebar/sidebar.tsx:116-119 | with the tag reported once, a click selects an unselected tag and deselects a selected one |
| Sidebar.Step | src/libs/ui/src/lib/sidebar/sidebar.tsx:116-136 | a resize sets isMobile to width < 768 and leaves the sheet alone; clicks close the sheet on mobile; on mobile an open-change request sets the sheet to the requested value, and only such a request opens it; on desktop only a resize changes anything |
| Sidebar.LayoutOf | src/libs/ui/src/lib/sidebar/sidebar.tsx:352-375 | the sheet layout exactly when isMobile, with the sheet's open flag; the inline aside otherwise |
| Sidebar.RunFollowsLastWidth | src/libs/ui/src/lib/sidebar/sidebar.tsx:62-75 | after any events, isMobile reflects the last width seen, or is unchanged if there was none |
| Sidebar.DesktopStaysInline | src/libs/ui/src/lib/sidebar/sidebar.tsx:52-53 | from the initial state, a window never narrower than 768 keeps the sheet closed and the layout inline, whatever is clicked |
| Sidebar.AgreesWithDetection | src/libs/ui/src/lib/sidebar/sidebar.hooks.ts:8 | on the same resizes the sidebar's own width check and the hook at its default breakpoint give the same flag |
| Sidebar.LayoutExamples | src/libs/ui/src/lib/sidebar/sidebar.spec.tsx:207-235 | widths 500 and 600 give the closed sheet; 1024 and 768 give the inline aside |
| Controls.Render | src/libs/ui/src/lib/sidebar/sidebar.tsx:139-145 | a category is a single list item exactly when it has no subcategories; otherwise an accordion item whose trigger is named after it, with one child per subcategory |
| Controls.RenderSub | src/libs/ui/src/lib/sidebar/sidebar.tsx:233-272 | a string subcategory is a terminal item holding its own control |
| Controls.RenderFollowsEntries | src/libs/ui/src/lib/sidebar/sidebar.tsx:139-278 | read in document order, a rendered category is its preorder listing rendered name by name: each name once, in order, an expandable category followed by its trigger |
| Controls.RenderAllFollowsEntries | src/libs/ui/src/lib/sidebar/sidebar.tsx:304 | the same for the whole list of top-level categories |
| Controls.RenderShape | src/libs/ui/src/lib/sidebar/category-item.tsx:54-76 | one control per name of the tree, one trigger per expandable category, and a leaf is exactly one control |
| Controls.RenderAgree | src/libs/ui/src/lib/sidebar/category-item.tsx:112-151 | two styles whose controls act alike on every name of a tree render it alike, highlights aside |
| CategoryItem.HandleCategoryClick | src/libs/ui/src/lib/sidebar/category-item.tsx:41-44 | `null` exactly when the item is selected, else the name, emitted only with onCategoryChange; onMobileClose runs exactly when supplied |
| CategoryItem.HandleSubcategoryClick | src/libs/ui/src/lib/sidebar/category-item.tsx:46-51 | `null` exactly when the subcategory is the selected one, else the subcategory; onMobileClose runs exactly when supplied |
| CategoryItem.HandleLinkClick | src/libs/ui/src/lib/sidebar/category-item.tsx:69 | a link click reports nothing and runs onMobileClose exactly when supplied |
| CategoryItem.CategoryControl | src/libs/ui/src/lib/sidebar/category-item.tsx:57-73 | a button exactly in callback mode, emitting the click handler's value; otherwise a link to the category URL under the default `/library` base; never highlighted |
| CategoryItem.SubcategoryControl | src/libs/ui/src/lib/sidebar/category-item.tsx:118-134 | a button exactly with onSubcategoryChange; otherwise a link whose URL carries the parent and the subcategory, or '#' in category callback mode |
| CategoryItem.LeafIsOneControl | src/libs/ui/src/lib/sidebar/category-item.tsx:30-31 | an item without subcategories renders exactly its own control and no expand trigger |
| CategoryItem.ItemShape | src/libs/ui/src/lib/sidebar/category-item.tsx:78-155 | one control per name of the tree and one trigger per expandable category, at every depth |
| CategoryItem.InheritedSelection | src/libs/ui/src/lib/sidebar/category-item.tsx:139-149 | nested items inherit isSelected: every category button of the tree emits `null` when the top item is selected, and its own name otherwise |
| CategoryItem.NothingHighlighted | src/libs/ui/src/lib/sidebar/category-item.tsx:115 | isSubSelected is computed but applied to nothing: no control of the item is highlighted |
| CategoryItem.ForSidebar | src/libs/ui/src/lib/sidebar/sidebar.tsx:142 | a comparison mapping (the sidebar renders its own markup, not this component): the item props with the sidebar's subcategory, callbacks and base path, selected exactly when the category's name is the selected one |
| CategoryItem.IsSubSelected | src/libs/ui/src/lib/sidebar/category-item.tsx:115 | a string subcategory counts as selected exactly when the item is selected and the subcategory is the selected one |
| CategoryItem.SubSelectedIsSidebarHighlight | src/libs/ui/src/lib/sidebar/category-item.tsx:115 | for a direct string subcategory, isSubSelected is the sidebar's highlight rule |
| CategoryItem.AgreesWithSidebarOnFlat | src/libs/ui/src/lib/sidebar/category-item.tsx:54-155 | on a one-level category, the item and the sidebar render the same controls with the same actions in the same order |
| CategoryItem.NestedSelectionDiffers | src/libs/ui/src/lib/sidebar/category-item.tsx:142 | deeper down they differ: under a selected Fiction, the item's nested Fantasy button asks for `null` where the sidebar's asks for Fantasy |
| TagList.BadgeFor | src/libs/ui/src/lib/sidebar/tag-list.tsx:35-61 | a badge is 'default' exactly when its tag is selected; it holds a button reporting its tag exactly in callback mode; its link is the tag URL and never '#' |
| TagList.RenderTags | src/libs/ui/src/lib/sidebar/tag-list.tsx:34 | exactly one badge per tag, in the order of the tags, each exactly the badge the badge rule gives its own tag, so a callback-mode badge reports its own tag |
| TagList.HandleTagClick | src/libs/ui/src/lib/sidebar/tag-list.tsx:27-30 | the tag goes unchanged to onTagToggle exactly when supplied; onMobileClose runs exactly when supplied |
| TagList.HandleLinkClick | src/libs/ui/src/lib/sidebar/tag-list.tsx:56 | a link click reports nothing and runs onMobileClose exactly when supplied |
| TagList.ClickIgnoresSelection | src/libs/ui/src/lib/sidebar/tag-list.tsx:27-30 | what a click reports does not depend on the selected tags: adding or removing is the caller's decision |
| TagList.ButtonReportsOwnTag | src/libs/ui/src/lib/sidebar/tag-list.tsx:44-51 | in callback mode a badge's button reports its own tag, selected or not |
| TagList.ActiveStyleExample | src/libs/ui/src/lib/sidebar/tag-list.tsx:37 | with bestseller selected, bestseller is 'default' and classic 'secondary' |
| MobileFilters.ActiveFilterCount | src/libs/ui/src/lib/sidebar/mobile-filters.tsx:46-49 | the count is zero exactly when no filter is active; it is at least the number of selected tags and at most two more |
| MobileFilters.ShowsCountBadge | src/libs/ui/src/lib/sidebar/mobile-filters.tsx:82 | the count badge shows exactly when some filter is active, and never with category and subcategory falsy and tags absent |
| MobileFilters.HandleCategoryChange | src/libs/ui/src/lib/sidebar/mobile-filters.tsx:52-56 | the value goes unchanged to onCategoryChange, and nowhere without it |
| MobileFilters.HandleSubcategoryChange | src/libs/ui/src/lib/sidebar/mobile-filters.tsx:58-62 | the value goes unchanged to onSubcategoryChange, and nowhere without it |
| MobileFilters.HandleTagToggle | src/libs/ui/src/lib/sidebar/mobile-filters.tsx:64-68 | the tag goes unchanged to onTagToggle, and nowhere without it |
| MobileFilters.HandleClearFilters | src/libs/ui/src/lib/sidebar/mobile-filters.tsx:70-74 | onClearFilters is called exactly when supplied |
| MobileFilters.InnerProps | src/libs/ui/src/lib/sidebar/mobile-filters.tsx:94-105 | the drawer's sidebar gets the selection unchanged, every callback supplied, and the default base URL |
| MobileFilters.ClearAllIffCount | src/libs/ui/src/lib/sidebar/mobile-filters.tsx:82 | the count badge shows exactly when the drawer's sidebar offers "Clear all" |
| MobileFilters.ActiveFilterCountSteps | src/libs/ui/src/lib/sidebar/mobile-filters.tsx:46-49 | the count is the number of filters: zero for the empty selection, and one more for a truthy category or subcategory where there was none, or for one more tag; an empty string counts like an absent value |
| MobileFilters.CountExamples | src/libs/ui/src/lib/sidebar/mobile-filters.tsx:46-49 | nothing selected counts 0; a category counts 1; a category, a subcategory and two tags count 4; empty strings show no badge |
| MobileFilters.InnerSidebarHasNoLinks | src/libs/ui/src/lib/sidebar/mobile-filters.tsx:101-104 | whatever the caller supplies, the drawer's sidebar shows no category, subcategory or tag link |
| MobileFilters.CategoryClickThroughDrawer | src/libs/ui/src/lib/sidebar/mobile-filters.tsx:52-56 | a category click in the drawer reaches the caller exactly when onCategoryChange is supplied, with the sidebar's toggle of the name |
| MobileFilters.SubcategoryClickThroughDrawer | src/libs/ui/src/lib/sidebar/mobile-filters.tsx:58-62 | the same for a subcategory click |
| MobileFilters.ClearAllThroughDrawer | src/libs/ui/src/lib/sidebar/mobile-filters.tsx:70-74 | the drawer's sidebar offers "Clear all" exactly when the count badge shows; its handler always fires and closes its sheet on mobile; the call reaches the caller exactly when onClearFilters is supplied |
| MobileFilters.ForwardTags | src/libs/ui/src/lib/sidebar/mobile-filters.tsx:64-68 | the tags reported by the drawer's sidebar reach the caller unchanged and in order with onTagToggle, and none reach it without |
| MobileFilters.TagToggleThroughDrawerAsWritten | src/libs/ui/src/lib/sidebar/sidebar.tsx:316-333 | through the drawer, one tag click reaches the caller twice with onTagToggle, so a toggling caller ends where it started |
| MobileFilters.TagToggleThroughDrawer | src/libs/ui/src/lib/sidebar/mobile-filters.tsx:64-68 | with the single report per click, one tag click reaches the caller once with onTagToggle and flips that tag |
| MobileFilters.DrawerStepAsWritten | src/libs/ui/src/lib/sidebar/mobile-filters.tsx:43-77 | only the sheet's own open-change request sets the open flag; the filter handlers leave it alone |
| MobileFilters.DrawerStaysOpenAsWritten | src/libs/ui/src/lib/sidebar/mobile-filters.tsx:51-56 | opening the drawer and choosing a category leaves the drawer open |
| MobileFilters.DrawerIgnoresActionsAsWritten | src/libs/ui/src/lib/sidebar/mobile-filters.tsx:51-74 | no run of filter actions changes the open flag |
| MobileFilters.DrawerStep | src/libs/ui/src/lib/sidebar/mobile-filters.tsx:51 | an open-change request sets the flag; every filter action closes the drawer |
| MobileFilters.DrawerClosesAfterAction | src/libs/ui/src/lib/sidebar/mobile-filters.tsx:51 | a run of events ending in a filter action leaves the drawer closed |
| MobileFilters.DrawerAgreesOnOpenChanges | src/libs/ui/src/lib/sidebar/mobile-filters.tsx:77 | for runs of open-change requests alone the corrected drawer behaves as written |
| MobileDetection.Initial | src/libs/ui/src/lib/sidebar/sidebar.hooks.ts:3-4 | the flag is false before the first check; the breakpoint is 768 unless one is given |
| MobileDetection.Mount | src/libs/ui/src/lib/sidebar/sidebar.hooks.ts:11-13 | on mount the flag is set once: mobile exactly when the current width is below the breakpoint, 768 unless one is given |
| MobileDetection.Check | src/libs/ui/src/lib/sidebar/sidebar.hooks.ts:7-9 | mobile exactly when the width is strictly below the breakpoint, so a width equal to it is desktop |
| MobileDetection.Step | src/libs/ui/src/lib/sidebar/sidebar.hooks.ts:6-19 | a resize re-checks against the current breakpoint; a re-render re-checks only when the breakpoint changed |
| MobileDetection.RunFollowsLastResize | src/libs/ui/src/lib/sidebar/sidebar.hooks.ts:11-15 | after resizes the flag follows the last width seen, against an unchanged breakpoint |
| MobileDetection.MountExamples | src/libs/ui/src/lib/sidebar/sidebar.hooks.spec.ts:13-31 | 500 is mobile and 1024 desktop at the default breakpoint; 768 is desktop; 900 is mobile with breakpoint 1000 |
| MobileDetection.ResizeExamples | src/libs/ui/src/lib/sidebar/sidebar.hooks.spec.ts:34-51 | a resize flips the flag in either direction, 1024 to 500 and back |

## Left out

- Markup, class strings and styling are left out. The Radix accordion and sheet, `next/link` and the `LinkComponent` override are foreign components. Only what they decide is kept: whether an item is expandable, whether a control is a button or a link, and its href.
- The percent-encoding table of `encodeURIComponent` is left out. The encoder is a parameter, and the URL properties assume only `IsComponentEncoder`. The URIError that encodeURIComponent throws on a lone surrogate is left out, because a lone surrogate cannot be represented in a Dafny string.
- Registering and removing window listeners is host I/O. The width is the payload of a resize event, and the mount-time check is the first resize.
- Accordion open/closed state is left out: the default expansion of the selected category and trigger clicks are Radix behaviour. The `stopPropagation` on the sidebar's inner trigger button only affects that state.
- badge.tsx is not part of this model. Sidebar.TagButtonReportsAsWritten assumes the Badge passes its onClick to the element it renders. This is an assumption; the badge test that extra HTML attributes are applied suggests it holds.
- Category shape: the narrower `Category` shapes declared in mobile-filters.tsx and sidebar.types.ts are not modelled separately. The union shape of types.ts is used throughout, with the element kind decided per element, as the code's `typeof` check does. An absent subcategory list and an empty one are the same sequence, since the code treats them alike.
- React keys, so duplicate names among siblings are not distinguished.
- The inner sidebar of the mobile drawer has its own width check and sheet. On a narrow window it would render its own floating trigger inside the drawer. The model keeps the two sheet states separate and leaves that nesting out.
- `className` and `mobileIcon` are presentation only.
- CategoryItem.HandleCategoryClick, CategoryItem.HandleSubcategoryClick, TagList.HandleTagClick, Sidebar.HandleTagClick and Sidebar.HandleClearFilters record what a click causes, not in what order. The handlers call the caller's callback first and close the sheet after it. A callback that throws therefore leaves the sheet open. Exceptions are not modelled.
- The caller's add-or-remove rule for reported tags is outside the components. `Filters.ToggleTag` stands in for a typical caller, only to state what a double report does. It has no row in the table above, since the components do not contain it.

## Findings

| source | as written | input that shows it | evidently intended | confidence | as-written member | corrected member |
|---|---|---|---|---|---|---|
| src/libs/ui/src/lib/sidebar/mobile-filters.tsx:51-74 | the drawer's handlers forward to the caller's callbacks but never set `open` to false | open the drawer, then choose the category Fiction: the drawer stays open | per the comment on line 51, every filter action inside the drawer closes it | medium, not executed | MobileFilters.DrawerStaysOpenAsWritten | MobileFilters.DrawerClosesAfterAction |
| src/libs/ui/src/lib/sidebar/sidebar.tsx:316-333 | in callback mode a tag's button runs handleTagClick, and the click bubbles to the enclosing Badge, whose onClick runs handleTagClick again | click the Bestseller button with onTagToggle supplied: onTagToggle receives Bestseller twice, so a caller that toggles ends with Bestseller as it was | one report per click, as TagList does | low (depends on the Badge forwarding onClick), not executed | Sidebar.TagClickLostAsWritten | Sidebar.TagClickToggles |
