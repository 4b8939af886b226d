/**
  The tag list: one badge per tag, styled by membership in the selected tags,
  holding either a button that reports the tag (callback mode) or a link to the
  tag's URL (link mode). Whether a reported tag is added or removed is decided
  by the caller.
 */
module TagList {
  import opened Common
  import Urls

  datatype Variant = Default | Secondary

  datatype BadgeAction = Report(tag: string) | Navigate(href: string)

  datatype Badge = Badge(tag: string, variant: Variant, action: BadgeAction)

  datatype Props = Props(
    tags: seq<string>,
    selectedTags: Option<seq<string>>,
    onTagToggle: bool,
    onMobileClose: bool,
    baseUrl: Option<string>,
    encode: Urls.Encoder)

  function SelectedTags(p: Props): seq<string> {
    p.selectedTags.OrDefault([])
  }

  function BaseUrl(p: Props): string {
    p.baseUrl.OrDefault(Urls.DefaultBaseUrl)
  }

  /**
    The badge for one tag. In link mode the href is the tag URL itself: the URL
    is only absent in callback mode, so the '#' fallback is never taken.
   */
  function BadgeFor(enc: Urls.Encoder, selected: seq<string>, onTagToggle: bool, baseUrl: string, tag: string): (b: Badge)
    ensures b.tag == tag
    ensures b.variant == Default <==> tag in selected
    ensures b.action.Report? <==> onTagToggle
    ensures b.action.Report? ==> b.action.tag == tag
    ensures b.action.Navigate? ==> b.action.href == Urls.TagUrl(enc, baseUrl, tag)
    ensures b.action != Navigate("#")
  {
    Badge(tag,
          if tag in selected then Default else Secondary,
          if onTagToggle then Report(tag)
          else Navigate(Href(Urls.CreateTagUrl(enc, onTagToggle, baseUrl, tag))))
  }

  /** The rendered list: exactly one badge per tag, in the order of the tags. */
  method RenderTags(p: Props) returns (badges: seq<Badge>)
    ensures |badges| == |p.tags|
    ensures forall i :: 0 <= i < |badges| ==> badges[i].tag == p.tags[i]
    ensures forall i :: 0 <= i < |badges| ==> (badges[i].variant == Default <==> p.tags[i] in SelectedTags(p))
    ensures forall i :: 0 <= i < |badges| ==> (badges[i].action.Report? <==> p.onTagToggle)
    ensures forall i :: 0 <= i < |badges| && !p.onTagToggle ==>
              badges[i].action == Navigate(Urls.TagUrl(p.encode, BaseUrl(p), p.tags[i]))
    ensures forall i :: 0 <= i < |badges| && p.onTagToggle ==> badges[i].action == Report(p.tags[i])
    ensures forall i :: 0 <= i < |badges| ==>
              badges[i] == BadgeFor(p.encode, SelectedTags(p), p.onTagToggle, BaseUrl(p), p.tags[i])
  {
    badges := [];
    var k := 0;
    while k < |p.tags|
      invariant 0 <= k <= |p.tags|
      invariant |badges| == k
      invariant forall i :: 0 <= i < k ==> badges[i] == BadgeFor(p.encode, SelectedTags(p), p.onTagToggle, BaseUrl(p), p.tags[i])
    {
      badges := badges + [BadgeFor(p.encode, SelectedTags(p), p.onTagToggle, BaseUrl(p), p.tags[k])];
      k := k + 1;
    }
  }

  /** What a click causes: the tag reported to onTagToggle, if any, and whether onMobileClose runs. */
  datatype ClickEffect = ClickEffect(reported: Option<string>, mobileClosed: bool)

  /** `handleTagClick`: the tag is passed on unchanged, then the mobile sheet is asked to close. */
  function HandleTagClick(p: Props, tag: string): (r: ClickEffect)
    ensures r.reported.Some? <==> p.onTagToggle
    ensures r.reported.Some? ==> r.reported.value == tag
    ensures r.mobileClosed <==> p.onMobileClose
  {
    ClickEffect(if p.onTagToggle then Some(tag) else None, p.onMobileClose)
  }

  /** A link click only runs onMobileClose. */
  function HandleLinkClick(p: Props): (r: ClickEffect)
    ensures r.reported.None?
    ensures r.mobileClosed <==> p.onMobileClose
  {
    ClickEffect(None, p.onMobileClose)
  }

  /** The component never decides add or remove: what a click reports does not depend on the selection. */
  lemma ClickIgnoresSelection(p: Props, tag: string, selected: Option<seq<string>>)
    ensures HandleTagClick(p.(selectedTags := selected), tag) == HandleTagClick(p, tag)
  {
  }

  /** In callback mode a badge's button reports its own tag, whether or not it is selected. */
  lemma ButtonReportsOwnTag(p: Props, tag: string)
    requires p.onTagToggle
    ensures BadgeFor(p.encode, SelectedTags(p), p.onTagToggle, BaseUrl(p), tag).action == Report(tag)
    ensures HandleTagClick(p, tag).reported == Some(tag)
  {
  }

  /** The scenario of tags bestseller and classic with bestseller selected. */
  lemma ActiveStyleExample(enc: Urls.Encoder)
    ensures BadgeFor(enc, ["bestseller"], true, "/library", "bestseller").variant == Default
    ensures BadgeFor(enc, ["bestseller"], true, "/library", "classic").variant == Secondary
  {
    assert "classic" != "bestseller";
  }
}
