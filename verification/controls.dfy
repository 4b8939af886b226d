/**
  What the category list renders, abstracted from markup: each category becomes a
  list item holding one control, or an accordion item holding a control, a
  disclosure trigger and the rendered children. `Widgets` reads a rendered tree in
  document order.
 */
module Controls {
  import opened Common
  import opened CategoryTree

  datatype Kind = CategoryKind | SubcategoryKind

  /** A button reports a selection change to its callback; a link navigates to its href. */
  datatype Action = Button(emit: Selection) | Link(href: string)

  datatype Control = Control(kind: Kind, text: string, highlighted: bool, action: Action)

  /** A plain list item, or an accordion item whose trigger only opens and closes the children. */
  datatype Node =
    | Item(control: Control)
    | Group(control: Control, trigger: string, children: seq<Node>)

  datatype Widget = Ctl(control: Control) | Trigger(name: string)

  /** The controls and disclosure triggers of a rendered tree, in document order. */
  function Widgets(n: Node): (ws: seq<Widget>)
    decreases n
    ensures |ws| >= 1 && ws[0] == Ctl(n.control)
  {
    match n
    case Item(c) => [Ctl(c)]
    case Group(c, t, ch) => [Ctl(c), Trigger(t)] + WidgetsOf(ch)
  }

  function WidgetsOf(ns: seq<Node>): seq<Widget>
    decreases ns
  {
    if ns == [] then [] else Widgets(ns[0]) + WidgetsOf(ns[1..])
  }

  predicate IsControl(w: Widget) { w.Ctl? }

  predicate IsTrigger(w: Widget) { w.Trigger? }

  predicate IsLink(w: Widget) { w.Ctl? && w.control.action.Link? }

  /** A link whose href fell back to '#': it navigates nowhere. */
  predicate IsDeadLink(w: Widget) { w.Ctl? && w.control.action == Link("#") }

  predicate IsHighlighted(w: Widget) { w.Ctl? && w.control.highlighted }

  /** The widgets of a preorder listing, each entry rendered by `f`. */
  function Concat(es: seq<Entry>, f: Entry -> seq<Widget>): seq<Widget> {
    if es == [] then [] else f(es[0]) + Concat(es[1..], f)
  }

  lemma {:induction false} ConcatAppend(a: seq<Entry>, b: seq<Entry>, f: Entry -> seq<Widget>)
    ensures Concat(a + b, f) == Concat(a, f) + Concat(b, f)
  {
    if a == [] {
      assert a + b == b;
    } else {
      assert (a + b)[0] == a[0];
      assert (a + b)[1..] == a[1..] + b;
      ConcatAppend(a[1..], b, f);
    }
  }

  /**
    If every entry renders to exactly one widget satisfying `p` when `q` holds of
    it and to none otherwise, the rendered listing has as many `p` widgets as the
    listing has `q` entries.
   */
  lemma {:induction false} CountConcat(es: seq<Entry>, f: Entry -> seq<Widget>, p: Widget -> bool, q: Entry -> bool)
    requires forall e :: Count(f(e), p) == (if q(e) then 1 else 0)
    ensures Count(Concat(es, f), p) == Count(es, q)
  {
    if es != [] {
      CountAppend(f(es[0]), Concat(es[1..], f), p);
      CountConcat(es[1..], f, p, q);
    }
  }

  // ---------------------------------------------------------------------------
  // The recursive renderer, shared by the sidebar and the category item
  // ---------------------------------------------------------------------------

  /**
    How a component builds its controls: one for a category from its name, one
    for a string subcategory from its parent's name and its own. The same style
    is used at every depth of the tree.
   */
  datatype Style = Style(category: string -> Control, subcategory: (string, string) -> Control)

  /** The control an entry of the preorder listing renders to. */
  function EntryControl(st: Style, e: Entry): Control {
    match e
    case CategoryEntry(n, _) => st.category(n)
    case SubcategoryEntry(parent, t) => st.subcategory(parent, t)
  }

  /** The widgets one entry renders to: its control, then a trigger if it is expandable. */
  function EntryWidgets(st: Style, e: Entry): seq<Widget> {
    [Ctl(EntryControl(st, e))] + (if IsExpandable(e) then [Trigger(e.name)] else [])
  }

  function Renderer(st: Style): Entry -> seq<Widget> {
    e => EntryWidgets(st, e)
  }

  /**
    One category: without subcategories a single control; with them its control,
    a disclosure trigger named after it, and one rendered child per subcategory.
   */
  function Render(st: Style, c: Category): (n: Node)
    decreases c
    ensures n.control == st.category(c.name)
    ensures n.Item? <==> !HasSubcategories(c)
    ensures n.Group? ==> n.trigger == c.name && |n.children| == |c.subcategories|
  {
    if !HasSubcategories(c) then Item(st.category(c.name))
    else Group(st.category(c.name), c.name, RenderSubs(st, c.name, c.subcategories))
  }

  function RenderSubs(st: Style, parent: string, subs: seq<Sub>): (ns: seq<Node>)
    decreases subs
    ensures |ns| == |subs|
  {
    if subs == [] then [] else [RenderSub(st, parent, subs[0])] + RenderSubs(st, parent, subs[1..])
  }

  /** A string child is a terminal control; a nested category recurses with the same style. */
  function RenderSub(st: Style, parent: string, s: Sub): (n: Node)
    decreases s
    ensures s.Str? ==> n == Item(st.subcategory(parent, s.text))
  {
    match s
    case Str(t) => Item(st.subcategory(parent, t))
    case Cat(d) => Render(st, d)
  }

  /** The whole list of top-level categories. */
  function RenderAll(st: Style, cats: seq<Category>): (ns: seq<Node>)
    ensures |ns| == |cats|
    ensures forall i :: 0 <= i < |ns| ==> ns[i] == Render(st, cats[i])
  {
    if cats == [] then [] else [Render(st, cats[0])] + RenderAll(st, cats[1..])
  }

  /**
    The rendered tree, read in document order, is the preorder listing of the
    category with each entry rendered on its own: every category and string
    subcategory appears exactly once, in order, and each expandable category is
    followed by its trigger.
   */
  lemma {:induction false} RenderFollowsEntries(st: Style, c: Category)
    decreases c
    ensures Widgets(Render(st, c)) == Concat(Entries(c), Renderer(st))
  {
    var head := CategoryEntry(c.name, HasSubcategories(c));
    ConcatAppend([head], SubEntries(c.name, c.subcategories), Renderer(st));
    assert Concat([head], Renderer(st)) == EntryWidgets(st, head) by {
      assert [head][1..] == [];
    }
    if HasSubcategories(c) {
      SubsFollowEntries(st, c.name, c.subcategories);
    } else {
      assert c.subcategories == [];
    }
  }

  lemma {:induction false} SubsFollowEntries(st: Style, parent: string, subs: seq<Sub>)
    decreases subs
    ensures WidgetsOf(RenderSubs(st, parent, subs)) == Concat(SubEntries(parent, subs), Renderer(st))
  {
    if subs != [] {
      var ns := RenderSubs(st, parent, subs);
      assert ns[0] == RenderSub(st, parent, subs[0]);
      assert ns[1..] == RenderSubs(st, parent, subs[1..]);
      SubFollowsEntries(st, parent, subs[0]);
      SubsFollowEntries(st, parent, subs[1..]);
      ConcatAppend(SubEntry(parent, subs[0]), SubEntries(parent, subs[1..]), Renderer(st));
    }
  }

  lemma {:induction false} SubFollowsEntries(st: Style, parent: string, s: Sub)
    decreases s
    ensures Widgets(RenderSub(st, parent, s)) == Concat(SubEntry(parent, s), Renderer(st))
  {
    match s
    case Str(t) =>
      assert [SubcategoryEntry(parent, t)][1..] == [];
    case Cat(d) =>
      RenderFollowsEntries(st, d);
  }

  /** The same for a whole list of top-level categories. */
  lemma {:induction false} RenderAllFollowsEntries(st: Style, cats: seq<Category>)
    ensures WidgetsOf(RenderAll(st, cats)) == Concat(ForestEntries(cats), Renderer(st))
  {
    if cats != [] {
      var ns := RenderAll(st, cats);
      assert ns[0] == Render(st, cats[0]);
      assert ns[1..] == RenderAll(st, cats[1..]);
      RenderFollowsEntries(st, cats[0]);
      RenderAllFollowsEntries(st, cats[1..]);
      ConcatAppend(Entries(cats[0]), ForestEntries(cats[1..]), Renderer(st));
    }
  }

  lemma CountSingle(w: Widget, p: Widget -> bool)
    ensures Count([w], p) == if p(w) then 1 else 0
  {
    assert [w][1..] == [];
  }

  lemma CountPair(w: Widget, v: Widget, p: Widget -> bool)
    ensures Count([w, v], p) == (if p(w) then 1 else 0) + (if p(v) then 1 else 0)
  {
    assert [w, v][1..] == [v];
    CountSingle(v, p);
  }

  /** A property of controls only (never of triggers) is counted once per entry whose control has it. */
  lemma EntryCount(st: Style, e: Entry, p: Widget -> bool)
    requires forall n :: !p(Trigger(n))
    ensures Count(EntryWidgets(st, e), p) == if p(Ctl(EntryControl(st, e))) then 1 else 0
  {
    var w := Ctl(EntryControl(st, e));
    if IsExpandable(e) {
      assert EntryWidgets(st, e) == [w, Trigger(e.name)];
      CountPair(w, Trigger(e.name), p);
    } else {
      assert EntryWidgets(st, e) == [w];
      CountSingle(w, p);
    }
  }

  lemma EntryTriggerCount(st: Style, e: Entry)
    ensures Count(EntryWidgets(st, e), IsTrigger) == if IsExpandable(e) then 1 else 0
  {
    var w := Ctl(EntryControl(st, e));
    if IsExpandable(e) {
      assert EntryWidgets(st, e) == [w, Trigger(e.name)];
      CountPair(w, Trigger(e.name), IsTrigger);
    } else {
      assert EntryWidgets(st, e) == [w];
      CountSingle(w, IsTrigger);
    }
  }

  /**
    The controls of a rendered category with a property are those of its entries
    whose control has it, `q` naming that property of entries.
   */
  lemma RenderCount(st: Style, c: Category, p: Widget -> bool, q: Entry -> bool)
    requires forall n :: !p(Trigger(n))
    requires forall e :: p(Ctl(EntryControl(st, e))) == q(e)
    ensures Count(Widgets(Render(st, c)), p) == Count(Entries(c), q)
  {
    RenderFollowsEntries(st, c);
    forall e ensures Count(Renderer(st)(e), p) == if q(e) then 1 else 0 {
      EntryCount(st, e, p);
    }
    CountConcat(Entries(c), Renderer(st), p, q);
  }

  /**
    The entry predicates that hold of every entry and of none, named so that
    count lemmas can be instantiated with them (`Count(es, AnyEntry)` is `|es|`).
   */
  predicate AnyEntry(e: Entry) { true }

  lemma CountAny(es: seq<Entry>)
    ensures Count(es, AnyEntry) == |es|
  {
    if es != [] {
      CountAny(es[1..]);
    }
  }

  /**
    The shape of a rendered category: one control per category and string
    subcategory of the tree, one disclosure trigger per expandable category,
    none for a leaf.
   */
  lemma RenderShape(st: Style, c: Category)
    ensures Count(Widgets(Render(st, c)), IsControl) == |Entries(c)|
    ensures Count(Widgets(Render(st, c)), IsTrigger) == Count(Entries(c), IsExpandable)
    ensures !HasSubcategories(c) ==> Widgets(Render(st, c)) == [Ctl(st.category(c.name))]
  {
    RenderFollowsEntries(st, c);
    forall e ensures Count(Renderer(st)(e), IsControl) == if AnyEntry(e) then 1 else 0 {
      EntryCount(st, e, IsControl);
    }
    CountConcat(Entries(c), Renderer(st), IsControl, AnyEntry);
    CountAny(Entries(c));
    forall e ensures Count(Renderer(st)(e), IsTrigger) == if IsExpandable(e) then 1 else 0 {
      EntryTriggerCount(st, e);
    }
    CountConcat(Entries(c), Renderer(st), IsTrigger, IsExpandable);
  }

  /** See `AnyEntry`: a count of `NoEntry` entries is zero. */
  predicate NoEntry(e: Entry) { false }

  lemma CountNone(es: seq<Entry>, q: Entry -> bool)
    requires forall e :: !q(e)
    ensures Count(es, q) == 0
  {
  }

  /** Every widget of a listing rendered entry by entry has a property that every entry's widgets have. */
  lemma {:induction false} ConcatEvery(es: seq<Entry>, f: Entry -> seq<Widget>, p: Widget -> bool)
    requires forall e, w :: w in f(e) ==> p(w)
    ensures forall w :: w in Concat(es, f) ==> p(w)
  {
    if es != [] {
      ConcatEvery(es[1..], f, p);
    }
  }

  /** A property of every trigger and of every entry's control holds of every widget of a rendered category. */
  lemma RenderEvery(st: Style, c: Category, p: Widget -> bool)
    requires forall n :: p(Trigger(n))
    requires forall e :: p(Ctl(EntryControl(st, e)))
    ensures forall w :: w in Widgets(Render(st, c)) ==> p(w)
  {
    RenderFollowsEntries(st, c);
    ConcatEvery(Entries(c), Renderer(st), p);
  }

  /** A widget with its highlight dropped: what it does, not how it looks. */
  function Plain(w: Widget): Widget {
    match w
    case Ctl(c) => Ctl(c.(highlighted := false))
    case Trigger(n) => Trigger(n)
  }

  function PlainAll(ws: seq<Widget>): (r: seq<Widget>)
    ensures |r| == |ws|
    ensures forall i :: 0 <= i < |ws| ==> r[i] == Plain(ws[i])
  {
    if ws == [] then [] else [Plain(ws[0])] + PlainAll(ws[1..])
  }

  lemma PlainAppend(a: seq<Widget>, b: seq<Widget>)
    ensures PlainAll(a + b) == PlainAll(a) + PlainAll(b)
  {
  }

  /**
    Two styles whose controls do the same for every entry of a listing render
    that listing to the same widgets, highlights aside.
   */
  lemma {:induction false} ConcatAgree(es: seq<Entry>, st1: Style, st2: Style)
    requires forall e :: e in es ==> Plain(Ctl(EntryControl(st1, e))) == Plain(Ctl(EntryControl(st2, e)))
    ensures PlainAll(Concat(es, Renderer(st1))) == PlainAll(Concat(es, Renderer(st2)))
  {
    if es != [] {
      var e := es[0];
      assert e in es;
      ConcatAgree(es[1..], st1, st2);
      PlainAppend(EntryWidgets(st1, e), Concat(es[1..], Renderer(st1)));
      PlainAppend(EntryWidgets(st2, e), Concat(es[1..], Renderer(st2)));
      PlainAppend([Ctl(EntryControl(st1, e))], if IsExpandable(e) then [Trigger(e.name)] else []);
      PlainAppend([Ctl(EntryControl(st2, e))], if IsExpandable(e) then [Trigger(e.name)] else []);
    }
  }

  /** The same for a rendered category. */
  lemma RenderAgree(st1: Style, st2: Style, c: Category)
    requires forall e :: e in Entries(c) ==> Plain(Ctl(EntryControl(st1, e))) == Plain(Ctl(EntryControl(st2, e)))
    ensures PlainAll(Widgets(Render(st1, c))) == PlainAll(Widgets(Render(st2, c)))
  {
    RenderFollowsEntries(st1, c);
    RenderFollowsEntries(st2, c);
    ConcatAgree(Entries(c), st1, st2);
  }
}
