/**
  The recursive category shape of the filter sidebar. A category has a name and a
  list of subcategories; each subcategory is either a plain name (a terminal leaf)
  or a nested category of the same shape. An absent subcategory list behaves
  exactly like an empty one, so both are the empty sequence here.
 */
module CategoryTree {

  datatype Category = Category(name: string, subcategories: seq<Sub>)

  datatype Sub = Str(text: string) | Cat(category: Category)

  /** A category is expandable exactly when it has at least one subcategory. */
  predicate HasSubcategories(c: Category) {
    |c.subcategories| > 0
  }

  /**
    One selectable name of the tree, in the order the sidebar lists them: a
    category (remembering whether it is expandable) or a string subcategory
    (remembering the category it sits under).
   */
  datatype Entry =
    | CategoryEntry(name: string, expandable: bool)
    | SubcategoryEntry(parent: string, text: string)

  /** The preorder listing of a category and everything beneath it. */
  function Entries(c: Category): (es: seq<Entry>)
    decreases c
    ensures |es| >= 1 && es[0] == CategoryEntry(c.name, HasSubcategories(c))
  {
    [CategoryEntry(c.name, HasSubcategories(c))] + SubEntries(c.name, c.subcategories)
  }

  function SubEntries(parent: string, subs: seq<Sub>): (es: seq<Entry>)
    decreases subs
    ensures |es| >= |subs|
  {
    if subs == [] then [] else SubEntry(parent, subs[0]) + SubEntries(parent, subs[1..])
  }

  function SubEntry(parent: string, s: Sub): (es: seq<Entry>)
    decreases s
    ensures |es| >= 1
  {
    match s
    case Str(t) => [SubcategoryEntry(parent, t)]
    case Cat(d) => Entries(d)
  }

  /** The preorder listing of a whole list of top-level categories. */
  function ForestEntries(cats: seq<Category>): (es: seq<Entry>)
    ensures |es| >= |cats|
  {
    if cats == [] then [] else Entries(cats[0]) + ForestEntries(cats[1..])
  }

  predicate IsExpandable(e: Entry) {
    e.CategoryEntry? && e.expandable
  }

  predicate IsStringSub(e: Entry) {
    e.SubcategoryEntry?
  }

  /** A category whose subcategories are all plain names: one level deep. */
  predicate IsFlat(c: Category) {
    forall i :: 0 <= i < |c.subcategories| ==> c.subcategories[i].Str?
  }

  lemma {:induction false} StringSubEntries(parent: string, subs: seq<Sub>)
    requires forall i :: 0 <= i < |subs| ==> subs[i].Str?
    ensures forall e :: e in SubEntries(parent, subs) ==> e.SubcategoryEntry? && e.parent == parent
  {
    if subs != [] {
      StringSubEntries(parent, subs[1..]);
    }
  }

  /** The listing of a one-level category: the category itself, then string subcategories under it. */
  lemma FlatEntries(c: Category)
    requires IsFlat(c)
    ensures forall e :: e in Entries(c) ==>
              (e.CategoryEntry? ==> e == CategoryEntry(c.name, HasSubcategories(c)))
              && (e.SubcategoryEntry? ==> e.parent == c.name)
  {
    StringSubEntries(c.name, c.subcategories);
  }
}
