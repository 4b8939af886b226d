/**
  Link-mode URL construction of the filter sidebar: `?category=…[&subcategory=…]`
  and `?tag=…` appended to a base path, each value passed through the ECMAScript
  `encodeURIComponent` function (section 19.2.6.5 of ECMA-262). The encoder is a
  parameter; `IsComponentEncoder` states the properties of it the proofs rely on.
  A small query parser serves as the inverse the builders are checked against.
 */
module Urls {
  import opened Common

  type Encoder = string -> string

  const DefaultBaseUrl: string := "/library"

  /** The uriUnescaped characters: letters, decimal digits and the marks - _ . ! ~ * ' ( ). */
  predicate Unescaped(ch: char) {
    || ('A' <= ch <= 'Z') || ('a' <= ch <= 'z') || ('0' <= ch <= '9')
    || ch == '-' || ch == '_' || ch == '.' || ch == '!' || ch == '~'
    || ch == '*' || ch == '\'' || ch == '(' || ch == ')'
  }

  predicate AllUnescaped(s: string) {
    forall i :: 0 <= i < |s| ==> Unescaped(s[i])
  }

  /** Characters encodeURIComponent can emit: unescaped characters and the '%' of an escape. */
  predicate Encoded(s: string) {
    forall i :: 0 <= i < |s| ==> Unescaped(s[i]) || s[i] == '%'
  }

  /**
    What encodeURIComponent guarantees for strings of Unicode scalar values: the
    output is made of unescaped characters and percent escapes, a string of
    unescaped characters is returned unchanged, and distinct inputs give
    distinct outputs.
   */
  ghost predicate IsComponentEncoder(enc: Encoder) {
    EmitsEncoded(enc) && FixesUnescaped(enc) && Injective(enc)
  }

  ghost predicate EmitsEncoded(enc: Encoder) {
    forall s :: Encoded(enc(s))
  }

  ghost predicate FixesUnescaped(enc: Encoder) {
    forall s :: AllUnescaped(s) ==> enc(s) == s
  }

  ghost predicate Injective(enc: Encoder) {
    forall a, b :: enc(a) == enc(b) ==> a == b
  }

  /** The URL of a category link, with the subcategory part only for a truthy subcategory. */
  function CategoryUrl(enc: Encoder, baseUrl: string, category: string, subcategory: Option<string>): (r: string)
    ensures baseUrl + "?category=" + enc(category) <= r
    ensures Truthy(subcategory) ==> r[|baseUrl| + 10 + |enc(category)|..] == "&subcategory=" + enc(subcategory.value)
    ensures !Truthy(subcategory) ==> |r| == |baseUrl| + 10 + |enc(category)|
  {
    baseUrl + "?category=" + enc(category)
    + (if Truthy(subcategory) then "&subcategory=" + enc(subcategory.value) else "")
  }

  /** `createCategoryUrl`: no URL at all in callback mode (onCategoryChange supplied). */
  function CreateCategoryUrl(enc: Encoder, onCategoryChange: bool, baseUrl: string, category: string, subcategory: Option<string>): (r: Option<string>)
    ensures r.None? <==> onCategoryChange
    ensures r.Some? ==> r.value == CategoryUrl(enc, baseUrl, category, subcategory)
  {
    if onCategoryChange then None else Some(CategoryUrl(enc, baseUrl, category, subcategory))
  }

  /** The URL of a tag link. */
  function TagUrl(enc: Encoder, baseUrl: string, tag: string): (r: string)
    ensures baseUrl + "?tag=" <= r
    ensures r[|baseUrl| + 5..] == enc(tag)
  {
    baseUrl + "?tag=" + enc(tag)
  }

  /** `createTagUrl`: no URL at all in callback mode (onTagToggle supplied). */
  function CreateTagUrl(enc: Encoder, onTagToggle: bool, baseUrl: string, tag: string): (r: Option<string>)
    ensures r.None? <==> onTagToggle
    ensures r.Some? ==> r.value == TagUrl(enc, baseUrl, tag)
  {
    if onTagToggle then None else Some(TagUrl(enc, baseUrl, tag))
  }

  // ---------------------------------------------------------------------------
  // The inverse: reading a built URL back into its parts (values stay encoded).
  // An encoded value never holds '?', so the query starts after the last '?'
  // of the URL, whatever the base path holds.
  // ---------------------------------------------------------------------------

  datatype Query =
    | CategoryQuery(base: string, category: string, subcategory: Option<string>)
    | TagQuery(base: string, tag: string)

  const CategoryKey: string := "category="
  const SubcategoryKey: string := "subcategory="
  const TagKey: string := "tag="

  /** Position of the first occurrence of `ch` in `s`. */
  function Find(s: string, ch: char): (r: Option<nat>)
    ensures r.None? <==> ch !in s
    ensures r.Some? ==> r.value < |s| && s[r.value] == ch && ch !in s[..r.value]
  {
    if s == [] then None
    else if s[0] == ch then Some(0)
    else match Find(s[1..], ch)
      case None => None
      case Some(i) => assert s[1..][..i] == s[1..i + 1]; Some(i + 1)
  }

  /** Position of the last occurrence of `ch` in `s`. */
  function FindLast(s: string, ch: char): (r: Option<nat>)
    ensures r.None? <==> ch !in s
    ensures r.Some? ==> r.value < |s| && s[r.value] == ch && ch !in s[r.value + 1..]
  {
    if s == [] then None
    else if s[|s| - 1] == ch then Some(|s| - 1)
    else
      var init := s[..|s| - 1];
      assert s == init + [s[|s| - 1]];
      match FindLast(init, ch)
      case None => None
      case Some(i) => assert s[i + 1..] == init[i + 1..] + [s[|s| - 1]]; Some(i)
  }

  function ParseCategoryQuery(base: string, rest: string): Option<Query> {
    match Find(rest, '&')
    case None => Some(CategoryQuery(base, rest, None))
    case Some(j) =>
      var tail := rest[j + 1..];
      if SubcategoryKey <= tail then Some(CategoryQuery(base, rest[..j], Some(tail[|SubcategoryKey|..])))
      else None
  }

  function ParseUrl(url: string): Option<Query> {
    match FindLast(url, '?')
    case None => None
    case Some(i) =>
      var base, query := url[..i], url[i + 1..];
      if CategoryKey <= query then ParseCategoryQuery(base, query[|CategoryKey|..])
      else if TagKey <= query then Some(TagQuery(base, query[|TagKey|..]))
      else None
  }

  lemma FindAfter(a: string, ch: char, b: string)
    requires ch !in a
    ensures Find(a + [ch] + b, ch) == Some(|a|)
  {
    var s := a + [ch] + b;
    assert s[|a|] == ch;
    assert s[..|a|] == a;
  }

  lemma FindLastBefore(a: string, ch: char, b: string)
    requires ch !in b
    ensures FindLast(a + [ch] + b, ch) == Some(|a|)
  {
    var s := a + [ch] + b;
    assert s[|a|] == ch;
  }

  /** The encoded value of a subcategory as it appears in a URL, if it appears at all. */
  function EncodedSub(enc: Encoder, subcategory: Option<string>): Option<string> {
    if Truthy(subcategory) then Some(enc(subcategory.value)) else None
  }

  lemma EncodedHasNoDelimiter(enc: Encoder, s: string)
    requires IsComponentEncoder(enc)
    ensures '&' !in enc(s) && '?' !in enc(s) && '=' !in enc(s) && '#' !in enc(s)
  {
    var e := enc(s);
    assert Encoded(e);
    forall i | 0 <= i < |e|
      ensures e[i] != '&' && e[i] != '?' && e[i] != '=' && e[i] != '#'
    {
      assert Unescaped(e[i]) || e[i] == '%';
    }
  }

  /** The query part after `?category=`, for an encoded category without '&'. */
  lemma ParseCategoryRest(base: string, c: string, sub: Option<string>)
    requires '&' !in c
    requires sub.Some? ==> '&' !in sub.value
    ensures ParseCategoryQuery(base, c + (if sub.Some? then "&subcategory=" + sub.value else ""))
         == Some(CategoryQuery(base, c, sub))
  {
    if sub.Some? {
      var rest := c + ['&'] + (SubcategoryKey + sub.value);
      assert "&subcategory=" == ['&'] + SubcategoryKey;
      assert c + (if sub.Some? then "&subcategory=" + sub.value else "") == rest;
      FindAfter(c, '&', SubcategoryKey + sub.value);
      assert rest[..|c|] == c;
      var tail := rest[|c| + 1..];
      assert tail == SubcategoryKey + sub.value;
      assert SubcategoryKey <= tail;
      assert tail[|SubcategoryKey|..] == sub.value;
    } else {
      assert c + "" == c;
    }
  }

  /** Splitting a URL at its last '?', for a query without one. */
  lemma ParseAfterBase(base: string, query: string)
    requires '?' !in query
    ensures ParseUrl(base + "?" + query)
         == if CategoryKey <= query then ParseCategoryQuery(base, query[|CategoryKey|..])
            else if TagKey <= query then Some(TagQuery(base, query[|TagKey|..]))
            else None
  {
    var url := base + "?" + query;
    assert url == base + ['?'] + query;
    FindLastBefore(base, '?', query);
    assert url[..|base|] == base;
    assert url[|base| + 1..] == query;
  }

  /** A category URL reads back as its base, its encoded category and its encoded subcategory. */
  lemma {:induction false} ParseCategoryUrl(enc: Encoder, baseUrl: string, category: string, subcategory: Option<string>)
    requires IsComponentEncoder(enc)
    ensures ParseUrl(CategoryUrl(enc, baseUrl, category, subcategory))
         == Some(CategoryQuery(baseUrl, enc(category), EncodedSub(enc, subcategory)))
  {
    var c := enc(category);
    var sub := EncodedSub(enc, subcategory);
    EncodedHasNoDelimiter(enc, category);
    if Truthy(subcategory) {
      EncodedHasNoDelimiter(enc, subcategory.value);
    }
    var rest := c + (if sub.Some? then "&subcategory=" + sub.value else "");
    var query := CategoryKey + rest;
    assert '?' !in CategoryKey && '?' !in "&subcategory=";
    assert '?' !in query;
    assert CategoryUrl(enc, baseUrl, category, subcategory) == baseUrl + "?" + query;
    ParseAfterBase(baseUrl, query);
    assert query[|CategoryKey|..] == rest;
    ParseCategoryRest(baseUrl, c, sub);
  }

  /** A tag URL reads back as its base and its encoded tag. */
  lemma {:induction false} ParseTagUrl(enc: Encoder, baseUrl: string, tag: string)
    requires IsComponentEncoder(enc)
    ensures ParseUrl(TagUrl(enc, baseUrl, tag)) == Some(TagQuery(baseUrl, enc(tag)))
  {
    var url := TagUrl(enc, baseUrl, tag);
    var query := TagKey + enc(tag);
    EncodedHasNoDelimiter(enc, tag);
    assert '?' !in TagKey;
    assert url == baseUrl + "?" + query;
    ParseAfterBase(baseUrl, query);
    assert !(CategoryKey <= query) by {
      assert query[0] == 't' && CategoryKey[0] == 'c';
    }
    assert query[|TagKey|..] == enc(tag);
  }

  /**
    A category link determines its base, category and (truthy) subcategory: two
    links that agree were built from the same values.
   */
  lemma CategoryUrlInjective(enc: Encoder, b1: string, c1: string, s1: Option<string>,
                                           b2: string, c2: string, s2: Option<string>)
    requires IsComponentEncoder(enc)
    requires CategoryUrl(enc, b1, c1, s1) == CategoryUrl(enc, b2, c2, s2)
    ensures b1 == b2 && c1 == c2
    ensures Truthy(s1) <==> Truthy(s2)
    ensures Truthy(s1) ==> s1.value == s2.value
  {
    ParseCategoryUrl(enc, b1, c1, s1);
    ParseCategoryUrl(enc, b2, c2, s2);
    assert enc(c1) == enc(c2);
    if Truthy(s1) && Truthy(s2) {
      assert enc(s1.value) == enc(s2.value);
    }
  }

  lemma TagUrlInjective(enc: Encoder, b1: string, t1: string, b2: string, t2: string)
    requires IsComponentEncoder(enc)
    requires TagUrl(enc, b1, t1) == TagUrl(enc, b2, t2)
    ensures b1 == b2 && t1 == t2
  {
    ParseTagUrl(enc, b1, t1);
    ParseTagUrl(enc, b2, t2);
    assert enc(t1) == enc(t2);
  }

  /** A category link and a tag link never coincide. */
  lemma CategoryAndTagUrlsDiffer(enc: Encoder, b1: string, c: string, s: Option<string>, b2: string, t: string)
    requires IsComponentEncoder(enc)
    ensures CategoryUrl(enc, b1, c, s) != TagUrl(enc, b2, t)
  {
    ParseCategoryUrl(enc, b1, c, s);
    ParseTagUrl(enc, b2, t);
  }

  /** The links the sidebar tests expect for plain names under the default base path. */
  lemma FictionLink(enc: Encoder)
    requires IsComponentEncoder(enc)
    ensures CategoryUrl(enc, DefaultBaseUrl, "Fiction", None) == "/library?category=Fiction"
    ensures CategoryUrl(enc, DefaultBaseUrl, "Fiction", Some("")) == "/library?category=Fiction"
  {
    assert AllUnescaped("Fiction");
  }

  lemma NonFictionLink(enc: Encoder)
    requires IsComponentEncoder(enc)
    ensures CategoryUrl(enc, DefaultBaseUrl, "Non-Fiction", None) == "/library?category=Non-Fiction"
  {
    assert AllUnescaped("Non-Fiction");
  }

  lemma FantasyLink(enc: Encoder)
    requires IsComponentEncoder(enc)
    ensures CategoryUrl(enc, DefaultBaseUrl, "Fiction", Some("Fantasy")) == "/library?category=Fiction&subcategory=Fantasy"
  {
    assert AllUnescaped("Fiction") && AllUnescaped("Fantasy");
    FixedFantasyLink(enc);
  }

  lemma FixedFantasyLink(enc: Encoder)
    requires enc("Fiction") == "Fiction" && enc("Fantasy") == "Fantasy"
    ensures CategoryUrl(enc, DefaultBaseUrl, "Fiction", Some("Fantasy")) == "/library?category=Fiction&subcategory=Fantasy"
  {
  }

  lemma BestsellerLink(enc: Encoder)
    requires IsComponentEncoder(enc)
    ensures TagUrl(enc, DefaultBaseUrl, "Bestseller") == "/library?tag=Bestseller"
  {
    assert AllUnescaped("Bestseller");
  }
}
