/** Values shared by every part of the filter-sidebar model. */
module Common {

  /** An optional prop: `None` is JavaScript's `undefined`. */
  datatype Option<+T> = None | Some(value: T) {

    /** The value, or the default a destructuring default parameter supplies for `undefined`. */
    function OrDefault(default: T): (v: T)
      ensures Some? ==> v == value
      ensures None? ==> v == default
    {
      if Some? then value else default
    }
  }

  /** The `string | null` argument given to onCategoryChange and onSubcategoryChange. */
  datatype Selection = Clear | Select(value: string)

  /** JavaScript truthiness of an optional string: `undefined` and `""` are falsy. */
  predicate Truthy(s: Option<string>) {
    s.Some? && s.value != ""
  }

  /** The `url || '#'` fallback every link applies to its href. */
  function Href(url: Option<string>): (r: string)
    ensures url.Some? && url.value != "" ==> r == url.value
    ensures url.None? || url.value == "" ==> r == "#"
  {
    if url.Some? && url.value != "" then url.value else "#"
  }

  /** Number of elements of `s` that satisfy `p`. */
  function Count<T>(s: seq<T>, p: T -> bool): (n: nat)
    ensures n <= |s|
    ensures n == 0 <==> forall i :: 0 <= i < |s| ==> !p(s[i])
  {
    if s == [] then 0
    else (if p(s[0]) then 1 else 0) + Count(s[1..], p)
  }

  lemma {:induction false} CountAppend<T>(a: seq<T>, b: seq<T>, p: T -> bool)
    ensures Count(a + b, p) == Count(a, p) + Count(b, p)
  {
    if a == [] {
      assert a + b == b;
    } else {
      assert (a + b)[1..] == a[1..] + b;
      CountAppend(a[1..], b, p);
    }
  }
}
