/**
 * The listing helpers of the directory: the category options of the
 * select, the website and verification-date helpers used by the cards,
 * and `filterResources`, which keeps the listings that match the selected
 * category and the search term and orders them by name.
 */
module Resources {
  import opened Wrappers
  import opened Text
  import opened Seqs

  /** One listing, with the fields the helpers and the filter read. */
  datatype Resource = Resource(
    name: string,
    category: string,
    address: Option<string>,
    zip: Option<string>,
    tags: seq<string>,
    eligibility: string,
    cost: string,
    website: Option<string>,
    lastVerifiedAt: Option<string>)

  /** The value of `CategoryFilter` that matches every category. */
  const AllCategories: string := "All categories"

  /** Every category is a `ResourceCategory`, which is never the sentinel. */
  predicate WellFormed(items: seq<Resource>) {
    forall i :: 0 <= i < |items| ==> items[i].category != AllCategories
  }

  /** `items.map((item) => item.category)`. */
  function CategoriesOf(items: seq<Resource>): (cs: seq<string>)
    ensures |cs| == |items|
    ensures forall i :: 0 <= i < |items| ==> cs[i] == items[i].category
  {
    if items == [] then [] else [items[0].category] + CategoriesOf(items[1..])
  }

  // ---------------------------------------------------------------------
  // getCategories
  // ---------------------------------------------------------------------

  /**
   * `getCategories`: the sentinel, then each category of `items` once, in
   * the order in which the categories first occur.
   */
  function GetCategories(items: seq<Resource>): (r: seq<string>)
    ensures |r| >= 1 && r[0] == AllCategories
    ensures |r| <= |items| + 1
    ensures forall c :: c in r[1..] <==> exists i :: 0 <= i < |items| && items[i].category == c
    ensures forall c :: c in r[1..] <==> c in CategoriesOf(items)
    ensures NoDup(r[1..])
    ensures forall i, j :: 0 <= i < j < |r| - 1 ==>
      IndexOf(CategoriesOf(items), r[1..][i]) < IndexOf(CategoriesOf(items), r[1..][j])
  {
    var cs := CategoriesOf(items);
    var r := [AllCategories] + Distinct(cs);
    assert r[1..] == Distinct(cs);
    forall c ensures c in cs <==> exists i :: 0 <= i < |items| && items[i].category == c {
      if c in cs {
        var i :| 0 <= i < |cs| && cs[i] == c;
        assert items[i].category == c;
      }
    }
    r
  }

  /** Over a well-formed dataset the sentinel is not repeated, so no option occurs twice. */
  lemma GetCategoriesNoDup(items: seq<Resource>)
    requires WellFormed(items)
    ensures NoDup(GetCategories(items))
  {
    var r := GetCategories(items);
    forall j | 1 <= j < |r| ensures r[0] != r[j] {
      assert r[j] in r[1..];
    }
  }

  // ---------------------------------------------------------------------
  // formatVerified and hasWebsite
  // ---------------------------------------------------------------------

  const NotYetVerified: string := "Not yet verified"
  const VerifiedPrefix: string := "Verified "

  /**
   * `formatVerified`. `new Date(value)` with the `NaN` test is `parse`
   * (`None` for an invalid date) and `toLocaleDateString` is `show`.
   */
  function FormatVerified<D>(value: Option<string>, parse: string -> Option<D>, show: D -> string): (caption: string)
    ensures caption == NotYetVerified <==> value.None? || value.value == "" || parse(value.value).None?
    ensures caption != NotYetVerified ==>
      |caption| >= |VerifiedPrefix| && caption[..|VerifiedPrefix|] == VerifiedPrefix &&
      caption[|VerifiedPrefix|..] == show(parse(value.value).value)
  {
    if value.None? || value.value == "" then NotYetVerified
    else
      match parse(value.value)
      case None => NotYetVerified
      case Some(date) =>
        var caption := VerifiedPrefix + show(date);
        assert caption[0] != NotYetVerified[0];
        caption
  }

  /** `hasWebsite`: the website is present and not all whitespace. */
  function HasWebsite(r: Resource): (b: bool)
    ensures b <==> r.website.Some? && exists k :: 0 <= k < |r.website.value| && !IsWhitespace(r.website.value[k])
  {
    r.website.Some? && r.website.value != "" && |Trim(r.website.value)| > 0
  }

  // ---------------------------------------------------------------------
  // filterResources
  // ---------------------------------------------------------------------

  /** The `params` of `filterResources`. */
  datatype Query = Query(term: string, category: string)

  /** `params.term.trim().toLowerCase()`. */
  function NormalizeTerm(term: string): (t: string)
    ensures t == "" <==> AllWhitespace(term)
  {
    Lower(Trim(term))
  }

  predicate MatchesCategory(r: Resource, category: string) {
    category == AllCategories || r.category == category
  }

  /** The fields the term is searched in, in the order they are joined. */
  function HaystackFields(r: Resource): seq<string> {
    [r.name, r.category, r.address.GetOr(""), r.zip.GetOr(""), Join(r.tags, " "), r.eligibility, r.cost]
  }

  /** The space-joined, lowercased text the term is searched in. */
  function Haystack(r: Resource): string {
    Lower(Join(HaystackFields(r), " "))
  }

  /** The callback given to `.filter`, with the term already normalised. */
  predicate Matches(r: Resource, category: string, term: string) {
    if !MatchesCategory(r, category) then false
    else if term == "" then true
    else Contains(Haystack(r), term)
  }

  /** The predicate `.filter` applies for query `q`. */
  predicate Selects(q: Query, r: Resource) {
    Matches(r, q.category, NormalizeTerm(q.term))
  }

  /** The empty term is included in every haystack, so the early return for it changes nothing. */
  lemma MatchesIffIncludes(r: Resource, category: string, term: string)
    ensures Matches(r, category, term) <==> MatchesCategory(r, category) && Contains(Haystack(r), term)
  {
    if term == "" {
      ContainsEmpty(Haystack(r));
    }
  }

  /** Ascending by name under the comparator `a.name.localeCompare(b.name)`. */
  predicate SortedByName(s: seq<Resource>) {
    forall i, j :: 0 <= i < j < |s| ==> LessEq(s[i].name, s[j].name)
  }

  /** No element of `s` sorts before `name`. */
  predicate AllAtLeast(name: string, s: seq<Resource>) {
    forall y :: y in s ==> LessEq(name, y.name)
  }

  /** A sequence headed by an element no later element sorts before is sorted when its tail is. */
  lemma SortedCons(x: Resource, s: seq<Resource>)
    requires AllAtLeast(x.name, s) && SortedByName(s)
    ensures SortedByName([x] + s)
  {
    var r := [x] + s;
    forall i, j | 0 <= i < j < |r| ensures LessEq(r[i].name, r[j].name) {
      assert r[j] == s[j - 1];
      if i > 0 {
        assert r[i] == s[i - 1];
      }
    }
  }

  /** What sorts no later than the head of a sorted sequence sorts no later than all of it. */
  lemma BelowHead(name: string, s: seq<Resource>)
    requires s != [] && SortedByName(s) && LessEq(name, s[0].name)
    ensures AllAtLeast(name, s)
  {
    forall y | y in s ensures LessEq(name, y.name) {
      var k :| 0 <= k < |s| && s[k] == y;
      if k > 0 {
        LessEqTransitive(name, s[0].name, y.name);
      }
    }
  }

  /** The lower bound carries over to a sequence with the same elements and perhaps one more. */
  lemma AllAtLeastInsert(name: string, x: Resource, s: seq<Resource>, r: seq<Resource>)
    requires AllAtLeast(name, s) && LessEq(name, x.name)
    requires multiset(r) == multiset(s) + multiset{x}
    ensures AllAtLeast(name, r)
  {
    forall y | y in r ensures LessEq(name, y.name) {
      assert y in multiset(r);
    }
  }

  /** Puts `x` before the first element it does not sort after. */
  function InsertByName(x: Resource, s: seq<Resource>): (r: seq<Resource>)
    requires SortedByName(s)
    ensures SortedByName(r)
    ensures multiset(r) == multiset(s) + multiset{x}
  {
    if s == [] then [x]
    else if LessEq(x.name, s[0].name) then
      BelowHead(x.name, s);
      SortedCons(x, s);
      [x] + s
    else
      var tail := s[1..];
      assert s == [s[0]] + tail;
      assert AllAtLeast(s[0].name, tail);
      var rest := InsertByName(x, tail);
      LessEqTotal(x.name, s[0].name);
      AllAtLeastInsert(s[0].name, x, tail, rest);
      SortedCons(s[0], rest);
      [s[0]] + rest
  }

  /** The `.sort` call: insertion sort, which like `Array.prototype.sort` is stable. */
  function SortByName(xs: seq<Resource>): (r: seq<Resource>)
    ensures SortedByName(r)
    ensures multiset(r) == multiset(xs)
  {
    if xs == [] then []
    else
      assert xs == [xs[0]] + xs[1..];
      InsertByName(xs[0], SortByName(xs[1..]))
  }

  /** The `.filter` stage of `filterResources`. */
  function Kept(items: seq<Resource>, q: Query): seq<Resource> {
    var term := NormalizeTerm(q.term);
    Where(items, r => Matches(r, q.category, term))
  }

  /**
   * `filterResources`: sorted by name, and holding each resource of `items`
   * that passes the category and term checks, as often as it occurs in
   * `items`, and nothing else.
   */
  function FilterResources(items: seq<Resource>, q: Query): (r: seq<Resource>)
    ensures SortedByName(r)
    ensures forall x :: multiset(r)[x] == if Selects(q, x) then multiset(items)[x] else 0
    ensures forall x :: x in r <==> x in items && Selects(q, x)
    ensures |r| <= |items|
    ensures q.category != AllCategories ==> forall x :: x in r ==> x.category == q.category
  {
    var kept := Kept(items, q);
    var r := SortByName(kept);
    assert forall x :: x in r <==> x in multiset(kept);
    r
  }

  /** The result is the passing subsequence of `items`, reordered. */
  lemma FilterResourcesIsSortedSubsequence(items: seq<Resource>, q: Query)
    ensures IsSubsequence(Kept(items, q), items)
    ensures multiset(FilterResources(items, q)) == multiset(Kept(items, q))
  {
    WhereIsSubsequence(items, (r: Resource) => Matches(r, q.category, NormalizeTerm(q.term)));
  }

  /** A blank term keeps every resource of the selected category. */
  lemma BlankTermKeepsCategory(items: seq<Resource>, q: Query, x: Resource)
    requires AllWhitespace(q.term)
    ensures x in FilterResources(items, q) <==> x in items && MatchesCategory(x, q.category)
  {
  }

  /**
   * A resource of the selected category is kept exactly when the trimmed,
   * lowercased term occurs at some offset of its haystack.
   */
  lemma TermSoundAndComplete(items: seq<Resource>, q: Query, x: Resource)
    requires x in items && MatchesCategory(x, q.category)
    ensures x in FilterResources(items, q) <==> exists i :: OccursAt(Haystack(x), NormalizeTerm(q.term), i)
  {
    MatchesIffIncludes(x, q.category, NormalizeTerm(q.term));
    ContainsIffOccurs(Haystack(x), NormalizeTerm(q.term));
  }

  /** The default query, empty term and the sentinel, keeps every resource. */
  lemma DefaultQueryKeepsAll(items: seq<Resource>)
    ensures multiset(FilterResources(items, Query("", AllCategories))) == multiset(items)
    ensures |FilterResources(items, Query("", AllCategories))| == |items|
  {
    var r := FilterResources(items, Query("", AllCategories));
    assert AllWhitespace("");
    assert multiset(r) == multiset(items);
    assert |multiset(r)| == |multiset(items)|;
  }

  /** A resource of the selected category is kept when the normalised term occurs in one of its searched fields, lowercased. */
  lemma FieldMatchIsKept(items: seq<Resource>, q: Query, x: Resource, k: nat)
    ensures (x in items && MatchesCategory(x, q.category) && k < |HaystackFields(x)| &&
             Contains(Lower(HaystackFields(x)[k]), NormalizeTerm(q.term)))
            ==> x in FilterResources(items, q)
  {
    var fields := HaystackFields(x);
    if x in items && MatchesCategory(x, q.category) && k < |fields| && Contains(Lower(fields[k]), NormalizeTerm(q.term)) {
      JoinContainsPart(fields, " ", k);
      ContainsLower(Join(fields, " "), fields[k]);
      ContainsTransitive(Haystack(x), Lower(fields[k]), NormalizeTerm(q.term));
      MatchesIffIncludes(x, q.category, NormalizeTerm(q.term));
    }
  }

  /** A resource of the selected category is kept when the normalised term occurs in one of its tags, lowercased. */
  lemma TagMatchIsKept(items: seq<Resource>, q: Query, x: Resource, k: nat)
    ensures (x in items && MatchesCategory(x, q.category) && k < |x.tags| &&
             Contains(Lower(x.tags[k]), NormalizeTerm(q.term)))
            ==> x in FilterResources(items, q)
  {
    if x in items && MatchesCategory(x, q.category) && k < |x.tags| && Contains(Lower(x.tags[k]), NormalizeTerm(q.term)) {
      var tags := Join(x.tags, " ");
      JoinContainsPart(x.tags, " ", k);
      ContainsLower(tags, x.tags[k]);
      ContainsTransitive(Lower(tags), Lower(x.tags[k]), NormalizeTerm(q.term));
      FieldMatchIsKept(items, q, x, 4);
    }
  }
}
