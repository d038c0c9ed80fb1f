/**
 * The home page component. It holds the search term and the selected
 * category, lets the input, the select and the Reset button overwrite
 * them, and recomputes the shown listings from them. Its filter is written
 * inline rather than by calling `filterResources`; its category options and
 * its date label are the same expressions as `getCategories` and
 * `formatVerified` and are modelled by those.
 */
module Page {
  import opened Wrappers
  import opened Text
  import opened Seqs
  import opened Resources

  /** The JavaScript values `resource.website && ...` can evaluate to. */
  datatype JsValue = Undefined | Str(s: string) | Bool(b: bool)

  /** JavaScript truthiness, the way the page's `? :` reads the value. */
  predicate Truthy(v: JsValue) {
    match v
    case Undefined => false
    case Str(s) => s != ""
    case Bool(b) => b
  }

  /**
   * The page's own `hasWebsite`, which returns the value of `&&` without
   * converting it to a boolean: `undefined` or `""` when the first operand
   * is falsy, otherwise the comparison.
   */
  function PageHasWebsite(r: Resource): (v: JsValue)
    ensures Truthy(v) == HasWebsite(r)
    ensures v.Undefined? <==> r.website.None?
    ensures v.Str? ==> v.s == "" && r.website == Some("")
  {
    match r.website
    case None => Undefined
    case Some(w) => if w == "" then Str(w) else Bool(|Trim(w)| > 0)
  }

  /**
   * The `useMemo` callback: the same category check, term normalisation,
   * haystack and name sort as `filterResources`, written out over the two
   * state values, so it yields exactly what `filterResources` yields for them.
   */
  function FilteredView(dataset: seq<Resource>, searchTerm: string, selectedCategory: string): (r: seq<Resource>)
    ensures r == FilterResources(dataset, Query(searchTerm, selectedCategory))
  {
    var term := Lower(Trim(searchTerm));
    var keep := (resource: Resource) =>
      if !(selectedCategory == AllCategories || resource.category == selectedCategory) then false
      else if term == "" then true
      else
        var haystack := Lower(Join([resource.name, resource.category, resource.address.GetOr(""),
                                    resource.zip.GetOr(""), Join(resource.tags, " "),
                                    resource.eligibility, resource.cost], " "));
        Contains(haystack, term);
    WhereExt(dataset, keep, (resource: Resource) => Matches(resource, selectedCategory, term));
    SortByName(Where(dataset, keep))
  }

  /** The component's state over the dataset it lists. */
  class Home {
    const resources: seq<Resource>
    var searchTerm: string
    var selectedCategory: string

    /** The initial `useState` values: an empty term and the sentinel. */
    constructor (dataset: seq<Resource>)
      ensures resources == dataset
      ensures searchTerm == "" && selectedCategory == AllCategories
    {
      resources := dataset;
      searchTerm := "";
      selectedCategory := AllCategories;
    }

    /**
     * The `categories` options of the select: `getCategories` of the dataset,
     * headed by the select's initial value.
     */
    function CategoryOptions(): (options: seq<string>)
      ensures |options| >= 1 && options[0] == AllCategories
      ensures forall c :: c in options[1..] <==> exists i :: 0 <= i < |resources| && resources[i].category == c
      ensures WellFormed(resources) ==> NoDup(options)
    {
      assert WellFormed(resources) ==> NoDup(GetCategories(resources)) by {
        if WellFormed(resources) {
          GetCategoriesNoDup(resources);
        }
      }
      GetCategories(resources)
    }

    /** The listings shown for the current state. */
    function Filtered(): (r: seq<Resource>)
      reads this
      ensures SortedByName(r)
      ensures forall x :: x in r <==> x in resources && Selects(Query(searchTerm, selectedCategory), x)
    {
      FilteredView(resources, searchTerm, selectedCategory)
    }

    /** The X of "Showing X of Y resources", where Y is the size of the dataset. */
    function ShownCount(): (n: nat)
      reads this
      ensures n <= |resources|
    {
      |Filtered()|
    }

    /** The search input's `onChange`. */
    method SetSearchTerm(value: string)
      modifies this
      ensures searchTerm == value && selectedCategory == old(selectedCategory)
      ensures Filtered() == FilterResources(resources, Query(value, old(selectedCategory)))
    {
      searchTerm := value;
    }

    /** The select's `onChange`; the value is cast to `CategoryFilter` unchecked. */
    method SetSelectedCategory(value: string)
      modifies this
      ensures selectedCategory == value && searchTerm == old(searchTerm)
      ensures Filtered() == FilterResources(resources, Query(old(searchTerm), value))
    {
      selectedCategory := value;
    }

    /** The Reset button: both fields back to their initial values. */
    method Reset()
      modifies this
      ensures searchTerm == "" && selectedCategory == AllCategories
      ensures ShownCount() == |resources|
    {
      searchTerm := "";
      selectedCategory := AllCategories;
      InitialShowsAll(this);
    }
  }

  /** In the initial state every listing is shown, so the count line reads "Showing Y of Y". */
  lemma InitialShowsAll(h: Home)
    requires h.searchTerm == "" && h.selectedCategory == AllCategories
    ensures multiset(h.Filtered()) == multiset(h.resources)
    ensures h.ShownCount() == |h.resources|
  {
    DefaultQueryKeepsAll(h.resources);
  }
}
