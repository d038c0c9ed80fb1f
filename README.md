# Spokane community resources: the filter, search and sort pipeline

The site is a static directory of community-assistance listings (housing,
food, safety, support). Its only logic runs in the browser over a
hard-coded dataset:

- `getCategories` builds the options of the category select: the sentinel
  `"All categories"`, then each category of the dataset once, in the order
  in which the categories first occur (a JavaScript `Set` keeps insertion
  order).
- `filterResources` keeps the listings whose category is the selected one
  (or any, under the sentinel) and whose haystack contains the search term,
  then sorts them by name. The term is trimmed and lowercased; a blank term
  keeps everything. The haystack is the lowercased, space-joined name,
  category, address, zip, tags, eligibility and cost.
- `hasWebsite` says whether a listing has a non-blank website, and
  `formatVerified` renders the last-verified date or the fallback
  `"Not yet verified"`.
- The home page keeps the search term and the selected category as state.
  The input, the select and the Reset button overwrite them, and the shown
  listings are recomputed from them with a copy of the filter written inline.

Files:

- `wrappers.dfy` (`Wrappers`): `Option`, for the optional fields of a listing.
- `text.dfy` (`Text`): `trim`, `toLowerCase`, `includes`, `join` and the
  name order, each with the facts the filter proofs need.
- `seqs.dfy` (`Seqs`): `filter` (`Where`), `Array.from(new Set(...))`
  (`Distinct`) and a reference definition of first occurrences (`Firsts`)
  that `Distinct` is proved equal to.
- `resources.dfy` (`Resources`): `app/lib/resources.ts`.
- `page.dfy` (`Page`): `app/page.tsx`. The state is the class `Page.Home`.
  Its setters and Reset are methods over two fields. The shown listings
  are the function `Filtered`, recomputed from those fields.

The page repeats the library's code. Its `categories` constant
(app/page.tsx:9-12) and its `formatVerified` (app/page.tsx:14-19) are the
same expressions as `getCategories` and `formatVerified`, so the model uses
the library functions for them; `Page.Home.CategoryOptions` applies
`GetCategories` to the page's dataset. The page's inline filter
(app/page.tsx:29-56) is modelled separately as `Page.FilteredView` and
proved equal to `FilterResources`. The page's `hasWebsite`
(app/page.tsx:21-22) returns the raw value of `&&` rather than a boolean.
It is modelled as `Page.PageHasWebsite` over a small type of JavaScript
values, and its truthiness is proved equal to `HasWebsite`.

Dafny values are immutable, so the point that `filterResources` sorts a
fresh array and leaves its input unchanged holds by construction.

## Model

| member | source | states |
|---|---|---|
| Text.Trim | app/lib/resources.ts:18 | `trim` returns a slice of its input with only whitespace around it and none at either end; the result is empty iff the input is all whitespace |
| Text.ContainsIffOccurs | app/lib/resources.ts:47 | `includes` is true iff the term occurs in the haystack at some offset |
| Seqs.Distinct | app/lib/resources.ts:7 | `Array.from(new Set(xs))` holds every value of `xs` and nothing else, each once, ordered by first occurrence in `xs`; it is no longer than `xs` |
| Seqs.Where | app/lib/resources.ts:26-48 | `.filter` keeps exactly the elements satisfying the predicate, each as many times as in the input, never more elements than the input |
| Seqs.WhereIsSubsequence | app/lib/resources.ts:26-48 | `.filter` keeps the original relative order: its result is a subsequence of the input |
| Resources.GetCategories | app/lib/resources.ts:5-8 | the result starts with `"All categories"`; after it, a category occurs iff some item has it, each at most once, in first-occurrence order; length at most `items.length + 1` |
| Resources.GetCategoriesNoDup | app/lib/resources.ts:5-8 | when no item's category is the sentinel, no option occurs twice |
| Resources.FormatVerified | app/lib/resources.ts:10-15 | the result is `"Not yet verified"` iff the value is absent, empty or parses to an invalid date; otherwise it is `"Verified "` followed by the rendered date |
| Resources.HasWebsite | app/lib/resources.ts:17-18 | true iff the website is present and has a non-whitespace character; absent, empty or whitespace-only gives false |
| Resources.NormalizeTerm | app/lib/resources.ts:24 | the trimmed, lowercased term is empty iff the term is all whitespace |
| Resources.MatchesIffIncludes | app/lib/resources.ts:28-47 | the filter callback accepts iff the category check passes and the haystack includes the term; the early return for an empty term agrees with this |
| Resources.InsertByName | app/lib/resources.ts:49 | inserting into a name-sorted sequence keeps it sorted and adds exactly the one element |
| Resources.SortByName | app/lib/resources.ts:49 | the sort returns a permutation of its input, sorted non-decreasing by name |
| Resources.FilterResources | app/lib/resources.ts:20-50 | the result is sorted by name; it holds each item passing both checks as often as it occurs in `items` and nothing else; it is no longer than `items`; with a non-sentinel category every result has that category |
| Resources.FilterResourcesIsSortedSubsequence | app/lib/resources.ts:26-49 | the result is a permutation of the passing subsequence of `items` |
| Resources.BlankTermKeepsCategory | app/lib/resources.ts:24-33 | with an empty or whitespace-only term, an item is returned iff it passes the category check |
| Resources.TermSoundAndComplete | app/lib/resources.ts:33-47 | an item passing the category check is returned iff the trimmed, lowercased term occurs at some offset of its haystack |
| Resources.DefaultQueryKeepsAll | app/lib/resources.ts:20-50 | the query `("", "All categories")` returns every item, as a permutation of `items` of the same length |
| Resources.FieldMatchIsKept | app/lib/resources.ts:36-47 | an item of the selected category is returned when the normalised term occurs in the lowercased form of any one of its searched fields |
| Resources.TagMatchIsKept | app/lib/resources.ts:40 | an item of the selected category is returned when the normalised term occurs in the lowercased form of one of its tags |
| Page.PageHasWebsite | app/page.tsx:21-22 | the raw `&&` value is truthy exactly when the library `hasWebsite` is true; it is `undefined` iff the website is absent and a string only when the website is `""` |
| Page.FilteredView | app/page.tsx:29-56 | the inline `useMemo` filter returns exactly `filterResources(resources, {term: searchTerm, category: selectedCategory})` |
| Page.Home.constructor | app/page.tsx:25-27 | the initial state is the empty term and `"All categories"` |
| Page.Home.CategoryOptions | app/page.tsx:9-12 | the select's options start with `"All categories"`, then hold a category iff some listing has it, none twice over a well-formed dataset |
| Page.Home.Filtered | app/page.tsx:29-56 | the shown listings are sorted by name and are exactly the listings passing both checks for the current state |
| Page.Home.ShownCount | app/page.tsx:117 | the shown count never exceeds the dataset size |
| Page.Home.SetSearchTerm | app/page.tsx:83 | replaces only the search term; the selected category is unchanged and the view is recomputed for the new pair |
| Page.Home.SetSelectedCategory | app/page.tsx:93-94 | replaces only the selected category; the search term is unchanged and the view is recomputed for the new pair |
| Page.Home.Reset | app/page.tsx:106-109 | from any state, both fields return to their initial values and every listing is shown again |
| Page.InitialShowsAll | app/page.tsx:25-27 | in the initial state the shown listings are a permutation of the dataset, so the count reads "Showing Y of Y" |

## Left out

- Date parsing and rendering in `formatVerified` (`new Date`, `getTime`, `toLocaleDateString`) depend on the host and the locale. They are the parameters `parse` (`None` for an invalid date) and `show`; only the branch structure is modelled.
- `localeCompare` uses locale-aware collation. Names are ordered by the plain lexicographic order on characters (`Text.LessEq`), which is a total order; locale collation may rank distinct strings as equal.
- `trim` and `toLowerCase` follow Unicode tables. The model removes only ASCII whitespace (space, tab, line feed, vertical tab, form feed, carriage return) and lowercases only `A`-`Z`.
- Resources.SortByName: the sort is an insertion sort, which is stable like `Array.prototype.sort`, but stability itself is not stated; the contract is sortedness and permutation.
- React machinery is not modelled: `useMemo` caching, rendering, JSX and event objects. The view is recomputed from the state on every change, and caching does not alter the result.
- The presentational components (`ResourceCard`, `SearchBar`, `Callout`, `ResourceList`, `Badge`) and the CSS constants in `app/lib/typography.ts` hold only markup. The mailto link and the disabled button are among them.
- The dataset module `app/data/resources` is not part of this model. The dataset is any finite sequence of `Resource`. `Resource` carries only the fields the core reads; `id`, `status`, `phone`, `hours`, `accessibility`, `languages` and `source` are displayed but never filtered on.
- That a listing's category is never the sentinel comes from the `ResourceCategory` type, whose values are not part of this model. It is the predicate `Resources.WellFormed`, assumed only where duplicate-freedom of the whole option list needs it.
