# Free API catalog: the query layer, in Dafny

The site presents a curated catalog of free public APIs. Its only logic is the query layer
`useApiCatalog`, which holds two read-only lists loaded once at start-up, the API records
and the categories, and answers five queries over them:

- `getApis(filters)`: the records that pass up to four filters, in catalog order.
  The filters are a case-insensitive search on name or description, an exact category,
  an exact auth type and an inclusive minimum score. A filter whose value is falsy
  (absent, `""` or `0`) is skipped.
- `getApi(id)`: the first record with that id, or nothing.
- `getCategories()`: every category with the number of APIs filed under it.
- `getAuthTypes()`: the auth types in use, each once, sorted.
- `getStats()`: the number of APIs, the number of categories, the rounded mean score and
  the number of APIs with auth "None".

The model has four modules, plus one of examples:

- `Wrappers` (wrappers.dfy): `Option`. It stands for optional fields and filters, for
  `undefined` from `getApi`, and for the NaN mean of an empty catalog.
- `Seqs` (seqs.dfy): `Array.prototype.filter` as `Keep`, and the first-occurrence order
  of a JavaScript `Set` as `Distinct`. It also proves the facts the queries need: a
  filter is a subsequence, its length is a count of positions, and two filters in a row
  are one filter by the conjunction.
- `Text` (text.dfy): `toLowerCase` as `Lower`, `includes` as `Includes`, and the default
  string order `Less` with its sort. Lowercasing uses a case mapping the caller supplies,
  one character at a time.
- `ApiCatalog` (catalog.dfy): the records, the filters and the five queries. The two
  lists are parameters of every query.
  - `GetApis` is a method that narrows a local `result` through four guarded steps, as
    `useApiCatalog.ts` does. It is proved equal to `Select`, which filters the catalog once by
    the conjunction of all supplied filters.
  - The other four queries are functions.
  - The module `CatalogExample` states what each query returns on a two-record catalog.

`getApis()` without an argument is `GetApis` with `NoFilters`.

## Model

| member | source | states |
|---|---|---|
| `ApiCatalog.GetApis` | composables/useApiCatalog.ts:38-61 | Narrowing the copy of the catalog by each truthy filter in turn yields exactly the one-pass filter of the catalog by the conjunction of the supplied filters (`Select`) |
| `ApiCatalog.SearchHits` | composables/useApiCatalog.ts:44 | Definition, no contract: the search callback holds when the lowercased query occurs in the lowercased name or the lowercased description |
| `ApiCatalog.InCategory` | composables/useApiCatalog.ts:49 | Definition, no contract: the callback `a => a.category === name`, used by the category filter and by the count of `getCategories` (line 76) |
| `ApiCatalog.HasAuth` | composables/useApiCatalog.ts:53 | Definition, no contract: the callback `a => a.auth === auth`, used by the auth filter and by `noAuthCount` (line 95) |
| `ApiCatalog.AtLeast` | composables/useApiCatalog.ts:57 | Definition, no contract: the callback `a => a.score >= minScore` of the minimum-score filter |
| `ApiCatalog.Api` | composables/useApiCatalog.ts:4-16 | Definition, no contract: an API record with the interface's eleven fields; the optional `exampleEndpoint` is an `Option` |
| `ApiCatalog.Category` | composables/useApiCatalog.ts:18-22 | Definition, no contract: a category with name, emoji and slug |
| `ApiCatalog.CatalogFilters` | composables/useApiCatalog.ts:24-29 | Definition, no contract: the four optional filters, each an `Option`; `minScore` is an integer |
| `ApiCatalog.SelectIsFilter` | composables/useApiCatalog.ts:39-60 | The result of `getApis` is a subsequence of the catalog. A record is in it if and only if it is in the catalog and passes every supplied filter: search hit on the lowercased name or description, equal category, equal auth, `score >= minScore`. Its length is the number of catalog positions that pass, so each matching record keeps its multiplicity |
| `ApiCatalog.Truthy` | composables/useApiCatalog.ts:41-53 | Definition, no contract: a text filter applies when it is present and not the empty string |
| `ApiCatalog.TruthyScore` | composables/useApiCatalog.ts:56 | Definition, no contract: the score filter applies when it is present and not zero |
| `ApiCatalog.FalsyFiltersKeepAll` | composables/useApiCatalog.ts:39-58 | When every filter is absent, empty or zero, `getApis` returns the whole catalog unchanged |
| `ApiCatalog.ZeroMinScoreKeepsNegativeScores` | composables/useApiCatalog.ts:56-57 | `minScore: 0` is no bound: the result is the whole catalog, including records with negative scores |
| `ApiCatalog.GetApi` | composables/useApiCatalog.ts:66-68 | `None` exactly when no record has the id. Otherwise the value is a record with that id, and no earlier record has it (first match) |
| `ApiCatalog.GetApiFindsRecord` | composables/useApiCatalog.ts:66-68 | When ids are unique, looking up the id of the k-th record returns that record |
| `ApiCatalog.WithCount` | composables/useApiCatalog.ts:74-77 | The entry for one category keeps its name, emoji and slug, and its count is the number of catalog positions whose category equals the name |
| `ApiCatalog.GetCategories` | composables/useApiCatalog.ts:73-78 | One entry per category, in category order. Each entry keeps name, emoji and slug, and its count is the number of catalog positions whose category equals the name |
| `ApiCatalog.CategoryCountsBounded` | composables/useApiCatalog.ts:73-78 | With distinct category names, the counts sum to at most the number of APIs. They sum to exactly that number when every API's category names some category |
| `ApiCatalog.AuthsOf` | composables/useApiCatalog.ts:84 | `apis.map(a => a.auth)` has one entry per record, and a string is in it if and only if some record has it as its auth |
| `ApiCatalog.GetAuthTypes` | composables/useApiCatalog.ts:83-85 | The list is strictly ascending, so it has no duplicates. A string is in it if and only if some API has it as its auth |
| `ApiCatalog.ScoreSum` | composables/useApiCatalog.ts:94 | Definition, no contract: the left fold `sum + a.score` from 0 over the catalog |
| `ApiCatalog.ScoreSumBounds` | composables/useApiCatalog.ts:94 | When every score lies between `lo` and `hi`, the sum of n scores lies between `n * lo` and `n * hi` |
| `ApiCatalog.RoundedMean` | composables/useApiCatalog.ts:94 | `Math.round(sum / n)`: `None` (NaN) exactly when n = 0. Otherwise the value v satisfies v - 1/2 <= sum/n < v + 1/2, so halves round up |
| `ApiCatalog.GetStats` | composables/useApiCatalog.ts:90-96 | `totalApis` and `totalCategories` are the list lengths, `avgScore` is the rounded mean of the score sum, and `noAuthCount` is the number of positions whose auth is "None" |
| `ApiCatalog.AvgScoreWithinScores` | composables/useApiCatalog.ts:94 | For a non-empty catalog `avgScore` is a number, and it lies between the smallest and the largest score |
| `ApiCatalog.StatsAgreeWithGetApis` | composables/useApiCatalog.ts:90-96 | `totalApis` is the length of `getApis()` and `noAuthCount` is the length of `getApis({auth: "None"})` |
| `Seqs.Keep` | composables/useApiCatalog.ts:43-57 | `filter`: no longer than its input. An element is in the result if and only if it is in the input and satisfies the predicate |
| `Seqs.KeepIsSubsequence` | composables/useApiCatalog.ts:43-57 | `filter` only deletes elements and keeps the rest in order |
| `Seqs.KeepLength` | composables/useApiCatalog.ts:76 | `filter(p).length` is the number of positions whose element satisfies `p` |
| `Seqs.KeepKeep` | composables/useApiCatalog.ts:39-58 | Filtering by `p` and then by `q` equals filtering once by `p && q` |
| `Seqs.Distinct` | composables/useApiCatalog.ts:84 | `[...new Set(xs)]` has no duplicates and holds exactly the values of `xs` |
| `Seqs.NoDuplicatesPermutation` | composables/useApiCatalog.ts:84 | Sorting a duplicate-free list cannot create a duplicate |
| `Text.Lower` | composables/useApiCatalog.ts:42-44 | Definition, no contract: `toLowerCase` maps every character through the supplied case mapping, keeping the length |
| `Text.Includes` | composables/useApiCatalog.ts:44 | `h.includes(n)` holds if and only if `n` occurs in `h` at some position |
| `Text.Less` | composables/useApiCatalog.ts:84 | Definition, no contract: the default order of `sort()`. At the first position where two strings differ the smaller character comes first, and a proper prefix comes before the longer string |
| `Text.LessIrreflexive` | composables/useApiCatalog.ts:84 | No string sorts before itself |
| `Text.LessTransitive` | composables/useApiCatalog.ts:84 | The string order is transitive |
| `Text.LessTotal` | composables/useApiCatalog.ts:84 | Of two different strings, one sorts before the other |
| `Text.Sort` | composables/useApiCatalog.ts:84 | `sort()` returns a permutation of its input |
| `Text.SortSorted` | composables/useApiCatalog.ts:84 | `sort()` returns a list in which no element is smaller than an earlier one |
| `Text.SortedDistinctStrict` | composables/useApiCatalog.ts:84 | A sorted list without duplicates is strictly ascending |
| `CatalogExample.ExampleGetApis` | composables/useApiCatalog.ts:38-61 | Two records, Cat Facts (80) and Dog API (90), both in "Animals". Category "Animals" with minimum score 85 gives Dog API alone |
| `CatalogExample.ExampleGetApi` | composables/useApiCatalog.ts:66-68 | On the same two records, id 2 finds Dog API and id 3 finds nothing |
| `CatalogExample.ExampleGetCategories` | composables/useApiCatalog.ts:73-78 | With both records filed under "Animals", that category has count 2 |
| `CatalogExample.ExampleGetAuthTypes` | composables/useApiCatalog.ts:83-85 | The auth types "None" and "API Key" come out as `["API Key", "None"]` |
| `CatalogExample.ExampleGetStats` | composables/useApiCatalog.ts:90-96 | The stats are 2 APIs, 1 category, mean 85 and 1 API with no auth |

## Left out

- Loading `apis.json` and `categories.json` and the unchecked casts: the two lists are
  parameters of every query.
- The Vue composable wrapper `useApiCatalog()` is left out because it only bundles the
  five functions.
- Array copying and aliasing are left out. The spread copy of the catalog is a value
  copy in the model, because `seq` values cannot alias.
- The site configuration in nuxt.config.ts holds no query logic and is not modelled.
- Unicode case mapping is given as a parameter. `toLowerCase` maps each character
  through a caller-supplied `lower: char -> char`. Mappings that change the length of a
  string or depend on context (final sigma, for example) are not modelled. `includes` is
  searched over code points, while JavaScript searches UTF-16 code units; the two differ
  when the query holds a lone surrogate.
- GetAuthTypes: the order is lexicographic by Unicode code point. JavaScript's default
  `sort` compares UTF-16 code units. The two orders differ only between characters above
  U+FFFF and characters from U+E000 to U+FFFF.
- RoundedMean: scores are integers, and the mean is rounded exactly. The TypeScript code divides
  in binary64 floating point. The two agree whenever every partial sum of scores stays
  below 2^52 in magnitude. Fractional scores are not modelled.
- GetApis: a NaN or fractional `minScore` is not modelled. The filter is an integer, while
  the TypeScript type is `number`: `minScore: -0.5` is truthy and keeps only scores of 0 and
  above, which no integer bound reproduces. A NaN bound is falsy in JavaScript.
- The data invariants the code never checks are not assumed by the queries: unique ids,
  unique category names and slugs, and `categoryEmoji` agreeing with the category.
  Unique ids appear only as a premise of `GetApiFindsRecord`, and distinct names only as
  a premise of `CategoryCountsBounded` and its helper `NameHitsAtMostOne`.

`avgScore` uses `Math.round`, which rounds halves toward positive infinity (-2.5 becomes -2).
An empty catalog gives NaN, which the model represents as `None`.
