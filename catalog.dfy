/** The catalog query layer: the API and category records and the five read-only queries
    over them. The two datasets, which `useApiCatalog.ts` loads once from JSON at start-up, are
    parameters of every query here. */
module ApiCatalog {
  import opened Wrappers
  import opened Seqs
  import opened Text

  /** One entry of the catalog. */
  datatype Api = Api(
    id: int,
    name: string,
    description: string,
    url: string,
    auth: string,
    https: bool,
    category: string,
    categoryEmoji: string,
    score: int,
    grade: string,
    exampleEndpoint: Option<string>)

  datatype Category = Category(name: string, emoji: string, slug: string)

  /** The optional filters of `getApis`; an absent field is `None`. */
  datatype CatalogFilters = CatalogFilters(
    search: Option<string>,
    category: Option<string>,
    auth: Option<string>,
    minScore: Option<int>)

  /** `getApis()` called without filters. */
  const NoFilters := CatalogFilters(None, None, None, None)

  /** A category together with the number of APIs filed under it. */
  datatype CategoryWithCount = CategoryWithCount(name: string, emoji: string, slug: string, count: nat)

  /** The catalog summary; `avgScore` is `None` where the TypeScript code computes NaN. */
  datatype Stats = Stats(totalApis: nat, totalCategories: nat, avgScore: Option<int>, noAuthCount: nat)

  // ---------------------------------------------------------------------------
  // getApis

  /** A text filter is applied only when it is truthy: present and not empty. */
  predicate Truthy(o: Option<string>)
  {
    o.Some? && o.value != ""
  }

  /** A score filter is applied only when it is truthy: present and not zero. */
  predicate TruthyScore(o: Option<int>)
  {
    o.Some? && o.value != 0
  }

  /** The callbacks that `getApis` passes to `filter`: the query `q` occurs in the
      lowercased name or the lowercased description, the category is `name`, the auth
      type is `auth`, the score is at least `minScore`. */
  function SearchHits(q: string, lower: char -> char): Api -> bool
  {
    (a: Api) => Includes(Lower(a.name, lower), q) || Includes(Lower(a.description, lower), q)
  }

  function InCategory(name: string): Api -> bool
  {
    (a: Api) => a.category == name
  }

  function HasAuth(auth: string): Api -> bool
  {
    (a: Api) => a.auth == auth
  }

  function AtLeast(minScore: int): Api -> bool
  {
    (a: Api) => a.score >= minScore
  }

  /** Each filter constrains a record only when its value is truthy. */
  predicate SearchOk(a: Api, f: CatalogFilters, lower: char -> char)
  {
    Truthy(f.search) ==> SearchHits(Lower(f.search.value, lower), lower)(a)
  }

  predicate CategoryOk(a: Api, f: CatalogFilters)
  {
    Truthy(f.category) ==> InCategory(f.category.value)(a)
  }

  predicate AuthOk(a: Api, f: CatalogFilters)
  {
    Truthy(f.auth) ==> HasAuth(f.auth.value)(a)
  }

  predicate ScoreOk(a: Api, f: CatalogFilters)
  {
    TruthyScore(f.minScore) ==> AtLeast(f.minScore.value)(a)
  }

  /** `a` satisfies every filter that is supplied. */
  function MatchesAll(f: CatalogFilters, lower: char -> char): Api -> bool
  {
    (a: Api) => SearchOk(a, f, lower) && CategoryOk(a, f) && AuthOk(a, f) && ScoreOk(a, f)
  }

  /** What `getApis(f)` returns: the records that satisfy all supplied filters at once,
      in catalog order. */
  function Select(apis: seq<Api>, f: CatalogFilters, lower: char -> char): seq<Api>
  {
    Keep(apis, MatchesAll(f, lower))
  }

  /** The filters of the first one, two and three steps of `getApis`. */
  function UpToSearch(f: CatalogFilters, lower: char -> char): Api -> bool
  {
    (a: Api) => SearchOk(a, f, lower)
  }

  function UpToCategory(f: CatalogFilters, lower: char -> char): Api -> bool
  {
    (a: Api) => SearchOk(a, f, lower) && CategoryOk(a, f)
  }

  function UpToAuth(f: CatalogFilters, lower: char -> char): Api -> bool
  {
    (a: Api) => SearchOk(a, f, lower) && CategoryOk(a, f) && AuthOk(a, f)
  }

  /** Each step of `getApis` leaves exactly the records that pass the filters so far. */
  lemma SearchStep(apis: seq<Api>, f: CatalogFilters, lower: char -> char)
    ensures Keep(apis, UpToSearch(f, lower))
         == if Truthy(f.search) then Keep(apis, SearchHits(Lower(f.search.value, lower), lower)) else apis
  {
    if Truthy(f.search) {
      KeepExt(apis, SearchHits(Lower(f.search.value, lower), lower), UpToSearch(f, lower));
    } else {
      KeepAll(apis, UpToSearch(f, lower));
    }
  }

  lemma CategoryStep(apis: seq<Api>, f: CatalogFilters, lower: char -> char)
    ensures Keep(apis, UpToCategory(f, lower))
         == var s := Keep(apis, UpToSearch(f, lower));
            if Truthy(f.category) then Keep(s, InCategory(f.category.value)) else s
  {
    if Truthy(f.category) {
      KeepKeep(apis, UpToSearch(f, lower), InCategory(f.category.value), UpToCategory(f, lower));
    } else {
      KeepExt(apis, UpToSearch(f, lower), UpToCategory(f, lower));
    }
  }

  lemma AuthStep(apis: seq<Api>, f: CatalogFilters, lower: char -> char)
    ensures Keep(apis, UpToAuth(f, lower))
         == var s := Keep(apis, UpToCategory(f, lower));
            if Truthy(f.auth) then Keep(s, HasAuth(f.auth.value)) else s
  {
    if Truthy(f.auth) {
      KeepKeep(apis, UpToCategory(f, lower), HasAuth(f.auth.value), UpToAuth(f, lower));
    } else {
      KeepExt(apis, UpToCategory(f, lower), UpToAuth(f, lower));
    }
  }

  lemma ScoreStep(apis: seq<Api>, f: CatalogFilters, lower: char -> char)
    ensures Select(apis, f, lower)
         == var s := Keep(apis, UpToAuth(f, lower));
            if TruthyScore(f.minScore) then Keep(s, AtLeast(f.minScore.value)) else s
  {
    if TruthyScore(f.minScore) {
      KeepKeep(apis, UpToAuth(f, lower), AtLeast(f.minScore.value), MatchesAll(f, lower));
    } else {
      KeepExt(apis, UpToAuth(f, lower), MatchesAll(f, lower));
    }
  }

  /** `getApis(filters)`: start from a copy of the catalog and narrow it once for every
      truthy filter, in the order search, category, auth, minimum score. */
  method GetApis(apis: seq<Api>, f: CatalogFilters, lower: char -> char) returns (result: seq<Api>)
    ensures result == Select(apis, f, lower)
  {
    result := apis;

    if Truthy(f.search) {
      var q := Lower(f.search.value, lower);
      result := Keep(result, SearchHits(q, lower));
    }
    SearchStep(apis, f, lower);

    if Truthy(f.category) {
      result := Keep(result, InCategory(f.category.value));
    }
    CategoryStep(apis, f, lower);

    if Truthy(f.auth) {
      result := Keep(result, HasAuth(f.auth.value));
    }
    AuthStep(apis, f, lower);

    if TruthyScore(f.minScore) {
      result := Keep(result, AtLeast(f.minScore.value));
    }
    ScoreStep(apis, f, lower);
  }

  /** The filtered list keeps catalog order (it is a subsequence of the catalog), holds
      only records that satisfy every supplied filter, and holds every such record. */
  lemma SelectIsFilter(apis: seq<Api>, f: CatalogFilters, lower: char -> char)
    ensures IsSubsequence(Select(apis, f, lower), apis)
    ensures forall a :: a in Select(apis, f, lower) <==> a in apis && MatchesAll(f, lower)(a)
    ensures |Select(apis, f, lower)| == |Positions(apis, MatchesAll(f, lower))|
  {
    KeepIsSubsequence(apis, MatchesAll(f, lower));
    KeepLength(apis, MatchesAll(f, lower));
  }

  /** Filters that are absent, empty or zero constrain nothing. */
  lemma FalsyFiltersKeepAll(apis: seq<Api>, f: CatalogFilters, lower: char -> char)
    requires !Truthy(f.search) && !Truthy(f.category) && !Truthy(f.auth) && !TruthyScore(f.minScore)
    ensures Select(apis, f, lower) == apis
  {
    KeepAll(apis, MatchesAll(f, lower));
  }

  /** A minimum score of zero is no bound at all: records with negative scores stay. */
  lemma ZeroMinScoreKeepsNegativeScores(apis: seq<Api>, lower: char -> char)
    ensures Select(apis, CatalogFilters(None, None, None, Some(0)), lower) == apis
  {
    FalsyFiltersKeepAll(apis, CatalogFilters(None, None, None, Some(0)), lower);
  }

  // ---------------------------------------------------------------------------
  // getApi

  /** `getApi(id)`: the first record with this id, or `None` when there is none. */
  function GetApi(apis: seq<Api>, id: int): (r: Option<Api>)
    ensures r.None? <==> forall i :: 0 <= i < |apis| ==> apis[i].id != id
    ensures r.Some? ==>
      exists i :: 0 <= i < |apis| && apis[i] == r.value && r.value.id == id &&
        forall j :: 0 <= j < i ==> apis[j].id != id
  {
    if apis == [] then None
    else if apis[0].id == id then Some(apis[0])
    else
      var r := GetApi(apis[1..], id);
      assert forall i :: 0 < i < |apis| ==> apis[1..][i - 1] == apis[i];
      r
  }

  predicate UniqueIds(apis: seq<Api>)
  {
    forall i, j :: 0 <= i < j < |apis| ==> apis[i].id != apis[j].id
  }

  /** With unique ids, looking up the id of any record finds that record. */
  lemma GetApiFindsRecord(apis: seq<Api>, k: int)
    requires UniqueIds(apis) && 0 <= k < |apis|
    ensures GetApi(apis, apis[k].id) == Some(apis[k])
  {
  }

  // ---------------------------------------------------------------------------
  // getCategories

  /** `{...cat, count: apis.filter(a => a.category === cat.name).length}`: the category's
      own fields, and the number of catalog positions filed under its name. */
  function WithCount(cat: Category, apis: seq<Api>): (r: CategoryWithCount)
    ensures r.name == cat.name && r.emoji == cat.emoji && r.slug == cat.slug
    ensures r.count == |Positions(apis, InCategory(cat.name))|
  {
    KeepLength(apis, InCategory(cat.name));
    CategoryWithCount(cat.name, cat.emoji, cat.slug, |Keep(apis, InCategory(cat.name))|)
  }

  /** `getCategories()`: every category, in order and unchanged, with the number of APIs
      whose category is its name. */
  function GetCategories(categories: seq<Category>, apis: seq<Api>): (r: seq<CategoryWithCount>)
    ensures |r| == |categories|
    ensures forall i :: 0 <= i < |r| ==>
      && r[i].name == categories[i].name
      && r[i].emoji == categories[i].emoji
      && r[i].slug == categories[i].slug
      && r[i].count == |Positions(apis, InCategory(categories[i].name))|
  {
    seq(|categories|, i requires 0 <= i < |categories| => WithCount(categories[i], apis))
  }

  function SumOfCounts(r: seq<CategoryWithCount>): nat
  {
    if r == [] then 0 else SumOfCounts(r[..|r| - 1]) + r[|r| - 1].count
  }

  predicate DistinctNames(categories: seq<Category>)
  {
    forall i, j :: 0 <= i < j < |categories| ==> categories[i].name != categories[j].name
  }

  /** How many categories are called `name`. */
  function NameHits(categories: seq<Category>, name: string): nat
  {
    if categories == [] then 0
    else NameHits(categories[..|categories| - 1], name) + (if categories[|categories| - 1].name == name then 1 else 0)
  }

  lemma {:induction false} NameHitsAtMostOne(categories: seq<Category>, name: string)
    requires DistinctNames(categories)
    ensures NameHits(categories, name) <= 1
    ensures NameHits(categories, name) == 1 <==> exists c :: c in categories && c.name == name
  {
    if categories != [] {
      var n := |categories| - 1;
      var init := categories[..n];
      assert categories == init + [categories[n]];
      NameHitsAtMostOne(init, name);
      if categories[n].name == name {
        assert !exists c :: c in init && c.name == name;
      }
    }
  }

  lemma {:induction false} GetCategoriesPrefix(categories: seq<Category>, apis: seq<Api>, k: nat)
    requires k <= |categories|
    ensures GetCategories(categories, apis)[..k] == GetCategories(categories[..k], apis)
  {
  }

  /** Adding one API to the catalog raises the total of all counts by the number of
      categories it is filed under. */
  lemma {:induction false} SumOfCountsAddApi(categories: seq<Category>, apis: seq<Api>, a: Api)
    ensures SumOfCounts(GetCategories(categories, apis + [a]))
         == SumOfCounts(GetCategories(categories, apis)) + NameHits(categories, a.category)
  {
    if categories != [] {
      var n := |categories| - 1;
      SumOfCountsAddApi(categories[..n], apis, a);
      GetCategoriesPrefix(categories, apis + [a], n);
      GetCategoriesPrefix(categories, apis, n);
      var name := categories[n].name;
      assert (apis + [a])[..|apis|] == apis;
      assert Keep(apis + [a], InCategory(name))
          == Keep(apis, InCategory(name)) + (if a.category == name then [a] else []);
    }
  }

  /** With distinct category names the counts add up to at most the number of APIs, and
      to exactly that number when every API's category is the name of some category. */
  lemma {:induction false} CategoryCountsBounded(categories: seq<Category>, apis: seq<Api>)
    requires DistinctNames(categories)
    ensures SumOfCounts(GetCategories(categories, apis)) <= |apis|
    ensures (forall a :: a in apis ==> exists c :: c in categories && c.name == a.category) ==>
      SumOfCounts(GetCategories(categories, apis)) == |apis|
  {
    if apis == [] {
      ZeroCounts(categories);
    } else {
      var n := |apis| - 1;
      var a := apis[n];
      assert apis == apis[..n] + [a];
      CategoryCountsBounded(categories, apis[..n]);
      SumOfCountsAddApi(categories, apis[..n], a);
      NameHitsAtMostOne(categories, a.category);
    }
  }

  lemma {:induction false} ZeroCounts(categories: seq<Category>)
    ensures SumOfCounts(GetCategories(categories, [])) == 0
  {
    if categories != [] {
      var n := |categories| - 1;
      ZeroCounts(categories[..n]);
      GetCategoriesPrefix(categories, [], n);
    }
  }

  // ---------------------------------------------------------------------------
  // getAuthTypes

  /** `apis.map(a => a.auth)`: one auth value per record, and exactly the values in use. */
  function AuthsOf(apis: seq<Api>): (r: seq<string>)
    ensures |r| == |apis|
    ensures forall x :: x in r <==> exists i :: 0 <= i < |apis| && apis[i].auth == x
  {
    var r := seq(|apis|, i requires 0 <= i < |apis| => apis[i].auth);
    assert forall i :: 0 <= i < |apis| ==> r[i] == apis[i].auth;
    r
  }

  /** `getAuthTypes()`: the auth values that occur in the catalog, each once, in
      ascending order. */
  function GetAuthTypes(apis: seq<Api>): (r: seq<string>)
    ensures StrictlyAscending(r)
    ensures forall x :: x in r <==> exists i :: 0 <= i < |apis| && apis[i].auth == x
  {
    AuthTypesFacts(apis);
    Sort(Distinct(AuthsOf(apis)))
  }

  lemma AuthTypesFacts(apis: seq<Api>)
    ensures StrictlyAscending(Sort(Distinct(AuthsOf(apis))))
    ensures forall x :: x in Sort(Distinct(AuthsOf(apis))) <==> exists i :: 0 <= i < |apis| && apis[i].auth == x
  {
    var auths := AuthsOf(apis);
    var distinct := Distinct(auths);
    var sorted := Sort(distinct);
    SortSorted(distinct);
    NoDuplicatesPermutation(distinct, sorted);
    SortedDistinctStrict(sorted);
    forall x ensures x in sorted <==> exists i :: 0 <= i < |apis| && apis[i].auth == x {
      assert x in sorted <==> x in multiset(distinct);
      if x in distinct {
        var k :| 0 <= k < |distinct| && distinct[k] == x;
        var i :| 0 <= i < |auths| && auths[i] == x;
        assert apis[i].auth == x;
      }
      if exists i :: 0 <= i < |apis| && apis[i].auth == x {
        var i :| 0 <= i < |apis| && apis[i].auth == x;
        assert auths[i] == x;
      }
    }
  }

  // ---------------------------------------------------------------------------
  // getStats

  /** `apis.reduce((sum, a) => sum + a.score, 0)`: the sum of all scores, added from the
      left starting at 0. */
  function ScoreSum(apis: seq<Api>): int
  {
    if apis == [] then 0 else ScoreSum(apis[..|apis| - 1]) + apis[|apis| - 1].score
  }

  /** `Math.round(sum / n)`: the integer nearest to the mean, halves rounded up; `None`
      (NaN in the TypeScript code) when `n` is zero. */
  function RoundedMean(sum: int, n: nat): (r: Option<int>)
    ensures r.None? <==> n == 0
    ensures r.Some? ==> 2 * n * r.value - n <= 2 * sum < 2 * n * r.value + n
  {
    if n == 0 then None else Some((2 * sum + n) / (2 * n))
  }

  /** When every score lies between `lo` and `hi`, the score sum lies between `n * lo` and
      `n * hi` for `n` records. */
  lemma {:induction false} ScoreSumBounds(apis: seq<Api>, lo: int, hi: int)
    requires forall i :: 0 <= i < |apis| ==> lo <= apis[i].score <= hi
    ensures lo * |apis| <= ScoreSum(apis) <= hi * |apis|
  {
    if apis != [] {
      var n := |apis| - 1;
      assert forall i :: 0 <= i < n ==> apis[..n][i] == apis[i];
      ScoreSumBounds(apis[..n], lo, hi);
    }
  }

  /** The rounded mean of a non-empty catalog lies between its smallest and its largest
      score. */
  lemma AvgScoreWithinScores(apis: seq<Api>, categories: seq<Category>, lo: int, hi: int)
    requires apis != []
    requires forall i :: 0 <= i < |apis| ==> lo <= apis[i].score <= hi
    ensures GetStats(apis, categories).avgScore.Some?
    ensures lo <= GetStats(apis, categories).avgScore.value <= hi
  {
    ScoreSumBounds(apis, lo, hi);
    var n, sum := |apis|, ScoreSum(apis);
    var v := RoundedMean(sum, n).value;
    assert 2 * n * v - n <= 2 * sum < 2 * n * v + n;
    assert 2 * n * (v - hi) == 2 * n * v - 2 * (hi * n);
    assert 2 * n * (lo - v) == 2 * (lo * n) - 2 * n * v;
    FactorBelow(n, v - hi);
    FactorBelow(n, lo - v);
  }

  /** Only a non-positive `k` keeps `2 * n * k` within `n`. */
  lemma FactorBelow(n: int, k: int)
    requires n > 0 && 2 * n * k <= n
    ensures k <= 0
  {
  }

  /** `getStats()` */
  function GetStats(apis: seq<Api>, categories: seq<Category>): (r: Stats)
    ensures r.totalApis == |apis| && r.totalCategories == |categories|
    ensures r.avgScore == RoundedMean(ScoreSum(apis), |apis|)
    ensures r.noAuthCount == |Positions(apis, HasAuth("None"))|
  {
    KeepLength(apis, HasAuth("None"));
    Stats(|apis|, |categories|, RoundedMean(ScoreSum(apis), |apis|), |Keep(apis, HasAuth("None"))|)
  }

  /** The totals agree with the filtered lists: `totalApis` is the length of the unfiltered
      list and `noAuthCount` the length of the list filtered by auth "None". */
  lemma StatsAgreeWithGetApis(apis: seq<Api>, categories: seq<Category>, lower: char -> char)
    ensures GetStats(apis, categories).totalApis == |Select(apis, NoFilters, lower)|
    ensures GetStats(apis, categories).noAuthCount
         == |Select(apis, CatalogFilters(None, None, Some("None"), None), lower)|
  {
    FalsyFiltersKeepAll(apis, NoFilters, lower);
    var f := CatalogFilters(None, None, Some("None"), None);
    KeepExt(apis, MatchesAll(f, lower), HasAuth("None"));
    KeepLength(apis, HasAuth("None"));
  }
}

/** The two-record catalog used to illustrate the queries, and what each query returns on it. */
module CatalogExample {
  import opened Wrappers
  import opened ApiCatalog

  const CatFacts := Api(1, "Cat Facts", "Daily cat facts", "https://catfact.ninja", "None", true,
                        "Animals", "🐾", 80, "B", None)
  const DogApi := Api(2, "Dog API", "Pictures of dogs", "https://dog.ceo", "API Key", true,
                      "Animals", "🐾", 90, "A", None)
  const Animals := Category("Animals", "🐾", "animals")

  lemma ExampleGetApis(lower: char -> char)
    ensures Select([CatFacts, DogApi], CatalogFilters(None, Some("Animals"), None, Some(85)), lower) == [DogApi]
  {
    var f := CatalogFilters(None, Some("Animals"), None, Some(85));
    assert !Truthy(f.search) && Truthy(f.category) && !Truthy(f.auth) && TruthyScore(f.minScore);
    assert !MatchesAll(f, lower)(CatFacts) && MatchesAll(f, lower)(DogApi);
    assert [CatFacts, DogApi][..1] == [CatFacts] && [CatFacts][..0] == [];
    assert Seqs.Keep([CatFacts], MatchesAll(f, lower)) == [];
  }

  lemma ExampleGetApi()
    ensures GetApi([CatFacts, DogApi], 2) == Some(DogApi) && GetApi([CatFacts, DogApi], 3) == None
  {
  }

  lemma ExampleGetCategories()
    ensures GetCategories([Animals], [CatFacts, DogApi]) == [CategoryWithCount("Animals", "🐾", "animals", 2)]
  {
    assert Seqs.Positions([CatFacts, DogApi], InCategory("Animals")) == {0, 1};
  }

  lemma ExampleGetAuthTypes()
    ensures GetAuthTypes([CatFacts, DogApi]) == ["API Key", "None"]
  {
    ExampleDistinctAuths();
    ExampleSortAuths();
  }

  lemma ExampleDistinctAuths()
    ensures Seqs.Distinct(AuthsOf([CatFacts, DogApi])) == ["None", "API Key"]
  {
    var auths := ["None", "API Key"];
    assert AuthsOf([CatFacts, DogApi]) == auths;
    assert auths[..1] == ["None"] && ["None"][..0] == [];
    assert Seqs.Distinct(["None"]) == ["None"];
  }

  lemma ExampleSortAuths()
    ensures Text.Sort(["None", "API Key"]) == ["API Key", "None"]
  {
    assert Text.Sort(["API Key"]) == ["API Key"];
    assert Text.Less("API Key", "None");
    assert Text.Insert("None", ["API Key"]) == ["API Key", "None"];
  }

  lemma ExampleGetStats()
    ensures GetStats([CatFacts, DogApi], [Animals]) == Stats(2, 1, Some(85), 1)
  {
    assert [CatFacts, DogApi][..1] == [CatFacts] && [CatFacts][..0] == [];
    assert ScoreSum([CatFacts]) == 80;
    assert ScoreSum([CatFacts, DogApi]) == 170;
    assert Seqs.Positions([CatFacts, DogApi], HasAuth("None")) == {0};
  }
}
