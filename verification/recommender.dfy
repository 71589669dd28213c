/** `RecipeRecommender.recommend`: score every catalog row against the
    normalised query, drop the rows naming an excluded allergen, keep the
    `top_n` best and report each as a result record.

    The TF-IDF vectoriser fitted on the catalog's ingredients, and the cosine
    similarity computed with it, are not modelled: they are the opaque
    parameter `similarity`, which maps the normalised query and a row's
    ingredients text to that row's score. */
module Recommender {
  import opened Text
  import opened Catalog
  import opened AllergenFilter
  import opened Ranking

  /** One dictionary of the returned list. */
  datatype ScoredRecipe = ScoredRecipe(recipe: string, ingredients: string, allergens: Option<string>, similarity: real)

  /** `exclude_allergens=None` stands for the empty list. */
  function ExclusionList(excludeAllergens: Option<seq<string>>): (r: seq<string>)
    ensures excludeAllergens.None? ==> forall a :: a !in r
    ensures excludeAllergens.Some? ==> r == excludeAllergens.value
  {
    match excludeAllergens
    case None => []
    case Some(list) => list
  }

  /** The similarity column for a (normalised) query: one score per
      catalog row, each computed from the query and that row's ingredients
      alone, so rows with the same ingredients score the same. */
  function Scores(catalog: seq<Recipe>, similarity: (string, string) -> real, query: string): (scores: seq<real>)
    ensures |scores| == |catalog|
    ensures forall i, j :: 0 <= i < |catalog| && 0 <= j < |catalog| && catalog[i].ingredients == catalog[j].ingredients ==>
              scores[i] == scores[j]
  {
    seq(|catalog|, i requires 0 <= i < |catalog| => similarity(query, catalog[i].ingredients))
  }

  /** The three cells a record holds, read back as a table row. */
  function RecipeOf(r: ScoredRecipe): Recipe {
    Recipe(r.recipe, r.ingredients, r.allergens)
  }

  /** The record built for a kept row: reading it back gives the row's
      cells unchanged, and its score. Only the catalog position is lost. */
  function Format(row: Row): (r: ScoredRecipe)
    ensures RecipeOf(r) == row.recipe && r.similarity == row.similarity
  {
    ScoredRecipe(row.recipe.name, row.recipe.ingredients, row.recipe.allergens, row.similarity)
  }

  /** What catalog row `i` looks like in the result when it is returned. */
  function EntryFor(catalog: seq<Recipe>, scores: seq<real>, i: nat): ScoredRecipe
    requires |scores| == |catalog| && i < |catalog|
  {
    Format(Row(i, catalog[i], scores[i]))
  }

  /** Row `i` survives the allergen exclusion. */
  predicate Eligible(catalog: seq<Recipe>, excluded: seq<string>, i: nat)
    requires i < |catalog|
  {
    !MentionsAny(catalog[i].allergens, excluded)
  }

  /** The rows `recommend` returns, before formatting. */
  function TopRows(catalog: seq<Recipe>, scores: seq<real>, excluded: seq<string>, topN: int): seq<Row>
    requires |scores| == |catalog|
  {
    var all := Attach(catalog, scores);
    NLargest(Survivors(all, excluded), topN)
  }

  /** The kept rows are ranked, at most `topN` of them, and each is a
      surviving catalog row with its own score. */
  lemma TopRowsKept(catalog: seq<Recipe>, scores: seq<real>, excluded: seq<string>, topN: int)
    requires |scores| == |catalog|
    ensures var top := TopRows(catalog, scores, excluded, topN);
      && Ranked(top)
      && |top| <= (if topN <= 0 then 0 else topN)
      && FromCatalog(top, catalog, scores)
      && forall k :: 0 <= k < |top| ==> top[k].pos < |catalog| && Eligible(catalog, excluded, top[k].pos)
  {
    var all := Attach(catalog, scores);
    var survivors := Survivors(all, excluded);
    var top := NLargest(survivors, topN);
    assert top == TopRows(catalog, scores, excluded, topN);
    forall k | 0 <= k < |top|
      ensures top[k] in survivors
    {
      assert top[k] in multiset(top);
    }
  }

  /** When fewer than `topN` rows are kept, every surviving row is kept. */
  lemma TopRowsComplete(catalog: seq<Recipe>, scores: seq<real>, excluded: seq<string>, topN: int)
    requires |scores| == |catalog|
    ensures var top := TopRows(catalog, scores, excluded, topN);
      |top| < topN ==> forall i :: 0 <= i < |catalog| && Eligible(catalog, excluded, i) ==> Row(i, catalog[i], scores[i]) in top
  {
    var all := Attach(catalog, scores);
    var survivors := Survivors(all, excluded);
    var top := NLargest(survivors, topN);
    assert top == TopRows(catalog, scores, excluded, topN);
    if |top| < topN {
      NLargestAll(survivors, topN);
      forall i | 0 <= i < |catalog| && Eligible(catalog, excluded, i)
        ensures Row(i, catalog[i], scores[i]) in top
      {
        assert Row(i, catalog[i], scores[i]) in multiset(survivors);
      }
    }
  }

  /** A surviving row that is not kept is behind every kept row. */
  lemma TopRowsMaximal(catalog: seq<Recipe>, scores: seq<real>, excluded: seq<string>, topN: int, i: nat)
    requires |scores| == |catalog|
    requires i < |catalog| && Eligible(catalog, excluded, i)
    requires Row(i, catalog[i], scores[i]) !in TopRows(catalog, scores, excluded, topN)
    ensures forall y | y in TopRows(catalog, scores, excluded, topN) :: Ahead(y, Row(i, catalog[i], scores[i]))
  {
    var all := Attach(catalog, scores);
    var survivors := Survivors(all, excluded);
    assert NLargest(survivors, topN) == TopRows(catalog, scores, excluded, topN);
    NLargestMaximal(survivors, topN, Row(i, catalog[i], scores[i]));
  }

  /** An absent or empty exclusion list filters nothing: the result is the
      plain top `topN` of the whole catalog. */
  lemma NoExclusionsIsPlainTopN(catalog: seq<Recipe>, scores: seq<real>, excludeAllergens: Option<seq<string>>, topN: int)
    requires |scores| == |catalog|
    requires excludeAllergens == None || excludeAllergens == Some([])
    ensures InCatalogOrder(Attach(catalog, scores))
    ensures TopRows(catalog, scores, ExclusionList(excludeAllergens), topN) == NLargest(Attach(catalog, scores), topN)
  {
    SurvivorsNone(Attach(catalog, scores));
  }

  /** Dropping rows from a ranked sequence leaves it ranked. */
  lemma {:induction false} SurvivorsRanked(rows: seq<Row>, excluded: seq<string>)
    requires Ranked(rows)
    ensures Ranked(Survivors(rows, excluded))
  {
    if rows != [] {
      var rest := Survivors(rows[1..], excluded);
      SurvivorsRanked(rows[1..], excluded);
      if !MentionsAny(rows[0].recipe.allergens, excluded) {
        forall z | z in rest
          ensures Ahead(rows[0], z)
        {
          var j :| 0 <= j < |rows[1..]| && rows[1..][j] == z;
          assert rows[j + 1] == z;
        }
        RankedCons(rows[0], rest);
      }
    }
  }

  /** Excluding rows before ranking them, as `recommend` does, orders the
      survivors exactly as ranking the whole catalog and then dropping the
      excluded rows would. */
  lemma ExcludeThenRankIsRankThenExclude(rows: seq<Row>, excluded: seq<string>)
    requires InCatalogOrder(rows)
    ensures InCatalogOrder(Survivors(rows, excluded))
    ensures Sort(Survivors(rows, excluded)) == Survivors(Sort(rows), excluded)
  {
    var sorted := Sort(rows);
    var a := Sort(Survivors(rows, excluded));
    var b := Survivors(sorted, excluded);
    SurvivorsRanked(sorted, excluded);
    SurvivorsOfSameRows(rows, sorted, excluded);
    RankedUnique(a, b);
  }

  /** Rearranging the rows does not change which rows the filter keeps. */
  lemma SurvivorsOfSameRows(a: seq<Row>, b: seq<Row>, excluded: seq<string>)
    requires multiset(a) == multiset(b)
    ensures multiset(Survivors(a, excluded)) == multiset(Survivors(b, excluded))
  {
    SurvivorsMultiset(a, excluded);
    SurvivorsMultiset(b, excluded);
    forall x
      ensures multiset(Survivors(a, excluded))[x] == multiset(Survivors(b, excluded))[x]
    {
    }
  }

  /** Excluding rows can promote a row that the unfiltered top `topN` does
      not hold, so the filtered result is not in general a subset of the
      unfiltered one; it is the unfiltered ranking with the excluded rows
      dropped, cut at `topN` (see `ExcludeThenRankIsRankThenExclude`). */
  lemma ExclusionCanPromote()
    ensures var catalog := ExampleCatalog();
      && TopRows(catalog, [0.75, 0.5], [], 1) == [Row(0, catalog[0], 0.75)]
      && TopRows(catalog, [0.75, 0.5], ["soy"], 1) == [Row(1, catalog[1], 0.5)]
  {
    ExampleUnfiltered();
    ExampleFiltered();
  }

  /** Two rows: a soy dish that scores higher, and a soy-free one. */
  function ExampleCatalog(): seq<Recipe> {
    [Recipe("Mapo Tofu", "tofu, rice", Some("Soy")), Recipe("Chicken Rice", "chicken, rice", Some("none"))]
  }

  lemma ExampleUnfiltered()
    ensures TopRows(ExampleCatalog(), [0.75, 0.5], [], 1) == [Row(0, ExampleCatalog()[0], 0.75)]
  {
    var catalog := ExampleCatalog();
    var scores := [0.75, 0.5];
    var all := Attach(catalog, scores);
    assert all == [Row(0, catalog[0], 0.75), Row(1, catalog[1], 0.5)];
    SurvivorsNone(all);
    TopRowsKept(catalog, scores, [], 1);
    var plain := TopRows(catalog, scores, [], 1);
    assert |plain| == 1;
  }

  lemma ExampleFiltered()
    ensures TopRows(ExampleCatalog(), [0.75, 0.5], ["soy"], 1) == [Row(1, ExampleCatalog()[1], 0.5)]
  {
    var catalog := ExampleCatalog();
    var scores := [0.75, 0.5];
    var all := Attach(catalog, scores);
    assert all == [Row(0, catalog[0], 0.75), Row(1, catalog[1], 0.5)];
    ExampleMatches();
    assert Survivors(all, ["soy"]) == [all[1]];
    var filtered := TopRows(catalog, scores, ["soy"], 1);
    assert filtered[0] in multiset(filtered);
  }

  lemma ExampleMatches()
    ensures Mentions(Some("Soy"), "soy")
    ensures !Mentions(Some("none"), "soy")
  {
    assert Lower("Soy") == "soy";
    assert Lower("soy") == "soy";
    assert OccursAt(Lower("Soy"), Lower("soy"), 0);
    assert Lower("none") == "none";
    assert "none"[0..3][0] == 'n' && "none"[1..4][0] == 'o';
  }

  /** Each result is a catalog row, its cells unchanged, with its own
      score, and no row is returned twice. This is `FromCatalog` restated
      for the returned records, which no longer carry their catalog
      position: `picked` supplies it. */
  predicate CopiedFromCatalog(catalog: seq<Recipe>, scores: seq<real>, results: seq<ScoredRecipe>, picked: seq<nat>)
    requires |scores| == |catalog|
  {
    && |picked| == |results|
    && (forall k :: 0 <= k < |results| ==>
          picked[k] < |catalog| && results[k] == EntryFor(catalog, scores, picked[k]))
    && (forall k, l :: 0 <= k < l < |results| ==> picked[k] != picked[l])
  }

  /** No result names an excluded allergen. */
  predicate FreeOf(results: seq<ScoredRecipe>, excluded: seq<string>) {
    forall k :: 0 <= k < |results| ==> !MentionsAny(results[k].allergens, excluded)
  }

  /** Best first; equal scores keep catalog order. */
  predicate BestFirst(results: seq<ScoredRecipe>, picked: seq<nat>)
    requires |picked| == |results|
  {
    forall k, l :: 0 <= k < l < |results| ==>
      || results[k].similarity > results[l].similarity
      || (results[k].similarity == results[l].similarity && picked[k] < picked[l])
  }

  /** Fewer than `topN` results only when every surviving row is returned. */
  predicate AllWhenShort(catalog: seq<Recipe>, excluded: seq<string>, topN: int,
                         results: seq<ScoredRecipe>, picked: seq<nat>)
  {
    |results| < topN ==> forall i :: 0 <= i < |catalog| && Eligible(catalog, excluded, i) ==> i in picked
  }

  /** A surviving row left out scores no higher than any result, and when
      it ties with a result it comes later in the catalog. */
  predicate NoneBetterLeftOut(catalog: seq<Recipe>, scores: seq<real>, excluded: seq<string>,
                              results: seq<ScoredRecipe>, picked: seq<nat>)
    requires |scores| == |catalog| && |picked| == |results|
  {
    forall i :: 0 <= i < |catalog| && Eligible(catalog, excluded, i) && i !in picked ==>
      forall k :: 0 <= k < |results| ==>
        var left := EntryFor(catalog, scores, i);
        || results[k].similarity > left.similarity
        || (results[k].similarity == left.similarity && picked[k] < i)
  }

  /** The formatted top rows are copied catalog rows, free of the excluded
      allergens and best first. */
  lemma FormattedTopRowsCopied(catalog: seq<Recipe>, scores: seq<real>, excluded: seq<string>, topN: int, top: seq<Row>,
                               results: seq<ScoredRecipe>, picked: seq<nat>)
    requires |scores| == |catalog|
    requires top == TopRows(catalog, scores, excluded, topN)
    requires |results| == |top| && |picked| == |top|
    requires forall k :: 0 <= k < |top| ==> results[k] == Format(top[k]) && picked[k] == top[k].pos
    ensures CopiedFromCatalog(catalog, scores, results, picked)
    ensures FreeOf(results, excluded)
    ensures BestFirst(results, picked)
    ensures |results| <= if topN <= 0 then 0 else topN
  {
    TopRowsKept(catalog, scores, excluded, topN);
    forall k, l | 0 <= k < l < |top|
      ensures Ahead(top[k], top[l])
    {
    }
  }

  /** The formatted top rows leave out no surviving row that should have
      been returned. */
  lemma FormattedTopRowsComplete(catalog: seq<Recipe>, scores: seq<real>, excluded: seq<string>, topN: int, top: seq<Row>,
                                 results: seq<ScoredRecipe>, picked: seq<nat>)
    requires |scores| == |catalog|
    requires top == TopRows(catalog, scores, excluded, topN)
    requires |results| == |top| && |picked| == |top|
    requires forall k :: 0 <= k < |top| ==> results[k] == Format(top[k]) && picked[k] == top[k].pos
    ensures AllWhenShort(catalog, excluded, topN, results, picked)
    ensures NoneBetterLeftOut(catalog, scores, excluded, results, picked)
  {
    TopRowsComplete(catalog, scores, excluded, topN);
    forall i | 0 <= i < |catalog| && Row(i, catalog[i], scores[i]) in top
      ensures i in picked
    {
      var k :| 0 <= k < |top| && top[k] == Row(i, catalog[i], scores[i]);
      assert picked[k] == i;
    }
    forall i | 0 <= i < |catalog| && Eligible(catalog, excluded, i) && i !in picked
      ensures forall k :: 0 <= k < |results| ==>
        var left := EntryFor(catalog, scores, i);
        || results[k].similarity > left.similarity
        || (results[k].similarity == left.similarity && picked[k] < i)
    {
      TopRowsMaximal(catalog, scores, excluded, topN, i);
      assert EntryFor(catalog, scores, i).similarity == scores[i];
      forall k | 0 <= k < |results|
        ensures Ahead(top[k], Row(i, catalog[i], scores[i]))
      {
        assert top[k] in top;
      }
    }
  }

  /** The exclusion step of `recommend`: when the list is not empty, filter by
      each allergen in turn. The result is the one-pass filter `Survivors`;
      the first two ensures spell out what that means (the rows naming none
      of the allergens, in their original order) for readability. */
  method ApplyExclusions(all: seq<Row>, excluded: seq<string>) returns (rows: seq<Row>)
    ensures forall x :: x in rows <==> x in all && !MentionsAny(x.recipe.allergens, excluded)
    ensures InCatalogOrder(all) ==> InCatalogOrder(rows)
    ensures rows == Survivors(all, excluded)
  {
    rows := all;
    if |excluded| > 0 {
      var i := 0;
      while i < |excluded|
        invariant 0 <= i <= |excluded|
        invariant rows == ExcludeEach(all, excluded[..i])
      {
        assert excluded[..i + 1][..i] == excluded[..i];
        rows := Exclude(rows, excluded[i]);
        i := i + 1;
      }
      assert excluded[..|excluded|] == excluded;
    }
    ExcludeEachIsSurvivors(all, excluded);
  }

  /** The result loop of `recommend`: one record per kept row, in ranking order.
      `picked` records, for the proof only, the catalog position of each. */
  method FormatAll(top: seq<Row>) returns (results: seq<ScoredRecipe>, ghost picked: seq<nat>)
    ensures |results| == |top| && |picked| == |top|
    ensures forall k :: 0 <= k < |top| ==>
      && results[k].recipe == top[k].recipe.name
      && results[k].ingredients == top[k].recipe.ingredients
      && results[k].allergens == top[k].recipe.allergens
      && results[k].similarity == top[k].similarity
      && picked[k] == top[k].pos
  {
    results := [];
    picked := [];
    var j := 0;
    while j < |top|
      invariant 0 <= j <= |top|
      invariant |results| == j && |picked| == j
      invariant forall k :: 0 <= k < j ==> results[k] == Format(top[k]) && picked[k] == top[k].pos
    {
      results := results + [Format(top[j])];
      picked := picked + [top[j].pos];
      j := j + 1;
    }
  }

  /** `recommend(user_ingredients, top_n, exclude_allergens)`. Every row
      is scored against the normalised query; `picked` records, for the
      proof only, the catalog position of each result. */
  method Recommend(catalog: seq<Recipe>, similarity: (string, string) -> real,
                   userIngredients: string, topN: int := 5, excludeAllergens: Option<seq<string>> := None)
    returns (results: seq<ScoredRecipe>, ghost picked: seq<nat>)
    ensures CopiedFromCatalog(catalog, Scores(catalog, similarity, Normalize(userIngredients)), results, picked)
    ensures FreeOf(results, ExclusionList(excludeAllergens))
    ensures BestFirst(results, picked)
    ensures |results| <= if topN <= 0 then 0 else topN
    ensures AllWhenShort(catalog, ExclusionList(excludeAllergens), topN, results, picked)
    ensures NoneBetterLeftOut(catalog, Scores(catalog, similarity, Normalize(userIngredients)),
                              ExclusionList(excludeAllergens), results, picked)
  {
    var excluded := ExclusionList(excludeAllergens);
    var query := Normalize(userIngredients);
    var scores := Scores(catalog, similarity, query);
    var all := Attach(catalog, scores);
    var rows := ApplyExclusions(all, excluded);
    var top := NLargest(rows, topN);
    assert top == TopRows(catalog, scores, excluded, topN);
    results, picked := FormatAll(top);
    FormattedTopRowsCopied(catalog, scores, excluded, topN, top, results, picked);
    FormattedTopRowsComplete(catalog, scores, excluded, topN, top, results, picked);
  }
}
