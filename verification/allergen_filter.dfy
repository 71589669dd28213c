/** The allergen exclusion of `recommend`: a row is dropped when its
    allergens cell contains an excluded allergen, ignoring case. A missing
    cell never matches. */
module AllergenFilter {
  import opened Text
  import opened Catalog

  /** `allergens` names `allergen`: the cell is present and contains it as a
      case-insensitive substring. A missing cell is read as not matching. */
  function Mentions(allergens: Option<string>, allergen: string): (r: bool)
    ensures allergens.None? ==> !r
    ensures allergens.Some? ==> (r <==> exists i :: OccursAt(Lower(allergens.value), Lower(allergen), i))
  {
    allergens.Some? && ContainsIgnoreCase(allergens.value, allergen)
  }

  /** The cell names at least one of the excluded allergens. */
  predicate MentionsAny(allergens: Option<string>, excluded: seq<string>) {
    exists a | a in excluded :: Mentions(allergens, a)
  }

  /** The rows that name none of `excluded`, in their original order. */
  function Survivors(rows: seq<Row>, excluded: seq<string>): (r: seq<Row>)
    ensures |r| <= |rows|
    ensures forall x :: x in r <==> x in rows && !MentionsAny(x.recipe.allergens, excluded)
    ensures InCatalogOrder(rows) ==> InCatalogOrder(r)
  {
    if rows == [] then
      []
    else
      var rest := Survivors(rows[1..], excluded);
      assert forall x :: x in rows <==> x == rows[0] || x in rows[1..];
      if MentionsAny(rows[0].recipe.allergens, excluded) then
        rest
      else
        assert InCatalogOrder(rows) ==> forall x | x in rows[1..] :: rows[0].pos < x.pos;
        [rows[0]] + rest
  }

  /** One pass of the loop body in `recommend`: drop the rows naming
      `allergen`. */
  function Exclude(rows: seq<Row>, allergen: string): (r: seq<Row>)
    ensures forall x :: x in r <==> x in rows && !Mentions(x.recipe.allergens, allergen)
  {
    assert forall c :: MentionsAny(c, [allergen]) <==> Mentions(c, allergen);
    Survivors(rows, [allergen])
  }

  /** The loop in `recommend`: the exclusions are applied one at a time, in
      the order given, each pass filtering what the previous ones left. */
  function ExcludeEach(rows: seq<Row>, excluded: seq<string>): (r: seq<Row>)
    ensures forall x :: x in r <==> x in rows && !MentionsAny(x.recipe.allergens, excluded)
    decreases |excluded|
  {
    if excluded == [] then
      rows
    else
      var init := excluded[..|excluded| - 1];
      var last := excluded[|excluded| - 1];
      assert excluded == init + [last];
      assert forall c :: MentionsAny(c, excluded) <==> MentionsAny(c, init) || Mentions(c, last);
      Exclude(ExcludeEach(rows, init), last)
  }

  /** Filtering by `a` and then by `b` is filtering by `a + b` at once. */
  lemma {:induction false} SurvivorsCompose(rows: seq<Row>, a: seq<string>, b: seq<string>)
    ensures Survivors(Survivors(rows, a), b) == Survivors(rows, a + b)
  {
    if rows != [] {
      var x := rows[0];
      assert MentionsAny(x.recipe.allergens, a + b)
        <==> MentionsAny(x.recipe.allergens, a) || MentionsAny(x.recipe.allergens, b);
      SurvivorsCompose(rows[1..], a, b);
    }
  }

  /** Applying the exclusions one at a time removes exactly the rows that
      name any of them. */
  lemma {:induction false} ExcludeEachIsSurvivors(rows: seq<Row>, excluded: seq<string>)
    ensures ExcludeEach(rows, excluded) == Survivors(rows, excluded)
    decreases |excluded|
  {
    if excluded == [] {
      SurvivorsNone(rows);
    } else {
      var init := excluded[..|excluded| - 1];
      var last := excluded[|excluded| - 1];
      assert init + [last] == excluded;
      ExcludeEachIsSurvivors(rows, init);
      SurvivorsCompose(rows, init, [last]);
      calc {
        ExcludeEach(rows, excluded);
        Survivors(ExcludeEach(rows, init), [last]);
        Survivors(Survivors(rows, init), [last]);
        Survivors(rows, excluded);
      }
    }
  }

  /** An empty exclusion list keeps every row. */
  lemma {:induction false} SurvivorsNone(rows: seq<Row>)
    ensures Survivors(rows, []) == rows
  {
    if rows != [] {
      SurvivorsNone(rows[1..]);
      assert rows == [rows[0]] + rows[1..];
    }
  }

  /** The result depends only on which allergens are excluded, not on their
      order or on repetitions. */
  lemma {:induction false} SurvivorsOrderIndependent(rows: seq<Row>, a: seq<string>, b: seq<string>)
    requires forall e :: e in a <==> e in b
    ensures Survivors(rows, a) == Survivors(rows, b)
  {
    if rows != [] {
      assert MentionsAny(rows[0].recipe.allergens, a) <==> MentionsAny(rows[0].recipe.allergens, b);
      SurvivorsOrderIndependent(rows[1..], a, b);
    }
  }

  /** So the loop in `recommend` gives the same rows for any reordering of the
      exclusion list, and repeating an allergen changes nothing. */
  lemma ExcludeEachOrderIndependent(rows: seq<Row>, a: seq<string>, b: seq<string>)
    requires forall e :: e in a <==> e in b
    ensures ExcludeEach(rows, a) == ExcludeEach(rows, b)
  {
    ExcludeEachIsSurvivors(rows, a);
    ExcludeEachIsSurvivors(rows, b);
    SurvivorsOrderIndependent(rows, a, b);
  }

  /** Counted with multiplicity, the filter keeps every copy of a row that
      names no excluded allergen and no copy of one that does. */
  lemma {:induction false} SurvivorsMultiset(rows: seq<Row>, excluded: seq<string>)
    ensures forall x :: multiset(Survivors(rows, excluded))[x] ==
                          if MentionsAny(x.recipe.allergens, excluded) then 0 else multiset(rows)[x]
  {
    if rows != [] {
      SurvivorsMultiset(rows[1..], excluded);
      assert rows == [rows[0]] + rows[1..];
    }
  }

  /** A row whose allergens cell is missing survives every exclusion. */
  lemma MissingCellSurvives(rows: seq<Row>, excluded: seq<string>, x: Row)
    requires x in rows && x.recipe.allergens.None?
    ensures x in Survivors(rows, excluded)
  {
  }

  /** An empty string among the exclusions is a substring of every text, so
      it drops every row whose allergens cell is present. */
  lemma EmptyAllergenDropsPresentCells(rows: seq<Row>, excluded: seq<string>)
    requires "" in excluded
    ensures forall x :: x in Survivors(rows, excluded) ==> x.recipe.allergens.None?
  {
    forall x | x in rows && x.recipe.allergens.Some?
      ensures MentionsAny(x.recipe.allergens, excluded)
    {
      EmptyPatternEverywhere(x.recipe.allergens.value);
      assert Mentions(x.recipe.allergens, "");
    }
  }
}
