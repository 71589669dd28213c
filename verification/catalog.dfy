/** The recipe table and its rows once a similarity score is attached. */
module Catalog {

  datatype Option<T> = None | Some(value: T)

  /** One row of the recipe table. `name` is the `recipe` column. The
      `allergens` cell may be missing (a NaN cell in the table), which is
      `None` here; the other two cells are always present text. */
  datatype Recipe = Recipe(name: string, ingredients: string, allergens: Option<string>)

  /** A table row paired with its similarity score. `pos` is the row's
      position in the catalog, which is its identity. */
  datatype Row = Row(pos: nat, recipe: Recipe, similarity: real)

  /** Rows appear in strictly increasing catalog position. */
  predicate InCatalogOrder(rows: seq<Row>) {
    forall i, j :: 0 <= i < j < |rows| ==> rows[i].pos < rows[j].pos
  }

  /** No catalog position occurs twice. */
  predicate DistinctPositions(rows: seq<Row>) {
    forall i, j :: 0 <= i < j < |rows| ==> rows[i].pos != rows[j].pos
  }

  /** `rows` holds only rows of `catalog`, each with its own score. */
  predicate FromCatalog(rows: seq<Row>, catalog: seq<Recipe>, scores: seq<real>)
    requires |scores| == |catalog|
  {
    forall x | x in rows :: x.pos < |catalog| && x.recipe == catalog[x.pos] && x.similarity == scores[x.pos]
  }

  /** Adds the `similarity` column, one score per row (recommender.py
      assigns a whole column, so `scores` has the catalog's length): the
      result is the whole catalog, in catalog order, each row carrying its
      own recipe and score. */
  function Attach(catalog: seq<Recipe>, scores: seq<real>): (rows: seq<Row>)
    requires |scores| == |catalog|
    ensures |rows| == |catalog|
    ensures InCatalogOrder(rows)
    ensures FromCatalog(rows, catalog, scores)
    ensures forall i :: 0 <= i < |catalog| ==> Row(i, catalog[i], scores[i]) in rows
  {
    var rows := seq(|catalog|, i requires 0 <= i < |catalog| => Row(i, catalog[i], scores[i]));
    assert forall i :: 0 <= i < |catalog| ==> rows[i] == Row(i, catalog[i], scores[i]) && Row(i, catalog[i], scores[i]) in rows;
    rows
  }
}
