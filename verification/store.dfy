/** The behaviour RecipeDaoImpl and RecipeRepository share: reading a recipe
    row back with its children, and the insert, update and delete
    transactions. The two classes differ only in whether the owner and
    visibility columns are written and read (`authColumns`). */
module RecipeStore {
  import opened Common
  import opened Seqs
  import opened IngredientModel
  import opened RecipeModel
  import opened RecipeTables

  const InsertFailedMessage := "Failed to insert recipe"
  const UpdateFailedMessage := "Failed to update recipe"
  const DeleteFailedMessage := "Failed to delete recipe"

  /** What `save` does: it writes and returns the caller's recipe, refuses it
      before any write, or throws after a rolled-back write. A failed insert
      whose INSERT went through has already set the generated id on the
      caller's object. */
  datatype SaveOutcome =
    | Saved(tables: Tables, recipe: Recipe)
    | Rejected(error: Error)
    | Failed(tables: Tables, error: Error, recipe: Recipe)

  /** The result of a write that returns nothing. */
  datatype WriteOutcome = Done(tables: Tables) | Aborted(tables: Tables, error: Error)

  // ---------------------------------------------------------------------
  // Reads
  // ---------------------------------------------------------------------

  /** mapRowToRecipe, then loadIngredients and loadInstructions. Owner and
      visibility are read only when the query selects those columns. */
  function Load(t: Tables, row: RecipeRow, authColumns: bool): (r: Recipe)
    ensures r.id == Some(row.id)
    ensures !r.ingredients.unmodifiable && !r.instructions.unmodifiable
    ensures !authColumns ==> r.ownerUserId.None? && r.visibility.None?
  {
    Recipe(Some(row.id), row.title, row.description, row.preparationTime, row.cookingTime, row.servings,
           row.difficulty, row.category,
           JList(WrapAll(IngredientsOf(t, row.id)), false),
           JList(WrapAll(InstructionsOf(t, row.id)), false),
           if authColumns then row.ownerUserId else None,
           if authColumns then row.visibility else None)
  }

  function LoadWith(t: Tables, authColumns: bool): RecipeRow -> Recipe {
    (row: RecipeRow) => Load(t, row, authColumns)
  }

  /** `findById(id)`: empty for a null id or an id without a row. */
  function FindById(t: Tables, id: Option<int>, authColumns: bool): (r: Option<Recipe>)
    ensures id.None? ==> r.None?
    ensures r.Some? ==> r.value.id == id
    ensures id.Some? ==> (r.Some? <==> exists row :: row in t.recipes && row.id == id.value)
  {
    if id.None? then None
    else match FindRow(t.recipes, id.value)
      case None => None
      case Some(row) => Some(Load(t, row, authColumns))
  }

  /** `findAll()`: every recipe row, in storage order. */
  function FindAll(t: Tables, authColumns: bool): (rs: seq<Recipe>)
    ensures |rs| == |t.recipes|
    ensures forall k :: 0 <= k < |rs| ==> rs[k].id == Some(t.recipes[k].id)
  {
    Map(t.recipes, LoadWith(t, authColumns))
  }

  lemma {:induction false} FindRowUnique(rows: seq<RecipeRow>, k: int)
    requires forall i, j :: 0 <= i < j < |rows| ==> rows[i].id != rows[j].id
    requires 0 <= k < |rows|
    ensures FindRow(rows, rows[k].id) == Some(rows[k])
    decreases |rows|
  {
    if k > 0 {
      assert rows[0].id != rows[k].id;
      FindRowUnique(rows[1..], k - 1);
    }
  }

  /** On a well-formed store every recipe findAll lists is the one findById returns for its id. */
  lemma FindAllAgreesWithFindById(t: Tables, authColumns: bool, k: int)
    requires WellFormed(t)
    requires 0 <= k < |t.recipes|
    ensures FindAll(t, authColumns)[k].id == Some(t.recipes[k].id)
    ensures FindById(t, Some(t.recipes[k].id), authColumns) == Some(FindAll(t, authColumns)[k])
  {
    FindRowUnique(t.recipes, k);
  }

  /** The recipe's own columns. */
  predicate RowMatches(row: RecipeRow, r: Recipe) {
    && row.title == r.title && row.description == r.description
    && row.preparationTime == r.preparationTime && row.cookingTime == r.cookingTime
    && row.servings == r.servings && row.difficulty == r.difficulty && row.category == r.category
  }

  /** A recipe read back after `saved` was written: same id and columns, the
      stored form of the non-null ingredients in some order (the reload has no
      ORDER BY), and the non-blank steps in order. */
  predicate ReloadsAs(loaded: Recipe, saved: Recipe) {
    && loaded.id == saved.id
    && loaded.title == saved.title && loaded.description == saved.description
    && loaded.preparationTime == saved.preparationTime && loaded.cookingTime == saved.cookingTime
    && loaded.servings == saved.servings && loaded.difficulty == saved.difficulty
    && loaded.category == saved.category
    && multiset(Contents(loaded.ingredients.items)) == multiset(Contents(saved.ingredients.items))
    && loaded.instructions.items == WrapAll(NonBlankSteps(saved.instructions.items))
  }

  lemma NonNullOfWrapAll(xs: seq<Ingredient>)
    ensures NonNullIngredients(WrapAll(xs)) == xs
    decreases |xs|
  {
    if |xs| > 0 {
      assert WrapAll(xs)[1..] == WrapAll(xs[1..]);
      NonNullOfWrapAll(xs[1..]);
    }
  }

  /** A recipe whose children were written fresh under its id reloads as what was saved. */
  lemma LoadAfterChildren(t: Tables, rid: int, r: Recipe, row: RecipeRow, authColumns: bool)
    requires forall x :: x in t.ingredients ==> x.recipeId != rid
    requires forall x :: x in t.instructions ==> x.recipeId != rid
    requires row.id == rid && RowMatches(row, r) && r.id == Some(rid)
    ensures ReloadsAs(Load(WithChildren(t, rid, r), row, authColumns), r)
  {
    ChildrenRoundTrip(t, rid, r);
    NonNullOfWrapAll(IngredientsOf(WithChildren(t, rid, r), rid));
  }

  // ---------------------------------------------------------------------
  // Writes
  // ---------------------------------------------------------------------

  /** insert(): INSERT the recipe row, set the generated key on the caller's
      recipe, write its children, commit. `row` holds the columns the class writes. */
  function InsertTx(t: Tables, r: Recipe, row: RecipeRow, fault: Option<nat>): (out: SaveOutcome)
    ensures out.Saved? || out.Failed?
    ensures fault.None? ==> out.Saved?
    ensures out.Saved? ==> out.recipe == r.(id := Some(t.nextRecipeId))
    ensures out.Saved? ==> out.tables == WithChildren(AppendRow(t, row), t.nextRecipeId, r)
    ensures out.Failed? ==> out.error == StoreFailure(InsertFailedMessage) && SameRows(out.tables, t)
    ensures out.Failed? && fault == Some(0) ==> out.recipe == r
    ensures out.Failed? && fault != Some(0) ==> out.recipe == r.(id := Some(t.nextRecipeId))
  {
    var stmts := InsertStatements(t, row, r);
    match RunTx(t, stmts, fault)
    case Committed(u) =>
      InsertEffect(t, row, r);
      Saved(u, r.(id := Some(t.nextRecipeId)))
    case RolledBack(u) =>
      Failed(u, StoreFailure(InsertFailedMessage), if fault == Some(0) then r else r.(id := Some(t.nextRecipeId)))
  }

  /** update(): UPDATE the recipe row by id, delete its children, write them
      again, commit. An id without a row updates nothing, yet its children
      are still written. */
  function UpdateTx(t: Tables, r: Recipe, row: RecipeRow, authColumns: bool, fault: Option<nat>): (out: SaveOutcome)
    requires r.id.Some?
    ensures out.Saved? || out.Failed?
    ensures fault.None? ==> out.Saved?
    ensures out.Saved? ==> out.recipe == r
    ensures out.Saved? ==> out.tables == WithChildren(WithoutChildren(
              t.(recipes := Map(t.recipes, ReplaceRow(row.(id := r.id.value), authColumns))), r.id.value), r.id.value, r)
    ensures out.Failed? ==> out.error == StoreFailure(UpdateFailedMessage) && SameRows(out.tables, t) && out.recipe == r
  {
    var id := r.id.value;
    match RunTx(t, UpdateStatements(id, row, authColumns, r), fault)
    case Committed(u) =>
      UpdateEffect(t, id, row, authColumns, r);
      Saved(u, r)
    case RolledBack(u) =>
      Failed(u, StoreFailure(UpdateFailedMessage), r)
  }

  /** delete(id) for a non-null id: ingredients, instructions, then the recipe row. */
  function DeleteTx(t: Tables, id: int, fault: Option<nat>): (out: WriteOutcome)
    ensures fault.None? ==> out.Done?
    ensures out.Done? ==> out.tables == WithoutChildren(t, id).(recipes := Keep(t.recipes, RecipeIsNot(id)))
    ensures out.Aborted? ==> out.error == StoreFailure(DeleteFailedMessage) && SameRows(out.tables, t)
  {
    match RunTx(t, DeleteStatements(id), fault)
    case Committed(u) =>
      DeleteEffect(t, id);
      Done(u)
    case RolledBack(u) => Aborted(u, StoreFailure(DeleteFailedMessage))
  }

  // ---------------------------------------------------------------------
  // Properties of the writes
  // ---------------------------------------------------------------------

  /** An insert hands out an id no recipe row had, and reading that id back
      gives the recipe as saved. */
  lemma InsertRoundTrip(t: Tables, r: Recipe, row: RecipeRow, fault: Option<nat>, authColumns: bool)
    requires WellFormed(t) && RowMatches(row, r)
    requires InsertTx(t, r, row, fault).Saved?
    ensures var out := InsertTx(t, r, row, fault);
            && (forall x :: x in t.recipes ==> x.id != t.nextRecipeId)
            && out.recipe.id == Some(t.nextRecipeId)
            && FindById(out.tables, out.recipe.id, authColumns) == Some(Load(out.tables, row.(id := t.nextRecipeId), authColumns))
            && ReloadsAs(Load(out.tables, row.(id := t.nextRecipeId), authColumns), out.recipe)
  {
    var id := t.nextRecipeId;
    var a := AppendRow(t, row);
    assert forall x :: x in t.recipes ==> x.id != id;
    assert FindRow(a.recipes, id) == Some(row.(id := id)) by {
      FindRowLast(t.recipes, row.(id := id));
    }
    LoadAfterChildren(a, id, r.(id := Some(id)), row.(id := id), authColumns);
    assert ChildStatements(id, r.(id := Some(id))) == ChildStatements(id, r);
  }

  lemma {:induction false} FindRowLast(rows: seq<RecipeRow>, last: RecipeRow)
    requires forall x :: x in rows ==> x.id != last.id
    ensures FindRow(rows + [last], last.id) == Some(last)
    decreases |rows|
  {
    if |rows| > 0 {
      assert (rows + [last])[1..] == rows[1..] + [last];
      FindRowLast(rows[1..], last);
    }
  }

  /** An update of an existing row: reading the id back gives the recipe as
      saved, with the old children gone. */
  lemma UpdateRoundTrip(t: Tables, r: Recipe, row: RecipeRow, authColumns: bool, fault: Option<nat>)
    requires r.id.Some? && RowMatches(row, r)
    requires FindRow(t.recipes, r.id.value).Some?
    requires UpdateTx(t, r, row, authColumns, fault).Saved?
    ensures var out := UpdateTx(t, r, row, authColumns, fault);
            var stored := ReplaceRow(row.(id := r.id.value), authColumns)(FindRow(t.recipes, r.id.value).value);
            && FindById(out.tables, r.id, authColumns) == Some(Load(out.tables, stored, authColumns))
            && ReloadsAs(Load(out.tables, stored, authColumns), r)
  {
    var id := r.id.value;
    var replaced := t.(recipes := Map(t.recipes, ReplaceRow(row.(id := id), authColumns)));
    FindRowReplaced(t.recipes, row.(id := id), authColumns, id);
    var cleared := WithoutChildren(replaced, id);
    WithoutChildrenEffect(replaced, id, id);
    var stored := ReplaceRow(row.(id := id), authColumns)(FindRow(t.recipes, id).value);
    LoadAfterChildren(cleared, id, r, stored, authColumns);
  }

  /** An update of an id that has no recipe row changes no recipe row but
      leaves child rows under that id (no foreign key stops them). */
  lemma UpdateOfMissingRowLeavesChildren(t: Tables, r: Recipe, row: RecipeRow, authColumns: bool, fault: Option<nat>)
    requires r.id.Some?
    requires FindRow(t.recipes, r.id.value).None?
    requires UpdateTx(t, r, row, authColumns, fault).Saved?
    ensures var out := UpdateTx(t, r, row, authColumns, fault);
            && out.tables.recipes == t.recipes
            && FindById(out.tables, r.id, authColumns).None?
            && Map(IngredientsOf(out.tables, r.id.value), Data) == Contents(r.ingredients.items)
            && InstructionsOf(out.tables, r.id.value) == NonBlankSteps(r.instructions.items)
  {
    var id := r.id.value;
    MapUnchanged(t.recipes, ReplaceRow(row.(id := id), authColumns));
    var cleared := WithoutChildren(t, id);
    WithoutChildrenEffect(t, id, id);
    ChildrenRoundTrip(cleared, id, r);
  }

  lemma MapUnchanged(rows: seq<RecipeRow>, f: RecipeRow -> RecipeRow)
    requires forall x :: x in rows ==> f(x) == x
    ensures Map(rows, f) == rows
  {
  }

  /** A save touches no other recipe. */
  lemma InsertFrame(t: Tables, r: Recipe, row: RecipeRow, fault: Option<nat>, authColumns: bool, other: int)
    requires InsertTx(t, r, row, fault).Saved?
    requires other != t.nextRecipeId
    ensures FindById(InsertTx(t, r, row, fault).tables, Some(other), authColumns) == FindById(t, Some(other), authColumns)
  {
    var a := AppendRow(t, row);
    FindRowAppend(t.recipes, [row.(id := t.nextRecipeId)], other);
    ChildrenFrame(a, t.nextRecipeId, r, other);
  }

  lemma UpdateFrame(t: Tables, r: Recipe, row: RecipeRow, authColumns: bool, fault: Option<nat>, other: int)
    requires r.id.Some? && other != r.id.value
    requires UpdateTx(t, r, row, authColumns, fault).Saved?
    ensures FindById(UpdateTx(t, r, row, authColumns, fault).tables, Some(other), authColumns) == FindById(t, Some(other), authColumns)
  {
    var id := r.id.value;
    var replaced := t.(recipes := Map(t.recipes, ReplaceRow(row.(id := id), authColumns)));
    FindRowReplaced(t.recipes, row.(id := id), authColumns, other);
    WithoutChildrenEffect(replaced, id, other);
    ChildrenFrame(WithoutChildren(replaced, id), id, r, other);
  }

  /** delete(id) removes the recipe and all its children and touches no other recipe. */
  lemma DeleteRemovesOnly(t: Tables, id: int, fault: Option<nat>, authColumns: bool, other: int)
    requires DeleteTx(t, id, fault).Done?
    ensures var u := DeleteTx(t, id, fault).tables;
            && FindById(u, Some(id), authColumns).None?
            && IngredientsOf(u, id) == [] && InstructionsOf(u, id) == []
            && (forall x :: x in u.ingredients ==> x.recipeId != id)
            && (forall x :: x in u.instructions ==> x.recipeId != id)
            && (other != id ==> FindById(u, Some(other), authColumns) == FindById(t, Some(other), authColumns))
  {
    WithoutChildrenEffect(t, id, other);
    if other != id {
      FindRowKeep(t.recipes, id, other);
    }
  }

  /** Every committed write keeps the store well-formed, as long as an
      update names an id the counter has already handed out. */
  lemma InsertKeepsWellFormed(t: Tables, r: Recipe, row: RecipeRow, fault: Option<nat>)
    requires WellFormed(t)
    ensures WellFormed(InsertTx(t, r, row, fault).tables)
  {
    var out := InsertTx(t, r, row, fault);
    if out.Saved? {
      var a := AppendRow(t, row);
      var u := WithChildren(a, t.nextRecipeId, r);
      forall i, j | 0 <= i < j < |u.recipes| ensures u.recipes[i].id != u.recipes[j].id {
        if j == |t.recipes| {
          assert u.recipes[i] in t.recipes;
        }
      }
    }
  }

  lemma UpdateKeepsWellFormed(t: Tables, r: Recipe, row: RecipeRow, authColumns: bool, fault: Option<nat>)
    requires WellFormed(t)
    requires r.id.Some? && r.id.value < t.nextRecipeId
    ensures WellFormed(UpdateTx(t, r, row, authColumns, fault).tables)
  {
    var out := UpdateTx(t, r, row, authColumns, fault);
    if out.Saved? {
      var id := r.id.value;
      var replaced := t.(recipes := Map(t.recipes, ReplaceRow(row.(id := id), authColumns)));
      ReplaceKeepsWellFormed(t, row.(id := id), authColumns);
      ChildrenKeepWellFormed(replaced, id, r);
    }
  }

  /** Rewriting the row with a given id keeps every id where it was. */
  lemma ReplaceKeepsWellFormed(t: Tables, row: RecipeRow, authColumns: bool)
    requires WellFormed(t)
    ensures WellFormed(t.(recipes := Map(t.recipes, ReplaceRow(row, authColumns))))
  {
    var replaced := Map(t.recipes, ReplaceRow(row, authColumns));
    assert forall k :: 0 <= k < |replaced| ==> replaced[k].id == t.recipes[k].id;
    forall x | x in replaced ensures x.id < t.nextRecipeId {
      var k :| 0 <= k < |replaced| && replaced[k] == x;
      assert t.recipes[k] in t.recipes;
    }
  }

  /** Replacing the children of a recipe row the counter has handed out
      keeps the store well-formed. */
  lemma ChildrenKeepWellFormed(t: Tables, rid: int, r: Recipe)
    requires WellFormed(t) && rid < t.nextRecipeId
    ensures WellFormed(WithChildren(WithoutChildren(t, rid), rid, r))
  {
    var w := WithoutChildren(t, rid);
    assert WellFormed(w);
  }

  lemma DeleteKeepsWellFormed(t: Tables, id: int, fault: Option<nat>)
    requires WellFormed(t)
    ensures WellFormed(DeleteTx(t, id, fault).tables)
  {
    var out := DeleteTx(t, id, fault);
    if out.Done? {
      var kept := Keep(t.recipes, RecipeIsNot(id));
      UniqueIdsSubseq(kept, t.recipes);
    }
  }

  /** A subsequence of rows with distinct ids has distinct ids. */
  lemma {:induction false} UniqueIdsSubseq(a: seq<RecipeRow>, b: seq<RecipeRow>)
    requires IsSubseq(a, b)
    requires forall i, j :: 0 <= i < j < |b| ==> b[i].id != b[j].id
    ensures forall i, j :: 0 <= i < j < |a| ==> a[i].id != a[j].id
    decreases |b|
  {
    if |a| > 0 {
      var b' := b[1..];
      assert forall i, j :: 0 <= i < j < |b'| ==> b'[i].id != b'[j].id by {
        forall i, j | 0 <= i < j < |b'| ensures b'[i].id != b'[j].id {
          assert b'[i] == b[i + 1] && b'[j] == b[j + 1];
        }
      }
      if a[0] == b[0] && IsSubseq(a[1..], b') {
        UniqueIdsSubseq(a[1..], b');
        SubseqMembers(a[1..], b');
        forall i, j | 0 <= i < j < |a| ensures a[i].id != a[j].id {
          if i == 0 {
            assert a[j] == a[1..][j - 1];
            assert a[j] in b';
            var k :| 0 <= k < |b'| && b'[k] == a[j];
            assert b[k + 1] == a[j];
          } else {
            assert a[i] == a[1..][i - 1] && a[j] == a[1..][j - 1];
          }
        }
      } else {
        UniqueIdsSubseq(a, b');
      }
    }
  }
}
