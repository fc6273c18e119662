/** RecipeRepository: the older copy of the recipe store. It neither writes
    nor reads the owner and visibility columns, and adds deleteAll, count
    and isRecipeComplete. */
module RecipeRepository {
  import opened Common
  import opened Seqs
  import opened Text
  import opened RecipeModel
  import opened RecipeValidation
  import opened RecipeTables
  import opened RecipeStore

  const NullRecipeMessage := "Recipe cannot be null"
  const DeleteAllFailedMessage := "Failed to delete all recipes"

  /** The seven columns insert and update bind. Owner and visibility are not
      in the INSERT column list, so a new row takes the schema defaults for
      them, which the model takes to be null. */
  function RowOf(r: Recipe): (row: RecipeRow)
    ensures RowMatches(row, r)
    ensures row.ownerUserId.None? && row.visibility.None?
  {
    RecipeRow(0, r.title, r.description, r.preparationTime, r.cookingTime, r.servings,
              r.difficulty, r.category, None, None)
  }

  /** `save(recipe)` */
  function Save(t: Tables, r: Option<Recipe>, fault: Option<nat>): (out: SaveOutcome)
    ensures r.None? ==> out == Rejected(IllegalArgument(NullRecipeMessage))
    ensures r.Some? ==> (out.Rejected? <==> !ValidFields(r.value))
    ensures r.Some? && !ValidFields(r.value) ==> out == Rejected(ValidateRecipeFields(r.value).value)
    ensures r.Some? && ValidFields(r.value) && fault.None? ==> out.Saved?
    ensures out.Saved? ==> r.Some? && out.recipe.id.Some? && out.recipe == r.value.(id := out.recipe.id)
    ensures out.Saved? && r.value.id.Some? ==> out.recipe == r.value
    ensures out.Saved? && r.value.id.None? ==> out.recipe.id == Some(t.nextRecipeId)
    ensures out.Failed? ==> SameRows(out.tables, t) && out.error.StoreFailure?
  {
    if r.None? then Rejected(IllegalArgument(NullRecipeMessage))
    else match ValidateRecipeFields(r.value)
      case Some(e) => Rejected(e)
      case None =>
        if r.value.id.None? then InsertTx(t, r.value, RowOf(r.value), fault)
        else UpdateTx(t, r.value, RowOf(r.value), false, fault)
  }

  /** `findById(id)`: owner and visibility are not selected, so they come back null. */
  function FindById(t: Tables, id: Option<int>): (r: Option<Recipe>)
    ensures id.None? ==> r.None?
    ensures r.Some? ==> r.value.id == id && r.value.ownerUserId.None? && r.value.visibility.None?
    ensures id.Some? ==> (r.Some? <==> exists row :: row in t.recipes && row.id == id.value)
  {
    RecipeStore.FindById(t, id, false)
  }

  /** `findAll()` */
  function FindAll(t: Tables): (rs: seq<Recipe>)
    ensures |rs| == |t.recipes|
    ensures forall k :: 0 <= k < |rs| ==> rs[k].id == Some(t.recipes[k].id) && rs[k].ownerUserId.None? && rs[k].visibility.None?
  {
    RecipeStore.FindAll(t, false)
  }

  /** `delete(id)` */
  function Delete(t: Tables, id: Option<int>, fault: Option<nat>): (out: WriteOutcome)
    ensures id.None? ==> out == Done(t)
    ensures id.Some? && fault.None? ==> out.Done?
    ensures out.Done? && id.Some? ==> FindById(out.tables, id).None?
    ensures out.Aborted? ==> out.error == StoreFailure(DeleteFailedMessage) && SameRows(out.tables, t)
  {
    if id.None? then Done(t) else DeleteTx(t, id.value, fault)
  }

  /** `deleteAll()`: one autocommitted `DELETE FROM recipe`; ingredient and
      instruction rows are not touched, the child tables being taken to have
      no foreign key to the recipe id. */
  function DeleteAll(t: Tables, fails: bool): (out: WriteOutcome)
    ensures fails <==> out.Aborted?
    ensures out.Done? ==> out.tables.recipes == [] && out.tables.ingredients == t.ingredients && out.tables.instructions == t.instructions
    ensures out.Aborted? ==> out.tables == t && out.error == StoreFailure(DeleteAllFailedMessage)
  {
    if fails then Aborted(t, StoreFailure(DeleteAllFailedMessage)) else Done(ApplyAll(t, [DeleteAllRecipes]))
  }

  /** `count()`: `SELECT COUNT(*) FROM recipe`. */
  function Count(t: Tables): (n: nat)
    ensures n == |FindAll(t)|
  {
    |t.recipes|
  }

  /** `isRecipeComplete(recipe)`: non-null, every field check of
      validateRecipeFields, and non-empty ingredient and instruction lists. */
  function IsRecipeComplete(r: Option<Recipe>): (b: bool)
    ensures b <==> r.Some? && ValidateRecipeFields(r.value).None? && |r.value.ingredients.items| > 0 && |r.value.instructions.items| > 0
  {
    if r.None? then false
    else
      var x := r.value;
      FilledIsNonBlank(x.title);
      FilledIsNonBlank(x.description);
      FilledIsNonBlank(x.difficulty);
      FilledIsNonBlank(x.category);
      && x.title.Some? && Trim(x.title.value) != []
      && x.description.Some? && Trim(x.description.value) != []
      && x.preparationTime >= 0
      && x.cookingTime >= 0
      && x.servings > 0
      && x.difficulty.Some? && Trim(x.difficulty.value) != []
      && x.category.Some? && Trim(x.category.value) != []
      && |x.ingredients.items| > 0
      && |x.instructions.items| > 0
  }

  /** The completeness check's "trims to non-empty" is the validator's "filled". */
  lemma FilledIsNonBlank(s: Option<string>)
    ensures Filled(s) <==> s.Some? && Trim(s.value) != []
  {
  }

  // ---------------------------------------------------------------------
  // Properties
  // ---------------------------------------------------------------------

  /** Reading back what save wrote: the recipe as saved, with owner and
      visibility null. */
  lemma SaveThenFindById(t: Tables, r: Recipe, fault: Option<nat>)
    requires WellFormed(t)
    requires Save(t, Some(r), fault).Saved?
    requires r.id.Some? ==> FindRow(t.recipes, r.id.value).Some?
    ensures var out := Save(t, Some(r), fault);
            var found := FindById(out.tables, out.recipe.id);
            found.Some? && ReloadsAs(found.value, out.recipe)
  {
    if r.id.None? {
      InsertRoundTrip(t, r, RowOf(r), fault, false);
    } else {
      UpdateRoundTrip(t, r, RowOf(r), false, fault);
    }
  }

  /** An update through the repository leaves the owner and visibility
      columns the row had, since its UPDATE does not name them. */
  lemma UpdateKeepsOwnerAndVisibility(t: Tables, r: Recipe, fault: Option<nat>)
    requires r.id.Some? && FindRow(t.recipes, r.id.value).Some?
    requires Save(t, Some(r), fault).Saved?
    ensures var before := FindRow(t.recipes, r.id.value).value;
            var after := FindRow(Save(t, Some(r), fault).tables.recipes, r.id.value);
            after.Some? && after.value.ownerUserId == before.ownerUserId && after.value.visibility == before.visibility
  {
    FindRowReplaced(t.recipes, RowOf(r).(id := r.id.value), false, r.id.value);
  }

  /** A save leaves every other recipe as it was. */
  lemma SaveTouchesOnlyItsRecipe(t: Tables, r: Recipe, fault: Option<nat>, other: int)
    requires Save(t, Some(r), fault).Saved?
    requires Some(other) != Save(t, Some(r), fault).recipe.id
    ensures FindById(Save(t, Some(r), fault).tables, Some(other)) == FindById(t, Some(other))
  {
    if r.id.None? {
      InsertFrame(t, r, RowOf(r), fault, false, other);
    } else {
      UpdateFrame(t, r, RowOf(r), false, fault, other);
    }
  }

  /** delete(id) removes that recipe and its children and no other recipe. */
  lemma DeleteRemovesOnlyThatRecipe(t: Tables, id: int, fault: Option<nat>, other: int)
    requires Delete(t, Some(id), fault).Done?
    ensures var u := Delete(t, Some(id), fault).tables;
            && FindById(u, Some(id)).None?
            && (forall x :: x in u.ingredients ==> x.recipeId != id)
            && (forall x :: x in u.instructions ==> x.recipeId != id)
            && (other != id ==> FindById(u, Some(other)) == FindById(t, Some(other)))
  {
    DeleteRemovesOnly(t, id, fault, false, other);
  }

  /** count() after the writes: one more after an insert, one fewer after
      deleting an existing recipe of a well-formed store, zero after deleteAll. */
  lemma CountAfterWrites(t: Tables, r: Recipe, id: int, fault: Option<nat>)
    requires WellFormed(t)
    ensures r.id.None? && Save(t, Some(r), fault).Saved? ==> Count(Save(t, Some(r), fault).tables) == Count(t) + 1
    ensures Delete(t, Some(id), fault).Done? && FindRow(t.recipes, id).Some? ==> Count(Delete(t, Some(id), fault).tables) == Count(t) - 1
    ensures Delete(t, Some(id), fault).Done? && FindRow(t.recipes, id).None? ==> Count(Delete(t, Some(id), fault).tables) == Count(t)
    ensures Count(DeleteAll(t, false).tables) == 0
  {
    if r.id.None? && Save(t, Some(r), fault).Saved? {
      CountAfterInsert(t, r, fault);
    }
    if Delete(t, Some(id), fault).Done? {
      CountAfterDelete(t, id, fault);
    }
  }

  lemma CountAfterInsert(t: Tables, r: Recipe, fault: Option<nat>)
    requires r.id.None? && Save(t, Some(r), fault).Saved?
    ensures |Save(t, Some(r), fault).tables.recipes| == |t.recipes| + 1
  {
    assert Save(t, Some(r), fault) == InsertTx(t, r, RowOf(r), fault);
    assert Save(t, Some(r), fault).tables.recipes == AppendRow(t, RowOf(r)).recipes;
  }

  lemma CountAfterDelete(t: Tables, id: int, fault: Option<nat>)
    requires WellFormed(t) && Delete(t, Some(id), fault).Done?
    ensures |Delete(t, Some(id), fault).tables.recipes| == if FindRow(t.recipes, id).Some? then |t.recipes| - 1 else |t.recipes|
  {
    assert Delete(t, Some(id), fault).tables.recipes == Keep(t.recipes, RecipeIsNot(id));
    KeepRemovesOne(t.recipes, id);
  }

  /** Filtering out one id removes exactly as many rows as carry it: one in
      a table with distinct ids that has it, none otherwise. */
  lemma {:induction false} KeepRemovesOne(rows: seq<RecipeRow>, id: int)
    requires forall i, j :: 0 <= i < j < |rows| ==> rows[i].id != rows[j].id
    ensures FindRow(rows, id).Some? ==> |Keep(rows, RecipeIsNot(id))| == |rows| - 1
    ensures FindRow(rows, id).None? ==> |Keep(rows, RecipeIsNot(id))| == |rows|
    decreases |rows|
  {
    if |rows| > 0 {
      var rest := rows[1..];
      assert forall i, j :: 0 <= i < j < |rest| ==> rest[i].id != rest[j].id by {
        forall i, j | 0 <= i < j < |rest| ensures rest[i].id != rest[j].id {
          assert rest[i] == rows[i + 1] && rest[j] == rows[j + 1];
        }
      }
      KeepRemovesOne(rest, id);
      if rows[0].id == id {
        assert forall x :: x in rest ==> x.id != id by {
          forall x | x in rest ensures x.id != id {
            var k :| 0 <= k < |rest| && rest[k] == x;
            assert rows[k + 1] == x;
          }
        }
        KeepAll(rest, RecipeIsNot(id));
      }
    }
  }

  /** A complete recipe passes validation, so with no store failure save writes it. */
  lemma CompleteRecipesSave(t: Tables, r: Recipe)
    requires IsRecipeComplete(Some(r))
    ensures ValidateRecipeFields(r).None?
    ensures Save(t, Some(r), None).Saved?
  {
  }
}
