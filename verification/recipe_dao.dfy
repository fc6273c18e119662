/** RecipeDaoImpl: the recipe store the service layer uses, with the owner
    and visibility columns. */
module RecipeDao {
  import opened Common
  import opened Seqs
  import opened RecipeModel
  import opened RecipeValidation
  import opened RecipeTables
  import opened RecipeStore

  const NullRecipeMessage := "Recipe cannot be null"
  const PrivateVisibility := "PRIVATE"
  const PublicVisibility := "PUBLIC"

  /** The visibility column as insert and update write it: null becomes PRIVATE. */
  function StoredVisibility(v: Option<string>): (s: string)
    ensures v.Some? ==> s == v.value
    ensures v.None? ==> s == PrivateVisibility
  {
    if v.None? then PrivateVisibility else v.value
  }

  /** The columns insert and update bind; the id column is filled in by the statement. */
  function RowOf(r: Recipe): (row: RecipeRow)
    ensures RowMatches(row, r)
    ensures row.ownerUserId == r.ownerUserId
    ensures row.visibility == Some(StoredVisibility(r.visibility))
  {
    RecipeRow(0, r.title, r.description, r.preparationTime, r.cookingTime, r.servings,
              r.difficulty, r.category, r.ownerUserId, Some(StoredVisibility(r.visibility)))
  }

  /** `save(recipe)`: refuse a null or invalid recipe before any write, then
      insert a recipe without id or update the row of a recipe with one. */
  function Save(t: Tables, r: Option<Recipe>, fault: Option<nat>): (out: SaveOutcome)
    ensures r.None? ==> out == Rejected(IllegalArgument(NullRecipeMessage))
    ensures r.Some? ==> (out.Rejected? <==> !ValidFields(r.value))
    ensures r.Some? && !ValidFields(r.value) ==> out == Rejected(ValidateRecipeFields(r.value).value)
    ensures r.Some? && ValidFields(r.value) && fault.None? ==> out.Saved?
    ensures out.Saved? ==> r.Some? && out.recipe.id.Some? && out.recipe == r.value.(id := out.recipe.id)
    ensures out.Saved? && r.value.id.Some? ==> out.recipe == r.value
    ensures out.Saved? && r.value.id.None? ==> out.recipe.id == Some(t.nextRecipeId)
    ensures out.Failed? ==> SameRows(out.tables, t) && out.error.StoreFailure?
  {
    if r.None? then Rejected(IllegalArgument(NullRecipeMessage))
    else match ValidateRecipeFields(r.value)
      case Some(e) => Rejected(e)
      case None =>
        if r.value.id.None? then InsertTx(t, r.value, RowOf(r.value), fault)
        else UpdateTx(t, r.value, RowOf(r.value), true, fault)
  }

  /** `findById(id)` */
  function FindById(t: Tables, id: Option<int>): (r: Option<Recipe>)
    ensures id.None? ==> r.None?
    ensures r.Some? ==> r.value.id == id
    ensures id.Some? ==> (r.Some? <==> exists row :: row in t.recipes && row.id == id.value)
    ensures r.Some? ==> exists row :: row in t.recipes && r.value.ownerUserId == row.ownerUserId && r.value.visibility == row.visibility && r.value.id == Some(row.id)
  {
    RecipeStore.FindById(t, id, true)
  }

  /** `findAll()` */
  function FindAll(t: Tables): (rs: seq<Recipe>)
    ensures |rs| == |t.recipes|
    ensures forall k :: 0 <= k < |rs| ==> rs[k].id == Some(t.recipes[k].id)
    ensures forall k :: 0 <= k < |rs| ==> rs[k].ownerUserId == t.recipes[k].ownerUserId && rs[k].visibility == t.recipes[k].visibility
  {
    RecipeStore.FindAll(t, true)
  }

  /** `delete(id)`: nothing for a null id; otherwise the children, then the recipe row. */
  function Delete(t: Tables, id: Option<int>, fault: Option<nat>): (out: WriteOutcome)
    ensures id.None? ==> out == Done(t)
    ensures id.Some? && fault.None? ==> out.Done?
    ensures out.Done? && id.Some? ==> FindById(out.tables, id).None?
    ensures out.Aborted? ==> out.error == StoreFailure(DeleteFailedMessage) && SameRows(out.tables, t)
  {
    if id.None? then Done(t) else DeleteTx(t, id.value, fault)
  }

  /** The WHERE clause of findAllVisibleForUser: public, null or empty
      visibility, or, for a known user, owned by that user. */
  predicate Visible(row: RecipeRow, user: Option<int>) {
    || row.visibility == Some(PublicVisibility)
    || row.visibility.None?
    || row.visibility == Some("")
    || (user.Some? && row.ownerUserId == user)
  }

  function VisibleTo(user: Option<int>): RecipeRow -> bool {
    (row: RecipeRow) => Visible(row, user)
  }

  /** `findAllVisibleForUser(userId)`: the rows the WHERE clause admits, in storage order. */
  function FindAllVisibleForUser(t: Tables, user: Option<int>): (rs: seq<Recipe>)
    ensures IsSubseq(rs, FindAll(t))
    ensures forall row :: row in t.recipes ==> (Load(t, row, true) in rs <==> Visible(row, user))
    ensures forall x :: x in rs ==> exists row :: row in t.recipes && Visible(row, user) && x == Load(t, row, true)
  {
    var kept := Keep(t.recipes, VisibleTo(user));
    var rs := Map(kept, LoadWith(t, true));
    MapSubseq(kept, t.recipes, LoadWith(t, true));
    forall row | row in t.recipes ensures Load(t, row, true) in rs <==> Visible(row, user) {
      if Visible(row, user) {
        MapMember(kept, LoadWith(t, true), row);
      }
      if Load(t, row, true) in rs {
        MapMemberInverse(kept, LoadWith(t, true), Load(t, row, true));
      }
    }
    forall x | x in rs ensures exists row :: row in t.recipes && Visible(row, user) && x == Load(t, row, true) {
      MapMemberInverse(kept, LoadWith(t, true), x);
    }
    rs
  }

  // ---------------------------------------------------------------------
  // Properties
  // ---------------------------------------------------------------------

  /** Reading back what save wrote: the recipe as saved, its owner, and the
      stored visibility (PRIVATE in place of null). An update must name an
      existing row for this to hold. */
  lemma SaveThenFindById(t: Tables, r: Recipe, fault: Option<nat>)
    requires WellFormed(t)
    requires Save(t, Some(r), fault).Saved?
    requires r.id.Some? ==> FindRow(t.recipes, r.id.value).Some?
    ensures var out := Save(t, Some(r), fault);
            var found := FindById(out.tables, out.recipe.id);
            && found.Some?
            && ReloadsAs(found.value, out.recipe)
            && found.value.ownerUserId == r.ownerUserId
            && found.value.visibility == Some(StoredVisibility(r.visibility))
  {
    if r.id.None? {
      InsertRoundTrip(t, r, RowOf(r), fault, true);
    } else {
      UpdateRoundTrip(t, r, RowOf(r), true, fault);
    }
  }

  /** An insert takes an id no recipe row has. */
  lemma InsertedIdIsFresh(t: Tables, r: Recipe, fault: Option<nat>)
    requires WellFormed(t)
    requires r.id.None? && Save(t, Some(r), fault).Saved?
    ensures forall row :: row in t.recipes ==> Some(row.id) != Save(t, Some(r), fault).recipe.id
  {
  }

  /** A save leaves every other recipe as it was. */
  lemma SaveTouchesOnlyItsRecipe(t: Tables, r: Recipe, fault: Option<nat>, other: int)
    requires Save(t, Some(r), fault).Saved?
    requires Some(other) != Save(t, Some(r), fault).recipe.id
    ensures FindById(Save(t, Some(r), fault).tables, Some(other)) == FindById(t, Some(other))
  {
    if r.id.None? {
      InsertFrame(t, r, RowOf(r), fault, true, other);
    } else {
      UpdateFrame(t, r, RowOf(r), true, fault, other);
    }
  }

  /** A rejected or failed save changes no row. */
  lemma UnsavedLeavesRows(t: Tables, r: Option<Recipe>, fault: Option<nat>)
    requires !Save(t, r, fault).Saved?
    ensures Save(t, r, fault).Rejected? || SameRows(Save(t, r, fault).tables, t)
  {
  }

  /** Saves and deletes keep the store well-formed, when an update names an
      id the store has handed out. */
  lemma SaveKeepsWellFormed(t: Tables, r: Recipe, fault: Option<nat>)
    requires WellFormed(t)
    requires r.id.Some? ==> r.id.value < t.nextRecipeId
    requires !Save(t, Some(r), fault).Rejected?
    ensures WellFormed(Save(t, Some(r), fault).tables)
  {
    if r.id.None? {
      InsertKeepsWellFormed(t, r, RowOf(r), fault);
    } else {
      UpdateKeepsWellFormed(t, r, RowOf(r), true, fault);
    }
  }

  /** delete(id) removes that recipe and its children and no other recipe. */
  lemma DeleteRemovesOnlyThatRecipe(t: Tables, id: int, fault: Option<nat>, other: int)
    requires Delete(t, Some(id), fault).Done?
    ensures var u := Delete(t, Some(id), fault).tables;
            && FindById(u, Some(id)).None?
            && (forall x :: x in u.ingredients ==> x.recipeId != id)
            && (forall x :: x in u.instructions ==> x.recipeId != id)
            && (other != id ==> FindById(u, Some(other)) == FindById(t, Some(other)))
  {
    DeleteRemovesOnly(t, id, fault, true, other);
  }

  /** An anonymous reader sees a subset of what any signed-in reader sees,
      and an owner always sees their own recipes. */
  lemma VisibilityMonotone(t: Tables, user: int)
    ensures forall x :: x in FindAllVisibleForUser(t, None) ==> x in FindAllVisibleForUser(t, Some(user))
    ensures forall row :: row in t.recipes && row.ownerUserId == Some(user) ==> Load(t, row, true) in FindAllVisibleForUser(t, Some(user))
  {
  }

  /** A recipe saved with neither owner nor visibility is stored as PRIVATE
      with no owner, so no reader, signed in or not, is shown it. */
  lemma UnownedRecipeIsHidden(t: Tables, r: Recipe, fault: Option<nat>, user: Option<int>)
    requires WellFormed(t)
    requires r.id.None? && r.ownerUserId.None? && r.visibility.None?
    requires Save(t, Some(r), fault).Saved?
    ensures forall x :: x in FindAllVisibleForUser(Save(t, Some(r), fault).tables, user) ==> x.id != Save(t, Some(r), fault).recipe.id
  {
    var out := InsertTx(t, r, RowOf(r), fault);
    assert Save(t, Some(r), fault) == out;
    var written := RowOf(r).(id := t.nextRecipeId);
    assert out.tables.recipes == t.recipes + [written];
    OnlyOldRowsVisible(out.tables, t, written, user);
  }

  /** When the one row a write added is hidden from `user`, every recipe the
      user is shown comes from a row that was there before. */
  lemma OnlyOldRowsVisible(u: Tables, t: Tables, written: RecipeRow, user: Option<int>)
    requires WellFormed(t)
    requires u.recipes == t.recipes + [written] && written.id == t.nextRecipeId
    requires !Visible(written, user)
    ensures forall x :: x in FindAllVisibleForUser(u, user) ==> x.id != Some(t.nextRecipeId)
  {
    forall x | x in FindAllVisibleForUser(u, user) ensures x.id != Some(t.nextRecipeId) {
      var row :| row in u.recipes && Visible(row, user) && x == Load(u, row, true);
      assert row in t.recipes;
    }
  }
}
