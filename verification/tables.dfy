/** The relational store behind RecipeDaoImpl and RecipeRepository: the
    `recipe`, `ingredient` and `instruction` tables in storage order, the SQL
    statements the two classes issue, and the one-transaction-per-write
    discipline (autocommit off, one commit at the end). */
module RecipeTables {
  import opened Common
  import opened Seqs
  import opened Text
  import opened IngredientModel
  import opened RecipeModel

  datatype RecipeRow = RecipeRow(
    id: int,
    title: Option<string>,
    description: Option<string>,
    preparationTime: int,
    cookingTime: int,
    servings: int,
    difficulty: Option<string>,
    category: Option<string>,
    ownerUserId: Option<int>,
    visibility: Option<string>)

  datatype IngredientRow = IngredientRow(
    id: int,
    recipeId: int,
    name: Option<string>,
    quantity: real,
    unit: Option<string>,
    notes: Option<string>)

  datatype InstructionRow = InstructionRow(recipeId: int, stepNumber: int, text: string)

  /** The three tables in storage order, with the AUTO_INCREMENT counters
      that hand out recipe and ingredient ids. */
  datatype Tables = Tables(
    recipes: seq<RecipeRow>,
    ingredients: seq<IngredientRow>,
    instructions: seq<InstructionRow>,
    nextRecipeId: int,
    nextIngredientId: int)

  /** Recipe ids are a primary key, and every id in use, whether by a recipe
      row or by a child row pointing at one, is below the counter. */
  predicate WellFormed(t: Tables) {
    && (forall i, j :: 0 <= i < j < |t.recipes| ==> t.recipes[i].id != t.recipes[j].id)
    && (forall row :: row in t.recipes ==> row.id < t.nextRecipeId)
    && (forall row :: row in t.ingredients ==> row.recipeId < t.nextRecipeId && row.id < t.nextIngredientId)
    && (forall row :: row in t.instructions ==> row.recipeId < t.nextRecipeId)
  }

  /** The rows of `u` are those of `t`: only counters may differ. */
  predicate SameRows(u: Tables, t: Tables) {
    u.recipes == t.recipes && u.ingredients == t.ingredients && u.instructions == t.instructions
  }

  // ---------------------------------------------------------------------
  // Child collections as they are written
  // ---------------------------------------------------------------------

  /** The columns of an ingredient row other than its generated id. */
  datatype IngredientData = IngredientData(name: Option<string>, quantity: real, unit: Option<string>, notes: Option<string>)

  function Data(i: Ingredient): IngredientData {
    IngredientData(i.name, i.quantity, i.unit, i.notes)
  }

  /** saveIngredients skips null list elements. */
  function NonNullIngredients(xs: seq<Option<Ingredient>>): (r: seq<Ingredient>)
    ensures |r| <= |xs|
    ensures forall i :: i in r ==> Some(i) in xs
    ensures forall k :: 0 <= k < |xs| && xs[k].Some? ==> xs[k].value in r
  {
    if |xs| == 0 then []
    else if xs[0].None? then NonNullIngredients(xs[1..])
    else [xs[0].value] + NonNullIngredients(xs[1..])
  }

  /** The ingredients written are exactly the non-null elements, in order
      and with their repetitions. */
  lemma {:induction false} NonNullIngredientsInOrder(xs: seq<Option<Ingredient>>)
    ensures WrapAll(NonNullIngredients(xs)) == Keep(xs, IsPresent())
    decreases |xs|
  {
    if |xs| > 0 {
      NonNullIngredientsInOrder(xs[1..]);
      if xs[0].Some? {
        WrapCons(xs[0].value, NonNullIngredients(xs[1..]));
      }
    }
  }

  /** The stored contents of an ingredient list: its non-null elements without their ids. */
  function Contents(xs: seq<Option<Ingredient>>): seq<IngredientData> {
    Map(NonNullIngredients(xs), Data)
  }

  /** The steps saveInstructions writes: non-null and not blank. */
  function IsWrittenStep(): Option<string> -> bool {
    (x: Option<string>) => x.Some? && !IsBlank(x.value)
  }

  /** saveInstructions skips null and blank steps. */
  function NonBlankSteps(xs: seq<Option<string>>): (r: seq<string>)
    ensures |r| <= |xs|
    ensures forall s :: s in r ==> !IsBlank(s) && Some(s) in xs
    ensures forall k :: 0 <= k < |xs| && xs[k].Some? && !IsBlank(xs[k].value) ==> xs[k].value in r
  {
    if |xs| == 0 then []
    else if xs[0].None? || IsBlank(xs[0].value) then NonBlankSteps(xs[1..])
    else [xs[0].value] + NonBlankSteps(xs[1..])
  }

  /** The steps written are exactly the non-null, non-blank steps, in order
      and with their repetitions. */
  lemma {:induction false} NonBlankStepsInOrder(xs: seq<Option<string>>)
    ensures WrapAll(NonBlankSteps(xs)) == Keep(xs, IsWrittenStep())
    decreases |xs|
  {
    if |xs| > 0 {
      NonBlankStepsInOrder(xs[1..]);
      if xs[0].Some? && !IsBlank(xs[0].value) {
        WrapCons(xs[0].value, NonBlankSteps(xs[1..]));
      }
    }
  }

  /** One ingredient row per item, ids handed out from `firstId` on. */
  function IngredientRows(rid: int, items: seq<Ingredient>, firstId: int): (rows: seq<IngredientRow>)
    ensures |rows| == |items|
    ensures forall row :: row in rows ==> row.recipeId == rid
  {
    seq(|items|, k requires 0 <= k < |items| =>
      IngredientRow(firstId + k, rid, items[k].name, items[k].quantity, items[k].unit, items[k].notes))
  }

  /** One instruction row per text, step numbers counting up from `first`. */
  function StepRows(rid: int, texts: seq<string>, first: int): (rows: seq<InstructionRow>)
    ensures |rows| == |texts|
    ensures forall row :: row in rows ==> row.recipeId == rid
  {
    seq(|texts|, k requires 0 <= k < |texts| => InstructionRow(rid, first + k, texts[k]))
  }

  // ---------------------------------------------------------------------
  // Statements and transactions
  // ---------------------------------------------------------------------

  datatype Stmt =
    | InsertRecipe(row: RecipeRow)                       // the id column is generated
    | UpdateRecipe(row: RecipeRow, authColumns: bool)    // without authColumns, owner and visibility are left alone
    | DeleteRecipe(id: int)
    | DeleteAllRecipes
    | DeleteIngredients(recipeId: int)
    | DeleteInstructions(recipeId: int)
    | InsertIngredients(recipeId: int, items: seq<Ingredient>)   // one batch
    | InsertInstructions(recipeId: int, texts: seq<string>)      // one batch

  function ReplaceRow(row: RecipeRow, authColumns: bool): RecipeRow -> RecipeRow {
    (stored: RecipeRow) =>
      if stored.id != row.id then stored
      else if authColumns then row
      else row.(ownerUserId := stored.ownerUserId, visibility := stored.visibility)
  }

  function RecipeIsNot(id: int): RecipeRow -> bool {
    (row: RecipeRow) => row.id != id
  }

  function IngredientOf(rid: int): IngredientRow -> bool {
    (row: IngredientRow) => row.recipeId == rid
  }

  function IngredientNotOf(rid: int): IngredientRow -> bool {
    (row: IngredientRow) => row.recipeId != rid
  }

  function InstructionOf(rid: int): InstructionRow -> bool {
    (row: InstructionRow) => row.recipeId == rid
  }

  function InstructionNotOf(rid: int): InstructionRow -> bool {
    (row: InstructionRow) => row.recipeId != rid
  }

  /** The effect of one statement. */
  function Apply(t: Tables, s: Stmt): Tables {
    match s
    case InsertRecipe(row) =>
      t.(recipes := t.recipes + [row.(id := t.nextRecipeId)], nextRecipeId := t.nextRecipeId + 1)
    case UpdateRecipe(row, authColumns) =>
      t.(recipes := Map(t.recipes, ReplaceRow(row, authColumns)))
    case DeleteRecipe(id) =>
      t.(recipes := Keep(t.recipes, RecipeIsNot(id)))
    case DeleteAllRecipes =>
      t.(recipes := [])
    case DeleteIngredients(rid) =>
      t.(ingredients := Keep(t.ingredients, IngredientNotOf(rid)))
    case DeleteInstructions(rid) =>
      t.(instructions := Keep(t.instructions, InstructionNotOf(rid)))
    case InsertIngredients(rid, items) =>
      t.(ingredients := t.ingredients + IngredientRows(rid, items, t.nextIngredientId),
         nextIngredientId := t.nextIngredientId + |items|)
    case InsertInstructions(rid, texts) =>
      t.(instructions := t.instructions + StepRows(rid, texts, 1))
  }

  function ApplyAll(t: Tables, stmts: seq<Stmt>): Tables
    decreases |stmts|
  {
    if |stmts| == 0 then t else ApplyAll(Apply(t, stmts[0]), stmts[1..])
  }

  lemma ApplyAllAppend(t: Tables, a: seq<Stmt>, b: seq<Stmt>)
    ensures ApplyAll(t, a + b) == ApplyAll(ApplyAll(t, a), b)
    decreases |a|
  {
    if |a| > 0 {
      assert (a + b)[1..] == a[1..] + b;
      ApplyAllAppend(Apply(t, a[0]), a[1..], b);
    } else {
      assert a + b == b;
    }
  }

  /** No statement lowers an AUTO_INCREMENT counter. */
  lemma {:induction false} CountersOnlyGrow(t: Tables, stmts: seq<Stmt>)
    ensures ApplyAll(t, stmts).nextRecipeId >= t.nextRecipeId
    ensures ApplyAll(t, stmts).nextIngredientId >= t.nextIngredientId
    decreases |stmts|
  {
    if |stmts| > 0 {
      CountersOnlyGrow(Apply(t, stmts[0]), stmts[1..]);
    }
  }

  datatype TxOutcome = Committed(tables: Tables) | RolledBack(tables: Tables)

  /** A write transaction: `fault` is the index of the first statement that
      throws an SQLException, if any. Either every statement takes effect,
      or no row changes; the AUTO_INCREMENT counters keep whatever the
      statements before the fault consumed, as InnoDB does not give them back. */
  function RunTx(t: Tables, stmts: seq<Stmt>, fault: Option<nat>): (res: TxOutcome)
    ensures res.Committed? <==> (fault.None? || fault.value >= |stmts|)
    ensures res.Committed? ==> res.tables == ApplyAll(t, stmts)
    ensures res.RolledBack? ==> SameRows(res.tables, t)
    ensures res.tables.nextRecipeId >= t.nextRecipeId && res.tables.nextIngredientId >= t.nextIngredientId
  {
    CountersOnlyGrow(t, stmts);
    if fault.None? || fault.value >= |stmts| then Committed(ApplyAll(t, stmts))
    else
      var partial := ApplyAll(t, stmts[..fault.value]);
      CountersOnlyGrow(t, stmts[..fault.value]);
      RolledBack(t.(nextRecipeId := partial.nextRecipeId, nextIngredientId := partial.nextIngredientId))
  }

  /** A rolled-back write leaves a well-formed store well-formed. */
  lemma RollbackKeepsWellFormed(t: Tables, stmts: seq<Stmt>, fault: Option<nat>)
    requires WellFormed(t)
    requires RunTx(t, stmts, fault).RolledBack?
    ensures WellFormed(RunTx(t, stmts, fault).tables)
  {
  }

  // ---------------------------------------------------------------------
  // Reading children back
  // ---------------------------------------------------------------------

  predicate StepOrdered(rows: seq<InstructionRow>) {
    forall i, j :: 0 <= i < j < |rows| ==> rows[i].stepNumber <= rows[j].stepNumber
  }

  lemma OrderedCons(h: InstructionRow, tail: seq<InstructionRow>)
    requires StepOrdered(tail)
    requires forall y :: y in tail ==> h.stepNumber <= y.stepNumber
    ensures StepOrdered([h] + tail)
  {
    var r := [h] + tail;
    forall i, j | 0 <= i < j < |r| ensures r[i].stepNumber <= r[j].stepNumber {
      if i == 0 {
        assert r[j] == tail[j - 1];
        assert tail[j - 1] in tail;
      } else {
        assert r[i] == tail[i - 1] && r[j] == tail[j - 1];
      }
    }
  }

  /** The tail of step-ordered rows is step-ordered, and the head has the
      smallest step number. */
  lemma OrderedHead(rows: seq<InstructionRow>)
    requires StepOrdered(rows) && |rows| > 0
    ensures StepOrdered(rows[1..])
    ensures forall y :: y in rows ==> rows[0].stepNumber <= y.stepNumber
  {
    var rest := rows[1..];
    forall i, j | 0 <= i < j < |rest| ensures rest[i].stepNumber <= rest[j].stepNumber {
      assert rest[i] == rows[i + 1] && rest[j] == rows[j + 1];
    }
    forall y | y in rows ensures rows[0].stepNumber <= y.stepNumber {
      var k :| 0 <= k < |rows| && rows[k] == y;
      if k > 0 {
        assert rows[0].stepNumber <= rows[k].stepNumber;
      }
    }
  }

  function InsertByStep(x: InstructionRow, rows: seq<InstructionRow>): (r: seq<InstructionRow>)
    requires StepOrdered(rows)
    ensures StepOrdered(r)
    ensures multiset(r) == multiset(rows) + multiset{x}
    ensures forall y :: y in r ==> y == x || y in rows
  {
    if |rows| == 0 then [x]
    else
      OrderedHead(rows);
      if x.stepNumber <= rows[0].stepNumber then
        OrderedCons(x, rows);
        [x] + rows
      else
        var tail := InsertByStep(x, rows[1..]);
        InsertBehindHead(x, rows, tail);
        [rows[0]] + tail
  }

  /** The step that puts the head back in front of the tail the recursive call built. */
  lemma InsertBehindHead(x: InstructionRow, rows: seq<InstructionRow>, tail: seq<InstructionRow>)
    requires |rows| > 0 && rows[0].stepNumber < x.stepNumber
    requires forall y :: y in rows ==> rows[0].stepNumber <= y.stepNumber
    requires StepOrdered(tail)
    requires multiset(tail) == multiset(rows[1..]) + multiset{x}
    requires forall y :: y in tail ==> y == x || y in rows[1..]
    ensures StepOrdered([rows[0]] + tail)
    ensures multiset([rows[0]] + tail) == multiset(rows) + multiset{x}
    ensures forall y :: y in [rows[0]] + tail ==> y == x || y in rows
  {
    forall y | y in tail ensures rows[0].stepNumber <= y.stepNumber {
      if y != x {
        assert y in rows[1..];
        var k :| 0 <= k < |rows[1..]| && rows[1..][k] == y;
        assert rows[k + 1] == y;
      }
    }
    OrderedCons(rows[0], tail);
    assert rows == [rows[0]] + rows[1..];
  }

  /** `ORDER BY step_number`, as a stable insertion sort. */
  function SortByStep(rows: seq<InstructionRow>): (r: seq<InstructionRow>)
    ensures StepOrdered(r)
    ensures multiset(r) == multiset(rows)
  {
    if |rows| == 0 then []
    else
      assert rows == [rows[0]] + rows[1..];
      InsertByStep(rows[0], SortByStep(rows[1..]))
  }

  /** Rows already in step order come back unchanged. */
  lemma {:induction false} SortByStepOfOrdered(rows: seq<InstructionRow>)
    requires StepOrdered(rows)
    ensures SortByStep(rows) == rows
    decreases |rows|
  {
    if |rows| > 0 {
      var rest := rows[1..];
      OrderedHead(rows);
      SortByStepOfOrdered(rest);
      assert SortByStep(rows) == InsertByStep(rows[0], rest);
      if |rest| > 0 {
        assert rows[0].stepNumber <= rest[0].stepNumber;
      }
      assert InsertByStep(rows[0], rest) == [rows[0]] + rest;
      assert rows == [rows[0]] + rest;
    }
  }

  function RowToIngredient(row: IngredientRow): Ingredient {
    Ingredient(Some(row.id), row.name, row.quantity, row.unit, row.notes)
  }

  function StepText(row: InstructionRow): string {
    row.text
  }

  /** loadIngredients: `WHERE recipe_id = ?` with no ORDER BY; the model
      returns storage order, and only the multiset is relied upon. */
  function IngredientsOf(t: Tables, rid: int): seq<Ingredient> {
    Map(Keep(t.ingredients, IngredientOf(rid)), RowToIngredient)
  }

  /** loadInstructions: `WHERE recipe_id = ? ORDER BY step_number`. */
  function InstructionsOf(t: Tables, rid: int): seq<string> {
    Map(SortByStep(Keep(t.instructions, InstructionOf(rid))), StepText)
  }

  /** loadIngredients reads one ingredient per ingredient row of `rid`,
      carrying that row's id and columns, and nothing else. */
  lemma IngredientsOfRows(t: Tables, rid: int)
    ensures |IngredientsOf(t, rid)| == |Keep(t.ingredients, IngredientOf(rid))|
    ensures forall row :: row in t.ingredients && row.recipeId == rid ==> RowToIngredient(row) in IngredientsOf(t, rid)
    ensures forall x :: x in IngredientsOf(t, rid) ==>
              exists row :: row in t.ingredients && row.recipeId == rid && RowToIngredient(row) == x
  {
    var rows := Keep(t.ingredients, IngredientOf(rid));
    forall row | row in t.ingredients && row.recipeId == rid
      ensures RowToIngredient(row) in IngredientsOf(t, rid)
    {
      assert IngredientOf(rid)(row);
      MapMember(rows, RowToIngredient, row);
    }
    forall x | x in IngredientsOf(t, rid)
      ensures exists row :: row in t.ingredients && row.recipeId == rid && RowToIngredient(row) == x
    {
      MapMemberInverse(rows, RowToIngredient, x);
    }
  }

  /** loadInstructions reads one step per instruction row of `rid`, the
      texts in step-number order, and nothing else. */
  lemma InstructionsOfRows(t: Tables, rid: int)
    ensures |InstructionsOf(t, rid)| == |Keep(t.instructions, InstructionOf(rid))|
    ensures forall row :: row in t.instructions && row.recipeId == rid ==> row.text in InstructionsOf(t, rid)
    ensures forall s :: s in InstructionsOf(t, rid) ==>
              exists row :: row in t.instructions && row.recipeId == rid && row.text == s
  {
    var rows := Keep(t.instructions, InstructionOf(rid));
    var sorted := SortByStep(rows);
    SortByStepMembers(rows);
    forall row | row in t.instructions && row.recipeId == rid
      ensures row.text in InstructionsOf(t, rid)
    {
      assert InstructionOf(rid)(row);
      MapMember(sorted, StepText, row);
    }
    forall s | s in InstructionsOf(t, rid)
      ensures exists row :: row in t.instructions && row.recipeId == rid && row.text == s
    {
      MapMemberInverse(sorted, StepText, s);
    }
  }

  /** Sorting by step keeps the length and the members. */
  lemma SortByStepMembers(rows: seq<InstructionRow>)
    ensures |SortByStep(rows)| == |rows|
    ensures forall row :: row in SortByStep(rows) <==> row in rows
  {
    var sorted := SortByStep(rows);
    assert |multiset(sorted)| == |multiset(rows)|;
    forall row ensures row in sorted <==> row in rows {
      assert row in sorted <==> row in multiset(sorted);
      assert row in rows <==> row in multiset(rows);
    }
  }

  /** `SELECT ... FROM recipe WHERE id = ?`: the first row with that id. */
  function FindRow(rows: seq<RecipeRow>, id: int): (r: Option<RecipeRow>)
    ensures r.Some? ==> r.value in rows && r.value.id == id
    ensures r.None? <==> forall row :: row in rows ==> row.id != id
  {
    if |rows| == 0 then None
    else if rows[0].id == id then Some(rows[0])
    else FindRow(rows[1..], id)
  }

  lemma FindRowAppend(rows: seq<RecipeRow>, extra: seq<RecipeRow>, id: int)
    requires forall row :: row in extra ==> row.id != id
    ensures FindRow(rows + extra, id) == FindRow(rows, id)
    decreases |rows|
  {
    if |rows| > 0 {
      assert (rows + extra)[1..] == rows[1..] + extra;
      FindRowAppend(rows[1..], extra, id);
    }
  }

  lemma FindRowKeep(rows: seq<RecipeRow>, removed: int, id: int)
    requires id != removed
    ensures FindRow(Keep(rows, RecipeIsNot(removed)), id) == FindRow(rows, id)
    decreases |rows|
  {
    if |rows| > 0 {
      FindRowKeep(rows[1..], removed, id);
    }
  }

  lemma FindRowReplaced(rows: seq<RecipeRow>, row: RecipeRow, authColumns: bool, id: int)
    ensures id != row.id ==> FindRow(Map(rows, ReplaceRow(row, authColumns)), id) == FindRow(rows, id)
    ensures id == row.id && FindRow(rows, id).Some? ==>
              FindRow(Map(rows, ReplaceRow(row, authColumns)), id) == Some(ReplaceRow(row, authColumns)(FindRow(rows, id).value))
    ensures FindRow(rows, id).None? ==> FindRow(Map(rows, ReplaceRow(row, authColumns)), id).None?
    decreases |rows|
  {
    if |rows| > 0 {
      var f := ReplaceRow(row, authColumns);
      FindRowReplaced(rows[1..], row, authColumns, id);
      assert Map(rows, f) == [f(rows[0])] + Map(rows[1..], f);
      assert f(rows[0]).id == rows[0].id;
    }
  }

  // ---------------------------------------------------------------------
  // The write statements of insert(), update() and delete()
  // ---------------------------------------------------------------------

  /** saveIngredients and saveInstructions; each returns early on an empty list. */
  function ChildStatements(rid: int, r: Recipe): seq<Stmt> {
    (if |r.ingredients.items| == 0 then [] else [InsertIngredients(rid, NonNullIngredients(r.ingredients.items))])
    + (if |r.instructions.items| == 0 then [] else [InsertInstructions(rid, NonBlankSteps(r.instructions.items))])
  }

  /** The tables once the children of `r` are written under `rid`. */
  function WithChildren(t: Tables, rid: int, r: Recipe): Tables {
    var items := NonNullIngredients(r.ingredients.items);
    t.(ingredients := t.ingredients + IngredientRows(rid, items, t.nextIngredientId),
       nextIngredientId := t.nextIngredientId + |items|,
       instructions := t.instructions + StepRows(rid, NonBlankSteps(r.instructions.items), 1))
  }

  /** The tables once deleteIngredients and deleteInstructions ran for `rid`. */
  function WithoutChildren(t: Tables, rid: int): Tables {
    t.(ingredients := Keep(t.ingredients, IngredientNotOf(rid)),
       instructions := Keep(t.instructions, InstructionNotOf(rid)))
  }

  lemma ApplyChildStatements(t: Tables, rid: int, r: Recipe)
    ensures ApplyAll(t, ChildStatements(rid, r)) == WithChildren(t, rid, r)
  {
    var a := if |r.ingredients.items| == 0 then [] else [InsertIngredients(rid, NonNullIngredients(r.ingredients.items))];
    var b := if |r.instructions.items| == 0 then [] else [InsertInstructions(rid, NonBlankSteps(r.instructions.items))];
    ApplyAllAppend(t, a, b);
    assert ApplyAll(t, a).ingredients == t.ingredients + IngredientRows(rid, NonNullIngredients(r.ingredients.items), t.nextIngredientId);
  }

  /** insert(): the recipe row, then its children under the generated id. */
  function InsertStatements(t: Tables, row: RecipeRow, r: Recipe): seq<Stmt> {
    [InsertRecipe(row)] + ChildStatements(t.nextRecipeId, r)
  }

  /** update(): the recipe row by id, delete the children, write them again. */
  function UpdateStatements(id: int, row: RecipeRow, authColumns: bool, r: Recipe): seq<Stmt> {
    [UpdateRecipe(row.(id := id), authColumns), DeleteIngredients(id), DeleteInstructions(id)] + ChildStatements(id, r)
  }

  /** delete(): children first, then the recipe row. */
  function DeleteStatements(id: int): seq<Stmt> {
    [DeleteIngredients(id), DeleteInstructions(id), DeleteRecipe(id)]
  }

  function AppendRow(t: Tables, row: RecipeRow): Tables {
    t.(recipes := t.recipes + [row.(id := t.nextRecipeId)], nextRecipeId := t.nextRecipeId + 1)
  }

  lemma InsertEffect(t: Tables, row: RecipeRow, r: Recipe)
    ensures ApplyAll(t, InsertStatements(t, row, r)) == WithChildren(AppendRow(t, row), t.nextRecipeId, r)
  {
    ApplyOne(t, InsertRecipe(row));
    ApplyAllAppend(t, [InsertRecipe(row)], ChildStatements(t.nextRecipeId, r));
    ApplyChildStatements(AppendRow(t, row), t.nextRecipeId, r);
  }

  lemma ApplyOne(t: Tables, a: Stmt)
    ensures ApplyAll(t, [a]) == Apply(t, a)
  {
    assert [a][1..] == [];
  }

  lemma ApplyThree(t: Tables, a: Stmt, b: Stmt, c: Stmt)
    ensures ApplyAll(t, [a, b, c]) == Apply(Apply(Apply(t, a), b), c)
  {
    assert [a, b, c][1..] == [b, c];
    assert [b, c][1..] == [c];
    assert ApplyAll(Apply(Apply(t, a), b), [c]) == Apply(Apply(Apply(t, a), b), c);
  }

  lemma UpdateEffect(t: Tables, id: int, row: RecipeRow, authColumns: bool, r: Recipe)
    ensures ApplyAll(t, UpdateStatements(id, row, authColumns, r))
         == WithChildren(WithoutChildren(t.(recipes := Map(t.recipes, ReplaceRow(row.(id := id), authColumns))), id), id, r)
  {
    var a, b, c := UpdateRecipe(row.(id := id), authColumns), DeleteIngredients(id), DeleteInstructions(id);
    ApplyAllAppend(t, [a, b, c], ChildStatements(id, r));
    ApplyThree(t, a, b, c);
    var u := Apply(Apply(Apply(t, a), b), c);
    assert u == WithoutChildren(t.(recipes := Map(t.recipes, ReplaceRow(row.(id := id), authColumns))), id);
    ApplyChildStatements(u, id, r);
  }

  lemma DeleteEffect(t: Tables, id: int)
    ensures ApplyAll(t, DeleteStatements(id)) == WithoutChildren(t, id).(recipes := Keep(t.recipes, RecipeIsNot(id)))
  {
    ApplyThree(t, DeleteIngredients(id), DeleteInstructions(id), DeleteRecipe(id));
    ApplyDeleteSteps(t, id);
  }

  lemma ApplyDeleteSteps(t: Tables, id: int)
    ensures Apply(Apply(Apply(t, DeleteIngredients(id)), DeleteInstructions(id)), DeleteRecipe(id))
         == WithoutChildren(t, id).(recipes := Keep(t.recipes, RecipeIsNot(id)))
  {
    var u1 := Apply(t, DeleteIngredients(id));
    assert u1.recipes == t.recipes && u1.instructions == t.instructions;
    var u2 := Apply(u1, DeleteInstructions(id));
    assert u2 == WithoutChildren(t, id);
  }

  // ---------------------------------------------------------------------
  // What the children of one recipe look like after a write
  // ---------------------------------------------------------------------

  /** saveIngredients writes one row per item, in order, under `rid`, each
      row carrying the item's columns and the next generated id. */
  lemma IngredientRowsData(rid: int, items: seq<Ingredient>, firstId: int)
    ensures Map(Map(IngredientRows(rid, items, firstId), RowToIngredient), Data) == Map(items, Data)
    ensures forall k :: 0 <= k < |items| ==>
              && IngredientRows(rid, items, firstId)[k].recipeId == rid
              && IngredientRows(rid, items, firstId)[k].id == firstId + k
  {
    var rows := IngredientRows(rid, items, firstId);
    var back := Map(rows, RowToIngredient);
    assert forall k :: 0 <= k < |items| ==> Data(back[k]) == Data(items[k]);
  }

  /** saveInstructions writes the texts in order under `rid`, numbering the
      steps from `first` up by one, so the rows are ordered by step number. */
  lemma StepRowsOrdered(rid: int, texts: seq<string>, first: int)
    ensures StepOrdered(StepRows(rid, texts, first))
    ensures Map(StepRows(rid, texts, first), StepText) == texts
    ensures forall k :: 0 <= k < |texts| ==>
              && StepRows(rid, texts, first)[k].recipeId == rid
              && StepRows(rid, texts, first)[k].stepNumber == first + k
  {
  }

  /** The ingredients written for `rid` are what reloading `rid` finds,
      provided no ingredient rows of `rid` were there before. */
  lemma IngredientsRoundTrip(rows: seq<IngredientRow>, rid: int, items: seq<Ingredient>, firstId: int)
    requires forall row :: row in rows ==> row.recipeId != rid
    ensures Keep(rows + IngredientRows(rid, items, firstId), IngredientOf(rid)) == IngredientRows(rid, items, firstId)
  {
    KeepAppendOnly(rows, IngredientRows(rid, items, firstId), IngredientOf(rid));
  }

  lemma InstructionsRoundTrip(rows: seq<InstructionRow>, rid: int, texts: seq<string>)
    requires forall row :: row in rows ==> row.recipeId != rid
    ensures Keep(rows + StepRows(rid, texts, 1), InstructionOf(rid)) == StepRows(rid, texts, 1)
  {
    KeepAppendOnly(rows, StepRows(rid, texts, 1), InstructionOf(rid));
  }

  /** What a write of `r`'s children under `rid` reads back: the non-null
      ingredients in their stored form, and the non-blank steps in order. */
  lemma ChildrenRoundTrip(t: Tables, rid: int, r: Recipe)
    requires forall row :: row in t.ingredients ==> row.recipeId != rid
    requires forall row :: row in t.instructions ==> row.recipeId != rid
    ensures Map(IngredientsOf(WithChildren(t, rid, r), rid), Data) == Contents(r.ingredients.items)
    ensures InstructionsOf(WithChildren(t, rid, r), rid) == NonBlankSteps(r.instructions.items)
  {
    var items := NonNullIngredients(r.ingredients.items);
    var texts := NonBlankSteps(r.instructions.items);
    var u := WithChildren(t, rid, r);
    IngredientsRoundTrip(t.ingredients, rid, items, t.nextIngredientId);
    assert Keep(u.ingredients, IngredientOf(rid)) == IngredientRows(rid, items, t.nextIngredientId);
    IngredientRowsData(rid, items, t.nextIngredientId);
    InstructionsRoundTrip(t.instructions, rid, texts);
    assert Keep(u.instructions, InstructionOf(rid)) == StepRows(rid, texts, 1);
    StepRowsOrdered(rid, texts, 1);
    SortByStepOfOrdered(StepRows(rid, texts, 1));
  }

  /** Writing the children of `rid` leaves every other recipe's children alone. */
  lemma ChildrenFrame(t: Tables, rid: int, r: Recipe, other: int)
    requires other != rid
    ensures IngredientsOf(WithChildren(t, rid, r), other) == IngredientsOf(t, other)
    ensures InstructionsOf(WithChildren(t, rid, r), other) == InstructionsOf(t, other)
  {
    var u := WithChildren(t, rid, r);
    KeepAppendNone(t.ingredients, IngredientRows(rid, NonNullIngredients(r.ingredients.items), t.nextIngredientId), IngredientOf(other));
    assert Keep(u.ingredients, IngredientOf(other)) == Keep(t.ingredients, IngredientOf(other));
    KeepAppendNone(t.instructions, StepRows(rid, NonBlankSteps(r.instructions.items), 1), InstructionOf(other));
    assert Keep(u.instructions, InstructionOf(other)) == Keep(t.instructions, InstructionOf(other));
  }

  /** Deleting the children of `rid` empties `rid` and spares the rest. */
  lemma WithoutChildrenEffect(t: Tables, rid: int, other: int)
    ensures forall row :: row in WithoutChildren(t, rid).ingredients ==> row.recipeId != rid
    ensures forall row :: row in WithoutChildren(t, rid).instructions ==> row.recipeId != rid
    ensures IngredientsOf(WithoutChildren(t, rid), rid) == []
    ensures InstructionsOf(WithoutChildren(t, rid), rid) == []
    ensures other != rid ==> IngredientsOf(WithoutChildren(t, rid), other) == IngredientsOf(t, other)
    ensures other != rid ==> InstructionsOf(WithoutChildren(t, rid), other) == InstructionsOf(t, other)
  {
    var u := WithoutChildren(t, rid);
    KeepNone(u.ingredients, IngredientOf(rid));
    KeepNone(u.instructions, InstructionOf(rid));
    if other != rid {
      KeepKeep(t.ingredients, IngredientNotOf(rid), IngredientOf(other));
      KeepKeep(t.instructions, InstructionNotOf(rid), InstructionOf(other));
    }
  }
}
