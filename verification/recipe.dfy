/** The Recipe aggregate: scalar fields, the owner and visibility the store
    reads and writes, and the ordered ingredient and instruction lists. */
module RecipeModel {
  import opened Common
  import opened Text
  import opened IngredientModel

  /** A java.util.List: its elements and whether it rejects add()
      (`List.of` lists do, `ArrayList`s do not). */
  datatype JList<T> = JList(items: seq<T>, unmodifiable: bool)

  datatype Recipe = Recipe(
    id: Option<int>,
    title: Option<string>,
    description: Option<string>,
    preparationTime: int,
    cookingTime: int,
    servings: int,
    difficulty: Option<string>,
    category: Option<string>,
    ingredients: JList<Option<Ingredient>>,
    instructions: JList<Option<string>>,
    ownerUserId: Option<int>,
    visibility: Option<string>)

  /** `new Recipe()`: empty ArrayLists, every reference null, every int 0. */
  function NewRecipe(): (r: Recipe)
    ensures r.id.None? && r.title.None? && r.description.None?
    ensures r.difficulty.None? && r.category.None?
    ensures r.ownerUserId.None? && r.visibility.None?
    ensures r.preparationTime == 0 && r.cookingTime == 0 && r.servings == 0
    ensures r.ingredients == JList([], false) && r.instructions == JList([], false)
  {
    Recipe(None, None, None, 0, 0, 0, None, None, JList([], false), JList([], false), None, None)
  }

  /** Drops the empty strings at the end of a split result. */
  function DropTrailingEmpty(ps: seq<string>): (r: seq<string>)
    ensures r <= ps
    ensures |r| == 0 || r[|r| - 1] != ""
    ensures forall k :: |r| <= k < |ps| ==> ps[k] == ""
  {
    if |ps| == 0 || ps[|ps| - 1] != "" then ps else DropTrailingEmpty(ps[..|ps| - 1])
  }

  predicate AllNewlines(s: string) {
    forall k :: 0 <= k < |s| ==> s[k] == '\n'
  }

  lemma JoinSnoc(a: seq<string>, x: string, sep: char)
    requires |a| >= 1
    ensures Join(a + [x], sep) == Join(a, sep) + [sep] + x
    decreases |a|
  {
    var ax := a + [x];
    if |a| > 1 {
      assert ax[1..] == a[1..] + [x];
      JoinSnoc(a[1..], x, sep);
      var j := Join(a[1..], sep);
      assert Join(ax, sep) == a[0] + [sep] + (j + [sep] + x);
      assert Join(a, sep) == a[0] + [sep] + j;
      assert a[0] + [sep] + (j + [sep] + x) == (a[0] + [sep] + j) + [sep] + x;
    } else {
      assert ax[1..] == [x];
      assert Join(ax, sep) == a[0] + [sep] + x;
    }
  }

  /** What DropTrailingEmpty removes from a joined text is newlines only. */
  lemma {:induction false} DropTrailingEmptyJoin(ps: seq<string>)
    ensures var r := DropTrailingEmpty(ps);
            if |r| > 0 then
              Join(r, '\n') <= Join(ps, '\n') && AllNewlines(Join(ps, '\n')[|Join(r, '\n')|..])
            else
              AllNewlines(Join(ps, '\n'))
    decreases |ps|
  {
    if |ps| > 0 && ps[|ps| - 1] == "" {
      var init := ps[..|ps| - 1];
      DropTrailingEmptyJoin(init);
      assert DropTrailingEmpty(ps) == DropTrailingEmpty(init);
      assert ps == init + [""];
      if |init| >= 1 {
        JoinSnoc(init, "", '\n');
        var r := DropTrailingEmpty(init);
        var m := if |r| > 0 then |Join(r, '\n')| else 0;
        NewlineAppended(Join(init, '\n'), m);
      }
    }
  }

  lemma NewlineAppended(s: string, m: nat)
    requires m <= |s| && AllNewlines(s[m..])
    ensures AllNewlines((s + ['\n'])[m..])
  {
    assert (s + ['\n'])[m..] == s[m..] + ['\n'];
  }

  /** `s.split("\\n")`: a string without a newline is its own single piece;
      otherwise the pieces between newlines, trailing empty pieces dropped. */
  function SplitNewlines(s: string): (parts: seq<string>)
    ensures forall k :: 0 <= k < |parts| ==> '\n' !in parts[k]
    ensures '\n' !in s ==> parts == [s]
    ensures '\n' in s && |parts| > 0 ==> parts[|parts| - 1] != ""
    ensures |parts| > 0 ==> Join(parts, '\n') <= s && AllNewlines(s[|Join(parts, '\n')|..])
    ensures |parts| == 0 ==> AllNewlines(s)
  {
    if '\n' !in s then
      assert Join([s], '\n') == s;
      [s]
    else
      var ps := Split(s, '\n');
      DropTrailingEmptyJoin(ps);
      DropTrailingEmpty(ps)
  }

  /** A list read from the store: every element present. */
  function WrapAll<T>(xs: seq<T>): (r: seq<Option<T>>)
    ensures |r| == |xs|
    ensures forall k :: 0 <= k < |xs| ==> r[k] == Some(xs[k])
  {
    if |xs| == 0 then [] else [Some(xs[0])] + WrapAll(xs[1..])
  }

  lemma WrapCons<T>(x: T, xs: seq<T>)
    ensures WrapAll([x] + xs) == [Some(x)] + WrapAll(xs)
  {
    assert ([x] + xs)[1..] == xs;
  }

  /** The elements of a list that are not null. */
  function IsPresent<T>(): Option<T> -> bool {
    (x: Option<T>) => x.Some?
  }

  /** `new Recipe(title, category, prepTime, cookTime, servings, difficulty,
      description, instructions)`: owner and visibility stay null; non-null
      instructions become the unmodifiable `List.of(instructions.split("\\n"))`. */
  function NewRecipeWith(title: Option<string>, category: Option<string>, prepTime: int, cookTime: int,
                         servings: int, difficulty: Option<string>, description: Option<string>,
                         instructions: Option<string>): (r: Recipe)
    ensures r.id.None? && r.ownerUserId.None? && r.visibility.None?
    ensures r.title == title && r.category == category && r.description == description
    ensures r.difficulty == difficulty
    ensures r.preparationTime == prepTime && r.cookingTime == cookTime && r.servings == servings
    ensures r.ingredients == JList([], false)
    ensures instructions.None? ==> r.instructions == JList([], false)
    ensures instructions.Some? ==> r.instructions.unmodifiable
    ensures instructions.Some? ==> r.instructions.items == WrapAll(SplitNewlines(instructions.value))
    ensures instructions.Some? ==>
              forall k :: 0 <= k < |r.instructions.items| ==>
                r.instructions.items[k].Some? && '\n' !in r.instructions.items[k].value
    ensures instructions.Some? && '\n' !in instructions.value ==>
              r.instructions.items == [instructions]
  {
    var steps := if instructions.None? then JList([], false)
                 else JList(WrapAll(SplitNewlines(instructions.value)), true);
    Recipe(None, title, description, prepTime, cookTime, servings, difficulty, category,
           JList([], false), steps, None, None)
  }

  /** The fields a setter can target. */
  datatype Field =
    | IdField | TitleField | DescriptionField | PreparationTimeField | CookingTimeField
    | ServingsField | DifficultyField | CategoryField | IngredientsField | InstructionsField
    | OwnerUserIdField | VisibilityField

  /** A value a setter can store. */
  datatype Value =
    | IntValue(n: int)
    | NullableInt(o: Option<int>)
    | TextValue(s: Option<string>)
    | IngredientList(il: JList<Option<Ingredient>>)
    | InstructionList(sl: JList<Option<string>>)

  /** The getter for field `f`. */
  function Get(r: Recipe, f: Field): Value {
    match f
    case IdField => NullableInt(r.id)
    case TitleField => TextValue(r.title)
    case DescriptionField => TextValue(r.description)
    case PreparationTimeField => IntValue(r.preparationTime)
    case CookingTimeField => IntValue(r.cookingTime)
    case ServingsField => IntValue(r.servings)
    case DifficultyField => TextValue(r.difficulty)
    case CategoryField => TextValue(r.category)
    case IngredientsField => IngredientList(r.ingredients)
    case InstructionsField => InstructionList(r.instructions)
    case OwnerUserIdField => NullableInt(r.ownerUserId)
    case VisibilityField => TextValue(r.visibility)
  }

  /** The Java parameter type of the setter for `f` admits `v`. */
  predicate Fits(f: Field, v: Value) {
    match f
    case IdField => v.NullableInt?
    case OwnerUserIdField => v.NullableInt?
    case PreparationTimeField => v.IntValue?
    case CookingTimeField => v.IntValue?
    case ServingsField => v.IntValue?
    case IngredientsField => v.IngredientList?
    case InstructionsField => v.InstructionList?
    case _ => v.TextValue?
  }

  /** The setter for field `f` (setId, setTitle, ..., setVisibility). */
  function Set(r: Recipe, f: Field, v: Value): (r': Recipe)
    requires Fits(f, v)
    ensures Get(r', f) == v
    ensures forall g :: g != f ==> Get(r', g) == Get(r, g)
  {
    match f
    case IdField => r.(id := v.o)
    case TitleField => r.(title := v.s)
    case DescriptionField => r.(description := v.s)
    case PreparationTimeField => r.(preparationTime := v.n)
    case CookingTimeField => r.(cookingTime := v.n)
    case ServingsField => r.(servings := v.n)
    case DifficultyField => r.(difficulty := v.s)
    case CategoryField => r.(category := v.s)
    case IngredientsField => r.(ingredients := v.il)
    case InstructionsField => r.(instructions := v.sl)
    case OwnerUserIdField => r.(ownerUserId := v.o)
    case VisibilityField => r.(visibility := v.s)
  }

  /** `addIngredient(ingredient)`: appends at the end, or throws on an unmodifiable list. */
  function AddIngredient(r: Recipe, ingredient: Option<Ingredient>): (res: Result<Recipe>)
    ensures res.Ok? <==> !r.ingredients.unmodifiable
    ensures res.Err? ==> res.error == Unsupported
    ensures res.Ok? ==> res.value.ingredients.items == r.ingredients.items + [ingredient]
    ensures res.Ok? ==> forall g :: g != IngredientsField ==> Get(res.value, g) == Get(r, g)
  {
    if r.ingredients.unmodifiable then Err(Unsupported)
    else Ok(r.(ingredients := r.ingredients.(items := r.ingredients.items + [ingredient])))
  }

  /** `addInstruction(instruction)`: appends at the end, or throws on an unmodifiable list. */
  function AddInstruction(r: Recipe, instruction: Option<string>): (res: Result<Recipe>)
    ensures res.Ok? <==> !r.instructions.unmodifiable
    ensures res.Err? ==> res.error == Unsupported
    ensures res.Ok? ==> res.value.instructions.items == r.instructions.items + [instruction]
    ensures res.Ok? ==> forall g :: g != InstructionsField ==> Get(res.value, g) == Get(r, g)
  {
    if r.instructions.unmodifiable then Err(Unsupported)
    else Ok(r.(instructions := r.instructions.(items := r.instructions.items + [instruction])))
  }

  /** A recipe built with the 8-argument constructor from non-null
      instructions refuses addInstruction; one built with `new Recipe()` accepts it. */
  lemma ConstructedInstructionsAreFixed(title: Option<string>, category: Option<string>, prepTime: int,
                                        cookTime: int, servings: int, difficulty: Option<string>,
                                        description: Option<string>, instructions: string, step: Option<string>)
    ensures AddInstruction(NewRecipeWith(title, category, prepTime, cookTime, servings, difficulty,
                                         description, Some(instructions)), step) == Err(Unsupported)
    ensures AddInstruction(NewRecipe(), step) == Ok(NewRecipe().(instructions := JList([step], false)))
  {
    assert [] + [step] == [step];
  }
}
