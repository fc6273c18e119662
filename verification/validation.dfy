/** validateRecipeFields, which the DAO and the legacy repository both run
    before touching the store (the two copies are identical). */
module RecipeValidation {
  import opened Common
  import opened Text
  import opened RecipeModel

  /** A required text field: non-null and not empty once trimmed. */
  predicate Filled(s: Option<string>) {
    s.Some? && !TrimsToEmpty(s.value)
  }

  /** Every rule the store enforces on a recipe's own fields. */
  predicate ValidFields(r: Recipe) {
    && Filled(r.title)
    && Filled(r.description)
    && r.preparationTime >= 0
    && r.cookingTime >= 0
    && r.servings > 0
    && Filled(r.difficulty)
    && Filled(r.category)
  }

  const TitleMessage := "Recipe title cannot be null or empty"
  const DescriptionMessage := "Recipe description cannot be null or empty"
  const PreparationMessage := "Preparation time cannot be negative"
  const CookingMessage := "Cooking time cannot be negative"
  const ServingsMessage := "Servings must be greater than 0"
  const DifficultyMessage := "Recipe difficulty cannot be null or empty"
  const CategoryMessage := "Recipe category cannot be null or empty"

  /** `validateRecipeFields(recipe)`: the exception of the first failing
      check, in validateRecipeFields' order, or None when every check passes. */
  function ValidateRecipeFields(r: Recipe): (e: Option<Error>)
    ensures e.None? <==> ValidFields(r)
    ensures e.Some? ==> e.value.IllegalArgument?
    ensures !Filled(r.title) ==> e == Some(IllegalArgument(TitleMessage))
    ensures Filled(r.title) && !Filled(r.description) ==> e == Some(IllegalArgument(DescriptionMessage))
    ensures (Filled(r.title) && Filled(r.description) && r.preparationTime < 0)
              ==> e == Some(IllegalArgument(PreparationMessage))
    ensures (Filled(r.title) && Filled(r.description) && r.preparationTime >= 0 && r.cookingTime < 0)
              ==> e == Some(IllegalArgument(CookingMessage))
    ensures (Filled(r.title) && Filled(r.description) && r.preparationTime >= 0 && r.cookingTime >= 0
              && r.servings <= 0) ==> e == Some(IllegalArgument(ServingsMessage))
    ensures (Filled(r.title) && Filled(r.description) && r.preparationTime >= 0 && r.cookingTime >= 0
              && r.servings > 0 && !Filled(r.difficulty)) ==> e == Some(IllegalArgument(DifficultyMessage))
    ensures (Filled(r.title) && Filled(r.description) && r.preparationTime >= 0 && r.cookingTime >= 0
              && r.servings > 0 && Filled(r.difficulty) && !Filled(r.category))
              ==> e == Some(IllegalArgument(CategoryMessage))
  {
    if !Filled(r.title) then Some(IllegalArgument(TitleMessage))
    else if !Filled(r.description) then Some(IllegalArgument(DescriptionMessage))
    else if r.preparationTime < 0 then Some(IllegalArgument(PreparationMessage))
    else if r.cookingTime < 0 then Some(IllegalArgument(CookingMessage))
    else if r.servings <= 0 then Some(IllegalArgument(ServingsMessage))
    else if !Filled(r.difficulty) then Some(IllegalArgument(DifficultyMessage))
    else if !Filled(r.category) then Some(IllegalArgument(CategoryMessage))
    else None
  }
}
