# Recipe manager: a Dafny model of its core

This project models the core of a desktop recipe manager. The manager stores
recipes with their ingredients and numbered instructions in a relational
database. Each recipe has an owner and a visibility. Users register and sign
in with BCrypt-hashed passwords. A list screen searches, filters and
de-duplicates recipes, and its edit dialog turns a recipe's ingredient and
instruction lists into text and parses them back.

The model covers these parts of the core:

- **Model classes.**
  - `BaseModel`: identity by id, through `equals` and `hashCode`.
  - `IngredientModel`: the Ingredient class.
  - `RecipeModel`: the Recipe class with its constructors, setters and `add*` methods.
- **Recipe stores.**
  - `RecipeTables`: the three tables as sequences of rows, plus their AUTO_INCREMENT counters. The SQL statements the stores issue are a `Stmt` datatype. A write transaction (`RunTx`) commits every statement or, on an SQLException at a given statement, keeps no row change.
  - `RecipeStore`: what `RecipeDaoImpl` and `RecipeRepository` share. They differ only in whether the owner and visibility columns are written and read.
  - `RecipeValidation`: `validateRecipeFields`.
  - `RecipeDao`: `RecipeDaoImpl`, including `findAllVisibleForUser`.
  - `RecipeRepository`: the older store without owner and visibility. It adds `deleteAll`, `count` and `isRecipeComplete`.
- **Users.**
  - `UserStore`: `UserDaoImpl`.
  - `AuthService`: `AuthServiceImpl`. BCrypt is a pair of functions given as a parameter.
- **Service and screen.**
  - `RecipeService`: `RecipeServiceImpl`, covering visibility-aware listing, search with its id de-duplication, and category lookup. The signed-in user (`SessionManager`) is a `Session` parameter.
  - `RecipeListScreen`: the non-UI logic of `RecipeListController`:
    - the category drop-down;
    - `filterRecipes` (search, then category filter, then de-duplication);
    - the ingredient and instruction text of the edit dialog, with its parsers.
- **Shared helpers.** `Common`, `Seqs` and `Text` hold the helpers:
  - `Option`/`Result` and the error kinds;
  - sequence filtering;
  - Java's `String.trim`, `isBlank` (with Unicode whitespace), ASCII `toLowerCase`, `contains`, `compareTo` (on code points), `length` (in UTF-16 code units), `split` and `String.join`.

Java `null` is `None` throughout. A JDBC failure is a `fault` index, or a `fails` flag, passed in by the caller.

## Model

All source paths are under `src/main/java/com/myapp/`; the table writes them in full.

| member | source | states |
|---|---|---|
| BaseModel.Equals | src/main/java/com/myapp/models/BaseModel.java:18-23 | equals is false against null and true for the same object. For two distinct objects it holds exactly when they have the same class and the receiver's id is non-null and equal to the other's |
| BaseModel.NullIdsNeverEqual | src/main/java/com/myapp/models/BaseModel.java:18-23 | two distinct objects, one with a null id, are unequal whichever is the receiver |
| BaseModel.EqualObjectsHashEqually | src/main/java/com/myapp/models/BaseModel.java:18-28 | equal objects have equal hash codes, which is the equals/hashCode contract |
| BaseModel.HashCodeSeparatesIds | src/main/java/com/myapp/models/BaseModel.java:26-28 | a null id hashes to 0; two non-null ids hash alike exactly when they are equal, as Integer.hashCode is the value |
| BaseModel.EqualsIsEquivalence | src/main/java/com/myapp/models/BaseModel.java:18-23 | equals is reflexive, symmetric and transitive |
| IngredientModel.NewIngredient | src/main/java/com/myapp/models/Ingredient.java:13-14 | a new ingredient has no id, name, unit or notes, and quantity 0 |
| IngredientModel.NewIngredientWith | src/main/java/com/myapp/models/Ingredient.java:16-20 | the three-argument constructor stores name, quantity and unit; notes and id stay null |
| IngredientModel.ToStringStart | src/main/java/com/myapp/models/Ingredient.java:56-70 | the text of an ingredient starts with "quantity unit name" when the quantity is positive and the unit is non-empty, with "quantity name" when the quantity is positive and there is no unit, and with the name otherwise. A null name prints as "null" |
| IngredientModel.ToStringEnd | src/main/java/com/myapp/models/Ingredient.java:56-70 | the text ends with "name (notes)" when the notes are non-empty, and with the name otherwise |
| IngredientModel.ToStringLength | src/main/java/com/myapp/models/Ingredient.java:56-70 | nothing else is printed: the length is that of the quantity and a space, plus a space and the unit when the unit is non-empty, both only when the quantity is positive, plus the name, plus " (notes)" when there are notes. With the start and the end this fixes the whole text, so the unit appears only when the quantity is positive and the unit is non-empty |
| RecipeModel.NewRecipe | src/main/java/com/myapp/models/Recipe.java:20-23 | a new recipe has empty modifiable ingredient and instruction lists, null references and zero numbers |
| RecipeModel.NewRecipeWith | src/main/java/com/myapp/models/Recipe.java:25-37 | the eight-argument constructor stores each argument. Non-null instructions become an unmodifiable list holding exactly the pieces of `split("\\n")` of the text, in order. Null instructions leave the empty list |
| RecipeModel.SplitNewlines | src/main/java/com/myapp/models/Recipe.java:35 | `split("\\n")` yields newline-free pieces whose join is a prefix of the text. Only newlines are dropped after it, and the last piece is non-empty when the text had a newline |
| RecipeModel.DropTrailingEmptyJoin | src/main/java/com/myapp/models/Recipe.java:35 | dropping trailing empty pieces of a split removes only newline characters from the joined text |
| RecipeModel.Set | src/main/java/com/myapp/models/Recipe.java:44-118 | after a setter its getter returns the new value, and every other getter returns what it did before |
| RecipeModel.AddIngredient | src/main/java/com/myapp/models/Recipe.java:96-98 | append at the end, unless the list is unmodifiable (UnsupportedOperationException). Nothing else changes |
| RecipeModel.AddInstruction | src/main/java/com/myapp/models/Recipe.java:108-110 | append at the end, unless the list is unmodifiable (UnsupportedOperationException). Nothing else changes |
| RecipeModel.ConstructedInstructionsAreFixed | src/main/java/com/myapp/models/Recipe.java:25-37 | a recipe built from non-null instruction text refuses addInstruction; a `new Recipe()` accepts it |
| RecipeValidation.ValidateRecipeFields | src/main/java/com/myapp/dao/RecipeDaoImpl.java:219-241 | no error exactly when title, description, difficulty and category are non-blank, times are non-negative and servings are positive. Otherwise the IllegalArgumentException message of the first failing check, in the order title, description, preparation time, cooking time, servings, difficulty, category |
| RecipeTables.NonNullIngredients | src/main/java/com/myapp/dao/RecipeDaoImpl.java:277-298 | saveIngredients writes each non-null element and nothing that is not one |
| RecipeTables.NonNullIngredientsInOrder | src/main/java/com/myapp/dao/RecipeDaoImpl.java:277-298 | the ingredients written are the non-null elements in list order, each as often as it occurs |
| RecipeTables.NonBlankSteps | src/main/java/com/myapp/dao/RecipeDaoImpl.java:300-320 | saveInstructions writes each non-null, non-blank step and nothing else |
| RecipeTables.NonBlankStepsInOrder | src/main/java/com/myapp/dao/RecipeDaoImpl.java:300-320 | the steps written are the non-null, non-blank steps in list order, each as often as it occurs |
| RecipeTables.IngredientRowsData | src/main/java/com/myapp/dao/RecipeDaoImpl.java:277-298 | one row per ingredient, in order, under the recipe's id, carrying the ingredient's columns and consecutive generated ids |
| RecipeTables.StepRowsOrdered | src/main/java/com/myapp/dao/RecipeDaoImpl.java:300-320 | one row per step under the recipe's id, the k-th text numbered first+k, so the rows are in step order and their texts are the steps |
| RecipeTables.CountersOnlyGrow | src/main/java/com/myapp/dao/RecipeDaoImpl.java:55-61 | no statement lowers an AUTO_INCREMENT counter |
| RecipeTables.RunTx | src/main/java/com/myapp/dao/RecipeDaoImpl.java:36-69 | a transaction commits exactly when no statement fails, with the effect of all statements. Otherwise no row changes, and counters never go down |
| RecipeTables.RollbackKeepsWellFormed | src/main/java/com/myapp/dao/RecipeDaoImpl.java:36-69 | a rolled-back write keeps the store's key and counter invariant |
| RecipeTables.SortByStep | src/main/java/com/myapp/dao/RecipeDaoImpl.java:346 | `ORDER BY step_number` returns a permutation of the rows in step order |
| RecipeTables.SortByStepOfOrdered | src/main/java/com/myapp/dao/RecipeDaoImpl.java:346 | rows already in step order come back unchanged |
| RecipeTables.FindRow | src/main/java/com/myapp/dao/RecipeDaoImpl.java:110-134 | `WHERE id = ?` finds a row with that id exactly when one exists |
| RecipeTables.IngredientsOfRows | src/main/java/com/myapp/dao/RecipeDaoImpl.java:322-343 | loadIngredients reads one ingredient per row of the recipe, with that row's id and columns, and nothing else |
| RecipeTables.InstructionsOfRows | src/main/java/com/myapp/dao/RecipeDaoImpl.java:345-360 | loadInstructions reads one step per row of the recipe, and only the texts of those rows |
| RecipeTables.InsertEffect | src/main/java/com/myapp/dao/RecipeDaoImpl.java:32-70 | the insert statements append the recipe row under the next id, then its children under that id |
| RecipeTables.UpdateEffect | src/main/java/com/myapp/dao/RecipeDaoImpl.java:72-107 | the update statements replace the row with that id, delete its children and write the new ones under the same id |
| RecipeTables.DeleteEffect | src/main/java/com/myapp/dao/RecipeDaoImpl.java:158-180 | the delete statements remove the recipe's children and then every row with that id |
| RecipeTables.ChildrenRoundTrip | src/main/java/com/myapp/dao/RecipeDaoImpl.java:277-360 | children written under a fresh recipe id read back as the non-null ingredients' columns and the non-blank steps in order |
| RecipeTables.ChildrenFrame | src/main/java/com/myapp/dao/RecipeDaoImpl.java:277-320 | writing one recipe's children leaves every other recipe's children as read |
| RecipeTables.WithoutChildrenEffect | src/main/java/com/myapp/dao/RecipeDaoImpl.java:362-376 | deleting a recipe's children empties that recipe's lists and spares all others |
| RecipeStore.Load | src/main/java/com/myapp/dao/RecipeDaoImpl.java:243-264 | a loaded recipe carries the row id and modifiable lists. Owner and visibility are null unless the query selects them |
| RecipeStore.FindById | src/main/java/com/myapp/dao/RecipeDaoImpl.java:110-134 | null for a null id; otherwise a recipe with that id exactly when a row has it |
| RecipeStore.FindAll | src/main/java/com/myapp/dao/RecipeDaoImpl.java:137-155 | one recipe per row, in storage order, each with its row's id |
| RecipeStore.FindAllAgreesWithFindById | src/main/java/com/myapp/dao/RecipeDaoImpl.java:110-155 | in a store with unique ids, findById of the k-th row's id is the k-th element of findAll |
| RecipeStore.LoadAfterChildren | src/main/java/com/myapp/dao/RecipeDaoImpl.java:243-360 | a recipe whose row and children were written fresh reloads with the same columns, ingredient contents up to order, and steps |
| RecipeStore.InsertTx | src/main/java/com/myapp/dao/RecipeDaoImpl.java:32-70 | an insert commits with the next id set on the recipe. A failure keeps the rows, with "Failed to insert recipe", and the id is already set when the INSERT itself went through |
| RecipeStore.UpdateTx | src/main/java/com/myapp/dao/RecipeDaoImpl.java:72-107 | an update replaces the row by id and rewrites its children, or fails with "Failed to update recipe" and no row change |
| RecipeStore.DeleteTx | src/main/java/com/myapp/dao/RecipeDaoImpl.java:158-180 | a delete removes the children and the row, or fails with "Failed to delete recipe" and no row change |
| RecipeStore.InsertRoundTrip | src/main/java/com/myapp/dao/RecipeDaoImpl.java:32-70 | the inserted id was unused, and reading it back gives the recipe as saved |
| RecipeStore.UpdateRoundTrip | src/main/java/com/myapp/dao/RecipeDaoImpl.java:72-107 | reading an updated existing row back gives the recipe as saved |
| RecipeStore.UpdateOfMissingRowLeavesChildren | src/main/java/com/myapp/dao/RecipeDaoImpl.java:72-107 | updating an id without a row changes no recipe row, yet writes children under that id |
| RecipeStore.InsertFrame | src/main/java/com/myapp/dao/RecipeDaoImpl.java:32-70 | an insert leaves every other id reading as before |
| RecipeStore.UpdateFrame | src/main/java/com/myapp/dao/RecipeDaoImpl.java:72-107 | an update leaves every other id reading as before |
| RecipeStore.DeleteRemovesOnly | src/main/java/com/myapp/dao/RecipeDaoImpl.java:158-180 | a delete removes the recipe and all its children and leaves every other id reading as before |
| RecipeStore.InsertKeepsWellFormed | src/main/java/com/myapp/dao/RecipeDaoImpl.java:32-70 | an insert keeps recipe ids unique and below the counters |
| RecipeStore.UpdateKeepsWellFormed | src/main/java/com/myapp/dao/RecipeDaoImpl.java:72-107 | an update of an id the store handed out keeps the invariant |
| RecipeStore.DeleteKeepsWellFormed | src/main/java/com/myapp/dao/RecipeDaoImpl.java:158-180 | a delete keeps the invariant |
| RecipeDao.StoredVisibility | src/main/java/com/myapp/dao/RecipeDaoImpl.java:53 | a null visibility is stored as PRIVATE; any other value as given |
| RecipeDao.RowOf | src/main/java/com/myapp/dao/RecipeDaoImpl.java:41-53 | the bound columns are the recipe's fields, its owner and its stored visibility |
| RecipeDao.Save | src/main/java/com/myapp/dao/RecipeDaoImpl.java:19-30 | a null recipe is refused. An invalid one is refused with the validation error, before any write. A valid one is inserted when it has no id and updated otherwise; the outcome carries the recipe with its id. A failure leaves the rows |
| RecipeDao.FindById | src/main/java/com/myapp/dao/RecipeDaoImpl.java:110-134 | the recipe with that id, with the owner and visibility of its row |
| RecipeDao.FindAll | src/main/java/com/myapp/dao/RecipeDaoImpl.java:137-155 | every row in order, with its owner and visibility |
| RecipeDao.Delete | src/main/java/com/myapp/dao/RecipeDaoImpl.java:158-180 | a null id does nothing. Otherwise the id no longer reads back, or the delete fails with no row change |
| RecipeDao.FindAllVisibleForUser | src/main/java/com/myapp/dao/RecipeDaoImpl.java:183-217 | an order-preserving sub-list of findAll holding exactly the rows that are PUBLIC, null, empty or owned by the given user |
| RecipeDao.SaveThenFindById | src/main/java/com/myapp/dao/RecipeDaoImpl.java:19-134 | after a save, findById of the recipe's id reloads what was saved, with its owner and stored visibility |
| RecipeDao.InsertedIdIsFresh | src/main/java/com/myapp/dao/RecipeDaoImpl.java:32-61 | the id an insert hands out belonged to no earlier row |
| RecipeDao.SaveTouchesOnlyItsRecipe | src/main/java/com/myapp/dao/RecipeDaoImpl.java:19-107 | a save leaves every other recipe reading as before |
| RecipeDao.UnsavedLeavesRows | src/main/java/com/myapp/dao/RecipeDaoImpl.java:19-30 | a save that does not succeed changes no row |
| RecipeDao.SaveKeepsWellFormed | src/main/java/com/myapp/dao/RecipeDaoImpl.java:19-107 | save keeps the store invariant |
| RecipeDao.DeleteRemovesOnlyThatRecipe | src/main/java/com/myapp/dao/RecipeDaoImpl.java:158-180 | delete removes that recipe and its children and no other recipe |
| RecipeDao.VisibilityMonotone | src/main/java/com/myapp/dao/RecipeDaoImpl.java:183-217 | a signed-in user sees all an anonymous reader sees, plus every recipe they own |
| RecipeDao.UnownedRecipeIsHidden | src/main/java/com/myapp/dao/RecipeDaoImpl.java:48-53 | a recipe saved with neither owner nor visibility becomes PRIVATE and is shown to nobody |
| RecipeRepository.RowOf | src/main/java/com/myapp/repositories/RecipeRepository.java:29-61 | the bound columns are the recipe's fields; owner and visibility are not written |
| RecipeRepository.Save | src/main/java/com/myapp/repositories/RecipeRepository.java:14-27 | the same refusals and insert-or-update choice as the DAO's save |
| RecipeRepository.FindById | src/main/java/com/myapp/repositories/RecipeRepository.java:94-118 | the recipe with that id, with owner and visibility null |
| RecipeRepository.FindAll | src/main/java/com/myapp/repositories/RecipeRepository.java:120-138 | every row in order, with owner and visibility null |
| RecipeRepository.Delete | src/main/java/com/myapp/repositories/RecipeRepository.java:140-162 | a null id does nothing. Otherwise the id no longer reads back, or the delete fails with no row change |
| RecipeRepository.DeleteAll | src/main/java/com/myapp/repositories/RecipeRepository.java:164-174 | empties the recipe table and leaves ingredient and instruction rows alone, or fails with no change |
| RecipeRepository.Count | src/main/java/com/myapp/repositories/RecipeRepository.java:176-190 | the count is the number of recipes findAll returns |
| RecipeRepository.IsRecipeComplete | src/main/java/com/myapp/repositories/RecipeRepository.java:216-227 | complete exactly when non-null, valid for validation, and with at least one ingredient and one instruction |
| RecipeRepository.SaveThenFindById | src/main/java/com/myapp/repositories/RecipeRepository.java:14-118 | after a save, findById reloads what was saved, with owner and visibility null |
| RecipeRepository.UpdateKeepsOwnerAndVisibility | src/main/java/com/myapp/repositories/RecipeRepository.java:63-92 | an update keeps the owner and visibility the row already had |
| RecipeRepository.SaveTouchesOnlyItsRecipe | src/main/java/com/myapp/repositories/RecipeRepository.java:14-92 | a save leaves every other recipe reading as before |
| RecipeRepository.DeleteRemovesOnlyThatRecipe | src/main/java/com/myapp/repositories/RecipeRepository.java:140-162 | delete removes that recipe and its children and no other recipe |
| RecipeRepository.CountAfterWrites | src/main/java/com/myapp/repositories/RecipeRepository.java:164-190 | count rises by one after an insert and falls by one after deleting an existing recipe. It is unchanged after deleting a missing id and zero after deleteAll |
| RecipeRepository.CompleteRecipesSave | src/main/java/com/myapp/repositories/RecipeRepository.java:192-227 | a complete recipe passes validation and, without a store failure, is saved |
| UserStore.Create | src/main/java/com/myapp/dao/UserDaoImpl.java:38-59 | create succeeds exactly when the store works and the email is free; the user gets the next id. A taken email gives "Email already exists", any other failure "Failed to create user", and neither changes the store |
| UserStore.FindByEmail | src/main/java/com/myapp/dao/UserDaoImpl.java:62-81 | a stored user with that email, present exactly when some row has it; null for a null email |
| UserStore.Login | src/main/java/com/myapp/dao/UserDaoImpl.java:15-35 | a user whose stored email and password equal the arguments, present exactly when such a row exists |
| UserStore.CreateThenFind | src/main/java/com/myapp/dao/UserDaoImpl.java:38-81 | a created user is found by its email with the generated id |
| UserStore.CreateKeepsWellFormed | src/main/java/com/myapp/dao/UserDaoImpl.java:38-59 | create keeps emails unique and ids below the counter |
| AuthService.Login | src/main/java/com/myapp/services/AuthServiceImpl.java:12-23 | a null or blank argument gives no user. Otherwise, with the user stored under the trimmed email: none, or one with a null hash, gives no user; else that user is returned exactly when BCrypt accepts the trimmed password, and a malformed hash raises IllegalArgumentException with BCrypt's message |
| AuthService.Register | src/main/java/com/myapp/services/AuthServiceImpl.java:26-35 | a null or blank argument is refused with "Invalid registration data" before any write. Otherwise the trimmed name and email are created with the hash of the trimmed password |
| AuthService.RegisterThenLogin | src/main/java/com/myapp/services/AuthServiceImpl.java:12-35 | after registering, signing in with the same email and password up to surrounding spaces returns the new user |
| AuthService.SecondRegistrationIsDuplicate | src/main/java/com/myapp/services/AuthServiceImpl.java:26-35 | registering the same trimmed email twice fails the second time with the duplicate-email error and changes nothing |
| AuthService.RejectedPasswordNeverSignsIn | src/main/java/com/myapp/services/AuthServiceImpl.java:12-23 | a password BCrypt rejects never signs in |
| RecipeService.SessionUserId | src/main/java/com/myapp/services/RecipeServiceImpl.java:19-25 | the signed-in user's id, or none when nobody is signed in or the user is null |
| RecipeService.GetAllRecipes | src/main/java/com/myapp/services/RecipeServiceImpl.java:19-25 | an order-preserving sub-list of findAll with exactly the recipes visible to the session's user |
| RecipeService.GetRecipeById | src/main/java/com/myapp/services/RecipeServiceImpl.java:28-33 | null for a null id; otherwise the recipe with that id exactly when one is stored |
| RecipeService.SaveRecipe | src/main/java/com/myapp/services/RecipeServiceImpl.java:36-41 | a null recipe is refused with "Recipe cannot be null"; otherwise the DAO's save |
| RecipeService.DeleteRecipe | src/main/java/com/myapp/services/RecipeServiceImpl.java:44-49 | a null id is refused with "Recipe ID cannot be null" and no change; otherwise the DAO's delete |
| RecipeService.NullIdDeleteDiffers | src/main/java/com/myapp/services/RecipeServiceImpl.java:44-49 | on a null id the service throws where the DAO silently does nothing |
| Text.Utf16Length | src/main/java/com/myapp/services/RecipeServiceImpl.java:58 | `length()` counts UTF-16 code units: at least the number of chars and at most twice it, and equal to it exactly when no char lies above U+FFFF |
| Text.Utf16LengthAppend | src/main/java/com/myapp/services/RecipeServiceImpl.java:58 | the length of a concatenation is the sum of the lengths |
| RecipeService.Matches | src/main/java/com/myapp/services/RecipeServiceImpl.java:58-104 | a query of up to two UTF-16 code units matches on the title alone. A longer one matches when the title, description, an ingredient name or an instruction contains it, case-insensitively |
| RecipeService.SupplementaryQueryIsNotShort | src/main/java/com/myapp/services/RecipeServiceImpl.java:58-83 | a two-char query with a char above U+FFFF is three code units long, so the description is searched |
| RecipeService.DistinctFrom | src/main/java/com/myapp/services/RecipeServiceImpl.java:105-107 | an order-preserving sub-list that keeps the first recipe of each id and every null-id recipe, with no id repeated |
| RecipeService.Distinct | src/main/java/com/myapp/services/RecipeServiceImpl.java:105-107 | an order-preserving sub-list in which no id repeats. Every recipe without an id stays, every id present keeps a recipe, and the first recipe with each id is the one kept. DistinctFromAppend fixes the order and DistinctFromKeepsNullIds the id-less copies |
| RecipeService.DistinctFromAppend | src/main/java/com/myapp/services/RecipeServiceImpl.java:105-107 | a recipe appended to the list is kept, last, exactly when its id is null or not yet taken. With the empty list giving the empty list this fixes the result: first occurrences in list order, and every id-less recipe |
| RecipeService.DistinctFromKeepsNullIds | src/main/java/com/myapp/services/RecipeServiceImpl.java:105-107 | the recipes without an id all stay, in order and with their repetitions, since two of them are never equal |
| RecipeService.DistinctKeepsFirstOccurrences | src/main/java/com/myapp/services/RecipeServiceImpl.java:105-107 | for recipes a and b with different ids, [a, b, a] gives [a, b] |
| RecipeService.DistinctKeepsNullIdCopies | src/main/java/com/myapp/services/RecipeServiceImpl.java:105-107 | two copies of a recipe without an id both stay |
| RecipeService.DistinctOfDistinct | src/main/java/com/myapp/services/RecipeServiceImpl.java:105-107 | de-duplicating a list whose ids are already distinct returns it unchanged |
| RecipeService.SearchRecipes | src/main/java/com/myapp/services/RecipeServiceImpl.java:52-108 | a blank query lists what getAllRecipes lists. Otherwise an order-preserving sub-list of findAll whose recipes all match the trimmed lower-case query, with distinct ids |
| RecipeService.SearchIsFilterOfFindAll | src/main/java/com/myapp/services/RecipeServiceImpl.java:52-108 | in a store with unique ids, a non-blank search is exactly the recipes of findAll that match, in order |
| RecipeService.SearchSeesPrivateRecipes | src/main/java/com/myapp/services/RecipeServiceImpl.java:57-108 | a non-blank search finds a matching recipe whatever its visibility or owner |
| RecipeService.GetRecipesByCategory | src/main/java/com/myapp/services/RecipeServiceImpl.java:111-124 | a blank category lists what getAllRecipes lists. Otherwise an order-preserving sub-list of findAll with exactly the recipes whose category equals it ignoring case |
| RecipeService.PaddedCategoryFindsNothingUnpadded | src/main/java/com/myapp/services/RecipeServiceImpl.java:111-124 | the category argument is not trimmed, so a padded name finds no recipe stored without padding |
| RecipeListScreen.RecipeCategories | src/main/java/com/myapp/controllers/RecipeListController.java:175-177 | the non-blank categories of the recipes, and only those |
| RecipeListScreen.DistinctStrings | src/main/java/com/myapp/controllers/RecipeListController.java:178 | the same strings without repeats |
| RecipeListScreen.SortStrings | src/main/java/com/myapp/controllers/RecipeListController.java:179 | the same distinct strings in strictly ascending `compareTo` order |
| RecipeListScreen.SortedCategories | src/main/java/com/myapp/controllers/RecipeListController.java:175-180 | the recipes' categories, once each, in ascending order |
| RecipeListScreen.CategoryOptions | src/main/java/com/myapp/controllers/RecipeListController.java:172-197 | the drop-down starts with "All", and no later entry equals "All" ignoring case |
| RecipeListScreen.CategoryOptionsMembers | src/main/java/com/myapp/controllers/RecipeListController.java:172-197 | after "All" the options are exactly the recipes' categories, plus "Dessert", minus any "all" in any case |
| RecipeListScreen.DessertAddedIff | src/main/java/com/myapp/controllers/RecipeListController.java:183-185 | "Dessert" is added exactly when no listed category equals it ignoring case |
| RecipeListScreen.CategoryOptionsHaveDessert | src/main/java/com/myapp/controllers/RecipeListController.java:183-187 | "Dessert" is always offered |
| RecipeListScreen.CategoryOptionsSorted | src/main/java/com/myapp/controllers/RecipeListController.java:172-197 | the listed categories are sorted, with an added "Dessert" last |
| RecipeListScreen.CategoryFilter | src/main/java/com/myapp/controllers/RecipeListController.java:224-235 | with no category chosen, or "All", the list is unchanged. Otherwise an order-preserving sub-list with exactly the recipes whose lower-cased category contains the chosen one, trimmed and lower-cased |
| RecipeListScreen.ListedCategoryKeepsItsRecipes | src/main/java/com/myapp/controllers/RecipeListController.java:172-235 | choosing a listed category keeps every recipe of that category |
| RecipeListScreen.FirstPerId | src/main/java/com/myapp/controllers/RecipeListController.java:238-245 | the map by id keeps the first non-null recipe of each id and no other, with no id repeated. FirstPerIdAppend fixes first-occurrence order |
| RecipeListScreen.FirstPerIdAppend | src/main/java/com/myapp/controllers/RecipeListController.java:238-245 | an element appended to the list adds its recipe, last, exactly when it is non-null with a new non-null id, so recipes come in the order their ids first occur |
| RecipeListScreen.NullIdRecipes | src/main/java/com/myapp/controllers/RecipeListController.java:246-248 | exactly the non-null recipes without an id, in order |
| RecipeListScreen.NullIdRecipesInOrder | src/main/java/com/myapp/controllers/RecipeListController.java:246-248 | the second pass keeps exactly the non-null recipes without an id, in list order and with their repetitions |
| RecipeListScreen.NullIdRecipesAppend | src/main/java/com/myapp/controllers/RecipeListController.java:246-248 | an appended recipe without an id goes last, and any other element adds nothing |
| RecipeListScreen.DedupeById | src/main/java/com/myapp/controllers/RecipeListController.java:238-250 | the recipes with an id come first, in list order, one per id and always the first recipe with that id. Then come exactly the non-null recipes without an id, in list order with their repetitions. No id repeats and nothing is invented |
| RecipeListScreen.DedupeByIdAppend | src/main/java/com/myapp/controllers/RecipeListController.java:238-250 | an appended element with a new id goes right after the other recipes with ids, one without an id goes last, and a null or an id seen before adds nothing. With the empty list giving the empty list this fixes the result exactly |
| RecipeListScreen.DedupeKeepsFirstOccurrences | src/main/java/com/myapp/controllers/RecipeListController.java:238-250 | for recipes a and b with different ids, [a, b, a] gives [a, b] |
| RecipeListScreen.DedupeIdempotent | src/main/java/com/myapp/controllers/RecipeListController.java:238-250 | de-duplicating twice is the same as once |
| RecipeListScreen.DedupeOfDeduped | src/main/java/com/myapp/controllers/RecipeListController.java:238-250 | a list with distinct ids and its id-less recipes last comes back unchanged |
| RecipeListScreen.FilterRecipes | src/main/java/com/myapp/controllers/RecipeListController.java:209-260 | every shown recipe is a search result for the trimmed query, and lies in the chosen category when one is chosen |
| RecipeListScreen.FilterWithCategoryIsKeep | src/main/java/com/myapp/controllers/RecipeListController.java:209-260 | with a category chosen, on a well-formed store, the screen shows exactly the search results in that category, in search order |
| RecipeListScreen.FilterWithoutCategoryIsSearch | src/main/java/com/myapp/controllers/RecipeListController.java:209-250 | with no category chosen, the screen shows exactly the service's search result |
| RecipeListScreen.IngredientLines | src/main/java/com/myapp/controllers/RecipeListController.java:304-311 | one line per ingredient when none is null, and no lines otherwise |
| RecipeListScreen.IngredientsText | src/main/java/com/myapp/controllers/RecipeListController.java:303-314 | the dialog's ingredient text is the lines of the ingredients joined by line breaks, one "name;quantity;unit;notes" line per ingredient. A null element raises NullPointerException |
| RecipeListScreen.InstructionsText | src/main/java/com/myapp/controllers/RecipeListController.java:316-319 | empty for no steps; otherwise the text starts with the first step, "null" for a null one |
| RecipeListScreen.InstructionsTextLines | src/main/java/com/myapp/controllers/RecipeListController.java:316-319 | when no step holds a line break, the lines of the text are the steps, a null one as "null" |
| RecipeListScreen.ParseIngredientLine | src/main/java/com/myapp/controllers/RecipeListController.java:369-388 | a line yields an ingredient exactly when it is not blank and its first ';' field is not blank once trimmed. The name is that field trimmed. The quantity is the parsed second field, and 0 when that field is missing, blank or unreadable. Unit and notes are the third and fourth fields trimmed, and "" when missing. No id is set |
| RecipeListScreen.ParseIngredients | src/main/java/com/myapp/controllers/RecipeListController.java:365-389 | null or blank text gives no ingredients; every parsed ingredient has no id and a non-empty trimmed name |
| RecipeListScreen.ParseIngredientLinesInOrder | src/main/java/com/myapp/controllers/RecipeListController.java:369-388 | the ingredients read from some lines are the lines' parses in order, skipping exactly the lines that yield none |
| RecipeListScreen.ParseIngredientsByLine | src/main/java/com/myapp/controllers/RecipeListController.java:365-389 | non-blank text reads as the parses of its lines, in order |
| RecipeListScreen.NonBlankLines | src/main/java/com/myapp/controllers/RecipeListController.java:396-398 | the trimmed form of every non-blank line, and only non-empty trimmed lines |
| RecipeListScreen.NonBlankLinesInOrder | src/main/java/com/myapp/controllers/RecipeListController.java:396-398 | the non-blank lines in order, each trimmed |
| RecipeListScreen.ParseInstructions | src/main/java/com/myapp/controllers/RecipeListController.java:392-399 | the trimmed non-blank lines, each free of line breaks |
| RecipeListScreen.ParseInstructionsByLine | src/main/java/com/myapp/controllers/RecipeListController.java:392-399 | non-blank text reads as its non-blank lines, trimmed, in order |
| RecipeListScreen.IngredientLineRoundTrip | src/main/java/com/myapp/controllers/RecipeListController.java:303-388 | parsing the line written for an ingredient gives it back with no id, a non-positive quantity as 0, and null unit or notes as empty |
| RecipeListScreen.IngredientsTextRoundTrip | src/main/java/com/myapp/controllers/RecipeListController.java:303-389 | parsing the dialog's ingredient text gives back every ingredient, in order, in that form |
| RecipeListScreen.InstructionsTextRoundTrip | src/main/java/com/myapp/controllers/RecipeListController.java:316-399 | parsing the dialog's instruction text gives back the steps when they are trimmed, non-blank and free of line breaks |

## Behaviour of the code worth knowing

- Sign-in has no step that migrates passwords stored in plain text. A stored value that is not a BCrypt hash makes `checkpw` throw, and `AuthService.Login` carries that error out.
- A failed write changes no row, but the AUTO_INCREMENT counters keep the values a failed INSERT consumed (`RecipeTables.RunTx`).
- Sign-in checks the stored hash only for null. A blank stored hash reaches `checkpw`.
- `Recipe.java` declares no owner or visibility accessors, yet `RecipeDaoImpl` and `RecipeListController` call them. The model gives Recipe the `ownerUserId` and `visibility` fields those callers assume.
- `UserDao.updatePasswordHash` is declared in the interface but not implemented by `UserDaoImpl`, so it is not modelled.
- No write path calls `rollback()`. An exception closes the connection with autocommit off, and the model takes that close as discarding the uncommitted statements.

## Left out

- The JavaFX screens: layout, dialogs, alerts, and the owner and visibility the save dialog copies from the session and a choice box (RecipeListController.java:401-404). These are UI wiring.
- JDBC itself: connections, prepared statements and result-set reading. The stores are relations over sequences instead.
- Failures on read queries: findById, findAll, findAllVisibleForUser and loading children are modelled as always succeeding. Only writes carry a fault.
- The legacy-schema fallback of `findAllVisibleForUser` and `hasColumn`. The model assumes the schema has the owner and visibility columns.
- MySQL's case-insensitive collation: SQL `=` on strings (email lookup, login) is modelled as exact equality.
- The database driver returning no generated key: the model always returns one.
- BCrypt's algorithm and its random salt: these are the `Hasher` parameter.
- Floating point: quantities are reals. `String.valueOf(double)` and `Double.parseDouble` are the `QuantityCodec` parameter, and the dialog's other number parsing is not modelled.
- Locale-sensitive case mapping: `toLowerCase` and `equalsIgnoreCase` are modelled on ASCII letters only.
- UTF-16 order: `compareTo` compares UTF-16 code units, while `Text.StrLess` compares whole code points. The two disagree only when a char above U+FFFF meets one in U+E000-U+FFFF, which category names are not expected to hold.
- RecipeRepository.DeleteAll and RecipeStore.UpdateOfMissingRowLeavesChildren: assume the ingredient and instruction tables have no foreign key to the recipe id. The schema is not part of this model. With ON DELETE CASCADE, `deleteAll` (RecipeRepository.java:164-174) would also remove every child row. With a plain foreign key it would fail whenever children exist, and the child INSERTs of an update of a missing id (RecipeDaoImpl.java:99-100) would fail, so the update would fail with "Failed to update recipe".
- RecipeRepository.RowOf: assumes the owner_user_id and visibility columns default to NULL, because the repository's INSERT names neither (RecipeRepository.java:29-30) and the schema is not part of this model. With another default, `RecipeDao.FindAllVisibleForUser` could hide or show a repository-inserted recipe differently.
- A null ingredient or instruction list on a Recipe: lists are always present. The store skips a null list and search finds nothing in one, as with an empty list.
- `Recipe.toString` (Recipe.java:121-132): debug text that no modelled operation reads.
- Debug printing, `DatabaseConfig`, `SessionManager` as global state (it is the `Session` parameter), and concurrency. None of it affects results.
- RecipeStore.LoadAfterChildren: compares ingredients as a multiset, because loadIngredients has no ORDER BY, so reloads promise no order.
- RecipeListScreen.ParseIngredients: splits on '\n' where the code splits on the pattern "\r?\n". Every line is trimmed afterwards, so a trailing '\r' is dropped either way.
- RecipeListScreen.InstructionsTextRoundTrip: stated only for steps that are trimmed, non-blank and free of line breaks, since other steps do not survive the dialog.
