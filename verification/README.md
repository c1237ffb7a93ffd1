# PrepMate back end in Dafny

A model of the back end of PrepMate, a desktop recipe planner. It covers:

- **Domain records.** An `Ingredient` has tri-state dietary flags, a `User` profile holds dietary flags and allergies, and a `Recipe` derives its `is_vegan`, `is_vegetarian` and `is_lactose_free` properties and its case-insensitive `contains(allergen)` from its ingredients.
- **Suggestion engine.** The profile filter is an if/elif dietary chain followed by an allergen pass. Ad-hoc preferences (maximum time, calorie range, must-have and can't-have ingredients) then refine the list. Random batches of at most ten recipes each avoid the batch shown just before.
- **Quantity scaling.**
- **Recipe ingestion.** The validator behind the "add recipe" window runs its checks in a fixed order, and the first failure wins with a code from 0 to 4.
- **Persistence layer.** This is an abstract store of row sequences: recipes with their ingredient rows, the shopping list merged by (name, unit), the user profile, meal plans, and the ingredient catalog. A catalog miss is answered by a resolver and persisted.

Each back-end source file becomes one module:

- `Ingredients` (`ingredient.dfy`)
- `Users` (`user.dfy`)
- `Recipes` (`recipe.dfy`)
- `Scaling` (`scale.dfy`)
- `Suggestions` (`suggestions.dfy`)
- `Database` (`database.dfy`)
- `SaveUserRecipe` (`save_user_recipe.dfy`)

Three small modules support them:

- `Maybe` holds `Option`, Python truthiness of an optional flag, and `Arg`, a keyword argument that is given or left out.
- `Text` holds ASCII lower-casing and the title character set.
- `Seqs` holds an order-preserving `Filter` with its lemmas, the subsequence relation, and duplicate-freedom.

Modelling conventions:

- Python `None` is `Option.None`.
- A keyword argument left out is `Arg.Omitted`, so the constructors' defaults appear in their contracts.
- The store is a value. Every database operation is a function from the old store to the new one.
- The engine's operations are methods that return the new engine state.
- `random.sample` is a nondeterministic choice. Only its size and the draw-without-replacement are specified.
- The interactive classification prompt of `get_ingredient_info` becomes a parameter `resolve: string -> Classification`.
- Reading a recipe's instruction file becomes a parameter `load: string -> seq<string>`.

Where the code and its design notes differ, the model follows the code:

- **Catalog writes.** `add_new_ingredient_info` is a plain INSERT. The lookup takes the first row matching ignoring case. So a re-classification of a known name is shadowed by the older row rather than replacing it; see `Database.AddNewIngredientInfo`.
- **Random batches.** With no previous batch and exactly ten recipes in the working list, the source takes its general branch. That branch draws from the whole list as well, so every batch still has `min(10, |pool|)` recipes.
- **Duplicate check.** `save_user_recipe` reads every stored recipe to check for duplicates. That read can classify unknown ingredients through the resolver, and hence write to the catalog, even when the save then fails with code 1, 4 or 2.

## Model

| member | source | states |
|---|---|---|
| Ingredients.NewIngredient | PrepMate/project/back_end/ingredient.py:7-13 | name stored as given; quantity is 0 when omitted and `None` only when `None` is passed explicitly; unit and the three dietary flags are unknown unless given; a given keyword is stored as given |
| Users.NewUser | PrepMate/project/back_end/user.py:6-10 | each dietary flag defaults to false and the allergies to the empty collection; given values are kept |
| Users.DefaultUser | PrepMate/project/back_end/user.py:6-10 | `User()` has no dietary flag set and no allergy |
| Recipes.AllTruthyIff | PrepMate/project/back_end/recipe.py:17-24 | the early-return scan answers true exactly when every ingredient's flag for the diet is `True`; `None` or `False` makes it false |
| Recipes.HasDietIff | PrepMate/project/back_end/recipe.py:17-42 | a recipe has a diet iff every ingredient's flag for that diet is `True` |
| Recipes.IsVegan | PrepMate/project/back_end/recipe.py:18-24 | `is_vegan` holds iff every ingredient's vegan flag is `True` |
| Recipes.IsVegetarian | PrepMate/project/back_end/recipe.py:27-33 | `is_vegetarian` holds iff every ingredient's vegetarian flag is `True` |
| Recipes.IsLactoseFree | PrepMate/project/back_end/recipe.py:36-42 | `is_lactose_free` holds iff every ingredient's lactose-free flag is `True` |
| Recipes.NoIngredientsMeetsEveryDiet | PrepMate/project/back_end/recipe.py:20-24 | a recipe without ingredients is vegan, vegetarian and lactose free |
| Recipes.ContainsInIff | PrepMate/project/back_end/recipe.py:44-50 | the scan finds the allergen iff some ingredient name equals it ignoring case |
| Recipes.Contains | PrepMate/project/back_end/recipe.py:44-50 | `contains(a)` iff some ingredient name equals `a` ignoring case |
| Recipes.ContainsIgnoresAllergenCase | PrepMate/project/back_end/recipe.py:47 | `contains(a)` equals `contains(lower(a))` |
| Recipes.NewRecipe | PrepMate/project/back_end/recipe.py:10-15 | name stored; ingredients default to none, calories and preparation time to `None`; the instructions are what the recipe's instruction resource holds |
| Scaling.ScaleIngredients | PrepMate/project/back_end/scale_ingredients.py:8-15 | same length and order; each known quantity is multiplied by the servings and an unknown one stays unknown; name, unit and flags unchanged; one serving changes nothing |
| Suggestions.CheckUserInformation | PrepMate/project/back_end/recipe_suggestions.py:42-70 | the dietary loop followed by the allergy passes keeps exactly the recipes the profile admits, in input order |
| Suggestions.DietaryStep | PrepMate/project/back_end/recipe_suggestions.py:46-61 | the dietary loop keeps exactly the recipes passing the first flag the user has set, in order |
| Suggestions.AllergyStep | PrepMate/project/back_end/recipe_suggestions.py:63-68 | removing each allergen in turn keeps exactly the recipes containing none of them |
| Suggestions.RemoveAllergen | PrepMate/project/back_end/recipe_suggestions.py:66-68 | removing every recipe that contains one allergen keeps the others in order |
| Suggestions.FreeOfOneMore | PrepMate/project/back_end/recipe_suggestions.py:65-68 | being free of a set of allergens plus one more is being free of the set and lacking the new one |
| Suggestions.ProfileFilterIsSubseq | PrepMate/project/back_end/recipe_suggestions.py:46-70 | the profile filter returns an order-preserving subsequence of its input |
| Suggestions.ProfileFilterMember | PrepMate/project/back_end/recipe_suggestions.py:63-68 | a recipe survives iff it was in the input, passed the dietary step and contains no allergen of the user |
| Suggestions.DietaryPrecedence | PrepMate/project/back_end/recipe_suggestions.py:49-61 | the dietary loop keeps exactly the vegan recipes for a vegan profile whatever the other flags; vegetarian applies only when not vegan, lactose free only when neither; with no flag everything passes; allergies play no part |
| Suggestions.NoAllergiesDietaryOnly | PrepMate/project/back_end/recipe_suggestions.py:46-70 | with no allergies the profile filter is the dietary loop alone |
| Suggestions.CheckUserPreferences | PrepMate/project/back_end/recipe_suggestions.py:72-108 | the working list is replaced by the recipes of the current working list meeting the preferences, in order; profile, catalog of recipes and previous batch are untouched |
| Suggestions.InNamesIff | PrepMate/project/back_end/recipe_suggestions.py:96 | a name is among the recipe's ingredient names iff some ingredient has exactly that name |
| Suggestions.PreferenceMember | PrepMate/project/back_end/recipe_suggestions.py:84-105 | a recipe is kept iff time is within the maximum and calories within the inclusive range when both sides are known, every must-have equals some ingredient name exactly and no can't-have does |
| Suggestions.NoPreferencesKeepAll | PrepMate/project/back_end/recipe_suggestions.py:82-108 | empty preferences leave the working list unchanged |
| Suggestions.PreferencesNarrow | PrepMate/project/back_end/recipe_suggestions.py:83-108 | refinement yields an order-preserving subsequence of the current working list, never longer |
| Suggestions.Sample | PrepMate/project/back_end/recipe_suggestions.py:28 | a sample of size k drawn without replacement from the pool |
| Suggestions.RandomSuggestions | PrepMate/project/back_end/recipe_suggestions.py:23-40 | the new batch replaces the previous one and nothing else changes; it has `min(10, pool size)` recipes drawn without replacement from the working list minus the previous batch |
| Suggestions.EmptyPreviousMeansWholeList | PrepMate/project/back_end/recipe_suggestions.py:27-30 | with no previous batch the pool is the whole working list |
| Suggestions.BatchAvoidsPrevious | PrepMate/project/back_end/recipe_suggestions.py:32-38 | every recipe of a batch is in the working list and not in the previous batch; a working list without repeats gives a batch without repeats |
| Suggestions.SmallListRunsDry | PrepMate/project/back_end/recipe_suggestions.py:29-40 | with at most ten recipes, the first batch holds all of them and the next consecutive batch is empty |
| Suggestions.NewEngine | PrepMate/project/back_end/recipe_suggestions.py:17-21 | a new engine's working list is the profile filter of the given recipes and there is no previous batch |
| Database.EmptyStore | PrepMate/project/back_end/database.py:16-102 | a fresh database satisfies the store invariant |
| Database.Lookup | PrepMate/project/back_end/database.py:339-344 | the catalog misses exactly when no row's name matches ignoring case |
| Database.LookupFirstMatch | PrepMate/project/back_end/database.py:341-344 | a hit answers with the classification of the first row whose name matches ignoring case |
| Database.LookupIgnoresCase | PrepMate/project/back_end/database.py:342 | names equal ignoring case get the same answer |
| Database.LookupStable | PrepMate/project/back_end/database.py:344 | rows appended after a hit do not change the answer |
| Database.LookupAfterMiss | PrepMate/project/back_end/database.py:344-355 | after a miss, an appended row for the name answers the lookup |
| Database.LookupStablePrefix | PrepMate/project/back_end/database.py:344 | a hit stays the same answer when the catalog grows at its end |
| Database.LookupAppendOther | PrepMate/project/back_end/database.py:341-344 | appending a row whose name differs ignoring case leaves the lookup of a name unchanged |
| Database.AddNewIngredientInfo | PrepMate/project/back_end/database.py:358-378 | exactly the given row appended and nothing else changed; a new name is answered with the given classification, an already classified name keeps its earlier answer, and every other name keeps its answer |
| Database.GetIngredientInfo | PrepMate/project/back_end/database.py:339-356 | a known name is answered from the catalog without writing; an unknown one gets the resolver's answer, which is persisted; either way a later lookup gives the same answer, and no other name's answer changes |
| Database.AddRecipe | PrepMate/project/back_end/database.py:105-146 | one recipe row under a fresh id whose name is the recipe's; the recipes the tables hold become the earlier ones followed by this recipe's name, calories, time and ingredients' names, quantities and units in order; the id invariant is kept |
| Database.AddRecipeRecords | PrepMate/project/back_end/database.py:123-144 | the rows inserted for a fresh id rebuild exactly the new recipe and leave the earlier recipes' rows as they were |
| Database.RowsOfOtherRecipe | PrepMate/project/back_end/database.py:252-254 | ingredient rows of a new id never show up under another recipe's id |
| Database.RowsOfNewRecipe | PrepMate/project/back_end/database.py:252-254 | under a fresh id exactly the rows inserted for it show up, in insertion order |
| Database.IngredientFromRow | PrepMate/project/back_end/database.py:259-266 | a rebuilt ingredient has the row's name, quantity and unit, and exactly the catalog's three flags, all known |
| Database.ResolveIngredients | PrepMate/project/back_end/database.py:257-268 | every row becomes an ingredient with its name, quantity and unit, and flags that are known and equal to what the final catalog answers for the name; only the catalog grows |
| Database.ResolveIngredientsClassified | PrepMate/project/back_end/database.py:257-268 | over one recipe's rows, a name not read keeps its catalog answer, and a name missing from the catalog gets the resolver's classification at its first reading |
| Database.ResolveRecipes | PrepMate/project/back_end/database.py:250-277 | every recipe row is rebuilt with its name, calories, time and its own ingredient rows in order; every ingredient's flags are what the final catalog answers for its name; only the catalog grows |
| Database.ResolveRecipesInstructions | PrepMate/project/back_end/database.py:270-275 | each recipe read back holds the instructions loaded for its own name |
| Database.ResolveRecipesClassified | PrepMate/project/back_end/database.py:250-268 | over all recipes, a name no recipe reads keeps its catalog answer, and a missing name gets the resolver's classification at its first reading |
| Database.RetrieveRecipes | PrepMate/project/back_end/database.py:243-279 | the recipes come back in order with name, calories, time and ingredients as stored, each with the instructions loaded for its name; only the catalog can change, by appended rows; a name no recipe reads keeps its catalog answer, and a missing name gets the resolver's classification at its first reading |
| Database.RetrievedFlagsMatchCatalog | PrepMate/project/back_end/database.py:257-266 | each ingredient read back has the flags a later catalog lookup of its name returns |
| Database.AddThenRetrieve | PrepMate/project/back_end/database.py:105-279 | reading back after an add gives the earlier recipes followed by the added one |
| Database.MergeRows | PrepMate/project/back_end/database.py:151-177 | rows of the same name and unit get the new quantity added, the others are untouched; a `None` quantity on either side fails |
| Database.AddIngredientToShoppingList | PrepMate/project/back_end/database.py:148-197 | adding fails iff some matching row exists and either it or the new ingredient has no quantity; a listed item has its rows incremented with the length unchanged; otherwise exactly one row is appended; other tables untouched |
| Database.ShoppingAddKeepsUnique | PrepMate/project/back_end/database.py:151-195 | adding keeps (name, unit) unique across rows |
| Database.ListedQuantityAbsent | PrepMate/project/back_end/database.py:151-158 | an item with no row has listed quantity zero |
| Database.ListedQuantityUpdate | PrepMate/project/back_end/database.py:159-176 | updating one row's quantity changes its item's total by the difference and no other item's |
| Database.ShoppingAddAccumulates | PrepMate/project/back_end/database.py:151-195 | with unique rows, each add raises its item's listed quantity by the added amount and leaves every other item's alone |
| Database.OnlyListedRow | PrepMate/project/back_end/database.py:157-158 | with unique rows, at most one row matches an ingredient's name and unit |
| Database.SameItemTwiceMerges | PrepMate/project/back_end/database.py:151-177 | adding the same name and unit twice gives one row holding the sum |
| Database.DifferentUnitsStaySeparate | PrepMate/project/back_end/database.py:179-195 | the same name with two units gives two rows, in insertion order |
| Database.DeleteIngredientFromShoppingList | PrepMate/project/back_end/database.py:237-240 | every row with the name is gone whatever its unit; every other row keeps its multiplicity and the order is kept; other tables untouched |
| Database.DeleteKeepsUnique | PrepMate/project/back_end/database.py:237-240 | deleting keeps (name, unit) unique |
| Database.RetrieveShoppingList | PrepMate/project/back_end/database.py:281-297 | one ingredient per row, in order, with its name, quantity and unit and unknown flags |
| Database.AddUserInfo | PrepMate/project/back_end/database.py:199-223 | the stored allergies become the profile's and the dietary table becomes the one row of its three flags; other tables untouched |
| Database.RetrieveUserInfo | PrepMate/project/back_end/database.py:299-317 | fails iff there is no dietary row; otherwise the three flags come from the first dietary row and the allergies are the stored set |
| Database.UserInfoRoundTrip | PrepMate/project/back_end/database.py:199-317 | saving a profile and reading it back gives the same flags and allergies, whatever was stored before |
| Database.EnsureUserProfile | PrepMate/project/__main__.py:29-33 | after start-up a profile can be read; an existing one is kept, a missing one is seeded with the default user; only the profile tables can change |
| Database.AddPlannedMeal | PrepMate/project/back_end/database.py:225-235 | only the meal table grows, by one row at its end; planning a meal for an unplanned date makes it the date's meal, planning another for a planned date changes nothing, and no other date's answer changes |
| Database.FirstMeal | PrepMate/project/back_end/database.py:322-328 | the scan answers with the recipe of the first row for the date, or "" when there is none |
| Database.RetrievePlannedMeal | PrepMate/project/back_end/database.py:319-330 | the date's meal is the recipe of the first row saved for it, or "" when none was |
| Database.AppendOtherDates | PrepMate/project/back_end/database.py:225-330 | a row appended for one date leaves every other date's answer as it was |
| Database.FirstMealAppend | PrepMate/project/back_end/database.py:326-328 | an appended row matters only when it is for the date and no earlier row is |
| Database.NothingPlanned | PrepMate/project/back_end/database.py:326-330 | on an empty store the answer is "" |
| SaveUserRecipe.Code | PrepMate/project/front_end/addrecipe_window.py:99-125 | each failure is one of the codes 0 to 4 the window explains |
| SaveUserRecipe.CodesDistinct | PrepMate/project/front_end/addrecipe_window.py:99-125 | distinct failures have distinct codes |
| SaveUserRecipe.NameClashIff | PrepMate/project/back_end/save_user_recipe.py:38-40 | the duplicate check over the recipes read back matches exactly the stored names equal to the title ignoring case |
| SaveUserRecipe.IngredientOf | PrepMate/project/back_end/save_user_recipe.py:55-64 | the in-memory ingredient keeps name, quantity and unit; its vegetarian flag stays unset because of the misspelt keyword |
| SaveUserRecipe.RegisterEntries | PrepMate/project/back_end/save_user_recipe.py:54-73 | one catalog row per ingredient entry, in order, with its flags coerced to bool; nothing else changes |
| SaveUserRecipe.CatalogRowsOf | PrepMate/project/back_end/save_user_recipe.py:66-73 | one catalog row per entry, in order, named by the entry with its three flags coerced to bool |
| SaveUserRecipe.WrittenLines | PrepMate/project/back_end/save_user_recipe.py:100-102 | the instruction resource holds each submitted line followed by a line break |
| SaveUserRecipe.RecipeOf | PrepMate/project/back_end/save_user_recipe.py:79-89 | the recipe is named by the title, has one ingredient per entry with its name, quantity and unit, the submitted calories and time, and reads back the submitted instructions when there are any |
| SaveUserRecipe.Commit | PrepMate/project/back_end/save_user_recipe.py:84-90 | exactly one recipe appended, named by the title, stored with its ingredients |
| SaveUserRecipe.CheckUnitsAndWrite | PrepMate/project/back_end/save_user_recipe.py:43-91 | code 4 iff some unit is empty, else code 2 iff there are no entries, both with the store as it was; otherwise one catalog row per entry is appended and the recipe stored; only the recipe tables and the catalog change |
| SaveUserRecipe.AppendedToSameTables | PrepMate/project/back_end/save_user_recipe.py:66-90 | the catalog writes before the insert do not change which recipes the store holds |
| SaveUserRecipe.AfterTitle | PrepMate/project/back_end/save_user_recipe.py:34-91 | code 1 iff the title is taken, else 4 iff a unit is empty, else 2 iff there are no entries, else success; failures keep the store as the read-back left it; success appends the recipe and appends one catalog row per entry to the catalog the read-back left; only the recipe tables and the catalog change |
| SaveUserRecipe.Save | PrepMate/project/back_end/save_user_recipe.py:13-91 | checks run in the order 0, 3, 1, 4, 2 and the first failing one decides; codes 0 and 3 leave the store unchanged; no failure stores a recipe; success appends exactly one recipe named by the title, and one catalog row per ingredient, with flags coerced to bool, to the catalog the read-back left; only the recipe tables and the catalog change |
| SaveUserRecipe.SaveTwice | PrepMate/test/test_save_user_recipe.py:106-129 | a submission passing every check is stored; saving it again reports a duplicate and leaves the recipes as the first save left them |

## Left out

- The SQLite connection, the `CREATE TABLE` statements and their column types are not modelled. The store is an in-memory record of row sequences, and integer-encoded booleans are `bool`.
- The CSV import of the ingredient catalog is external file I/O; the catalog is a sequence of rows.
- The interactive prompt that classifies an unknown ingredient is a `resolve` parameter whose answer the model persists.
- Instruction files are file-system I/O. Reading is a `load` parameter; writing is modelled only as what the new recipe reads back. File-name collisions and line breaks inside a submitted line are not modelled.
- The random number generator behind `random.sample`: only the size of a batch and the draw without replacement are specified.
- `Suggestions.__init__` opens the database when its arguments are falsy, e.g. an empty recipe list. That is I/O; `Suggestions.NewEngine` takes the user and recipes as given.
- The front-end windows and the start-up code are out of scope, apart from the profile seeding `Database.EnsureUserProfile` models and the meaning of the failure codes.
- `lower()` and `COLLATE NOCASE` are ASCII lower-casing. Python's `lower()` also folds non-ASCII letters; e.g. the Kelvin sign lowers to `k`. So the model's duplicate-title check can miss a stored name that Python would match.
- Suggestions.RandomSuggestions: recipes are compared by value, while the source's `recipe not in self.suggestions` compares objects by identity. Two equal but distinct recipe objects in the working list are both excluded here but not in the source.
- Database.AddIngredientToShoppingList: a failed add, where Python raises a `TypeError` on a `None` quantity, leaves the store unchanged. In the source, rows updated earlier in the same loop stay updated but uncommitted.
- SaveUserRecipe.Save: the source coerces the flags of the caller's ingredient lists to `True`/`False` in place. Entries before one with an empty unit are coerced even when the save returns 4. The model's submission is an immutable value.
- Scaling.ScaleIngredients: the source multiplies the caller's own ingredient objects too, because it copies only the list; the model returns fresh values and the input cannot change.
- Database.Lookup: stored classifications are booleans; the catalog imported from CSV may hold other truthy values, which the model does not represent.
