/** Ingestion of a user-submitted recipe (back_end/save_user_recipe.py):
    validation in a fixed order, the first failing check deciding the outcome,
    then the catalog writes and the recipe insert. */
module SaveUserRecipe {
  import opened Maybe
  import opened Text
  import opened Ingredients
  import opened Recipes
  import opened Database

  /** One ingredient row of the form: name, quantity, unit and three flags of
      any truthiness (`None` standing for an unset one). */
  datatype IngredientEntry = IngredientEntry(
    name: string,
    quantity: Option<int>,
    unit: string,
    isVegan: Option<bool>,
    isVegetarian: Option<bool>,
    isLactoseFree: Option<bool>)

  /** The submitted tuple: title, calories, preparation time, ingredient rows,
      instruction lines. */
  datatype Submission = Submission(
    title: string,
    calories: Option<int>,
    prepTime: Option<int>,
    ingredients: seq<IngredientEntry>,
    instructions: seq<string>)

  /** The failures; success is `None`. */
  datatype SaveError = EmptyTitle | DuplicateTitle | NoIngredients | InvalidTitle | MissingUnit

  /** The integer the source returns for each failure, which the add-recipe
      window turns into its message. */
  function Code(e: SaveError): (c: int)
    ensures 0 <= c <= 4
  {
    match e
    case EmptyTitle => 0
    case DuplicateTitle => 1
    case NoIngredients => 2
    case InvalidTitle => 3
    case MissingUnit => 4
  }

  /** Distinct failures are reported by distinct codes. */
  lemma CodesDistinct(e: SaveError, f: SaveError)
    ensures Code(e) == Code(f) <==> e == f
  {
  }

  /** Some stored recipe has the title's name, ignoring case. */
  predicate TitleTaken(s: Store, title: string)
  {
    exists k :: 0 <= k < |s.recipes| && SameIgnoringCase(s.recipes[k].name, title)
  }

  /** The duplicate check as the source runs it, over the recipes just read. */
  predicate NameClash(existing: seq<Recipe>, title: string)
  {
    exists k :: 0 <= k < |existing| && Lower(existing[k].name) == Lower(title)
  }

  /** Reading the recipes back does not change the outcome of the duplicate
      check: it sees exactly the stored names. */
  lemma NameClashIff(s: Store, resolve: string -> Classification, load: string -> seq<string>, title: string)
    ensures NameClash(RetrieveRecipes(s, resolve, load).1, title) <==> TitleTaken(s, title)
  {
    var existing := RetrieveRecipes(s, resolve, load).1;
    assert |existing| == |s.recipes| by {
      assert |PersistedAll(existing)| == |StoredRecords(s)|;
    }
    if TitleTaken(s, title) {
      var k :| 0 <= k < |s.recipes| && SameIgnoringCase(s.recipes[k].name, title);
      assert existing[k].name == s.recipes[k].name;
    }
  }

  predicate SomeUnitMissing(entries: seq<IngredientEntry>)
  {
    exists k :: 0 <= k < |entries| && entries[k].unit == ""
  }

  /** The classification written to the catalog: each flag coerced to bool. */
  function ClassificationOf(e: IngredientEntry): Classification
  {
    Classification(Truthy(e.isVegan), Truthy(e.isVegetarian), Truthy(e.isLactoseFree))
  }

  /** The in-memory ingredient. The source passes the vegetarian flag under
      the misspelt keyword `is_vegetation`, so it is dropped and the flag
      keeps its default; only name, quantity and unit are persisted, so the
      slip is not observable. */
  function IngredientOf(e: IngredientEntry): (i: Ingredient)
    ensures i.name == e.name && i.quantity == e.quantity && i.unit == Some(e.unit)
    ensures i.isVegetarian.None?
  {
    NewIngredient(e.name, Given(e.quantity), Given(Some(e.unit)),
                  Given(Some(Truthy(e.isVegan))), Omitted, Given(Some(Truthy(e.isLactoseFree))))
  }

  function IngredientsOf(entries: seq<IngredientEntry>): seq<Ingredient>
  {
    seq(|entries|, k requires 0 <= k < |entries| => IngredientOf(entries[k]))
  }

  /** The second loop: one catalog insert per entry, in order. */
  function RegisterEntries(s: Store, entries: seq<IngredientEntry>): (s': Store)
    ensures s' == s.(catalog := s'.catalog)
    ensures s'.catalog == s.catalog + CatalogRowsOf(entries)
    decreases |entries|
  {
    if |entries| == 0 then s
    else
      var s1 := AddNewIngredientInfo(s, entries[0].name, ClassificationOf(entries[0]));
      var s2 := RegisterEntries(s1, entries[1..]);
      CatalogRowsOfCons(s.catalog, entries);
      s2
  }

  lemma CatalogRowsOfCons(catalog: seq<CatalogRow>, entries: seq<IngredientEntry>)
    requires |entries| > 0
    ensures catalog + CatalogRowsOf(entries)
         == (catalog + [CatalogRow(entries[0].name, ClassificationOf(entries[0]))]) + CatalogRowsOf(entries[1..])
  {
  }

  /** The lines the instruction resource holds after the save wrote them,
      as the recipe constructor reads them back: each with its line break. */
  function WrittenLines(instructions: seq<string>): (lines: seq<string>)
    ensures |lines| == |instructions|
    ensures forall k :: 0 <= k < |lines| ==> lines[k] == instructions[k] + "\n"
  {
    if |instructions| == 0 then []
    else WrittenLines(instructions[..|instructions| - 1]) + [instructions[|instructions| - 1] + "\n"]
  }

  /** The instruction resources after the save: the submitted lines, when
      there are any, replace the resource named by the title. */
  function AfterWrite(load: string -> seq<string>, title: string, instructions: seq<string>): string -> seq<string>
  {
    if |instructions| > 0 then (n: string) => if n == title then WrittenLines(instructions) else load(n)
    else load
  }

  /** The recipe object handed to `add_recipe`. */
  function RecipeOf(sub: Submission, load: string -> seq<string>): (r: Recipe)
    ensures r.name == sub.title
    ensures |r.ingredients| == |sub.ingredients|
    ensures forall k :: 0 <= k < |r.ingredients| ==>
      && r.ingredients[k].name == sub.ingredients[k].name
      && r.ingredients[k].quantity == sub.ingredients[k].quantity
      && r.ingredients[k].unit == Some(sub.ingredients[k].unit)
    ensures r.calories == sub.calories && r.prepTime == sub.prepTime
    ensures |sub.instructions| > 0 ==>
      |r.instructions| == |sub.instructions|
      && forall k :: 0 <= k < |r.instructions| ==> r.instructions[k] == sub.instructions[k] + "\n"
    ensures |sub.instructions| == 0 ==> r.instructions == load(sub.title)
  {
    NewRecipe(sub.title, Given(IngredientsOf(sub.ingredients)), Given(sub.calories), Given(sub.prepTime),
              AfterWrite(load, sub.title, sub.instructions))
  }

  /** The catalog rows a save writes: one per entry, flags coerced to bool. */
  function CatalogRowsOf(entries: seq<IngredientEntry>): (rows: seq<CatalogRow>)
    ensures |rows| == |entries|
    ensures forall k :: 0 <= k < |entries| ==>
      rows[k] == CatalogRow(entries[k].name, ClassificationOf(entries[k]))
    decreases |entries|
  {
    if |entries| == 0 then []
    else
      var rest := CatalogRowsOf(entries[1..]);
      assert forall k :: 1 <= k < |entries| ==> entries[k] == entries[1..][k - 1];
      [CatalogRow(entries[0].name, ClassificationOf(entries[0]))] + rest
  }

  /** The catalog ends with the rows written for the entries. */
  predicate CatalogEndsWith(catalog: seq<CatalogRow>, entries: seq<IngredientEntry>)
  {
    |catalog| >= |entries| && catalog[|catalog| - |entries|..] == CatalogRowsOf(entries)
  }

  /** `s'` holds the recipes of `s` followed by exactly one more: the
      submitted recipe, named by the title. */
  predicate AppendedRecipe(s: Store, s': Store, sub: Submission, load: string -> seq<string>)
  {
    && |s'.recipes| == |s.recipes| + 1
    && s'.recipes[..|s.recipes|] == s.recipes
    && s'.recipes[|s.recipes|].name == sub.title
    && StoredRecords(s') == StoredRecords(s) + [Persisted(RecipeOf(sub, load))]
  }

  /** Two stores with the same recipe and ingredient tables hold the same
      recipes, so appending to one is appending to the other. */
  lemma AppendedToSameTables(s: Store, t: Store, t': Store, sub: Submission, load: string -> seq<string>)
    requires t.recipes == s.recipes && t.ingredients == s.ingredients
    requires AppendedRecipe(t, t', sub, load)
    ensures AppendedRecipe(s, t', sub, load)
  {
    assert StoredRecords(t) == StoredRecords(s);
  }

  /** The last step of a save that passed every check: the recipe insert. */
  function Commit(s: Store, sub: Submission, load: string -> seq<string>): (s': Store)
    requires Valid(s)
    ensures Valid(s')
    ensures s' == s.(recipes := s'.recipes, ingredients := s'.ingredients, nextRecipeId := s'.nextRecipeId)
    ensures |s'.recipes| == |s.recipes| + 1 && s'.recipes[..|s.recipes|] == s.recipes
    ensures s'.recipes[|s.recipes|].name == sub.title
    ensures StoredRecords(s') == StoredRecords(s) + [Persisted(RecipeOf(sub, load))]
  {
    AddRecipe(s, RecipeOf(sub, load))
  }

  /** The unit check, the catalog writes, the ingredient-count check and the
      insert, run on the store as the duplicate check left it. */
  function CheckUnitsAndWrite(s: Store, sub: Submission, load: string -> seq<string>): (r: (Option<SaveError>, Store))
    requires Valid(s)
    ensures Valid(r.1)
    ensures r.0 == Some(MissingUnit) <==> SomeUnitMissing(sub.ingredients)
    ensures r.0 == Some(NoIngredients) <==> !SomeUnitMissing(sub.ingredients) && |sub.ingredients| == 0
    ensures r.0.None? <==> !SomeUnitMissing(sub.ingredients) && |sub.ingredients| > 0
    ensures r.0.Some? ==> r.0 == Some(MissingUnit) || r.0 == Some(NoIngredients)
    ensures r.0.Some? ==> r.1 == s
    ensures r.0.None? ==> AppendedRecipe(s, r.1, sub, load)
    ensures r.0.None? ==> r.1.catalog == s.catalog + CatalogRowsOf(sub.ingredients)
    ensures r.1 == s.(recipes := r.1.recipes, ingredients := r.1.ingredients,
                      nextRecipeId := r.1.nextRecipeId, catalog := r.1.catalog)
  {
    if SomeUnitMissing(sub.ingredients) then (Some(MissingUnit), s)
    else
      var s2 := RegisterEntries(s, sub.ingredients);
      if |sub.ingredients| < 1 then
        assert s2.catalog == s.catalog;
        (Some(NoIngredients), s)
      else
        var s3 := Commit(s2, sub, load);
        AppendedToSameTables(s, s2, s3, sub, load);
        (None, s3)
  }

  /** A write that follows a read which only grew the catalog appends the
      recipe to the tables of the store before the read, and the entries to
      the catalog the read left. */
  lemma WrittenAfterRead(s: Store, s1: Store, sub: Submission, load: string -> seq<string>)
    requires Valid(s1)
    requires s1 == s.(catalog := s1.catalog)
    requires IsPrefix(s.catalog, s1.catalog)
    requires CheckUnitsAndWrite(s1, sub, load).0.None?
    ensures var t := CheckUnitsAndWrite(s1, sub, load).1;
      && AppendedRecipe(s, t, sub, load)
      && CatalogEndsWith(t.catalog, sub.ingredients)
      && IsPrefix(s.catalog, t.catalog)
  {
    var t := CheckUnitsAndWrite(s1, sub, load).1;
    AppendedToSameTables(s, s1, t, sub, load);
    assert t.catalog[|t.catalog| - |sub.ingredients|..] == CatalogRowsOf(sub.ingredients);
    assert IsPrefix(s1.catalog, t.catalog);
  }

  /** Everything after the title checks: the duplicate check against the
      recipes read back, then the unit check and the writes. */
  function AfterTitle(s: Store, sub: Submission, resolve: string -> Classification, load: string -> seq<string>): (r: (Option<SaveError>, Store))
    requires Valid(s)
    ensures Valid(r.1)
    ensures r.0 == Some(DuplicateTitle) <==> TitleTaken(s, sub.title)
    ensures r.0 == Some(MissingUnit) <==> !TitleTaken(s, sub.title) && SomeUnitMissing(sub.ingredients)
    ensures r.0 == Some(NoIngredients) <==>
      !TitleTaken(s, sub.title) && !SomeUnitMissing(sub.ingredients) && |sub.ingredients| == 0
    ensures r.0.None? <==>
      !TitleTaken(s, sub.title) && !SomeUnitMissing(sub.ingredients) && |sub.ingredients| > 0
    ensures r.0 != Some(EmptyTitle) && r.0 != Some(InvalidTitle)
    ensures r.0.Some? ==> r.1 == RetrieveRecipes(s, resolve, load).0
    ensures IsPrefix(s.catalog, r.1.catalog)
    ensures r.0.None? ==> AppendedRecipe(s, r.1, sub, load)
    ensures r.0.None? ==> CatalogEndsWith(r.1.catalog, sub.ingredients)
    ensures r.0.None? ==>
      r.1.catalog == RetrieveRecipes(s, resolve, load).0.catalog + CatalogRowsOf(sub.ingredients)
    ensures r.1 == s.(recipes := r.1.recipes, ingredients := r.1.ingredients,
                      nextRecipeId := r.1.nextRecipeId, catalog := r.1.catalog)
  {
    var (s1, existing) := RetrieveRecipes(s, resolve, load);
    NameClashIff(s, resolve, load, sub.title);
    if NameClash(existing, sub.title) then (Some(DuplicateTitle), s1)
    else
      var r := CheckUnitsAndWrite(s1, sub, load);
      if r.0.Some? then r
      else
        WrittenAfterRead(s, s1, sub, load);
        r
  }

  /** `save_user_recipe(user_recipe)`. `resolve` classifies unknown
      ingredients met while the existing recipes are read for the duplicate
      check; `load` reads a recipe's instruction resource. */
  function Save(s: Store, sub: Submission, resolve: string -> Classification, load: string -> seq<string>): (r: (Option<SaveError>, Store))
    requires Valid(s)
    ensures Valid(r.1)
    // the checks, in order; the first failing one decides
    ensures r.0 == Some(EmptyTitle) <==> |sub.title| == 0
    ensures r.0 == Some(InvalidTitle) <==> |sub.title| > 0 && !ValidTitleChars(sub.title)
    ensures r.0 == Some(DuplicateTitle) <==>
      |sub.title| > 0 && ValidTitleChars(sub.title) && TitleTaken(s, sub.title)
    ensures r.0 == Some(MissingUnit) <==>
      |sub.title| > 0 && ValidTitleChars(sub.title) && !TitleTaken(s, sub.title)
      && SomeUnitMissing(sub.ingredients)
    ensures r.0 == Some(NoIngredients) <==>
      |sub.title| > 0 && ValidTitleChars(sub.title) && !TitleTaken(s, sub.title)
      && |sub.ingredients| == 0
    ensures r.0.None? <==>
      |sub.title| > 0 && ValidTitleChars(sub.title) && !TitleTaken(s, sub.title)
      && !SomeUnitMissing(sub.ingredients) && |sub.ingredients| > 0
    // the title checks run before the store is touched
    ensures r.0 == Some(EmptyTitle) || r.0 == Some(InvalidTitle) ==> r.1 == s
    // a later failure writes no recipe and no classification of its own; only
    // reading the existing recipes may have classified unknown ingredients
    ensures r.0.Some? && r.0 != Some(EmptyTitle) && r.0 != Some(InvalidTitle) ==>
      r.1 == RetrieveRecipes(s, resolve, load).0
    ensures IsPrefix(s.catalog, r.1.catalog)
    // a failure stores no recipe
    ensures r.0.Some? ==> r.1.recipes == s.recipes && r.1.ingredients == s.ingredients
    // success: exactly one recipe appended, named by the title
    ensures r.0.None? ==> AppendedRecipe(s, r.1, sub, load)
    // success: one catalog insert per ingredient, flags coerced to bool
    ensures r.0.None? ==> CatalogEndsWith(r.1.catalog, sub.ingredients)
    ensures r.0.None? ==>
      r.1.catalog == RetrieveRecipes(s, resolve, load).0.catalog + CatalogRowsOf(sub.ingredients)
    // only the recipe tables and the catalog are written
    ensures r.1 == s.(recipes := r.1.recipes, ingredients := r.1.ingredients,
                      nextRecipeId := r.1.nextRecipeId, catalog := r.1.catalog)
  {
    if |sub.title| == 0 then (Some(EmptyTitle), s)
    else if !ValidTitleChars(sub.title) then (Some(InvalidTitle), s)
    else AfterTitle(s, sub, resolve, load)
  }

  /** Saving the same submission twice: the first save stores it, the second
      is refused as a duplicate and leaves the recipes as the first left them. */
  lemma SaveTwice(s: Store, sub: Submission, resolve: string -> Classification, load: string -> seq<string>)
    requires Valid(s)
    requires |sub.title| > 0 && ValidTitleChars(sub.title) && !TitleTaken(s, sub.title)
    requires !SomeUnitMissing(sub.ingredients) && |sub.ingredients| > 0
    ensures Save(s, sub, resolve, load).0.None?
    ensures var s1 := Save(s, sub, resolve, load).1;
      && Save(s1, sub, resolve, load).0 == Some(DuplicateTitle)
      && Save(s1, sub, resolve, load).1.recipes == s1.recipes
  {
    var s1 := Save(s, sub, resolve, load).1;
    var k := |s.recipes|;
    assert s1.recipes[k].name == sub.title;
    assert SameIgnoringCase(s1.recipes[k].name, sub.title);
    assert TitleTaken(s1, sub.title);
  }
}
