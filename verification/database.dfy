/** The persistence layer (back_end/database.py) as an abstract store: every
    table is an in-memory sequence of rows in insertion order, and every
    operation is a function from the old store to the new one. */
module Database {
  import opened Maybe
  import opened Text
  import opened Seqs
  import opened Ingredients
  import opened Recipes
  import opened Users

  datatype RecipeRow = RecipeRow(id: int, name: string, calories: Option<int>, prepTime: Option<int>)

  datatype IngredientRow = IngredientRow(recipeId: int, name: string, quantity: Option<int>, unit: Option<string>)

  datatype ShoppingRow = ShoppingRow(name: string, quantity: Option<int>, unit: Option<string>)

  datatype DietaryRow = DietaryRow(isVegan: bool, isVegetarian: bool, isLactoseIntolerant: bool)

  datatype MealRow = MealRow(date: string, recipeName: string)

  /** An ingredient's classification, as stored in the catalog. */
  datatype Classification = Classification(isVegan: bool, isVegetarian: bool, isLactoseFree: bool)

  datatype CatalogRow = CatalogRow(foodItem: string, info: Classification)

  /** The tables. The allergies table is kept as a set: it is only ever
      read back whole, into a set. `nextRecipeId` is the AUTOINCREMENT
      counter of the recipes table. */
  datatype Store = Store(
    recipes: seq<RecipeRow>,
    ingredients: seq<IngredientRow>,
    nextRecipeId: int,
    shoppingList: seq<ShoppingRow>,
    allergies: set<string>,
    dietary: seq<DietaryRow>,
    mealPlans: seq<MealRow>,
    catalog: seq<CatalogRow>)

  /** The failures the source raises: no profile row yet (an IndexError), and
      adding a quantity to `None` (a TypeError). */
  datatype StoreError = NoProfile | MissingQuantity

  datatype Result<+T> = Success(value: T) | Failure(error: StoreError)

  /** A freshly created database. */
  function EmptyStore(): (s: Store)
    ensures Valid(s)
  {
    Store([], [], 1, [], {}, [], [], [])
  }

  /** Row ids handed out so far are below the counter, and every ingredient
      row refers to one of them. */
  predicate Valid(s: Store)
  {
    && (forall i :: 0 <= i < |s.recipes| ==> s.recipes[i].id < s.nextRecipeId)
    && (forall i :: 0 <= i < |s.ingredients| ==> s.ingredients[i].recipeId < s.nextRecipeId)
  }

  // ---------------------------------------------------------------------------
  // Ingredient catalog
  // ---------------------------------------------------------------------------

  /** `SELECT ... WHERE FoodItem = ? COLLATE NOCASE` then `fetchone()`: the
      first row whose name matches ignoring case. */
  function Lookup(catalog: seq<CatalogRow>, name: string): (r: Option<Classification>)
    ensures r.None? <==> forall i :: 0 <= i < |catalog| ==> !SameIgnoringCase(catalog[i].foodItem, name)
    decreases |catalog|
  {
    if |catalog| == 0 then None
    else if Lower(catalog[0].foodItem) == Lower(name) then
      assert SameIgnoringCase(catalog[0].foodItem, name);
      Some(catalog[0].info)
    else
      assert forall i :: 1 <= i < |catalog| ==> catalog[i] == catalog[1..][i - 1];
      Lookup(catalog[1..], name)
  }

  /** A hit answers with the first row whose name matches ignoring case. */
  lemma {:induction false} LookupFirstMatch(catalog: seq<CatalogRow>, name: string)
    ensures Lookup(catalog, name).Some? ==>
      exists i :: && 0 <= i < |catalog|
                  && SameIgnoringCase(catalog[i].foodItem, name)
                  && catalog[i].info == Lookup(catalog, name).value
                  && forall j :: 0 <= j < i ==> !SameIgnoringCase(catalog[j].foodItem, name)
    decreases |catalog|
  {
    if |catalog| > 0 && Lower(catalog[0].foodItem) != Lower(name) {
      var tail := catalog[1..];
      LookupFirstMatch(tail, name);
      if Lookup(tail, name).Some? {
        var i :| && 0 <= i < |tail|
                 && SameIgnoringCase(tail[i].foodItem, name)
                 && tail[i].info == Lookup(tail, name).value
                 && forall j :: 0 <= j < i ==> !SameIgnoringCase(tail[j].foodItem, name);
        assert SameIgnoringCase(catalog[i + 1].foodItem, name);
        assert forall j :: 0 <= j < i + 1 ==> !SameIgnoringCase(catalog[j].foodItem, name);
      }
    } else if |catalog| > 0 {
      assert SameIgnoringCase(catalog[0].foodItem, name);
    }
  }

  /** The lookup ignores the case of the name asked for. */
  lemma {:induction false} LookupIgnoresCase(catalog: seq<CatalogRow>, a: string, b: string)
    requires SameIgnoringCase(a, b)
    ensures Lookup(catalog, a) == Lookup(catalog, b)
    decreases |catalog|
  {
    if |catalog| > 0 {
      LookupIgnoresCase(catalog[1..], a, b);
    }
  }

  /** Rows appended after a hit do not change the answer: the first row wins. */
  lemma {:induction false} LookupStable(catalog: seq<CatalogRow>, more: seq<CatalogRow>, name: string)
    requires Lookup(catalog, name).Some?
    ensures Lookup(catalog + more, name) == Lookup(catalog, name)
    decreases |catalog|
  {
    assert (catalog + more)[0] == catalog[0];
    if Lower(catalog[0].foodItem) != Lower(name) {
      assert (catalog + more)[1..] == catalog[1..] + more;
      LookupStable(catalog[1..], more, name);
    }
  }

  /** After a miss, the appended row answers. */
  lemma {:induction false} LookupAfterMiss(catalog: seq<CatalogRow>, row: CatalogRow, name: string)
    requires Lookup(catalog, name).None?
    requires SameIgnoringCase(row.foodItem, name)
    ensures Lookup(catalog + [row], name) == Some(row.info)
    decreases |catalog|
  {
    if |catalog| == 0 {
      assert catalog + [row] == [row];
    } else {
      assert (catalog + [row])[1..] == catalog[1..] + [row];
      LookupAfterMiss(catalog[1..], row, name);
    }
  }

  /** A row appended for one name does not change any other name's answer. */
  lemma {:induction false} LookupAppendOther(catalog: seq<CatalogRow>, row: CatalogRow, name: string)
    requires !SameIgnoringCase(row.foodItem, name)
    ensures Lookup(catalog + [row], name) == Lookup(catalog, name)
    decreases |catalog|
  {
    if |catalog| == 0 {
      assert catalog + [row] == [row];
    } else {
      assert (catalog + [row])[1..] == catalog[1..] + [row];
      LookupAppendOther(catalog[1..], row, name);
    }
  }

  lemma LookupAppendOthers(catalog: seq<CatalogRow>, row: CatalogRow)
    ensures forall n :: !SameIgnoringCase(row.foodItem, n) ==> Lookup(catalog + [row], n) == Lookup(catalog, n)
  {
    forall n | !SameIgnoringCase(row.foodItem, n)
      ensures Lookup(catalog + [row], n) == Lookup(catalog, n)
    {
      LookupAppendOther(catalog, row, n);
    }
  }

  /** `add_new_ingredient_info(name, info)`: a plain INSERT, even when the
      name is already classified. */
  function AddNewIngredientInfo(s: Store, name: string, info: Classification): (s': Store)
    ensures s' == s.(catalog := s.catalog + [CatalogRow(name, info)])
    // a name not yet classified is now answered with the new classification
    ensures Lookup(s.catalog, name).None? ==> Lookup(s'.catalog, name) == Some(info)
    // a re-classification is shadowed by the earlier row
    ensures Lookup(s.catalog, name).Some? ==> Lookup(s'.catalog, name) == Lookup(s.catalog, name)
    // any other name keeps its answer
    ensures forall n :: !SameIgnoringCase(name, n) ==> Lookup(s'.catalog, n) == Lookup(s.catalog, n)
  {
    var row := CatalogRow(name, info);
    LookupAppendOthers(s.catalog, row);
    if Lookup(s.catalog, name).None? then
      LookupAfterMiss(s.catalog, row, name);
      s.(catalog := s.catalog + [row])
    else
      LookupStable(s.catalog, [row], name);
      s.(catalog := s.catalog + [row])
  }

  /** `get_ingredient_info(name)`: the catalog's answer; on a miss the
      `resolve` capability (the interactive prompt of the source) classifies
      the ingredient and the answer is persisted. */
  function GetIngredientInfo(s: Store, name: string, resolve: string -> Classification): (r: (Store, Classification))
    ensures r.0 == s.(catalog := r.0.catalog)
    ensures IsPrefix(s.catalog, r.0.catalog)
    // the answer is what a later lookup of the same name returns
    ensures Lookup(r.0.catalog, name) == Some(r.1)
    // a known name is answered from the catalog without writing
    ensures Lookup(s.catalog, name).Some? ==> r == (s, Lookup(s.catalog, name).value)
    // an unknown name gets the resolver's answer
    ensures Lookup(s.catalog, name).None? ==> r.1 == resolve(name)
    // no other name's answer changes
    ensures forall n :: !SameIgnoringCase(name, n) ==> Lookup(r.0.catalog, n) == Lookup(s.catalog, n)
  {
    match Lookup(s.catalog, name)
    case Some(info) => (s, info)
    case None =>
      var info := resolve(name);
      (AddNewIngredientInfo(s, name, info), info)
  }

  predicate IsPrefix<T(==)>(a: seq<T>, b: seq<T>)
  {
    |a| <= |b| && b[..|a|] == a
  }

  lemma LookupStablePrefix(a: seq<CatalogRow>, b: seq<CatalogRow>, name: string)
    requires IsPrefix(a, b)
    requires Lookup(a, name).Some?
    ensures Lookup(b, name) == Lookup(a, name)
  {
    assert b == a + b[|a|..];
    LookupStable(a, b[|a|..], name);
  }

  // ---------------------------------------------------------------------------
  // Recipes
  // ---------------------------------------------------------------------------

  /** What `add_recipe` persists of an ingredient and of a recipe: names,
      quantities, units, calories and preparation time; no flags. */
  datatype IngredientRecord = IngredientRecord(name: string, quantity: Option<int>, unit: Option<string>)

  datatype RecipeRecord = RecipeRecord(
    name: string,
    calories: Option<int>,
    prepTime: Option<int>,
    ingredients: seq<IngredientRecord>)

  function IngredientRecordOf(i: Ingredient): IngredientRecord
  {
    IngredientRecord(i.name, i.quantity, i.unit)
  }

  function Persisted(r: Recipe): RecipeRecord
  {
    RecipeRecord(
      r.name, r.calories, r.prepTime,
      seq(|r.ingredients|, k requires 0 <= k < |r.ingredients| => IngredientRecordOf(r.ingredients[k])))
  }

  function PersistedAll(rs: seq<Recipe>): seq<RecipeRecord>
  {
    seq(|rs|, k requires 0 <= k < |rs| => Persisted(rs[k]))
  }

  function RowRecord(row: IngredientRow): IngredientRecord
  {
    IngredientRecord(row.name, row.quantity, row.unit)
  }

  function RowRecords(rows: seq<IngredientRow>): seq<IngredientRecord>
  {
    seq(|rows|, k requires 0 <= k < |rows| => RowRecord(rows[k]))
  }

  function ForRecipe(id: int): IngredientRow -> bool { (row: IngredientRow) => row.recipeId == id }

  /** `SELECT * FROM ingredients WHERE recipe_id = ?`, in insertion order. */
  function IngredientRowsOf(s: Store, id: int): seq<IngredientRow>
  {
    Filter(s.ingredients, ForRecipe(id))
  }

  /** The recipes the tables hold, as `retrieve_recipes` would rebuild them
      apart from the ingredient flags. */
  function StoredRecords(s: Store): seq<RecipeRecord>
  {
    seq(|s.recipes|, k requires 0 <= k < |s.recipes| =>
      RecipeRecord(s.recipes[k].name, s.recipes[k].calories, s.recipes[k].prepTime,
                   RowRecords(IngredientRowsOf(s, s.recipes[k].id))))
  }

  function IngredientRowsFor(id: int, ings: seq<Ingredient>): seq<IngredientRow>
  {
    seq(|ings|, k requires 0 <= k < |ings| => IngredientRow(id, ings[k].name, ings[k].quantity, ings[k].unit))
  }

  /** `add_recipe(recipe)`: one recipe row under a fresh id, then one
      ingredient row per ingredient, associated by that id. */
  function AddRecipe(s: Store, r: Recipe): (s': Store)
    requires Valid(s)
    ensures Valid(s')
    ensures s' == s.(recipes := s'.recipes, ingredients := s'.ingredients, nextRecipeId := s'.nextRecipeId)
    ensures |s'.recipes| == |s.recipes| + 1 && s'.recipes[..|s.recipes|] == s.recipes
    ensures s'.recipes[|s.recipes|].name == r.name
    ensures StoredRecords(s') == StoredRecords(s) + [Persisted(r)]
  {
    var id := s.nextRecipeId;
    var s' := s.(recipes := s.recipes + [RecipeRow(id, r.name, r.calories, r.prepTime)],
                 ingredients := s.ingredients + IngredientRowsFor(id, r.ingredients),
                 nextRecipeId := id + 1);
    AddRecipeRecords(s, r, s');
    s'
  }

  lemma AddRecipeRecords(s: Store, r: Recipe, s': Store)
    requires Valid(s)
    requires s' == s.(recipes := s.recipes + [RecipeRow(s.nextRecipeId, r.name, r.calories, r.prepTime)],
                      ingredients := s.ingredients + IngredientRowsFor(s.nextRecipeId, r.ingredients),
                      nextRecipeId := s.nextRecipeId + 1)
    ensures StoredRecords(s') == StoredRecords(s) + [Persisted(r)]
  {
    var id := s.nextRecipeId;
    var added := IngredientRowsFor(id, r.ingredients);
    var before := StoredRecords(s);
    var after := StoredRecords(s');
    forall k | 0 <= k < |s.recipes|
      ensures after[k] == before[k]
    {
      assert s'.recipes[k] == s.recipes[k];
      RowsOfOtherRecipe(s.ingredients, added, id, s.recipes[k].id);
    }
    RowsOfNewRecipe(s.ingredients, added, id);
    assert s'.recipes[|s.recipes|].id == id;
    assert RowRecords(added) == Persisted(r).ingredients;
    assert after[|s.recipes|] == Persisted(r);
    assert after == before + [Persisted(r)];
  }

  /** The rows added for a new id do not show up under another id. */
  lemma RowsOfOtherRecipe(rows: seq<IngredientRow>, added: seq<IngredientRow>, id: int, other: int)
    requires forall k :: 0 <= k < |added| ==> added[k].recipeId == id
    requires other != id
    ensures Filter(rows + added, ForRecipe(other)) == Filter(rows, ForRecipe(other))
  {
    FilterAppend(rows, added, ForRecipe(other));
    FilterKeepsNone(added, ForRecipe(other));
  }

  /** Under a fresh id, exactly the rows added for it show up. */
  lemma RowsOfNewRecipe(rows: seq<IngredientRow>, added: seq<IngredientRow>, id: int)
    requires forall k :: 0 <= k < |rows| ==> rows[k].recipeId < id
    requires forall k :: 0 <= k < |added| ==> added[k].recipeId == id
    ensures Filter(rows + added, ForRecipe(id)) == added
  {
    FilterAppend(rows, added, ForRecipe(id));
    FilterKeepsNone(rows, ForRecipe(id));
    FilterKeepsAll(added, ForRecipe(id));
  }

  /** One ingredient row rebuilt: name, quantity and unit from the row, flags
      from the catalog. */
  function IngredientFromRow(row: IngredientRow, info: Classification): (i: Ingredient)
    ensures IngredientRecordOf(i) == RowRecord(row)
    ensures FlagsOf(i) == Some(info)
  {
    NewIngredient(row.name, Given(row.quantity), Given(row.unit),
                  Given(Some(info.isVegan)), Given(Some(info.isVegetarian)), Given(Some(info.isLactoseFree)))
  }

  function FlagsOf(i: Ingredient): Option<Classification>
  {
    if i.isVegan.Some? && i.isVegetarian.Some? && i.isLactoseFree.Some? then
      Some(Classification(i.isVegan.value, i.isVegetarian.value, i.isLactoseFree.value))
    else None
  }

  /** A name no row carries keeps its answer. */
  ghost predicate OthersKept(before: seq<CatalogRow>, after: seq<CatalogRow>, rows: seq<IngredientRow>)
  {
    forall n :: (forall k :: 0 <= k < |rows| ==> !SameIgnoringCase(rows[k].name, n)) ==>
      Lookup(after, n) == Lookup(before, n)
  }

  /** The first row carrying a name the catalog missed is rebuilt with the
      resolver's answer for it (`ings` are the rebuilt ingredients, one per
      row). */
  ghost predicate FirstReadsResolved(before: seq<CatalogRow>, rows: seq<IngredientRow>,
                                     ings: seq<Ingredient>, resolve: string -> Classification)
  {
    && |ings| == |rows|
    && forall k :: && 0 <= k < |rows|
                   && Lookup(before, rows[k].name).None?
                   && (forall j :: 0 <= j < k ==> !SameIgnoringCase(rows[j].name, rows[k].name))
                   ==> FlagsOf(ings[k]) == Some(resolve(rows[k].name))
  }

  /** What classifying the names of `rows` in order, one lookup each, does to
      the catalog: only the names read are classified, and an unknown one by
      the resolver. */
  ghost predicate ClassifiedBy(before: seq<CatalogRow>, after: seq<CatalogRow>, rows: seq<IngredientRow>,
                               ings: seq<Ingredient>, resolve: string -> Classification)
  {
    OthersKept(before, after, rows) && FirstReadsResolved(before, rows, ings, resolve)
  }

  lemma OthersKeptCons(before: seq<CatalogRow>, mid: seq<CatalogRow>, after: seq<CatalogRow>, rows: seq<IngredientRow>)
    requires |rows| > 0
    requires forall n :: !SameIgnoringCase(rows[0].name, n) ==> Lookup(mid, n) == Lookup(before, n)
    requires OthersKept(mid, after, rows[1..])
    ensures OthersKept(before, after, rows)
  {
    forall n | forall k :: 0 <= k < |rows| ==> !SameIgnoringCase(rows[k].name, n)
      ensures Lookup(after, n) == Lookup(before, n)
    {
      assert !SameIgnoringCase(rows[0].name, n);
      assert forall k :: 0 <= k < |rows[1..]| ==> rows[1..][k] == rows[k + 1];
    }
  }

  lemma FirstReadsResolvedCons(before: seq<CatalogRow>, mid: seq<CatalogRow>, rows: seq<IngredientRow>,
                               first: Ingredient, rest: seq<Ingredient>, resolve: string -> Classification)
    requires |rows| > 0
    requires forall n :: !SameIgnoringCase(rows[0].name, n) ==> Lookup(mid, n) == Lookup(before, n)
    requires Lookup(before, rows[0].name).None? ==> FlagsOf(first) == Some(resolve(rows[0].name))
    requires FirstReadsResolved(mid, rows[1..], rest, resolve)
    ensures FirstReadsResolved(before, rows, [first] + rest, resolve)
  {
    var ings := [first] + rest;
    forall k | && 0 <= k < |rows|
               && Lookup(before, rows[k].name).None?
               && (forall j :: 0 <= j < k ==> !SameIgnoringCase(rows[j].name, rows[k].name))
      ensures FlagsOf(ings[k]) == Some(resolve(rows[k].name))
    {
      if k > 0 {
        var tail := rows[1..];
        assert tail[k - 1] == rows[k] && ings[k] == rest[k - 1];
        assert !SameIgnoringCase(rows[0].name, rows[k].name);
        assert Lookup(mid, tail[k - 1].name).None?;
        assert forall j :: 0 <= j < k - 1 ==> !SameIgnoringCase(tail[j].name, tail[k - 1].name) by {
          forall j | 0 <= j < k - 1
            ensures !SameIgnoringCase(tail[j].name, tail[k - 1].name)
          {
            assert tail[j] == rows[j + 1];
          }
        }
      }
    }
  }

  /** One lookup followed by the rest of the scan. */
  lemma ClassifiedCons(before: seq<CatalogRow>, mid: seq<CatalogRow>, after: seq<CatalogRow>,
                       rows: seq<IngredientRow>, first: Ingredient, rest: seq<Ingredient>,
                       resolve: string -> Classification)
    requires |rows| > 0
    requires forall n :: !SameIgnoringCase(rows[0].name, n) ==> Lookup(mid, n) == Lookup(before, n)
    requires Lookup(before, rows[0].name).None? ==> FlagsOf(first) == Some(resolve(rows[0].name))
    requires ClassifiedBy(mid, after, rows[1..], rest, resolve)
    ensures ClassifiedBy(before, after, rows, [first] + rest, resolve)
  {
    OthersKeptCons(before, mid, after, rows);
    FirstReadsResolvedCons(before, mid, rows, first, rest, resolve);
  }

  lemma OthersKeptAppend(c0: seq<CatalogRow>, c1: seq<CatalogRow>, c2: seq<CatalogRow>,
                         a: seq<IngredientRow>, b: seq<IngredientRow>)
    requires OthersKept(c0, c1, a)
    requires OthersKept(c1, c2, b)
    ensures OthersKept(c0, c2, a + b)
  {
    var rows := a + b;
    forall n | forall k :: 0 <= k < |rows| ==> !SameIgnoringCase(rows[k].name, n)
      ensures Lookup(c2, n) == Lookup(c0, n)
    {
      assert forall k :: 0 <= k < |a| ==> a[k] == rows[k];
      assert forall k :: 0 <= k < |b| ==> b[k] == rows[|a| + k];
    }
  }

  /** A name first read in the second scan was missed by the catalog the
      first scan left, since the first scan did not read it. */
  lemma FirstReadInSecond(c0: seq<CatalogRow>, c1: seq<CatalogRow>, a: seq<IngredientRow>,
                          b: seq<IngredientRow>, ib: seq<Ingredient>, m: int,
                          resolve: string -> Classification)
    requires OthersKept(c0, c1, a)
    requires FirstReadsResolved(c1, b, ib, resolve)
    requires 0 <= m < |b| && Lookup(c0, b[m].name).None?
    requires forall j :: 0 <= j < |a| ==> !SameIgnoringCase(a[j].name, b[m].name)
    requires forall j :: 0 <= j < m ==> !SameIgnoringCase(b[j].name, b[m].name)
    ensures FlagsOf(ib[m]) == Some(resolve(b[m].name))
  {
    assert Lookup(c1, b[m].name) == Lookup(c0, b[m].name);
  }

  lemma FirstReadInFirst(c0: seq<CatalogRow>, a: seq<IngredientRow>, ia: seq<Ingredient>, k: int,
                         resolve: string -> Classification)
    requires FirstReadsResolved(c0, a, ia, resolve)
    requires 0 <= k < |a| && Lookup(c0, a[k].name).None?
    requires forall j :: 0 <= j < k ==> !SameIgnoringCase(a[j].name, a[k].name)
    ensures FlagsOf(ia[k]) == Some(resolve(a[k].name))
  {
  }

  /** An index of the joined scan that the first scan read. */
  lemma FirstReadsResolvedAtFirst(c0: seq<CatalogRow>, a: seq<IngredientRow>, ia: seq<Ingredient>,
                                  b: seq<IngredientRow>, ib: seq<Ingredient>,
                                  k: int, resolve: string -> Classification)
    requires FirstReadsResolved(c0, a, ia, resolve)
    requires |ib| == |b|
    requires 0 <= k < |a| && Lookup(c0, (a + b)[k].name).None?
    requires forall j :: 0 <= j < k ==> !SameIgnoringCase((a + b)[j].name, (a + b)[k].name)
    ensures FlagsOf((ia + ib)[k]) == Some(resolve((a + b)[k].name))
  {
    var rows := a + b;
    assert rows[k] == a[k] && (ia + ib)[k] == ia[k];
    forall j | 0 <= j < k
      ensures !SameIgnoringCase(a[j].name, a[k].name)
    {
      assert a[j] == rows[j];
    }
    FirstReadInFirst(c0, a, ia, k, resolve);
  }

  /** An index of the joined scan that the second scan read. */
  lemma FirstReadsResolvedAtSecond(c0: seq<CatalogRow>, c1: seq<CatalogRow>,
                                   a: seq<IngredientRow>, ia: seq<Ingredient>,
                                   b: seq<IngredientRow>, ib: seq<Ingredient>,
                                   k: int, resolve: string -> Classification)
    requires OthersKept(c0, c1, a)
    requires FirstReadsResolved(c1, b, ib, resolve)
    requires |ia| == |a|
    requires |a| <= k < |a + b| && Lookup(c0, (a + b)[k].name).None?
    requires forall j :: 0 <= j < k ==> !SameIgnoringCase((a + b)[j].name, (a + b)[k].name)
    ensures FlagsOf((ia + ib)[k]) == Some(resolve((a + b)[k].name))
  {
    var rows := a + b;
    var m := k - |a|;
    assert rows[k] == b[m] && (ia + ib)[k] == ib[m];
    forall j | 0 <= j < |a|
      ensures !SameIgnoringCase(a[j].name, b[m].name)
    {
      assert a[j] == rows[j];
    }
    forall j | 0 <= j < m
      ensures !SameIgnoringCase(b[j].name, b[m].name)
    {
      assert b[j] == rows[|a| + j];
    }
    FirstReadInSecond(c0, c1, a, b, ib, m, resolve);
  }

  lemma FirstReadsResolvedAppend(c0: seq<CatalogRow>, c1: seq<CatalogRow>,
                                 a: seq<IngredientRow>, ia: seq<Ingredient>,
                                 b: seq<IngredientRow>, ib: seq<Ingredient>,
                                 resolve: string -> Classification)
    requires OthersKept(c0, c1, a)
    requires FirstReadsResolved(c0, a, ia, resolve)
    requires FirstReadsResolved(c1, b, ib, resolve)
    ensures FirstReadsResolved(c0, a + b, ia + ib, resolve)
  {
    forall k | && 0 <= k < |a + b|
               && Lookup(c0, (a + b)[k].name).None?
               && (forall j :: 0 <= j < k ==> !SameIgnoringCase((a + b)[j].name, (a + b)[k].name))
      ensures FlagsOf((ia + ib)[k]) == Some(resolve((a + b)[k].name))
    {
      if k < |a| {
        FirstReadsResolvedAtFirst(c0, a, ia, b, ib, k, resolve);
      } else {
        FirstReadsResolvedAtSecond(c0, c1, a, ia, b, ib, k, resolve);
      }
    }
  }

  /** Two scans in a row classify like one scan over both row lists. */
  lemma ClassifiedAppend(c0: seq<CatalogRow>, c1: seq<CatalogRow>, c2: seq<CatalogRow>,
                         a: seq<IngredientRow>, ia: seq<Ingredient>,
                         b: seq<IngredientRow>, ib: seq<Ingredient>,
                         resolve: string -> Classification)
    requires ClassifiedBy(c0, c1, a, ia, resolve)
    requires ClassifiedBy(c1, c2, b, ib, resolve)
    ensures ClassifiedBy(c0, c2, a + b, ia + ib, resolve)
  {
    OthersKeptAppend(c0, c1, c2, a, b);
    FirstReadsResolvedAppend(c0, c1, a, ia, b, ib, resolve);
  }

  /** The ingredient rows `retrieve_recipes` reads for the recipe rows, in
      reading order. */
  function ReadRows(ingredients: seq<IngredientRow>, rows: seq<RecipeRow>): seq<IngredientRow>
    decreases |rows|
  {
    if |rows| == 0 then []
    else Filter(ingredients, ForRecipe(rows[0].id)) + ReadRows(ingredients, rows[1..])
  }

  /** The ingredients of the recipes, in reading order. */
  function AllIngredients(rs: seq<Recipe>): seq<Ingredient>
    decreases |rs|
  {
    if |rs| == 0 then [] else rs[0].ingredients + AllIngredients(rs[1..])
  }

  /** The inner loop of `retrieve_recipes`: each row's flags are looked up,
      classifying unknown names on the way. */
  function ResolveIngredients(s: Store, rows: seq<IngredientRow>, resolve: string -> Classification): (r: (Store, seq<Ingredient>))
    ensures r.0 == s.(catalog := r.0.catalog)
    ensures IsPrefix(s.catalog, r.0.catalog)
    ensures |r.1| == |rows|
    ensures forall k :: 0 <= k < |rows| ==> IngredientRecordOf(r.1[k]) == RowRecord(rows[k])
    // the flags are all known, and are what the final catalog answers for the name
    ensures forall k :: 0 <= k < |rows| ==>
      FlagsOf(r.1[k]).Some? && FlagsOf(r.1[k]) == Lookup(r.0.catalog, r.1[k].name)
    decreases |rows|
  {
    if |rows| == 0 then (s, [])
    else
      var (s1, info) := GetIngredientInfo(s, rows[0].name, resolve);
      var (s2, rest) := ResolveIngredients(s1, rows[1..], resolve);
      LookupStablePrefix(s1.catalog, s2.catalog, rows[0].name);
      assert forall k :: 1 <= k < |rows| ==> rows[k] == rows[1..][k - 1];
      (s2, [IngredientFromRow(rows[0], info)] + rest)
  }

  /** Over the inner loop, only the names read are classified, and an
      unknown one by the resolver at its first reading. */
  lemma {:induction false} ResolveIngredientsClassified(s: Store, rows: seq<IngredientRow>, resolve: string -> Classification)
    ensures var r := ResolveIngredients(s, rows, resolve);
      ClassifiedBy(s.catalog, r.0.catalog, rows, r.1, resolve)
    decreases |rows|
  {
    if |rows| > 0 {
      var (s1, info) := GetIngredientInfo(s, rows[0].name, resolve);
      var (s2, rest) := ResolveIngredients(s1, rows[1..], resolve);
      ResolveIngredientsClassified(s1, rows[1..], resolve);
      ClassifiedCons(s.catalog, s1.catalog, s2.catalog, rows, IngredientFromRow(rows[0], info), rest, resolve);
    }
  }

  /** The outer loop of `retrieve_recipes`; `load` reads a recipe's
      instruction resource. */
  function ResolveRecipes(s: Store, rows: seq<RecipeRow>, resolve: string -> Classification, load: string -> seq<string>): (r: (Store, seq<Recipe>))
    ensures r.0 == s.(catalog := r.0.catalog)
    ensures IsPrefix(s.catalog, r.0.catalog)
    ensures |r.1| == |rows|
    ensures forall k :: 0 <= k < |rows| ==>
      Persisted(r.1[k]) == RecipeRecord(rows[k].name, rows[k].calories, rows[k].prepTime,
                                        RowRecords(IngredientRowsOf(s, rows[k].id)))
    ensures FlagsAgree(r.0.catalog, r.1)
    decreases |rows|
  {
    if |rows| == 0 then (s, [])
    else
      var (s1, ings) := ResolveIngredients(s, IngredientRowsOf(s, rows[0].id), resolve);
      var recipe := NewRecipe(rows[0].name, Given(ings), Given(rows[0].calories), Given(rows[0].prepTime), load);
      var (s2, rest) := ResolveRecipes(s1, rows[1..], resolve, load);
      FlagsAgreeCons(s1.catalog, s2.catalog, recipe, rest);
      assert IngredientRowsOf(s1, rows[0].id) == IngredientRowsOf(s, rows[0].id);
      assert Persisted(recipe).ingredients == RowRecords(IngredientRowsOf(s, rows[0].id));
      assert forall k :: 1 <= k < |rows| ==> rows[k] == rows[1..][k - 1];
      (s2, [recipe] + rest)
  }

  /** Every ingredient of the recipes has the flags the catalog answers for
      its name. */
  ghost predicate FlagsAgree(catalog: seq<CatalogRow>, rs: seq<Recipe>)
  {
    forall k, j :: 0 <= k < |rs| && 0 <= j < |rs[k].ingredients| ==>
      FlagsOf(rs[k].ingredients[j]) == Lookup(catalog, rs[k].ingredients[j].name)
  }

  /** A recipe whose flags agreed with an earlier catalog still agrees with a
      later one, which only appended rows. */
  lemma FlagsAgreeCons(c1: seq<CatalogRow>, c2: seq<CatalogRow>, recipe: Recipe, rest: seq<Recipe>)
    requires IsPrefix(c1, c2)
    requires forall j :: 0 <= j < |recipe.ingredients| ==>
      FlagsOf(recipe.ingredients[j]).Some? && FlagsOf(recipe.ingredients[j]) == Lookup(c1, recipe.ingredients[j].name)
    requires FlagsAgree(c2, rest)
    ensures FlagsAgree(c2, [recipe] + rest)
  {
    var rs := [recipe] + rest;
    forall k, j | 0 <= k < |rs| && 0 <= j < |rs[k].ingredients|
      ensures FlagsOf(rs[k].ingredients[j]) == Lookup(c2, rs[k].ingredients[j].name)
    {
      if k == 0 {
        LookupStablePrefix(c1, c2, recipe.ingredients[j].name);
      } else {
        assert rs[k] == rest[k - 1];
      }
    }
  }

  /** Each recipe read back holds its own instruction resource. */
  lemma {:induction false} ResolveRecipesInstructions(s: Store, rows: seq<RecipeRow>, resolve: string -> Classification,
                                                      load: string -> seq<string>)
    ensures var r := ResolveRecipes(s, rows, resolve, load);
      forall k :: 0 <= k < |rows| ==> r.1[k].instructions == load(rows[k].name)
    decreases |rows|
  {
    if |rows| > 0 {
      var (s1, ings) := ResolveIngredients(s, IngredientRowsOf(s, rows[0].id), resolve);
      ResolveRecipesInstructions(s1, rows[1..], resolve, load);
      assert forall k :: 1 <= k < |rows| ==> rows[k] == rows[1..][k - 1];
    }
  }

  /** Over the whole outer loop, only the ingredient names read are
      classified, and an unknown one by the resolver at its first reading. */
  lemma {:induction false} ResolveRecipesClassified(s: Store, rows: seq<RecipeRow>, resolve: string -> Classification,
                                                    load: string -> seq<string>)
    ensures var r := ResolveRecipes(s, rows, resolve, load);
      ClassifiedBy(s.catalog, r.0.catalog, ReadRows(s.ingredients, rows), AllIngredients(r.1), resolve)
    decreases |rows|
  {
    if |rows| > 0 {
      var (s1, ings) := ResolveIngredients(s, IngredientRowsOf(s, rows[0].id), resolve);
      var recipe := NewRecipe(rows[0].name, Given(ings), Given(rows[0].calories), Given(rows[0].prepTime), load);
      var (s2, rest) := ResolveRecipes(s1, rows[1..], resolve, load);
      ResolveIngredientsClassified(s, IngredientRowsOf(s, rows[0].id), resolve);
      ResolveRecipesClassified(s1, rows[1..], resolve, load);
      ClassifiedAppend(s.catalog, s1.catalog, s2.catalog, IngredientRowsOf(s, rows[0].id), ings,
                       ReadRows(s.ingredients, rows[1..]), AllIngredients(rest), resolve);
      assert ([recipe] + rest)[1..] == rest;
    }
  }

  /** `retrieve_recipes()`: every recipe, in insertion order, with its
      ingredients in insertion order. Only the catalog can change, by
      classifications the resolver supplies for unknown names. */
  function RetrieveRecipes(s: Store, resolve: string -> Classification, load: string -> seq<string>): (r: (Store, seq<Recipe>))
    ensures r.0 == s.(catalog := r.0.catalog)
    ensures IsPrefix(s.catalog, r.0.catalog)
    ensures PersistedAll(r.1) == StoredRecords(s)
    ensures forall k :: 0 <= k < |r.1| ==> r.1[k].name == s.recipes[k].name
    ensures forall k :: 0 <= k < |r.1| ==> r.1[k].instructions == load(s.recipes[k].name)
    // only the ingredient names read are classified, unknown ones by the resolver
    ensures ClassifiedBy(s.catalog, r.0.catalog, ReadRows(s.ingredients, s.recipes), AllIngredients(r.1), resolve)
  {
    ResolveRecipesClassified(s, s.recipes, resolve, load);
    ResolveRecipesInstructions(s, s.recipes, resolve, load);
    ResolveRecipes(s, s.recipes, resolve, load)
  }

  /** The flags of every ingredient read back are what a later lookup of its
      name in the catalog returns. */
  lemma RetrievedFlagsMatchCatalog(s: Store, resolve: string -> Classification, load: string -> seq<string>)
    ensures var (s', rs) := RetrieveRecipes(s, resolve, load);
      forall k, j :: 0 <= k < |rs| && 0 <= j < |rs[k].ingredients| ==>
        FlagsOf(rs[k].ingredients[j]) == Lookup(s'.catalog, rs[k].ingredients[j].name)
  {
    assert RetrieveRecipes(s, resolve, load) == ResolveRecipes(s, s.recipes, resolve, load);
    var (s', rs) := RetrieveRecipes(s, resolve, load);
    assert FlagsAgree(s'.catalog, rs);
  }

  /** What was added comes back: the earlier recipes as before, then the new
      one with its name, calories, preparation time and ingredients' names,
      quantities and units, in order. */
  lemma AddThenRetrieve(s: Store, r: Recipe, resolve: string -> Classification, load: string -> seq<string>)
    requires Valid(s)
    ensures PersistedAll(RetrieveRecipes(AddRecipe(s, r), resolve, load).1)
         == PersistedAll(RetrieveRecipes(s, resolve, load).1) + [Persisted(r)]
  {
  }

  // ---------------------------------------------------------------------------
  // Shopping list
  // ---------------------------------------------------------------------------

  /** Shopping-list identity: same name (case-sensitive) and same unit. */
  predicate SameItem(row: ShoppingRow, i: Ingredient)
  {
    row.name == i.name && row.unit == i.unit
  }

  predicate Listed(rows: seq<ShoppingRow>, i: Ingredient)
  {
    exists k :: 0 <= k < |rows| && SameItem(rows[k], i)
  }

  /** `rows'` is `rows` with the quantity of `i` added to every row of the
      same item, both quantities being known, and every other row kept. */
  predicate Bumped(rows: seq<ShoppingRow>, rows': seq<ShoppingRow>, i: Ingredient)
  {
    && |rows'| == |rows|
    && forall k :: 0 <= k < |rows| ==>
         if SameItem(rows[k], i)
         then i.quantity.Some? && rows[k].quantity.Some?
              && rows'[k] == rows[k].(quantity := Some(rows[k].quantity.value + i.quantity.value))
         else rows'[k] == rows[k]
  }

  /** No two rows share a name and unit. */
  predicate UniqueItems(rows: seq<ShoppingRow>)
  {
    forall j, k :: 0 <= j < k < |rows| ==> !(rows[j].name == rows[k].name && rows[j].unit == rows[k].unit)
  }

  /** The update loop of `add_ingredient_to_shopping_list`: every row with
      the same name and unit has the new quantity added to its own; `None`
      on either side of the addition fails. */
  function MergeRows(rows: seq<ShoppingRow>, i: Ingredient): (r: Option<seq<ShoppingRow>>)
    ensures r.None? <==> exists k :: 0 <= k < |rows| && SameItem(rows[k], i)
                                  && (i.quantity.None? || rows[k].quantity.None?)
    ensures r.Some? ==> |r.value| == |rows|
    ensures r.Some? ==> forall k :: 0 <= k < |rows| ==>
      if SameItem(rows[k], i) then r.value[k] == rows[k].(quantity := Some(rows[k].quantity.value + i.quantity.value))
      else r.value[k] == rows[k]
    decreases |rows|
  {
    if |rows| == 0 then Some([])
    else
      var head := rows[0];
      var rest := MergeRows(rows[1..], i);
      assert forall k :: 1 <= k < |rows| ==> rows[k] == rows[1..][k - 1];
      if SameItem(head, i) && (i.quantity.None? || head.quantity.None?) then None
      else if rest.None? then None
      else if SameItem(head, i) then
        Some([head.(quantity := Some(head.quantity.value + i.quantity.value))] + rest.value)
      else Some([head] + rest.value)
  }

  /** A merge that succeeds bumps exactly the rows of the item. */
  lemma MergedRowsBumped(rows: seq<ShoppingRow>, i: Ingredient)
    requires MergeRows(rows, i).Some?
    ensures Bumped(rows, MergeRows(rows, i).value, i)
  {
    var merged := MergeRows(rows, i).value;
    forall k | 0 <= k < |rows| && SameItem(rows[k], i)
      ensures i.quantity.Some? && rows[k].quantity.Some?
    {
      assert !(SameItem(rows[k], i) && (i.quantity.None? || rows[k].quantity.None?));
    }
  }

  /** `add_ingredient_to_shopping_list(ingredient)`: merge into the rows of
      the same name and unit, or append one row when there are none. */
  function AddIngredientToShoppingList(s: Store, i: Ingredient): (r: Result<Store>)
    ensures r.Success? ==> r.value == s.(shoppingList := r.value.shoppingList)
    // adding to a None quantity, or adding a None quantity, fails
    ensures r.Failure? <==> exists k :: 0 <= k < |s.shoppingList| && SameItem(s.shoppingList[k], i)
                                      && (i.quantity.None? || s.shoppingList[k].quantity.None?)
    // a listed item: same length, its rows incremented, the others untouched
    ensures r.Success? && Listed(s.shoppingList, i) ==> Bumped(s.shoppingList, r.value.shoppingList, i)
    // a new item: exactly one row appended
    ensures !Listed(s.shoppingList, i) ==>
      r == Success(s.(shoppingList := s.shoppingList + [ShoppingRow(i.name, i.quantity, i.unit)]))
  {
    match MergeRows(s.shoppingList, i)
    case None => Failure(MissingQuantity)
    case Some(rows) =>
      MergedRowsBumped(s.shoppingList, i);
      if Listed(s.shoppingList, i) then Success(s.(shoppingList := rows))
      else
        assert rows == s.shoppingList;
        Success(s.(shoppingList := s.shoppingList + [ShoppingRow(i.name, i.quantity, i.unit)]))
  }

  /** Adding keeps (name, unit) unique across rows. */
  lemma ShoppingAddKeepsUnique(s: Store, i: Ingredient)
    requires UniqueItems(s.shoppingList)
    requires AddIngredientToShoppingList(s, i).Success?
    ensures UniqueItems(AddIngredientToShoppingList(s, i).value.shoppingList)
  {
    var rows := AddIngredientToShoppingList(s, i).value.shoppingList;
    if Listed(s.shoppingList, i) {
      forall j, k | 0 <= j < k < |rows|
        ensures !(rows[j].name == rows[k].name && rows[j].unit == rows[k].unit)
      {
        assert rows[j].name == s.shoppingList[j].name && rows[j].unit == s.shoppingList[j].unit;
        assert rows[k].name == s.shoppingList[k].name && rows[k].unit == s.shoppingList[k].unit;
      }
    } else {
      forall j, k | 0 <= j < k < |rows|
        ensures !(rows[j].name == rows[k].name && rows[j].unit == rows[k].unit)
      {
        if k == |s.shoppingList| {
          assert !SameItem(s.shoppingList[j], i);
        }
      }
    }
  }

  /** The quantity listed for a name and unit: the sum over matching rows,
      `None` counting as nothing. */
  function ListedQuantity(rows: seq<ShoppingRow>, name: string, unit: Option<string>): int
    decreases |rows|
  {
    if |rows| == 0 then 0
    else
      var last := rows[|rows| - 1];
      ListedQuantity(rows[..|rows| - 1], name, unit)
        + (if last.name == name && last.unit == unit then last.quantity.GetOr(0) else 0)
  }

  lemma {:induction false} ListedQuantityAbsent(rows: seq<ShoppingRow>, name: string, unit: Option<string>)
    requires forall k :: 0 <= k < |rows| ==> !(rows[k].name == name && rows[k].unit == unit)
    ensures ListedQuantity(rows, name, unit) == 0
    decreases |rows|
  {
    if |rows| > 0 {
      ListedQuantityAbsent(rows[..|rows| - 1], name, unit);
    }
  }

  /** Changing one row's quantity (keeping its name and unit) changes the
      listed quantity of its item by the difference. */
  lemma {:induction false} ListedQuantityUpdate(rows: seq<ShoppingRow>, k0: nat, row: ShoppingRow, name: string, unit: Option<string>)
    requires k0 < |rows|
    requires row.name == rows[k0].name && row.unit == rows[k0].unit
    ensures ListedQuantity(rows[k0 := row], name, unit)
         == ListedQuantity(rows, name, unit)
            + (if row.name == name && row.unit == unit
               then row.quantity.GetOr(0) - rows[k0].quantity.GetOr(0) else 0)
    decreases |rows|
  {
    var m := |rows| - 1;
    var rows' := rows[k0 := row];
    assert rows'[..m] == if k0 < m then rows[..m][k0 := row] else rows[..m];
    if k0 < m {
      ListedQuantityUpdate(rows[..m], k0, row, name, unit);
    }
  }

  /** The listed quantity of an item is the sum of everything added for it:
      each successful add raises it by the added quantity (the rows being
      unique), and leaves every other item's quantity alone. */
  lemma ShoppingAddAccumulates(s: Store, i: Ingredient, name: string, unit: Option<string>)
    requires UniqueItems(s.shoppingList)
    requires AddIngredientToShoppingList(s, i).Success?
    requires i.quantity.Some?
    ensures ListedQuantity(AddIngredientToShoppingList(s, i).value.shoppingList, name, unit)
         == ListedQuantity(s.shoppingList, name, unit)
            + (if name == i.name && unit == i.unit then i.quantity.value else 0)
  {
    var rows := s.shoppingList;
    var rows' := AddIngredientToShoppingList(s, i).value.shoppingList;
    if Listed(rows, i) {
      var k0 :| 0 <= k0 < |rows| && SameItem(rows[k0], i);
      var r := AddIngredientToShoppingList(s, i);
      assert r.Success? && rows' == r.value.shoppingList;
      AccumulatesWhenListed(rows, rows', i, k0, name, unit);
    } else {
      assert rows' == rows + [ShoppingRow(i.name, i.quantity, i.unit)];
      assert rows'[..|rows|] == rows;
    }
  }

  /** The listed case of the accumulation: the one matching row is bumped. */
  lemma AccumulatesWhenListed(rows: seq<ShoppingRow>, rows': seq<ShoppingRow>, i: Ingredient, k0: nat,
                              name: string, unit: Option<string>)
    requires UniqueItems(rows)
    requires k0 < |rows| && SameItem(rows[k0], i)
    requires Bumped(rows, rows', i)
    ensures ListedQuantity(rows', name, unit)
         == ListedQuantity(rows, name, unit) + (if name == i.name && unit == i.unit then i.quantity.value else 0)
  {
    var bumped := rows[k0].(quantity := Some(rows[k0].quantity.value + i.quantity.value));
    OnlyListedRow(rows, i, k0);
    assert rows' == rows[k0 := bumped];
    ListedQuantityUpdate(rows, k0, bumped, name, unit);
  }

  /** With unique rows, the row matching an ingredient is the only one. */
  lemma OnlyListedRow(rows: seq<ShoppingRow>, i: Ingredient, k0: nat)
    requires UniqueItems(rows)
    requires k0 < |rows| && SameItem(rows[k0], i)
    ensures forall k :: 0 <= k < |rows| && k != k0 ==> !SameItem(rows[k], i)
  {
    forall k | 0 <= k < |rows| && k != k0
      ensures !SameItem(rows[k], i)
    {
      if k < k0 {
        assert !(rows[k].name == rows[k0].name && rows[k].unit == rows[k0].unit);
      } else {
        assert !(rows[k0].name == rows[k].name && rows[k0].unit == rows[k].unit);
      }
    }
  }

  /** Two additions of the same name and unit make one row holding the sum. */
  lemma SameItemTwiceMerges(s: Store, a: Ingredient, b: Ingredient)
    requires !Listed(s.shoppingList, a)
    requires a.name == b.name && a.unit == b.unit
    requires a.quantity.Some? && b.quantity.Some?
    ensures AddIngredientToShoppingList(s, a).Success?
    ensures AddIngredientToShoppingList(AddIngredientToShoppingList(s, a).value, b)
         == Success(s.(shoppingList := s.shoppingList
                         + [ShoppingRow(a.name, Some(a.quantity.value + b.quantity.value), a.unit)]))
  {
    var row := ShoppingRow(a.name, a.quantity, a.unit);
    var s1 := s.(shoppingList := s.shoppingList + [row]);
    assert AddIngredientToShoppingList(s, a) == Success(s1);
    var n := |s.shoppingList|;
    forall k | 0 <= k < n
      ensures !SameItem(s1.shoppingList[k], b)
    {
      assert s1.shoppingList[k] == s.shoppingList[k];
      assert !SameItem(s.shoppingList[k], a);
    }
    AddToOnlyLast(s1, b);
    var merged := ShoppingRow(a.name, Some(a.quantity.value + b.quantity.value), a.unit);
    assert s1.shoppingList[n] == row;
    assert s1.shoppingList[..n] == s.shoppingList;
    assert s1.(shoppingList := s1.shoppingList[..n] + [merged]) == s.(shoppingList := s.shoppingList + [merged]);
  }

  /** Adding an item whose only row is the last one bumps that row alone. */
  lemma AddToOnlyLast(s: Store, b: Ingredient)
    requires |s.shoppingList| > 0
    requires forall k :: 0 <= k < |s.shoppingList| - 1 ==> !SameItem(s.shoppingList[k], b)
    requires SameItem(s.shoppingList[|s.shoppingList| - 1], b)
    requires s.shoppingList[|s.shoppingList| - 1].quantity.Some? && b.quantity.Some?
    ensures var n := |s.shoppingList| - 1;
      AddIngredientToShoppingList(s, b)
      == Success(s.(shoppingList := s.shoppingList[..n]
                      + [s.shoppingList[n].(quantity := Some(s.shoppingList[n].quantity.value + b.quantity.value))]))
  {
    var r := AddIngredientToShoppingList(s, b);
    assert Listed(s.shoppingList, b);
    assert r.Success?;
    BumpOnlyLast(s.shoppingList, r.value.shoppingList, b);
  }

  /** When only the last row matches, the merge bumps that row alone. */
  lemma BumpOnlyLast(rows: seq<ShoppingRow>, rows': seq<ShoppingRow>, b: Ingredient)
    requires |rows| > 0
    requires forall k :: 0 <= k < |rows| - 1 ==> !SameItem(rows[k], b)
    requires SameItem(rows[|rows| - 1], b)
    requires Bumped(rows, rows', b)
    ensures rows' == rows[..|rows| - 1]
                     + [rows[|rows| - 1].(quantity := Some(rows[|rows| - 1].quantity.value + b.quantity.value))]
  {
  }

  /** The same name with two different units makes two rows, in order. */
  lemma DifferentUnitsStaySeparate(s: Store, a: Ingredient, b: Ingredient)
    requires !Listed(s.shoppingList, a) && !Listed(s.shoppingList, b)
    requires a.name == b.name && a.unit != b.unit
    ensures AddIngredientToShoppingList(s, a).Success?
    ensures AddIngredientToShoppingList(AddIngredientToShoppingList(s, a).value, b)
         == Success(s.(shoppingList := s.shoppingList
                         + [ShoppingRow(a.name, a.quantity, a.unit), ShoppingRow(b.name, b.quantity, b.unit)]))
  {
    var s1 := AddIngredientToShoppingList(s, a).value;
    assert !Listed(s1.shoppingList, b) by {
      forall k | 0 <= k < |s1.shoppingList| ensures !SameItem(s1.shoppingList[k], b) {
        if k < |s.shoppingList| { assert s1.shoppingList[k] == s.shoppingList[k]; }
      }
    }
    var ra := ShoppingRow(a.name, a.quantity, a.unit);
    var rb := ShoppingRow(b.name, b.quantity, b.unit);
    assert s1.shoppingList == s.shoppingList + [ra];
    assert (s.shoppingList + [ra]) + [rb] == s.shoppingList + [ra, rb];
  }

  function NamedOtherThan(name: string): ShoppingRow -> bool { (row: ShoppingRow) => row.name != name }

  /** `delete_ingredient_from_shopping_list(ingredient)`: deletes by name
      alone, whatever the unit. */
  function DeleteIngredientFromShoppingList(s: Store, i: Ingredient): (s': Store)
    ensures s' == s.(shoppingList := s'.shoppingList)
    ensures forall k :: 0 <= k < |s'.shoppingList| ==> s'.shoppingList[k].name != i.name
    ensures IsSubseq(s'.shoppingList, s.shoppingList)
    ensures forall row :: row in s.shoppingList && row.name != i.name ==> row in s'.shoppingList
    ensures forall row :: multiset(s'.shoppingList)[row]
                          == if row.name == i.name then 0 else multiset(s.shoppingList)[row]
  {
    var rows := Filter(s.shoppingList, NamedOtherThan(i.name));
    FilterIsSubseq(s.shoppingList, NamedOtherThan(i.name));
    FilterAllKept(s.shoppingList, NamedOtherThan(i.name));
    forall k | 0 <= k < |rows|
      ensures rows[k].name != i.name
    {
      assert rows[k] in rows;
      assert NamedOtherThan(i.name)(rows[k]);
    }
    forall row | row in s.shoppingList && row.name != i.name
      ensures row in rows
    {
      FilterMember(s.shoppingList, NamedOtherThan(i.name), row);
    }
    forall row
      ensures multiset(rows)[row] == if row.name == i.name then 0 else multiset(s.shoppingList)[row]
    {
      FilterCount(s.shoppingList, NamedOtherThan(i.name), row);
    }
    s.(shoppingList := rows)
  }

  /** Deletion keeps (name, unit) unique. */
  lemma {:induction false} DeleteKeepsUnique(rows: seq<ShoppingRow>, name: string)
    requires UniqueItems(rows)
    ensures UniqueItems(Filter(rows, NamedOtherThan(name)))
    decreases |rows|
  {
    if |rows| > 0 {
      var init := rows[..|rows| - 1];
      var last := rows[|rows| - 1];
      DeleteKeepsUnique(init, name);
      var f := Filter(init, NamedOtherThan(name));
      if last.name != name {
        forall j | 0 <= j < |f| ensures !(f[j].name == last.name && f[j].unit == last.unit) {
          FilterMember(init, NamedOtherThan(name), f[j]);
          var k :| 0 <= k < |init| && init[k] == f[j];
        }
      }
    }
  }

  /** `retrieve_shopping_list()`: the rows as ingredients, flags unknown. */
  function RetrieveShoppingList(s: Store): (r: seq<Ingredient>)
    ensures |r| == |s.shoppingList|
    ensures forall k :: 0 <= k < |r| ==>
      && r[k].name == s.shoppingList[k].name
      && r[k].quantity == s.shoppingList[k].quantity
      && r[k].unit == s.shoppingList[k].unit
      && r[k].isVegan.None? && r[k].isVegetarian.None? && r[k].isLactoseFree.None?
  {
    seq(|s.shoppingList|, k requires 0 <= k < |s.shoppingList| =>
      NewIngredient(s.shoppingList[k].name, Given(s.shoppingList[k].quantity), Given(s.shoppingList[k].unit),
                    Omitted, Omitted, Omitted))
  }

  // ---------------------------------------------------------------------------
  // User profile
  // ---------------------------------------------------------------------------

  /** `add_user_info(user)`: all allergy rows and dietary rows are deleted,
      then the profile is inserted. */
  function AddUserInfo(s: Store, u: User): (s': Store)
    ensures s' == s.(allergies := s'.allergies, dietary := s'.dietary)
    ensures s'.allergies == u.allergies
    ensures s'.dietary == [DietaryRow(u.isVegan, u.isVegetarian, u.isLactoseIntolerant)]
  {
    s.(allergies := u.allergies,
       dietary := [DietaryRow(u.isVegan, u.isVegetarian, u.isLactoseIntolerant)])
  }

  /** `retrieve_user_info()`: fails when there is no dietary row. */
  function RetrieveUserInfo(s: Store): (r: Result<User>)
    ensures r.Failure? <==> |s.dietary| == 0
    ensures r.Failure? ==> r.error == NoProfile
    ensures r.Success? ==> r.value.allergies == s.allergies
    ensures r.Success? ==> r.value.isVegan == s.dietary[0].isVegan
                           && r.value.isVegetarian == s.dietary[0].isVegetarian
                           && r.value.isLactoseIntolerant == s.dietary[0].isLactoseIntolerant
  {
    if |s.dietary| == 0 then Failure(NoProfile)
    else
      var row := s.dietary[0];
      Success(NewUser(Given(row.isVegan), Given(row.isVegetarian), Given(row.isLactoseIntolerant), Given(s.allergies)))
  }

  /** Saving a profile and reading it back gives the same profile; whatever
      was stored before is discarded. */
  lemma UserInfoRoundTrip(s: Store, u: User)
    ensures RetrieveUserInfo(AddUserInfo(s, u)) == Success(u)
  {
  }

  /** Start-up: read the profile, and on failure seed the default one. */
  function EnsureUserProfile(s: Store): (s': Store)
    ensures s' == s.(allergies := s'.allergies, dietary := s'.dietary)
    ensures RetrieveUserInfo(s').Success?
    ensures RetrieveUserInfo(s).Success? ==> s' == s
    ensures RetrieveUserInfo(s).Failure? ==> RetrieveUserInfo(s') == Success(DefaultUser())
  {
    if RetrieveUserInfo(s).Failure? then AddUserInfo(s, DefaultUser()) else s
  }

  // ---------------------------------------------------------------------------
  // Meal plans
  // ---------------------------------------------------------------------------

  /** `retrieve_planned_meal(date)`'s scan: the recipe of the first row for
      the date, or "" when no row is for it. */
  function FirstMeal(rows: seq<MealRow>, date: string): (r: string)
    ensures (forall k :: 0 <= k < |rows| ==> rows[k].date != date) ==> r == ""
    ensures forall k :: 0 <= k < |rows| && rows[k].date == date
                        && (forall j :: 0 <= j < k ==> rows[j].date != date)
                        ==> r == rows[k].recipeName
    decreases |rows|
  {
    if |rows| == 0 then ""
    else if rows[0].date == date then rows[0].recipeName
    else
      assert forall k :: 1 <= k < |rows| ==> rows[k] == rows[1..][k - 1];
      FirstMeal(rows[1..], date)
  }

  /** `retrieve_planned_meal(date)`: the recipe of the first row saved for the
      date, or "" when there is none. */
  function RetrievePlannedMeal(s: Store, date: string): (r: string)
    ensures (forall k :: 0 <= k < |s.mealPlans| ==> s.mealPlans[k].date != date) ==> r == ""
    ensures forall k :: 0 <= k < |s.mealPlans| && s.mealPlans[k].date == date
                        && (forall j :: 0 <= j < k ==> s.mealPlans[j].date != date)
                        ==> r == s.mealPlans[k].recipeName
  {
    FirstMeal(s.mealPlans, date)
  }

  /** `add_planned_meal(date, name)`: insert only. Saving a meal for a date
      not yet planned makes it the date's meal; saving another for a planned
      date changes nothing, and no other date's answer moves. */
  function AddPlannedMeal(s: Store, date: string, recipeName: string): (s': Store)
    ensures s' == s.(mealPlans := s'.mealPlans)
    ensures |s'.mealPlans| == |s.mealPlans| + 1 && s'.mealPlans[..|s.mealPlans|] == s.mealPlans
    ensures (exists k :: 0 <= k < |s.mealPlans| && s.mealPlans[k].date == date) ==>
      RetrievePlannedMeal(s', date) == RetrievePlannedMeal(s, date)
    ensures (forall k :: 0 <= k < |s.mealPlans| ==> s.mealPlans[k].date != date) ==>
      RetrievePlannedMeal(s', date) == recipeName
    ensures forall d :: d != date ==> RetrievePlannedMeal(s', d) == RetrievePlannedMeal(s, d)
  {
    var row := MealRow(date, recipeName);
    FirstMealAppend(s.mealPlans, row, date);
    AppendOtherDates(s.mealPlans, row);
    s.(mealPlans := s.mealPlans + [row])
  }

  /** Appending a row leaves every other date's answer alone. */
  lemma AppendOtherDates(rows: seq<MealRow>, row: MealRow)
    ensures forall d :: d != row.date ==> FirstMeal(rows + [row], d) == FirstMeal(rows, d)
  {
    forall d | d != row.date
      ensures FirstMeal(rows + [row], d) == FirstMeal(rows, d)
    {
      FirstMealAppend(rows, row, d);
    }
  }

  lemma {:induction false} FirstMealAppend(rows: seq<MealRow>, row: MealRow, date: string)
    ensures (exists k :: 0 <= k < |rows| && rows[k].date == date) ==>
      FirstMeal(rows + [row], date) == FirstMeal(rows, date)
    ensures (forall k :: 0 <= k < |rows| ==> rows[k].date != date) && row.date == date ==>
      FirstMeal(rows + [row], date) == row.recipeName
    ensures row.date != date ==> FirstMeal(rows + [row], date) == FirstMeal(rows, date)
    decreases |rows|
  {
    if |rows| == 0 {
      assert rows + [row] == [row];
    } else {
      assert (rows + [row])[1..] == rows[1..] + [row];
      FirstMealAppend(rows[1..], row, date);
      if rows[0].date != date && exists k :: 0 <= k < |rows| && rows[k].date == date {
        var k :| 0 <= k < |rows| && rows[k].date == date;
        assert rows[1..][k - 1].date == date;
      }
    }
  }

  /** Nothing planned: the answer is the empty string. */
  lemma NothingPlanned(date: string)
    ensures RetrievePlannedMeal(EmptyStore(), date) == ""
  {
  }
}
