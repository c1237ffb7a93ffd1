/** The suggestion engine (back_end/recipe_suggestions.py): the dietary and
    allergy filter built from the user profile, the ad-hoc preference filter,
    and the rotating random batches. */
module Suggestions {
  import opened Maybe
  import opened Seqs
  import opened Recipes
  import opened Users

  /** Recipes per batch. */
  const BatchSize: nat := 10

  /** The engine's state: the profile, every recipe, the current working list
      and the previous batch. */
  datatype Engine = Engine(
    user: User,
    allRecipes: seq<Recipe>,
    filtered: seq<Recipe>,
    suggestions: seq<Recipe>)

  /** The ad-hoc preferences: ingredient names that must and must not appear
      (matched exactly, case-sensitively), an inclusive calorie range and a
      maximum preparation time, each optional. */
  datatype Preferences = Preferences(
    mustHaves: seq<string>,
    shouldNotHaves: seq<string>,
    calorieRange: Option<(int, int)>,
    maxTime: Option<int>)

  // ---------------------------------------------------------------------------
  // Profile filter
  // ---------------------------------------------------------------------------

  /** The dietary step, an if/elif chain: only the first flag the user has set
      decides, in the order vegan, vegetarian, lactose intolerant. */
  predicate DietaryPass(u: User, r: Recipe)
  {
    if u.isVegan then IsVegan(r)
    else if u.isVegetarian then IsVegetarian(r)
    else if u.isLactoseIntolerant then IsLactoseFree(r)
    else true
  }

  /** The recipe contains none of the given allergens. */
  predicate FreeOf(allergens: set<string>, r: Recipe)
  {
    forall a :: a in allergens ==> !Contains(r, a)
  }

  /** A recipe the profile admits: it passes the dietary step and contains no
      allergen of the user. */
  predicate Admitted(u: User, r: Recipe)
  {
    DietaryPass(u, r) && FreeOf(u.allergies, r)
  }

  function DietaryPassBy(u: User): Recipe -> bool { r => DietaryPass(u, r) }

  function FreeOfBy(allergens: set<string>): Recipe -> bool { r => FreeOf(allergens, r) }

  function LacksBy(allergen: string): Recipe -> bool { r => !Contains(r, allergen) }

  function AdmittedBy(u: User): Recipe -> bool { r => Admitted(u, r) }

  function HasDietBy(d: Diet): Recipe -> bool { r => HasDiet(r, d) }

  /** The recipes a profile admits, in their original order. */
  function ProfileFilter(u: User, recipes: seq<Recipe>): seq<Recipe>
  {
    Filter(recipes, AdmittedBy(u))
  }

  /** `check_user_information(recipes)`: the dietary loop, then the allergy
      passes. */
  method CheckUserInformation(u: User, recipes: seq<Recipe>) returns (filtered: seq<Recipe>)
    ensures filtered == ProfileFilter(u, recipes)
  {
    var dietary := DietaryStep(u, recipes);
    filtered := dietary;
    if |u.allergies| > 0 {
      filtered := AllergyStep(u.allergies, dietary);
    } else {
      FilterKeepsAll(dietary, FreeOfBy(u.allergies));
    }
    forall i | 0 <= i < |recipes|
      ensures AdmittedBy(u)(recipes[i])
          == (DietaryPassBy(u)(recipes[i]) && FreeOfBy(u.allergies)(recipes[i]))
    {
    }
    FilterFilter(recipes, DietaryPassBy(u), FreeOfBy(u.allergies), AdmittedBy(u));
  }

  /** The dietary loop of `check_user_information`. */
  method DietaryStep(u: User, recipes: seq<Recipe>) returns (dietary: seq<Recipe>)
    ensures dietary == Filter(recipes, DietaryPassBy(u))
  {
    dietary := [];
    var k := 0;
    while k < |recipes|
      invariant 0 <= k <= |recipes|
      invariant dietary == Filter(recipes[..k], DietaryPassBy(u))
    {
      var recipe := recipes[k];
      assert recipes[..k + 1] == recipes[..k] + [recipe];
      FilterSnoc(recipes[..k], recipe, DietaryPassBy(u));
      assert DietaryPassBy(u)(recipe) == DietaryPass(u, recipe);
      if u.isVegan {
        if IsVegan(recipe) {
          dietary := dietary + [recipe];
        }
      } else if u.isVegetarian {
        if IsVegetarian(recipe) {
          dietary := dietary + [recipe];
        }
      } else if u.isLactoseIntolerant {
        if IsLactoseFree(recipe) {
          dietary := dietary + [recipe];
        }
      } else {
        dietary := dietary + [recipe];
      }
      k := k + 1;
    }
    assert recipes[..|recipes|] == recipes;
  }

  /** Excluding one more allergen is one more removal pass. */
  lemma FreeOfOneMore(done: set<string>, allergen: string, recipes: seq<Recipe>)
    ensures forall i :: 0 <= i < |recipes| ==>
      FreeOfBy(done + {allergen})(recipes[i]) == (FreeOfBy(done)(recipes[i]) && LacksBy(allergen)(recipes[i]))
  {
  }

  /** The allergy passes of `check_user_information`: one removal pass per
      allergen, in whatever order the set yields them. */
  method AllergyStep(allergies: set<string>, dietary: seq<Recipe>) returns (filtered: seq<Recipe>)
    ensures filtered == Filter(dietary, FreeOfBy(allergies))
  {
    filtered := dietary;
    var remaining := allergies;
    FilterKeepsAll(dietary, FreeOfBy({}));
    assert allergies - remaining == {};
    while remaining != {}
      invariant remaining <= allergies
      invariant filtered == Filter(dietary, FreeOfBy(allergies - remaining))
      decreases remaining
    {
      var allergen :| allergen in remaining;
      var done := allergies - remaining;
      filtered := RemoveAllergen(filtered, allergen);
      FreeOfOneMore(done, allergen, dietary);
      FilterFilter(dietary, FreeOfBy(done), LacksBy(allergen), FreeOfBy(done + {allergen}));
      remaining := remaining - {allergen};
      assert allergies - remaining == done + {allergen};
    }
    assert allergies - remaining == allergies;
  }

  /** One allergen's pass: every recipe that contains the allergen is removed
      and the others keep their order. */
  method RemoveAllergen(recipes: seq<Recipe>, allergen: string) returns (kept: seq<Recipe>)
    ensures kept == Filter(recipes, LacksBy(allergen))
  {
    kept := [];
    var k := 0;
    while k < |recipes|
      invariant 0 <= k <= |recipes|
      invariant kept == Filter(recipes[..k], LacksBy(allergen))
    {
      assert recipes[..k + 1] == recipes[..k] + [recipes[k]];
      FilterSnoc(recipes[..k], recipes[k], LacksBy(allergen));
      if !Contains(recipes[k], allergen) {
        kept := kept + [recipes[k]];
      }
      k := k + 1;
    }
    assert recipes[..|recipes|] == recipes;
  }

  /** The profile filter keeps an order-preserving subsequence of its input. */
  lemma ProfileFilterIsSubseq(u: User, recipes: seq<Recipe>)
    ensures IsSubseq(ProfileFilter(u, recipes), recipes)
  {
    FilterIsSubseq(recipes, AdmittedBy(u));
  }

  /** After the allergy pass no survivor contains an allergen, and every recipe
      that passed the dietary step and contains no allergen survives. */
  lemma ProfileFilterMember(u: User, recipes: seq<Recipe>, r: Recipe)
    ensures r in ProfileFilter(u, recipes) <==>
      && r in recipes
      && DietaryPass(u, r)
      && forall a :: a in u.allergies ==> !Contains(r, a)
  {
    FilterMember(recipes, AdmittedBy(u), r);
  }

  /** The dietary chain: a vegan profile keeps exactly the vegan recipes
      whatever its other flags; vegetarian applies only when not vegan, lactose
      free only when neither; with no flag set every recipe passes. */
  lemma DietaryPrecedence(u: User, recipes: seq<Recipe>)
    ensures u.isVegan ==> Filter(recipes, DietaryPassBy(u)) == Filter(recipes, HasDietBy(Vegan))
    ensures !u.isVegan && u.isVegetarian ==>
      Filter(recipes, DietaryPassBy(u)) == Filter(recipes, HasDietBy(Vegetarian))
    ensures !u.isVegan && !u.isVegetarian && u.isLactoseIntolerant ==>
      Filter(recipes, DietaryPassBy(u)) == Filter(recipes, HasDietBy(LactoseFree))
    ensures !u.isVegan && !u.isVegetarian && !u.isLactoseIntolerant ==>
      Filter(recipes, DietaryPassBy(u)) == recipes
  {
    if u.isVegan {
      FilterCongruent(recipes, DietaryPassBy(u), HasDietBy(Vegan));
    } else if u.isVegetarian {
      FilterCongruent(recipes, DietaryPassBy(u), HasDietBy(Vegetarian));
    } else if u.isLactoseIntolerant {
      FilterCongruent(recipes, DietaryPassBy(u), HasDietBy(LactoseFree));
    } else {
      FilterKeepsAll(recipes, DietaryPassBy(u));
    }
  }

  /** With no allergies the allergy step keeps everything, so the whole
      profile filter is the dietary step alone. */
  lemma NoAllergiesDietaryOnly(u: User, recipes: seq<Recipe>)
    requires u.allergies == {}
    ensures ProfileFilter(u, recipes) == Filter(recipes, DietaryPassBy(u))
  {
    FilterCongruent(recipes, AdmittedBy(u), DietaryPassBy(u));
  }

  // ---------------------------------------------------------------------------
  // Preference filter
  // ---------------------------------------------------------------------------

  function IngredientNames(r: Recipe): seq<string>
  {
    seq(|r.ingredients|, i requires 0 <= i < |r.ingredients| => r.ingredients[i].name)
  }

  /** The body of the preference loop: the checks after which it `continue`s. */
  predicate Satisfies(p: Preferences, r: Recipe)
  {
    var names := IngredientNames(r);
    && !(p.maxTime.Some? && r.prepTime.Some? && r.prepTime.value > p.maxTime.value)
    && !(p.calorieRange.Some? && r.calories.Some?
         && (r.calories.value < p.calorieRange.value.0 || r.calories.value > p.calorieRange.value.1))
    && (forall k :: 0 <= k < |p.mustHaves| ==> p.mustHaves[k] in names)
    && (forall k :: 0 <= k < |p.shouldNotHaves| ==> p.shouldNotHaves[k] !in names)
  }

  function SatisfiesBy(p: Preferences): Recipe -> bool { r => Satisfies(p, r) }

  /** `check_user_preferences(...)`: the working list is replaced by the
      recipes of the current working list that meet the preferences. */
  method CheckUserPreferences(e: Engine, p: Preferences) returns (e': Engine)
    ensures e'.filtered == Filter(e.filtered, SatisfiesBy(p))
    ensures e'.user == e.user && e'.allRecipes == e.allRecipes && e'.suggestions == e.suggestions
  {
    var kept: seq<Recipe> := [];
    var k := 0;
    while k < |e.filtered|
      invariant 0 <= k <= |e.filtered|
      invariant kept == Filter(e.filtered[..k], SatisfiesBy(p))
    {
      var recipe := e.filtered[k];
      assert e.filtered[..k + 1] == e.filtered[..k] + [recipe];
      FilterSnoc(e.filtered[..k], recipe, SatisfiesBy(p));
      k := k + 1;
      if p.maxTime.Some? && recipe.prepTime.Some? {
        if recipe.prepTime.value > p.maxTime.value {
          continue;
        }
      }
      if p.calorieRange.Some? && recipe.calories.Some? {
        if recipe.calories.value < p.calorieRange.value.0 || recipe.calories.value > p.calorieRange.value.1 {
          continue;
        }
      }
      var names := IngredientNames(recipe);
      if exists j :: 0 <= j < |p.mustHaves| && p.mustHaves[j] !in names {
        continue;
      }
      if exists j :: 0 <= j < |p.shouldNotHaves| && p.shouldNotHaves[j] in names {
        continue;
      }
      kept := kept + [recipe];
    }
    assert e.filtered[..|e.filtered|] == e.filtered;
    e' := e.(filtered := kept);
  }

  /** Some ingredient is named exactly `n`. */
  predicate HasIngredientNamed(r: Recipe, n: string)
  {
    exists i :: 0 <= i < |r.ingredients| && r.ingredients[i].name == n
  }

  lemma InNamesIff(r: Recipe, n: string)
    ensures n in IngredientNames(r) <==> HasIngredientNamed(r, n)
  {
    var names := IngredientNames(r);
    if n in names {
      var i :| 0 <= i < |names| && names[i] == n;
      assert r.ingredients[i].name == n;
    }
    if HasIngredientNamed(r, n) {
      var i :| 0 <= i < |r.ingredients| && r.ingredients[i].name == n;
      assert names[i] == n;
    }
  }

  /** A recipe survives the preferences exactly when all four criteria hold. */
  lemma PreferenceMember(p: Preferences, recipes: seq<Recipe>, r: Recipe)
    ensures r in Filter(recipes, SatisfiesBy(p)) <==>
      && r in recipes
      // no longer than the maximum time, when both are known
      && (p.maxTime.Some? && r.prepTime.Some? ==> r.prepTime.value <= p.maxTime.value)
      // inside the inclusive calorie range, when both are known
      && (p.calorieRange.Some? && r.calories.Some? ==>
            p.calorieRange.value.0 <= r.calories.value <= p.calorieRange.value.1)
      // every must-have is exactly some ingredient's name
      && (forall k :: 0 <= k < |p.mustHaves| ==> HasIngredientNamed(r, p.mustHaves[k]))
      // no should-not-have is exactly an ingredient's name
      && (forall k :: 0 <= k < |p.shouldNotHaves| ==> !HasIngredientNamed(r, p.shouldNotHaves[k]))
  {
    FilterMember(recipes, SatisfiesBy(p), r);
    forall k | 0 <= k < |p.mustHaves| {
      InNamesIff(r, p.mustHaves[k]);
    }
    forall k | 0 <= k < |p.shouldNotHaves| {
      InNamesIff(r, p.shouldNotHaves[k]);
    }
  }

  /** The empty preferences keep the working list as it is. */
  lemma NoPreferencesKeepAll(recipes: seq<Recipe>)
    ensures Filter(recipes, SatisfiesBy(Preferences([], [], None, None))) == recipes
  {
    FilterKeepsAll(recipes, SatisfiesBy(Preferences([], [], None, None)));
  }

  /** Refinement only narrows the current working list, never re-adding a
      recipe, and keeps its order. */
  lemma PreferencesNarrow(p: Preferences, recipes: seq<Recipe>)
    ensures IsSubseq(Filter(recipes, SatisfiesBy(p)), recipes)
    ensures |Filter(recipes, SatisfiesBy(p))| <= |recipes|
  {
    FilterIsSubseq(recipes, SatisfiesBy(p));
    FilterShorter(recipes, SatisfiesBy(p));
  }

  // ---------------------------------------------------------------------------
  // Random batches
  // ---------------------------------------------------------------------------

  function NotInBy(previous: seq<Recipe>): Recipe -> bool { r => r !in previous }

  /** The recipes a new batch is drawn from: the working list minus the
      previous batch only. */
  function Pool(e: Engine): seq<Recipe>
  {
    Filter(e.filtered, NotInBy(e.suggestions))
  }

  function Min(a: nat, b: nat): nat { if a <= b then a else b }

  /** `batch` is a draw without replacement of min(10, |pool|) recipes. */
  predicate IsBatchOf(batch: seq<Recipe>, pool: seq<Recipe>)
  {
    |batch| == Min(BatchSize, |pool|) && multiset(batch) <= multiset(pool)
  }

  /** `random.sample(pool, k)`: which k recipes, and in which order, is left
      open; only the size and the draw without replacement are fixed. */
  method Sample(pool: seq<Recipe>, k: nat) returns (batch: seq<Recipe>)
    requires k <= |pool|
    ensures |batch| == k
    ensures multiset(batch) <= multiset(pool)
  {
    assert pool == pool[..k] + pool[k..];
    batch :| |batch| == k && multiset(batch) <= multiset(pool);
  }

  /** `random_suggestions()`: the new batch replaces the previous one. */
  method RandomSuggestions(e: Engine) returns (e': Engine)
    ensures e' == e.(suggestions := e'.suggestions)
    ensures IsBatchOf(e'.suggestions, Pool(e))
  {
    var batch: seq<Recipe>;
    if e.suggestions == [] && |e.filtered| > BatchSize {
      batch := Sample(e.filtered, BatchSize);
    } else if e.suggestions == [] && |e.filtered| < BatchSize {
      batch := Sample(e.filtered, |e.filtered|);
    } else {
      var recipes := Filter(e.filtered, NotInBy(e.suggestions));
      if |recipes| > BatchSize {
        batch := Sample(recipes, BatchSize);
      } else {
        batch := Sample(recipes, |recipes|);
      }
    }
    if e.suggestions == [] {
      FilterKeepsAll(e.filtered, NotInBy(e.suggestions));
    }
    e' := e.(suggestions := batch);
  }

  /** After an empty batch (and at the start) the whole working list is drawn from. */
  lemma EmptyPreviousMeansWholeList(e: Engine)
    requires e.suggestions == []
    ensures Pool(e) == e.filtered
  {
    FilterKeepsAll(e.filtered, NotInBy(e.suggestions));
  }

  /** A batch comes from the working list and repeats nothing from the
      previous batch; it has no repeats when the working list has none. */
  lemma BatchAvoidsPrevious(e: Engine, batch: seq<Recipe>)
    requires IsBatchOf(batch, Pool(e))
    ensures forall r :: r in batch ==> r in e.filtered && r !in e.suggestions
    ensures NoDup(e.filtered) ==> NoDup(batch)
  {
    forall r | r in batch
      ensures r in e.filtered && r !in e.suggestions
    {
      SubMultisetMember(batch, Pool(e), r);
      FilterMember(e.filtered, NotInBy(e.suggestions), r);
    }
    if NoDup(e.filtered) {
      FilterNoDup(e.filtered, NotInBy(e.suggestions));
      SubMultisetNoDup(batch, Pool(e));
    }
  }

  /** With at most ten recipes in the working list, the first batch takes them
      all and the next consecutive batch is empty. */
  lemma SmallListRunsDry(e: Engine, first: seq<Recipe>, second: seq<Recipe>)
    requires e.suggestions == []
    requires |e.filtered| <= BatchSize
    requires IsBatchOf(first, Pool(e))
    requires IsBatchOf(second, Pool(e.(suggestions := first)))
    ensures multiset(first) == multiset(e.filtered)
    ensures second == []
  {
    EmptyPreviousMeansWholeList(e);
    SubMultisetSameSize(first, e.filtered);
    var e1 := e.(suggestions := first);
    forall i | 0 <= i < |e.filtered|
      ensures !NotInBy(first)(e.filtered[i])
    {
      assert e.filtered[i] in multiset(e.filtered);
    }
    FilterKeepsNone(e.filtered, NotInBy(first));
  }

  /** `Suggestions(user, recipes)`: the working list starts as the profile
      filter of every recipe and there is no previous batch. */
  method NewEngine(u: User, recipes: seq<Recipe>) returns (e: Engine)
    ensures e.user == u && e.allRecipes == recipes && e.suggestions == []
    ensures e.filtered == ProfileFilter(u, recipes)
  {
    var filtered := CheckUserInformation(u, recipes);
    e := Engine(u, recipes, filtered, []);
  }
}
