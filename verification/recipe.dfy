/** The recipe record and its derived properties (back_end/recipe.py). */
module Recipes {
  import opened Maybe
  import opened Text
  import opened Ingredients

  /** A recipe. `instructions` is the text of the per-recipe instruction
      resource, read when the record is built; it is opaque to the model. */
  datatype Recipe = Recipe(
    name: string,
    ingredients: seq<Ingredient>,
    calories: Option<int>,
    prepTime: Option<int>,
    instructions: seq<string>)

  /** The three dietary classifications a recipe and an ingredient share. */
  datatype Diet = Vegan | Vegetarian | LactoseFree

  /** An ingredient's (tri-state) flag for one diet. */
  function FlagOf(i: Ingredient, d: Diet): Option<bool>
  {
    match d
    case Vegan => i.isVegan
    case Vegetarian => i.isVegetarian
    case LactoseFree => i.isLactoseFree
  }

  /** The properties' loop: scan the ingredients and answer False at the first
      one whose flag is not truthy, True when the scan completes. */
  function AllTruthy(ings: seq<Ingredient>, d: Diet): bool
    decreases |ings|
  {
    if |ings| == 0 then true
    else if !Truthy(FlagOf(ings[0], d)) then false
    else AllTruthy(ings[1..], d)
  }

  /** `recipe.is_vegan`, `recipe.is_vegetarian`, `recipe.is_lactose_free`. */
  function HasDiet(r: Recipe, d: Diet): bool
  {
    AllTruthy(r.ingredients, d)
  }

  /** A recipe has a diet exactly when every ingredient's flag is `True`; an
      unknown (`None`) flag counts as not meeting it. */
  lemma {:induction false} AllTruthyIff(ings: seq<Ingredient>, d: Diet)
    ensures AllTruthy(ings, d) <==> forall i :: 0 <= i < |ings| ==> FlagOf(ings[i], d) == Some(true)
    decreases |ings|
  {
    if |ings| > 0 {
      AllTruthyIff(ings[1..], d);
      assert forall i :: 1 <= i < |ings| ==> ings[i] == ings[1..][i - 1];
    }
  }

  lemma HasDietIff(r: Recipe, d: Diet)
    ensures HasDiet(r, d) <==> forall i :: 0 <= i < |r.ingredients| ==> FlagOf(r.ingredients[i], d) == Some(true)
  {
    AllTruthyIff(r.ingredients, d);
  }

  /** `is_vegan`: every ingredient is flagged vegan. */
  function IsVegan(r: Recipe): (b: bool)
    ensures b <==> forall i :: 0 <= i < |r.ingredients| ==> r.ingredients[i].isVegan == Some(true)
  {
    HasDietIff(r, Vegan);
    HasDiet(r, Vegan)
  }

  /** `is_vegetarian`: every ingredient is flagged vegetarian. */
  function IsVegetarian(r: Recipe): (b: bool)
    ensures b <==> forall i :: 0 <= i < |r.ingredients| ==> r.ingredients[i].isVegetarian == Some(true)
  {
    HasDietIff(r, Vegetarian);
    HasDiet(r, Vegetarian)
  }

  /** `is_lactose_free`: every ingredient is flagged lactose free. */
  function IsLactoseFree(r: Recipe): (b: bool)
    ensures b <==> forall i :: 0 <= i < |r.ingredients| ==> r.ingredients[i].isLactoseFree == Some(true)
  {
    HasDietIff(r, LactoseFree);
    HasDiet(r, LactoseFree)
  }

  /** A recipe without ingredients meets every diet. */
  lemma NoIngredientsMeetsEveryDiet(r: Recipe)
    requires |r.ingredients| == 0
    ensures IsVegan(r) && IsVegetarian(r) && IsLactoseFree(r)
  {
  }

  /** `recipe.contains(allergen)`: scan the ingredients for a name equal to
      the allergen, ignoring case. */
  function ContainsIn(ings: seq<Ingredient>, allergen: string): bool
    decreases |ings|
  {
    if |ings| == 0 then false
    else if Lower(ings[0].name) == Lower(allergen) then true
    else ContainsIn(ings[1..], allergen)
  }

  /** The scan finds the allergen exactly when some ingredient name equals
      it ignoring case. */
  lemma {:induction false} ContainsInIff(ings: seq<Ingredient>, allergen: string)
    ensures ContainsIn(ings, allergen) <==> exists i :: 0 <= i < |ings| && SameIgnoringCase(ings[i].name, allergen)
    decreases |ings|
  {
    if |ings| > 0 {
      ContainsInIff(ings[1..], allergen);
      assert forall i :: 1 <= i < |ings| ==> ings[i] == ings[1..][i - 1];
      if ContainsIn(ings[1..], allergen) {
        var k :| 0 <= k < |ings[1..]| && SameIgnoringCase(ings[1..][k].name, allergen);
        assert SameIgnoringCase(ings[k + 1].name, allergen);
      }
    }
  }

  /** `recipe.contains(allergen)`: some ingredient name equals the allergen,
      ignoring case. */
  function Contains(r: Recipe, allergen: string): (b: bool)
    ensures b <==> exists i :: 0 <= i < |r.ingredients| && SameIgnoringCase(r.ingredients[i].name, allergen)
  {
    ContainsInIff(r.ingredients, allergen);
    ContainsIn(r.ingredients, allergen)
  }

  /** The allergen's own casing does not matter. */
  lemma ContainsIgnoresAllergenCase(r: Recipe, allergen: string)
    ensures Contains(r, allergen) == Contains(r, Lower(allergen))
  {
    forall i | 0 <= i < |r.ingredients|
      ensures SameIgnoringCase(r.ingredients[i].name, allergen)
          == SameIgnoringCase(r.ingredients[i].name, Lower(allergen))
    {
      SameIgnoringCaseOfLower(r.ingredients[i].name, allergen);
    }
  }

  /** The constructor `Recipe(name, **kwargs)`; `load` reads the instruction
      resource named after the recipe (empty when there is none). */
  function NewRecipe(
    name: string,
    ingredients: Arg<seq<Ingredient>>,
    calories: Arg<Option<int>>,
    prepTime: Arg<Option<int>>,
    load: string -> seq<string>): (r: Recipe)
    ensures r.name == name
    ensures ingredients.Omitted? ==> r.ingredients == []
    ensures calories.Omitted? ==> r.calories.None?
    ensures prepTime.Omitted? ==> r.prepTime.None?
    ensures ingredients.Given? ==> r.ingredients == ingredients.value
    ensures calories.Given? ==> r.calories == calories.value
    ensures prepTime.Given? ==> r.prepTime == prepTime.value
    ensures r.instructions == load(name)
  {
    Recipe(name, ingredients.Or([]), calories.Or(None), prepTime.Or(None), load(name))
  }
}
