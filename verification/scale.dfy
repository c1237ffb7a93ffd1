/** Quantity scaling (back_end/scale_ingredients.py). */
module Scaling {
  import opened Maybe
  import opened Ingredients

  /** `scale_ingredients(ingredient_list, servings)`.

      The source copies the list but not the ingredient objects, so it scales
      the caller's ingredients in place as well as returning them; here the
      result is a fresh sequence and the input is a value that cannot change. */
  method ScaleIngredients(ingredients: seq<Ingredient>, servings: int) returns (scaled: seq<Ingredient>)
    ensures |scaled| == |ingredients|
    ensures forall i :: 0 <= i < |ingredients| ==>
      // only the quantity is assigned
      && scaled[i].name == ingredients[i].name
      && scaled[i].unit == ingredients[i].unit
      && scaled[i].isVegan == ingredients[i].isVegan
      && scaled[i].isVegetarian == ingredients[i].isVegetarian
      && scaled[i].isLactoseFree == ingredients[i].isLactoseFree
      // a known quantity is multiplied, an unknown one stays unknown
      && (ingredients[i].quantity.Some? ==> scaled[i].quantity == Some(ingredients[i].quantity.value * servings))
      && (ingredients[i].quantity.None? ==> scaled[i].quantity.None?)
    ensures servings == 1 ==> scaled == ingredients
  {
    scaled := [];
    var k := 0;
    while k < |ingredients|
      invariant 0 <= k <= |ingredients|
      invariant |scaled| == k
      invariant forall i :: 0 <= i < k ==>
        scaled[i] == ingredients[i].(quantity := scaled[i].quantity)
      invariant forall i :: 0 <= i < k ==>
        && (ingredients[i].quantity.Some? ==> scaled[i].quantity == Some(ingredients[i].quantity.value * servings))
        && (ingredients[i].quantity.None? ==> scaled[i].quantity.None?)
    {
      var item := ingredients[k];
      if item.quantity.Some? {
        item := item.(quantity := Some(item.quantity.value * servings));
      }
      scaled := scaled + [item];
      k := k + 1;
    }
    if servings == 1 {
      assert forall i :: 0 <= i < |ingredients| ==> scaled[i] == ingredients[i];
    }
  }
}
