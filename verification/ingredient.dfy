/** The ingredient record (back_end/ingredient.py). */
module Ingredients {
  import opened Maybe

  /** One ingredient. Quantities are integers per serving; every field but the
      name may be absent (Python `None`). The three dietary flags are
      tri-state: `None` means "not classified yet". */
  datatype Ingredient = Ingredient(
    name: string,
    quantity: Option<int>,
    unit: Option<string>,
    isVegan: Option<bool>,
    isVegetarian: Option<bool>,
    isLactoseFree: Option<bool>)

  /** The constructor `Ingredient(name, **kwargs)`: every keyword that is left
      out takes its default. */
  function NewIngredient(
    name: string,
    quantity: Arg<Option<int>>,
    unit: Arg<Option<string>>,
    isVegan: Arg<Option<bool>>,
    isVegetarian: Arg<Option<bool>>,
    isLactoseFree: Arg<Option<bool>>): (r: Ingredient)
    ensures r.name == name
    // the quantity is 0 unless given, and None only when None is passed explicitly
    ensures quantity.Omitted? ==> r.quantity == Some(0)
    ensures r.quantity.None? <==> quantity == Given(None)
    // the unit and the flags are unknown unless given
    ensures unit.Omitted? ==> r.unit.None?
    ensures isVegan.Omitted? ==> r.isVegan.None?
    ensures isVegetarian.Omitted? ==> r.isVegetarian.None?
    ensures isLactoseFree.Omitted? ==> r.isLactoseFree.None?
    // a given keyword is stored as given
    ensures quantity.Given? ==> r.quantity == quantity.value
    ensures unit.Given? ==> r.unit == unit.value
    ensures isVegan.Given? ==> r.isVegan == isVegan.value
    ensures isVegetarian.Given? ==> r.isVegetarian == isVegetarian.value
    ensures isLactoseFree.Given? ==> r.isLactoseFree == isLactoseFree.value
  {
    Ingredient(
      name,
      quantity.Or(Some(0)),
      unit.Or(None),
      isVegan.Or(None),
      isVegetarian.Or(None),
      isLactoseFree.Or(None))
  }
}
