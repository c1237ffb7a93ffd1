/** The user profile record (back_end/user.py). */
module Users {
  import opened Maybe

  /** Dietary flags and allergies as the user entered them (case-sensitive). */
  datatype User = User(
    isVegan: bool,
    isVegetarian: bool,
    isLactoseIntolerant: bool,
    allergies: set<string>)

  /** The constructor `User(**kwargs)`. */
  function NewUser(
    isVegan: Arg<bool>,
    isVegetarian: Arg<bool>,
    isLactoseIntolerant: Arg<bool>,
    allergies: Arg<set<string>>): (r: User)
    ensures isVegan.Omitted? ==> !r.isVegan
    ensures isVegetarian.Omitted? ==> !r.isVegetarian
    ensures isLactoseIntolerant.Omitted? ==> !r.isLactoseIntolerant
    ensures allergies.Omitted? ==> r.allergies == {}
    ensures isVegan.Given? ==> r.isVegan == isVegan.value
    ensures isVegetarian.Given? ==> r.isVegetarian == isVegetarian.value
    ensures isLactoseIntolerant.Given? ==> r.isLactoseIntolerant == isLactoseIntolerant.value
    ensures allergies.Given? ==> r.allergies == allergies.value
  {
    User(isVegan.Or(false), isVegetarian.Or(false), isLactoseIntolerant.Or(false), allergies.Or({}))
  }

  /** `User()`: the profile seeded on first start. */
  function DefaultUser(): (r: User)
    ensures !r.isVegan && !r.isVegetarian && !r.isLactoseIntolerant && r.allergies == {}
  {
    NewUser(Omitted, Omitted, Omitted, Omitted)
  }
}
