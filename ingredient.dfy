/** The ingredient dictionary: names are stored in a normalised spelling and are unique
    ignoring case. */
module IngredientController {
  import opened Common
  import opened Text
  import opened Tables
  import opened Entities
  import opened Store

  datatype IngredientDto = IngredientDto(id: Guid, name: string, isAllergen: bool, isMeat: bool)

  function ToDto(i: Row<Ingredient>): IngredientDto {
    IngredientDto(i.id, i.data.name, i.data.isAllergen, i.data.isMeat)
  }

  /** The stored spelling of an ingredient name: trimmed, first character upper-cased,
      the rest lower-cased. */
  function NormalizeName(name: string): (r: string)
    requires !IsBlank(name)
    ensures |r| == |Trim(name)| > 0
    ensures EqualsIgnoreCase(r, Trim(name))
    ensures !('a' <= r[0] <= 'z') && forall k :: 1 <= k < |r| ==> !('A' <= r[k] <= 'Z')
    ensures !IsWhiteSpace(r[0]) && !IsWhiteSpace(r[|r| - 1])
  {
    CapitalizedSpelling(Trim(name));
    Capitalized(Trim(name))
  }

  /** `char.ToUpper(t[0]) + t.Substring(1).ToLower()`. */
  function Capitalized(t: string): string
    requires t != []
  {
    [Upper(t[0])] + ToLower(t[1..])
  }

  /** Capitalising keeps the length, the letters ignoring case and the non-whitespace ends,
      and leaves no lower-case first letter and no upper-case letter after it. */
  lemma CapitalizedSpelling(t: string)
    requires t != [] && !IsWhiteSpace(t[0]) && !IsWhiteSpace(t[|t| - 1])
    ensures var r := Capitalized(t);
      && |r| == |t| && EqualsIgnoreCase(r, t)
      && !('a' <= r[0] <= 'z') && (forall k :: 1 <= k < |r| ==> !('A' <= r[k] <= 'Z'))
      && !IsWhiteSpace(r[0]) && !IsWhiteSpace(r[|r| - 1])
  {
    var r := Capitalized(t);
    CaseKeepsWhiteSpace(t[0]);
    CaseKeepsWhiteSpace(t[|t| - 1]);
    assert ToLower(r) == ToLower(t) by {
      assert forall i :: 1 <= i < |t| ==> Lower(Lower(t[i])) == Lower(t[i]);
      assert Lower(Upper(t[0])) == Lower(t[0]);
    }
  }

  /** Normalising a normalised name changes nothing. */
  lemma {:induction false} NormalizeNameIdempotent(name: string)
    requires !IsBlank(name)
    ensures !IsBlank(NormalizeName(name))
    ensures NormalizeName(NormalizeName(name)) == NormalizeName(name)
  {
    var t := Trim(name);
    var n := NormalizeName(name);
    assert !IsWhiteSpace(n[0]);
    TrimUntrimmed(n);
    assert n[1..] == ToLower(t[1..]);
    LowerIdempotent(t[1..]);
  }

  /** Two requested names collide after normalisation exactly when their trimmed forms are
      equal ignoring case. */
  lemma NormalizedNamesCollide(a: string, b: string)
    requires !IsBlank(a) && !IsBlank(b)
    ensures EqualsIgnoreCase(NormalizeName(a), NormalizeName(b)) <==> EqualsIgnoreCase(Trim(a), Trim(b))
  {
  }

  /** An ingredient named like `name`, ignoring case. */
  predicate NameTaken(ingredients: seq<Row<Ingredient>>, name: string) {
    exists k :: 0 <= k < |ingredients| && EqualsIgnoreCase(ingredients[k].data.name, name)
  }

  /** GET api/ingredients/{id}. */
  function GetIngredient(ingredients: seq<Row<Ingredient>>, id: Guid): (r: Response<Row<Ingredient>>)
    ensures r.NotFound? <==> !HasId(ingredients, id)
    ensures r.Ok? || r.NotFound?
    ensures r.Ok? ==> r.value in ingredients && r.value.id == id
  {
    match IndexOf(ingredients, id)
    case None => NotFound
    case Some(i) => Ok(ingredients[i])
  }

  /** GET api/ingredients/GetAll. */
  function GetIngredients(ingredients: seq<Row<Ingredient>>): (r: seq<IngredientDto>)
    ensures |r| == |ingredients|
    ensures forall k :: 0 <= k < |r| ==>
      && r[k].id == ingredients[k].id && r[k].name == ingredients[k].data.name
      && r[k].isAllergen == ingredients[k].data.isAllergen && r[k].isMeat == ingredients[k].data.isMeat
  {
    Select(ingredients, ToDto)
  }

  /** POST api/ingredients: stores a new ingredient under its normalised name unless the
      name is blank or already taken ignoring case. */
  method CreateIngredient(db: Db, name: string, isAllergen: bool, isMeat: bool, newId: Guid)
    returns (r: Response<IngredientDto>)
    requires db.Valid() && !HasId(db.ingredients, newId)
    modifies db`ingredients
    ensures db.Valid()
    ensures IsBlank(name) ==> r == BadRequest(BlankName) && db.ingredients == old(db.ingredients)
    ensures !IsBlank(name) ==>
      var n := NormalizeName(name);
      if NameTaken(old(db.ingredients), n) then
        r == Conflict && db.ingredients == old(db.ingredients)
      else
        && r == Created(newId, IngredientDto(newId, n, isAllergen, isMeat))
        && db.ingredients == old(db.ingredients) + [Row(newId, Ingredient(n, isAllergen, isMeat))]
  {
    if IsBlank(name) {
      return BadRequest(BlankName);
    }
    var n := NormalizeName(name);
    if NameTaken(db.ingredients, n) {
      return Conflict;
    }
    var row := Row(newId, Ingredient(n, isAllergen, isMeat));
    AppendIngredient(db, row);
    return Created(newId, ToDto(row));
  }

  /** Stores a row whose id is fresh and whose name collides with no stored name. */
  method AppendIngredient(db: Db, row: Row<Ingredient>)
    requires db.Valid() && !HasId(db.ingredients, row.id) && !NameTaken(db.ingredients, row.data.name)
    modifies db`ingredients
    ensures db.Valid() && db.ingredients == old(db.ingredients) + [row]
  {
    PairwiseAppend(db.ingredients, row, IngredientsCompatible);
    db.ingredients := db.ingredients + [row];
  }

  /** A name that survived `CreateIngredient` collides with no other stored name, and a
      second request with the same name ignoring case and surrounding whitespace is refused. */
  lemma {:induction false} SecondCreateConflicts(ingredients: seq<Row<Ingredient>>, first: string, second: string,
                                                 id: Guid, isAllergen: bool, isMeat: bool)
    requires !IsBlank(first) && !IsBlank(second) && EqualsIgnoreCase(Trim(first), Trim(second))
    ensures NameTaken(ingredients + [Row(id, Ingredient(NormalizeName(first), isAllergen, isMeat))],
                      NormalizeName(second))
  {
    var t := ingredients + [Row(id, Ingredient(NormalizeName(first), isAllergen, isMeat))];
    NormalizedNamesCollide(first, second);
    assert EqualsIgnoreCase(t[|ingredients|].data.name, NormalizeName(second));
  }
}
