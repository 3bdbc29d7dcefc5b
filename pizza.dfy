/** Pizzas on menus: creation with its shape and ingredient checks, and the read models. */
module PizzaController {
  import opened Common
  import opened Tables
  import opened Entities
  import opened Store
  import IngredientController

  datatype CreatePizzaRequest = CreatePizzaRequest(
    ingredientIds: seq<Guid>,
    name: string,
    description: Option<string>,
    price: real,
    style: PizzaStyle,
    baseSauce: SauceType,
    dough: DoughType,
    thickness: CrustThickness,
    shape: PizzaShape,
    diameterCm: Option<real>,
    widthCm: Option<real>,
    lengthCm: Option<real>,
    weightGrams: real,
    kcal: real,
    menuId: Guid)

  /** A pizza as listed in a menu or in the catalogue. */
  datatype PizzaSummary = PizzaSummary(
    id: Guid, name: string, description: Option<string>, price: real, ingredientNames: seq<string>)

  datatype PizzaDetails = PizzaDetails(
    id: Guid,
    menuId: Guid,
    name: string,
    description: string,
    price: real,
    style: PizzaStyle,
    dough: DoughType,
    baseSauce: SauceType,
    thickness: CrustThickness,
    shape: PizzaShape,
    weightGrams: real,
    kcal: real,
    diameterCm: real,
    widthCm: real,
    lengthCm: real,
    ingredients: seq<IngredientController.IngredientDto>)

  /** `p.Ingredients.Select(i => i.Name)`: the name of each ingredient row linked to the pizza
      (`IngredientsIn`), in table order. */
  function IngredientNames(ingredients: seq<Row<Ingredient>>, p: Pizza): (r: seq<string>)
    ensures |r| == |IngredientsIn(ingredients, p.ingredientIds)|
    ensures forall k :: 0 <= k < |r| ==> r[k] == IngredientsIn(ingredients, p.ingredientIds)[k].data.name
    ensures forall i | i in ingredients && i.id in p.ingredientIds :: i.data.name in r
  {
    var linked := IngredientsIn(ingredients, p.ingredientIds);
    assert forall i | i in ingredients && i.id in p.ingredientIds :: i.data.name in Select(linked, NameOf) by {
      forall i | i in ingredients && i.id in p.ingredientIds ensures i.data.name in Select(linked, NameOf) {
        SelectKeeps(linked, NameOf, i);
      }
    }
    Select(linked, NameOf)
  }

  function NameOf(i: Row<Ingredient>): string {
    i.data.name
  }

  /** `p.Ingredients.Select(i => new IngredientDto { ... })`: id, name and both flags of each
      ingredient row linked to the pizza (`IngredientsIn`), in table order. */
  function IngredientDtos(ingredients: seq<Row<Ingredient>>, p: Pizza): (r: seq<IngredientController.IngredientDto>)
    ensures |r| == |IngredientsIn(ingredients, p.ingredientIds)|
    ensures forall k :: 0 <= k < |r| ==>
      var i := IngredientsIn(ingredients, p.ingredientIds)[k];
      r[k] == IngredientController.IngredientDto(i.id, i.data.name, i.data.isAllergen, i.data.isMeat)
    ensures forall i | i in ingredients && i.id in p.ingredientIds ::
      IngredientController.IngredientDto(i.id, i.data.name, i.data.isAllergen, i.data.isMeat) in r
  {
    var linked := IngredientsIn(ingredients, p.ingredientIds);
    assert forall i | i in ingredients && i.id in p.ingredientIds ::
      IngredientController.ToDto(i) in Select(linked, IngredientController.ToDto) by {
      forall i | i in ingredients && i.id in p.ingredientIds
        ensures IngredientController.ToDto(i) in Select(linked, IngredientController.ToDto)
      {
        SelectKeeps(linked, IngredientController.ToDto, i);
      }
    }
    Select(linked, IngredientController.ToDto)
  }

  /** Some pizza on menu `menuId` is called exactly `name`. */
  predicate NameTaken(pizzas: seq<Row<Pizza>>, menuId: Guid, name: string) {
    exists k :: 0 <= k < |pizzas| && pizzas[k].data.menuId == menuId && pizzas[k].data.name == name
  }

  /** Why the request's dimensions do not fit its shape, if they do not: a round pizza needs
      a positive diameter, a rectangular one both sides. */
  function ShapeError(req: CreatePizzaRequest): (r: Option<Reason>)
    ensures r == None <==>
      match req.shape
      case Round => req.diameterCm.Some? && req.diameterCm.value > 0.0
      case Rectangle => req.widthCm.Some? && req.lengthCm.Some?
  {
    match req.shape
    case Round => if req.diameterCm.None? || req.diameterCm.value <= 0.0 then Some(DiameterRequired) else None
    case Rectangle => if req.widthCm.None? || req.lengthCm.None? then Some(SidesRequired) else None
  }

  /** The pizza stored for an accepted request: the dimensions the shape does not use are
      dropped and missing values stored as zero; a missing description is stored as empty. */
  function StoredPizza(req: CreatePizzaRequest, ingredientIds: seq<Guid>): (p: Pizza)
    requires ShapeError(req) == None
    ensures DimensionsFitShape(p)
    ensures p.menuId == req.menuId && p.name == req.name && p.shape == req.shape && p.ingredientIds == ingredientIds
    ensures p.price == req.price && p.weightGrams == req.weightGrams && p.kcal == req.kcal
    ensures p.style == req.style && p.baseSauce == req.baseSauce && p.dough == req.dough && p.thickness == req.thickness
    ensures p.description == Some(req.description.GetOr(""))
    ensures p.shape.Round? ==> p.diameterCm == req.diameterCm.value
    ensures p.shape.Rectangle? ==> p.widthCm == req.widthCm.value && p.lengthCm == req.lengthCm.value
  {
    var (diameter, width, length) :=
      match req.shape
      case Round => (req.diameterCm.value, 0.0, 0.0)
      case Rectangle => (0.0, req.widthCm.value, req.lengthCm.value);
    Pizza(req.name, Some(req.description.GetOr("")), req.price, req.style, req.baseSauce, req.dough,
          req.thickness, req.shape, diameter, width, length, req.weightGrams, req.kcal, req.menuId,
          ingredientIds)
  }

  /** The ingredient check compares the number of matching rows with the number of requested
      keys: it passes exactly when every key is known and none is repeated. */
  lemma {:induction false} IngredientCountCheck(ingredients: seq<Row<Ingredient>>, ids: seq<Guid>)
    requires UniqueIds(ingredients)
    ensures |IngredientsIn(ingredients, ids)| == |ids| <==>
      NoDuplicates(ids) && forall id | id in ids :: HasId(ingredients, id)
  {
    var f := IngredientsIn(ingredients, ids);
    KeyCount(f);
    DistinctCount(ids);
    assert KeySet(f) <= Elems(ids);
    SubsetSize(KeySet(f), Elems(ids));
    if forall id | id in ids :: HasId(ingredients, id) {
      forall id | id in Elems(ids) ensures id in KeySet(f) {
        var k :| 0 <= k < |ingredients| && ingredients[k].id == id;
        assert ingredients[k] in f;
      }
    }
    if KeySet(f) == Elems(ids) {
      forall id | id in ids ensures HasId(ingredients, id) {
        assert id in KeySet(f);
        var x :| x in f && x.id == id;
        var k :| 0 <= k < |ingredients| && ingredients[k] == x;
      }
    }
  }

  /** The stored ingredient keys of an accepted request are exactly the requested ones. */
  lemma {:induction false} AcceptedIngredientsAreRequested(ingredients: seq<Row<Ingredient>>, ids: seq<Guid>)
    requires UniqueIds(ingredients) && |IngredientsIn(ingredients, ids)| == |ids|
    ensures forall id :: id in IdsOf(IngredientsIn(ingredients, ids)) <==> id in ids
  {
    var f := IngredientsIn(ingredients, ids);
    IngredientCountCheck(ingredients, ids);
    forall id ensures id in IdsOf(f) <==> id in ids {
      if id in ids {
        var k :| 0 <= k < |ingredients| && ingredients[k].id == id;
        assert ingredients[k] in f;
        var j :| 0 <= j < |f| && f[j] == ingredients[k];
        assert IdsOf(f)[j] == id;
      }
      if id in IdsOf(f) {
        var j :| 0 <= j < |f| && IdsOf(f)[j] == id;
        assert f[j] in f;
      }
    }
  }

  /** POST api/Pizza: adds a pizza to a menu. */
  method CreatePizza(db: Db, req: CreatePizzaRequest, newId: Guid) returns (r: Response<string>)
    requires db.Valid() && !HasId(db.pizzas, newId)
    modifies db`pizzas
    ensures db.Valid()
    ensures
      if !HasId(db.menus, req.menuId) then
        r == BadRequest(MenuMissing) && db.pizzas == old(db.pizzas)
      else if NameTaken(old(db.pizzas), req.menuId, req.name) then
        r == Conflict && db.pizzas == old(db.pizzas)
      else if ShapeError(req).Some? then
        r == BadRequest(ShapeError(req).value) && db.pizzas == old(db.pizzas)
      else if |IngredientsIn(db.ingredients, req.ingredientIds)| != |req.ingredientIds| then
        r == BadRequest(UnknownIngredients) && db.pizzas == old(db.pizzas)
      else
        && r == Created(newId, req.name)
        && db.pizzas == old(db.pizzas) + [Row(newId, StoredPizza(req, IdsOf(IngredientsIn(db.ingredients, req.ingredientIds))))]
  {
    if !HasId(db.menus, req.menuId) {
      return BadRequest(MenuMissing);
    }
    if exists k :: 0 <= k < |db.pizzas| && db.pizzas[k].data.menuId == req.menuId && db.pizzas[k].data.name == req.name {
      return Conflict;
    }
    var shapeError := ShapeError(req);
    if shapeError.Some? {
      return BadRequest(shapeError.value);
    }
    var existing := IngredientsIn(db.ingredients, req.ingredientIds);
    if |existing| != |req.ingredientIds| {
      return BadRequest(UnknownIngredients);
    }
    var row := Row(newId, StoredPizza(req, IdsOf(existing)));
    PairwiseAppend(db.pizzas, row, PizzaNamesCompatible);
    db.pizzas := db.pizzas + [row];
    return Created(newId, req.name);
  }

  /** GET api/Pizza: the catalogue, every pizza with its ingredient names. */
  function GetPizzas(pizzas: seq<Row<Pizza>>, ingredients: seq<Row<Ingredient>>): (r: seq<PizzaSummary>)
    ensures |r| == |pizzas|
    ensures forall k :: 0 <= k < |r| ==>
      && r[k].id == pizzas[k].id && r[k].name == pizzas[k].data.name && r[k].price == pizzas[k].data.price
      && r[k].description == Some(pizzas[k].data.description.GetOr(""))
      && r[k].ingredientNames == IngredientNames(ingredients, pizzas[k].data)
  {
    Select(pizzas, (p: Row<Pizza>) =>
      PizzaSummary(p.id, p.data.name, Some(p.data.description.GetOr("")), p.data.price,
                   IngredientNames(ingredients, p.data)))
  }

  /** GET api/Pizza/{id}: the pizza with its ingredients. The menu key is not copied into the
      result and stays empty. */
  function GetPizza(pizzas: seq<Row<Pizza>>, ingredients: seq<Row<Ingredient>>, id: Guid): (r: Response<PizzaDetails>)
    ensures r.NotFound? <==> !HasId(pizzas, id)
    ensures r.Ok? || r.NotFound?
    ensures r.Ok? ==> r.value.id == id && r.value.menuId == EmptyGuid
    ensures r.Ok? ==>
      var p := pizzas[IndexOf(pizzas, id).value].data;
      && r.value.name == p.name && r.value.description == p.description.GetOr("")
      && r.value.price == p.price && r.value.weightGrams == p.weightGrams && r.value.kcal == p.kcal
      && r.value.style == p.style && r.value.dough == p.dough && r.value.baseSauce == p.baseSauce
      && r.value.thickness == p.thickness && r.value.shape == p.shape
      && r.value.diameterCm == p.diameterCm && r.value.widthCm == p.widthCm && r.value.lengthCm == p.lengthCm
      && r.value.ingredients == IngredientDtos(ingredients, p)
  {
    match IndexOf(pizzas, id)
    case None => NotFound
    case Some(i) =>
      var p := pizzas[i];
      var dtos := IngredientDtos(ingredients, p.data);
      Ok(PizzaDetails(p.id, EmptyGuid, p.data.name, p.data.description.GetOr(""), p.data.price,
                      p.data.style, p.data.dough, p.data.baseSauce, p.data.thickness, p.data.shape,
                      p.data.weightGrams, p.data.kcal, p.data.diameterCm, p.data.widthCm, p.data.lengthCm, dtos))
  }
}
