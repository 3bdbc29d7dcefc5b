/** Menu cards of a pizzeria: reading, creating, activating and deleting them. */
module MenuController {
  import opened Common
  import opened Tables
  import opened Entities
  import opened Store
  import opened PizzaController

  datatype MenuDetails = MenuDetails(
    id: Guid, name: string, description: Option<string>, isActive: bool,
    pizzasCount: nat, pizzas: seq<PizzaSummary>)

  datatype MenuListItem = MenuListItem(
    id: Guid, name: string, description: Option<string>, isActive: bool, pizzasCount: nat)

  function OnMenu(menuId: Guid): Row<Pizza> -> bool {
    (p: Row<Pizza>) => p.data.menuId == menuId
  }

  function OffMenu(menuId: Guid): Row<Pizza> -> bool {
    (p: Row<Pizza>) => p.data.menuId != menuId
  }

  function OfPizzeria(pizzeriaId: Guid): Row<Menu> -> bool {
    (m: Row<Menu>) => m.data.pizzeriaId == pizzeriaId
  }

  /** The pizzas on menu `menuId` (`Menu.Pizzas`), in table order. */
  function PizzasOf(pizzas: seq<Row<Pizza>>, menuId: Guid): (r: seq<Row<Pizza>>)
    ensures forall p | p in r :: p in pizzas && p.data.menuId == menuId
    ensures forall p | p in pizzas && p.data.menuId == menuId :: p in r
  {
    Filter(pizzas, OnMenu(menuId))
  }

  /** The pizzas that survive the cascade when menu `menuId` is removed. */
  function PizzasNotOf(pizzas: seq<Row<Pizza>>, menuId: Guid): (r: seq<Row<Pizza>>)
    ensures forall p | p in r :: p in pizzas && p.data.menuId != menuId
    ensures forall p | p in pizzas && p.data.menuId != menuId :: p in r
  {
    Filter(pizzas, OffMenu(menuId))
  }

  /** The menus of pizzeria `pizzeriaId`, in table order. */
  function MenusOf(menus: seq<Row<Menu>>, pizzeriaId: Guid): (r: seq<Row<Menu>>)
    ensures forall m | m in r :: m in menus && m.data.pizzeriaId == pizzeriaId
    ensures forall m | m in menus && m.data.pizzeriaId == pizzeriaId :: m in r
  {
    Filter(menus, OfPizzeria(pizzeriaId))
  }

  function Summary(ingredients: seq<Row<Ingredient>>, p: Row<Pizza>): PizzaSummary {
    PizzaSummary(p.id, p.data.name, p.data.description, p.data.price, IngredientNames(ingredients, p.data))
  }

  /** GET api/Menu/{id}: the menu with its pizzas and their ingredient names. */
  function GetMenu(menus: seq<Row<Menu>>, pizzas: seq<Row<Pizza>>, ingredients: seq<Row<Ingredient>>,
                   id: Guid): (r: Response<MenuDetails>)
    ensures r.NotFound? <==> !HasId(menus, id)
    ensures r.Ok? || r.NotFound?
    ensures r.Ok? ==> exists m :: m in menus && m.id == id && r.value.id == id && r.value.name == m.data.name
                        && r.value.description == m.data.description && r.value.isActive == m.data.isActive
    ensures r.Ok? ==> r.value.pizzasCount == |r.value.pizzas| == |PizzasOf(pizzas, id)|
    ensures r.Ok? ==> forall k :: 0 <= k < |r.value.pizzas| ==>
                        r.value.pizzas[k] == Summary(ingredients, PizzasOf(pizzas, id)[k])
    ensures r.Ok? ==> forall k :: 0 <= k < |r.value.pizzas| ==>
                        var p := PizzasOf(pizzas, id)[k];
                        p in pizzas && p.data.menuId == id && p.id == r.value.pizzas[k].id
    ensures r.Ok? ==> forall p | p in pizzas && p.data.menuId == id ::
                        exists k :: 0 <= k < |r.value.pizzas| && r.value.pizzas[k].id == p.id
  {
    match IndexOf(menus, id)
    case None => NotFound
    case Some(i) => Ok(Details(pizzas, ingredients, menus[i]))
  }

  /** The details view of menu `m`: its own fields, then one summary per pizza on it, in table order. */
  function Details(pizzas: seq<Row<Pizza>>, ingredients: seq<Row<Ingredient>>, m: Row<Menu>): (d: MenuDetails)
    ensures d.id == m.id && d.name == m.data.name && d.description == m.data.description && d.isActive == m.data.isActive
    ensures d.pizzasCount == |d.pizzas| == |PizzasOf(pizzas, m.id)|
    ensures forall k :: 0 <= k < |d.pizzas| ==> d.pizzas[k] == Summary(ingredients, PizzasOf(pizzas, m.id)[k])
    ensures forall k :: 0 <= k < |d.pizzas| ==>
              var p := PizzasOf(pizzas, m.id)[k];
              p in pizzas && p.data.menuId == m.id && p.id == d.pizzas[k].id
    ensures forall p | p in pizzas && p.data.menuId == m.id ::
              exists k :: 0 <= k < |d.pizzas| && d.pizzas[k].id == p.id
  {
    var onMenu := PizzasOf(pizzas, m.id);
    var summaries := Select(onMenu, SummaryOf(ingredients));
    MenuPizzasListed(pizzas, ingredients, m.id, onMenu, summaries);
    MenuDetails(m.id, m.data.name, m.data.description, m.data.isActive, |onMenu|, summaries)
  }

  function SummaryOf(ingredients: seq<Row<Ingredient>>): Row<Pizza> -> PizzaSummary {
    (p: Row<Pizza>) => Summary(ingredients, p)
  }

  /** The summaries built from the pizzas on a menu are theirs, one each, in order. */
  lemma {:induction false} MenuPizzasListed(pizzas: seq<Row<Pizza>>, ingredients: seq<Row<Ingredient>>, id: Guid,
                                            onMenu: seq<Row<Pizza>>, summaries: seq<PizzaSummary>)
    requires forall p | p in onMenu :: p in pizzas && p.data.menuId == id
    requires forall p | p in pizzas && p.data.menuId == id :: p in onMenu
    requires |summaries| == |onMenu| && forall k :: 0 <= k < |onMenu| ==> summaries[k] == SummaryOf(ingredients)(onMenu[k])
    ensures forall k :: 0 <= k < |summaries| ==> summaries[k] == Summary(ingredients, onMenu[k])
    ensures forall k :: 0 <= k < |summaries| ==>
              onMenu[k] in pizzas && onMenu[k].data.menuId == id && onMenu[k].id == summaries[k].id
    ensures forall p | p in pizzas && p.data.menuId == id ::
              exists k :: 0 <= k < |summaries| && summaries[k].id == p.id
  {
    forall k | 0 <= k < |summaries|
      ensures summaries[k] == Summary(ingredients, onMenu[k])
      ensures onMenu[k] in pizzas && onMenu[k].data.menuId == id && onMenu[k].id == summaries[k].id
    {
      assert onMenu[k] in onMenu;
    }
    forall p | p in pizzas && p.data.menuId == id
      ensures exists k :: 0 <= k < |summaries| && summaries[k].id == p.id
    {
      var k :| 0 <= k < |onMenu| && onMenu[k] == p;
      assert summaries[k].id == p.id;
    }
  }

  /** POST api/Menu/Create: a new, inactive menu for a pizzeria the caller owns. The pizzeria
      is picked by comparing its key's text with the requested one, modelled as key equality. */
  method CreateMenu(db: Db, user: Option<Guid>, pizzeriaId: Guid, name: string, description: Option<string>,
                    newId: Guid) returns (r: Response<Menu>)
    requires db.Valid() && !HasId(db.menus, newId)
    modifies db`menus
    ensures db.Valid()
    ensures !HasId(db.pizzerias, pizzeriaId) ==> r == BadRequest(PizzeriaMissing) && db.menus == old(db.menus)
    ensures HasId(db.pizzerias, pizzeriaId) ==>
      var owner := BrandOwner(db.pizzerias, db.brands, pizzeriaId);
      if owner.None? then r == ServerError && db.menus == old(db.menus)
      else if Some(owner.value) != user then r == Forbid && db.menus == old(db.menus)
      else r == Created(newId, Menu(name, description, false, EmptyGuid))
           && db.menus == old(db.menus) + [Row(newId, Menu(name, description, false, pizzeriaId))]
  {
    if !HasId(db.pizzerias, pizzeriaId) {
      return BadRequest(PizzeriaMissing);
    }
    var owner := BrandOwner(db.pizzerias, db.brands, pizzeriaId);
    if owner.None? {
      return ServerError;
    }
    if Some(owner.value) != user {
      return Forbid;
    }
    var menu := Menu(name, description, false, pizzeriaId);
    PairwiseAppend(db.menus, Row(newId, menu), NotBothActive);
    HasIdAppend(db.menus, Row(newId, menu));
    db.menus := db.menus + [Row(newId, menu)];
    // The response body is a fresh menu that copies only the key, name, description and flag.
    return Created(newId, menu.(pizzeriaId := EmptyGuid));
  }

  /** Menu `m` is another active menu of pizzeria `pizzeriaId` than `currentId`. */
  predicate IsOtherActive(m: Row<Menu>, pizzeriaId: Guid, currentId: Guid) {
    m.data.pizzeriaId == pizzeriaId && m.id != currentId && m.data.isActive
  }

  /** The table after every other active menu of pizzeria `pizzeriaId` is switched off. */
  function DeactivatedOthers(menus: seq<Row<Menu>>, pizzeriaId: Guid, currentId: Guid): (r: seq<Row<Menu>>)
    ensures |r| == |menus|
    ensures forall k :: 0 <= k < |r| ==> !IsOtherActive(r[k], pizzeriaId, currentId)
    ensures forall k :: 0 <= k < |r| ==> r[k].id == menus[k].id && r[k].data.pizzeriaId == menus[k].data.pizzeriaId
    ensures forall k :: 0 <= k < |r| && !IsOtherActive(menus[k], pizzeriaId, currentId) ==> r[k] == menus[k]
    ensures forall k :: 0 <= k < |r| && IsOtherActive(menus[k], pizzeriaId, currentId) ==>
      r[k].data == menus[k].data.(isActive := false)
  {
    seq(|menus|, k requires 0 <= k < |menus| =>
      if IsOtherActive(menus[k], pizzeriaId, currentId)
      then Row(menus[k].id, menus[k].data.(isActive := false))
      else menus[k])
  }

  /** The table after menu `i` becomes the active menu of its pizzeria. */
  function Activated(menus: seq<Row<Menu>>, i: nat): (r: seq<Row<Menu>>)
    requires i < |menus|
    ensures |r| == |menus|
  {
    var m := menus[i];
    DeactivatedOthers(menus, m.data.pizzeriaId, m.id)[i := Row(m.id, m.data.(isActive := true))]
  }

  /** Activation makes menu `i` the only active menu of its pizzeria, touches no other
      pizzeria's menus, keeps every key and owner, and keeps at most one active menu per pizzeria. */
  lemma {:induction false} ActivatedIsSoleActive(menus: seq<Row<Menu>>, i: nat)
    requires UniqueIds(menus) && AtMostOneActiveMenu(menus) && i < |menus|
    ensures var a := Activated(menus, i);
      && a[i].data.isActive
      && (forall k :: 0 <= k < |a| && k != i && a[k].data.pizzeriaId == menus[i].data.pizzeriaId ==> !a[k].data.isActive)
      && (forall k :: 0 <= k < |a| && menus[k].data.pizzeriaId != menus[i].data.pizzeriaId ==> a[k] == menus[k])
      && (forall k :: 0 <= k < |a| ==> a[k].id == menus[k].id && a[k].data.pizzeriaId == menus[k].data.pizzeriaId)
      && AtMostOneActiveMenu(a)
  {
    var a := Activated(menus, i);
    var pid := menus[i].data.pizzeriaId;
    forall j, k | 0 <= j < k < |a| ensures NotBothActive(a[j], a[k]) {
      if a[j].data.pizzeriaId == pid && a[k].data.pizzeriaId == pid {
        assert j == i || k == i || !a[j].data.isActive;
        if j == i { assert menus[k].id != menus[i].id; }
        if k == i { assert menus[j].id != menus[i].id; }
      } else {
        assert NotBothActive(menus[j], menus[k]);
      }
    }
  }

  /** `DeactivateOtherMenus`: switches off the other active menus of a pizzeria, one row at a time. */
  method DeactivateOtherMenus(db: Db, pizzeriaId: Guid, currentId: Guid)
    modifies db`menus
    ensures db.menus == DeactivatedOthers(old(db.menus), pizzeriaId, currentId)
  {
    ghost var target := DeactivatedOthers(db.menus, pizzeriaId, currentId);
    var k := 0;
    while k < |db.menus|
      invariant 0 <= k <= |db.menus| == |old(db.menus)|
      invariant forall j :: 0 <= j < k ==> db.menus[j] == target[j]
      invariant forall j :: k <= j < |db.menus| ==> db.menus[j] == old(db.menus)[j]
    {
      var m := db.menus[k];
      if IsOtherActive(m, pizzeriaId, currentId) {
        db.menus := db.menus[k := Row(m.id, m.data.(isActive := false))];
      }
      k := k + 1;
    }
  }

  /** Activates the menu at index `i` after switching off the other menus of its pizzeria. */
  method ActivateAt(db: Db, i: nat)
    requires db.Valid() && i < |db.menus|
    modifies db`menus
    ensures db.Valid()
    ensures db.menus == Activated(old(db.menus), i)
  {
    var m := db.menus[i];
    ActivatedIsSoleActive(db.menus, i);
    ghost var before := db.menus;
    DeactivateOtherMenus(db, m.data.pizzeriaId, m.id);
    db.menus := db.menus[i := Row(m.id, m.data.(isActive := true))];
    assert db.menus == Activated(before, i);
    forall p | p in db.pizzas ensures HasId(db.menus, p.data.menuId) {
      var j :| 0 <= j < |before| && before[j].id == p.data.menuId;
      assert db.menus[j].id == p.data.menuId;
    }
  }

  /** PUT api/Menu/{id}/activate: makes the menu its pizzeria's only active one. */
  method ActivateMenu(db: Db, user: Option<Guid>, id: Guid) returns (r: Response<()>)
    requires db.Valid()
    modifies db`menus
    ensures db.Valid()
    ensures !HasId(old(db.menus), id) ==> r == NotFound && db.menus == old(db.menus)
    ensures HasId(old(db.menus), id) ==>
      var i := IndexOf(old(db.menus), id).value;
      var m := old(db.menus)[i];
      var owner := BrandOwner(db.pizzerias, db.brands, m.data.pizzeriaId);
      if owner.None? then r == ServerError && db.menus == old(db.menus)
      else if Some(owner.value) != user then r == Forbid && db.menus == old(db.menus)
      else if m.data.isActive then r == Ok(()) && db.menus == old(db.menus)
      else r == NoContent && db.menus == Activated(old(db.menus), i)
  {
    var found := IndexOf(db.menus, id);
    if found.None? {
      return NotFound;
    }
    var i := found.value;
    var m := db.menus[i];
    var owner := BrandOwner(db.pizzerias, db.brands, m.data.pizzeriaId);
    if owner.None? {
      return ServerError;
    }
    if Some(owner.value) != user {
      return Forbid;
    }
    if m.data.isActive {
      return Ok(());
    }
    ActivateAt(db, i);
    return NoContent;
  }

  /** Removing a menu together with its pizzas keeps the menu and pizza invariants. */
  lemma RemovalKeepsInvariants(menus: seq<Row<Menu>>, pizzas: seq<Row<Pizza>>, pizzerias: seq<Row<Pizzeria>>, i: nat)
    requires i < |menus| && UniqueIds(menus) && UniqueIds(pizzas)
    requires MenusOfPizzerias(menus, pizzerias) && AtMostOneActiveMenu(menus)
    requires PizzasOfMenus(pizzas, menus) && PizzaNamesDistinct(pizzas) && PizzaDimensionsConsistent(pizzas)
    ensures var ms := RemoveAt(menus, i);
      var ps := PizzasNotOf(pizzas, menus[i].id);
      && UniqueIds(ms) && UniqueIds(ps)
      && MenusOfPizzerias(ms, pizzerias) && AtMostOneActiveMenu(ms)
      && PizzasOfMenus(ps, ms) && PizzaNamesDistinct(ps) && PizzaDimensionsConsistent(ps)
  {
    var id := menus[i].id;
    RemoveAtExactly(menus, i);
    PairwiseRemoveAt(menus, i, NotBothActive);
    FilterUniqueIds(pizzas, OffMenu(id));
    FilterPairwise(pizzas, OffMenu(id), PizzaNamesCompatible);
    var ms := RemoveAt(menus, i);
    forall p | p in PizzasNotOf(pizzas, id) ensures HasId(ms, p.data.menuId) {
      var j :| 0 <= j < |menus| && menus[j].id == p.data.menuId;
      assert menus[j] in ms;
    }
  }

  /** Removes the menu at index `i` and, by cascade, its pizzas. */
  method RemoveMenuWithPizzas(db: Db, i: nat)
    requires db.Valid() && i < |db.menus|
    modifies db`menus, db`pizzas
    ensures db.Valid()
    ensures db.menus == RemoveAt(old(db.menus), i) && db.pizzas == PizzasNotOf(old(db.pizzas), old(db.menus)[i].id)
  {
    var id := db.menus[i].id;
    RemovalKeepsInvariants(db.menus, db.pizzas, db.pizzerias, i);
    db.menus := RemoveAt(db.menus, i);
    db.pizzas := PizzasNotOf(db.pizzas, id);
  }

  /** The deletion removes exactly the menu with that key, keeps every other menu, and leaves
      no pizza on the removed menu. */
  lemma {:induction false} DeletionRemovesExactly(menus: seq<Row<Menu>>, pizzas: seq<Row<Pizza>>, i: nat)
    requires UniqueIds(menus) && i < |menus|
    ensures var ms := RemoveAt(menus, i);
      && !HasId(ms, menus[i].id)
      && (forall m | m in ms :: m in menus)
      && (forall m | m in menus && m.id != menus[i].id :: m in ms)
      && (forall p | p in PizzasNotOf(pizzas, menus[i].id) :: p.data.menuId != menus[i].id)
      && (forall p | p in pizzas && p.data.menuId != menus[i].id :: p in PizzasNotOf(pizzas, menus[i].id))
  {
    RemoveAtExactly(menus, i);
  }

  /** DELETE api/Menu/{id}: removes an inactive menu together with its pizzas. */
  method DeleteMenu(db: Db, user: Option<Guid>, id: Guid) returns (r: Response<()>)
    requires db.Valid()
    modifies db`menus, db`pizzas
    ensures db.Valid()
    ensures !HasId(old(db.menus), id) ==> r == NotFound
    ensures HasId(old(db.menus), id) ==>
      var m := old(db.menus)[IndexOf(old(db.menus), id).value];
      var owner := BrandOwner(db.pizzerias, db.brands, m.data.pizzeriaId);
      if owner.None? then r == ServerError
      else if Some(owner.value) != user then r == Forbid
      else if m.data.isActive then r == BadRequest(MenuIsActive)
      else r == NoContent
    ensures r != NoContent ==> db.menus == old(db.menus) && db.pizzas == old(db.pizzas)
    ensures r == NoContent ==>
      && db.menus == RemoveAt(old(db.menus), IndexOf(old(db.menus), id).value)
      && db.pizzas == PizzasNotOf(old(db.pizzas), id)
  {
    var found := IndexOf(db.menus, id);
    if found.None? {
      return NotFound;
    }
    var i := found.value;
    var m := db.menus[i];
    var owner := BrandOwner(db.pizzerias, db.brands, m.data.pizzeriaId);
    if owner.None? {
      return ServerError;
    }
    if Some(owner.value) != user {
      return Forbid;
    }
    if m.data.isActive {
      return BadRequest(MenuIsActive);
    }
    RemoveMenuWithPizzas(db, i);
    return NoContent;
  }

  /** The list entry of one menu, with the number of its pizzas. */
  function ListItem(pizzas: seq<Row<Pizza>>): Row<Menu> -> MenuListItem {
    (m: Row<Menu>) => MenuListItem(m.id, m.data.name, m.data.description, m.data.isActive, |PizzasOf(pizzas, m.id)|)
  }

  /** GET api/Menu/GetAllMenus/{pizzeriaId}: the pizzeria's menus with their pizza counts;
      NotFound only when there are none and the pizzeria does not exist. */
  function GetMenusForPizzeria(menus: seq<Row<Menu>>, pizzas: seq<Row<Pizza>>,
                               pizzerias: seq<Row<Pizzeria>>, pizzeriaId: Guid): (r: Response<seq<MenuListItem>>)
    ensures r.NotFound? <==> !HasId(pizzerias, pizzeriaId) && forall m | m in menus :: m.data.pizzeriaId != pizzeriaId
    ensures r.Ok? || r.NotFound?
    ensures r.Ok? ==> |r.value| == |MenusOf(menus, pizzeriaId)|
    ensures r.Ok? ==> forall k :: 0 <= k < |r.value| ==>
      var m := MenusOf(menus, pizzeriaId)[k];
      && r.value[k].id == m.id && r.value[k].name == m.data.name && r.value[k].description == m.data.description
      && r.value[k].isActive == m.data.isActive
      && r.value[k].pizzasCount == |PizzasOf(pizzas, m.id)|
  {
    var own := MenusOf(menus, pizzeriaId);
    var items := Select(own, ListItem(pizzas));
    assert own != [] ==> own[0] in own;
    if items == [] && !HasId(pizzerias, pizzeriaId) then NotFound else Ok(items)
  }

  /** Every listed menu is a menu of that pizzeria. */
  lemma {:induction false} MenuListSound(menus: seq<Row<Menu>>, pizzas: seq<Row<Pizza>>,
                                         pizzerias: seq<Row<Pizzeria>>, pizzeriaId: Guid, k: nat)
    requires GetMenusForPizzeria(menus, pizzas, pizzerias, pizzeriaId).Ok?
    requires k < |GetMenusForPizzeria(menus, pizzas, pizzerias, pizzeriaId).value|
    ensures var item := GetMenusForPizzeria(menus, pizzas, pizzerias, pizzeriaId).value[k];
      exists m :: m in menus && m.data.pizzeriaId == pizzeriaId && m.id == item.id && m.data.isActive == item.isActive
  {
    var own := MenusOf(menus, pizzeriaId);
    var m := own[k];
    assert m in own;
  }

  /** Every menu of that pizzeria is listed. */
  lemma {:induction false} MenuListComplete(menus: seq<Row<Menu>>, pizzas: seq<Row<Pizza>>,
                                            pizzerias: seq<Row<Pizzeria>>, pizzeriaId: Guid, m: Row<Menu>)
    requires m in menus && m.data.pizzeriaId == pizzeriaId
    ensures var r := GetMenusForPizzeria(menus, pizzas, pizzerias, pizzeriaId);
      r.Ok? && exists k :: 0 <= k < |r.value| && r.value[k].id == m.id
  {
    var own := MenusOf(menus, pizzeriaId);
    assert m in own;
    var k :| 0 <= k < |own| && own[k] == m;
    assert GetMenusForPizzeria(menus, pizzas, pizzerias, pizzeriaId).value[k].id == m.id;
  }



  /** A pizzeria's menu list never shows two active menus. */
  lemma {:induction false} MenuListHasOneActive(menus: seq<Row<Menu>>, pizzas: seq<Row<Pizza>>,
                                                pizzerias: seq<Row<Pizzeria>>, pizzeriaId: Guid)
    requires AtMostOneActiveMenu(menus)
    ensures var r := GetMenusForPizzeria(menus, pizzas, pizzerias, pizzeriaId);
      r.Ok? ==> forall j, k :: 0 <= j < k < |r.value| ==> !(r.value[j].isActive && r.value[k].isActive)
  {
    var own := MenusOf(menus, pizzeriaId);
    FilterPairwise(menus, OfPizzeria(pizzeriaId), NotBothActive);
    forall j, k | 0 <= j < k < |own| ensures !(own[j].data.isActive && own[k].data.isActive) {
      assert NotBothActive(own[j], own[k]);
      assert own[j].data.pizzeriaId == own[k].data.pizzeriaId by {
        assert own[j] in own && own[k] in own;
      }
    }
  }

  /** With every menu attached to a pizzeria, the list is NotFound exactly for an unknown pizzeria. */
  lemma MenuListNotFoundIffNoPizzeria(menus: seq<Row<Menu>>, pizzas: seq<Row<Pizza>>,
                                      pizzerias: seq<Row<Pizzeria>>, pizzeriaId: Guid)
    requires MenusOfPizzerias(menus, pizzerias)
    ensures GetMenusForPizzeria(menus, pizzas, pizzerias, pizzeriaId).NotFound? <==> !HasId(pizzerias, pizzeriaId)
  {
  }
}
