/** The database context: one table per entity set, the integrity rules the controller
    actions maintain between them, and the navigation lookups they share. */
module Store {
  import opened Common
  import opened Text
  import opened Tables
  import opened Entities

  /** Two accounts may not share an email address. */
  predicate EmailsDiffer(a: Row<Account>, b: Row<Account>) {
    a.data.email != b.data.email
  }

  predicate EmailsUnique(accounts: seq<Row<Account>>) {
    Pairwise(accounts, EmailsDiffer)
  }

  /** `_context.Owners.AnyAsync(o => o.Id == id)`. */
  predicate IsOwnerAccount(accounts: seq<Row<Account>>, id: Guid) {
    exists i :: 0 <= i < |accounts| && accounts[i].id == id && accounts[i].data.kind.Owner?
  }

  /** Two countries may share neither a name nor an ISO code, ignoring case. */
  predicate CountriesCompatible(a: Row<Country>, b: Row<Country>) {
    && !EqualsIgnoreCase(a.data.name, b.data.name)
    && !EqualsIgnoreCase(a.data.isoCode, b.data.isoCode)
  }

  predicate CountriesDistinct(countries: seq<Row<Country>>) {
    Pairwise(countries, CountriesCompatible)
  }

  /** Two cities of one country may not share a name, ignoring case. */
  predicate CitiesCompatible(a: Row<City>, b: Row<City>) {
    a.data.countryId != b.data.countryId || !EqualsIgnoreCase(a.data.name, b.data.name)
  }

  predicate CityNamesDistinct(cities: seq<Row<City>>) {
    Pairwise(cities, CitiesCompatible)
  }

  /** Two ingredients may not share a name, ignoring case. */
  predicate IngredientsCompatible(a: Row<Ingredient>, b: Row<Ingredient>) {
    !EqualsIgnoreCase(a.data.name, b.data.name)
  }

  predicate IngredientNamesDistinct(ingredients: seq<Row<Ingredient>>) {
    Pairwise(ingredients, IngredientsCompatible)
  }

  /** Two brands may not share exactly the same name. */
  predicate BrandNamesDiffer(a: Row<Brand>, b: Row<Brand>) {
    a.data.name != b.data.name
  }

  predicate BrandNamesDistinct(brands: seq<Row<Brand>>) {
    Pairwise(brands, BrandNamesDiffer)
  }

  /** Every brand is owned by an existing owner account. */
  predicate BrandOwnersExist(brands: seq<Row<Brand>>, accounts: seq<Row<Account>>) {
    forall b | b in brands :: IsOwnerAccount(accounts, b.data.ownerId)
  }

  /** Every menu belongs to an existing pizzeria. */
  predicate MenusOfPizzerias(menus: seq<Row<Menu>>, pizzerias: seq<Row<Pizzeria>>) {
    forall m | m in menus :: HasId(pizzerias, m.data.pizzeriaId)
  }

  /** Two menus of one pizzeria are not both active. */
  predicate NotBothActive(a: Row<Menu>, b: Row<Menu>) {
    !(a.data.isActive && b.data.isActive && a.data.pizzeriaId == b.data.pizzeriaId)
  }

  /** The menu state machine's invariant: at most one active menu per pizzeria. */
  predicate AtMostOneActiveMenu(menus: seq<Row<Menu>>) {
    Pairwise(menus, NotBothActive)
  }

  /** Every city lies in a stored country (`City.CountryId` is a required reference). */
  predicate CitiesOfCountries(cities: seq<Row<City>>, countries: seq<Row<Country>>) {
    forall c | c in cities :: HasId(countries, c.data.countryId)
  }

  /** Every address lies in a stored city (`Address.CityId` is a required reference). */
  predicate AddressesOfCities(addresses: seq<Row<Address>>, cities: seq<Row<City>>) {
    forall a | a in addresses :: HasId(cities, a.data.cityId)
  }

  /** Every pizza belongs to an existing menu. */
  predicate PizzasOfMenus(pizzas: seq<Row<Pizza>>, menus: seq<Row<Menu>>) {
    forall p | p in pizzas :: HasId(menus, p.data.menuId)
  }

  /** Two pizzas may share a name only on different menus. */
  predicate PizzaNamesCompatible(a: Row<Pizza>, b: Row<Pizza>) {
    a.data.menuId != b.data.menuId || a.data.name != b.data.name
  }

  predicate PizzaNamesDistinct(pizzas: seq<Row<Pizza>>) {
    Pairwise(pizzas, PizzaNamesCompatible)
  }

  /** The shape decides the dimensions: a round pizza has a positive diameter and no sides,
      a rectangular one has no diameter. */
  predicate DimensionsFitShape(p: Pizza) {
    match p.shape
    case Round => p.diameterCm > 0.0 && p.widthCm == 0.0 && p.lengthCm == 0.0
    case Rectangle => p.diameterCm == 0.0
  }

  predicate PizzaDimensionsConsistent(pizzas: seq<Row<Pizza>>) {
    forall p | p in pizzas :: DimensionsFitShape(p.data)
  }

  /** Every schedule belongs to an existing pizzeria. */
  predicate SchedulesOfPizzerias(schedules: seq<Row<WorkSchedule>>, pizzerias: seq<Row<Pizzeria>>) {
    forall s | s in schedules :: HasId(pizzerias, s.data.pizzeriaId)
  }

  /** Every schedule opens strictly before it closes. */
  predicate SchedulesOrdered(schedules: seq<Row<WorkSchedule>>) {
    forall s | s in schedules :: s.data.openTime < s.data.closeTime
  }

  /** Two schedules of one pizzeria cover different days. */
  predicate SchedulesCompatible(a: Row<WorkSchedule>, b: Row<WorkSchedule>) {
    a.data.pizzeriaId != b.data.pizzeriaId || a.data.dayOfWeek != b.data.dayOfWeek
  }

  predicate ScheduleDaysDistinct(schedules: seq<Row<WorkSchedule>>) {
    Pairwise(schedules, SchedulesCompatible)
  }

  /** The ingredient rows whose keys a pizza (or a request) lists, in table order. */
  function IngredientsIn(ingredients: seq<Row<Ingredient>>, ids: seq<Guid>): (r: seq<Row<Ingredient>>)
    ensures forall i | i in r :: i in ingredients && i.id in ids
    ensures forall i | i in ingredients && i.id in ids :: i in r
    ensures UniqueIds(ingredients) ==> UniqueIds(r)
  {
    var keep := (i: Row<Ingredient>) => i.id in ids;
    if UniqueIds(ingredients) then FilterUniqueIds(ingredients, keep); Filter(ingredients, keep)
    else Filter(ingredients, keep)
  }

  /** The id of the account owning the brand of pizzeria `pid`, as the navigation chain
      `Pizzeria.Brand.Owner.Id` yields it; None when the pizzeria or its brand is absent. */
  function BrandOwner(pizzerias: seq<Row<Pizzeria>>, brands: seq<Row<Brand>>, pid: Guid): (r: Option<Guid>)
    ensures r.Some? ==> exists p, b :: p in pizzerias && b in brands && p.id == pid
                          && b.id == p.data.brandId && b.data.ownerId == r.value
    ensures r.None? <==> !HasId(pizzerias, pid) || !HasId(brands, pizzerias[IndexOf(pizzerias, pid).value].data.brandId)
  {
    match IndexOf(pizzerias, pid)
    case None => None
    case Some(p) =>
      match IndexOf(brands, pizzerias[p].data.brandId)
      case None => None
      case Some(b) => Some(brands[b].data.ownerId)
  }

  /** `Address?.City?.Name`: the name of the city of address `aid`, when both exist. */
  function CityNameOf(addresses: seq<Row<Address>>, cities: seq<Row<City>>, aid: Guid): (r: Option<string>)
    ensures r.Some? ==> exists a, c :: a in addresses && c in cities && a.id == aid
                          && c.id == a.data.cityId && c.data.name == r.value
    ensures r.None? <==> !HasId(addresses, aid) || !HasId(cities, addresses[IndexOf(addresses, aid).value].data.cityId)
  {
    match IndexOf(addresses, aid)
    case None => None
    case Some(a) =>
      match IndexOf(cities, addresses[a].data.cityId)
      case None => None
      case Some(c) => Some(cities[c].data.name)
  }

  /** The application's database context. */
  class Db {
    var accounts: seq<Row<Account>>
    var countries: seq<Row<Country>>
    var cities: seq<Row<City>>
    var addresses: seq<Row<Address>>
    var brands: seq<Row<Brand>>
    var pizzerias: seq<Row<Pizzeria>>
    var menus: seq<Row<Menu>>
    var pizzas: seq<Row<Pizza>>
    var ingredients: seq<Row<Ingredient>>
    var schedules: seq<Row<WorkSchedule>>

    /** The integrity rules every controller action preserves. */
    ghost predicate Valid()
      reads this
    {
      && UniqueIds(accounts) && UniqueIds(countries) && UniqueIds(cities) && UniqueIds(addresses)
      && UniqueIds(brands) && UniqueIds(pizzerias) && UniqueIds(menus) && UniqueIds(pizzas)
      && UniqueIds(ingredients) && UniqueIds(schedules)
      && EmailsUnique(accounts)
      && CountriesDistinct(countries)
      && IngredientNamesDistinct(ingredients)
      && BrandNamesDistinct(brands) && BrandOwnersExist(brands, accounts)
      && MenusOfPizzerias(menus, pizzerias) && AtMostOneActiveMenu(menus)
      && PizzasOfMenus(pizzas, menus) && PizzaNamesDistinct(pizzas) && PizzaDimensionsConsistent(pizzas)
      && SchedulesOfPizzerias(schedules, pizzerias) && SchedulesOrdered(schedules)
      && AddressesOfCities(addresses, cities) && CitiesOfCountries(cities, countries)
      && ScheduleDaysDistinct(schedules)
    }

    /** An empty database. */
    constructor ()
      ensures Valid()
      ensures accounts == [] && countries == [] && cities == [] && addresses == []
      ensures brands == [] && pizzerias == [] && menus == [] && pizzas == []
      ensures ingredients == [] && schedules == []
    {
      accounts, countries, cities, addresses := [], [], [], [];
      brands, pizzerias, menus, pizzas := [], [], [], [];
      ingredients, schedules := [], [];
    }
  }
}
