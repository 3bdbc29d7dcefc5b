/** Pizzerias: creation together with their address, city and first menu, and the details view. */
module PizzeriaController {
  import opened Common
  import opened Text
  import opened Tables
  import opened Entities
  import opened Store

  datatype CreatePizzeriaRequest = CreatePizzeriaRequest(
    brandId: Guid,
    name: string,
    phoneNumber: string,
    deliveryCost: real,
    minOrderAmount: real,
    serviceFee: real,
    averagePreparationTimeMinutes: int,
    maxDeliveryRange: real,
    street: string,
    buildingNumber: string,
    apartmentNumber: Option<string>,
    zipCode: string,
    cityName: string,
    region: string)

  /** Keys the database would generate for the new rows. */
  datatype NewKeys = NewKeys(pizzeria: Guid, address: Guid, city: Guid, menu: Guid)

  datatype PizzeriaAddress = PizzeriaAddress(street: string, city: string, fullAddress: string)

  datatype PizzeriaDetails = PizzeriaDetails(
    id: Guid,
    name: string,
    brandName: string,
    phoneNumber: string,
    deliveryCost: real,
    minOrderAmount: real,
    serviceFee: real,
    averagePreparationTimeMinutes: int,
    isOpen: bool,
    activeMenuId: Option<Guid>,
    address: PizzeriaAddress)

  /** The first city called exactly `name`, in table order. */
  function CityNamed(cities: seq<Row<City>>, name: string): (r: Option<nat>)
    ensures r.Some? ==> r.value < |cities| && cities[r.value].data.name == name
    ensures r.None? <==> forall c | c in cities :: c.data.name != name
  {
    FirstIndex(cities, (c: Row<City>) => c.data.name == name)
  }

  /** The name of the menu created with a pizzeria. */
  function FirstMenuName(pizzeriaName: string): (r: string)
    ensures |r| == 5 + |pizzeriaName| && r[5..] == pizzeriaName
  {
    "Menu " + pizzeriaName
  }

  /** The owner of a brand, when the brand exists. */
  function OwnerOfBrand(brands: seq<Row<Brand>>, brandId: Guid): (r: Option<Guid>)
    ensures r.None? <==> !HasId(brands, brandId)
    ensures r.Some? ==> exists b :: b in brands && b.id == brandId && b.data.ownerId == r.value
  {
    match IndexOf(brands, brandId)
    case None => None
    case Some(b) => Some(brands[b].data.ownerId)
  }

  /** The key of the city the new address refers to: the first city of that exact name, else the new one. */
  function CityKey(cities: seq<Row<City>>, name: string, newCity: Guid): (r: Guid)
    ensures CityNamed(cities, name).None? ==> r == newCity
    ensures CityNamed(cities, name).Some? ==> exists c :: c in cities && c.id == r && c.data.name == name
  {
    match CityNamed(cities, name)
    case None => newCity
    case Some(k) => cities[k].id
  }

  /** Adding a pizzeria together with a menu of its own keeps the invariants that refer to pizzerias and menus. */
  lemma AddPizzeriaWithMenu(db: Db, pizzeria: Row<Pizzeria>, menu: Row<Menu>)
    requires MenusOfPizzerias(db.menus, db.pizzerias) && AtMostOneActiveMenu(db.menus)
    requires SchedulesOfPizzerias(db.schedules, db.pizzerias) && PizzasOfMenus(db.pizzas, db.menus)
    requires !HasId(db.pizzerias, pizzeria.id) && menu.data.pizzeriaId == pizzeria.id
    ensures MenusOfPizzerias(db.menus + [menu], db.pizzerias + [pizzeria])
    ensures AtMostOneActiveMenu(db.menus + [menu])
    ensures SchedulesOfPizzerias(db.schedules, db.pizzerias + [pizzeria])
    ensures PizzasOfMenus(db.pizzas, db.menus + [menu])
  {
    forall k | 0 <= k < |db.menus| ensures NotBothActive(db.menus[k], menu) {
      assert db.menus[k] in db.menus;
    }
    PairwiseAppend(db.menus, menu, NotBothActive);
    HasIdAppend(db.pizzerias, pizzeria);
    HasIdAppend(db.menus, menu);
    assert (db.pizzerias + [pizzeria])[|db.pizzerias|].id == pizzeria.id;
  }

  /** Appends a city of a stored country under a fresh key. */
  method AppendCity(db: Db, city: Row<City>)
    requires db.Valid() && !HasId(db.cities, city.id) && HasId(db.countries, city.data.countryId)
    modifies db`cities
    ensures db.Valid()
    ensures db.cities == old(db.cities) + [city]
  {
    UniqueIdsAppend(db.cities, city);
    HasIdAppend(db.cities, city);
    db.cities := db.cities + [city];
  }

  /** Appends a pizzeria together with its address and its first menu, all under fresh keys. */
  method AppendPizzeria(db: Db, address: Row<Address>, menu: Row<Menu>, pizzeria: Row<Pizzeria>)
    requires db.Valid()
    requires !HasId(db.addresses, address.id) && !HasId(db.menus, menu.id) && !HasId(db.pizzerias, pizzeria.id)
    requires menu.data.pizzeriaId == pizzeria.id && HasId(db.cities, address.data.cityId)
    modifies db`addresses, db`menus, db`pizzerias
    ensures db.Valid()
    ensures db.addresses == old(db.addresses) + [address]
    ensures db.menus == old(db.menus) + [menu]
    ensures db.pizzerias == old(db.pizzerias) + [pizzeria]
  {
    UniqueIdsAppend(db.addresses, address);
    AddPizzeriaWithMenu(db, pizzeria, menu);
    UniqueIdsAppend(db.pizzerias, pizzeria);
    UniqueIdsAppend(db.menus, menu);
    db.addresses := db.addresses + [address];
    db.pizzerias := db.pizzerias + [pizzeria];
    db.menus := db.menus + [menu];
  }

  /** POST api/Pizzeria: a pizzeria of a brand the caller owns, with a new address in the first
      city of that exact name (or a new city), and one active menu. A new city is given no
      country, so saving it breaks the city's required country reference unless some country
      has the empty key; the whole save then fails and nothing is stored. */
  method CreatePizzeria(db: Db, user: Option<Guid>, req: CreatePizzeriaRequest, keys: NewKeys)
    returns (r: Response<string>)
    requires db.Valid()
    requires !HasId(db.pizzerias, keys.pizzeria) && !HasId(db.addresses, keys.address)
    requires !HasId(db.cities, keys.city) && !HasId(db.menus, keys.menu)
    modifies db`cities, db`addresses, db`menus, db`pizzerias
    ensures db.Valid()
    ensures !HasId(db.brands, req.brandId) || OwnerOfBrand(db.brands, req.brandId) != user ==>
      && r == (if !HasId(db.brands, req.brandId) then BadRequest(BrandMissing) else Forbid)
      && db.cities == old(db.cities) && db.addresses == old(db.addresses)
      && db.menus == old(db.menus) && db.pizzerias == old(db.pizzerias)
    ensures HasId(db.brands, req.brandId) && OwnerOfBrand(db.brands, req.brandId) == user
            && CityNamed(old(db.cities), req.cityName).None? && !HasId(db.countries, EmptyGuid) ==>
      && r == ServerError
      && db.cities == old(db.cities) && db.addresses == old(db.addresses)
      && db.menus == old(db.menus) && db.pizzerias == old(db.pizzerias)
    ensures HasId(db.brands, req.brandId) && OwnerOfBrand(db.brands, req.brandId) == user
            && (CityNamed(old(db.cities), req.cityName).Some? || HasId(db.countries, EmptyGuid)) ==>
      && r == Created(keys.pizzeria, req.name)
      && db.cities == old(db.cities) + (if CityNamed(old(db.cities), req.cityName).Some? then []
                                        else [Row(keys.city, City(req.cityName, req.region, EmptyGuid))])
      && db.addresses == old(db.addresses) + [Row(keys.address, Address(req.street, req.buildingNumber,
           req.apartmentNumber, req.zipCode, 0.0, 0.0, CityKey(old(db.cities), req.cityName, keys.city)))]
      && db.menus == old(db.menus) + [Row(keys.menu, Menu(FirstMenuName(req.name), None, true, keys.pizzeria))]
      && db.pizzerias == old(db.pizzerias) + [Row(keys.pizzeria, Pizzeria(req.name, req.phoneNumber, req.minOrderAmount,
           req.deliveryCost, req.serviceFee, req.averagePreparationTimeMinutes, req.maxDeliveryRange, req.brandId, keys.address))]
  {
    var b := IndexOf(db.brands, req.brandId);
    if b.None? {
      return BadRequest(BrandMissing);
    }
    if Some(db.brands[b.value].data.ownerId) != user {
      return Forbid;
    }
    // A new city keeps the empty country key, which the save accepts only if a country has it.
    if CityNamed(db.cities, req.cityName).None? && !HasId(db.countries, EmptyGuid) {
      return ServerError;
    }
    StorePizzeria(db, req, keys);
    return Created(keys.pizzeria, req.name);
  }

  /** Saves the city (when none has the requested name), the address, the pizzeria and its first menu. */
  method StorePizzeria(db: Db, req: CreatePizzeriaRequest, keys: NewKeys)
    requires db.Valid()
    requires !HasId(db.pizzerias, keys.pizzeria) && !HasId(db.addresses, keys.address)
    requires !HasId(db.cities, keys.city) && !HasId(db.menus, keys.menu)
    requires CityNamed(db.cities, req.cityName).None? ==> HasId(db.countries, EmptyGuid)
    modifies db`cities, db`addresses, db`menus, db`pizzerias
    ensures db.Valid()
    ensures db.cities == old(db.cities) + (if CityNamed(old(db.cities), req.cityName).Some? then []
                                           else [Row(keys.city, City(req.cityName, req.region, EmptyGuid))])
    ensures db.addresses == old(db.addresses) + [Row(keys.address, Address(req.street, req.buildingNumber,
              req.apartmentNumber, req.zipCode, 0.0, 0.0, CityKey(old(db.cities), req.cityName, keys.city)))]
    ensures db.menus == old(db.menus) + [Row(keys.menu, Menu(FirstMenuName(req.name), None, true, keys.pizzeria))]
    ensures db.pizzerias == old(db.pizzerias) + [Row(keys.pizzeria, Pizzeria(req.name, req.phoneNumber, req.minOrderAmount,
              req.deliveryCost, req.serviceFee, req.averagePreparationTimeMinutes, req.maxDeliveryRange, req.brandId,
              keys.address))]
  {
    var cityId := CityKey(db.cities, req.cityName, keys.city);
    if CityNamed(db.cities, req.cityName).None? {
      var city := Row(keys.city, City(req.cityName, req.region, EmptyGuid));
      AppendCity(db, city);
      assert db.cities[|db.cities| - 1] == city;
    } else {
      var c :| c in db.cities && c.id == cityId && c.data.name == req.cityName;
    }
    assert HasId(db.cities, cityId);
    var address := Row(keys.address, Address(req.street, req.buildingNumber, req.apartmentNumber,
                                              req.zipCode, 0.0, 0.0, cityId));
    var menu := Row(keys.menu, Menu(FirstMenuName(req.name), None, true, keys.pizzeria));
    var pizzeria := Row(keys.pizzeria, Pizzeria(req.name, req.phoneNumber, req.minOrderAmount, req.deliveryCost,
                                                req.serviceFee, req.averagePreparationTimeMinutes,
                                                req.maxDeliveryRange, req.brandId, keys.address));
    AppendPizzeria(db, address, menu, pizzeria);
  }

  /** `Menus.FirstOrDefault(m => m.IsActive)?.Id` over the pizzeria's menus. */
  function ActiveMenuId(menus: seq<Row<Menu>>, pizzeriaId: Guid): (r: Option<Guid>)
    ensures r.None? <==> forall m | m in menus :: !(m.data.pizzeriaId == pizzeriaId && m.data.isActive)
    ensures r.Some? ==> exists m :: m in menus && m.id == r.value && m.data.pizzeriaId == pizzeriaId && m.data.isActive
  {
    match FirstIndex(menus, (m: Row<Menu>) => m.data.pizzeriaId == pizzeriaId && m.data.isActive)
    case None => None
    case Some(k) => Some(menus[k].id)
  }

  /** With at most one active menu per pizzeria, the active menu id names that menu. */
  lemma {:induction false} ActiveMenuIdIsTheActiveMenu(menus: seq<Row<Menu>>, pizzeriaId: Guid, k: nat)
    requires AtMostOneActiveMenu(menus) && k < |menus|
    requires menus[k].data.pizzeriaId == pizzeriaId && menus[k].data.isActive
    ensures ActiveMenuId(menus, pizzeriaId) == Some(menus[k].id)
  {
    var f := FirstIndex(menus, (m: Row<Menu>) => m.data.pizzeriaId == pizzeriaId && m.data.isActive);
    assert f.Some?;
    var j := f.value;
    assert j <= k;
    assert j == k || NotBothActive(menus[j], menus[k]);
  }

  /** The menu created with a pizzeria is the one its details view reports as active. */
  lemma CreatedMenuIsActiveMenu(menus: seq<Row<Menu>>, pizzerias: seq<Row<Pizzeria>>, menu: Row<Menu>)
    requires MenusOfPizzerias(menus, pizzerias) && !HasId(pizzerias, menu.data.pizzeriaId) && menu.data.isActive
    ensures ActiveMenuId(menus + [menu], menu.data.pizzeriaId) == Some(menu.id)
  {
    var all := menus + [menu];
    assert all[|menus|] == menu;
    forall m | m in menus ensures m.data.pizzeriaId != menu.data.pizzeriaId {
      assert HasId(pizzerias, m.data.pizzeriaId);
    }
  }

  /** The ownership check of POST api/Pizzeria as written: `FindAsync` loads the brand without
      its `Owner` navigation, so `brand.Owner.Id` dereferences null once the brand is found. */
  function CreatePizzeriaCheckAsWritten(brands: seq<Row<Brand>>, brandId: Guid): (r: Response<string>)
    ensures r == BadRequest(BrandMissing) <==> !HasId(brands, brandId)
    ensures !r.Created? && r != Forbid
  {
    if !HasId(brands, brandId) then BadRequest(BrandMissing) else ServerError
  }

  /** As written, the brand's own owner cannot open a pizzeria, while the intended action
      only needs the caller to be the brand's owner. */
  lemma OwnerCannotCreatePizzeriaAsWritten(owner: Guid, brandId: Guid)
    ensures var brands := [Row(brandId, Brand("Roma", None, owner))];
      && CreatePizzeriaCheckAsWritten(brands, brandId) == ServerError
      && OwnerOfBrand(brands, brandId) == Some(owner)
  {
    var brands := [Row(brandId, Brand("Roma", None, owner))];
    assert brands[0].id == brandId;
  }

  /** The one-line address: street and building number, "/" and the apartment number when it
      is non-empty, then ", ", the zip code, a space and the city name (empty when unknown). */
  function FullAddress(a: Address, city: Option<string>): (r: string)
    ensures var head := a.street + " " + a.buildingNumber;
      var tail := ", " + a.zipCode + " " + city.GetOr("");
      && |r| == |head| + |tail| + (if IsNullOrEmpty(a.apartmentNumber) then 0 else 1 + |a.apartmentNumber.value|)
      && r[..|head|] == head
      && r[|r| - |tail|..] == tail
      && (!IsNullOrEmpty(a.apartmentNumber) ==> r[|head|] == '/' && r[|head| + 1..|r| - |tail|] == a.apartmentNumber.value)
  {
    var head := a.street + " " + a.buildingNumber;
    var apartment := if IsNullOrEmpty(a.apartmentNumber) then "" else "/" + a.apartmentNumber.value;
    var tail := ", " + a.zipCode + " " + city.GetOr("");
    var r := head + apartment + tail;
    assert r[..|head|] == head;
    assert r[|r| - |tail|..] == tail;
    assert r[|head|..|r| - |tail|] == apartment;
    r
  }

  /** GET api/Pizzeria/{id}: the details view. A pizzeria whose address row is missing makes
      the address dereference fail. */
  function GetPizzeria(pizzerias: seq<Row<Pizzeria>>, brands: seq<Row<Brand>>, menus: seq<Row<Menu>>,
                       addresses: seq<Row<Address>>, cities: seq<Row<City>>, id: Guid): (r: Response<PizzeriaDetails>)
    ensures r.NotFound? <==> !HasId(pizzerias, id)
    ensures r.Ok? || r.NotFound? || r.ServerError?
    ensures r.ServerError? <==>
              && IndexOf(pizzerias, id).Some?
              && !HasId(addresses, pizzerias[IndexOf(pizzerias, id).value].data.addressId)
    ensures r.Ok? ==>
      var p := pizzerias[IndexOf(pizzerias, id).value];
      && r.value.id == id && r.value.name == p.data.name && r.value.isOpen
      && r.value.activeMenuId == ActiveMenuId(menus, id)
      && r.value.brandName == (if HasId(brands, p.data.brandId) then brands[IndexOf(brands, p.data.brandId).value].data.name
                               else "Nieznana marka")
      && r.value.phoneNumber == p.data.phoneNumber && r.value.deliveryCost == p.data.deliveryCost
      && r.value.minOrderAmount == p.data.minOrderAmount && r.value.serviceFee == p.data.serviceFee
      && r.value.averagePreparationTimeMinutes == p.data.averagePreparationTimeMinutes
      && r.value.address.city == CityNameOf(addresses, cities, p.data.addressId).GetOr("Nieznane")
    ensures r.Ok? ==>
      var p := pizzerias[IndexOf(pizzerias, id).value];
      var a := addresses[IndexOf(addresses, p.data.addressId).value].data;
      && r.value.address.street == a.street
      && r.value.address.fullAddress == FullAddress(a, CityNameOf(addresses, cities, p.data.addressId))
  {
    match IndexOf(pizzerias, id)
    case None => NotFound
    case Some(i) =>
      var p := pizzerias[i];
      var brandName := match IndexOf(brands, p.data.brandId)
        case None => "Nieznana marka"
        case Some(b) => brands[b].data.name;
      match IndexOf(addresses, p.data.addressId)
      case None => ServerError
      case Some(a) =>
        var address := addresses[a].data;
        var city := CityNameOf(addresses, cities, p.data.addressId);
        Ok(PizzeriaDetails(p.id, p.data.name, brandName, p.data.phoneNumber, p.data.deliveryCost,
                           p.data.minOrderAmount, p.data.serviceFee, p.data.averagePreparationTimeMinutes, true,
                           ActiveMenuId(menus, id),
                           PizzeriaAddress(address.street, city.GetOr("Nieznane"), FullAddress(address, city))))
  }
}
