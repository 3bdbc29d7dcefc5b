/** Addresses: created only in an existing city, overwritten field by field on update. */
module AddressController {
  import opened Common
  import opened Tables
  import opened Entities
  import opened Store

  /** An address together with its city, loaded alongside it; `city` is None when no
      city row has the address's city key. */
  datatype AddressWithCity = AddressWithCity(address: Row<Address>, city: Option<Row<City>>)

  /** GET api/Address/{id}: the address with its city included. */
  function GetAddress(addresses: seq<Row<Address>>, cities: seq<Row<City>>, id: Guid): (r: Response<AddressWithCity>)
    ensures r.NotFound? <==> !HasId(addresses, id)
    ensures r.Ok? || r.NotFound?
    ensures r.Ok? ==> r.value.address in addresses && r.value.address.id == id
    ensures r.Ok? ==> (r.value.city.None? <==> !HasId(cities, r.value.address.data.cityId))
    ensures r.Ok? && r.value.city.Some? ==>
      r.value.city.value in cities && r.value.city.value.id == r.value.address.data.cityId
  {
    match IndexOf(addresses, id)
    case None => NotFound
    case Some(i) =>
      var city := match IndexOf(cities, addresses[i].data.cityId)
        case None => None
        case Some(j) => Some(cities[j]);
      Ok(AddressWithCity(addresses[i], city))
  }

  /** POST api/Address: stores the seven given fields when the city exists. */
  method CreateAddress(db: Db, fields: Address, newId: Guid) returns (r: Response<Row<Address>>)
    requires db.Valid() && !HasId(db.addresses, newId)
    modifies db`addresses
    ensures db.Valid()
    ensures
      if !HasId(db.cities, fields.cityId) then
        r == BadRequest(CityMissing) && db.addresses == old(db.addresses)
      else
        r == Created(newId, Row(newId, fields)) && db.addresses == old(db.addresses) + [Row(newId, fields)]
  {
    if !HasId(db.cities, fields.cityId) {
      return BadRequest(CityMissing);
    }
    db.addresses := db.addresses + [Row(newId, fields)];
    return Created(newId, Row(newId, fields));
  }

  /** PUT api/Address/{id}: overwrites all seven fields. The action does not check the city, but
      an address's city reference is required, so the save fails when no city has the given key
      and the error is not caught: the answer is a server error and nothing is stored. */
  method UpdateAddress(db: Db, id: Guid, fields: Address) returns (r: Response<()>)
    requires db.Valid()
    modifies db`addresses
    ensures db.Valid()
    ensures !HasId(old(db.addresses), id) ==> r == NotFound && db.addresses == old(db.addresses)
    ensures HasId(old(db.addresses), id) && !HasId(db.cities, fields.cityId) ==>
      r == ServerError && db.addresses == old(db.addresses)
    ensures HasId(old(db.addresses), id) && HasId(db.cities, fields.cityId) ==>
      r == NoContent && db.addresses == old(db.addresses)[IndexOf(old(db.addresses), id).value := Row(id, fields)]
  {
    var found := IndexOf(db.addresses, id);
    if found.None? {
      return NotFound;
    }
    if !HasId(db.cities, fields.cityId) {
      return ServerError;
    }
    db.addresses := db.addresses[found.value := Row(id, fields)];
    return NoContent;
  }

  /** DELETE api/Address/{id}. */
  method DeleteAddress(db: Db, id: Guid) returns (r: Response<()>)
    requires db.Valid()
    modifies db`addresses
    ensures db.Valid()
    ensures !HasId(old(db.addresses), id) ==> r == NotFound && db.addresses == old(db.addresses)
    ensures HasId(old(db.addresses), id) ==>
      && r == NoContent
      && db.addresses == RemoveAt(old(db.addresses), IndexOf(old(db.addresses), id).value)
      && !HasId(db.addresses, id)
  {
    var found := IndexOf(db.addresses, id);
    if found.None? {
      return NotFound;
    }
    RemoveAtExactly(db.addresses, found.value);
    db.addresses := RemoveAt(db.addresses, found.value);
    return NoContent;
  }
}
