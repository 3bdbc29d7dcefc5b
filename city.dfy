/** Cities: each belongs to an existing country, names are unique within a country ignoring
    case, and no deletion while an address refers to the city. */
module CityController {
  import opened Common
  import opened Text
  import opened Tables
  import opened Entities
  import opened Store

  datatype CityDto = CityDto(id: Guid, name: string, region: string, countryId: Guid, countryName: Option<string>)

  /** `Country?.Name` for the country with key `countryId`. */
  function CountryName(countries: seq<Row<Country>>, countryId: Guid): (r: Option<string>)
    ensures r.Some? <==> HasId(countries, countryId)
    ensures r.Some? ==> exists c :: c in countries && c.id == countryId && c.data.name == r.value
  {
    match IndexOf(countries, countryId)
    case None => None
    case Some(i) => Some(countries[i].data.name)
  }

  function ToDto(c: Row<City>, countries: seq<Row<Country>>): CityDto {
    CityDto(c.id, c.data.name, c.data.region, c.data.countryId, CountryName(countries, c.data.countryId))
  }

  /** A city other than `except` in country `countryId` is called `name`, ignoring case. */
  predicate CityTaken(cities: seq<Row<City>>, name: string, countryId: Guid, except: Option<Guid>) {
    exists k :: 0 <= k < |cities| && Some(cities[k].id) != except
      && EqualsIgnoreCase(cities[k].data.name, name) && cities[k].data.countryId == countryId
  }

  /** POST api/City. */
  method CreateCity(db: Db, name: string, region: string, countryId: Guid, newId: Guid)
    returns (r: Response<CityDto>)
    requires db.Valid() && !HasId(db.cities, newId)
    modifies db`cities
    ensures db.Valid()
    ensures old(CityNamesDistinct(db.cities)) ==> CityNamesDistinct(db.cities)
    ensures
      if !HasId(db.countries, countryId) then
        r == BadRequest(CountryMissing) && db.cities == old(db.cities)
      else if CityTaken(old(db.cities), name, countryId, None) then
        r == Conflict && db.cities == old(db.cities)
      else
        var row := Row(newId, City(name, region, countryId));
        && r == Created(newId, CityDto(newId, name, region, countryId, CountryName(db.countries, countryId)))
        && r.value.countryName.Some?
        && db.cities == old(db.cities) + [row]
  {
    if !HasId(db.countries, countryId) {
      return BadRequest(CountryMissing);
    }
    if exists k :: 0 <= k < |db.cities| && EqualsIgnoreCase(db.cities[k].data.name, name)
                   && db.cities[k].data.countryId == countryId {
      return Conflict;
    }
    var row := Row(newId, City(name, region, countryId));
    if CityNamesDistinct(db.cities) {
      PairwiseAppend(db.cities, row, CitiesCompatible);
    }
    HasIdAppend(db.cities, row);
    db.cities := db.cities + [row];
    return Created(newId, ToDto(row, db.countries));
  }

  /** PUT api/City/{id}: overwrites name, region and country. */
  method UpdateCity(db: Db, id: Guid, name: string, region: string, countryId: Guid) returns (r: Response<()>)
    requires db.Valid()
    modifies db`cities
    ensures db.Valid()
    ensures old(CityNamesDistinct(db.cities)) ==> CityNamesDistinct(db.cities)
    ensures !HasId(old(db.cities), id) ==> r == NotFound && db.cities == old(db.cities)
    ensures HasId(old(db.cities), id) ==>
      if !HasId(db.countries, countryId) then
        r == BadRequest(CountryMissing) && db.cities == old(db.cities)
      else if CityTaken(old(db.cities), name, countryId, Some(id)) then
        r == Conflict && db.cities == old(db.cities)
      else
        && r == NoContent
        && db.cities == old(db.cities)[IndexOf(old(db.cities), id).value := Row(id, City(name, region, countryId))]
  {
    var found := IndexOf(db.cities, id);
    if found.None? {
      return NotFound;
    }
    if !HasId(db.countries, countryId) {
      return BadRequest(CountryMissing);
    }
    if exists k :: 0 <= k < |db.cities| && db.cities[k].id != id && EqualsIgnoreCase(db.cities[k].data.name, name)
                   && db.cities[k].data.countryId == countryId {
      return Conflict;
    }
    ReplaceCity(db, found.value, Row(id, City(name, region, countryId)));
    return NoContent;
  }

  /** Overwrites the city at index `i` with a row under the same key, in a stored country and
      with a name no other city of that country uses. */
  method ReplaceCity(db: Db, i: nat, row: Row<City>)
    requires db.Valid() && i < |db.cities| && db.cities[i].id == row.id
    requires HasId(db.countries, row.data.countryId)
    requires !CityTaken(db.cities, row.data.name, row.data.countryId, Some(row.id))
    modifies db`cities
    ensures db.Valid()
    ensures old(CityNamesDistinct(db.cities)) ==> CityNamesDistinct(db.cities)
    ensures db.cities == old(db.cities)[i := row]
  {
    if CityNamesDistinct(db.cities) {
      PairwiseUpdate(db.cities, i, row, CitiesCompatible);
    }
    HasIdUpdate(db.cities, i, row);
    db.cities := db.cities[i := row];
  }

  /** DELETE api/City/{id}: refused while an address refers to the city. */
  method DeleteCity(db: Db, id: Guid) returns (r: Response<()>)
    requires db.Valid()
    modifies db`cities
    ensures db.Valid()
    ensures old(CityNamesDistinct(db.cities)) ==> CityNamesDistinct(db.cities)
    ensures !HasId(old(db.cities), id) ==> r == NotFound && db.cities == old(db.cities)
    ensures HasId(old(db.cities), id) ==>
      if exists a | a in db.addresses :: a.data.cityId == id then
        r == BadRequest(CityHasAddresses) && db.cities == old(db.cities)
      else
        r == NoContent && db.cities == RemoveAt(old(db.cities), IndexOf(old(db.cities), id).value)
  {
    var found := IndexOf(db.cities, id);
    if found.None? {
      return NotFound;
    }
    if exists a | a in db.addresses :: a.data.cityId == id {
      return BadRequest(CityHasAddresses);
    }
    var i := found.value;
    RemoveAtExactly(db.cities, i);
    if CityNamesDistinct(db.cities) {
      PairwiseRemoveAt(db.cities, i, CitiesCompatible);
    }
    db.cities := RemoveAt(db.cities, i);
    return NoContent;
  }

  /** GET api/City/{id}: the city with its country's name, when the country row exists. */
  function GetCity(cities: seq<Row<City>>, countries: seq<Row<Country>>, id: Guid): (r: Response<CityDto>)
    ensures r.NotFound? <==> !HasId(cities, id)
    ensures r.Ok? || r.NotFound?
    ensures r.Ok? ==>
      && r.value.id == id
      && Row(id, City(r.value.name, r.value.region, r.value.countryId)) in cities
      && r.value.countryName == CountryName(countries, r.value.countryId)
  {
    match IndexOf(cities, id)
    case None => NotFound
    case Some(i) => Ok(ToDto(cities[i], countries))
  }

  /** GET api/City/GetAll: every city, in table order. */
  function GetCities(cities: seq<Row<City>>, countries: seq<Row<Country>>): (r: seq<CityDto>)
    ensures |r| == |cities|
    ensures forall k :: 0 <= k < |r| ==>
      && Row(r[k].id, City(r[k].name, r[k].region, r[k].countryId)) == cities[k]
      && r[k].countryName == CountryName(countries, r[k].countryId)
  {
    Select(cities, DtoOf(countries))
  }

  /** GET api/City/GetByCountry/{countryId}: exactly the cities of that country, in table order. */
  function GetCitiesByCountry(cities: seq<Row<City>>, countries: seq<Row<Country>>, countryId: Guid)
    : (r: seq<CityDto>)
    ensures forall k :: 0 <= k < |r| ==>
      r[k].countryId == countryId && Row(r[k].id, City(r[k].name, r[k].region, r[k].countryId)) in cities
    ensures forall c | c in cities && c.data.countryId == countryId :: exists k :: 0 <= k < |r| && r[k].id == c.id
    ensures forall k :: 0 <= k < |r| ==> r[k].countryName == CountryName(countries, countryId)
    ensures |r| == |Filter(cities, InCountry(countryId))|
  {
    var own := Filter(cities, InCountry(countryId));
    var r := Select(own, DtoOf(countries));
    CitiesOfCountry(cities, countries, own, r, countryId);
    r
  }

  /** The DTOs of the filtered cities are exactly the cities of the country. */
  lemma {:induction false} CitiesOfCountry(cities: seq<Row<City>>, countries: seq<Row<Country>>, own: seq<Row<City>>,
                                           r: seq<CityDto>, countryId: Guid)
    requires forall i :: 0 <= i < |own| ==> own[i] in cities && InCountry(countryId)(own[i])
    requires forall i :: 0 <= i < |cities| && InCountry(countryId)(cities[i]) ==> cities[i] in own
    requires |r| == |own| && forall k :: 0 <= k < |own| ==> r[k] == DtoOf(countries)(own[k])
    ensures forall k :: 0 <= k < |r| ==>
      r[k].countryId == countryId && Row(r[k].id, City(r[k].name, r[k].region, r[k].countryId)) in cities
    ensures forall c | c in cities && c.data.countryId == countryId :: exists k :: 0 <= k < |r| && r[k].id == c.id
    ensures forall k :: 0 <= k < |r| ==> r[k].countryName == CountryName(countries, countryId)
  {
    forall k | 0 <= k < |r|
      ensures r[k].countryId == countryId && Row(r[k].id, City(r[k].name, r[k].region, r[k].countryId)) in cities
      ensures r[k].countryName == CountryName(countries, countryId)
    {
      assert InCountry(countryId)(own[k]);
      assert Row(r[k].id, City(r[k].name, r[k].region, r[k].countryId)) == own[k];
    }
    forall c | c in cities && c.data.countryId == countryId
      ensures exists k :: 0 <= k < |r| && r[k].id == c.id
    {
      var i :| 0 <= i < |cities| && cities[i] == c;
      assert InCountry(countryId)(cities[i]);
      var k :| 0 <= k < |own| && own[k] == c;
      assert r[k].id == c.id;
    }
  }

  function DtoOf(countries: seq<Row<Country>>): Row<City> -> CityDto {
    (c: Row<City>) => ToDto(c, countries)
  }

  function InCountry(countryId: Guid): Row<City> -> bool {
    (c: Row<City>) => c.data.countryId == countryId
  }
}
