/** Countries: names and ISO codes unique ignoring case, ISO codes stored upper-case, and
    no deletion while a city refers to the country. */
module CountryController {
  import opened Common
  import opened Text
  import opened Tables
  import opened Entities
  import opened Store

  datatype CountryDto = CountryDto(id: Guid, name: string, isoCode: string, phonePrefix: string)

  function ToDto(c: Row<Country>): CountryDto {
    CountryDto(c.id, c.data.name, c.data.isoCode, c.data.phonePrefix)
  }

  /** A country other than `except` matches `name` or `isoCode`, ignoring case. */
  predicate CountryTaken(countries: seq<Row<Country>>, name: string, isoCode: string, except: Option<Guid>) {
    exists k :: 0 <= k < |countries| && Some(countries[k].id) != except
      && (EqualsIgnoreCase(countries[k].data.name, name) || EqualsIgnoreCase(countries[k].data.isoCode, isoCode))
  }

  /** The stored form of a request: the ISO code upper-cased. */
  function Stored(name: string, isoCode: string, phonePrefix: string): (c: Country)
    ensures c.name == name && c.phonePrefix == phonePrefix
    ensures |c.isoCode| == |isoCode| && EqualsIgnoreCase(c.isoCode, isoCode)
    ensures forall k :: 0 <= k < |c.isoCode| ==> !('a' <= c.isoCode[k] <= 'z')
  {
    LowerOfUpper(isoCode);
    Country(name, ToUpper(isoCode), phonePrefix)
  }

  /** GET api/Country/GetAll. */
  function GetCountries(countries: seq<Row<Country>>): (r: seq<CountryDto>)
    ensures |r| == |countries|
    ensures forall k :: 0 <= k < |r| ==>
      && r[k].id == countries[k].id && r[k].name == countries[k].data.name
      && r[k].isoCode == countries[k].data.isoCode && r[k].phonePrefix == countries[k].data.phonePrefix
  {
    Select(countries, ToDto)
  }

  /** GET api/Country/{id}. */
  function GetCountry(countries: seq<Row<Country>>, id: Guid): (r: Response<CountryDto>)
    ensures r.NotFound? <==> !HasId(countries, id)
    ensures r.Ok? || r.NotFound?
    ensures r.Ok? ==>
      r.value.id == id && Row(id, Country(r.value.name, r.value.isoCode, r.value.phonePrefix)) in countries
  {
    match IndexOf(countries, id)
    case None => NotFound
    case Some(i) => Ok(ToDto(countries[i]))
  }

  /** POST api/Country. */
  method CreateCountry(db: Db, name: string, isoCode: string, phonePrefix: string, newId: Guid)
    returns (r: Response<CountryDto>)
    requires db.Valid() && !HasId(db.countries, newId)
    modifies db`countries
    ensures db.Valid()
    ensures
      if CountryTaken(old(db.countries), name, isoCode, None) then
        r == Conflict && db.countries == old(db.countries)
      else
        var row := Row(newId, Stored(name, isoCode, phonePrefix));
        r == Created(newId, ToDto(row)) && db.countries == old(db.countries) + [row]
  {
    if exists k :: 0 <= k < |db.countries|
         && (EqualsIgnoreCase(db.countries[k].data.name, name) || EqualsIgnoreCase(db.countries[k].data.isoCode, isoCode)) {
      return Conflict;
    }
    var row := Row(newId, Stored(name, isoCode, phonePrefix));
    PairwiseAppend(db.countries, row, CountriesCompatible);
    HasIdAppend(db.countries, row);
    db.countries := db.countries + [row];
    return Created(newId, ToDto(row));
  }

  /** PUT api/Country/{id}: overwrites name, ISO code and phone prefix. */
  method UpdateCountry(db: Db, id: Guid, name: string, isoCode: string, phonePrefix: string)
    returns (r: Response<()>)
    requires db.Valid()
    modifies db`countries
    ensures db.Valid()
    ensures !HasId(old(db.countries), id) ==> r == NotFound && db.countries == old(db.countries)
    ensures HasId(old(db.countries), id) ==>
      if CountryTaken(old(db.countries), name, isoCode, Some(id)) then
        r == Conflict && db.countries == old(db.countries)
      else
        && r == NoContent
        && db.countries == old(db.countries)[IndexOf(old(db.countries), id).value := Row(id, Stored(name, isoCode, phonePrefix))]
  {
    var found := IndexOf(db.countries, id);
    if found.None? {
      return NotFound;
    }
    if exists k :: 0 <= k < |db.countries| && db.countries[k].id != id
         && (EqualsIgnoreCase(db.countries[k].data.name, name) || EqualsIgnoreCase(db.countries[k].data.isoCode, isoCode)) {
      return Conflict;
    }
    var i := found.value;
    var row := Row(id, Stored(name, isoCode, phonePrefix));
    PairwiseUpdate(db.countries, i, row, CountriesCompatible);
    HasIdUpdate(db.countries, i, row);
    db.countries := db.countries[i := row];
    return NoContent;
  }

  /** DELETE api/Country/{id}: refused while a city refers to the country. */
  method DeleteCountry(db: Db, id: Guid) returns (r: Response<()>)
    requires db.Valid()
    modifies db`countries
    ensures db.Valid()
    ensures !HasId(old(db.countries), id) ==> r == NotFound && db.countries == old(db.countries)
    ensures HasId(old(db.countries), id) ==>
      if exists c | c in db.cities :: c.data.countryId == id then
        r == BadRequest(CountryHasCities) && db.countries == old(db.countries)
      else
        r == NoContent && db.countries == RemoveAt(old(db.countries), IndexOf(old(db.countries), id).value)
  {
    var found := IndexOf(db.countries, id);
    if found.None? {
      return NotFound;
    }
    if exists c | c in db.cities :: c.data.countryId == id {
      return BadRequest(CountryHasCities);
    }
    var i := found.value;
    RemoveAtExactly(db.countries, i);
    PairwiseRemoveAt(db.countries, i, CountriesCompatible);
    db.countries := RemoveAt(db.countries, i);
    return NoContent;
  }

  /** A created country is found under its new key, with its ISO code upper-cased. */
  lemma CreatedCountryIsFound(countries: seq<Row<Country>>, name: string, isoCode: string, phonePrefix: string,
                              newId: Guid)
    requires !HasId(countries, newId)
    ensures GetCountry(countries + [Row(newId, Stored(name, isoCode, phonePrefix))], newId)
            == Ok(CountryDto(newId, name, ToUpper(isoCode), phonePrefix))
  {
    IndexOfAppended(countries, Row(newId, Stored(name, isoCode, phonePrefix)));
  }

  /** Re-saving a country under its own name and ISO code never conflicts with itself. */
  lemma {:induction false} ResavingIsNoConflict(countries: seq<Row<Country>>, i: nat)
    requires UniqueIds(countries) && CountriesDistinct(countries) && i < |countries|
    ensures !CountryTaken(countries, countries[i].data.name, countries[i].data.isoCode, Some(countries[i].id))
  {
    forall k | 0 <= k < |countries| && countries[k].id != countries[i].id
      ensures !EqualsIgnoreCase(countries[k].data.name, countries[i].data.name)
      ensures !EqualsIgnoreCase(countries[k].data.isoCode, countries[i].data.isoCode)
    {
      if k < i {
        assert CountriesCompatible(countries[k], countries[i]);
      } else {
        assert CountriesCompatible(countries[i], countries[k]);
      }
    }
  }
}
