/** Brands: created by registered owners under a unique name, deleted only by their owner. */
module BrandController {
  import opened Common
  import opened Tables
  import opened Entities
  import opened Store

  datatype BrandDto = BrandDto(id: Guid, name: string)

  datatype PizzeriaSimple = PizzeriaSimple(id: Guid, name: string, city: string)

  datatype BrandDetails = BrandDetails(id: Guid, name: string, logo: Option<string>, pizzerias: seq<PizzeriaSimple>)

  /** The label shown for a pizzeria's city: its name, or "Nieznane" without address or city. */
  function CityLabel(addresses: seq<Row<Address>>, cities: seq<Row<City>>, p: Row<Pizzeria>): string {
    CityNameOf(addresses, cities, p.data.addressId).GetOr("Nieznane")
  }

  /** GET api/Brand/GetAll: id and name of every brand, in table order. */
  function GetBrands(brands: seq<Row<Brand>>): (r: seq<BrandDto>)
    ensures |r| == |brands|
    ensures forall k :: 0 <= k < |r| ==> r[k].id == brands[k].id && r[k].name == brands[k].data.name
  {
    Select(brands, (b: Row<Brand>) => BrandDto(b.id, b.data.name))
  }

  /** GET api/Brand/{id}: the brand with its pizzerias and their cities. */
  function GetBrand(brands: seq<Row<Brand>>, pizzerias: seq<Row<Pizzeria>>, addresses: seq<Row<Address>>,
                    cities: seq<Row<City>>, id: Guid): (r: Response<BrandDetails>)
    ensures r.NotFound? <==> !HasId(brands, id)
    ensures r.Ok? || r.NotFound?
    ensures r.Ok? ==>
      r.value.id == id && exists b :: b in brands && b.id == id && b.data.name == r.value.name && b.data.logo == r.value.logo
    ensures r.Ok? ==> r.value.pizzerias == PizzeriasOfBrand(pizzerias, addresses, cities, id)
  {
    match IndexOf(brands, id)
    case None => NotFound
    case Some(i) =>
      Ok(BrandDetails(id, brands[i].data.name, brands[i].data.logo, PizzeriasOfBrand(pizzerias, addresses, cities, id)))
  }

  /** The pizzerias of brand `id`, each with the name of its city, in table order. */
  function PizzeriasOfBrand(pizzerias: seq<Row<Pizzeria>>, addresses: seq<Row<Address>>,
                            cities: seq<Row<City>>, id: Guid): (r: seq<PizzeriaSimple>)
    ensures |r| == |Filter(pizzerias, OfBrand(id))|
    ensures forall k :: 0 <= k < |r| ==>
      var p := Filter(pizzerias, OfBrand(id))[k];
      && p in pizzerias && p.id == r[k].id && p.data.brandId == id && r[k].name == p.data.name
      && (CityNameOf(addresses, cities, p.data.addressId).None? ==> r[k].city == "Nieznane")
      && (CityNameOf(addresses, cities, p.data.addressId).Some? ==>
            r[k].city == CityNameOf(addresses, cities, p.data.addressId).value)
    ensures forall p | p in pizzerias && p.data.brandId == id :: exists k :: 0 <= k < |r| && r[k].id == p.id
  {
    var own := Filter(pizzerias, OfBrand(id));
    var r := Select(own, SimpleOf(addresses, cities));
    BrandPizzeriasListed(pizzerias, addresses, cities, id, own, r);
    r
  }

  function SimpleOf(addresses: seq<Row<Address>>, cities: seq<Row<City>>): Row<Pizzeria> -> PizzeriaSimple {
    (p: Row<Pizzeria>) => PizzeriaSimple(p.id, p.data.name, CityLabel(addresses, cities, p))
  }

  /** The entries built from the brand's pizzerias show exactly those pizzerias with their city labels. */
  lemma {:induction false} BrandPizzeriasListed(pizzerias: seq<Row<Pizzeria>>, addresses: seq<Row<Address>>,
                                                cities: seq<Row<City>>, id: Guid, own: seq<Row<Pizzeria>>,
                                                r: seq<PizzeriaSimple>)
    requires forall i :: 0 <= i < |own| ==> own[i] in pizzerias && OfBrand(id)(own[i])
    requires forall i :: 0 <= i < |pizzerias| && OfBrand(id)(pizzerias[i]) ==> pizzerias[i] in own
    requires |r| == |own| && forall k :: 0 <= k < |own| ==> r[k] == SimpleOf(addresses, cities)(own[k])
    ensures forall k :: 0 <= k < |r| ==>
      var p := own[k];
      && p in pizzerias && p.id == r[k].id && p.data.brandId == id && r[k].name == p.data.name
      && (CityNameOf(addresses, cities, p.data.addressId).None? ==> r[k].city == "Nieznane")
      && (CityNameOf(addresses, cities, p.data.addressId).Some? ==>
            r[k].city == CityNameOf(addresses, cities, p.data.addressId).value)
    ensures forall p | p in pizzerias && p.data.brandId == id :: exists k :: 0 <= k < |r| && r[k].id == p.id
  {
    forall k | 0 <= k < |r|
      ensures own[k] in pizzerias && own[k].data.brandId == id
      ensures r[k] == PizzeriaSimple(own[k].id, own[k].data.name, CityLabel(addresses, cities, own[k]))
    {
      assert OfBrand(id)(own[k]);
    }
    forall p | p in pizzerias && p.data.brandId == id
      ensures exists k :: 0 <= k < |r| && r[k].id == p.id
    {
      var i :| 0 <= i < |pizzerias| && pizzerias[i] == p;
      assert OfBrand(id)(pizzerias[i]);
      var k :| 0 <= k < |own| && own[k] == p;
      assert r[k].id == p.id;
    }
  }

  function OfBrand(id: Guid): Row<Pizzeria> -> bool {
    (p: Row<Pizzeria>) => p.data.brandId == id
  }

  /** POST api/Brand: a new brand owned by the calling owner account. */
  method CreateBrand(db: Db, user: Option<Guid>, name: string, logo: Option<string>, newId: Guid)
    returns (r: Response<BrandDto>)
    requires db.Valid() && !HasId(db.brands, newId)
    modifies db`brands
    ensures db.Valid()
    ensures user.None? ==> r == Unauthorized && db.brands == old(db.brands)
    ensures user.Some? ==>
      if !IsOwnerAccount(db.accounts, user.value) then
        r == BadRequest(OwnerMissing) && db.brands == old(db.brands)
      else if exists b | b in old(db.brands) :: b.data.name == name then
        r == Conflict && db.brands == old(db.brands)
      else
        && r == Created(newId, BrandDto(newId, name))
        && db.brands == old(db.brands) + [Row(newId, Brand(name, logo, user.value))]
  {
    if user.None? {
      return Unauthorized;
    }
    if !IsOwnerAccount(db.accounts, user.value) {
      return BadRequest(OwnerMissing);
    }
    if exists b | b in db.brands :: b.data.name == name {
      return Conflict;
    }
    var row := Row(newId, Brand(name, logo, user.value));
    PairwiseAppend(db.brands, row, BrandNamesDiffer);
    db.brands := db.brands + [row];
    return Created(newId, BrandDto(newId, name));
  }

  /** DELETE api/Brand/{id}, as intended: only the brand's owner may remove it. */
  method DeleteBrand(db: Db, user: Option<Guid>, id: Guid) returns (r: Response<()>)
    requires db.Valid()
    modifies db`brands
    ensures db.Valid()
    ensures user.None? ==> r == Unauthorized && db.brands == old(db.brands)
    ensures user.Some? && !HasId(old(db.brands), id) ==> r == NotFound && db.brands == old(db.brands)
    ensures user.Some? && HasId(old(db.brands), id) ==>
      var i := IndexOf(old(db.brands), id).value;
      if old(db.brands)[i].data.ownerId != user.value then
        r == Forbid && db.brands == old(db.brands)
      else
        r == NoContent && db.brands == RemoveAt(old(db.brands), i) && !HasId(db.brands, id)
  {
    if user.None? {
      return Unauthorized;
    }
    var found := IndexOf(db.brands, id);
    if found.None? {
      return NotFound;
    }
    var i := found.value;
    if db.brands[i].data.ownerId != user.value {
      return Forbid;
    }
    RemoveAtExactly(db.brands, i);
    PairwiseRemoveAt(db.brands, i, BrandNamesDiffer);
    db.brands := RemoveAt(db.brands, i);
    return NoContent;
  }

  /** DELETE api/Brand/{id} as written: `FindAsync` loads the brand without its `Owner`
      navigation, so `brand.Owner!.Id` dereferences null once the brand is found. */
  function DeleteBrandAsWritten(brands: seq<Row<Brand>>, user: Option<Guid>, id: Guid): (r: Response<()>)
    ensures user.None? ==> r == Unauthorized
    ensures user.Some? ==> (r == NotFound <==> !HasId(brands, id))
    ensures r != NoContent && r != Forbid
  {
    if user.None? then Unauthorized
    else if !HasId(brands, id) then NotFound
    else ServerError
  }

  /** The brand's own owner cannot delete it as written, while the intended action removes it. */
  lemma OwnerCannotDeleteAsWritten(owner: Guid, id: Guid)
    ensures var brands := [Row(id, Brand("Roma", None, owner))];
      && DeleteBrandAsWritten(brands, Some(owner), id) == ServerError
      && brands[0].data.ownerId == owner
  {
    assert HasId([Row(id, Brand("Roma", None, owner))], id);
  }
}
