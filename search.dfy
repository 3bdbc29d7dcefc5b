/** The pizzeria search: optional city and phrase filters, and the first twenty pizzerias when neither is given. */
module SearchController {
  import opened Common
  import opened Text
  import opened Tables
  import opened Entities
  import opened Store

  datatype PizzeriaListItem = PizzeriaListItem(
    id: Guid,
    name: string,
    brandName: string,
    logoUrl: Option<string>,
    city: string,
    street: string,
    deliveryCost: real,
    averagePreparationTimeMinutes: int,
    minOrderAmount: real,
    isOpen: bool)

  /** How many pizzerias an unfiltered search returns. */
  const DefaultCount: nat := 20

  /** The brand row of a pizzeria, when it exists. */
  function BrandOf(brands: seq<Row<Brand>>, brandId: Guid): (r: Option<Brand>)
    ensures r.None? <==> !HasId(brands, brandId)
    ensures r.Some? ==> Row(brandId, r.value) in brands
  {
    match IndexOf(brands, brandId)
    case None => None
    case Some(b) => Some(brands[b].data)
  }

  /** The street of an address, when the address exists. */
  function StreetOf(addresses: seq<Row<Address>>, addressId: Guid): (r: Option<string>)
    ensures r.None? <==> !HasId(addresses, addressId)
    ensures r.Some? ==> exists a :: a in addresses && a.id == addressId && a.data.street == r.value
  {
    match IndexOf(addresses, addressId)
    case None => None
    case Some(a) => Some(addresses[a].data.street)
  }

  /** The city filter: the pizzeria has an address in a city whose name contains `city`. */
  predicate InCity(addresses: seq<Row<Address>>, cities: seq<Row<City>>, city: string, p: Row<Pizzeria>) {
    match CityNameOf(addresses, cities, p.data.addressId)
    case None => false
    case Some(name) => Contains(name, city)
  }

  /** The phrase filter: the pizzeria's name or its brand's name contains `phrase`. */
  predicate MatchesPhrase(brands: seq<Row<Brand>>, phrase: string, p: Row<Pizzeria>) {
    Contains(p.data.name, phrase)
    || (BrandOf(brands, p.data.brandId).Some? && Contains(BrandOf(brands, p.data.brandId).value.name, phrase))
  }

  function CityFilter(addresses: seq<Row<Address>>, cities: seq<Row<City>>, city: string): Row<Pizzeria> -> bool {
    (p: Row<Pizzeria>) => InCity(addresses, cities, city, p)
  }

  function PhraseFilter(brands: seq<Row<Brand>>, phrase: string): Row<Pizzeria> -> bool {
    (p: Row<Pizzeria>) => MatchesPhrase(brands, phrase, p)
  }

  /** The list item of one pizzeria, with the fallbacks for a missing brand, address or city. */
  function Item(brands: seq<Row<Brand>>, addresses: seq<Row<Address>>, cities: seq<Row<City>>, p: Row<Pizzeria>): (r: PizzeriaListItem)
    ensures r.id == p.id && r.name == p.data.name && r.isOpen
    ensures r.deliveryCost == p.data.deliveryCost && r.minOrderAmount == p.data.minOrderAmount
    ensures r.averagePreparationTimeMinutes == p.data.averagePreparationTimeMinutes
    ensures !HasId(brands, p.data.brandId) ==> r.brandName == "Lokalna Pizzeria" && r.logoUrl.None?
    ensures HasId(brands, p.data.brandId) ==>
      var b := brands[IndexOf(brands, p.data.brandId).value].data;
      r.brandName == b.name && r.logoUrl == b.logo
    ensures !HasId(addresses, p.data.addressId) ==> r.city == "Nieznane" && r.street == "Brak danych"
    ensures HasId(addresses, p.data.addressId) ==>
      var a := addresses[IndexOf(addresses, p.data.addressId).value].data;
      && r.street == a.street
      && (!HasId(cities, a.cityId) ==> r.city == "Nieznane")
      && (HasId(cities, a.cityId) ==> r.city == cities[IndexOf(cities, a.cityId).value].data.name)
  {
    var brand := BrandOf(brands, p.data.brandId);
    PizzeriaListItem(
      p.id, p.data.name,
      if brand.Some? then brand.value.name else "Lokalna Pizzeria",
      if brand.Some? then brand.value.logo else None,
      CityNameOf(addresses, cities, p.data.addressId).GetOr("Nieznane"),
      StreetOf(addresses, p.data.addressId).GetOr("Brak danych"),
      p.data.deliveryCost, p.data.averagePreparationTimeMinutes, p.data.minOrderAmount, true)
  }

  function ItemOf(brands: seq<Row<Brand>>, addresses: seq<Row<Address>>, cities: seq<Row<City>>): Row<Pizzeria> -> PizzeriaListItem {
    (p: Row<Pizzeria>) => Item(brands, addresses, cities, p)
  }

  /** The pizzerias that pass the filters that were given, in table order, capped when none was given. */
  function Matching(pizzerias: seq<Row<Pizzeria>>, brands: seq<Row<Brand>>, addresses: seq<Row<Address>>,
                    cities: seq<Row<City>>, city: Option<string>, phrase: Option<string>): (r: seq<Row<Pizzeria>>)
    ensures |r| <= |pizzerias|
  {
    var byCity := if IsNullOrWhiteSpace(city) then pizzerias else Filter(pizzerias, CityFilter(addresses, cities, city.value));
    var byPhrase := if IsNullOrWhiteSpace(phrase) then byCity else Filter(byCity, PhraseFilter(brands, phrase.value));
    if IsNullOrWhiteSpace(city) && IsNullOrWhiteSpace(phrase) then Take(byPhrase, DefaultCount) else byPhrase
  }

  /** GET api/Search?city=..&searchPhrase=.. */
  function Search(pizzerias: seq<Row<Pizzeria>>, brands: seq<Row<Brand>>, addresses: seq<Row<Address>>,
                  cities: seq<Row<City>>, city: Option<string>, phrase: Option<string>): (r: seq<PizzeriaListItem>)
    ensures |r| <= |pizzerias|
    ensures IsNullOrWhiteSpace(city) && IsNullOrWhiteSpace(phrase) ==> |r| <= DefaultCount
  {
    Select(Matching(pizzerias, brands, addresses, cities, city, phrase), ItemOf(brands, addresses, cities))
  }

  /** Every pizzeria that survives the filters comes from the table and passes each filter that was given. */
  lemma {:induction false} MatchingSound(pizzerias: seq<Row<Pizzeria>>, brands: seq<Row<Brand>>, addresses: seq<Row<Address>>,
                                         cities: seq<Row<City>>, city: Option<string>, phrase: Option<string>, i: nat)
    requires i < |Matching(pizzerias, brands, addresses, cities, city, phrase)|
    ensures var p := Matching(pizzerias, brands, addresses, cities, city, phrase)[i];
      && p in pizzerias
      && (!IsNullOrWhiteSpace(city) ==> InCity(addresses, cities, city.value, p))
      && (!IsNullOrWhiteSpace(phrase) ==> MatchesPhrase(brands, phrase.value, p))
  {
    var byCity := if IsNullOrWhiteSpace(city) then pizzerias else Filter(pizzerias, CityFilter(addresses, cities, city.value));
    var byPhrase := if IsNullOrWhiteSpace(phrase) then byCity else Filter(byCity, PhraseFilter(brands, phrase.value));
    var m := Matching(pizzerias, brands, addresses, cities, city, phrase);
    var p := m[i];
    if IsNullOrWhiteSpace(city) && IsNullOrWhiteSpace(phrase) {
      assert m == Take(pizzerias, DefaultCount);
      assert p == pizzerias[i];
    } else {
      assert m == byPhrase;
      var j := i;
      if !IsNullOrWhiteSpace(phrase) {
        assert PhraseFilter(brands, phrase.value)(p);
        j :| 0 <= j < |byCity| && byCity[j] == p;
      }
      if !IsNullOrWhiteSpace(city) {
        assert CityFilter(addresses, cities, city.value)(byCity[j]);
      }
      assert p in pizzerias;
    }
  }

  /** Every result is the item of a pizzeria that passes each filter that was given. */
  lemma {:induction false} SearchSound(pizzerias: seq<Row<Pizzeria>>, brands: seq<Row<Brand>>, addresses: seq<Row<Address>>,
                                       cities: seq<Row<City>>, city: Option<string>, phrase: Option<string>, i: nat)
    requires i < |Search(pizzerias, brands, addresses, cities, city, phrase)|
    ensures exists p ::
              && p in pizzerias
              && Search(pizzerias, brands, addresses, cities, city, phrase)[i] == Item(brands, addresses, cities, p)
              && (!IsNullOrWhiteSpace(city) ==> InCity(addresses, cities, city.value, p))
              && (!IsNullOrWhiteSpace(phrase) ==> MatchesPhrase(brands, phrase.value, p))
  {
    var p := Matching(pizzerias, brands, addresses, cities, city, phrase)[i];
    MatchingSound(pizzerias, brands, addresses, cities, city, phrase, i);
    assert ItemOf(brands, addresses, cities)(p) == Item(brands, addresses, cities, p);
  }

  /** When a filter is given, every pizzeria that passes the given filters is listed. */
  lemma {:induction false} SearchComplete(pizzerias: seq<Row<Pizzeria>>, brands: seq<Row<Brand>>, addresses: seq<Row<Address>>,
                                          cities: seq<Row<City>>, city: Option<string>, phrase: Option<string>, p: Row<Pizzeria>)
    requires !IsNullOrWhiteSpace(city) || !IsNullOrWhiteSpace(phrase)
    requires p in pizzerias
    requires !IsNullOrWhiteSpace(city) ==> InCity(addresses, cities, city.value, p)
    requires !IsNullOrWhiteSpace(phrase) ==> MatchesPhrase(brands, phrase.value, p)
    ensures Item(brands, addresses, cities, p) in Search(pizzerias, brands, addresses, cities, city, phrase)
  {
    var byCity := if IsNullOrWhiteSpace(city) then pizzerias else Filter(pizzerias, CityFilter(addresses, cities, city.value));
    if !IsNullOrWhiteSpace(city) {
      FilterKeeps(pizzerias, CityFilter(addresses, cities, city.value), p);
    }
    var byPhrase := if IsNullOrWhiteSpace(phrase) then byCity else Filter(byCity, PhraseFilter(brands, phrase.value));
    if !IsNullOrWhiteSpace(phrase) {
      FilterKeeps(byCity, PhraseFilter(brands, phrase.value), p);
    }
    assert Matching(pizzerias, brands, addresses, cities, city, phrase) == byPhrase;
    SelectKeeps(byPhrase, ItemOf(brands, addresses, cities), p);
  }

  /** Without filters the search lists the first twenty pizzerias in table order. */
  lemma DefaultSearchIsFirstTwenty(pizzerias: seq<Row<Pizzeria>>, brands: seq<Row<Brand>>, addresses: seq<Row<Address>>,
                                   cities: seq<Row<City>>, city: Option<string>, phrase: Option<string>)
    requires IsNullOrWhiteSpace(city) && IsNullOrWhiteSpace(phrase)
    ensures var r := Search(pizzerias, brands, addresses, cities, city, phrase);
      && |r| == (if |pizzerias| < DefaultCount then |pizzerias| else DefaultCount)
      && forall i :: 0 <= i < |r| ==> r[i] == Item(brands, addresses, cities, pizzerias[i])
  {
    var m := Matching(pizzerias, brands, addresses, cities, city, phrase);
    assert m == Take(pizzerias, DefaultCount);
  }
}
