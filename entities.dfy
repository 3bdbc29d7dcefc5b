/** The persisted entities of the marketplace and the enumerations their columns use.
    Keys live in `Tables.Row`, so each record here holds the other columns only;
    navigation properties are the foreign-key columns they are loaded through. */
module Entities {
  import opened Common

  datatype PizzaStyle = Neapolitan | American | ChicagoStyle | Sicilian | Roman | Calzone
  datatype SauceType = Tomato | Cream | Bbq | Pesto | SpicyArrabbiata | TruffleCream
  datatype DoughType = Wheat | WholeGrain | GlutenFree | Sourdough
  datatype CrustThickness = Thin | Medium | Thick | Stuffed
  datatype PizzaShape = Round | Rectangle

  /** The two account subclasses; only an owner carries a tax id. */
  datatype AccountKind = Customer | Owner(taxId: string)

  datatype Account = Account(
    firstName: string,
    lastName: string,
    email: string,
    passwordHash: string,
    kind: AccountKind)

  datatype Country = Country(name: string, isoCode: string, phonePrefix: string)

  datatype City = City(name: string, region: string, countryId: Guid)

  /** Coordinates are double columns that the model stores and never computes with. */
  datatype Address = Address(
    street: string,
    buildingNumber: string,
    apartmentNumber: Option<string>,
    zipCode: string,
    latitude: real,
    longitude: real,
    cityId: Guid)

  datatype Brand = Brand(name: string, logo: Option<string>, ownerId: Guid)

  /** Money columns are decimals, distances doubles; the model only stores them. */
  datatype Pizzeria = Pizzeria(
    name: string,
    phoneNumber: string,
    minOrderAmount: real,
    deliveryCost: real,
    serviceFee: real,
    averagePreparationTimeMinutes: int,
    maxDeliveryRange: real,
    brandId: Guid,
    addressId: Guid)

  datatype Menu = Menu(name: string, description: Option<string>, isActive: bool, pizzeriaId: Guid)

  /** A pizza; `ingredientIds` is its many-to-many ingredient collection, in table order. */
  datatype Pizza = Pizza(
    name: string,
    description: Option<string>,
    price: real,
    style: PizzaStyle,
    baseSauce: SauceType,
    dough: DoughType,
    thickness: CrustThickness,
    shape: PizzaShape,
    diameterCm: real,
    widthCm: real,
    lengthCm: real,
    weightGrams: real,
    kcal: real,
    menuId: Guid,
    ingredientIds: seq<Guid>)

  datatype Ingredient = Ingredient(name: string, isAllergen: bool, isMeat: bool)

  /** Opening hours of one pizzeria on one day; TimeSpan values are ticks. */
  datatype WorkSchedule = WorkSchedule(dayOfWeek: int, openTime: int, closeTime: int, pizzeriaId: Guid)
}
