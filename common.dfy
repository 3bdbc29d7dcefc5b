/** Shared vocabulary of the marketplace back end: identifiers, optional values and
    the HTTP outcomes that controller actions return. */
module Common {

  /** Primary and foreign keys. The back end uses System.Guid; only equality matters. */
  type Guid = nat

  /** Guid.Empty, the value of a Guid property nobody assigned. */
  const EmptyGuid: Guid := 0

  /** A nullable value (`T?` in the source). */
  datatype Option<+T> = None | Some(value: T) {
    /** The `??` operator. */
    function GetOr(default: T): T {
      if Some? then value else default
    }
  }

  /** Why a request was answered 400 Bad Request. Each constructor stands for one of
      the messages the controllers send. */
  datatype Reason =
    | PizzeriaMissing      // the pizzeria named in the request does not exist
    | MenuIsActive         // an active menu cannot be deleted
    | OpenNotBeforeClose   // opening time must be earlier than closing time
    | MenuMissing          // the menu named in the request does not exist
    | DiameterRequired     // a round pizza needs a positive diameter
    | SidesRequired        // a rectangular pizza needs width and length
    | UnknownIngredients   // some requested ingredient does not exist
    | BlankName            // an ingredient name cannot be empty
    | CountryHasCities     // a country still referred to by cities cannot be deleted
    | CountryMissing       // the country named in the request does not exist
    | CityHasAddresses     // a city still referred to by addresses cannot be deleted
    | CityMissing          // the city named in the request does not exist
    | OwnerMissing         // the caller is not a registered owner
    | BrandMissing         // the brand named in the request does not exist
    | EmailTaken           // an account with this email already exists
    | TaxIdRequired        // an owner must give a tax id

  /** The result of a controller action. `Created` carries the new row's key.
      `ServerError` is the 500 answer ASP.NET gives for an unhandled
      NullReferenceException, where an action dereferences a navigation that is absent. */
  datatype Response<+T> =
    | Ok(value: T)
    | Created(id: Guid, value: T)
    | NoContent
    | NotFound
    | BadRequest(reason: Reason)
    | Conflict
    | Forbid
    | Unauthorized
    | ServerError
}
