# Pizza App API — a verified model of its controllers

This project models the request handlers of the Pizza App web API. Owners register, create brands, and open pizzerias under those brands. Each pizzeria has menus (at most one of them active), pizzas on those menus, weekly opening hours and an address. Customers search pizzerias by city and by name. The model also covers countries, cities, addresses and ingredients, the register/login pair, and the promotion time window.

Each HTTP action is modelled one of two ways:
- An action that changes the database is a method on `Store.Db`. That class holds one `seq` of rows per table. The method states the exact new table and the response for every branch of the action.
- An action that only reads is a function over the table values.

The integrity rules that the actions keep between them are collected in `Store.Db.Valid()`. Every mutating action requires it and ensures it:
- unique keys;
- unique emails;
- country names and ISO codes distinct, ignoring case;
- ingredient names distinct, ignoring case;
- brand names distinct;
- every brand owned by an owner account;
- every menu belongs to a pizzeria, and at most one active menu per pizzeria;
- every pizza belongs to a menu, with pizza names unique per menu and dimensions that fit the pizza's shape;
- every schedule belongs to a pizzeria, opens before it closes, and has at most one schedule per day of the week per pizzeria;
- every address lies in a stored city, and every city in a stored country.

Conventions:
- A primary key is a `nat` (`Common.Guid`). The empty Guid is 0.
- Keys the database would generate are parameters that the caller supplies and that must be fresh.
- The caller's identity from the token is an `Option<Guid>`.
- Password hashing and checking are function parameters `hash` and `verify`.
- Messages of `BadRequest` responses are a `Common.Reason` value instead of the Polish text.
- Dereferencing a navigation the source expects to be loaded, when the row is missing, becomes `ServerError`. This stands for the unhandled null reference.
- Rows are in table order. `FirstOrDefault`, `Take(20)` and the listing order of a query are therefore the table order.

Modules:
- `Common` holds keys, options and responses.
- `Text` holds the string operations the controllers use: ASCII case mapping, `Trim`, `IsNullOrWhiteSpace`, ordinal `Contains`.
- `Tables` holds rows, lookups by key, filtering and pairwise invariants.
- `Entities` holds the records.
- `Store` holds the database and its invariants.
- There is one module per controller.
- `Promotions` holds the promotion window.

## Model

| member | source | states |
|---|---|---|
| Text.Trim | Controllers/IngredientController.cs:48 | the result is a slice of the input with only a blank prefix and a blank suffix cut away (IsTrimOf); it is empty exactly when the input is all whitespace; otherwise it starts and ends with a non-whitespace character |
| Text.TrimStartThenEnd | Controllers/IngredientController.cs:48 | trimming the front and then the end cuts only blank ends and leaves no whitespace at either end |
| Text.TrimUntrimmed | Controllers/IngredientController.cs:48 | trimming a string without whitespace at either end returns it unchanged |
| Text.ContainsIffOccurs | Controllers/SearchController.cs:37-45 | ordinal `Contains` holds exactly when the phrase occurs at some position of the text |
| Store.IngredientsIn | Controllers/PizzaController.cs:51-53 | the ingredients whose key is among the requested ids, all of them and nothing else, with keys still unique |
| Store.BrandOwner | Controllers/WorkScheduleController.cs:152 | a pizzeria's owner, when found, is the owner key of the brand of that pizzeria; it is missing exactly when the pizzeria or that pizzeria's brand is missing |
| Store.CityNameOf | Controllers/PizzeriaController.cs:117 | a city name, when found, is the name of the city of that address; it is missing exactly when the address or that address's city is missing |
| MenuController.GetMenu | Controllers/MenuController.cs:29-59 | NotFound exactly when the menu is missing; otherwise the menu's name, description and flag, a pizza count equal to the number of pizzas on that menu, and one summary per such pizza in table order (key, name, description, price and its ingredient names); every pizza on the menu is listed |
| MenuController.Details | Controllers/MenuController.cs:40-56 | the details view of a menu: its own fields, the count of its pizzas, and the k-th summary built from the k-th pizza on it |
| MenuController.MenuPizzasListed | Controllers/MenuController.cs:45-55 | summaries built one per pizza of the menu carry those pizzas in order, and every pizza on the menu has one |
| MenuController.CreateMenu | Controllers/MenuController.cs:65-96 | missing pizzeria → BadRequest; no owner → ServerError; caller not the owner → Forbid; otherwise one inactive menu of that pizzeria is appended and the response body repeats its key, name, description and flag with an empty pizzeria key; invariants kept |
| MenuController.DeactivatedOthers | Controllers/MenuController.cs:188-198 | same length, keys and pizzerias; afterwards no other active menu of that pizzeria is left; a row that was not another active menu of it is unchanged, and one that was differs only in being inactive |
| MenuController.ActivatedIsSoleActive | Controllers/MenuController.cs:103-124 | after activation the chosen menu is the only active menu of its pizzeria; menus of other pizzerias are untouched; keys and owners kept; at most one active menu per pizzeria |
| MenuController.DeactivateOtherMenus | Controllers/MenuController.cs:188-198 | the loop leaves exactly `DeactivatedOthers` of the old table |
| MenuController.ActivateMenu | Controllers/MenuController.cs:103-124 | NotFound / ServerError / Forbid / Ok when already active / NoContent with the menu activated and the pizzeria's other menus deactivated; invariants kept |
| MenuController.DeleteMenu | Controllers/MenuController.cs:129-155 | missing menu → NotFound; brand owner not found → ServerError; caller not the owner → Forbid; active menu → BadRequest; otherwise NoContent with the menu removed and its pizzas removed with it; on every other answer nothing changes; invariants kept |
| MenuController.DeletionRemovesExactly | Controllers/MenuController.cs:148-151 | the removal leaves no menu with that key, keeps every other menu, and leaves exactly the pizzas that were not on the removed menu |
| MenuController.GetMenusForPizzeria | Controllers/MenuController.cs:160-181 | NotFound exactly when the pizzeria has no menus and does not exist; otherwise one item per menu of the pizzeria, in table order, with its id, name, description, active flag and the number of pizzas on it |
| MenuController.MenuListSound | Controllers/MenuController.cs:161-171 | every listed item is a menu of that pizzeria, with the same active flag |
| MenuController.MenuListComplete | Controllers/MenuController.cs:161-171 | every menu of that pizzeria is listed (and the answer is then Ok) |
| MenuController.MenuListHasOneActive | Controllers/MenuController.cs:160-181 | under the invariant, no two listed menus are both active |
| MenuController.MenuListNotFoundIffNoPizzeria | Controllers/MenuController.cs:170-178 | under the invariant, the listing is NotFound exactly when the pizzeria does not exist |
| WorkScheduleController.SortByDay | Controllers/WorkScheduleController.cs:46 | the result is ordered by day of week and is a permutation of the input |
| WorkScheduleController.InsertByDay | Controllers/WorkScheduleController.cs:46 | inserting into a day-ordered list keeps it ordered and adds exactly that one schedule |
| WorkScheduleController.ListingSound | Controllers/WorkScheduleController.cs:40-48 | every listed schedule is a schedule of that pizzeria |
| WorkScheduleController.ListingComplete | Controllers/WorkScheduleController.cs:40-48 | every schedule of that pizzeria is listed |
| WorkScheduleController.GetWorkSchedulesByPizzeria | Controllers/WorkScheduleController.cs:26-50 | NotFound exactly when the pizzeria is missing; otherwise its schedules, each listed, each labelled with the pizzeria's name, as many entries as the pizzeria has schedules, ordered by day |
| WorkScheduleController.GetWorkSchedule | Controllers/WorkScheduleController.cs:54-76 | NotFound exactly when missing; otherwise that schedule, labelled with the name of its pizzeria, absent exactly when the pizzeria is missing |
| WorkScheduleController.CreateWorkSchedule | Controllers/WorkScheduleController.cs:81-133 | missing pizzeria → BadRequest; caller not the owner → Forbid; open not before close → BadRequest; day already taken → Conflict; otherwise appended; invariants kept |
| WorkScheduleController.UpdateWorkSchedule | Controllers/WorkScheduleController.cs:138-190 | NotFound / Forbid / BadRequest / Conflict when another schedule of the same pizzeria has that day / NoContent with day and hours overwritten in place |
| WorkScheduleController.DeleteWorkSchedule | Controllers/WorkScheduleController.cs:195-218 | NotFound / Forbid / NoContent with the row removed |
| PizzaController.ShapeError | Controllers/PizzaController.cs:37-49 | no error exactly when a round pizza has a positive diameter, or a rectangular one has both sides |
| PizzaController.StoredPizza | Controllers/PizzaController.cs:37-81 | the stored pizza's dimensions fit its shape (round: the requested diameter; rectangle: the requested sides); the description defaults to empty; name, menu, shape, price, weight, kcal, style, sauce, dough and thickness are the requested ones; the ingredient keys are the accepted ones |
| PizzaController.IngredientCountCheck | Controllers/PizzaController.cs:51-58 | the count check passes exactly when the requested ids are distinct and all exist |
| PizzaController.AcceptedIngredientsAreRequested | Controllers/PizzaController.cs:51-80 | the stored ingredient ids are requested ids of existing ingredients |
| PizzaController.CreatePizza | Controllers/PizzaController.cs:23-87 | missing menu → BadRequest; duplicate name on that menu → Conflict; shape error → BadRequest; unknown or repeated ingredient → BadRequest; otherwise the normalised pizza is appended; invariants kept |
| PizzaController.GetPizzas | Controllers/PizzaController.cs:91-105 | one item per pizza, in table order, with its key, name, price, description defaulting to empty, and the names IngredientNames gives for that pizza |
| PizzaController.IngredientNames | Controllers/PizzaController.cs:100 | one name per ingredient row linked to the pizza (`Store.IngredientsIn`: exactly the rows whose key the pizza lists), in table order, and the name of every linked ingredient is listed |
| PizzaController.GetPizza | Controllers/PizzaController.cs:109-151 | NotFound exactly when missing; otherwise the pizza's name, description (empty when missing), price, weight, kcal, style, dough, sauce, thickness, shape and dimensions, and the ingredients IngredientDtos gives for it, with the menu id left empty |
| PizzaController.IngredientDtos | Controllers/PizzaController.cs:141-147 | one item per ingredient row linked to the pizza, in table order, carrying its id, name and both flags; every linked ingredient is listed |
| IngredientController.NormalizeName | Controllers/IngredientController.cs:48-49 | the result has the length of the trimmed name and equals it ignoring case; its first character is not a lower-case letter and no later character is an upper-case letter; no whitespace at either end |
| IngredientController.CapitalizedSpelling | Controllers/IngredientController.cs:49 | upper-casing the first character and lower-casing the rest keeps the length, the letters ignoring case and the non-whitespace ends |
| IngredientController.NormalizeNameIdempotent | Controllers/IngredientController.cs:48-49 | normalising a normalised name changes nothing |
| IngredientController.NormalizedNamesCollide | Controllers/IngredientController.cs:48-52 | two names collide after normalisation exactly when their trimmed forms are equal ignoring case |
| IngredientController.GetIngredient | Controllers/IngredientController.cs:26-35 | NotFound exactly when missing; otherwise that ingredient |
| IngredientController.GetIngredients | Controllers/IngredientController.cs:82-95 | one item per ingredient, in table order, with its key, name, allergen flag and meat flag |
| IngredientController.CreateIngredient | Controllers/IngredientController.cs:40-78 | blank name → BadRequest; name taken ignoring case → Conflict; otherwise the normalised name is appended; names stay distinct ignoring case |
| IngredientController.AppendIngredient | Controllers/IngredientController.cs:59-67 | a row with a fresh id and a name no stored ingredient has ignoring case is appended, and ingredient names stay distinct ignoring case |
| IngredientController.SecondCreateConflicts | Controllers/IngredientController.cs:48-56 | creating the same name twice conflicts the second time |
| CountryController.Stored | Controllers/CountryController.cs:72-77 | the stored ISO code equals the given one ignoring case and contains no lower-case letter |
| CountryController.GetCountries | Controllers/CountryController.cs:23-36 | one item per country, in table order, with its key, name, ISO code and phone prefix |
| CountryController.GetCountry | Controllers/CountryController.cs:40-58 | NotFound exactly when missing; otherwise that country |
| CountryController.CreateCountry | Controllers/CountryController.cs:63-91 | name or ISO code taken ignoring case → Conflict; otherwise appended with an upper-case ISO code; countries stay distinct |
| CountryController.UpdateCountry | Controllers/CountryController.cs:96-132 | NotFound / Conflict against the other countries / NoContent with the row overwritten in place |
| CountryController.DeleteCountry | Controllers/CountryController.cs:137-155 | NotFound / BadRequest while a city refers to it / NoContent with the row removed |
| CountryController.CreatedCountryIsFound | Controllers/CountryController.cs:40-91 | a country just created is found by its key |
| CountryController.ResavingIsNoConflict | Controllers/CountryController.cs:103-107 | updating a country with its own name and ISO code never conflicts |
| CityController.GetCity | Controllers/CityController.cs:23-44 | NotFound exactly when missing; otherwise that city with its country's name when the country exists |
| CityController.CreateCity | Controllers/CityController.cs:49-86 | missing country → BadRequest; name taken in that country ignoring case → Conflict; otherwise appended |
| CityController.UpdateCity | Controllers/CityController.cs:91-133 | NotFound / missing country → BadRequest / Conflict against the other cities / NoContent with the row overwritten in place |
| CityController.DeleteCity | Controllers/CityController.cs:138-156 | NotFound / BadRequest while an address refers to it / NoContent with the row removed |
| CityController.GetCities | Controllers/CityController.cs:160-175 | one item per city, in table order, with its country's name |
| CityController.GetCitiesByCountry | Controllers/CityController.cs:181-197 | every entry is a city of that country with the country's name, every city of the country is listed, and there are as many entries as the country has cities |
| CityController.CitiesOfCountry | Controllers/CityController.cs:181-197 | the DTOs built from the cities kept by the country filter carry exactly those cities, each with the country's name, and every city of the country is among them |
| AddressController.GetAddress | Controllers/AddressController.cs:24-36 | NotFound exactly when missing; otherwise that address, with its city row included exactly when a city has its city key |
| AddressController.CreateAddress | Controllers/AddressController.cs:40-64 | missing city → BadRequest; otherwise appended |
| AddressController.UpdateAddress | Controllers/AddressController.cs:68-95 | NotFound / ServerError with nothing stored when no city has the given key (the required city reference makes the save fail) / NoContent with the fields overwritten in place; every address stays in a stored city |
| AddressController.DeleteAddress | Controllers/AddressController.cs:99-111 | NotFound / NoContent, after which the key is gone |
| BrandController.GetBrands | Controllers/BrandController.cs:26-37 | id and name of every brand, in table order |
| BrandController.GetBrand | Controllers/BrandController.cs:42-69 | NotFound exactly when the brand is missing; otherwise Ok with the brand's own id, name and logo and the list PizzeriasOfBrand |
| BrandController.PizzeriasOfBrand | Controllers/BrandController.cs:60-65 | one entry per pizzeria of the brand, in table order: the k-th entry shows the k-th pizzeria of the brand with its name and its city name ("Nieznane" when the address or city is missing); every pizzeria of the brand is listed |
| BrandController.BrandPizzeriasListed | Controllers/BrandController.cs:60-65 | entries built one per pizzeria of the brand show those pizzerias with their city labels, and every pizzeria of the brand has one |
| BrandController.CreateBrand | Controllers/BrandController.cs:75-106 | no caller → Unauthorized; caller not an owner → BadRequest; exact name taken → Conflict; otherwise appended, owned by the caller |
| BrandController.DeleteBrand | Controllers/BrandController.cs:111-132 | no caller → Unauthorized; missing → NotFound; caller not the owner → Forbid; otherwise removed |
| BrandController.DeleteBrandAsWritten | Controllers/BrandController.cs:111-132 | as written, the action never deletes and never answers Forbid |
| BrandController.OwnerCannotDeleteAsWritten | Controllers/BrandController.cs:119-123 | a brand's own owner gets a server error from the action as written |
| PizzeriaController.CreatePizzeria | Controllers/PizzeriaController.cs:27-81 | missing brand → BadRequest; caller not the owner → Forbid; no city of that exact name and no country with the empty key → ServerError with nothing stored; otherwise the first city of that exact name is reused or a new one is added, and address, active menu "Menu <name>" and pizzeria are appended; invariants kept |
| PizzeriaController.StorePizzeria | Controllers/PizzeriaController.cs:36-77 | the new city (only when none has that exact name), the address in that city, the active first menu and the pizzeria are appended; invariants kept |
| PizzeriaController.CreatedMenuIsActiveMenu | Controllers/PizzeriaController.cs:55-74 | the menu created with a pizzeria is the one the details view reports as active |
| PizzeriaController.ActiveMenuId | Controllers/PizzeriaController.cs:97 | none exactly when the pizzeria has no active menu; otherwise the key of an active menu of that pizzeria |
| PizzeriaController.ActiveMenuIdIsTheActiveMenu | Controllers/PizzeriaController.cs:97 | under the invariant, the active menu id is the key of the one active menu |
| PizzeriaController.FullAddress | Controllers/PizzeriaController.cs:118-120 | street and building number first; "/" and the apartment exactly when it is non-empty; ", ", zip code and city last |
| PizzeriaController.GetPizzeria | Controllers/PizzeriaController.cs:85-125 | NotFound exactly when missing; ServerError exactly when its address row is missing; otherwise name, phone, delivery cost, minimum order, service fee, preparation time, open, the active menu id, the brand name or "Nieznana marka", the street, the city name or "Nieznane", and the one-line address FullAddress gives |
| PizzeriaController.CreatePizzeriaCheckAsWritten | Controllers/PizzeriaController.cs:29-34 | as written, a found brand always ends in a server error: the action never creates and never answers Forbid |
| PizzeriaController.OwnerCannotCreatePizzeriaAsWritten | Controllers/PizzeriaController.cs:29-34 | the brand's own owner gets a server error as written |
| SearchController.Item | Controllers/SearchController.cs:55-69 | key, name, delivery cost, preparation time and minimum order of the pizzeria, always open; the brand's name and logo, or "Lokalna Pizzeria" and no logo without a brand; the street, or "Brak danych" without an address; the city name, or "Nieznane" without an address or without its city |
| SearchController.Search | Controllers/SearchController.cs:20-73 | never more results than pizzerias, and at most twenty without filters |
| SearchController.MatchingSound | Controllers/SearchController.cs:31-46 | a pizzeria that survives the filtering is in the table and passes the city filter and the phrase filter whenever each was given |
| SearchController.SearchSound | Controllers/SearchController.cs:31-46 | every result is a pizzeria that passes each filter that was given |
| SearchController.SearchComplete | Controllers/SearchController.cs:31-46 | with a filter given, every pizzeria passing the given filters is listed |
| SearchController.DefaultSearchIsFirstTwenty | Controllers/SearchController.cs:49-52 | without filters, the result is the first twenty pizzerias in order |
| AuthController.NewAccount | Controllers/AuthController.cs:39-62 | an owner with the given tax id exactly when registering as owner, else a customer; the stored hash is the given hash |
| AuthController.Register | Controllers/AuthController.cs:28-68 | email taken → BadRequest, checked before the tax id; owner without a tax id → BadRequest; otherwise the account is appended with the hashed password; emails stay unique |
| AuthController.Role | Controllers/AuthController.cs:91 | "Owner" exactly for owner accounts, otherwise "Customer" |
| AuthController.Login | Controllers/AuthController.cs:72-84 | Unauthorized for an unknown email; a token only for an account with that email whose hash checks |
| AuthController.WrongPasswordIsRefused | Controllers/AuthController.cs:74-79 | with unique emails, login succeeds exactly when the password checks against that account's hash |
| AuthController.RegisterThenLogin | Controllers/AuthController.cs:28-84 | a registered user can log in with the same email and password and gets the role they registered for |
| Promotions.ActiveWindow | Entities/Promotion.cs:15 | active exactly when start ≤ now ≤ end |
| Promotions.BoundsAreActive | Entities/Promotion.cs:15 | active at the start and at the end instant |
| Promotions.OutsideIsInactive | Entities/Promotion.cs:15 | inactive before the start and after the end |
| Promotions.InvertedWindowNeverActive | Entities/Promotion.cs:15 | a promotion ending before it starts is never active |
| Promotions.ActiveBetween | Entities/Promotion.cs:15 | the active instants form one interval: active at two instants means active at every instant between them |

## Left out

- Authentication attributes (`[Authorize]`) are left out because the framework enforces them. The explicit checks the actions make on the caller are modelled.
- async/await, `SaveChangesAsync` and the `DbUpdateConcurrencyException` branches are left out. Each action is one atomic step.
- Messages of error responses are left out; only their kind and a `Reason` are kept.
- Database cascades are not modelled. This covers deleting a brand (its pizzerias), deleting an address (its pizzeria) and Promotion relations. Only the menu→pizza cascade that `DeleteMenu` relies on is modelled.
- The references pizzeria→brand and pizzeria→address are not part of `Store.Db.Valid()`: deleting a brand or an address that a pizzeria uses depends on the database's cascade rules, which are not modelled. Lookups through them follow the source's `?.`/`??` fallbacks. The references address→city and city→country are part of it, and every action keeps them.
- City names unique per country are also not part of `Store.Db.Valid()`. `CreatePizzeria` reuses a city only on an exact, case-sensitive name match. A new city gets no country (the empty key), and since a city's country reference is required (Entities/City.cs:12) and no country has the empty key, saving it fails; the model answers ServerError and stores nothing unless a country with the empty key exists. This assumes a database that enforces foreign keys. `CreateCity`, `UpdateCity` and `DeleteCity` keep the rule when it held before.
- Case mapping, `Trim` and `Contains` cover ASCII only, with ordinal comparison. Database collation effects are not modelled.
- Decimal and double amounts are `real`. Rounding is not modelled.
- Timestamps are integers on one clock.
- BCrypt hashing and verification and JWT construction are parameters. Claims are reduced to subject, email and role.
- AuthController.Register: the fact that the stored hash is never the raw password depends on the hash function. The model only states that the stored value is `hash(password)`.
- Promotions.ActiveWindow: the current time is read once. The source reads `DateTime.UtcNow` twice in one expression.
- `GetAddresses` (Controllers/AddressController.cs:112-120) returns the address table with its navigations. In the model this is the table itself, so it has no member.
- DTO validation attributes (required fields, lengths, ranges) are left out because the framework enforces them.
- The source files of CreateWorkScheduleDto, UpdateAddressDto, UpdateCountryDto, CreateCityDto, LoginDto and the Customer entity are not part of this model. Their fields are inferred from how the controllers use them.
- `CreatePizzeria` is modelled as evidently intended in two ways:
  - The request carries the brand key. The source reads `dto.Brand.Id` while the request type has `BrandId`.
  - The brand's owner is compared by the brand's owner key. The source dereferences `brand.Owner` after `FindAsync`; see the Findings table below.
- CreateMenu: the source finds the pizzeria by comparing the text of its key with the requested text (Controllers/MenuController.cs:70); the model compares keys, which agrees whenever the request carries a key in its canonical text form.
- `CreatePizza` compares the shape as an enum. The source compares a lookup item with the enum.
- `GetPizza` returns the style, dough, sauce, thickness and shape as enum values. The source assigns their names as strings to fields typed as lookup items.
- The faceted pizza search, price-per-area and calorie metrics are not modelled. The code has no such action.
- `GetPizza` leaves the pizza's menu key empty because the source never sets it. Image URLs are not part of the Pizza entity here.
- `IsOpen` is always true, as in the source. Opening hours are not consulted.

## Findings

| source | as written | input that shows it | evidently intended | confidence | as-written member | corrected member |
|---|---|---|---|---|---|---|
| Controllers/BrandController.cs:119-123 | the brand is loaded with `FindAsync`, which does not load the `Owner` navigation, and `brand.Owner!.Id` is then dereferenced, so every found brand makes the action fail with a server error | the owner of an existing brand deletes it | compare the brand's owner key with the caller and delete the brand | not executed | BrandController.DeleteBrandAsWritten, BrandController.OwnerCannotDeleteAsWritten | BrandController.DeleteBrand |
| Controllers/PizzeriaController.cs:29-34 | the brand is loaded with `FindAsync`, which does not load the `Owner` navigation, and `brand.Owner.Id` is then dereferenced, so every found brand makes the action fail with a server error | the owner of an existing brand opens a pizzeria | compare the brand's owner key with the caller and create the pizzeria | not executed | PizzeriaController.CreatePizzeriaCheckAsWritten, PizzeriaController.OwnerCannotCreatePizzeriaAsWritten | PizzeriaController.CreatePizzeria |
