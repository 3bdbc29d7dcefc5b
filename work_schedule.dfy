/** Opening hours of pizzerias: one schedule per pizzeria and day of week. */
module WorkScheduleController {
  import opened Common
  import opened Tables
  import opened Entities
  import opened Store

  datatype ScheduleDto = ScheduleDto(
    id: Guid, dayOfWeek: int, openTime: int, closeTime: int, pizzeriaId: Guid, pizzeriaName: Option<string>)

  /** `Pizzeria?.Name` for the pizzeria with key `pizzeriaId`. */
  function PizzeriaName(pizzerias: seq<Row<Pizzeria>>, pizzeriaId: Guid): (r: Option<string>)
    ensures r.Some? <==> HasId(pizzerias, pizzeriaId)
    ensures r.Some? ==> exists p :: p in pizzerias && p.id == pizzeriaId && p.data.name == r.value
  {
    match IndexOf(pizzerias, pizzeriaId)
    case None => None
    case Some(i) => Some(pizzerias[i].data.name)
  }

  function ToDto(s: Row<WorkSchedule>, pizzeriaName: Option<string>): ScheduleDto {
    ScheduleDto(s.id, s.data.dayOfWeek, s.data.openTime, s.data.closeTime, s.data.pizzeriaId, pizzeriaName)
  }

  /** The stored row a schedule DTO shows. */
  function RowOf(d: ScheduleDto): Row<WorkSchedule> {
    Row(d.id, WorkSchedule(d.dayOfWeek, d.openTime, d.closeTime, d.pizzeriaId))
  }

  predicate SortedByDay(s: seq<ScheduleDto>) {
    forall i, j :: 0 <= i < j < |s| ==> s[i].dayOfWeek <= s[j].dayOfWeek
  }

  /** An entry no later than every entry of a sorted list can go in front of it. */
  lemma SortedCons(h: ScheduleDto, t: seq<ScheduleDto>)
    requires SortedByDay(t)
    requires forall e | e in t :: h.dayOfWeek <= e.dayOfWeek
    ensures SortedByDay([h] + t)
  {
    var s := [h] + t;
    forall i, j | 0 <= i < j < |s| ensures s[i].dayOfWeek <= s[j].dayOfWeek {
      assert s[j] == t[j - 1];
      if i > 0 {
        assert s[i] == t[i - 1];
      } else {
        assert t[j - 1] in t;
      }
    }
  }

  /** Inserts `x` before the first entry with a later or equal day. */
  function InsertByDay(x: ScheduleDto, s: seq<ScheduleDto>): (r: seq<ScheduleDto>)
    requires SortedByDay(s)
    ensures SortedByDay(r)
    ensures multiset(r) == multiset(s) + multiset{x}
    ensures forall e | e in r :: e == x || e in s
  {
    if s == [] || x.dayOfWeek <= s[0].dayOfWeek then
      assert forall e | e in s :: x.dayOfWeek <= e.dayOfWeek by {
        forall e | e in s ensures x.dayOfWeek <= e.dayOfWeek {
          var k :| 0 <= k < |s| && s[k] == e;
          assert s[0].dayOfWeek <= s[k].dayOfWeek;
        }
      }
      SortedCons(x, s);
      [x] + s
    else
      var rest := InsertByDay(x, s[1..]);
      assert s == [s[0]] + s[1..];
      assert forall e | e in rest :: s[0].dayOfWeek <= e.dayOfWeek by {
        forall e | e in rest ensures s[0].dayOfWeek <= e.dayOfWeek {
          if e != x {
            var k :| 0 <= k < |s[1..]| && s[1..][k] == e;
            assert s[0].dayOfWeek <= s[k + 1].dayOfWeek;
          }
        }
      }
      SortedCons(s[0], rest);
      [s[0]] + rest
  }

  /** `OrderBy(ws => ws.DayOfWeek)`: the same entries ordered by day of week. */
  function SortByDay(s: seq<ScheduleDto>): (r: seq<ScheduleDto>)
    ensures SortedByDay(r)
    ensures multiset(r) == multiset(s)
  {
    if s == [] then []
    else
      assert s == [s[0]] + s[1..];
      InsertByDay(s[0], SortByDay(s[1..]))
  }

  /** The schedules of pizzeria `pizzeriaId`, in table order. */
  function SchedulesOf(schedules: seq<Row<WorkSchedule>>, pizzeriaId: Guid): (r: seq<Row<WorkSchedule>>)
    ensures forall s | s in r :: s in schedules && s.data.pizzeriaId == pizzeriaId
    ensures forall s | s in schedules && s.data.pizzeriaId == pizzeriaId :: s in r
  {
    Filter(schedules, (s: Row<WorkSchedule>) => s.data.pizzeriaId == pizzeriaId)
  }

  /** The rows as DTOs, each labelled with the pizzeria name `name`. */
  function ToDtos(rows: seq<Row<WorkSchedule>>, name: Option<string>): (r: seq<ScheduleDto>)
    ensures |r| == |rows| && forall k :: 0 <= k < |rows| ==> r[k] == ToDto(rows[k], name)
  {
    seq(|rows|, k requires 0 <= k < |rows| => ToDto(rows[k], name))
  }

  /** The schedules of pizzeria `pizzeriaId` as DTOs, ordered by day of week. */
  function Listing(schedules: seq<Row<WorkSchedule>>, pizzeriaId: Guid, name: Option<string>): seq<ScheduleDto> {
    SortByDay(ToDtos(SchedulesOf(schedules, pizzeriaId), name))
  }

  /** Every listed entry shows a stored schedule of the pizzeria. */
  lemma {:induction false} ListingSound(schedules: seq<Row<WorkSchedule>>, pizzeriaId: Guid, name: Option<string>)
    ensures var l := Listing(schedules, pizzeriaId, name);
      forall k :: 0 <= k < |l| ==>
        RowOf(l[k]) in schedules && l[k].pizzeriaId == pizzeriaId && l[k].pizzeriaName == name
  {
    var own := SchedulesOf(schedules, pizzeriaId);
    var dtos := ToDtos(own, name);
    var l := SortByDay(dtos);
    forall k | 0 <= k < |l|
      ensures RowOf(l[k]) in schedules && l[k].pizzeriaId == pizzeriaId && l[k].pizzeriaName == name
    {
      assert l[k] in multiset(dtos);
      var j :| 0 <= j < |dtos| && dtos[j] == l[k];
      assert RowOf(dtos[j]) == own[j];
    }
  }

  /** Every stored schedule of the pizzeria is listed. */
  lemma {:induction false} ListingComplete(schedules: seq<Row<WorkSchedule>>, pizzeriaId: Guid, name: Option<string>)
    ensures var l := Listing(schedules, pizzeriaId, name);
      forall s | s in schedules && s.data.pizzeriaId == pizzeriaId :: exists k :: 0 <= k < |l| && RowOf(l[k]) == s
  {
    var own := SchedulesOf(schedules, pizzeriaId);
    var dtos := ToDtos(own, name);
    var l := SortByDay(dtos);
    forall s | s in schedules && s.data.pizzeriaId == pizzeriaId
      ensures exists k :: 0 <= k < |l| && RowOf(l[k]) == s
    {
      var j :| 0 <= j < |own| && own[j] == s;
      assert dtos[j] in dtos;
      assert dtos[j] in multiset(l);
      var k :| 0 <= k < |l| && l[k] == dtos[j];
      assert RowOf(l[k]) == s;
    }
    assert l == Listing(schedules, pizzeriaId, name);
  }

  /** GET api/WorkSchedule/GetByPizzeria/{pizzeriaId}: every schedule of an existing pizzeria,
      ordered by day of week. */
  function GetWorkSchedulesByPizzeria(schedules: seq<Row<WorkSchedule>>, pizzerias: seq<Row<Pizzeria>>,
                                      pizzeriaId: Guid): (r: Response<seq<ScheduleDto>>)
    ensures r.NotFound? <==> !HasId(pizzerias, pizzeriaId)
    ensures r.Ok? || r.NotFound?
    ensures r.Ok? ==> SortedByDay(r.value)
    ensures r.Ok? ==> |r.value| == |SchedulesOf(schedules, pizzeriaId)|
    ensures r.Ok? ==> forall k :: 0 <= k < |r.value| ==>
      && RowOf(r.value[k]) in schedules
      && r.value[k].pizzeriaId == pizzeriaId
      && r.value[k].pizzeriaName == PizzeriaName(pizzerias, pizzeriaId)
    ensures r.Ok? ==> forall s | s in schedules && s.data.pizzeriaId == pizzeriaId ::
      exists k :: 0 <= k < |r.value| && RowOf(r.value[k]) == s
  {
    if !HasId(pizzerias, pizzeriaId) then NotFound
    else
      var name := PizzeriaName(pizzerias, pizzeriaId);
      ListingSound(schedules, pizzeriaId, name);
      ListingComplete(schedules, pizzeriaId, name);
      var dtos := ToDtos(SchedulesOf(schedules, pizzeriaId), name);
      assert |SortByDay(dtos)| == |multiset(SortByDay(dtos))| == |multiset(dtos)| == |dtos|;
      Ok(Listing(schedules, pizzeriaId, name))
  }

  /** GET api/WorkSchedule/{id}. */
  function GetWorkSchedule(schedules: seq<Row<WorkSchedule>>, pizzerias: seq<Row<Pizzeria>>,
                           id: Guid): (r: Response<ScheduleDto>)
    ensures r.NotFound? <==> !HasId(schedules, id)
    ensures r.Ok? || r.NotFound?
    ensures r.Ok? ==> r.value.id == id && RowOf(r.value) in schedules
    ensures r.Ok? ==> (r.value.pizzeriaName.Some? <==> HasId(pizzerias, r.value.pizzeriaId))
    ensures r.Ok? ==> r.value.pizzeriaName == PizzeriaName(pizzerias, r.value.pizzeriaId)
  {
    match IndexOf(schedules, id)
    case None => NotFound
    case Some(i) => Ok(ToDto(schedules[i], PizzeriaName(pizzerias, schedules[i].data.pizzeriaId)))
  }

  /** A schedule other than `except` already covers `day` for pizzeria `pizzeriaId`. */
  predicate DayTaken(schedules: seq<Row<WorkSchedule>>, pizzeriaId: Guid, day: int, except: Option<Guid>) {
    exists k :: 0 <= k < |schedules| && Some(schedules[k].id) != except
      && schedules[k].data.pizzeriaId == pizzeriaId && schedules[k].data.dayOfWeek == day
  }

  /** Appends a schedule that opens before it closes, for an existing pizzeria and a free day. */
  method AppendSchedule(db: Db, s: Row<WorkSchedule>)
    requires db.Valid() && !HasId(db.schedules, s.id)
    requires HasId(db.pizzerias, s.data.pizzeriaId) && s.data.openTime < s.data.closeTime
    requires !DayTaken(db.schedules, s.data.pizzeriaId, s.data.dayOfWeek, None)
    modifies db`schedules
    ensures db.Valid()
    ensures db.schedules == old(db.schedules) + [s]
  {
    forall k | 0 <= k < |db.schedules| ensures SchedulesCompatible(db.schedules[k], s) {
    }
    PairwiseAppend(db.schedules, s, SchedulesCompatible);
    UniqueIdsAppend(db.schedules, s);
    db.schedules := db.schedules + [s];
  }

  /** Overwrites the schedule at index `i`, keeping its key and pizzeria, with a free day and hours that
      open before they close. */
  method ReplaceSchedule(db: Db, i: nat, s: Row<WorkSchedule>)
    requires db.Valid() && i < |db.schedules|
    requires s.id == db.schedules[i].id && s.data.pizzeriaId == db.schedules[i].data.pizzeriaId
    requires s.data.openTime < s.data.closeTime
    requires !DayTaken(db.schedules, s.data.pizzeriaId, s.data.dayOfWeek, Some(s.id))
    modifies db`schedules
    ensures db.Valid()
    ensures db.schedules == old(db.schedules)[i := s]
  {
    assert db.schedules[i] in db.schedules;
    forall k | 0 <= k < |db.schedules| && k != i
      ensures SchedulesCompatible(db.schedules[k], s) && SchedulesCompatible(s, db.schedules[k])
    {
      assert db.schedules[k].id != s.id;
    }
    PairwiseUpdate(db.schedules, i, s, SchedulesCompatible);
    ghost var before := db.schedules;
    db.schedules := db.schedules[i := s];
    forall x | x in db.schedules ensures HasId(db.pizzerias, x.data.pizzeriaId) && x.data.openTime < x.data.closeTime {
      var k :| 0 <= k < |db.schedules| && db.schedules[k] == x;
      if k != i { assert x == before[k] && before[k] in before; }
    }
  }

  /** POST api/WorkSchedule: a new schedule for a pizzeria the caller owns. */
  method CreateWorkSchedule(db: Db, user: Option<Guid>, pizzeriaId: Guid, day: int, openTime: int, closeTime: int,
                            newId: Guid) returns (r: Response<ScheduleDto>)
    requires db.Valid() && !HasId(db.schedules, newId)
    modifies db`schedules
    ensures db.Valid()
    ensures !HasId(db.pizzerias, pizzeriaId) ==>
      r == BadRequest(PizzeriaMissing) && db.schedules == old(db.schedules)
    ensures HasId(db.pizzerias, pizzeriaId) ==>
      if BrandOwner(db.pizzerias, db.brands, pizzeriaId) != user then
        r == Forbid && db.schedules == old(db.schedules)
      else if openTime >= closeTime then
        r == BadRequest(OpenNotBeforeClose) && db.schedules == old(db.schedules)
      else if DayTaken(old(db.schedules), pizzeriaId, day, None) then
        r == Conflict && db.schedules == old(db.schedules)
      else
        var s := Row(newId, WorkSchedule(day, openTime, closeTime, pizzeriaId));
        && r == Created(newId, ToDto(s, PizzeriaName(db.pizzerias, pizzeriaId)))
        && db.schedules == old(db.schedules) + [s]
  {
    if !HasId(db.pizzerias, pizzeriaId) {
      return BadRequest(PizzeriaMissing);
    }
    if BrandOwner(db.pizzerias, db.brands, pizzeriaId) != user {
      return Forbid;
    }
    if openTime >= closeTime {
      return BadRequest(OpenNotBeforeClose);
    }
    if exists k :: 0 <= k < |db.schedules| && db.schedules[k].data.pizzeriaId == pizzeriaId
                   && db.schedules[k].data.dayOfWeek == day {
      return Conflict;
    }
    var s := Row(newId, WorkSchedule(day, openTime, closeTime, pizzeriaId));
    AppendSchedule(db, s);
    return Created(newId, ToDto(s, PizzeriaName(db.pizzerias, pizzeriaId)));
  }

  /** PUT api/WorkSchedule/{id}: new day and hours for a schedule of a pizzeria the caller owns. */
  method UpdateWorkSchedule(db: Db, user: Option<Guid>, id: Guid, day: int, openTime: int, closeTime: int)
    returns (r: Response<()>)
    requires db.Valid()
    modifies db`schedules
    ensures db.Valid()
    ensures !HasId(old(db.schedules), id) ==> r == NotFound && db.schedules == old(db.schedules)
    ensures HasId(old(db.schedules), id) ==>
      var i := IndexOf(old(db.schedules), id).value;
      var pid := old(db.schedules)[i].data.pizzeriaId;
      if BrandOwner(db.pizzerias, db.brands, pid) != user then
        r == Forbid && db.schedules == old(db.schedules)
      else if openTime >= closeTime then
        r == BadRequest(OpenNotBeforeClose) && db.schedules == old(db.schedules)
      else if DayTaken(old(db.schedules), pid, day, Some(id)) then
        r == Conflict && db.schedules == old(db.schedules)
      else
        && r == NoContent
        && db.schedules == old(db.schedules)[i := Row(id, WorkSchedule(day, openTime, closeTime, pid))]
  {
    var found := IndexOf(db.schedules, id);
    if found.None? {
      return NotFound;
    }
    var i := found.value;
    var pid := db.schedules[i].data.pizzeriaId;
    if BrandOwner(db.pizzerias, db.brands, pid) != user {
      return Forbid;
    }
    if openTime >= closeTime {
      return BadRequest(OpenNotBeforeClose);
    }
    if exists k :: 0 <= k < |db.schedules| && db.schedules[k].id != id
                   && db.schedules[k].data.pizzeriaId == pid && db.schedules[k].data.dayOfWeek == day {
      return Conflict;
    }
    ReplaceSchedule(db, i, Row(id, WorkSchedule(day, openTime, closeTime, pid)));
    return NoContent;
  }

  /** Removes the schedule at index `i`. */
  method RemoveSchedule(db: Db, i: nat)
    requires db.Valid() && i < |db.schedules|
    modifies db`schedules
    ensures db.Valid()
    ensures db.schedules == RemoveAt(old(db.schedules), i)
  {
    RemoveAtExactly(db.schedules, i);
    PairwiseRemoveAt(db.schedules, i, SchedulesCompatible);
    db.schedules := RemoveAt(db.schedules, i);
  }

  /** DELETE api/WorkSchedule/{id}. */
  method DeleteWorkSchedule(db: Db, user: Option<Guid>, id: Guid) returns (r: Response<()>)
    requires db.Valid()
    modifies db`schedules
    ensures db.Valid()
    ensures !HasId(old(db.schedules), id) ==> r == NotFound && db.schedules == old(db.schedules)
    ensures HasId(old(db.schedules), id) ==>
      var i := IndexOf(old(db.schedules), id).value;
      if BrandOwner(db.pizzerias, db.brands, old(db.schedules)[i].data.pizzeriaId) != user then
        r == Forbid && db.schedules == old(db.schedules)
      else
        r == NoContent && db.schedules == RemoveAt(old(db.schedules), i)
  {
    var found := IndexOf(db.schedules, id);
    if found.None? {
      return NotFound;
    }
    var i := found.value;
    if BrandOwner(db.pizzerias, db.brands, db.schedules[i].data.pizzeriaId) != user {
      return Forbid;
    }
    RemoveSchedule(db, i);
    return NoContent;
  }
}
