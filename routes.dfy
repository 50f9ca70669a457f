/** Route administration: creating, editing and deleting route records,
    keeping the denormalised copy of a route's structure on its trips in
    step, and refusing to delete a route that trips still use. */
module Routes {
  import opened Domain
  import opened Stops

  /** A row of the route table. `stops` is null when no stop list was given. */
  datatype Route = Route(
    id: nat,
    routeNumber: string,
    category: Option<Category>,
    origin: string,
    destination: string,
    stops: Option<seq<string>>)

  /** A row of the trip table: the reference to its route, the copy of the
      route's structural fields, and the fields route edits never touch. */
  datatype Trip = Trip(
    id: nat,
    routeId: Option<nat>,
    routeNumber: Option<string>,
    origin: string,
    destination: string,
    stops: Option<seq<string>>,
    busId: Option<nat>,
    departureTime: int,
    arrivalTime: int,
    price: int)

  /** The fields an admin client sends to create or edit a route. */
  datatype RouteBody = RouteBody(
    routeNumber: Field,
    origin: Field,
    destination: Field,
    stops: StopsInput,
    category: Field)

  /** `routeNumber`, `origin` and `destination` are all truthy. */
  predicate HasRequiredFields(body: RouteBody)
  {
    Truthy(body.routeNumber) && Truthy(body.origin) && Truthy(body.destination)
  }

  /** What a handler does with the category it was sent. */
  datatype CategoryDecision = Store(category: Option<Category>) | InvalidCategory

  const RequiredFieldsMessage := "Route number, origin and destination are required"
  const InvalidCategoryMessage := "Invalid category. Must be one of XL, AC, S, N"
  const InvalidIdMessage := "Invalid route ID"
  const NotFoundMessage := "Route not found"
  const InUseMessage := "Cannot delete route while trips are using it"

  /** The category rule of route creation: a truthy category outside the
      allow-list is refused; a falsy one (absent, null, "") is stored as
      null; otherwise the named category is stored. */
  function CreateCategory(c: Field): (d: CategoryDecision)
    ensures d.InvalidCategory? <==> Truthy(c) && ParseCategory(c.s).None?
    ensures d.Store? && d.category.Some? ==> Truthy(c) && CategoryName(d.category.value) == c.s
    ensures !Truthy(c) ==> d == Store(None)
    ensures Truthy(c) && ParseCategory(c.s).Some? ==> d == Store(ParseCategory(c.s))
  {
    if !Truthy(c) then Store(None)
    else
      match ParseCategory(c.s)
      case None => InvalidCategory
      case Some(k) => Store(Some(k))
  }

  /** The category rule of a route edit: `undefined` keeps the stored
      category, `null` and "" clear it, a valid name replaces it and any
      other string is refused. */
  function UpdateCategory(current: Option<Category>, c: Field): (d: CategoryDecision)
    ensures c.Undefined? ==> d == Store(current)
    ensures (c.Null? || c == Text("")) ==> d == Store(None)
    ensures d.InvalidCategory? <==> Truthy(c) && ParseCategory(c.s).None?
    ensures c.Text? && d.Store? && d.category.Some? ==> CategoryName(d.category.value) == c.s
    ensures Truthy(c) && ParseCategory(c.s).Some? ==> d == Store(ParseCategory(c.s))
  {
    match c
    case Undefined => Store(current)
    case Null => Store(None)
    case Text(s) =>
      if s == "" then Store(None)
      else
        match ParseCategory(s)
        case None => InvalidCategory
        case Some(k) => Store(Some(k))
  }

  /** `value ?? current`: only `null` and `undefined` fall back; an empty
      string is taken as given. */
  function Coalesce(value: Field, current: string): (r: string)
    ensures value.Text? ==> r == value.s
    ensures !value.Text? ==> r == current
  {
    if value.Text? then value.s else current
  }

  /** The record `route.update(...)` writes. */
  function MergeRoute(r: Route, body: RouteBody, category: Option<Category>): (m: Route)
    ensures m.id == r.id && m.category == category
    ensures m.routeNumber == Coalesce(body.routeNumber, r.routeNumber)
    ensures m.origin == Coalesce(body.origin, r.origin)
    ensures m.destination == Coalesce(body.destination, r.destination)
    ensures NormalizeStops(body.stops).Some? ==> m.stops == NormalizeStops(body.stops)
    ensures NormalizeStops(body.stops).None? ==> m.stops == r.stops
  {
    var normalized := NormalizeStops(body.stops);
    Route(
      r.id,
      Coalesce(body.routeNumber, r.routeNumber),
      category,
      Coalesce(body.origin, r.origin),
      Coalesce(body.destination, r.destination),
      if normalized.Some? then normalized else r.stops)
  }

  /** A trip carries the structural fields of route `r`. */
  predicate CarriesRoute(t: Trip, r: Route)
  {
    && t.routeNumber == Some(r.routeNumber)
    && t.origin == r.origin
    && t.destination == r.destination
    && t.stops == r.stops
  }

  /** Every trip that references `r` carries its structural fields. */
  predicate InSync(trips: map<nat, Trip>, r: Route)
  {
    forall k :: k in trips && trips[k].routeId == Some(r.id) ==> CarriesRoute(trips[k], r)
  }

  /** Two versions of a trip differ at most in the copied route fields. */
  predicate SameTripApartFromRoute(t: Trip, u: Trip)
  {
    && t.id == u.id
    && t.routeId == u.routeId
    && t.busId == u.busId
    && t.departureTime == u.departureTime
    && t.arrivalTime == u.arrivalTime
    && t.price == u.price
  }

  /** `Trip.update({ routeNumber, origin, destination, stops }, { where: { routeId } })`. */
  function SyncTrips(trips: map<nat, Trip>, r: Route): (synced: map<nat, Trip>)
    ensures synced.Keys == trips.Keys
    ensures InSync(synced, r)
    ensures forall k :: k in trips ==> SameTripApartFromRoute(synced[k], trips[k])
    ensures forall k :: k in trips && trips[k].routeId != Some(r.id) ==> synced[k] == trips[k]
  {
    map k | k in trips ::
      if trips[k].routeId == Some(r.id)
      then trips[k].(routeNumber := Some(r.routeNumber), origin := r.origin,
                     destination := r.destination, stops := r.stops)
      else trips[k]
  }

  /** `Trip.count({ where: { routeId: id } }) > 0`. */
  predicate Referenced(trips: map<nat, Trip>, id: nat)
  {
    exists k :: k in trips && trips[k].routeId == Some(id)
  }

  /** Every trip that names a route names one that exists. */
  predicate ReferencesResolve(routes: map<nat, Route>, trips: map<nat, Trip>)
  {
    forall k :: k in trips && trips[k].routeId.Some? ==> trips[k].routeId.value in routes
  }

  /** Syncing a second time changes nothing. */
  lemma SyncIdempotent(trips: map<nat, Trip>, r: Route)
    ensures SyncTrips(SyncTrips(trips, r), r) == SyncTrips(trips, r)
  {
    var once := SyncTrips(trips, r);
    var twice := SyncTrips(once, r);
    forall k | k in once ensures twice[k] == once[k] {
      if once[k].routeId == Some(r.id) {
        assert CarriesRoute(once[k], r);
      }
    }
  }

  /** An edit that sends nothing (no field, no stops, no category) leaves
      the route as it was. */
  lemma EmptyEditKeepsRoute(r: Route)
    ensures UpdateCategory(r.category, Undefined) == Store(r.category)
    ensures MergeRoute(r, RouteBody(Undefined, Undefined, Undefined, Absent, Undefined), r.category) == r
  {
  }

  /** An edit of the origin and destination alone keeps the stored stops,
      so nothing ties the stop list to the route's ends: a list that began at
      the old origin no longer begins at the new one. */
  lemma EndpointEditKeepsStops(r: Route, o: string, d: string)
    requires r.stops.Some? && r.stops.value != [] && r.stops.value[0] == r.origin
    requires o != r.origin
    ensures var m := MergeRoute(r, RouteBody(Undefined, Text(o), Text(d), Absent, Undefined), r.category);
      m.origin == o && m.destination == d && m.stops == r.stops && m.stops.value[0] != m.origin
  {
  }

  /** Applying the same edit twice gives the same route as applying it once. */
  lemma MergeIdempotent(r: Route, body: RouteBody, category: Option<Category>)
    ensures MergeRoute(MergeRoute(r, body, category), body, category) == MergeRoute(r, body, category)
  {
  }

  /** The delete guard preserves resolvable references: a route no trip
      names can go without leaving any trip dangling. */
  lemma DeleteGuardKeepsReferences(routes: map<nat, Route>, trips: map<nat, Trip>, id: nat)
    requires ReferencesResolve(routes, trips)
    requires !Referenced(trips, id)
    ensures ReferencesResolve(routes - {id}, trips)
  {
    forall k | k in trips && trips[k].routeId.Some?
      ensures trips[k].routeId.value in routes - {id}
    {
      assert trips[k].routeId != Some(id);
    }
  }

  /** Without the guard references can dangle: deleting a route that a
      trip names leaves that trip pointing at nothing. */
  lemma UnguardedDeleteDangles(routes: map<nat, Route>, trips: map<nat, Trip>, id: nat)
    requires Referenced(trips, id)
    ensures !ReferencesResolve(routes - {id}, trips)
  {
    var k :| k in trips && trips[k].routeId == Some(id);
    assert trips[k].routeId.value !in routes - {id};
  }

  /** The route table and the trip table, as the route handlers see them. */
  class RouteAdmin {
    var routes: map<nat, Route>
    var trips: map<nat, Trip>
    var nextId: nat

    /** Each route is filed under its own id, and ids come from a counter
        that is ahead of every id handed out. */
    ghost predicate Valid()
      reads this
    {
      forall id :: id in routes ==> routes[id].id == id && id < nextId
    }

    constructor (trips: map<nat, Trip>)
      ensures Valid()
      ensures routes == map[] && this.trips == trips && nextId == 1
    {
      routes := map[];
      this.trips := trips;
      nextId := 1;
    }

    /** `createRoute`. */
    method CreateRoute(body: RouteBody) returns (reply: Reply, created: Option<Route>)
      requires Valid()
      modifies this
      ensures Valid()
      ensures trips == old(trips)
      ensures !HasRequiredFields(body) ==>
        reply == Reply(400, RequiredFieldsMessage) && created == None
        && routes == old(routes) && nextId == old(nextId)
      ensures HasRequiredFields(body) && CreateCategory(body.category).InvalidCategory? ==>
        reply == Reply(400, InvalidCategoryMessage) && created == None
        && routes == old(routes) && nextId == old(nextId)
      ensures HasRequiredFields(body) && CreateCategory(body.category).Store? ==>
        && reply == Reply(201, "Route created successfully")
        && created == Some(Route(old(nextId), body.routeNumber.s,
                                 CreateCategory(body.category).category,
                                 body.origin.s, body.destination.s,
                                 NormalizeStops(body.stops)))
        && old(nextId) !in old(routes)
        && routes == old(routes)[old(nextId) := created.value]
        && nextId == old(nextId) + 1
    {
      created := None;
      if !HasRequiredFields(body) {
        reply := Reply(400, RequiredFieldsMessage);
        return;
      }
      var decision := CreateCategory(body.category);
      if decision.InvalidCategory? {
        reply := Reply(400, InvalidCategoryMessage);
        return;
      }
      var normalizedStops := NormalizeStops(body.stops);
      var route := Route(nextId, body.routeNumber.s, decision.category,
                         body.origin.s, body.destination.s, normalizedStops);
      routes := routes[nextId := route];
      nextId := nextId + 1;
      created := Some(route);
      reply := Reply(201, "Route created successfully");
    }

    /** `updateRoute`: merge the edit into the stored route, then copy the
        route's structure onto every trip that references it. */
    method UpdateRoute(id: Option<nat>, body: RouteBody) returns (reply: Reply)
      requires Valid()
      modifies this
      ensures Valid()
      ensures nextId == old(nextId)
      ensures id.None? ==>
        reply == Reply(400, InvalidIdMessage) && routes == old(routes) && trips == old(trips)
      ensures id.Some? && id.value !in old(routes) ==>
        reply == Reply(404, NotFoundMessage) && routes == old(routes) && trips == old(trips)
      ensures id.Some? && id.value in old(routes) ==>
        var decision := UpdateCategory(old(routes)[id.value].category, body.category);
        decision.InvalidCategory? ==>
        reply == Reply(400, InvalidCategoryMessage) && routes == old(routes) && trips == old(trips)
      ensures id.Some? && id.value in old(routes) ==>
        var decision := UpdateCategory(old(routes)[id.value].category, body.category);
        decision.Store? ==>
        var merged := MergeRoute(old(routes)[id.value], body, decision.category);
        && reply == Reply(200, "Route updated successfully")
        && routes == old(routes)[id.value := merged]
        && trips == SyncTrips(old(trips), merged)
    {
      if id.None? {
        reply := Reply(400, InvalidIdMessage);
        return;
      }
      if id.value !in routes {
        reply := Reply(404, NotFoundMessage);
        return;
      }
      var route := routes[id.value];
      var decision := UpdateCategory(route.category, body.category);
      if decision.InvalidCategory? {
        reply := Reply(400, InvalidCategoryMessage);
        return;
      }
      route := MergeRoute(route, body, decision.category);
      routes := routes[id.value := route];
      trips := SyncTrips(trips, route);
      reply := Reply(200, "Route updated successfully");
    }

    /** `deleteRoute`: refused while any trip references the route. */
    method DeleteRoute(id: Option<nat>) returns (reply: Reply)
      requires Valid()
      modifies this
      ensures Valid()
      ensures trips == old(trips) && nextId == old(nextId)
      ensures id.None? ==> reply == Reply(400, InvalidIdMessage) && routes == old(routes)
      ensures id.Some? && id.value !in old(routes) ==>
        reply == Reply(404, NotFoundMessage) && routes == old(routes)
      ensures id.Some? && id.value in old(routes) && Referenced(trips, id.value) ==>
        reply == Reply(400, InUseMessage) && routes == old(routes)
      ensures id.Some? && id.value in old(routes) && !Referenced(trips, id.value) ==>
        reply == Reply(200, "Route deleted successfully") && routes == old(routes) - {id.value}
    {
      if id.None? {
        reply := Reply(400, InvalidIdMessage);
        return;
      }
      if id.value !in routes {
        reply := Reply(404, NotFoundMessage);
        return;
      }
      if Referenced(trips, id.value) {
        reply := Reply(400, InUseMessage);
        return;
      }
      routes := routes - {id.value};
      reply := Reply(200, "Route deleted successfully");
    }
  }
}
