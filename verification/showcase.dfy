/**
 The Lightning component `googleAPIShowcase`: its form state, and each event handler as a
 pure transition from one state to the next plus the side effects it emits (toasts, cookie
 writes, errors reported by a `.catch` block, outgoing server requests).

 Server calls are not made here. A submit handler returns the request it would send; a
 separate completion function takes the parsed reply, or the rejection, and the state at the
 moment the reply arrives.
 */
module Showcase {
  import opened JsValues
  import opened Locations
  import opened DistanceMatrix

  /** The address form. */
  datatype Address = Address(street: string, postalcode: string, city: string, state: string, country: string)

  /** The component's fields. `distanceMatrix` is `None` until a travel-time reply has been
      reshaped. */
  datatype State = State(
    googleAPIKey: string,
    rememberAPIKey: bool,
    address: Address,
    activeTab: string,
    locIndex: nat,
    locations: seq<Location>,
    distanceMatrix: Option<seq<DistanceRow>>)

  const ApiKeyTab := "apiKey"
  const TravelTimesTab := "travelTimes"
  const CookieName := "GoogleAPIKey"
  const CookieDays := 365

  /** The fields' values when the component is created. */
  const Initial := State("", false,
    Address("Leidseplein 2", "1017 PT", "Amsterdam", "Noord-Holland", "Netherlands"),
    ApiKeyTab, 0, [], None)

  /** What a handler does besides changing the state. */
  datatype Effect =
    | Toast(title: string, message: string, variant: string)
      // `createCookie(name, value, days)`; `days` is `None` for `clearCookie`
    | CreateCookie(name: string, value: string, days: Option<nat>)
      // a `.catch` block: the error is logged and shown in an 'Error' toast
    | ReportError(cause: Fault)

  datatype Step = Step(state: State, effects: seq<Effect>)

  /** The input field an `onchange` event came from, by its `name` attribute. */
  datatype Field =
    | Street | PostalCode | City | Region | Country | ApiKey | Remember
    | Unknown(name: string)

  /** The `name` attribute of each known field. */
  function FieldName(f: Field): string
    requires !f.Unknown?
  {
    match f
    case Street => "street"
    case PostalCode => "postalcode"
    case City => "city"
    case Region => "state"
    case Country => "country"
    case ApiKey => "googleapikey"
    case Remember => "rememberAPIKey"
  }

  /** The field a `name` attribute selects, compared as exact strings. */
  function FieldNamed(name: string): Field {
    if name == "street" then Street
    else if name == "postalcode" then PostalCode
    else if name == "city" then City
    else if name == "state" then Region
    else if name == "country" then Country
    else if name == "googleapikey" then ApiKey
    else if name == "rememberAPIKey" then Remember
    else Unknown(name)
  }

  /** Every known field is selected by its own name, and a name that is none of theirs
      selects nothing. */
  lemma FieldNames(f: Field, name: string)
    ensures !f.Unknown? ==> FieldNamed(FieldName(f)) == f
    ensures FieldNamed(name).Unknown? <==> forall g: Field :: !g.Unknown? ==> FieldName(g) != name
    ensures FieldNamed(name).Unknown? ==> FieldNamed(name).name == name
  {
    if !FieldNamed(name).Unknown? {
      assert FieldName(FieldNamed(name)) == name;
    }
  }

  /** `handle_InputFieldChange`: `value` is the input's value, `checked` its checkbox state. */
  function InputFieldChange(s: State, name: string, value: string, checked: bool): (r: Step)
    ensures FieldNamed(name).Unknown? ==> r == Step(s, [])
    ensures FieldNamed(name) in {Street, PostalCode, City, Region, Country} ==>
              && r.effects == []
              && r.state == s.(address := r.state.address)
    ensures FieldNamed(name) == Street ==> r.state.address == s.address.(street := value)
    ensures FieldNamed(name) == PostalCode ==> r.state.address == s.address.(postalcode := value)
    ensures FieldNamed(name) == City ==> r.state.address == s.address.(city := value)
    ensures FieldNamed(name) == Region ==> r.state.address == s.address.(state := value)
    ensures FieldNamed(name) == Country ==> r.state.address == s.address.(country := value)
    ensures FieldNamed(name) == ApiKey ==>
              && r.state == s.(googleAPIKey := value)
              && r.effects == (if s.rememberAPIKey then [CreateCookie(CookieName, value, Some(CookieDays))] else [])
    ensures FieldNamed(name) == Remember ==>
              && r.state == s.(rememberAPIKey := checked)
              && r.effects == [if checked then CreateCookie(CookieName, s.googleAPIKey, Some(CookieDays))
                               else CreateCookie(CookieName, "", None)]
  {
    match FieldNamed(name)
    case Street => Step(s.(address := s.address.(street := value)), [])
    case PostalCode => Step(s.(address := s.address.(postalcode := value)), [])
    case City => Step(s.(address := s.address.(city := value)), [])
    case Region => Step(s.(address := s.address.(state := value)), [])
    case Country => Step(s.(address := s.address.(country := value)), [])
    case ApiKey =>
      var t := s.(googleAPIKey := value);
      Step(t, if t.rememberAPIKey then [CreateCookie(CookieName, t.googleAPIKey, Some(CookieDays))] else [])
    case Remember =>
      var t := s.(rememberAPIKey := checked);
      Step(t, if t.rememberAPIKey then [CreateCookie(CookieName, t.googleAPIKey, Some(CookieDays))]
              else [CreateCookie(CookieName, "", None)])
    case Unknown(_) => Step(s, [])
  }

  /** `handle_ClearGeoCodeForm`: every address field becomes empty, nothing else changes. */
  function ClearGeoCodeForm(s: State): (t: State)
    ensures t.address.street == "" && t.address.postalcode == "" && t.address.city == ""
    ensures t.address.state == "" && t.address.country == ""
    ensures t.(address := s.address) == s
  {
    s.(address := Address("", "", "", "", ""))
  }

  /** `validateGoogleAPIKey`: an empty key (the only falsy string) blocks the caller, sends
      the user to the key tab and shows an error toast. */
  function ValidateGoogleAPIKey(s: State): (r: (bool, Step))
    ensures r.0 <==> |s.googleAPIKey| > 0
    ensures r.0 ==> r.1 == Step(s, [])
    ensures !r.0 ==> r.1.state == s.(activeTab := ApiKeyTab)
    ensures !r.0 ==> |r.1.effects| == 1 && r.1.effects[0].Toast? && r.1.effects[0].variant == "error"
  {
    if s.googleAPIKey == "" then
      (false, Step(s.(activeTab := ApiKeyTab),
                   [Toast("Error", "Please provide a valid Google API Key", "error")]))
    else (true, Step(s, []))
  }

  /** The arguments of the `geoCodeAddress` server call. */
  datatype GeocodeRequest = GeocodeRequest(apiKey: string, street: string, postalcode: string,
                                           city: string, state: string, country: string)

  /** The arguments of the `getTravelTimes` server call; the list is sent as JSON. */
  datatype TravelTimesRequest = TravelTimesRequest(apiKey: string, locations: seq<Location>)

  /** The parsed geocoding reply: its status and the coordinates of each result. */
  datatype GeocodeResponse = GeocodeResponse(status: string, results: seq<Coordinates>)
  datatype Coordinates = Coordinates(lat: Number, lng: Number)

  /** How a server call settled: a parsed reply, or a rejection (which includes a reply that
      is not valid JSON). */
  datatype Reply<T> = Parsed(response: T) | Failed(message: string)

  /** The synchronous part of `handle_GeoCodeSubmit`: a request is sent exactly when the key
      is present, and carries the key and the address. */
  function GeoCodeSubmit(s: State): (r: (Step, Option<GeocodeRequest>))
    ensures r.1.Some? <==> |s.googleAPIKey| > 0
    ensures r.1.Some? ==> r.0 == Step(s, []) && r.1.value == GeocodeRequest(
              s.googleAPIKey, s.address.street, s.address.postalcode,
              s.address.city, s.address.state, s.address.country)
    ensures r.1.None? ==> r.0 == ValidateGoogleAPIKey(s).1
  {
    var (valid, step) := ValidateGoogleAPIKey(s);
    if !valid then (step, None)
    else (step, Some(GeocodeRequest(s.googleAPIKey, s.address.street, s.address.postalcode,
                                    s.address.city, s.address.state, s.address.country)))
  }

  const GeocodedToast := Toast("Geocoding Results",
    "Address successfully geocoded and added as location for travel time calculation.", "success")

  /** The `.then`/`.catch` part of `handle_GeoCodeSubmit`, applied to the state current when
      the reply arrives. On "OK" the counter is incremented BEFORE it is used as the new id.
      With "OK" but no results, the increment has already happened when reading the first
      result throws, so the counter moves while the list and the tab do not. */
  function GeoCodeCompleted(s: State, reply: Reply<GeocodeResponse>): (r: Step)
    ensures reply.Failed? ==> r == Step(s, [ReportError(Rejected(reply.message))])
    ensures reply.Parsed? && reply.response.status != "OK" ==>
              r == Step(s, [Toast("Geocoding Results",
                                  "Google API status is not OK: " + reply.response.status, "error")])
    ensures reply.Parsed? && reply.response.status == "OK" ==>
              && r.state.locIndex == s.locIndex + 1
              && |r.effects| >= 1 && r.effects[0] == GeocodedToast
    ensures reply.Parsed? && reply.response.status == "OK" && |reply.response.results| > 0 ==>
              var c := reply.response.results[0];
              && r.state.locations == s.locations + [Location(r.state.locIndex, c.lat, c.lng)]
              && r.state.activeTab == TravelTimesTab
              && r.state == s.(locIndex := r.state.locIndex, locations := r.state.locations,
                               activeTab := TravelTimesTab)
              && r.effects == [GeocodedToast]
    ensures reply.Parsed? && reply.response.status == "OK" && |reply.response.results| == 0 ==>
              && r.state == s.(locIndex := s.locIndex + 1)
              && r.effects == [GeocodedToast, ReportError(UndefinedRead("geometry"))]
  {
    match reply
    case Failed(message) => Step(s, [ReportError(Rejected(message))])
    case Parsed(response) =>
      if response.status != "OK" then
        Step(s, [Toast("Geocoding Results", "Google API status is not OK: " + response.status, "error")])
      else
        var id := s.locIndex + 1;
        var counted := s.(locIndex := id);
        if |response.results| == 0 then
          Step(counted, [GeocodedToast, ReportError(UndefinedRead("geometry"))])
        else
          var c := response.results[0];
          Step(counted.(locations := s.locations + [Location(id, c.lat, c.lng)], activeTab := TravelTimesTab),
               [GeocodedToast])
  }

  /** `handle_AddLocation`: append an entry at (0, 0) whose id is the counter's CURRENT value,
      then increment the counter. */
  function AddLocation(s: State): (t: State)
    ensures |t.locations| == |s.locations| + 1
    ensures t.locations[..|s.locations|] == s.locations
    ensures t.locations[|s.locations|] == Location(s.locIndex, Zero, Zero)
    ensures t.locIndex == s.locIndex + 1
    ensures t.(locations := s.locations, locIndex := s.locIndex) == s
  {
    s.(locations := s.locations + [Location(s.locIndex, Zero, Zero)], locIndex := s.locIndex + 1)
  }

  /** `handle_RemoveLocation` with the clicked entry's id as `key`. */
  function RemoveLocation(s: State, key: int): (t: State)
    ensures t.locations == Remove(s.locations, key)
    ensures DeletesOnly(s.locations, t.locations, key)
    ensures CountId(s.locations, key) == 0 ==> t == s
    ensures CountId(s.locations, key) > 0 ==> |t.locations| < |s.locations|
    ensures t.(locations := s.locations) == s
  {
    s.(locations := Remove(s.locations, key))
  }

  /** `handle_LocationInputChange` with the edited entry's id as `key`. */
  function LocationInputChange(s: State, key: int, lat: Number, lng: Number): (t: State)
    ensures |t.locations| == |s.locations|
    ensures forall i :: 0 <= i < |s.locations| ==> t.locations[i].id == s.locations[i].id
    ensures forall i :: 0 <= i < |s.locations| && s.locations[i].id == key ==>
              t.locations[i].lat == lat && t.locations[i].lng == lng
    ensures forall i :: 0 <= i < |s.locations| && s.locations[i].id != key ==>
              t.locations[i] == s.locations[i]
    ensures t.(locations := s.locations) == s
  {
    s.(locations := Update(s.locations, key, lat, lng))
  }

  /** `handle_ClearLocations`: the list empties; the counter is NOT reset. */
  function ClearLocations(s: State): (t: State)
    ensures t.locations == []
    ensures t.locIndex == s.locIndex
    ensures t.(locations := s.locations) == s
  {
    s.(locations := [])
  }

  /** The synchronous part of `handle_TravelTimesSubmit`: a request is sent exactly when the
      key is present, and carries the key and the current list. */
  function TravelTimesSubmit(s: State): (r: (Step, Option<TravelTimesRequest>))
    ensures r.1.Some? <==> |s.googleAPIKey| > 0
    ensures r.1.Some? ==> r.0 == Step(s, []) && r.1.value == TravelTimesRequest(s.googleAPIKey, s.locations)
    ensures r.1.None? ==> r.0 == ValidateGoogleAPIKey(s).1
  {
    var (valid, step) := ValidateGoogleAPIKey(s);
    if !valid then (step, None)
    else (step, Some(TravelTimesRequest(s.googleAPIKey, s.locations)))
  }

  const TravelTimesToast := Toast("Travel Times Results", "See the results for the details...", "success")

  /** The `.then`/`.catch` part of `handle_TravelTimesSubmit`. The reshape reads the location
      list current when the reply ARRIVES, which is why it takes `s.locations`. A throw in the
      reshape leaves `distanceMatrix` as it was, and the success toast is never shown. */
  function TravelTimesCompleted(s: State, reply: Reply<MatrixResponse>): (r: Step)
    ensures r.state.(distanceMatrix := s.distanceMatrix) == s
    ensures reply.Failed? ==> r == Step(s, [ReportError(Rejected(reply.message))])
    ensures reply.Parsed? ==>
              (r.effects == [TravelTimesToast] <==> Readable(reply.response, s.locations))
    ensures reply.Parsed? && Readable(reply.response, s.locations) ==>
              && r.state.distanceMatrix == Some(CalcDistanceMatrix(reply.response, s.locations).value)
              && |r.state.distanceMatrix.value| == CellCount(reply.response.rows)
    ensures reply.Parsed? && !Readable(reply.response, s.locations) ==>
              r.state == s && |r.effects| == 1 && r.effects[0].ReportError?
  {
    match reply
    case Failed(message) => Step(s, [ReportError(Rejected(message))])
    case Parsed(response) =>
      CalcDistanceMatrixShape(response, s.locations);
      match CalcDistanceMatrix(response, s.locations)
      case Done(rows) => Step(s.(distanceMatrix := Some(rows)), [TravelTimesToast])
      case Threw(fault) => Step(s, [ReportError(fault)])
  }

  /** The events the page delivers to the component, with what each carries. */
  datatype Event =
    | InputChanged(name: string, value: string, checked: bool)
    | GeoCodeFormCleared
    | GeoCodeSubmitted
    | GeoCodeReplied(geocode: Reply<GeocodeResponse>)
    | LocationAdded
    | LocationRemoved(key: int)
    | LocationEdited(key: int, lat: Number, lng: Number)
    | LocationsCleared
    | TravelTimesSubmitted
    | TravelTimesReplied(matrix: Reply<MatrixResponse>)

  /** The handler each event runs. */
  function Handle(s: State, e: Event): Step {
    match e
    case InputChanged(name, value, checked) => InputFieldChange(s, name, value, checked)
    case GeoCodeFormCleared => Step(ClearGeoCodeForm(s), [])
    case GeoCodeSubmitted => GeoCodeSubmit(s).0
    case GeoCodeReplied(reply) => GeoCodeCompleted(s, reply)
    case LocationAdded => Step(AddLocation(s), [])
    case LocationRemoved(key) => Step(RemoveLocation(s, key), [])
    case LocationEdited(key, lat, lng) => Step(LocationInputChange(s, key, lat, lng), [])
    case LocationsCleared => Step(ClearLocations(s), [])
    case TravelTimesSubmitted => TravelTimesSubmit(s).0
    case TravelTimesReplied(reply) => TravelTimesCompleted(s, reply)
  }

  /** The state after a sequence of events. */
  function Run(s: State, events: seq<Event>): State
    decreases |events|
  {
    if events == [] then s else Run(Handle(s, events[0]).state, events[1..])
  }

  /** The id invariant the handlers keep: ids never decrease along the list, and none
      exceeds the counter. */
  ghost predicate IdsInOrder(s: State) {
    SortedById(s.locations) && IdsAtMost(s.locations, s.locIndex)
  }

  /** Every handler keeps the id invariant and never moves the counter backwards. */
  lemma HandleKeepsIds(s: State, e: Event)
    requires IdsInOrder(s)
    ensures IdsInOrder(Handle(s, e).state)
    ensures Handle(s, e).state.locIndex >= s.locIndex
  {
    match e
    case LocationRemoved(key) =>
      DeletesOnlyKeepsOrder(s.locations, Remove(s.locations, key), key, s.locIndex);
    case LocationAdded =>
      var t := AddLocation(s).locations;
      assert forall i :: 0 <= i < |s.locations| ==> t[i] == s.locations[i];
    case GeoCodeReplied(reply) =>
      var t := GeoCodeCompleted(s, reply).state.locations;
      if t != s.locations {
        assert forall i :: 0 <= i < |s.locations| ==> t[i] == s.locations[i];
      }
    case _ =>
  }

  /** From the initial state, whatever events arrive, the id invariant holds and the counter
      never goes down. */
  lemma {:induction false} RunKeepsIds(s: State, events: seq<Event>)
    requires IdsInOrder(s)
    ensures IdsInOrder(Run(s, events))
    ensures Run(s, events).locIndex >= s.locIndex
    decreases |events|
  {
    if events != [] {
      HandleKeepsIds(s, events[0]);
      RunKeepsIds(Handle(s, events[0]).state, events[1..]);
    }
  }

  lemma InitialIdsInOrder()
    ensures IdsInOrder(Initial)
  {
  }

  /** Ids are not unique: an entry added right after a successful geocode gets the same id
      as the geocoded entry. */
  lemma AddAfterGeocodeReusesId(s: State, c: Coordinates, status: string)
    requires status == "OK"
    ensures
      var t := AddLocation(GeoCodeCompleted(s, Parsed(GeocodeResponse(status, [c]))).state);
      && |t.locations| == |s.locations| + 2
      && t.locations[|s.locations|].id == t.locations[|s.locations| + 1].id == s.locIndex + 1
  {
  }
}
