/**
 * The values the binding computes with: the decoded GPS frame, the four
 * output representations and their wire names, and the JSON values of a
 * position document.
 *
 * Floating-point quantities are kept symbolic: a `Real` records which C
 * computation produced the double (atof of a field, a sign change, a unit
 * factor) without evaluating it.
 */
module Values {
  import opened CText

  /** The representation types, in the order of the C enum `type`. */
  datatype RepType = Wgs84 | DmsKmh | DmsMph | DmsKn

  /** The wire names, indexed like the enum (type_NAMES). */
  const TypeNames: seq<string> := ["WGS84", "DMS.km/h", "DMS.mph", "DMS.kn"]

  function Index(t: RepType): (i: nat)
    ensures i < |TypeNames|
  {
    match t
    case Wgs84 => 0
    case DmsKmh => 1
    case DmsMph => 2
    case DmsKn => 3
  }

  function TypeAt(i: nat): (t: RepType)
    requires i < |TypeNames|
    ensures Index(t) == i
  {
    if i == 0 then Wgs84 else if i == 1 then DmsKmh else if i == 2 then DmsMph else DmsKn
  }

  function TypeName(t: RepType): string
  {
    TypeNames[Index(t)]
  }

  /** The default representation when a request names none (type_DEFAULT). */
  const DefaultType: RepType := Wgs84

  /**
   * type_of_name: NULL gives the default type, a listed name gives its type,
   * any other name gives type_INVALID (here `None`).
   */
  function TypeOfName(name: Option<CString>): (r: Option<RepType>)
    ensures name.None? ==> r == Some(DefaultType)
    ensures name.Some? && r.Some? ==> TypeName(r.value) == name.value
    ensures name.Some? && r.None? ==> forall t: RepType :: TypeName(t) != name.value
  {
    match name
    case None => Some(DefaultType)
    case Some(n) => SearchName(n, 0)
  }

  /** The `for` loop of type_of_name, from entry `i` on. */
  function SearchName(name: CString, i: nat): (r: Option<RepType>)
    requires i <= |TypeNames|
    ensures r.Some? ==> TypeName(r.value) == name && Index(r.value) >= i
    ensures r.None? ==> forall j | i <= j < |TypeNames| :: TypeNames[j] != name
    decreases |TypeNames| - i
  {
    if i == |TypeNames| then None
    else if TypeNames[i] == name then Some(TypeAt(i))
    else SearchName(name, i + 1)
  }

  /** Every type is found again from its own name. */
  lemma TypeOfNameRoundTrip(t: RepType)
    ensures TypeOfName(Some(TypeName(t))) == Some(t)
  {
    var r := TypeOfName(Some(TypeName(t)));
    assert TypeName(r.value) == TypeName(t);
    assert TypeNames[0] != TypeNames[1] && TypeNames[0] != TypeNames[2] && TypeNames[0] != TypeNames[3];
    assert TypeNames[1] != TypeNames[2] && TypeNames[1] != TypeNames[3] && TypeNames[2] != TypeNames[3];
  }

  /** The unit factors the C code multiplies by (the #define constants). */
  datatype Factor =
    | KnotToMeterPerSecond
    | MeterPerSecondToKilometerPerHour
    | MeterPerSecondToMilePerHour
    | MeterPerSecondToKnot

  /** A C double, named by the computation that produced it. */
  datatype Real =
    | Atof(text: seq<char>)                 // atof(text)
    | FromUint(n: nat)                      // (double) of an unsigned value
    | Degrees(whole: nat, minutes: Real)    // whole + minutes / 60
    | Neg(r: Real)                          // -r
    | WestToEast(r: Real)                   // 360 - r
    | Scale(r: Real, factor: Factor)        // r * factor

  /**
   * struct gps: one decoded fix. `None` is a cleared flag in `set`; the
   * value beside a cleared flag is never read, so it is not modelled.
   */
  datatype Frame = Frame(
    time: Option<nat>,
    latitude: Option<Real>,
    longitude: Option<Real>,
    altitude: Option<Real>,
    speed: Option<Real>,
    track: Option<Real>)

  /** A zero-initialised `struct gps`: every flag cleared. */
  const EmptyFrame: Frame := Frame(None, None, None, None, None, None)

  /** The JSON values a position document holds. */
  datatype Json =
    | JString(s: string)
    | JDouble(r: Real)
    | JDms(r: Real, isLatitude: bool)      // new_dms(r, isLatitude)

  /**
   * A position document: the json object position() returns, with its
   * "type" member and its optional "time", "altitude", "track", "latitude",
   * "longitude" and "speed" members (`None` when absent).
   */
  datatype Document = Document(
    typeName: string,
    time: Option<Json>,
    altitude: Option<Json>,
    track: Option<Json>,
    latitude: Option<Json>,
    longitude: Option<Json>,
    speed: Option<Json>)
}
