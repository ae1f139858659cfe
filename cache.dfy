/**
 * The position cache of position(): eleven shared value slots and one
 * document per representation type, all dropped when a new frame arrives
 * and rebuilt lazily from the current frame of the ring.
 */
module Representation {
  import opened CText
  import opened Values
  import opened Store

  /**
   * One of the eleven static json pointers the documents share:
   * time_ms, latitude_wgs, longitude_wgs, latitude_dms, longitude_dms,
   * altitude_m, speed_ms, speed_kmh, speed_mph, speed_kn, track_d.
   */
  datatype Slot =
    | TimeMs | LatitudeWgs | LongitudeWgs | LatitudeDms | LongitudeDms
    | AltitudeM | SpeedMs | SpeedKmh | SpeedMph | SpeedKn | TrackD

  /** The converted value a slot holds for frame `g`; `None` when its flag is clear. */
  function Expected(g: Frame, s: Slot): Option<Json>
  {
    match s
    case TimeMs => if g.time.Some? then Some(JDouble(FromUint(g.time.value))) else None
    case LatitudeWgs => if g.latitude.Some? then Some(JDouble(g.latitude.value)) else None
    case LongitudeWgs => if g.longitude.Some? then Some(JDouble(g.longitude.value)) else None
    case LatitudeDms => if g.latitude.Some? then Some(JDms(g.latitude.value, true)) else None
    case LongitudeDms => if g.longitude.Some? then Some(JDms(g.longitude.value, false)) else None
    case AltitudeM => if g.altitude.Some? then Some(JDouble(g.altitude.value)) else None
    case SpeedMs => if g.speed.Some? then Some(JDouble(g.speed.value)) else None
    case SpeedKmh =>
      if g.speed.Some? then Some(JDouble(Scale(g.speed.value, MeterPerSecondToKilometerPerHour))) else None
    case SpeedMph =>
      if g.speed.Some? then Some(JDouble(Scale(g.speed.value, MeterPerSecondToMilePerHour))) else None
    case SpeedKn =>
      if g.speed.Some? then Some(JDouble(Scale(g.speed.value, MeterPerSecondToKnot))) else None
    case TrackD => if g.track.Some? then Some(JDouble(g.track.value)) else None
  }

  function IsDms(t: RepType): bool
  {
    t != Wgs84
  }

  /** A quantity the frame may carry, as a json double. */
  function DoubleOf(v: Option<Real>): (j: Option<Json>)
    ensures j.Some? <==> v.Some?
  {
    if v.Some? then Some(JDouble(v.value)) else None
  }

  /** A coordinate in the notation of type `t`. */
  function CoordinateOf(v: Option<Real>, t: RepType, isLatitude: bool): (j: Option<Json>)
    ensures j.Some? <==> v.Some?
  {
    if v.None? then None else if IsDms(t) then Some(JDms(v.value, isLatitude)) else Some(JDouble(v.value))
  }

  /** The speed in the unit of type `t`: m/s for WGS84, km/h, mph or knots otherwise. */
  function SpeedOf(v: Option<Real>, t: RepType): (j: Option<Json>)
    ensures j.Some? <==> v.Some?
  {
    if v.None? then None
    else match t
      case Wgs84 => Some(JDouble(v.value))
      case DmsKmh => Some(JDouble(Scale(v.value, MeterPerSecondToKilometerPerHour)))
      case DmsMph => Some(JDouble(Scale(v.value, MeterPerSecondToMilePerHour)))
      case DmsKn => Some(JDouble(Scale(v.value, MeterPerSecondToKnot)))
  }

  /**
   * The position document of type `t` for frame `g`: its type name, then
   * time, altitude and track, the coordinates (decimal degrees for WGS84,
   * degree-minute-second strings otherwise) and the speed in the unit of
   * the type. It has each member exactly when the frame carries it.
   */
  function DocumentOf(g: Frame, t: RepType): (d: Document)
    ensures d.typeName == TypeName(t)
    ensures d.time.Some? <==> g.time.Some?
    ensures d.altitude.Some? <==> g.altitude.Some?
    ensures d.track.Some? <==> g.track.Some?
    ensures d.latitude.Some? <==> g.latitude.Some?
    ensures d.longitude.Some? <==> g.longitude.Some?
    ensures d.speed.Some? <==> g.speed.Some?
  {
    var time := if g.time.Some? then Some(JDouble(FromUint(g.time.value))) else None;
    Document(TypeName(t), time, DoubleOf(g.altitude), DoubleOf(g.track),
      CoordinateOf(g.latitude, t, true), CoordinateOf(g.longitude, t, false), SpeedOf(g.speed, t))
  }

  /** The three DMS types show the same coordinates: they share latitude_dms and longitude_dms. */
  lemma DmsShareCoordinates(g: Frame, t1: RepType, t2: RepType)
    requires IsDms(t1) && IsDms(t2)
    ensures DocumentOf(g, t1).latitude == DocumentOf(g, t2).latitude
    ensures DocumentOf(g, t1).longitude == DocumentOf(g, t2).longitude
  {
  }

  /** Time, altitude and track do not depend on the representation type. */
  lemma CommonEntries(g: Frame, t1: RepType, t2: RepType)
    ensures DocumentOf(g, t1).time == DocumentOf(g, t2).time
    ensures DocumentOf(g, t1).altitude == DocumentOf(g, t2).altitude
    ensures DocumentOf(g, t1).track == DocumentOf(g, t2).track
  {
  }

  /** The slot of the latitude of type `t`: latitude_wgs or the shared latitude_dms. */
  function LatitudeSlot(t: RepType): Slot
  {
    if IsDms(t) then LatitudeDms else LatitudeWgs
  }

  function LongitudeSlot(t: RepType): Slot
  {
    if IsDms(t) then LongitudeDms else LongitudeWgs
  }

  /** The slot of the speed of type `t`: one per unit. */
  function SpeedSlot(t: RepType): Slot
  {
    match t
    case Wgs84 => SpeedMs
    case DmsKmh => SpeedKmh
    case DmsMph => SpeedMph
    case DmsKn => SpeedKn
  }

  /** The slots a document of type `t` draws from. */
  function SlotsOf(t: RepType): set<Slot>
  {
    {TimeMs, AltitudeM, TrackD, LatitudeSlot(t), LongitudeSlot(t), SpeedSlot(t)}
  }

  /** Each member of the document of type `t` is what its slot holds for the frame. */
  lemma SlotsHoldDocument(g: Frame, t: RepType)
    ensures DocumentOf(g, t).time == Expected(g, TimeMs)
    ensures DocumentOf(g, t).altitude == Expected(g, AltitudeM)
    ensures DocumentOf(g, t).track == Expected(g, TrackD)
    ensures DocumentOf(g, t).latitude == Expected(g, LatitudeSlot(t))
    ensures DocumentOf(g, t).longitude == Expected(g, LongitudeSlot(t))
    ensures DocumentOf(g, t).speed == Expected(g, SpeedSlot(t))
  {
  }

  /** The live slots hold the conversions of frame `g`. */
  ghost predicate MemoOf(memo: map<Slot, Json>, g: Frame)
  {
    forall s | s in memo :: Expected(g, s) == Some(memo[s])
  }

  /**
   * The statics time_ms … track_d (`memo`, a missing slot being NULL) and
   * positions[] (`positions`, a missing type being NULL).
   */
  class Cache {
    var memo: map<Slot, Json>
    var positions: map<RepType, Document>

    /** Everything cached was built from frame `g`. */
    ghost predicate Coherent(g: Frame)
      reads this
    {
      MemoOf(memo, g) && forall t | t in positions :: positions[t] == DocumentOf(g, t)
    }

    /** The statics at load time: every pointer NULL. */
    constructor ()
      ensures memo == map[] && positions == map[]
      ensures forall g :: Coherent(g)
    {
      memo := map[];
      positions := map[];
    }

    /**
     * `if (slot == NULL && flag) slot = new value;` followed by addif's test:
     * the slot is filled from `g` when empty, and `v` is what the document
     * receives.
     */
    method Fill(s: Slot, g: Frame) returns (v: Option<Json>)
      requires MemoOf(memo, g)
      modifies this
      ensures MemoOf(memo, g) && positions == old(positions)
      ensures memo.Keys == old(memo.Keys) + (if Expected(g, s).Some? then {s} else {})
      ensures v == Expected(g, s)
    {
      if s !in memo && Expected(g, s).Some? {
        memo := memo[s := Expected(g, s).value];
      }
      v := if s in memo then Some(memo[s]) else None;
    }

    /**
     * The document of type `t` built from frame `g`: time, altitude and
     * track, then the coordinates and the speed from the slots the two
     * `switch (type)` statements pick, each slot filled first when empty.
     */
    method Build(g: Frame, t: RepType) returns (d: Document)
      requires MemoOf(memo, g)
      modifies this
      ensures d == DocumentOf(g, t)
      ensures MemoOf(memo, g) && positions == old(positions)
      ensures memo.Keys <= old(memo.Keys) + SlotsOf(t)
    {
      var time := Fill(TimeMs, g);
      var altitude := Fill(AltitudeM, g);
      var track := Fill(TrackD, g);
      var lat := Fill(LatitudeSlot(t), g);
      var lon := Fill(LongitudeSlot(t), g);
      var speed := Fill(SpeedSlot(t), g);
      SlotsHoldDocument(g, t);
      d := Document(TypeName(t), time, altitude, track, lat, lon, speed);
    }

    /**
     * position(type): drop every cached value when new frames arrived, then
     * return the cached document of `t` or build it from `frames[frameidx]`.
     * `allocOk` is the outcome of json_object_new_object; `None` is the NULL
     * returned when it fails.
     */
    method Position(ring: FrameRing, t: RepType, allocOk: bool) returns (r: Option<Document>)
      requires ring.Valid() && (ring.newframes == 0 ==> Coherent(ring.Current()))
      modifies this, ring
      ensures ring.Valid() && ring.frames == old(ring.frames) && ring.frameidx == old(ring.frameidx)
      ensures ring.newframes == 0 && Coherent(ring.Current())
      ensures r.Some? ==> r.value == DocumentOf(ring.Current(), t)
      ensures r.None? <==> !allocOk && (old(ring.newframes) != 0 || t !in old(positions))
      ensures old(ring.newframes) == 0 && t in old(positions) ==>
        r == Some(old(positions[t])) && memo == old(memo) && positions == old(positions)
      ensures positions.Keys == (if old(ring.newframes) != 0 then {} else old(positions.Keys)) + (if r.Some? then {t} else {})
      ensures old(ring.newframes) != 0 ==> memo.Keys <= SlotsOf(t)
    {
      if ring.newframes != 0 {
        memo := map[];
        positions := map[];
        ring.newframes := 0;
      }
      if t in positions {
        return Some(positions[t]);
      }
      if !allocOk {
        return None;
      }
      var d := Build(ring.frames[ring.frameidx], t);
      positions := positions[t := d];
      r := Some(d);
    }
  }
}
