/**
 * Sentence decoding: the comma splitter (nmea_split), the dispatch on the
 * sentence name (nmea_sentence), the GGA and RMC gating (nmea_gga,
 * nmea_rmc) and the all-or-nothing frame validation of nmea_set.
 */
module Decoder {
  import opened CText
  import opened Values
  import opened Codec

  // ------------------------------------------------------------ splitting

  /**
   * The fields nmea_split records when it is not stopped by its count: the
   * pieces between commas, except that nothing is recorded after a final
   * comma.
   */
  function Fields(s: CString): (r: seq<CString>)
    ensures NulFree(s) ==> forall i | 0 <= i < |r| :: NulFree(r[i])
    decreases |s|
  {
    if s == [] then []
    else
      var k := IndexOf(s, ',');
      if k == |s| then [s] else [s[..k]] + Fields(s[k + 1..])
  }

  /** The fields joined with commas between them. */
  function Join(fs: seq<CString>): CString
  {
    if fs == [] then []
    else if |fs| == 1 then fs[0]
    else fs[0] + [','] + Join(fs[1..])
  }

  /** No recorded field contains a comma. */
  lemma {:induction false} FieldsCommaFree(s: CString)
    ensures forall i | 0 <= i < |Fields(s)| :: ',' !in Fields(s)[i]
    decreases |s|
  {
    if s != [] {
      var k := IndexOf(s, ',');
      if k < |s| {
        FieldsCommaFree(s[k + 1..]);
      }
    }
  }

  lemma JoinCons(f: CString, rest: seq<CString>)
    requires rest != []
    ensures Join([f] + rest) == f + [','] + Join(rest)
  {
    assert ([f] + rest)[1..] == rest;
  }

  /** The fields of a string with a comma at `k`: the piece before it, then the fields after it. */
  lemma FieldsAtComma(s: CString, k: nat)
    requires k < |s| && IndexOf(s, ',') == k
    ensures Fields(s) == [s[..k]] + Fields(s[k + 1..])
  {
  }

  /** A string is the part before position `k`, the character there, and the part after. */
  lemma Around(s: seq<char>, k: nat)
    requires k < |s|
    ensures s == s[..k] + [s[k]] + s[k + 1..]
  {
  }

  /** Joining the fields gives back the input when it does not end in a comma. */
  lemma {:induction false} FieldsJoin(s: CString)
    requires s == [] || s[|s| - 1] != ','
    ensures Join(Fields(s)) == s
    decreases |s|
  {
    if s != [] {
      var k := IndexOf(s, ',');
      if k < |s| {
        var r := s[k + 1..];
        FieldsAtComma(s, k);
        Around(s, k);
        assert r != [] && r[|r| - 1] == s[|s| - 1];
        FieldsJoin(r);
        JoinCons(s[..k], Fields(r));
      }
    }
  }

  lemma Regroup<T>(a: seq<T>, b: seq<T>, c: seq<T>, d: seq<T>)
    ensures a + b + c + d == a + b + (c + d)
  {
  }

  /** Joining the fields of a string that ends in a comma gives it back without that comma. */
  lemma {:induction false} FieldsJoinComma(s: CString)
    requires s != [] && s[|s| - 1] == ','
    ensures Join(Fields(s)) + [','] == s
    decreases |s|
  {
    var k := IndexOf(s, ',');
    var r := s[k + 1..];
    FieldsAtComma(s, k);
    Around(s, k);
    if r != [] {
      assert r[|r| - 1] == s[|s| - 1];
      FieldsJoinComma(r);
      JoinCons(s[..k], Fields(r));
      Regroup(s[..k], [','], Join(Fields(r)), [',']);
    } else {
      assert Fields(s) == [s[..k]];
    }
  }

  /** Splitting comma-free fields joined with commas gives those fields back when the last is not empty. */
  lemma {:induction false} FieldsOfJoin(fs: seq<CString>)
    requires fs != [] && fs[|fs| - 1] != []
    requires forall i | 0 <= i < |fs| :: ',' !in fs[i]
    ensures Fields(Join(fs)) == fs
  {
    if |fs| == 1 {
      FieldsOfOne(fs[0]);
    } else {
      var f, tail := fs[0], fs[1..];
      FieldsOfJoin(tail);
      var rest := Join(tail);
      assert rest != [];
      JoinCons(f, tail);
      assert [f] + tail == fs;
      FieldsAfterComma(f, rest);
    }
  }

  /** With a comma after the last field, the round trip holds for any fields, empty ones included. */
  lemma {:induction false} FieldsOfJoinComma(fs: seq<CString>)
    requires fs != []
    requires forall i | 0 <= i < |fs| :: ',' !in fs[i]
    ensures Fields(Join(fs) + [',']) == fs
  {
    if |fs| == 1 {
      FieldsOfOne(fs[0]);
    } else {
      var f, tail := fs[0], fs[1..];
      FieldsOfJoinComma(tail);
      var rest := Join(tail);
      JoinCons(f, tail);
      assert [f] + tail == fs;
      assert Join(fs) + [','] == f + [','] + (rest + [',']);
      FieldsAfterComma(f, rest + [',']);
    }
  }

  /** A lone comma-free field, with or without a comma after it. */
  lemma FieldsOfOne(f: CString)
    requires ',' !in f
    ensures f != [] ==> Fields(f) == [f]
    ensures Fields(f + [',']) == [f]
  {
    IndexOfIs(f + [','], ',', |f|);
    assert (f + [','])[..|f|] == f && (f + [','])[|f| + 1..] == [];
    if f != [] {
      IndexOfIs(f, ',', |f|);
    }
  }

  /** A comma-free field, a comma, and a non-empty remainder. */
  lemma FieldsAfterComma(f: CString, rest: CString)
    requires ',' !in f && rest != []
    ensures Fields(f + [','] + rest) == [f] + Fields(rest)
  {
    var s := f + [','] + rest;
    IndexOfIs(s, ',', |f|);
    assert s[..|f|] == f && s[|f| + 1..] == rest;
  }

  /** One turn of the outer loop of nmea_split: the field from `i` up to the comma at `j`. */
  lemma FieldsStepComma(s: CString, i: nat, j: nat)
    requires i <= j < |s| && s[j] == ','
    requires forall k | i <= k < j :: s[k] != ','
    ensures Fields(s[i..]) == [s[i..j]] + Fields(s[j + 1..])
  {
    var t := s[i..];
    IndexOfIs(t, ',', j - i);
    assert t[..j - i] == s[i..j];
    assert t[j - i + 1..] == s[j + 1..];
  }

  /** The last turn: the field from `i` runs to the end. */
  lemma FieldsStepEnd(s: CString, i: nat)
    requires i < |s|
    requires forall k | i <= k < |s| :: s[k] != ','
    ensures Fields(s[i..]) == [s[i..]]
  {
    IndexOfIs(s[i..], ',', |s| - i);
  }

  function Min(a: nat, b: nat): nat
  {
    if a < b then a else b
  }

  /** The inner loop of nmea_split: advance to the next comma or the end. */
  method FieldEnd(s: CString, i: nat) returns (j: nat)
    requires NulFree(s) && i <= |s|
    ensures i <= j <= |s|
    ensures forall k | i <= k < j :: s[k] != ','
    ensures j < |s| ==> s[j] == ','
  {
    j := i;
    while At(s, j) != '\0' && s[j] != ','
      invariant i <= j <= |s|
      invariant forall k | i <= k < j :: s[k] != ','
      decreases |s| - j
    {
      j := j + 1;
    }
  }

  lemma SplitStep(s: CString, i: nat, j: nat, before: seq<CString>)
    requires i <= j < |s| && s[j] == ','
    requires forall k | i <= k < j :: s[k] != ','
    requires before + Fields(s[i..]) == Fields(s)
    ensures (before + [s[i..j]]) + Fields(s[j + 1..]) == Fields(s)
  {
    FieldsStepComma(s, i, j);
    assert (before + [s[i..j]]) + Fields(s[j + 1..]) == before + ([s[i..j]] + Fields(s[j + 1..]));
  }

  lemma SplitLast(s: CString, i: nat, j: nat, before: seq<CString>)
    requires i < j == |s|
    requires forall k | i <= k < j :: s[k] != ','
    requires before + Fields(s[i..]) == Fields(s)
    ensures (before + [s[i..j]]) + Fields(s[j..]) == Fields(s)
  {
    FieldsStepEnd(s, i);
    assert s[i..j] == s[i..];
    assert s[j..] == [];
  }

  /** One turn of the outer loop of nmea_split records the field from `i` to `j`. */
  lemma SplitNext(s: CString, i: nat, j: nat, before: seq<CString>)
    requires i < |s| && i <= j <= |s|
    requires forall k | i <= k < j :: s[k] != ','
    requires j < |s| ==> s[j] == ','
    requires before + Fields(s[i..]) == Fields(s)
    ensures (before + [s[i..j]]) + Fields(s[if j < |s| then j + 1 else j..]) == Fields(s)
  {
    if j < |s| {
      SplitStep(s, i, j, before);
    } else {
      SplitLast(s, i, j, before);
    }
  }

  /**
   * nmea_split: cut `s` at its commas into at most `count` fields; succeed
   * when the whole string was consumed by exactly `count` fields.
   */
  method Split(s: CString, count: nat) returns (ok: bool, fields: seq<CString>)
    requires NulFree(s)
    ensures ok <==> |Fields(s)| == count
    ensures fields == Fields(s)[..Min(count, |Fields(s)|)]
  {
    var i := 0;
    fields := [];
    assert s[i..] == s;
    // `*s` tests `i < |s|`: a CString holds no NUL before its end.
    while i < |s| && |fields| < count
      invariant i <= |s|
      invariant |fields| <= count
      invariant fields + Fields(s[i..]) == Fields(s)
      decreases |s| - i
    {
      var j := FieldEnd(s, i);
      SplitNext(s, i, j, fields);
      fields := fields + [s[i..j]];
      // `if (*s == ',') *s++ = 0;`
      i := if j < |s| then j + 1 else j;
    }
    ok := i == |s| && |fields| == count;
    SplitExit(s, i, fields, count);
  }

  /** What the exit of the outer loop of nmea_split tells. */
  lemma SplitExit(s: CString, i: nat, fields: seq<CString>, count: nat)
    requires i <= |s| && |fields| <= count
    requires fields + Fields(s[i..]) == Fields(s)
    requires i == |s| || |fields| == count
    ensures (i == |s| && |fields| == count) <==> |Fields(s)| == count
    ensures fields == Fields(s)[..Min(count, |Fields(s)|)]
  {
    if i < |s| {
      assert Fields(s[i..]) != [];
    } else {
      assert Fields(s[i..]) == [];
    }
    assert Fields(s)[..|fields|] == fields;
  }

  // ------------------------------------------------------------ dispatch

  /** What nmea_sentence hands on: the text after "GGA," or "RMC,", or nothing. */
  datatype Kind = Gga(body: CString) | Rmc(body: CString) | Ignored

  /** nmea_sentence: two talker characters, then the sentence name and a comma. */
  function Classify(s: CString): (r: Kind)
    requires NulFree(s)
    ensures r.Gga? <==> |s| >= 6 && s[2..6] == "GGA,"
    ensures r.Rmc? <==> |s| >= 6 && s[2..6] == "RMC,"
    ensures !r.Ignored? ==> r.body == s[6..]
  {
    if At(s, 0) == '\0' || At(s, 1) == '\0' then Ignored
    else if At(s, 2) == 'G' && At(s, 3) == 'G' && At(s, 4) == 'A' && At(s, 5) == ',' then
      Gga(s[6..])
    else if At(s, 2) == 'R' && At(s, 3) == 'M' && At(s, 4) == 'C' && At(s, 5) == ',' then
      Rmc(s[6..])
    else Ignored
  }

  // ---------------------------------------------------------- validation

  /** The ten pointer arguments of nmea_set; `None` is NULL. */
  datatype SetArgs = SetArgs(
    tim: Option<CString>,
    lat: Option<CString>, latu: Option<CString>,
    lon: Option<CString>, lonu: Option<CString>,
    alt: Option<CString>, altu: Option<CString>,
    spe: Option<CString>,
    tra: Option<CString>,
    dat: Option<CString>)

  /**
   * The outcome of nmea_set: rejected (returns 0, nothing stored), a frame
   * to store, or a call of atof on a NULL track pointer, which is undefined
   * behaviour and happens before anything is stored.
   */
  datatype Decoded = Rejected | Crash | Stored(frame: Frame)

  /** nmea_gga passes fields 0-4 and 6-7; speed, track and date are NULL. */
  function GgaArgs(f: seq<CString>): SetArgs
    requires |f| == 14
  {
    SetArgs(Some(f[0]), Some(f[1]), Some(f[2]), Some(f[3]), Some(f[4]), Some(f[6]), Some(f[7]), None, None, None)
  }

  /** nmea_rmc passes fields 0 and 2-8; altitude and its unit are NULL. */
  function RmcArgs(f: seq<CString>): SetArgs
    requires |f| == 12
  {
    SetArgs(Some(f[0]), Some(f[2]), Some(f[3]), Some(f[4]), Some(f[5]), None, None, Some(f[6]), Some(f[7]), Some(f[8]))
  }

  /** Both pointers of a value/unit pair are non-NULL. */
  predicate Both(v: Option<CString>, u: Option<CString>)
  {
    v.Some? && u.Some?
  }

  /** The C test `(u[0] != a && u[0] != b) || u[1] != 0`, i.e. `u` is not exactly "a" or "b". */
  predicate BadUnit(u: CString, a: char, b: char)
  {
    (At(u, 0) != a && At(u, 0) != b) || At(u, 1) != '\0'
  }

  /** A unit passes the C test exactly when it is the one-character string "a" or "b". */
  lemma UnitIs(u: CString, a: char, b: char)
    requires NulFree(u) && a != '\0' && b != '\0'
    ensures !BadUnit(u, a, b) <==> (u == [a] || u == [b])
  {
    if !BadUnit(u, a, b) {
      assert |u| == 1;
    }
  }

  /** The unit tests of nmea_set, each read as a string comparison. */
  lemma UnitsOf(a: SetArgs)
    requires ArgsNulFree(a)
    ensures Both(a.lat, a.latu) ==> (!BadUnit(a.latu.value, 'N', 'S') <==> (a.latu.value == "N" || a.latu.value == "S"))
    ensures Both(a.lon, a.lonu) ==> (!BadUnit(a.lonu.value, 'E', 'W') <==> (a.lonu.value == "E" || a.lonu.value == "W"))
    ensures Both(a.alt, a.altu) ==> (!BadUnit(a.altu.value, 'M', 'M') <==> a.altu.value == "M")
  {
    if Both(a.lat, a.latu) {
      UnitIs(a.latu.value, 'N', 'S');
    }
    if Both(a.lon, a.lonu) {
      UnitIs(a.lonu.value, 'E', 'W');
    }
    if Both(a.alt, a.altu) {
      UnitIs(a.altu.value, 'M', 'M');
    }
  }

  /** Every non-NULL argument is a C string. */
  predicate ArgsNulFree(a: SetArgs)
  {
    forall s | s in [a.tim, a.lat, a.latu, a.lon, a.lonu, a.alt, a.altu, a.spe, a.tra, a.dat] && s.Some? :: NulFree(s.value)
  }

  /** Everything nmea_set checks before it reaches the track. */
  predicate FieldsValid(a: SetArgs)
    requires ArgsNulFree(a)
  {
    && (a.tim.Some? ==> Time(a.tim.value).Some?)
    && (Both(a.lat, a.latu) ==> (a.latu.value == "N" || a.latu.value == "S") && Angle(a.lat.value).Some?)
    && (Both(a.lon, a.lonu) ==> (a.lonu.value == "E" || a.lonu.value == "W") && Angle(a.lon.value).Some?)
    && (Both(a.alt, a.altu) ==> a.altu.value == "M")
  }

  /**
   * nmea_set without the push: validate every supplied field in turn and
   * build the frame. The track test is inverted in the C code: a supplied
   * track clears the flag and a NULL track is passed to atof.
   */
  function DecodeFrame(a: SetArgs): (r: Decoded)
    requires ArgsNulFree(a)
    ensures r.Rejected? <==> !FieldsValid(a)
    ensures r.Crash? <==> FieldsValid(a) && a.tra.None?
    ensures r.Stored? ==>
      && r.frame.time == (if a.tim.Some? then Time(a.tim.value) else None)
      && (r.frame.latitude.Some? <==> Both(a.lat, a.latu))
      && (r.frame.longitude.Some? <==> Both(a.lon, a.lonu))
      && (r.frame.altitude.Some? <==> Both(a.alt, a.altu))
      && (r.frame.speed.Some? <==> a.spe.Some?)
      && r.frame.track.None?
    ensures r.Stored? && Both(a.lat, a.latu) ==>
      r.frame.latitude.value == (if a.latu.value == "S" then Neg(Angle(a.lat.value).value) else Angle(a.lat.value).value)
    ensures r.Stored? && Both(a.lon, a.lonu) ==>
      r.frame.longitude.value == (if a.lonu.value == "W" then WestToEast(Angle(a.lon.value).value) else Angle(a.lon.value).value)
  {
    UnitsOf(a);
    if a.tim.Some? && Time(a.tim.value).None? then Rejected
    else if Both(a.lat, a.latu) && BadUnit(a.latu.value, 'N', 'S') then Rejected
    else if Both(a.lat, a.latu) && Angle(a.lat.value).None? then Rejected
    else if Both(a.lon, a.lonu) && BadUnit(a.lonu.value, 'E', 'W') then Rejected
    else if Both(a.lon, a.lonu) && Angle(a.lon.value).None? then Rejected
    else if Both(a.alt, a.altu) && BadUnit(a.altu.value, 'M', 'M') then Rejected
    else if a.tra.None? then Crash
    else
      var time := if a.tim.Some? then Time(a.tim.value) else None;
      var latitude :=
        if !Both(a.lat, a.latu) then None
        else if At(a.latu.value, 0) == 'S' then Some(Neg(Angle(a.lat.value).value))
        else Some(Angle(a.lat.value).value);
      var longitude :=
        if !Both(a.lon, a.lonu) then None
        else if At(a.lonu.value, 0) == 'W' then Some(WestToEast(Angle(a.lon.value).value))
        else Some(Angle(a.lon.value).value);
      var altitude := if Both(a.alt, a.altu) then Some(Atof(a.alt.value)) else None;
      var speed := if a.spe.Some? then Some(Scale(Atof(a.spe.value), KnotToMeterPerSecond)) else None;
      Stored(Frame(time, latitude, longitude, altitude, speed, None))
  }

  /**
   * nmea_gga: 14 fields and a fix quality not starting with '0'. Every GGA
   * sentence that passes reaches atof(NULL) in nmea_set, so none is stored.
   */
  function DecodeGga(body: CString): (r: Decoded)
    requires NulFree(body)
    ensures !r.Stored?
    ensures r.Crash? <==>
      && |Fields(body)| == 14
      && At(Fields(body)[5], 0) != '0'
      && FieldsValid(GgaArgs(Fields(body)))
  {
    var f := Fields(body);
    if |f| != 14 || At(f[5], 0) == '0' then Rejected else DecodeFrame(GgaArgs(f))
  }

  /**
   * nmea_rmc: 12 fields and a status starting with 'A'. A stored frame has
   * time, position and speed, but never altitude or track.
   */
  function DecodeRmc(body: CString): (r: Decoded)
    requires NulFree(body)
    ensures !r.Crash?
    ensures r.Stored? <==>
      && |Fields(body)| == 12
      && At(Fields(body)[1], 0) == 'A'
      && FieldsValid(RmcArgs(Fields(body)))
    ensures r.Stored? ==>
      && r.frame.time.Some? && r.frame.latitude.Some? && r.frame.longitude.Some?
      && r.frame.speed.Some? && r.frame.altitude.None? && r.frame.track.None?
  {
    var f := Fields(body);
    if |f| != 12 || At(f[1], 0) != 'A' then Rejected else DecodeFrame(RmcArgs(f))
  }

  /** nmea_sentence followed by nmea_gga or nmea_rmc. */
  function Interpret(s: CString): (r: Decoded)
    requires NulFree(s)
    // only an RMC sentence with an active status can store a frame ...
    ensures r.Stored? ==>
      && Classify(s).Rmc?
      && |Fields(Classify(s).body)| == 12
      && At(Fields(Classify(s).body)[1], 0) == 'A'
    // ... and a GGA sentence never does
    ensures Classify(s).Gga? ==> !r.Stored?
    ensures Classify(s).Ignored? ==> r.Rejected?
  {
    match Classify(s)
    case Ignored => Rejected
    case Gga(body) => DecodeGga(body)
    case Rmc(body) => DecodeRmc(body)
  }
}
