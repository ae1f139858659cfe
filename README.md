# af-gps-binding in Dafny

A model of the GPS binding of the AGL application framework
(`src/af-gps-binding.c`). The binding reads an NMEA-0183 stream and
decodes its GGA and RMC sentences into GPS fixes. It keeps the last ten
fixes in a ring and serves the current position as a JSON document in
four representations (WGS84, and degree-minute-second with km/h, mph or
knots). Subscribers receive that document periodically through events,
grouped by refresh period.

Modules follow the parts of the C file:

- `CText` (ctext.dfy): C strings as `seq<char>`, where `At` reads the terminator as `'\0'`, plus `strchrnul` (`IndexOf`) and decimal digits.
- `Values` (values.dfy): `struct gps` (`Frame`, a flag being `None`) and `enum type` with `type_NAMES` and `type_of_name`. Also the symbolic doubles (`Real`) and the JSON values of a document.
- `Codec` (codec.dfy): `nmea_time` and `nmea_angle`.
- `Decoder` (decoder.dfy): `nmea_split` (a loop over the string) and the pure decision of `nmea_set`, `nmea_gga`, `nmea_rmc` and `nmea_sentence`.
- `Store` (store.dfy): the `frames`/`frameidx`/`newframes` ring as a class. `Set`, `Gga`, `Rmc` and `Sentence` are the decoder entry points that push into it.
- `Framer` (framer.dfy): the scan loop of `nmea_read` as a class over the 160-byte `buffer`, `pos` and `overflow`, with a reference function `Scan`.
- `Representation` (cache.dfy): the position cache of `position()` as a class with the eleven value slots and the four documents.
- `Registry` (registry.dfy): `event_get` and `event_of_id`. The period list is a sequence of periods, each holding the ids of its events in list order. Each event id maps to its type and period. The `byid` chain is a sequence of ids.
- `Dispatch` (dispatch.dfy): `event_send`.

Floating-point values are symbolic: `Atof(text)`, `Degrees(whole, minutes)`, `Neg`, `WestToEast` (360 − x) and `Scale(x, factor)` record which computation the C code performs, without evaluating it.

Foreign results are parameters:

- the time `now` of `gettimeofday`;
- whether `afb_daemon_make_event` succeeded (`makeOk`);
- whether `json_object_new_object` succeeded (`allocOk`);
- the set `alive` of events whose `afb_event_push` still reached a listener;
- the bytes returned by `read` (`data`).

Behaviours of the code that the model keeps as they are:

- A fourth fractional digit of the time adds 1 ms only when it is greater than '5' (line 458).
- Nothing after the fourth fractional digit of a time is inspected (lines 446-463).
- The RMC status test looks only at the first character of the field (line 632), so `"AX"` passes.
- The fix-quality test of GGA rejects only a field starting with '0' (line 620), so an empty field passes.
- GGA hands fields 6 and 7 (number of satellites and HDOP) to `nmea_set` as altitude and altitude unit (line 621).
- The mask loop of lines 316-317 is modelled as written, and it does not terminate for some periods.

## Model

| member | source | states |
|---|---|---|
| CText.IndexOf | src/af-gps-binding.c:473 | the index strchrnul returns: the first occurrence, or the length when there is none |
| Values.TypeOfName | src/af-gps-binding.c:795-804 | NULL gives type_DEFAULT; a listed name gives the type of that name; any other name matches no type |
| Values.SearchName | src/af-gps-binding.c:800-803 | the search loop from entry i finds a type with that name at or after i, or no entry from i on has it |
| Values.TypeOfNameRoundTrip | src/af-gps-binding.c:100-105 | every type is found again from its name in type_NAMES |
| Codec.Time | src/af-gps-binding.c:426-467 | the time is accepted exactly when the digit and terminator checks pass; then it is the value in ms, at most 86 400 000 |
| Codec.ClockCheck | src/af-gps-binding.c:430-437 | the range checks accept exactly six leading digits with HH ≤ 23, MM ≤ 59, SS ≤ 59, followed by the end or '.' |
| Codec.ClockValue | src/af-gps-binding.c:439-445 | the accumulation gives ((HH·60+MM)·60+SS)·1000 |
| Codec.FractionValue | src/af-gps-binding.c:446-462 | the fraction is accepted iff each present digit among text[7..10] is a digit; it adds 100·f1 + 10·f2 + f3, plus 1 when text[10] > '5' |
| Codec.TimeOfFormat | src/af-gps-binding.c:426-467 | every time of day below 24 h, printed as HHMMSS.fff, decodes to itself |
| Codec.TimeLastDigit | src/af-gps-binding.c:426-467 | "235959" is 86 399 000 ms |
| Codec.TimeRoundsUp | src/af-gps-binding.c:456-459 | a fourth fractional digit '6' adds one millisecond |
| Codec.TimeRoundsDown | src/af-gps-binding.c:456-459 | a fourth fractional digit '5' adds nothing |
| Codec.TimeOutOfRange | src/af-gps-binding.c:430-437 | hour 24, minute 60 and a five-digit time are rejected |
| Codec.Angle | src/af-gps-binding.c:469-504 | accepted exactly when the digits before the minutes and the dot position pass; the result is whole degrees (at most 999) plus atof of the minutes |
| Codec.AngleOfFormat | src/af-gps-binding.c:469-504 | up to three degree digits followed by minutes with the '.' at index 2 decode to those degrees and minutes |
| Codec.AngleOfLatitude | src/af-gps-binding.c:469-504 | "4807.038" is 48 degrees plus atof("07.038") minutes |
| Codec.AngleOfLongitude | src/af-gps-binding.c:469-504 | "01131.000" is 11 degrees plus atof("31.000") minutes |
| Codec.AngleTooLong | src/af-gps-binding.c:497-498 | a dot at index 6 is rejected |
| Codec.AngleNotDigit | src/af-gps-binding.c:476-491 | a non-digit in the degrees, or at index 0 when the dot is at 1, is rejected |
| Decoder.Split | src/af-gps-binding.c:599-610 | returns true iff the string has exactly `count` fields; the pointers are the first min(count, fields) fields |
| Decoder.FieldEnd | src/af-gps-binding.c:603-604 | the inner loop stops at the next ',' or at the end |
| Decoder.Fields | src/af-gps-binding.c:599-610 | the fields of a string without NUL are without NUL |
| Decoder.FieldsCommaFree | src/af-gps-binding.c:603-606 | no field contains a ',' |
| Decoder.FieldsJoin | src/af-gps-binding.c:599-610 | joining the fields with ',' gives back a string that does not end in ',' |
| Decoder.FieldsJoinComma | src/af-gps-binding.c:605-606 | a trailing ',' is dropped: the joined fields plus ',' give back the string |
| Decoder.FieldsOfJoin | src/af-gps-binding.c:599-610 | comma-free fields ending in a non-empty one, joined, split back into themselves |
| Decoder.FieldsOfJoinComma | src/af-gps-binding.c:605-606 | the same with a trailing ',', whose empty field is not counted |
| Decoder.SplitExit | src/af-gps-binding.c:609 | when the loop stops, `!*s && index == count` holds iff there are exactly `count` fields |
| Decoder.Classify | src/af-gps-binding.c:645-649 | a sentence is GGA or RMC iff characters 2-5 are "GGA," or "RMC,"; the body starts at character 6 |
| Decoder.UnitIs | src/af-gps-binding.c:530-555 | the unit test passes iff the unit is exactly one of the two letters |
| Decoder.UnitsOf | src/af-gps-binding.c:530-555 | the hemisphere must be exactly "N"/"S" or "E"/"W", and the altitude unit exactly "M" |
| Decoder.DecodeFrame | src/af-gps-binding.c:506-597 | all or nothing: rejected iff a time, angle or unit check fails; atof(NULL) outcome iff the checks pass and the track pointer is NULL; otherwise only the flags of non-NULL pointers are set, 'S' negates, 'W' gives 360 − angle, and there is never a track |
| Decoder.DecodeGga | src/af-gps-binding.c:615-622 | never stores a frame; crashes exactly when 14 fields, a fix quality not starting with '0' and valid fields are present |
| Decoder.DecodeRmc | src/af-gps-binding.c:627-634 | stores iff 12 fields, a status starting with 'A' and valid fields; the frame has time, position and speed but no altitude and no track |
| Decoder.Interpret | src/af-gps-binding.c:640-652 | only an active RMC sentence stores a frame, GGA never does, any other kind is ignored |
| Store.Pushed | src/af-gps-binding.c:583-585 | the ring seen newest first after a push: the new frame, then the older ones moved down one place |
| Store.PushedAllAt | src/af-gps-binding.c:583-585 | after pushing n frames, entry k is the k-th newest pushed frame, or the old entry k − n |
| Store.PushedAllAppend | src/af-gps-binding.c:583-585 | pushing two batches is pushing their concatenation |
| Store.FrameRing.constructor | src/af-gps-binding.c:112-114 | zero-initialised statics: ten empty frames, frameidx 0, newframes 0 |
| Store.FrameRing.History | src/af-gps-binding.c:112-114 | the ten slots read from frameidx on, newest first |
| Store.FrameRing.Push | src/af-gps-binding.c:583-585 | frameidx becomes (old + 9) mod 10; only that slot is overwritten; newframes is incremented; the history is `Pushed` |
| Store.FrameRing.Set | src/af-gps-binding.c:506-597 | the outcome is `DecodeFrame`; a stored frame is pushed; a rejected or crashing call leaves the ring untouched |
| Store.FrameRing.Gga | src/af-gps-binding.c:615-622 | the outcome is `DecodeGga`, and the ring is untouched |
| Store.FrameRing.Rmc | src/af-gps-binding.c:627-634 | the outcome is `DecodeRmc`; the ring changes only by one push of the stored frame |
| Store.FrameRing.Sentence | src/af-gps-binding.c:640-652 | the outcome is `Interpret`; the ring changes only by one push of the stored frame |
| Framer.CutAt | src/af-gps-binding.c:688-692 | the line is cut at the '*' four bytes before the '\n' if there is one, otherwise at the '\r' |
| Framer.Scan | src/af-gps-binding.c:676-703 | the reference scan: the sentences handed on, the bytes left and the overflow flag; fewer than 160 bytes are left |
| Framer.ScanAt | src/af-gps-binding.c:685-701 | at the first '\n', the line goes on iff it is accepted; the scan continues after it with overflow cleared |
| Framer.ScanNone | src/af-gps-binding.c:678-684 | without a '\n', 160 bytes set overflow and empty the buffer; fewer are kept |
| Framer.ScanNulFree | src/af-gps-binding.c:688-693 | every sentence handed on is a C string: nmea_sentence reads up to the NUL written at the cut |
| Framer.ScanRest | src/af-gps-binding.c:697-700 | the bytes kept hold no '\n' |
| Framer.ScanAppend | src/af-gps-binding.c:676-703 | for two pieces that together fit in the 160-byte buffer, scanning the first and then what it left followed by the second is scanning their concatenation |
| Framer.OverflowDropsLine | src/af-gps-binding.c:686-701 | after an overflow exactly the next line is dropped, and the scan goes on as if there had been none |
| Framer.ScanOneLine | src/af-gps-binding.c:685-701 | a single line ending in '\n' gives its sentence iff it is accepted, and leaves nothing |
| Framer.FramedSentence | src/af-gps-binding.c:686-693 | "$" s "*hh\r\n" hands on s; the checksum is removed and not verified |
| Framer.BareSentence | src/af-gps-binding.c:686-693 | "$" s "\r\n" hands on s when there is no '*' three bytes before the end of s |
| Framer.KeptSnoc | src/af-gps-binding.c:694 | a stored outcome adds its frame to those kept; a rejected one adds nothing |
| Framer.KeptCrash | src/af-gps-binding.c:575-579 | nothing after an atof(NULL) outcome reaches the ring |
| Framer.ReadEndAsWritten | src/af-gps-binding.c:666-676 | the code's end index, the byte count, equals the real end only when pos is 0 |
| Framer.ReadEndAsWrittenOverruns | src/af-gps-binding.c:666-684 | with "$GPGGA" buffered and no newline, a read of one byte makes the loop step past the buffer |
| Framer.SkipRunInside | src/af-gps-binding.c:676-684 | with the end at pos + count ≤ 160 the loop never leaves the buffer |
| Framer.CutString | src/af-gps-binding.c:688-693 | the C string at &buffer[1] after the NUL is written is the sentence of the line |
| Framer.LineFramer.constructor | src/af-gps-binding.c:659-661 | the statics start with pos 0 and overflow clear |
| Framer.LineFramer.ReadChunk | src/af-gps-binding.c:663-705 | after a read of `data` the buffer, pos, overflow, ring history and newframes are those the reference scan of the old bytes plus `data` gives; an atof(NULL) outcome is reported |
| Framer.LineFramer.ReadScan | src/af-gps-binding.c:666-703 | reading `data` into `&buffer[pos]` and running the scan loop over the valid bytes yields the reference scan's sentences, rest and overflow for the old bytes plus `data` |
| Framer.LineFramer.ScanBuffer | src/af-gps-binding.c:676-703 | the scan loop returns exactly the reference scan's sentences and leaves its rest and overflow |
| Framer.LineFramer.Skip | src/af-gps-binding.c:677-684 | one step over a byte other than '\n', with the overflow reset at 160 bytes |
| Framer.LineFramer.Line | src/af-gps-binding.c:685-701 | at a '\n': the sentence iff the line is accepted; the rest moved to the front; pos 0 and overflow cleared |
| Framer.LineFramer.Cut | src/af-gps-binding.c:688-692 | writing the NUL at the cut makes the line's sentence, and touches nothing from pos on |
| Framer.LineFramer.Load | src/af-gps-binding.c:666 | read() places the bytes at &buffer[pos] |
| Framer.LineFramer.Shift | src/af-gps-binding.c:697-699 | memmove brings `count` bytes from `from` to the front |
| Framer.Feed | src/af-gps-binding.c:694 | the sentences are decoded in order into the ring until an atof(NULL) outcome |
| Representation.DocumentOf | src/af-gps-binding.c:202-286 | the document always has "type", and has each of time, altitude, track, latitude, longitude and speed iff the frame has that flag |
| Representation.DoubleOf | src/af-gps-binding.c:229-237 | a value is present iff its flag is set |
| Representation.CoordinateOf | src/af-gps-binding.c:239-260 | the coordinate is present iff its flag is set, as a double for WGS84 and in DMS otherwise |
| Representation.SpeedOf | src/af-gps-binding.c:262-285 | the speed is present iff its flag is set, in the unit of the type |
| Representation.DmsShareCoordinates | src/af-gps-binding.c:250-259 | the three DMS types show the same latitude and longitude |
| Representation.CommonEntries | src/af-gps-binding.c:228-237 | time, altitude and track do not depend on the type |
| Representation.SlotsHoldDocument | src/af-gps-binding.c:214-285 | each member of a document is the value of the slot the type selects |
| Representation.Cache.constructor | src/af-gps-binding.c:116-128 | every cache pointer starts NULL |
| Representation.Cache.Fill | src/af-gps-binding.c:229-283 | an empty slot is filled from the frame when its flag is set; the document receives the slot's value |
| Representation.Cache.Build | src/af-gps-binding.c:202-286 | the built document is `DocumentOf` the current frame; only the slots of the type are filled |
| Representation.Cache.Position | src/af-gps-binding.c:188-289 | new frames clear all 15 pointers and reset newframes; the result is the current frame's document; a repeat call returns the cached document and changes nothing; NULL iff the allocation fails on a missing document |
| Registry.Clamp | src/af-gps-binding.c:314 | ≤ 100 gives 1, > 60000 gives 600, otherwise period / 100 |
| Registry.NormalizePeriod | src/af-gps-binding.c:314-318 | when the loop ends, the bucket is exactly 100 × the clamped period |
| Registry.PeriodTwoSecondsFits | src/af-gps-binding.c:315-317 | 2000 ms gives 20, which fits the first mask |
| Registry.PeriodThirtyThreeHangs | src/af-gps-binding.c:315-317 | 3300 ms gives 33, which no mask 31·2^k fits, so the loop never ends |
| Registry.PeriodAboveMinuteHangs | src/af-gps-binding.c:314-317 | every period above a minute gives 600, which no mask fits |
| Registry.OneEventEach | src/af-gps-binding.c:340-370 | in a well-formed registry at most one event exists per period and type |
| Registry.SearchPeriod | src/af-gps-binding.c:320-326 | the search stops at the first period whose bucket is not below the one sought |
| Registry.WithPeriodOk | src/af-gps-binding.c:328-337 | the period of the bucket is then at the search position and the registry stays well formed |
| Registry.NoneOfType | src/af-gps-binding.c:340-343 | when the search of the type fails, no event of that period and type exists at all |
| Registry.AddEventOk | src/af-gps-binding.c:345-369 | linking a new event with a fresh id at the head of both lists keeps the registry well formed |
| Registry.FreeIdExists | src/af-gps-binding.c:361-365 | with fewer than INT_MAX events, some id in 1..INT_MAX is free |
| Registry.NextId | src/af-gps-binding.c:362-364 | the incremented id is positive: INT_MAX wraps around to 1 |
| Registry.Registry.constructor | src/af-gps-binding.c:130-131 | both lists start empty, and the id counter (the static `id` of event_get, line 307) starts at 0 |
| Registry.Registry.EventOfId | src/af-gps-binding.c:294-300 | the event with that id is found iff it exists |
| Registry.Registry.FindPeriod | src/af-gps-binding.c:320-326 | the loop stops where `SearchPeriod` does |
| Registry.Registry.FindType | src/af-gps-binding.c:340-342 | the loop stops at the first event of the type, or at the end |
| Registry.Registry.AllocateId | src/af-gps-binding.c:361-365 | the new id is positive and unused |
| Registry.Registry.EventGet | src/af-gps-binding.c:305-372 | keeps the registry well formed; returns the existing event of the bucket and type without changing anything; else creates one with a fresh id at the head of both lists; on failure the period inserted stays, empty |
| Dispatch.Filter | src/af-gps-binding.c:400-413 | the events kept are those of the list with listeners, in order |
| Dispatch.FilterHas | src/af-gps-binding.c:400-413 | an event is kept iff it was on the list and still has listeners |
| Dispatch.FilterDistinct | src/af-gps-binding.c:400-413 | removing events keeps the list free of repeats |
| Dispatch.Unlink | src/af-gps-binding.c:409-415 | the event is unlinked from the byid chain, other events keeping their order, and freed |
| Dispatch.WithoutOne | src/af-gps-binding.c:410-413 | splicing out the one occurrence is removing the event |
| Dispatch.WithoutTwice | src/af-gps-binding.c:410-413 | removing events one at a time is removing them all at once |
| Dispatch.PushOne | src/af-gps-binding.c:401-412 | the event receives the current document of its type; without listeners it leaves both lists |
| Dispatch.PushAll | src/af-gps-binding.c:398-413 | the events of a due period receive their documents in order; those without listeners are freed |
| Dispatch.VisitPeriod | src/af-gps-binding.c:390-418 | an empty period is freed, a due one fires and gets last = now, any other is kept as it is |
| Dispatch.Walk | src/af-gps-binding.c:388-422 | the walk over the periods yields `SendPeriods`, frees the `Dropped` events from the chain and the table, and pushes the documents of `Fired` in order |
| Dispatch.WalkStep | src/af-gps-binding.c:390-421 | visiting one more period extends the kept list, the freed set and the pushes by exactly what that period contributes |
| Dispatch.SendAll | src/af-gps-binding.c:387-422 | the period list, the byid chain and the table become `SendPeriods`, `Without` and `Restrict` of the events dropped, the pushes are those of the due periods in order, and the registry stays well formed |
| Dispatch.EventSend | src/af-gps-binding.c:374-424 | does nothing when no frame is new; otherwise behaves as `SendAll` |
| Dispatch.FiredHas | src/af-gps-binding.c:390-397 | an event is pushed iff its period is non-empty and period ≤ (now − last) mod 2^32 |
| Dispatch.FiredDistinct | src/af-gps-binding.c:390-413 | no event is pushed twice by one call |
| Dispatch.PeriodReady | src/af-gps-binding.c:398-413 | the events of the period being visited are distinct and were not freed by an earlier period |
| Dispatch.SendAscending | src/af-gps-binding.c:390-419 | freeing periods and setting last keep the period list strictly ascending |
| Dispatch.SendPlaced | src/af-gps-binding.c:390-419 | after the visits each period still lists events of its own bucket and of different types |
| Dispatch.SendMembers | src/af-gps-binding.c:390-419 | the events still listed are the old ones less those freed |
| Dispatch.VisitMembers | src/af-gps-binding.c:390-419 | one visit keeps the events of its period less those freed |
| Dispatch.SendKeepsValid | src/af-gps-binding.c:374-424 | event_send keeps the registry well formed |

## Left out

- Sockets, `getaddrinfo`, sd-event registration and the `read` error paths of `nmea_read` (lines 666-674) are left out. They are input plumbing; the bytes read are the `data` parameter of `ReadChunk`.
- The request wrappers `get`, `subscribe` and `unsubscribe`, `atoi`, the error replies and the binding registration are left out. They parse an argument and call `type_of_name`, `event_get`, `event_of_id` or `position`.
- `new_dms`, `atof` and the unit factors are symbolic values (`Real`, `JDms`). The floating-point arithmetic is not modelled.
- json-c objects and their reference counts (`addif`, `clear`, `json_object_get`) are left out. A document is a record whose optional members stand for the members added.
- `afb_event_push` and `afb_event_drop`, the event handle and its name "GPS", and DEBUG logging are left out. A push's result is membership in `alive`.
- Registry.Registry.EventGet: the failure of the first `calloc` (the new period) is left out. `makeOk` covers the event `calloc` and `afb_daemon_make_event`, which both return NULL after the period was inserted.
- Registry.Registry.EventGet: requires `Fits(Clamp(period))`, because the mask loop does not terminate otherwise (see `PeriodThirtyThreeHangs`). It also requires fewer than INT_MAX events, without which the id loop never ends. The signed `mask <<= 1` overflow that such a period eventually reaches is not modelled.
- Registry.NextId: the signed overflow of `id++` at INT_MAX is undefined in C. It is modelled as the wrap to a negative value that the `id < 0` test then turns into 1.
- Dispatch.EventSend: `position` is called with the allocation succeeding. A failed allocation would push a NULL document.
- Store.FrameRing.Push: `newframes` is an unbounded counter, so the overflow of the C `int` is not modelled.
- Decoder.Split: the NULs written over the commas are not modelled. The fields are returned as values. The writes only affect the line being decoded.
- Framer.LineFramer.ReadChunk: the sentences are decoded after the scan of the chunk rather than between its steps. This order is equivalent: the only writes of `nmea_sentence` into the buffer are the NULs `nmea_split` puts over the commas (lines 606-607). They fall inside the current line, before its '\n', and the memmove of lines 697-699 (or `pos = 0`) then throws that line away, so no later scan step reads them. A GGA frame that reaches `atof(NULL)` is the `Crash` outcome: as undefined behaviour, it stops the processing of the chunk.
- Framer.LineFramer.ReadChunk: uses the corrected end index (see Findings). As written, the loop is only coherent when the read starts at `pos == 0`.
- Framer.ScanAppend: both pieces must fit together in the 160-byte buffer, because `Scan` describes one buffer's contents. Reads whose bytes total more than 160 are covered by `ReadChunk`, which scans each read's bytes after the rest the previous scan left.
- Representation.Cache.Build: `json_object_new_string`, `json_object_new_double` and `new_dms` (lines 226-283) are taken to succeed, and `SlotsHoldDocument` relies on that. When one fails, the C code leaves the member out of the document and the slot NULL, and a later build tries again.
- `NulFree` preconditions say that a string argument is a C string. The NUL itself is not stored.

## Findings

| source | as written | input that shows it | evidently intended | confidence | as-written member | corrected member |
|---|---|---|---|---|---|---|
| src/af-gps-binding.c:666-676 | `rc` is the number of bytes `read` placed at `&buffer[pos]`, but the scan loop runs `while (pos != rc)` as if `rc` were the end index | "$GPGGA" buffered without '\n' (pos = 6), then a read returning the single byte ',': rc = 1 < pos, so `pos` steps past the 160-byte buffer | `rc = pos + count` before the scan | not executed | Framer.ReadEndAsWritten, Framer.ReadEndAsWrittenOverruns | Framer.SkipRunInside, Framer.LineFramer.ReadChunk |
