/**
 * The subscription registry of event_get and event_of_id: the period list
 * kept in ascending order, one event per period and type, the `byid` chain
 * and the id counter.
 */
module Registry {
  import opened CText
  import opened Values

  /** INT_MAX of a 32-bit int. */
  const IntMax: int := 0x7fff_ffff

  /** The period in tenths of a second: at most 100 ms gives 1, above a minute 600. */
  function Clamp(period: int): (p: nat)
    ensures 1 <= p <= 600
    ensures period <= 100 ==> p == 1
    ensures period > 60000 ==> p == 600
    ensures 100 < period <= 60000 ==> p * 100 <= period < p * 100 + 100
  {
    if period <= 100 then 1 else if period > 60000 then 600 else period / 100
  }

  /** C's `&` on non-negative ints, bit by bit from the lowest. */
  function And(a: nat, b: nat): (r: nat)
    ensures r <= a && r <= b
    decreases a
  {
    if a == 0 || b == 0 then 0
    else 2 * And(a / 2, b / 2) + (if a % 2 == 1 && b % 2 == 1 then 1 else 0)
  }

  /** `31 << k`: the mask after `k` rounds of the normalisation loop. */
  function Window(k: nat): (m: nat)
    ensures m >= 31
  {
    if k == 0 then 31 else 2 * Window(k - 1)
  }

  /** The set bits of `p` lie in the five-bit window `31 << k`. */
  predicate FitsAt(p: nat, k: nat)
  {
    And(p, Window(k)) == p
  }

  /**
   * Some window the loop reaches while `mask` is still a positive int
   * (`31 << 26` is the last) holds every set bit of `p`.
   */
  predicate Fits(p: nat)
  {
    exists k: nat | k <= 26 :: FitsAt(p, k)
  }

  /**
   * The normalisation at the head of event_get: clamp, then widen `mask`
   * from 31 until `period & mask == period`. The loop leaves only for a
   * clamped period that fits a window, and the bucket is then exactly 100
   * times the clamped period.
   */
  method NormalizePeriod(period: int) returns (perio: nat)
    requires Fits(Clamp(period))
    ensures perio == 100 * Clamp(period)
  {
    var p := Clamp(period);
    ghost var fit: nat :| fit <= 26 && FitsAt(p, fit);
    var mask := 31;
    ghost var k: nat := 0;
    while p > And(p, mask)
      invariant k <= fit && mask == Window(k)
      invariant forall j: nat | j < k :: !FitsAt(p, j)
      decreases fit - k
    {
      WidenStep(p, k, fit);
      mask := mask * 2;
      k := k + 1;
    }
    perio := 100 * And(p, mask);
  }

  /** A window that misses a bit of `p` is not the fitting one, which lies further on. */
  lemma WidenStep(p: nat, k: nat, fit: nat)
    requires FitsAt(p, fit) && k <= fit && p > And(p, Window(k))
    requires forall j: nat | j < k :: !FitsAt(p, j)
    ensures k < fit && Window(k + 1) == 2 * Window(k)
    ensures forall j: nat | j < k + 1 :: !FitsAt(p, j)
  {
  }

  /** 2000 ms clamps to 20, which the first mask already holds. */
  lemma PeriodTwoSecondsFits()
    ensures Clamp(2000) == 20 && FitsAt(20, 0)
  {
    calc {
      And(20, 31);
      2 * And(10, 15);
      4 * And(5, 7);
      4 * (2 * And(2, 3) + 1);
      4 * (2 * (2 * And(1, 1)) + 1);
      { assert And(1, 1) == 2 * And(0, 0) + 1; }
      20;
    }
  }

  /** The low `j` bits of `b` are clear. */
  predicate LowClear(b: nat, j: nat)
  {
    j == 0 || (b % 2 == 0 && LowClear(b / 2, j - 1))
  }

  /** A mask with its low `j` bits clear clears them in the result. */
  lemma {:induction false} AndLowClear(a: nat, b: nat, j: nat)
    requires LowClear(b, j)
    ensures LowClear(And(a, b), j)
    decreases j
  {
    if j > 0 {
      if a == 0 || b == 0 {
        ZeroLowClear(j);
      } else {
        AndLowClear(a / 2, b / 2, j - 1);
      }
    }
  }

  lemma {:induction false} ZeroLowClear(j: nat)
    ensures LowClear(0, j)
  {
    if j > 0 {
      ZeroLowClear(j - 1);
    }
  }

  /** After `k` rounds the mask has its low `k` bits clear. */
  lemma {:induction false} WindowLowClear(k: nat, j: nat)
    requires j <= k
    ensures LowClear(Window(k), j)
  {
    if j > 0 {
      WindowLowClear(k - 1, j - 1);
    }
  }

  /** 3300 ms clamps to 33, whose bits 0 and 5 no five-bit window holds: event_get never returns. */
  lemma PeriodThirtyThreeHangs()
    ensures Clamp(3300) == 33 && !Fits(33)
  {
    forall k: nat | k <= 26
      ensures !FitsAt(33, k)
    {
      if k == 0 {
        calc {
          And(33, 31);
          2 * And(16, 15) + 1;
          2 * (2 * And(8, 7)) + 1;
          2 * (2 * (2 * And(4, 3))) + 1;
          2 * (2 * (2 * (2 * And(2, 1)))) + 1;
          { assert And(2, 1) == 2 * And(1, 0); }
          1;
        }
      } else {
        WindowLowClear(k, 1);
        AndLowClear(33, Window(k), 1);
      }
    }
  }

  /** Every period above a minute clamps to 600, which fits no window either. */
  lemma PeriodAboveMinuteHangs(period: int)
    requires period > 60000
    ensures Clamp(period) == 600 && !Fits(600)
  {
    forall k: nat | k <= 26
      ensures !FitsAt(600, k)
    {
      if k < 4 {
        assert Window(k) <= 248;
      } else {
        WindowLowClear(k, 4);
        AndLowClear(600, Window(k), 4);
        assert !LowClear(600, 4) by {
          assert LowClear(600, 4) == LowClear(300, 3) == LowClear(150, 2) == LowClear(75, 1);
        }
      }
    }
  }

  /** A `struct period`: its bucket in ms, the time of its last push, and its events in list order. */
  datatype PeriodRec = PeriodRec(period: nat, last: nat, events: seq<int>)

  /** A `struct event`: its representation type and the bucket of the period it hangs from. */
  datatype EventRec = EventRec(typ: RepType, period: nat)

  /** The period list is strictly ascending. */
  ghost predicate Ascending(ps: seq<PeriodRec>)
  {
    forall i, j | 0 <= i < j < |ps| :: ps[i].period < ps[j].period
  }

  /** The `byid` chain holds each event exactly once. */
  ghost predicate ChainOk(byid: seq<int>, table: map<int, EventRec>)
  {
    && (forall i | 0 <= i < |byid| :: byid[i] in table)
    && (forall i, j | 0 <= i < j < |byid| :: byid[i] != byid[j])
    && (forall x | x in table :: x in byid)
  }

  /** The events on the list of `p`. */
  function EventSet(p: PeriodRec): set<int>
  {
    set k | 0 <= k < |p.events| :: p.events[k]
  }

  /** Every event on some period list. */
  function Members(ps: seq<PeriodRec>): set<int>
  {
    if ps == [] then {} else EventSet(ps[0]) + Members(ps[1..])
  }

  /**
   * Each period lists events of its own bucket, of pairwise different types,
   * and every event hangs from some period.
   */
  ghost predicate Homed(ps: seq<PeriodRec>, table: map<int, EventRec>)
  {
    && (forall i, k | 0 <= i < |ps| && 0 <= k < |ps[i].events| ::
          ps[i].events[k] in table && table[ps[i].events[k]].period == ps[i].period)
    && (forall i, k1, k2 | 0 <= i < |ps| && 0 <= k1 < k2 < |ps[i].events| ::
          ps[i].events[k1] in table && ps[i].events[k2] in table &&
          table[ps[i].events[k1]].typ != table[ps[i].events[k2]].typ)
    && (forall x | x in table :: x in Members(ps))
  }

  /** Ids are positive ints and the counter is a non-negative int. */
  ghost predicate IdsOk(table: map<int, EventRec>, id: int)
  {
    0 <= id <= IntMax && forall x | x in table :: 1 <= x <= IntMax
  }

  ghost predicate RegistryOk(ps: seq<PeriodRec>, byid: seq<int>, table: map<int, EventRec>, id: int)
  {
    Ascending(ps) && ChainOk(byid, table) && Homed(ps, table) && IdsOk(table, id)
  }

  lemma {:induction false} MembersAt(ps: seq<PeriodRec>, x: int)
    requires x in Members(ps)
    ensures exists i, k :: 0 <= i < |ps| && 0 <= k < |ps[i].events| && ps[i].events[k] == x
  {
    if x !in EventSet(ps[0]) {
      MembersAt(ps[1..], x);
      var i, k :| 0 <= i < |ps[1..]| && 0 <= k < |ps[1..][i].events| && ps[1..][i].events[k] == x;
      assert ps[i + 1].events[k] == x;
    }
  }

  /** At most one event exists per period and type. */
  lemma OneEventEach(ps: seq<PeriodRec>, byid: seq<int>, table: map<int, EventRec>, id: int, x: int, y: int)
    requires RegistryOk(ps, byid, table, id)
    requires x in table && y in table && table[x] == table[y]
    ensures x == y
  {
    MembersAt(ps, x);
    MembersAt(ps, y);
    var i, k :| 0 <= i < |ps| && 0 <= k < |ps[i].events| && ps[i].events[k] == x;
    var j, l :| 0 <= j < |ps| && 0 <= l < |ps[j].events| && ps[j].events[l] == y;
    assert ps[i].period == ps[j].period;
  }

  lemma {:induction false} MembersConcat(a: seq<PeriodRec>, b: seq<PeriodRec>)
    ensures Members(a + b) == Members(a) + Members(b)
  {
    if a != [] {
      assert (a + b)[1..] == a[1..] + b;
      MembersConcat(a[1..], b);
    } else {
      assert a + b == b;
    }
  }

  lemma MembersAround(ps: seq<PeriodRec>, i: nat)
    requires i < |ps|
    ensures Members(ps) == Members(ps[..i]) + EventSet(ps[i]) + Members(ps[i + 1..])
  {
    assert ps[..i] + ps[i..] == ps;
    MembersConcat(ps[..i], ps[i..]);
    assert ps[i..][0] == ps[i] && ps[i..][1..] == ps[i + 1..];
  }

  /** Where the search of event_get stops: the first period whose bucket is not below `P`. */
  function SearchPeriod(ps: seq<PeriodRec>, P: nat): (i: nat)
    ensures i <= |ps|
    ensures forall j | 0 <= j < i :: ps[j].period < P
    ensures i < |ps| ==> ps[i].period >= P
  {
    if ps == [] || ps[0].period >= P then 0 else 1 + SearchPeriod(ps[1..], P)
  }

  /** The period list once bucket `P` is present: a new, empty period goes where the search stopped. */
  function WithPeriod(ps: seq<PeriodRec>, P: nat): seq<PeriodRec>
  {
    var i := SearchPeriod(ps, P);
    if i < |ps| && ps[i].period == P then ps else ps[..i] + [PeriodRec(P, 0, [])] + ps[i..]
  }

  lemma InsertAt<T>(s: seq<T>, i: nat, q: T)
    requires i <= |s|
    ensures |s[..i] + [q] + s[i..]| == |s| + 1
    ensures forall j | 0 <= j < |s| + 1 ::
      (s[..i] + [q] + s[i..])[j] == if j < i then s[j] else if j == i then q else s[j - 1]
  {
  }

  /** Inserting a missing bucket keeps the list ascending and every event where it was. */
  lemma WithPeriodOk(ps: seq<PeriodRec>, byid: seq<int>, table: map<int, EventRec>, id: int, P: nat)
    requires RegistryOk(ps, byid, table, id)
    ensures var i := SearchPeriod(ps, P);
      && i < |WithPeriod(ps, P)| && WithPeriod(ps, P)[i].period == P
      && RegistryOk(WithPeriod(ps, P), byid, table, id)
  {
    var i := SearchPeriod(ps, P);
    if !(i < |ps| && ps[i].period == P) {
      InsertAt(ps, i, PeriodRec(P, 0, []));
      InsertAscending(ps, i, P);
      InsertHomed(ps, table, i, P);
    }
  }

  lemma InsertAscending(ps: seq<PeriodRec>, i: nat, P: nat)
    requires Ascending(ps) && i == SearchPeriod(ps, P) && !(i < |ps| && ps[i].period == P)
    ensures Ascending(ps[..i] + [PeriodRec(P, 0, [])] + ps[i..])
  {
    InsertAt(ps, i, PeriodRec(P, 0, []));
  }

  lemma InsertHomed(ps: seq<PeriodRec>, table: map<int, EventRec>, i: nat, P: nat)
    requires Homed(ps, table) && i <= |ps|
    ensures Homed(ps[..i] + [PeriodRec(P, 0, [])] + ps[i..], table)
  {
    var qs := ps[..i] + [PeriodRec(P, 0, [])] + ps[i..];
    InsertPlaces(ps, table, i, P);
    InsertMembers(ps, i, P);
    assert forall x | x in table :: x in Members(ps);
  }

  /** The empty bucket put at `i` keeps every list in its own bucket, of pairwise different types. */
  lemma InsertPlaces(ps: seq<PeriodRec>, table: map<int, EventRec>, i: nat, P: nat)
    requires Homed(ps, table) && i <= |ps|
    ensures var qs := ps[..i] + [PeriodRec(P, 0, [])] + ps[i..];
      && (forall j, k | 0 <= j < |qs| && 0 <= k < |qs[j].events| ::
            qs[j].events[k] in table && table[qs[j].events[k]].period == qs[j].period)
      && (forall j, k1, k2 | 0 <= j < |qs| && 0 <= k1 < k2 < |qs[j].events| ::
            qs[j].events[k1] in table && qs[j].events[k2] in table &&
            table[qs[j].events[k1]].typ != table[qs[j].events[k2]].typ)
  {
    var qs := ps[..i] + [PeriodRec(P, 0, [])] + ps[i..];
    InsertAt(ps, i, PeriodRec(P, 0, []));
    forall j | 0 <= j < |qs| && j != i
      ensures qs[j] == ps[if j < i then j else j - 1]
    {
    }
    forall j, k | 0 <= j < |qs| && 0 <= k < |qs[j].events|
      ensures qs[j].events[k] in table && table[qs[j].events[k]].period == qs[j].period
    {
      var j' := if j < i then j else j - 1;
      assert qs[j].events[k] == ps[j'].events[k];
    }
    forall j, k1, k2 | 0 <= j < |qs| && 0 <= k1 < k2 < |qs[j].events|
      ensures qs[j].events[k1] in table && qs[j].events[k2] in table &&
        table[qs[j].events[k1]].typ != table[qs[j].events[k2]].typ
    {
      var j' := if j < i then j else j - 1;
      assert qs[j].events[k1] == ps[j'].events[k1] && qs[j].events[k2] == ps[j'].events[k2];
    }
  }

  /** An empty bucket adds no member. */
  lemma InsertMembers(ps: seq<PeriodRec>, i: nat, P: nat)
    requires i <= |ps|
    ensures Members(ps[..i] + [PeriodRec(P, 0, [])] + ps[i..]) == Members(ps)
  {
    var q := PeriodRec(P, 0, []);
    var rest := [q] + ps[i..];
    assert ps[..i] + [q] + ps[i..] == ps[..i] + rest;
    MembersConcat(ps[..i], rest);
    assert rest[1..] == ps[i..] && EventSet(q) == {};
    MembersConcat(ps[..i], ps[i..]);
    assert ps[..i] + ps[i..] == ps;
  }

  /** `index` is where the search for bucket `P` stops. */
  lemma {:induction false} SearchPeriodIs(ps: seq<PeriodRec>, P: nat, index: nat)
    requires index <= |ps| && (index < |ps| ==> ps[index].period >= P)
    requires forall j | 0 <= j < index :: ps[j].period < P
    ensures SearchPeriod(ps, P) == index
  {
    if ps != [] && ps[0].period < P {
      SearchPeriodIs(ps[1..], P, index - 1);
    }
  }

  /** When no event of period `i` has type `t`, no event anywhere has that period and type. */
  lemma NoneOfType(ps: seq<PeriodRec>, byid: seq<int>, table: map<int, EventRec>, id: int, i: nat, t: RepType)
    requires RegistryOk(ps, byid, table, id) && i < |ps|
    requires forall k | 0 <= k < |ps[i].events| :: table[ps[i].events[k]].typ != t
    ensures forall y | y in table :: table[y] != EventRec(t, ps[i].period)
  {
    forall y | y in table
      ensures table[y] != EventRec(t, ps[i].period)
    {
      MembersAt(ps, y);
      var j, k :| 0 <= j < |ps| && 0 <= k < |ps[j].events| && ps[j].events[k] == y;
    }
  }

  /** Period `i` with event `x` put at the head of its list. */
  function AddEvent(ps: seq<PeriodRec>, i: nat, x: int): seq<PeriodRec>
    requires i < |ps|
  {
    ps[i := PeriodRec(ps[i].period, ps[i].last, [x] + ps[i].events)]
  }

  lemma EventSetCons(p: PeriodRec, x: int)
    ensures EventSet(PeriodRec(p.period, p.last, [x] + p.events)) == {x} + EventSet(p)
  {
    var q := PeriodRec(p.period, p.last, [x] + p.events);
    forall y | y in EventSet(p)
      ensures y in EventSet(q)
    {
      var k :| 0 <= k < |p.events| && p.events[k] == y;
      assert q.events[k + 1] == y;
    }
    assert q.events[0] == x;
  }

  /** A fresh id of a type period `i` lacks, linked at the heads of both lists, keeps the registry sound. */
  lemma AddEventOk(ps: seq<PeriodRec>, byid: seq<int>, table: map<int, EventRec>, id: int, i: nat, x: int, t: RepType)
    requires RegistryOk(ps, byid, table, id) && i < |ps|
    requires x !in table && 1 <= x <= IntMax
    requires forall k | 0 <= k < |ps[i].events| :: table[ps[i].events[k]].typ != t
    ensures RegistryOk(AddEvent(ps, i, x), [x] + byid, table[x := EventRec(t, ps[i].period)], x)
  {
    var table' := table[x := EventRec(t, ps[i].period)];
    assert ChainOk([x] + byid, table');
    AddEventHomed(ps, table, i, x, t);
  }

  lemma AddEventHomed(ps: seq<PeriodRec>, table: map<int, EventRec>, i: nat, x: int, t: RepType)
    requires Homed(ps, table) && i < |ps| && x !in table
    requires forall k | 0 <= k < |ps[i].events| :: table[ps[i].events[k]].typ != t
    ensures Homed(AddEvent(ps, i, x), table[x := EventRec(t, ps[i].period)])
  {
    var qs := AddEvent(ps, i, x);
    MembersAround(ps, i);
    MembersAround(qs, i);
    assert qs[..i] == ps[..i] && qs[i + 1..] == ps[i + 1..];
    EventSetCons(ps[i], x);
    AddEventPlaced(ps, table, i, x, t);
    AddEventTypes(ps, table, i, x, t);
  }

  lemma AddEventPlaced(ps: seq<PeriodRec>, table: map<int, EventRec>, i: nat, x: int, t: RepType)
    requires Homed(ps, table) && i < |ps| && x !in table
    ensures var qs, table' := AddEvent(ps, i, x), table[x := EventRec(t, ps[i].period)];
      forall j, k | 0 <= j < |qs| && 0 <= k < |qs[j].events| ::
        qs[j].events[k] in table' && table'[qs[j].events[k]].period == qs[j].period
  {
    var qs, table' := AddEvent(ps, i, x), table[x := EventRec(t, ps[i].period)];
    forall j, k | 0 <= j < |qs| && 0 <= k < |qs[j].events|
      ensures qs[j].events[k] in table' && table'[qs[j].events[k]].period == qs[j].period
    {
      if j == i && k > 0 {
        assert qs[j].events[k] == ps[i].events[k - 1];
      }
    }
  }

  lemma AddEventTypes(ps: seq<PeriodRec>, table: map<int, EventRec>, i: nat, x: int, t: RepType)
    requires Homed(ps, table) && i < |ps| && x !in table
    requires forall k | 0 <= k < |ps[i].events| :: table[ps[i].events[k]].typ != t
    ensures var qs, table' := AddEvent(ps, i, x), table[x := EventRec(t, ps[i].period)];
      forall j, k1, k2 | 0 <= j < |qs| && 0 <= k1 < k2 < |qs[j].events| ::
        qs[j].events[k1] in table' && qs[j].events[k2] in table' &&
        table'[qs[j].events[k1]].typ != table'[qs[j].events[k2]].typ
  {
    var qs, table' := AddEvent(ps, i, x), table[x := EventRec(t, ps[i].period)];
    forall j, k1, k2 | 0 <= j < |qs| && 0 <= k1 < k2 < |qs[j].events|
      ensures qs[j].events[k1] in table' && qs[j].events[k2] in table'
      ensures table'[qs[j].events[k1]].typ != table'[qs[j].events[k2]].typ
    {
      if j == i {
        assert qs[j].events[k2] == ps[i].events[k2 - 1];
        if k1 > 0 {
          assert qs[j].events[k1] == ps[i].events[k1 - 1];
        }
      }
    }
  }

  /** Fewer than `n` ids in 1..n leave one free. */
  lemma {:induction false} FreeIdExists(used: set<int>, n: nat)
    requires forall x | x in used :: 1 <= x <= n
    requires |used| < n
    ensures exists f :: 1 <= f <= n && f !in used
  {
    if n in used {
      var rest := used - {n};
      assert |rest| == |used| - 1;
      FreeIdExists(rest, n - 1);
      var f :| 1 <= f <= n - 1 && f !in rest;
      assert f !in used;
    } else {
      assert 1 <= n;
    }
  }

  /** `id++; if (id < 0) id = 1;`: the increment wraps from INT_MAX back to 1. */
  function NextId(id: int): (r: int)
    requires 0 <= id <= IntMax
    ensures 1 <= r <= IntMax
    ensures r == id + 1 || (id == IntMax && r == 1)
  {
    if id == IntMax then 1 else id + 1
  }

  /** How many increments take the counter from `id` to the free id `f`. */
  function Distance(id: int, f: int): nat
    requires 0 <= id <= IntMax && 1 <= f <= IntMax
  {
    if f >= id then f - id else f + IntMax - id
  }

  /** The static lists `periods` and `events` (the `byid` chain) and the static `id` of event_get. */
  class Registry {
    var periods: seq<PeriodRec>
    var byid: seq<int>
    var table: map<int, EventRec>
    var id: int

    ghost predicate Valid()
      reads this
    {
      RegistryOk(periods, byid, table, id)
    }

    /** The statics at load time: both lists empty, the counter 0. */
    constructor ()
      ensures Valid()
      ensures periods == [] && byid == [] && table == map[] && id == 0
    {
      periods := [];
      byid := [];
      table := map[];
      id := 0;
    }

    /** event_of_id: walk the `byid` chain to the event with id `x`, or NULL. */
    method EventOfId(x: int) returns (r: Option<EventRec>)
      requires Valid()
      ensures r.Some? <==> x in table
      ensures r.Some? ==> r.value == table[x]
    {
      var i := 0;
      while i < |byid| && byid[i] != x
        invariant i <= |byid|
        invariant forall j | 0 <= j < i :: byid[j] != x
      {
        i := i + 1;
      }
      r := if i < |byid| then Some(table[byid[i]]) else None;
    }

    /** The search loop of event_get: the first period whose bucket is not below `P`. */
    method FindPeriod(P: nat) returns (i: nat)
      ensures i == SearchPeriod(periods, P)
    {
      i := 0;
      while i < |periods| && periods[i].period < P
        invariant i <= |periods|
        invariant forall j | 0 <= j < i :: periods[j].period < P
      {
        i := i + 1;
      }
      SearchPeriodIs(periods, P, i);
    }

    /** The search for type `t` along the event list `evs` of a period. */
    method FindType(evs: seq<int>, t: RepType) returns (k: nat)
      requires forall j | 0 <= j < |evs| :: evs[j] in table
      ensures k <= |evs|
      ensures forall j | 0 <= j < k :: table[evs[j]].typ != t
      ensures k < |evs| ==> table[evs[k]].typ == t
    {
      k := 0;
      while k < |evs| && table[evs[k]].typ != t
        invariant k <= |evs|
        invariant forall j | 0 <= j < k :: table[evs[j]].typ != t
      {
        k := k + 1;
      }
    }

    /**
     * The do-while of event_get: step the counter, wrapping to 1 past
     * INT_MAX, until event_of_id finds no event with that id.
     */
    method AllocateId() returns (x: int)
      requires Valid() && |table| < IntMax
      modifies this`id
      ensures Valid() && x == id
      ensures x !in table && 1 <= x <= IntMax
    {
      FreeIdExists(table.Keys, IntMax);
      ghost var f :| 1 <= f <= IntMax && f !in table;
      id := NextId(id);
      var e := EventOfId(id);
      while e.Some?
        invariant Valid() && 1 <= id <= IntMax
        invariant e.Some? <==> id in table
        decreases Distance(id, f)
      {
        id := NextId(id);
        e := EventOfId(id);
      }
      x := id;
    }

    /**
     * event_get: normalise the period, find or insert its bucket, then return
     * the event of type `t` there or create one with a fresh id. `makeOk` is
     * the outcome of afb_daemon_make_event; when it fails the call returns
     * NULL and an inserted bucket stays, empty.
     */
    method EventGet(t: RepType, period: int, makeOk: bool) returns (r: Option<int>)
      requires Valid() && Fits(Clamp(period)) && |table| < IntMax
      modifies this
      ensures Valid()
      ensures r.Some? ==> r.value in table && table[r.value] == EventRec(t, 100 * Clamp(period))
      ensures r.Some? && r.value in old(table) ==>
        periods == old(periods) && byid == old(byid) && table == old(table) && id == old(id)
      ensures r.None? || r.value !in old(table) ==>
        forall y | y in old(table) :: old(table)[y] != EventRec(t, 100 * Clamp(period))
      ensures r.None? ==>
        && !makeOk && periods == WithPeriod(old(periods), 100 * Clamp(period))
        && byid == old(byid) && table == old(table) && id == old(id)
      ensures r.Some? && r.value !in old(table) ==>
        && 1 <= r.value <= IntMax && id == r.value
        && table == old(table)[r.value := EventRec(t, 100 * Clamp(period))]
        && byid == [r.value] + old(byid)
        && periods == AddEvent(WithPeriod(old(periods), 100 * Clamp(period)), SearchPeriod(old(periods), 100 * Clamp(period)), r.value)
    {
      var P := NormalizePeriod(period);
      var i := FindPeriod(P);
      WithPeriodOk(periods, byid, table, id, P);
      if i == |periods| || periods[i].period != P {
        periods := periods[..i] + [PeriodRec(P, 0, [])] + periods[i..];
      }
      var k := FindType(periods[i].events, t);
      if k < |periods[i].events| {
        return Some(periods[i].events[k]);
      }
      NoneOfType(periods, byid, table, id, i, t);
      if !makeOk {
        return None;
      }
      var x := AllocateId();
      AddEventOk(periods, byid, table, id, i, x, t);
      periods := periods[i := PeriodRec(periods[i].period, periods[i].last, [x] + periods[i].events)];
      byid := [x] + byid;
      table := table[x := EventRec(t, P)];
      r := Some(x);
    }
  }
}
