/**
 * event_send: on new frames, push the current position to the events of
 * every period that is due, drop the events nobody listens to any more and
 * free the periods found empty.
 */
module Dispatch {
  import opened CText
  import opened Values
  import opened Store
  import opened Representation
  import opened Registry

  const TwoTo32: nat := 0x1_0000_0000

  /** `p->period <= now - p->last`, the subtraction in uint32. */
  predicate Due(p: PeriodRec, now: nat)
  {
    p.period <= (now - p.last) % TwoTo32
  }

  /** The events of `p` pushed by the visit at time `now`, in list order. */
  function FiredOf(p: PeriodRec, now: nat): seq<int>
  {
    if p.events != [] && Due(p, now) then p.events else []
  }

  /** `evs` without the events whose push found no listener. */
  function Filter(evs: seq<int>, alive: set<int>): (r: seq<int>)
    ensures |r| <= |evs|
  {
    if evs == [] then []
    else Filter(evs[..|evs| - 1], alive) + (if evs[|evs| - 1] in alive then [evs[|evs| - 1]] else [])
  }

  /**
   * What the visit of `p` leaves: nothing when it was empty, the period with
   * its listened-to events and `last == now` when it was due, else `p`.
   */
  function Visit(p: PeriodRec, now: nat, alive: set<int>): seq<PeriodRec>
  {
    if p.events == [] then []
    else if Due(p, now) then [PeriodRec(p.period, now, Filter(p.events, alive))]
    else [p]
  }

  /** The period list after visiting every period in order. */
  function SendPeriods(ps: seq<PeriodRec>, now: nat, alive: set<int>): seq<PeriodRec>
  {
    if ps == [] then []
    else SendPeriods(ps[..|ps| - 1], now, alive) + Visit(ps[|ps| - 1], now, alive)
  }

  /** Every event pushed, in the order of the pushes. */
  function Fired(ps: seq<PeriodRec>, now: nat): seq<int>
  {
    if ps == [] then [] else Fired(ps[..|ps| - 1], now) + FiredOf(ps[|ps| - 1], now)
  }

  /** The events unlinked and freed: pushed, but without listeners. */
  function Dropped(ps: seq<PeriodRec>, now: nat, alive: set<int>): set<int>
  {
    set x | x in Fired(ps, now) && x !in alive
  }

  /** `s` without the members of `gone`, order kept. */
  function Without(s: seq<int>, gone: set<int>): (r: seq<int>)
    ensures |r| <= |s|
  {
    if s == [] then []
    else Without(s[..|s| - 1], gone) + (if s[|s| - 1] in gone then [] else [s[|s| - 1]])
  }

  function Restrict(table: map<int, EventRec>, gone: set<int>): map<int, EventRec>
  {
    map x | x in table && x !in gone :: table[x]
  }

  lemma {:induction false} WithoutTwice(s: seq<int>, gone: set<int>, e: int)
    ensures Without(Without(s, gone), {e}) == Without(s, gone + {e})
  {
    if s != [] {
      WithoutTwice(s[..|s| - 1], gone, e);
      var w := Without(s[..|s| - 1], gone);
      var last := s[|s| - 1];
      if last !in gone {
        WithoutSnoc(w, last, {e});
      } else {
        assert Without(s, gone) == w + [];
        assert w + [] == w;
      }
    }
  }

  lemma WithoutSnoc(s: seq<int>, x: int, gone: set<int>)
    ensures Without(s + [x], gone) == Without(s, gone) + (if x in gone then [] else [x])
  {
    assert (s + [x])[..|s + [x]| - 1] == s;
  }

  lemma {:induction false} WithoutMissing(s: seq<int>, e: int)
    requires forall i | 0 <= i < |s| :: s[i] != e
    ensures Without(s, {e}) == s
  {
    if s != [] {
      WithoutMissing(s[..|s| - 1], e);
      assert s[..|s| - 1] + [s[|s| - 1]] == s;
    }
  }

  /** Removing the one occurrence of `e` at `j`. */
  lemma {:induction false} WithoutOne(s: seq<int>, j: nat, e: int)
    requires j < |s| && s[j] == e
    requires forall i | 0 <= i < |s| && i != j :: s[i] != e
    ensures Without(s, {e}) == s[..j] + s[j + 1..]
    decreases |s|
  {
    var init := s[..|s| - 1];
    if j == |s| - 1 {
      WithoutMissing(init, e);
      assert s[..j] + s[j + 1..] == init;
    } else {
      WithoutOne(init, j, e);
      assert s[..j] + s[j + 1..] == init[..j] + init[j + 1..] + [s[|s| - 1]];
    }
  }

  /**
   * Unlinking `e` from the `byid` chain: walk to it (it is there), splice
   * it out, and free it.
   */
  method Unlink(reg: Registry, e: int)
    requires ChainOk(reg.byid, reg.table) && e in reg.table
    modifies reg`byid, reg`table
    ensures ChainOk(reg.byid, reg.table)
    ensures reg.table == old(reg.table) - {e}
    ensures reg.byid == Without(old(reg.byid), {e})
  {
    var j := 0;
    while reg.byid[j] != e
      invariant j < |reg.byid| && e in reg.byid[j..]
      decreases |reg.byid| - j
    {
      j := j + 1;
    }
    WithoutOne(reg.byid, j, e);
    reg.byid := reg.byid[..j] + reg.byid[j + 1..];
    reg.table := reg.table - {e};
  }

  /** The events of `evs` whose push found no listener. */
  function DropSet(evs: seq<int>, alive: set<int>): set<int>
  {
    set x | x in evs && x !in alive
  }

  lemma {:induction false} FilterHas(evs: seq<int>, alive: set<int>, x: int)
    ensures x in Filter(evs, alive) <==> x in evs && x in alive
  {
    if evs != [] {
      FilterHas(evs[..|evs| - 1], alive, x);
      assert evs == evs[..|evs| - 1] + [evs[|evs| - 1]];
    }
  }

  lemma FilterSnoc(evs: seq<int>, e: int, alive: set<int>)
    ensures Filter(evs + [e], alive) == Filter(evs, alive) + (if e in alive then [e] else [])
  {
    assert (evs + [e])[..|evs + [e]| - 1] == evs;
  }

  ghost predicate Distinct(s: seq<int>)
  {
    forall i, j | 0 <= i < j < |s| :: s[i] != s[j]
  }

  lemma {:induction false} FilterDistinct(evs: seq<int>, alive: set<int>)
    requires Distinct(evs)
    ensures Distinct(Filter(evs, alive))
  {
    if evs != [] {
      var init, last := evs[..|evs| - 1], evs[|evs| - 1];
      FilterDistinct(init, alive);
      FilterHas(init, alive, last);
      assert last !in init;
    }
  }

  /** One more period visited. */
  lemma VisitSnoc(ps: seq<PeriodRec>, i: nat, now: nat, alive: set<int>)
    requires i < |ps|
    ensures Fired(ps[..i + 1], now) == Fired(ps[..i], now) + FiredOf(ps[i], now)
    ensures SendPeriods(ps[..i + 1], now, alive) == SendPeriods(ps[..i], now, alive) + Visit(ps[i], now, alive)
    ensures Dropped(ps[..i + 1], now, alive) == Dropped(ps[..i], now, alive) + DropSet(FiredOf(ps[i], now), alive)
  {
    assert ps[..i + 1][..i] == ps[..i];
  }

  /**
   * The inner loop of event_send over a due period with events `evs`:
   * push the position of each event's type, keep the event when the push
   * reached a listener, otherwise unlink it from both lists and free it.
   * `B`, `T` and `G` are the chain and table before the send and the
   * events already freed by it.
   */
  method PushAll(reg: Registry, ring: FrameRing, cache: Cache, evs: seq<int>, alive: set<int>,
                 ghost B: seq<int>, ghost T: map<int, EventRec>, ghost G: set<int>)
    returns (kept: seq<int>, pushed: seq<(int, Document)>)
    requires ring.Valid() && (ring.newframes == 0 ==> cache.Coherent(ring.Current()))
    requires ChainOk(reg.byid, reg.table)
    requires reg.byid == Without(B, G) && reg.table == Restrict(T, G)
    requires Distinct(evs) && forall k | 0 <= k < |evs| :: evs[k] in T && evs[k] !in G
    modifies reg`byid, reg`table, ring, cache
    ensures ring.Valid() && ring.frames == old(ring.frames) && ring.frameidx == old(ring.frameidx)
    ensures ring.newframes == if evs == [] then old(ring.newframes) else 0
    ensures ring.newframes == 0 ==> cache.Coherent(ring.Current())
    ensures ChainOk(reg.byid, reg.table)
    ensures kept == Filter(evs, alive)
    ensures reg.byid == Without(B, G + DropSet(evs, alive)) && reg.table == Restrict(T, G + DropSet(evs, alive))
    ensures |pushed| == |evs|
    ensures forall k | 0 <= k < |evs| :: pushed[k] == (evs[k], DocumentOf(ring.Current(), T[evs[k]].typ))
  {
    var k := 0;
    kept, pushed := [], [];
    assert G + DropSet(evs[..0], alive) == G;
    while k < |evs|
      invariant k <= |evs|
      invariant ring.Valid() && ring.frames == old(ring.frames) && ring.frameidx == old(ring.frameidx)
      invariant ring.newframes == if k == 0 then old(ring.newframes) else 0
      invariant ring.newframes == 0 ==> cache.Coherent(ring.Current())
      invariant ChainOk(reg.byid, reg.table)
      invariant kept == Filter(evs[..k], alive)
      invariant reg.byid == Without(B, G + DropSet(evs[..k], alive))
      invariant reg.table == Restrict(T, G + DropSet(evs[..k], alive))
      invariant |pushed| == k
      invariant forall j | 0 <= j < k :: pushed[j] == (evs[j], DocumentOf(ring.Current(), T[evs[j]].typ))
    {
      var e := evs[k];
      ghost var gone := G + DropSet(evs[..k], alive);
      ghost var gone' := G + DropSet(evs[..k + 1], alive);
      ghost var f := Filter(evs[..k + 1], alive);
      assert e !in gone by {
        assert forall j | 0 <= j < k :: evs[j] != e;
      }
      StepSets(evs, k, alive, G);
      var doc := PushOne(reg, ring, cache, e, alive, B, T, gone);
      assert reg.byid == Without(B, gone');
      pushed := pushed + [(e, doc)];
      if e in alive {
        kept := kept + [e];
      }
      assert kept == f;
      k := k + 1;
    }
    assert evs[..k] == evs;
  }

  /** What one more event of the inner loop adds to the kept list and the freed set. */
  lemma StepSets(evs: seq<int>, k: nat, alive: set<int>, G: set<int>)
    requires k < |evs|
    ensures Filter(evs[..k + 1], alive) == Filter(evs[..k], alive) + (if evs[k] in alive then [evs[k]] else [])
    ensures G + DropSet(evs[..k + 1], alive) == G + DropSet(evs[..k], alive) + (if evs[k] in alive then {} else {evs[k]})
  {
    assert evs[..k + 1][..k] == evs[..k];
    assert evs[..k + 1] == evs[..k] + [evs[k]];
  }

  /**
   * One step of the inner loop: push the position of the type of `e`; when
   * nobody listened, unlink and free `e`.
   */
  method PushOne(reg: Registry, ring: FrameRing, cache: Cache, e: int, alive: set<int>,
                 ghost B: seq<int>, ghost T: map<int, EventRec>, ghost gone: set<int>)
    returns (doc: Document)
    requires ring.Valid() && (ring.newframes == 0 ==> cache.Coherent(ring.Current()))
    requires ChainOk(reg.byid, reg.table)
    requires reg.byid == Without(B, gone) && reg.table == Restrict(T, gone)
    requires e in T && e !in gone
    modifies reg`byid, reg`table, ring, cache
    ensures ring.Valid() && ring.frames == old(ring.frames) && ring.frameidx == old(ring.frameidx)
    ensures ring.newframes == 0 && cache.Coherent(ring.Current())
    ensures ChainOk(reg.byid, reg.table)
    ensures doc == DocumentOf(ring.Current(), T[e].typ)
    ensures var gone' := gone + (if e in alive then {} else {e});
      reg.byid == Without(B, gone') && reg.table == Restrict(T, gone')
  {
    var r := cache.Position(ring, reg.table[e].typ, true);
    doc := r.value;
    if e !in alive {
      Unlink(reg, e);
      WithoutTwice(B, gone, e);
    } else {
      assert gone + {} == gone;
    }
  }

  /** Clauses one and two of `Homed` for one list: bucket `P`, pairwise different types. */
  ghost predicate EventsPlaced(evs: seq<int>, P: nat, table: map<int, EventRec>)
  {
    && (forall k | 0 <= k < |evs| :: evs[k] in table && table[evs[k]].period == P)
    && (forall k1, k2 | 0 <= k1 < k2 < |evs| ::
          evs[k1] in table && evs[k2] in table && table[evs[k1]].typ != table[evs[k2]].typ)
  }

  ghost predicate PeriodPlaced(p: PeriodRec, table: map<int, EventRec>)
  {
    EventsPlaced(p.events, p.period, table)
  }

  ghost predicate Placed(ps: seq<PeriodRec>, table: map<int, EventRec>)
  {
    forall i | 0 <= i < |ps| :: PeriodPlaced(ps[i], table)
  }

  lemma HomedPlaced(ps: seq<PeriodRec>, table: map<int, EventRec>)
    ensures Homed(ps, table) <==> Placed(ps, table) && forall x | x in table :: x in Members(ps)
  {
  }

  lemma EventSetHas(p: PeriodRec, x: int)
    ensures x in EventSet(p) <==> x in p.events
  {
    if x in p.events {
      var k :| 0 <= k < |p.events| && p.events[k] == x;
    }
  }

  lemma MembersSnoc(ps: seq<PeriodRec>)
    requires ps != []
    ensures Members(ps) == Members(ps[..|ps| - 1]) + EventSet(ps[|ps| - 1])
  {
    var n := |ps| - 1;
    assert ps == ps[..n] + [ps[n]];
    MembersConcat(ps[..n], [ps[n]]);
    assert [ps[n]][1..] == [];
  }

  /** The events of periods below bucket `P` all belong to buckets below `P`. */
  lemma MembersBelow(ps: seq<PeriodRec>, table: map<int, EventRec>, P: nat, x: int)
    requires Placed(ps, table) && forall i | 0 <= i < |ps| :: ps[i].period < P
    requires x in Members(ps)
    ensures x in table && table[x].period < P
  {
    MembersAt(ps, x);
    var i, k :| 0 <= i < |ps| && 0 <= k < |ps[i].events| && ps[i].events[k] == x;
    assert PeriodPlaced(ps[i], table);
  }

  /** Only listed events are pushed. */
  lemma {:induction false} FiredMembers(ps: seq<PeriodRec>, now: nat, x: int)
    requires x in Fired(ps, now)
    ensures x in Members(ps)
  {
    var init, last := ps[..|ps| - 1], ps[|ps| - 1];
    MembersSnoc(ps);
    if x in Fired(init, now) {
      FiredMembers(init, now, x);
    } else {
      EventSetHas(last, x);
    }
  }

  lemma PlacedPrefix(ps: seq<PeriodRec>, table: map<int, EventRec>, i: nat)
    requires Placed(ps, table) && Ascending(ps) && i < |ps|
    ensures Placed(ps[..i], table) && forall j | 0 <= j < |ps[..i]| :: ps[..i][j].period < ps[i].period
  {
    assert forall j | 0 <= j < i :: ps[..i][j] == ps[j];
  }

  /**
   * What the inner loop over period `ps[i]` may assume: its events are
   * pairwise different, known, and none was freed by an earlier period.
   */
  lemma PeriodReady(ps: seq<PeriodRec>, table: map<int, EventRec>, i: nat, now: nat, alive: set<int>)
    requires Placed(ps, table) && Ascending(ps) && i < |ps|
    ensures Distinct(ps[i].events)
    ensures forall k | 0 <= k < |ps[i].events| :: ps[i].events[k] in table && ps[i].events[k] !in Dropped(ps[..i], now, alive)
  {
    var p := ps[i];
    assert PeriodPlaced(p, table);
    PlacedPrefix(ps, table, i);
    forall k | 0 <= k < |p.events|
      ensures p.events[k] !in Dropped(ps[..i], now, alive)
    {
      var x := p.events[k];
      if x in Fired(ps[..i], now) {
        FiredMembers(ps[..i], now, x);
        MembersBelow(ps[..i], table, p.period, x);
      }
    }
  }

  /** A visit keeps the buckets: every period left over lies below any bound of the old ones. */
  lemma {:induction false} SendBelow(ps: seq<PeriodRec>, now: nat, alive: set<int>, P: nat)
    requires forall i | 0 <= i < |ps| :: ps[i].period < P
    ensures forall k | 0 <= k < |SendPeriods(ps, now, alive)| :: SendPeriods(ps, now, alive)[k].period < P
  {
    if ps != [] {
      SendBelow(ps[..|ps| - 1], now, alive, P);
    }
  }

  /** Freeing periods and touching `last` keep the period list strictly ascending. */
  lemma {:induction false} SendAscending(ps: seq<PeriodRec>, now: nat, alive: set<int>)
    requires Ascending(ps)
    ensures Ascending(SendPeriods(ps, now, alive))
  {
    if ps != [] {
      var init, last := ps[..|ps| - 1], ps[|ps| - 1];
      assert Ascending(init);
      SendAscending(init, now, alive);
      SendBelow(init, now, alive, last.period);
    }
  }

  lemma {:induction false} FilterPlaced(evs: seq<int>, alive: set<int>, table: map<int, EventRec>, P: nat)
    requires EventsPlaced(evs, P, table)
    ensures EventsPlaced(Filter(evs, alive), P, table)
  {
    if evs != [] {
      var init, last := evs[..|evs| - 1], evs[|evs| - 1];
      assert EventsPlaced(init, P, table);
      FilterPlaced(init, alive, table, P);
      var f := Filter(init, alive);
      forall k | 0 <= k < |f|
        ensures f[k] in table && table[f[k]].typ != table[last].typ
      {
        FilterHas(init, alive, f[k]);
        var j :| 0 <= j < |init| && init[j] == f[k];
        assert evs[j] == f[k];
      }
    }
  }

  /** The visits leave every period with events of its own bucket and of different types. */
  lemma {:induction false} SendPlaced(ps: seq<PeriodRec>, now: nat, alive: set<int>, table: map<int, EventRec>)
    requires Placed(ps, table)
    ensures Placed(SendPeriods(ps, now, alive), table)
  {
    if ps != [] {
      var init, last := ps[..|ps| - 1], ps[|ps| - 1];
      assert Placed(init, table);
      SendPlaced(init, now, alive, table);
      assert PeriodPlaced(last, table);
      FilterPlaced(last.events, alive, table, last.period);
    }
  }

  /**
   * The events still listed after the visits are the old ones less those
   * freed; this needs each event to hang from one period only.
   */
  lemma {:induction false} SendMembers(ps: seq<PeriodRec>, now: nat, alive: set<int>, table: map<int, EventRec>)
    requires Placed(ps, table) && Ascending(ps)
    ensures Members(SendPeriods(ps, now, alive)) == Members(ps) - Dropped(ps, now, alive)
  {
    if ps != [] {
      var n := |ps| - 1;
      var init, last := ps[..n], ps[n];
      assert ps[..n + 1] == ps;
      VisitSnoc(ps, n, now, alive);
      PlacedPrefix(ps, table, n);
      assert Ascending(init);
      SendMembers(init, now, alive, table);
      MembersSnoc(ps);
      var sent := SendPeriods(init, now, alive);
      MembersConcat(sent, Visit(last, now, alive));
      var E, D, V := EventSet(last), DropSet(FiredOf(last, now), alive), Members(Visit(last, now, alive));
      assert V == E - D by {
        VisitMembers(last, now, alive);
      }
      assert PeriodPlaced(last, table);
      forall x | x in E
        ensures x !in Members(init)
      {
        EventSetHas(last, x);
        if x in Members(init) {
          MembersBelow(init, table, last.period, x);
        }
      }
      forall x | x in Dropped(init, now, alive)
        ensures x in Members(init)
      {
        FiredMembers(init, now, x);
      }
    }
  }

  lemma VisitMembers(p: PeriodRec, now: nat, alive: set<int>)
    ensures Members(Visit(p, now, alive)) == EventSet(p) - DropSet(FiredOf(p, now), alive)
  {
    var v := Visit(p, now, alive);
    if v != [] {
      assert v[1..] == [];
      forall x
        ensures x in EventSet(v[0]) <==> x in EventSet(p) - DropSet(FiredOf(p, now), alive)
      {
        EventSetHas(v[0], x);
        EventSetHas(p, x);
        FilterHas(p.events, alive, x);
      }
    }
  }

  lemma PlacedRestrict(ps: seq<PeriodRec>, table: map<int, EventRec>, gone: set<int>)
    requires Placed(ps, table) && forall x | x in Members(ps) :: x !in gone
    ensures Placed(ps, Restrict(table, gone))
  {
    forall i, k | 0 <= i < |ps| && 0 <= k < |ps[i].events|
      ensures ps[i].events[k] !in gone
    {
      MembersAround(ps, i);
      EventSetHas(ps[i], ps[i].events[k]);
    }
    forall i | 0 <= i < |ps|
      ensures PeriodPlaced(ps[i], Restrict(table, gone))
    {
      assert PeriodPlaced(ps[i], table);
    }
  }

  /** event_send keeps the registry well formed. */
  lemma SendKeepsValid(ps: seq<PeriodRec>, byid: seq<int>, table: map<int, EventRec>, id: int, now: nat, alive: set<int>)
    requires RegistryOk(ps, byid, table, id)
    requires var gone := Dropped(ps, now, alive);
      ChainOk(Without(byid, gone), Restrict(table, gone))
    ensures var gone := Dropped(ps, now, alive);
      RegistryOk(SendPeriods(ps, now, alive), Without(byid, gone), Restrict(table, gone), id)
  {
    var gone := Dropped(ps, now, alive);
    var ps' := SendPeriods(ps, now, alive);
    HomedPlaced(ps, table);
    SendAscending(ps, now, alive);
    SendPlaced(ps, now, alive, table);
    SendMembers(ps, now, alive, table);
    PlacedRestrict(ps', table, gone);
    HomedPlaced(ps', Restrict(table, gone));
  }

  /** The pushes of the events `evs`: each event with the document of its type for frame `g`. */
  function Pushes(evs: seq<int>, g: Frame, table: map<int, EventRec>): (r: seq<(int, Document)>)
    requires forall k | 0 <= k < |evs| :: evs[k] in table
    ensures |r| == |evs|
  {
    seq(|evs|, k requires 0 <= k < |evs| => (evs[k], DocumentOf(g, table[evs[k]].typ)))
  }

  lemma PushesAppend(a: seq<int>, b: seq<int>, g: Frame, table: map<int, EventRec>)
    requires forall k | 0 <= k < |a| :: a[k] in table
    requires forall k | 0 <= k < |b| :: b[k] in table
    ensures forall k | 0 <= k < |a + b| :: (a + b)[k] in table
    ensures Pushes(a + b, g, table) == Pushes(a, g, table) + Pushes(b, g, table)
  {
  }

  /** Every pushed event is known, so the documents it was pushed with are defined. */
  lemma FiredKnown(ps: seq<PeriodRec>, now: nat, table: map<int, EventRec>)
    requires Placed(ps, table)
    ensures forall k | 0 <= k < |Fired(ps, now)| :: Fired(ps, now)[k] in table
  {
    forall k | 0 <= k < |Fired(ps, now)|
      ensures Fired(ps, now)[k] in table
    {
      var x := Fired(ps, now)[k];
      FiredMembers(ps, now, x);
      MembersAt(ps, x);
      var i, j :| 0 <= i < |ps| && 0 <= j < |ps[i].events| && ps[i].events[j] == x;
      assert PeriodPlaced(ps[i], table);
    }
  }

  /**
   * event_send at time `now` (`gettimeofday` in ms, truncated to uint32):
   * nothing when no frame is new; otherwise visit every period — free it
   * when it has no event, push to its events when its period has elapsed
   * since its last push — and report the pushes in order. `alive` is the
   * set of events whose push still reached a listener.
   */
  method EventSend(reg: Registry, ring: FrameRing, cache: Cache, now: nat, alive: set<int>)
    returns (sent: seq<(int, Document)>)
    requires reg.Valid() && ring.Valid() && (ring.newframes == 0 ==> cache.Coherent(ring.Current()))
    requires now < TwoTo32
    modifies reg, ring, cache
    ensures reg.Valid() && reg.id == old(reg.id)
    ensures ring.Valid() && ring.frames == old(ring.frames) && ring.frameidx == old(ring.frameidx)
    ensures ring.newframes == 0 ==> cache.Coherent(ring.Current())
    ensures old(ring.newframes) == 0 ==> sent == [] && unchanged(reg) && unchanged(ring) && unchanged(cache)
    ensures old(ring.newframes) != 0 ==>
      var fired, gone := Fired(old(reg.periods), now), Dropped(old(reg.periods), now, alive);
      && reg.periods == SendPeriods(old(reg.periods), now, alive)
      && reg.byid == Without(old(reg.byid), gone)
      && reg.table == Restrict(old(reg.table), gone)
      && (forall k | 0 <= k < |fired| :: fired[k] in old(reg.table))
      && sent == Pushes(fired, ring.Current(), old(reg.table))
      && ring.newframes == if fired == [] then old(ring.newframes) else 0
  {
    sent := [];
    if ring.newframes == 0 {
      return;
    }
    sent := SendAll(reg, ring, cache, now, alive);
  }

  /** The walk over the period list once new frames are known to exist. */
  method SendAll(reg: Registry, ring: FrameRing, cache: Cache, now: nat, alive: set<int>)
    returns (sent: seq<(int, Document)>)
    requires reg.Valid() && ring.Valid() && (ring.newframes == 0 ==> cache.Coherent(ring.Current()))
    requires now < TwoTo32
    modifies reg, ring, cache
    ensures reg.Valid() && reg.id == old(reg.id)
    ensures ring.Valid() && ring.frames == old(ring.frames) && ring.frameidx == old(ring.frameidx)
    ensures ring.newframes == 0 ==> cache.Coherent(ring.Current())
    ensures var fired, gone := Fired(old(reg.periods), now), Dropped(old(reg.periods), now, alive);
      && reg.periods == SendPeriods(old(reg.periods), now, alive)
      && reg.byid == Without(old(reg.byid), gone)
      && reg.table == Restrict(old(reg.table), gone)
      && (forall k | 0 <= k < |fired| :: fired[k] in old(reg.table))
      && sent == Pushes(fired, ring.Current(), old(reg.table))
      && ring.newframes == if fired == [] then old(ring.newframes) else 0
  {
    var ps := reg.periods;
    ghost var B, T := reg.byid, reg.table;
    HomedPlaced(ps, T);
    var done;
    done, sent := Walk(reg, ring, cache, ps, now, alive, B, T);
    reg.periods := done;
    SendKeepsValid(ps, B, T, reg.id, now, alive);
  }

  /**
   * The state of event_send after the first `i` periods of `ps`: `done`
   * holds what is kept of them, the events they freed are gone from both
   * lists, and `sent` holds the pushes of their fired events. `n0` is the
   * count of new frames before the walk.
   */
  ghost predicate Walked(reg: Registry, ring: FrameRing, cache: Cache, ps: seq<PeriodRec>, i: nat, now: nat,
                         alive: set<int>, B: seq<int>, T: map<int, EventRec>, g: Frame, n0: nat,
                         done: seq<PeriodRec>, sent: seq<(int, Document)>)
    reads reg, ring, ring.frames, cache
  {
    && i <= |ps|
    && ring.Valid() && ring.Current() == g
    && ring.newframes == (if Fired(ps[..i], now) == [] then n0 else 0)
    && (ring.newframes == 0 ==> cache.Coherent(g))
    && ChainOk(reg.byid, reg.table)
    && done == SendPeriods(ps[..i], now, alive)
    && reg.byid == Without(B, Dropped(ps[..i], now, alive))
    && reg.table == Restrict(T, Dropped(ps[..i], now, alive))
    && (forall k | 0 <= k < |Fired(ps[..i], now)| :: Fired(ps[..i], now)[k] in T)
    && sent == Pushes(Fired(ps[..i], now), g, T)
  }

  /**
   * The outer loop of event_send over the periods `ps`: `done` is the new
   * period list and `sent` the pushes made, in order.
   */
  method Walk(reg: Registry, ring: FrameRing, cache: Cache, ps: seq<PeriodRec>, now: nat, alive: set<int>,
              ghost B: seq<int>, ghost T: map<int, EventRec>)
    returns (done: seq<PeriodRec>, sent: seq<(int, Document)>)
    requires ring.Valid() && (ring.newframes == 0 ==> cache.Coherent(ring.Current()))
    requires ChainOk(reg.byid, reg.table) && reg.byid == B && reg.table == T
    requires Placed(ps, T) && Ascending(ps) && now < TwoTo32
    modifies reg`byid, reg`table, ring, cache
    ensures ring.Valid() && ring.frames == old(ring.frames) && ring.frameidx == old(ring.frameidx)
    ensures ring.newframes == 0 ==> cache.Coherent(ring.Current())
    ensures ChainOk(reg.byid, reg.table)
    ensures done == SendPeriods(ps, now, alive)
    ensures reg.byid == Without(B, Dropped(ps, now, alive))
    ensures reg.table == Restrict(T, Dropped(ps, now, alive))
    ensures forall k | 0 <= k < |Fired(ps, now)| :: Fired(ps, now)[k] in T
    ensures sent == Pushes(Fired(ps, now), ring.Current(), T)
    ensures ring.newframes == if Fired(ps, now) == [] then old(ring.newframes) else 0
  {
    ghost var g := ring.Current();
    ghost var n0 := ring.newframes;
    WalkedStart(reg, ring, cache, ps, now, alive);
    sent := [];
    done := [];
    var i := 0;
    while i < |ps|
      invariant ring.frames == old(ring.frames) && ring.frameidx == old(ring.frameidx)
      invariant Walked(reg, ring, cache, ps, i, now, alive, B, T, g, n0, done, sent)
    {
      done, sent := WalkStep(reg, ring, cache, ps, i, now, alive, B, T, g, n0, done, sent);
      i := i + 1;
    }
    WalkedAll(reg, ring, cache, ps, now, alive, B, T, g, n0, done, sent);
  }

  /** Before the walk nothing is kept, freed or sent yet. */
  lemma WalkedStart(reg: Registry, ring: FrameRing, cache: Cache, ps: seq<PeriodRec>, now: nat, alive: set<int>)
    requires ring.Valid() && (ring.newframes == 0 ==> cache.Coherent(ring.Current()))
    requires ChainOk(reg.byid, reg.table)
    ensures Walked(reg, ring, cache, ps, 0, now, alive, reg.byid, reg.table, ring.Current(), ring.newframes, [], [])
  {
    WithoutNothing(reg.byid);
    assert Restrict(reg.table, {}) == reg.table;
    assert ps[..0] == [] && Dropped(ps[..0], now, alive) == {};
  }

  /** After the last period the walk has done all of `ps`. */
  lemma WalkedAll(reg: Registry, ring: FrameRing, cache: Cache, ps: seq<PeriodRec>, now: nat, alive: set<int>,
                  B: seq<int>, T: map<int, EventRec>, g: Frame, n0: nat,
                  done: seq<PeriodRec>, sent: seq<(int, Document)>)
    requires Walked(reg, ring, cache, ps, |ps|, now, alive, B, T, g, n0, done, sent)
    ensures ring.Valid() && ring.Current() == g
    ensures ring.newframes == 0 ==> cache.Coherent(g)
    ensures ChainOk(reg.byid, reg.table)
    ensures done == SendPeriods(ps, now, alive)
    ensures reg.byid == Without(B, Dropped(ps, now, alive))
    ensures reg.table == Restrict(T, Dropped(ps, now, alive))
    ensures forall k | 0 <= k < |Fired(ps, now)| :: Fired(ps, now)[k] in T
    ensures sent == Pushes(Fired(ps, now), g, T)
    ensures ring.newframes == if Fired(ps, now) == [] then n0 else 0
  {
    assert ps[..|ps|] == ps;
  }

  /** One turn of the outer loop: visit `ps[i]` and account for what it pushed and freed. */
  method WalkStep(reg: Registry, ring: FrameRing, cache: Cache, ps: seq<PeriodRec>, i: nat, now: nat, alive: set<int>,
                  ghost B: seq<int>, ghost T: map<int, EventRec>, ghost g: Frame, ghost n0: nat,
                  done: seq<PeriodRec>, sent: seq<(int, Document)>)
    returns (done': seq<PeriodRec>, sent': seq<(int, Document)>)
    requires i < |ps| && Placed(ps, T) && Ascending(ps) && now < TwoTo32
    requires Walked(reg, ring, cache, ps, i, now, alive, B, T, g, n0, done, sent)
    modifies reg`byid, reg`table, ring, cache
    ensures ring.frames == old(ring.frames) && ring.frameidx == old(ring.frameidx)
    ensures Walked(reg, ring, cache, ps, i + 1, now, alive, B, T, g, n0, done', sent')
  {
    var p := ps[i];
    ghost var n := ring.newframes;
    PeriodReady(ps, T, i, now, alive);
    var visited, pushed := VisitPeriod(reg, ring, cache, p, now, alive, B, T, Dropped(ps[..i], now, alive));
    WalkedNext(reg, ring, cache, ps, i, now, alive, B, T, g, n0, n, done, sent, visited, pushed);
    done' := done + visited;
    sent' := sent + pushed;
  }

  /**
   * What `WalkStep` adds up: the state after `VisitPeriod` on `ps[i]`,
   * given the walk over `ps[..i]` before it (`n` new frames then).
   */
  lemma WalkedNext(reg: Registry, ring: FrameRing, cache: Cache, ps: seq<PeriodRec>, i: nat, now: nat, alive: set<int>,
                   B: seq<int>, T: map<int, EventRec>, g: Frame, n0: nat, n: nat,
                   done: seq<PeriodRec>, sent: seq<(int, Document)>, visited: seq<PeriodRec>, pushed: seq<(int, Document)>)
    requires i < |ps|
    requires n == (if Fired(ps[..i], now) == [] then n0 else 0)
    requires done == SendPeriods(ps[..i], now, alive)
    requires forall k | 0 <= k < |Fired(ps[..i], now)| :: Fired(ps[..i], now)[k] in T
    requires sent == Pushes(Fired(ps[..i], now), g, T)
    requires ring.Valid() && ring.Current() == g
    requires ring.newframes == if FiredOf(ps[i], now) == [] then n else 0
    requires ring.newframes == 0 ==> cache.Coherent(g)
    requires ChainOk(reg.byid, reg.table)
    requires visited == Visit(ps[i], now, alive)
    requires var G' := Dropped(ps[..i], now, alive) + DropSet(FiredOf(ps[i], now), alive);
      reg.byid == Without(B, G') && reg.table == Restrict(T, G')
    requires forall k | 0 <= k < |FiredOf(ps[i], now)| :: FiredOf(ps[i], now)[k] in T
    requires pushed == Pushes(FiredOf(ps[i], now), g, T)
    ensures Walked(reg, ring, cache, ps, i + 1, now, alive, B, T, g, n0, done + visited, sent + pushed)
  {
    VisitSnoc(ps, i, now, alive);
    PushesAppend(Fired(ps[..i], now), FiredOf(ps[i], now), g, T);
  }

  lemma {:induction false} WithoutNothing(s: seq<int>)
    ensures Without(s, {}) == s
  {
    if s != [] {
      WithoutNothing(s[..|s| - 1]);
      assert s[..|s| - 1] + [s[|s| - 1]] == s;
    }
  }

  /**
   * One turn of the outer loop of event_send on period `p`: `visited` is
   * what is left of `p` and `pushed` the pushes made to its events.
   */
  method VisitPeriod(reg: Registry, ring: FrameRing, cache: Cache, p: PeriodRec, now: nat, alive: set<int>,
                ghost B: seq<int>, ghost T: map<int, EventRec>, ghost G: set<int>)
    returns (visited: seq<PeriodRec>, pushed: seq<(int, Document)>)
    requires ring.Valid() && (ring.newframes == 0 ==> cache.Coherent(ring.Current()))
    requires ChainOk(reg.byid, reg.table)
    requires reg.byid == Without(B, G) && reg.table == Restrict(T, G)
    requires Distinct(p.events) && forall k | 0 <= k < |p.events| :: p.events[k] in T && p.events[k] !in G
    requires now < TwoTo32
    modifies reg`byid, reg`table, ring, cache
    ensures ring.Valid() && ring.frames == old(ring.frames) && ring.frameidx == old(ring.frameidx)
    ensures ring.newframes == if FiredOf(p, now) == [] then old(ring.newframes) else 0
    ensures ring.newframes == 0 ==> cache.Coherent(ring.Current())
    ensures ChainOk(reg.byid, reg.table)
    ensures visited == Visit(p, now, alive)
    ensures var G' := G + DropSet(FiredOf(p, now), alive);
      reg.byid == Without(B, G') && reg.table == Restrict(T, G')
    ensures forall k | 0 <= k < |FiredOf(p, now)| :: FiredOf(p, now)[k] in T
    ensures pushed == Pushes(FiredOf(p, now), ring.Current(), T)
  {
    if p.events == [] {
      assert G + DropSet([], alive) == G;
      visited, pushed := [], [];
    } else if p.period <= (now - p.last) % TwoTo32 {
      var kept;
      kept, pushed := PushAll(reg, ring, cache, p.events, alive, B, T, G);
      visited := [PeriodRec(p.period, now, kept)];
    } else {
      assert G + DropSet([], alive) == G;
      visited, pushed := [p], [];
    }
  }

  /** An event is pushed exactly when it hangs from a period that is due. */
  lemma {:induction false} FiredHas(ps: seq<PeriodRec>, now: nat, x: int)
    ensures x in Fired(ps, now) <==> exists i | 0 <= i < |ps| :: Due(ps[i], now) && x in ps[i].events
  {
    if ps != [] {
      var n := |ps| - 1;
      FiredHas(ps[..n], now, x);
      if x in Fired(ps, now) && x !in Fired(ps[..n], now) {
        assert Due(ps[n], now) && x in ps[n].events;
      }
      if exists i | 0 <= i < |ps| :: Due(ps[i], now) && x in ps[i].events {
        var i :| 0 <= i < |ps| && Due(ps[i], now) && x in ps[i].events;
        if i < n {
          assert ps[..n][i] == ps[i];
        }
      }
    }
  }

  lemma AppendDistinct(a: seq<int>, b: seq<int>)
    requires Distinct(a) && Distinct(b) && forall x | x in b :: x !in a
    ensures Distinct(a + b)
  {
    forall i, j | 0 <= i < j < |a + b|
      ensures (a + b)[i] != (a + b)[j]
    {
      if j < |a| {
        assert (a + b)[i] == a[i] && (a + b)[j] == a[j];
      } else if i < |a| {
        assert (a + b)[j] == b[j - |a|] && b[j - |a|] in b;
      } else {
        assert (a + b)[i] == b[i - |a|] && (a + b)[j] == b[j - |a|];
      }
    }
  }

  /** No event is pushed twice by one event_send. */
  lemma {:induction false} FiredDistinct(ps: seq<PeriodRec>, now: nat, table: map<int, EventRec>)
    requires Placed(ps, table) && Ascending(ps)
    ensures Distinct(Fired(ps, now))
  {
    if ps != [] {
      var n := |ps| - 1;
      PlacedPrefix(ps, table, n);
      assert Ascending(ps[..n]);
      FiredDistinct(ps[..n], now, table);
      assert PeriodPlaced(ps[n], table);
      forall x | x in FiredOf(ps[n], now)
        ensures x !in Fired(ps[..n], now)
      {
        if x in Fired(ps[..n], now) {
          FiredMembers(ps[..n], now, x);
          MembersBelow(ps[..n], table, ps[n].period, x);
        }
      }
      AppendDistinct(Fired(ps[..n], now), FiredOf(ps[n], now));
    }
  }
}
