/**
 * The frame ring (`frames`, `frameidx`, `newframes`) and the functions of
 * the decoder that write into it: nmea_set, nmea_gga, nmea_rmc and
 * nmea_sentence.
 */
module Store {
  import opened CText
  import opened Values
  import opened Decoder

  /** sizeof frames / sizeof *frames */
  const RingSize: nat := 10

  /** The ring seen newest first after one more push of `g`: `g`, then all but the oldest. */
  function Pushed(h: seq<Frame>, g: Frame): (r: seq<Frame>)
    requires |h| == RingSize
    ensures |r| == RingSize && r[0] == g
    ensures forall k | 1 <= k < RingSize :: r[k] == h[k - 1]
  {
    [g] + h[..RingSize - 1]
  }

  /** The ring after pushing the frames of `gs`, first to last. */
  function PushedAll(h: seq<Frame>, gs: seq<Frame>): seq<Frame>
    requires |h| == RingSize
  {
    if gs == [] then h else Pushed(PushedAll(h, gs[..|gs| - 1]), gs[|gs| - 1])
  }

  /**
   * The ring keeps the last ten frames pushed, newest first; older entries
   * move down one place per push and fall off the end.
   */
  lemma {:induction false} PushedAllAt(h: seq<Frame>, gs: seq<Frame>, k: nat)
    requires |h| == RingSize && k < RingSize
    ensures |PushedAll(h, gs)| == RingSize
    ensures PushedAll(h, gs)[k] == if k < |gs| then gs[|gs| - 1 - k] else h[k - |gs|]
    decreases |gs|
  {
    if gs != [] {
      var init := gs[..|gs| - 1];
      PushedAllAt(h, init, if k == 0 then 0 else k - 1);
      if k > 0 {
        if k - 1 < |init| {
          assert init[|init| - 1 - (k - 1)] == gs[|gs| - 1 - k];
        }
      }
    }
  }

  /** Pushing in two batches is pushing once. */
  lemma {:induction false} PushedAllAppend(h: seq<Frame>, gs: seq<Frame>, more: seq<Frame>)
    requires |h| == RingSize
    ensures |PushedAll(h, gs)| == RingSize
    ensures PushedAll(PushedAll(h, gs), more) == PushedAll(h, gs + more)
    decreases |more|
  {
    if more == [] {
      assert gs + more == gs;
      if gs != [] {
        PushedAllAt(h, gs, 0);
      }
    } else {
      var init := more[..|more| - 1];
      PushedAllAppend(h, gs, init);
      assert (gs + more)[..|gs + more| - 1] == gs + init;
      assert (gs + more)[|gs + more| - 1] == more[|more| - 1];
    }
  }

  /**
   * Writing `g` one slot before the start of a rotation is pushing `g` on the
   * rotated view: it comes first and the last entry falls off.
   */
  lemma RotatePush<T>(a: seq<T>, b: seq<T>, i: nat, j: nat, g: T)
    requires |a| == RingSize && i < RingSize && j == (i + RingSize - 1) % RingSize
    requires b == a[j := g]
    ensures b[j..] + b[..j] == [g] + (a[i..] + a[..i])[..RingSize - 1]
  {
    var h, r := a[i..] + a[..i], b[j..] + b[..j];
    assert |r| == RingSize;
    forall k | 0 <= k < RingSize
      ensures r[k] == ([g] + h[..RingSize - 1])[k]
    {
      if k == 0 {
        assert r[0] == b[j];
      } else {
        assert r[k] == b[(j + k) % RingSize];
        assert h[k - 1] == a[(i + k - 1) % RingSize];
        assert (j + k) % RingSize == (i + k - 1) % RingSize;
      }
    }
  }

  /** The static `frames`, `frameidx` and `newframes` of the binding. */
  class FrameRing {
    var frames: array<Frame>
    var frameidx: nat
    var newframes: nat

    ghost predicate Valid()
      reads this
    {
      frames.Length == RingSize && frameidx < RingSize
    }

    /** The zero-initialised statics: every slot empty, index 0, nothing new. */
    constructor ()
      ensures Valid() && fresh(frames)
      ensures frameidx == 0 && newframes == 0
      ensures History() == seq(RingSize, _ => EmptyFrame)
    {
      frames := new Frame[RingSize](_ => EmptyFrame);
      frameidx := 0;
      newframes := 0;
    }

    /** `frames[frameidx]`, the frame position() reports. */
    function Current(): Frame
      reads this, frames
      requires Valid()
    {
      frames[frameidx]
    }

    /** The ten slots seen from `frameidx`: the newest frame first. */
    function History(): (h: seq<Frame>)
      reads this, frames
      requires Valid()
      ensures |h| == RingSize && h[0] == Current()
      ensures forall k | 0 <= k < RingSize :: h[k] == frames[(frameidx + k) % RingSize]
    {
      frames[frameidx..] + frames[..frameidx]
    }

    /**
     * The push at the end of nmea_set: step `frameidx` back by one (from 0 to
     * 9), overwrite that slot only, and count one new frame.
     */
    method Push(g: Frame)
      requires Valid()
      modifies this, frames
      ensures Valid() && frames == old(frames)
      ensures frameidx == (old(frameidx) + RingSize - 1) % RingSize
      ensures frames[frameidx] == g
      ensures forall i | 0 <= i < RingSize && i != frameidx :: frames[i] == old(frames[i])
      ensures newframes == old(newframes) + 1
      ensures History() == Pushed(old(History()), g)
    {
      ghost var before := frames[..];
      frameidx := (if frameidx != 0 then frameidx else RingSize) - 1;
      frames[frameidx] := g;
      newframes := newframes + 1;
      RotatePush(before, frames[..], old(frameidx), frameidx, g);
      assert History() == frames[..][frameidx..] + frames[..][..frameidx];
      assert old(History()) == before[old(frameidx)..] + before[..old(frameidx)];
    }

    /**
     * nmea_set: validate the arguments and, when they pass, push the frame.
     * A rejected or crashing call leaves the ring as it was.
     */
    method Set(a: SetArgs) returns (r: Decoded)
      requires Valid() && ArgsNulFree(a)
      modifies this, frames
      ensures Valid() && frames == old(frames)
      ensures r == DecodeFrame(a)
      ensures r.Stored? ==> History() == Pushed(old(History()), r.frame) && newframes == old(newframes) + 1
      ensures !r.Stored? ==> unchanged(this) && unchanged(frames)
    {
      r := DecodeFrame(a);
      if r.Stored? {
        Push(r.frame);
      }
    }

    /**
     * nmea_gga: 14 fields, a fix quality not starting with '0', then
     * nmea_set, which never stores a GGA frame.
     */
    method Gga(body: CString) returns (r: Decoded)
      requires Valid() && NulFree(body)
      modifies this, frames
      ensures r == DecodeGga(body)
      ensures unchanged(this) && unchanged(frames)
    {
      var ok, f := Split(body, 14);
      if !ok || At(f[5], 0) == '0' {
        return Rejected;
      }
      r := Set(GgaArgs(f));
    }

    /** nmea_rmc: 12 fields, a status starting with 'A', then nmea_set. */
    method Rmc(body: CString) returns (r: Decoded)
      requires Valid() && NulFree(body)
      modifies this, frames
      ensures Valid() && frames == old(frames)
      ensures r == DecodeRmc(body)
      ensures r.Stored? ==> History() == Pushed(old(History()), r.frame) && newframes == old(newframes) + 1
      ensures !r.Stored? ==> unchanged(this) && unchanged(frames)
    {
      var ok, f := Split(body, 12);
      if !ok || At(f[1], 0) != 'A' {
        return Rejected;
      }
      r := Set(RmcArgs(f));
    }

    /**
     * nmea_sentence: hand a GGA or RMC sentence to its decoder; every other
     * sentence is ignored. The ring changes only when a frame is stored.
     */
    method Sentence(s: CString) returns (r: Decoded)
      requires Valid() && NulFree(s)
      modifies this, frames
      ensures Valid() && frames == old(frames)
      ensures r == Interpret(s)
      ensures r.Stored? ==> History() == Pushed(old(History()), r.frame) && newframes == old(newframes) + 1
      ensures !r.Stored? ==> unchanged(this) && unchanged(frames)
    {
      if At(s, 0) == '\0' || At(s, 1) == '\0' {
        return Rejected;
      }
      if At(s, 2) == 'G' && At(s, 3) == 'G' && At(s, 4) == 'A' && At(s, 5) == ',' {
        r := Gga(s[6..]);
      } else if At(s, 2) == 'R' && At(s, 3) == 'M' && At(s, 4) == 'C' && At(s, 5) == ',' {
        r := Rmc(s[6..]);
      } else {
        r := Rejected;
      }
    }
  }
}
