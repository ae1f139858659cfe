/**
 * The NMEA line framer: the scan loop of nmea_read over its static
 * 160-byte buffer, `pos` and `overflow`, and the specification of one scan
 * as a function of the bytes read.
 */
module Framer {
  import opened CText
  import opened Values
  import opened Decoder
  import opened Store

  /** sizeof buffer */
  const BufferSize: nat := 160

  /** What one scan hands on and leaves behind. */
  datatype ScanResult = ScanResult(sentences: seq<CString>, rest: seq<char>, overflow: bool)

  /** A line (the bytes before '\n') that goes to nmea_sentence. */
  predicate Accepted(line: seq<char>, overflow: bool)
  {
    |line| > 0 && line[0] == '$' && line[|line| - 1] == '\r' && !overflow
  }

  /** Where the line is cut: at a '*' four bytes before '\n', otherwise at the '\r'. */
  function CutAt(line: seq<char>): (c: nat)
    requires Accepted(line, false)
    ensures 1 <= c < |line|
    ensures line[c] == '*' || line[c] == '\r'
  {
    if |line| > 3 && line[|line| - 4] == '*' then |line| - 4 else |line| - 1
  }

  /** The C string at `&buffer[1]` once the line is cut. */
  function SentenceOf(line: seq<char>): CString
    requires Accepted(line, false)
  {
    CStr(line[1..CutAt(line)])
  }

  function Prepend(s: CString, r: ScanResult): ScanResult
  {
    ScanResult([s] + r.sentences, r.rest, r.overflow)
  }

  /**
   * One scan over the bytes `b` of the buffer, entered with the overflow
   * flag `ov`: each complete line is handed on or dropped and clears the
   * flag; a full buffer without '\n' is thrown away and sets the flag; an
   * incomplete line stays.
   */
  function Scan(b: seq<char>, ov: bool): (r: ScanResult)
    requires |b| <= BufferSize
    ensures |r.rest| <= |b| && |r.rest| < BufferSize
    decreases |b|
  {
    var n := IndexOf(b, '\n');
    if n == |b| then
      if |b| == BufferSize then ScanResult([], [], true) else ScanResult([], b, ov)
    else
      var line := b[..n];
      var more := Scan(b[n + 1..], false);
      if Accepted(line, ov) then Prepend(SentenceOf(line), more) else more
  }

  /** Scan at the first '\n', found at `n`. */
  lemma ScanAt(b: seq<char>, ov: bool, n: nat)
    requires n < |b| <= BufferSize && IndexOf(b, '\n') == n
    ensures Scan(b, ov) ==
      if Accepted(b[..n], ov) then Prepend(SentenceOf(b[..n]), Scan(b[n + 1..], false))
      else Scan(b[n + 1..], false)
  {
  }

  /** Scan when no '\n' is left. */
  lemma ScanNone(b: seq<char>, ov: bool)
    requires |b| <= BufferSize && IndexOf(b, '\n') == |b|
    ensures Scan(b, ov) == if |b| == BufferSize then ScanResult([], [], true) else ScanResult([], b, ov)
  {
  }

  predicate AllNulFree(lines: seq<CString>)
  {
    forall i | 0 <= i < |lines| :: NulFree(lines[i])
  }

  /** Every sentence a scan hands on is a C string. */
  lemma {:induction false} ScanNulFree(b: seq<char>, ov: bool)
    requires |b| <= BufferSize
    ensures AllNulFree(Scan(b, ov).sentences)
    decreases |b|
  {
    var n := IndexOf(b, '\n');
    if n < |b| {
      ScanAt(b, ov, n);
      ScanNulFree(b[n + 1..], false);
    } else {
      ScanNone(b, ov);
    }
  }

  /** What nmea_sentence does with each sentence of a run, in order. */
  function Outcomes(lines: seq<CString>): (rs: seq<Decoded>)
    requires AllNulFree(lines)
    ensures |rs| == |lines|
    ensures forall i | 0 <= i < |lines| :: rs[i] == Interpret(lines[i])
  {
    seq(|lines|, i requires 0 <= i < |lines| => Interpret(lines[i]))
  }

  /** What becomes of each sentence one scan of `b` hands on. */
  function ScanOutcomes(b: seq<char>, ov: bool): seq<Decoded>
    requires |b| <= BufferSize
  {
    ScanNulFree(b, ov);
    Outcomes(Scan(b, ov).sentences)
  }

  /** The scan of two reads' bytes as the scan of the first followed by the scan of what it left. */
  ghost predicate ScansApart(b1: seq<char>, b2: seq<char>, ov: bool)
    requires |b1| + |b2| <= BufferSize
  {
    var r1 := Scan(b1, ov);
    var r2 := Scan(r1.rest + b2, r1.overflow);
    Scan(b1 + b2, ov) == ScanResult(r1.sentences + r2.sentences, r2.rest, r2.overflow)
  }

  /** Scanning the bytes of two reads is scanning the first, then what it left with the second. */
  lemma {:induction false} ScanAppend(b1: seq<char>, b2: seq<char>, ov: bool)
    requires |b1| + |b2| <= BufferSize
    ensures ScansApart(b1, b2, ov)
    decreases |b1|
  {
    var n := IndexOf(b1, '\n');
    if n < |b1| {
      ScanAppend(b1[n + 1..], b2, false);
      ScanAppendLine(b1, b2, ov, n);
    } else {
      ScanAppendNone(b1, b2, ov);
    }
  }

  lemma ScanAppendLine(b1: seq<char>, b2: seq<char>, ov: bool, n: nat)
    requires |b1| + |b2| <= BufferSize && n < |b1| && IndexOf(b1, '\n') == n
    requires ScansApart(b1[n + 1..], b2, false)
    ensures ScansApart(b1, b2, ov)
  {
    IndexOfPrefix(b1, b2, '\n');
    ScanAt(b1, ov, n);
    ScanAt(b1 + b2, ov, n);
    TakeAppend(b1, b2, n);
    DropAppend(b1, b2, n + 1);
    var more := Scan(b1[n + 1..], false);
    var r2 := Scan(more.rest + b2, more.overflow);
    if Accepted(b1[..n], ov) {
      Assoc([SentenceOf(b1[..n])], more.sentences, r2.sentences);
    }
  }

  lemma ScanAppendNone(b1: seq<char>, b2: seq<char>, ov: bool)
    requires |b1| + |b2| <= BufferSize && IndexOf(b1, '\n') == |b1|
    ensures ScansApart(b1, b2, ov)
  {
    ScanNone(b1, ov);
    if |b1| == BufferSize {
      ScanAppendFull(b1, b2, ov);
    } else {
      ScanAppendShort(b1, b2, ov);
    }
  }

  lemma ScanAppendFull(b1: seq<char>, b2: seq<char>, ov: bool)
    requires |b1| + |b2| <= BufferSize && |b1| == BufferSize
    requires Scan(b1, ov) == ScanResult([], [], true)
    ensures ScansApart(b1, b2, ov)
  {
    assert b1 + b2 == b1 && [] + b2 == [];
    ScanNone([], true);
  }

  lemma ScanAppendShort(b1: seq<char>, b2: seq<char>, ov: bool)
    requires |b1| + |b2| <= BufferSize
    requires Scan(b1, ov) == ScanResult([], b1, ov)
    ensures ScansApart(b1, b2, ov)
  {
    var total := Scan(b1 + b2, ov);
    assert [] + total.sentences == total.sentences;
  }

  lemma Assoc<T>(a: seq<T>, b: seq<T>, c: seq<T>)
    ensures a + b + c == a + (b + c)
  {
  }

  /** With the flag up, the next line is dropped whatever it holds, and the flag clears. */
  lemma OverflowDropsLine(b: seq<char>, n: nat)
    requires n < |b| <= BufferSize && IndexOf(b, '\n') == n
    ensures Scan(b, true) == Scan(b[n + 1..], false)
    ensures Accepted(b[..n], false) ==> Scan(b, false).sentences == [SentenceOf(b[..n])] + Scan(b, true).sentences
  {
    ScanAt(b, true, n);
    ScanAt(b, false, n);
  }

  /** One complete line and nothing after it. */
  lemma ScanOneLine(line: seq<char>, ov: bool)
    requires IndexOf(line, '\n') == |line| && |line| < BufferSize
    ensures Scan(line + ['\n'], ov) ==
      if Accepted(line, ov) then ScanResult([SentenceOf(line)], [], false) else ScanResult([], [], false)
  {
    var b := line + ['\n'];
    IndexOfConcat(line, ['\n'], '\n');
    ScanAt(b, ov, |line|);
    TakeAppend(line, ['\n'], |line|);
    assert b[|line| + 1..] == [];
    ScanNone([], false);
  }

  /** A sentence framed as `$...*hh\r\n` is handed on without its checksum, which is never verified. */
  lemma FramedSentence(s: CString, h1: char, h2: char)
    requires NulFree(s) && '\n' !in s && h1 != '\n' && h2 != '\n'
    requires |s| + 6 <= BufferSize
    ensures Scan(['$'] + s + ['*', h1, h2, '\r'] + ['\n'], false) == ScanResult([s], [], false)
  {
    var line := ['$'] + s + ['*', h1, h2, '\r'];
    IndexOfIs(line, '\n', |line|);
    ScanOneLine(line, false);
    assert line[1..CutAt(line)] == s;
    CStrOfCString(s);
  }

  /** A sentence framed as `$...\r\n` is handed on whole unless a '*' sits three bytes before its end. */
  lemma BareSentence(s: CString)
    requires NulFree(s) && '\n' !in s && |s| + 3 <= BufferSize
    requires |s| < 3 || s[|s| - 3] != '*'
    ensures Scan(['$'] + s + ['\r'] + ['\n'], false) == ScanResult([s], [], false)
  {
    var line := ['$'] + s + ['\r'];
    IndexOfIs(line, '\n', |line|);
    ScanOneLine(line, false);
    assert line[1..CutAt(line)] == s;
    CStrOfCString(s);
  }

  lemma TakeAppend<T>(a: seq<T>, b: seq<T>, k: nat)
    requires k <= |a|
    ensures (a + b)[..k] == a[..k]
  {
  }

  lemma DropAppend<T>(a: seq<T>, b: seq<T>, k: nat)
    requires k <= |a|
    ensures (a + b)[k..] == a[k..] + b
  {
  }

  /** What a scan leaves behind is an incomplete line: it holds no '\n'. */
  lemma {:induction false} ScanRest(b: seq<char>, ov: bool)
    requires |b| <= BufferSize
    ensures IndexOf(Scan(b, ov).rest, '\n') == |Scan(b, ov).rest|
    decreases |b|
  {
    var n := IndexOf(b, '\n');
    if n < |b| {
      ScanAt(b, ov, n);
      ScanRest(b[n + 1..], false);
    } else {
      ScanNone(b, ov);
      if |b| == BufferSize {
        assert Scan(b, ov).rest == [];
      }
    }
  }

  /**
   * The end of the valid bytes after read() returns `count` bytes at
   * `&buffer[pos]`, as nmea_read computes it: the count itself.
   */
  function ReadEndAsWritten(pos: nat, count: nat): (rc: nat)
    ensures rc == ReadEnd(pos, count) <==> pos == 0
  {
    count
  }

  /** The end of the valid bytes after a read of `count` bytes at `pos`. */
  function ReadEnd(pos: nat, count: nat): (rc: nat)
    ensures rc - pos == count
  {
    pos + count
  }

  /** Where a run of steps over bytes other than '\n' stops. */
  datatype Stop = AtEnd | AtNewline(at: nat) | PastBuffer

  /**
   * The `buffer[pos] != '\n'` steps of the scan loop from `pos` with end
   * `rc`: they stop when `pos` meets `rc`, at a '\n', or when `pos` leaves the
   * buffer and `buffer[pos]` reads outside it.
   */
  function SkipRun(b: seq<char>, pos: nat, rc: nat): Stop
    requires |b| == BufferSize && pos <= BufferSize
    decreases BufferSize - pos
  {
    if pos == rc then AtEnd
    else if pos == BufferSize then PastBuffer
    else if b[pos] == '\n' then AtNewline(pos)
    else SkipRun(b, pos + 1, rc)
  }

  /**
   * With an end below `pos` and no '\n' from `pos` on, the steps never meet
   * the end and run off the buffer.
   */
  lemma {:induction false} SkipRunPast(b: seq<char>, pos: nat, rc: nat)
    requires |b| == BufferSize && rc < pos <= BufferSize
    requires forall i | pos <= i < BufferSize :: b[i] != '\n'
    ensures SkipRun(b, pos, rc) == PastBuffer
    decreases BufferSize - pos
  {
    if pos < BufferSize {
      SkipRunPast(b, pos + 1, rc);
    }
  }

  /**
   * An incomplete "$GPGGA" waits in a fresh buffer and the next read returns
   * one byte: with the end as nmea_read computes it, the scan reads
   * `buffer[160]`.
   */
  lemma ReadEndAsWrittenOverruns()
    ensures var b := seq(BufferSize, i requires 0 <= i < BufferSize => if i < 7 then "$GPGGA,"[i] else '\0');
      SkipRun(b, 6, ReadEndAsWritten(6, 1)) == PastBuffer
  {
    var b := seq(BufferSize, i requires 0 <= i < BufferSize => if i < 7 then "$GPGGA,"[i] else '\0');
    SkipRunPast(b, 6, 1);
  }

  /** With the end at `pos + count` inside the buffer, the steps never leave it. */
  lemma {:induction false} SkipRunInside(b: seq<char>, pos: nat, count: nat)
    requires |b| == BufferSize && pos + count <= BufferSize
    ensures SkipRun(b, pos, ReadEnd(pos, count)) != PastBuffer
    decreases count
  {
    if count > 0 && b[pos] != '\n' {
      SkipRunInside(b, pos + 1, count - 1);
    }
  }

  /** The frames the ring receives from a run of outcomes, up to the first crash. */
  function Kept(rs: seq<Decoded>): seq<Frame>
  {
    if rs == [] then []
    else match rs[0]
      case Crash => []
      case Rejected => Kept(rs[1..])
      case Stored(g) => [g] + Kept(rs[1..])
  }

  /** A run of outcomes that does not crash, followed by one more. */
  lemma {:induction false} KeptSnoc(done: seq<Decoded>, r: Decoded)
    requires Crash !in done
    ensures r.Stored? ==> Kept(done + [r]) == Kept(done) + [r.frame]
    ensures r.Rejected? ==> Kept(done + [r]) == Kept(done)
    decreases |done|
  {
    if done == [] {
      assert [] + [r] == [r];
      assert [r][1..] == [];
    } else {
      assert (done + [r])[0] == done[0];
      assert (done + [r])[1..] == done[1..] + [r];
      KeptSnoc(done[1..], r);
    }
  }

  /** A crash ends what the ring receives. */
  lemma {:induction false} KeptCrash(done: seq<Decoded>, more: seq<Decoded>)
    requires Crash !in done
    ensures Kept(done + [Crash] + more) == Kept(done)
    decreases |done|
  {
    var all := done + [Crash] + more;
    if done == [] {
      assert all[0] == Crash;
    } else {
      assert all[0] == done[0];
      assert all[1..] == done[1..] + [Crash] + more;
      KeptCrash(done[1..], more);
    }
  }

  /** The cut of an accepted line, read after the NUL has been written at the cut. */
  lemma CutString(b: seq<char>, line: seq<char>)
    requires Accepted(line, false) && |line| < |b|
    requires b[CutAt(line)] == '\0'
    requires b[1..CutAt(line)] == line[1..CutAt(line)]
    ensures CStr(b[1..]) == SentenceOf(line)
  {
    var c := CutAt(line);
    CStrCut(b[1..], c - 1);
    assert b[1..][..c - 1] == b[1..c];
  }

  /** `done` has been handed on and the bytes `cur` still scan to the rest of `total`. */
  ghost predicate Progress(cur: seq<char>, ov: bool, done: seq<CString>, total: ScanResult)
  {
    && |cur| <= BufferSize
    && done + Scan(cur, ov).sentences == total.sentences
    && Scan(cur, ov).rest == total.rest
    && Scan(cur, ov).overflow == total.overflow
  }

  lemma ProgressLine(cur: seq<char>, ov: bool, done: seq<CString>, total: ScanResult, n: nat)
    requires Progress(cur, ov, done, total)
    requires n < |cur| && cur[n] == '\n' && IndexOf(cur, '\n') >= n
    ensures Accepted(cur[..n], ov) ==>
      total.sentences == done + [SentenceOf(cur[..n])] + Scan(cur[n + 1..], false).sentences
    ensures Progress(cur[n + 1..], false, if Accepted(cur[..n], ov) then done + [SentenceOf(cur[..n])] else done, total)
  {
    ScanAt(cur, ov, n);
  }

  lemma ProgressFull(cur: seq<char>, ov: bool, done: seq<CString>, total: ScanResult)
    requires Progress(cur, ov, done, total) && |cur| == BufferSize && IndexOf(cur, '\n') == |cur|
    ensures Progress([], true, done, total)
  {
    ScanNone(cur, ov);
    ScanNone([], true);
  }

  lemma ProgressEnd(cur: seq<char>, ov: bool, done: seq<CString>, total: ScanResult)
    requires Progress(cur, ov, done, total) && |cur| < BufferSize && IndexOf(cur, '\n') == |cur|
    ensures done == total.sentences && cur == total.rest && ov == total.overflow
  {
    ScanNone(cur, ov);
  }

  /** The static buffer, `pos` and `overflow` of nmea_read. */
  class LineFramer {
    var buffer: array<char>
    var pos: nat
    var overflow: bool

    ghost predicate Valid()
      reads this
    {
      buffer.Length == BufferSize && pos <= BufferSize
    }

    /**
     * Between two reads: the buffer starts with the `pos` bytes of an
     * incomplete line, which hold no '\n'.
     */
    ghost predicate Waiting()
      reads this, buffer
    {
      Valid() && pos < BufferSize && IndexOf(buffer[..pos], '\n') == pos
    }

    /** The statics at load time: an empty buffer and a clear flag. */
    constructor ()
      ensures Waiting() && fresh(buffer)
      ensures pos == 0 && !overflow
    {
      buffer := new char[BufferSize](_ => '\0');
      pos := 0;
      overflow := false;
    }

    /**
     * One successful read of `data` into `&buffer[pos]` followed by the scan
     * loop, with the end of the valid bytes taken as `pos + |data|`; the
     * sentences it hands on then go to nmea_sentence on `ring`, in order.
     * `crashed` reports that a sentence reached atof(NULL); nothing is
     * modelled past that point.
     */
    method ReadChunk(data: seq<char>, ring: FrameRing) returns (crashed: bool)
      requires Waiting() && ring.Valid()
      requires 1 <= |data| <= BufferSize - pos
      modifies this, buffer, ring, ring.frames
      ensures Waiting() && buffer == old(buffer)
      ensures ring.Valid() && ring.frames == old(ring.frames)
      ensures buffer[..pos] == Scan(old(buffer[..pos]) + data, old(overflow)).rest
      ensures overflow == Scan(old(buffer[..pos]) + data, old(overflow)).overflow
      ensures crashed <==> Crash in ScanOutcomes(old(buffer[..pos]) + data, old(overflow))
      ensures ring.History() == PushedAll(old(ring.History()), Kept(ScanOutcomes(old(buffer[..pos]) + data, old(overflow))))
      ensures ring.newframes == old(ring.newframes) + |Kept(ScanOutcomes(old(buffer[..pos]) + data, old(overflow)))|
    {
      ghost var b := buffer[..pos] + data;
      var lines := ReadScan(data);
      ScanNulFree(b, old(overflow));
      ScanRest(b, old(overflow));
      crashed := Feed(lines, ring);
    }

    /** The read of `data` into `&buffer[pos]` and the scan loop over the valid bytes. */
    method ReadScan(data: seq<char>) returns (lines: seq<CString>)
      requires Waiting()
      requires 1 <= |data| <= BufferSize - pos
      modifies this, buffer
      ensures Valid() && buffer == old(buffer)
      ensures lines == Scan(old(buffer[..pos]) + data, old(overflow)).sentences
      ensures buffer[..pos] == Scan(old(buffer[..pos]) + data, old(overflow)).rest
      ensures overflow == Scan(old(buffer[..pos]) + data, old(overflow)).overflow
    {
      Load(data);
      IndexOfConcat(old(buffer[..pos]), data, '\n');
      lines := ScanBuffer(ReadEnd(pos, |data|));
    }

    /**
     * The state of the scan loop: the first `rc` bytes of the buffer are
     * `cur`, no '\n' lies before `pos`, and what `cur` still scans to
     * completes `total` after the sentences `lines` already handed on.
     */
    ghost predicate Scanning(rc: nat, cur: seq<char>, lines: seq<CString>, total: ScanResult)
      reads this, buffer
    {
      && Valid() && pos <= rc <= BufferSize
      && (rc == BufferSize ==> pos < rc)
      && cur == buffer[..rc]
      && IndexOf(cur, '\n') >= pos
      && Progress(cur, overflow, lines, total)
    }

    /**
     * The scan loop of nmea_read over the `rc0` bytes at the front of the
     * buffer, entered with no '\n' before `pos`; `lines` are the sentences it
     * hands to nmea_sentence, in order.
     */
    method ScanBuffer(rc0: nat) returns (lines: seq<CString>)
      requires Valid() && pos < rc0 <= BufferSize
      requires IndexOf(buffer[..rc0], '\n') >= pos
      modifies this, buffer
      ensures Valid() && buffer == old(buffer)
      ensures lines == Scan(old(buffer[..rc0]), old(overflow)).sentences
      ensures buffer[..pos] == Scan(old(buffer[..rc0]), old(overflow)).rest
      ensures overflow == Scan(old(buffer[..rc0]), old(overflow)).overflow
    {
      var rc: nat := rc0;
      ghost var total := Scan(buffer[..rc], overflow);
      ghost var cur := buffer[..rc];
      lines := [];
      while pos != rc
        invariant buffer == old(buffer)
        invariant Scanning(rc, cur, lines, total)
        decreases rc - pos
      {
        if buffer[pos] != '\n' {
          rc, cur := Skip(rc, cur, lines, total);
        } else {
          lines, rc, cur := NewLine(rc, cur, lines, total);
        }
      }
      ProgressEnd(cur, overflow, lines, total);
    }

    /**
     * A byte other than '\n': step over it; a full buffer without a line
     * end is dropped and raises `overflow`.
     */
    method Skip(rc: nat, ghost cur: seq<char>, lines: seq<CString>, ghost total: ScanResult)
      returns (rc': nat, ghost cur': seq<char>)
      requires Scanning(rc, cur, lines, total) && pos != rc && buffer[pos] != '\n'
      modifies this
      ensures buffer == old(buffer)
      ensures Scanning(rc', cur', lines, total)
      ensures rc' - pos < rc - old(pos)
      ensures rc' == rc || (rc' == 0 && pos == 0 && overflow)
    {
      IndexOfPast(cur, '\n', pos);
      pos := pos + 1;
      rc', cur' := rc, cur;
      if pos == rc {
        if pos == BufferSize {
          ProgressFull(cur, overflow, lines, total);
          overflow := true;
          pos := 0;
          rc', cur' := 0, [];
        }
      }
    }

    /**
     * The '\n' branch of the scan loop: `lines` grows by the sentence
     * handed on, if any, and the bytes after the '\n' are what is left.
     */
    method NewLine(rc: nat, ghost cur: seq<char>, lines: seq<CString>, ghost total: ScanResult)
      returns (lines': seq<CString>, left: nat, ghost cur': seq<char>)
      requires Scanning(rc, cur, lines, total) && pos != rc && buffer[pos] == '\n'
      modifies this, buffer
      ensures buffer == old(buffer)
      ensures Scanning(left, cur', lines', total)
      ensures pos == 0 && !overflow && left < rc - old(pos)
      ensures cur' == cur[old(pos) + 1..]
    {
      ghost var n, ov := pos, overflow;
      assert cur[..n] == buffer[..pos];
      ProgressLine(cur, ov, lines, total, n);
      var s, l := Line(rc);
      lines' := if s.Some? then lines + [s.value] else lines;
      left := l;
      cur' := buffer[..left];
      assert cur' == cur[n + 1..];
      assert lines' == if Accepted(cur[..n], ov) then lines + [SentenceOf(cur[..n])] else lines;
    }

    /**
     * The '\n' at `pos` ends a line: cut it and hand it on when it is
     * accepted, then move the bytes after it to the front and reset `pos`
     * and `overflow`. `left` is the new byte count (`rc -= pos`).
     */
    method Line(rc: nat) returns (s: Option<CString>, left: nat)
      requires Valid() && pos < rc <= BufferSize && buffer[pos] == '\n'
      modifies this, buffer
      ensures Valid() && buffer == old(buffer)
      ensures s.Some? <==> Accepted(old(buffer[..pos]), old(overflow))
      ensures s.Some? ==> s.value == SentenceOf(old(buffer[..pos]))
      ensures left == rc - old(pos) - 1 && pos == 0 && !overflow
      ensures buffer[..left] == old(buffer[..rc])[old(pos) + 1..]
    {
      ghost var b := buffer[..rc];
      if buffer[0] == '$' && pos > 0 && buffer[pos - 1] == '\r' && !overflow {
        var c := Cut();
        s := Some(c);
      } else {
        s := None;
      }
      assert buffer[pos..rc] == b[pos..];
      pos := pos + 1;
      left := rc - pos;
      Shift(pos, left);
      assert buffer[..left] == b[pos..];
      pos := 0;
      overflow := false;
    }

    /**
     * The accepted line `buffer[0..pos)`: write the NUL at the cut and read
     * the C string at `&buffer[1]`. Only the byte at the cut changes.
     */
    method Cut() returns (s: CString)
      requires Valid() && pos < BufferSize
      requires Accepted(buffer[..pos], false)
      modifies buffer
      ensures s == SentenceOf(old(buffer[..pos]))
      ensures buffer[pos..] == old(buffer[pos..])
    {
      ghost var line := buffer[..pos];
      var c := if pos > 3 && buffer[pos - 4] == '*' then pos - 4 else pos - 1;
      assert c == CutAt(line);
      ghost var pre := buffer[..];
      forall j | 0 <= j < c - 1
        ensures pre[1..c][j] == line[1..c][j]
      {
        assert pre[j + 1] == line[j + 1];
      }
      assert pre[1..c] == line[1..c];
      buffer[c] := '\0';
      assert buffer[..] == pre[c := '\0'];
      CutString(buffer[..], line);
      s := CStr(buffer[1..]);
    }

    /** read() into `&buffer[pos]`: the |data| bytes there become `data`. */
    method Load(data: seq<char>)
      requires Valid() && pos + |data| <= BufferSize
      modifies buffer
      ensures buffer[..pos + |data|] == old(buffer[..pos]) + data
      ensures buffer[pos + |data|..] == old(buffer[pos + |data|..])
    {
      forall k | 0 <= k < |data| {
        buffer[pos + k] := data[k];
      }
    }

    /** `memmove(buffer, buffer + from, count)` when `count > 0`. */
    method Shift(from: nat, count: int)
      requires Valid() && from + count <= BufferSize
      modifies buffer
      ensures count > 0 ==> buffer[..count] == old(buffer[from..from + count])
      ensures count <= 0 ==> unchanged(buffer)
    {
      if count > 0 {
        forall k | 0 <= k < count {
          buffer[k] := buffer[from + k];
        }
      }
    }
  }

  /** nmea_sentence on each sentence in turn, stopping at the first crash. */
  method Feed(lines: seq<CString>, ring: FrameRing) returns (crashed: bool)
    requires ring.Valid() && AllNulFree(lines)
    modifies ring, ring.frames
    ensures ring.Valid() && ring.frames == old(ring.frames)
    ensures crashed <==> Crash in Outcomes(lines)
    ensures ring.History() == PushedAll(old(ring.History()), Kept(Outcomes(lines)))
    ensures ring.newframes == old(ring.newframes) + |Kept(Outcomes(lines))|
  {
    ghost var h0 := ring.History();
    ghost var all := Outcomes(lines);
    var i := 0;
    while i < |lines|
      invariant i <= |lines|
      invariant ring.Valid() && ring.frames == old(ring.frames)
      invariant Crash !in all[..i]
      invariant ring.History() == PushedAll(h0, Kept(all[..i]))
      invariant ring.newframes == old(ring.newframes) + |Kept(all[..i])|
    {
      var r := ring.Sentence(lines[i]);
      assert r == all[i];
      if r.Crash? {
        KeptCrash(all[..i], all[i + 1..]);
        Split3(all, i);
        return true;
      }
      RunStep(h0, all[..i], r);
      TakeSnoc(all, i);
      i := i + 1;
    }
    assert all[..i] == all;
    return false;
  }

  /** The ring after one more outcome of a run that has not crashed. */
  lemma RunStep(h: seq<Frame>, done: seq<Decoded>, r: Decoded)
    requires |h| == RingSize && Crash !in done && !r.Crash?
    ensures Crash !in done + [r]
    ensures r.Stored? ==>
      && |PushedAll(h, Kept(done))| == RingSize
      && PushedAll(h, Kept(done + [r])) == Pushed(PushedAll(h, Kept(done)), r.frame)
      && |Kept(done + [r])| == |Kept(done)| + 1
    ensures r.Rejected? ==> Kept(done + [r]) == Kept(done)
  {
    KeptSnoc(done, r);
    if r.Stored? {
      PushedAllAppend(h, Kept(done), []);
      assert (Kept(done) + [r.frame])[..|Kept(done)|] == Kept(done);
    }
  }

  lemma TakeSnoc<T>(s: seq<T>, i: nat)
    requires i < |s|
    ensures s[..i] + [s[i]] == s[..i + 1]
  {
  }

  lemma Split3<T>(s: seq<T>, i: nat)
    requires i < |s|
    ensures s[..i] + [s[i]] + s[i + 1..] == s
  {
  }

  lemma IndexOfPast(s: seq<char>, c: char, p: nat)
    requires p < |s| && s[p] != c && IndexOf(s, c) >= p
    ensures IndexOf(s, c) >= p + 1
  {
  }
}
