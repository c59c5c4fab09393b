/** The sender's event loop on values: the ring-buffer window and what each part of an iteration sends. */
module SenderSpec {
  import opened Bytes
  import opened GapLists
  import opened Options
  import opened Packets

  /** `window` is the ring buffer, `pos` and `eof` the state of the file stream, `report` the last
      report, whose gaps are still to be filled if `checkGaps`. */
  datatype SenderState = SenderState(window: seq<Packet>, start: int, inFlight: int, pos: nat, eof: bool,
                                     checkGaps: bool, report: Report)

  /** A part of the loop: the state behind it, and what it sent. */
  datatype Outcome = Outcome(state: SenderState, sent: seq<Packet>)

  /** The number of the next packet to be sent. */
  function Next(s: SenderState): int {
    s.start + s.inFlight
  }

  function Slot(window: seq<Packet>, s: int): Packet
    requires 0 < |window|
  {
    window[s % |window|]
  }

  /** What the ring buffer holds for the numbers of one gap. */
  function GapPackets(window: seq<Packet>, lo: int, hi: int): seq<Packet>
    requires 0 < |window|
    decreases hi - lo
  {
    if lo >= hi then [] else GapPackets(window, lo, hi - 1) + [Slot(window, hi - 1)]
  }

  /** What is sent for the first `n` gaps of a report. */
  function Resends(window: seq<Packet>, gaps: seq<Gap>, n: nat): seq<Packet>
    requires 0 < |window| && n <= |gaps|
  {
    if n == 0 then []
    else Resends(window, gaps, n - 1) + GapPackets(window, gaps[n - 1].start, gaps[n - 1].end)
  }

  lemma NoGapPackets(window: seq<Packet>, lo: int)
    requires 0 < |window|
    ensures GapPackets(window, lo, lo) == []
  {
  }

  lemma NextGapPacket(window: seq<Packet>, lo: int, hi: int)
    requires 0 < |window| && lo <= hi
    ensures GapPackets(window, lo, hi + 1) == GapPackets(window, lo, hi) + [Slot(window, hi)]
  {
  }

  lemma NoResends(window: seq<Packet>, gaps: seq<Gap>)
    requires 0 < |window|
    ensures Resends(window, gaps, 0) == []
  {
  }

  /** An empty gap, whatever number it starts with, has no packets. */
  lemma NextResends(window: seq<Packet>, gaps: seq<Gap>, i: nat, hi: int)
    requires 0 < |window| && i < |gaps| && hi == if gaps[i].start <= gaps[i].end then gaps[i].end else gaps[i].start
    ensures Resends(window, gaps, i + 1) == Resends(window, gaps, i) + GapPackets(window, gaps[i].start, hi)
  {
  }

  /** The gaps that an array of the reported length gives access to. */
  function Reported(r: Report): nat {
    if r.numGaps < 0 then 0 else if r.numGaps <= |r.gaps| then r.numGaps else |r.gaps|
  }

  /** The reported number of gaps is there, and no gap has a negative number. */
  ghost predicate Readable(r: Report) {
    r.numGaps <= |r.gaps| && forall g :: g in r.gaps ==> 0 <= g.start
  }

  /** A gap of the report holds the number `n`. */
  ghost predicate AsksFor(r: Report, n: int) {
    exists i :: 0 <= i < r.numGaps && i < |r.gaps| && r.gaps[i].start <= n < r.gaps[i].end
  }

  function FillGaps(s: SenderState): Outcome
    requires 0 < |s.window|
  {
    if s.checkGaps then Outcome(s.(checkGaps := false), Resends(s.window, s.report.gaps, Reported(s.report)))
    else Outcome(s, [])
  }

  function SendNext(s: SenderState, file: seq<Byte>): Outcome
    requires 0 < |s.window| && s.pos <= |file|
  {
    if s.inFlight < |s.window| && !s.eof then
      var chunk := ReadChunk(file, s.pos);
      var p := Packet(Next(s), CString(chunk));
      Outcome(s.(window := s.window[Next(s) % |s.window| := p], inFlight := s.inFlight + 1,
                  pos := s.pos + |chunk|, eof := |chunk| < MAX_MESS_LEN - 1), [p])
    else Outcome(s, [])
  }

  function TakeReport(s: SenderState, incoming: Option<Report>): SenderState {
    match incoming
    case None => s
    case Some(r) =>
      var t := s.(report := r, checkGaps := s.checkGaps || r.numGaps > 0);
      if r.aru > 0 then t.(inFlight := s.inFlight - (r.aru - s.start), start := r.aru) else t
  }

  predicate IsDone(s: SenderState) {
    s.eof && s.inFlight <= 0
  }

  function ResendFirst(s: SenderState): seq<Packet>
    requires 0 < |s.window|
  {
    GapPackets(s.window, s.start, s.start + if s.inFlight < NUM_TO_RESEND then s.inFlight else NUM_TO_RESEND)
  }

  /** One iteration: its last part is left out when the transfer is done. */
  function Iterate(s: SenderState, file: seq<Byte>, incoming: Option<Report>, timedOut: bool): Outcome
    requires 0 < |s.window| && s.pos <= |file|
  {
    var filled := FillGaps(s);
    var next := SendNext(filled.state, file);
    var t := TakeReport(next.state, incoming);
    Outcome(t, filled.sent + next.sent + if !IsDone(t) && timedOut then ResendFirst(t) else [])
  }

  // ----- what a pass sends, and nothing else -----

  /** The packets of a gap are those in the slots of its numbers. */
  lemma {:induction false} GapPacketsAre(window: seq<Packet>, lo: int, hi: int)
    requires 0 < |window|
    ensures forall n :: lo <= n < hi ==> window[n % |window|] in GapPackets(window, lo, hi)
    ensures forall p :: p in GapPackets(window, lo, hi) ==> exists n :: lo <= n < hi && p == window[n % |window|]
    decreases hi - lo
  {
    if lo < hi {
      GapPacketsAre(window, lo, hi - 1);
      forall p | p in GapPackets(window, lo, hi)
        ensures exists n :: lo <= n < hi && p == window[n % |window|]
      {
        if p in GapPackets(window, lo, hi - 1) {
          var n :| lo <= n < hi - 1 && p == window[n % |window|];
        } else {
          assert p == window[(hi - 1) % |window|];
        }
      }
    }
  }

  lemma {:induction false} ResendsAre(window: seq<Packet>, gaps: seq<Gap>, k: nat)
    requires 0 < |window| && k <= |gaps|
    ensures forall i, n :: 0 <= i < k && gaps[i].start <= n < gaps[i].end ==> window[n % |window|] in Resends(window, gaps, k)
    ensures forall p :: p in Resends(window, gaps, k) ==>
              exists i, n :: 0 <= i < k && gaps[i].start <= n < gaps[i].end && p == window[n % |window|]
  {
    if k > 0 {
      ResendsAre(window, gaps, k - 1);
      GapPacketsAre(window, gaps[k - 1].start, gaps[k - 1].end);
    }
  }

  lemma GapsAreFilled(s: SenderState)
    requires 0 < |s.window|
    ensures s.checkGaps ==> forall n :: AsksFor(s.report, n) ==> s.window[n % |s.window|] in FillGaps(s).sent
    ensures forall p :: p in FillGaps(s).sent ==> s.checkGaps && exists n :: AsksFor(s.report, n) && p == s.window[n % |s.window|]
  {
    if s.checkGaps {
      var gaps, k := s.report.gaps, Reported(s.report);
      ResendsAre(s.window, gaps, k);
      forall n | AsksFor(s.report, n)
        ensures s.window[n % |s.window|] in FillGaps(s).sent
      {
        var i :| 0 <= i < s.report.numGaps && i < |gaps| && gaps[i].start <= n < gaps[i].end;
        assert 0 <= i < k;
      }
      forall p | p in FillGaps(s).sent
        ensures exists n :: AsksFor(s.report, n) && p == s.window[n % |s.window|]
      {
        var i, n :| 0 <= i < k && gaps[i].start <= n < gaps[i].end && p == s.window[n % |s.window|];
        assert AsksFor(s.report, n);
      }
    }
  }

  /** What a pass sends for a gap, for the file, or after a time-out. */
  ghost predicate IsDue(s: SenderState, file: seq<Byte>, t: SenderState, timedOut: bool, p: Packet)
    requires 0 < |s.window| && s.pos <= |file| && 0 < |t.window|
  {
    || (s.checkGaps && exists n :: AsksFor(s.report, n) && p == s.window[n % |s.window|])
    || (s.inFlight < |s.window| && !s.eof && p == Packet(s.start + s.inFlight, CString(ReadChunk(file, s.pos))))
    || (timedOut && !(t.eof && t.inFlight <= 0) && exists n :: t.start <= n < t.start + 2 && n < t.start + t.inFlight && p == t.window[n % |t.window|])
  }

  /** A pass sends the ring slot of every number of every gap that is still to be filled, the next chunk if
      the window allows, after a time-out the first two packets in flight, and nothing else. */
  lemma PassSends(s: SenderState, file: seq<Byte>, incoming: Option<Report>, timedOut: bool)
    requires 0 < |s.window| && s.pos <= |file|
    ensures var out := Iterate(s, file, incoming, timedOut);
            && |out.state.window| == |s.window|
            && forall p :: p in out.sent <==> IsDue(s, file, out.state, timedOut, p)
  {
    hide FillGaps, ResendFirst, AsksFor, CString, ReadChunk;
    var out := Iterate(s, file, incoming, timedOut);
    var t := out.state;
    GapsAreFilled(s);
    FillGapsState(s);
    var filled, next := FillGaps(s).sent, SendNext(FillGaps(s).state, file).sent;
    var more := if !IsDone(t) && timedOut then ResendFirst(t) else [];
    ResendsFirstTwo(t);
    forall p
      ensures p in out.sent <==> IsDue(s, file, t, timedOut, p)
    {
      assert p in out.sent <==> p in filled || p in next || p in more;
    }
  }

  lemma FillGapsState(s: SenderState)
    requires 0 < |s.window|
    ensures FillGaps(s).state == s.(checkGaps := false)
  {
  }

  lemma ResendsFirstTwo(t: SenderState)
    requires 0 < |t.window|
    ensures forall p :: p in ResendFirst(t) <==> exists n :: t.start <= n < t.start + 2 && n < t.start + t.inFlight && p == t.window[n % |t.window|]
  {
    var hi := t.start + if t.inFlight < NUM_TO_RESEND then t.inFlight else NUM_TO_RESEND;
    GapPacketsAre(t.window, t.start, hi);
    assert ResendFirst(t) == GapPackets(t.window, t.start, hi);
  }

  /** Where a pass leaves the sender: a report with gaps, and only such a one, is remembered for the next pass;
      a report with a positive number moves the window there, even backward; the number to be sent next, the
      place in the file and the ring move on by the chunk that was sent, if any. */
  lemma PassMoves(s: SenderState, file: seq<Byte>, incoming: Option<Report>, timedOut: bool)
    requires 0 < |s.window| && s.pos <= |file|
    ensures var t := Iterate(s, file, incoming, timedOut).state;
            && (t.checkGaps <==> incoming.Some? && incoming.value.numGaps > 0)
            && t.report == (if incoming.Some? then incoming.value else s.report)
            && t.start == if incoming.Some? && incoming.value.aru > 0 then incoming.value.aru else s.start
    ensures var t := Iterate(s, file, incoming, timedOut).state;
            var chunk := ReadChunk(file, s.pos);
            if s.inFlight < |s.window| && !s.eof
            then
              && t.start + t.inFlight == s.start + s.inFlight + 1
              && t.pos == s.pos + |chunk| && (t.eof <==> |chunk| < 1399)
              && t.window == s.window[(s.start + s.inFlight) % |s.window| := Packet(s.start + s.inFlight, CString(chunk))]
            else
              && t.start + t.inFlight == s.start + s.inFlight
              && t.pos == s.pos && t.eof == s.eof && t.window == s.window
  {
    hide ReadChunk, CString;
  }
}
