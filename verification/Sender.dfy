/** The sender: the event loop of transmission_sequence over a ring-buffer array. */
module Senders {
  import opened Bytes
  import opened Options
  import opened Packets
  import opened SenderSpec

  class Sender {
    const file: seq<Byte>
    const window: array<Packet>
    var startOfWindow: int
    var currInFlight: int
    var position: nat
    var eof: bool
    var checkGaps: bool
    var recvdMsg: Report

    ghost function Now(): SenderState
      reads this, window
    {
      SenderState(window[..], startOfWindow, currInFlight, position, eof, checkGaps, recvdMsg)
    }

    /** What the code relies on: all array accesses are within bounds. */
    ghost predicate Valid()
      reads this
    {
      && 0 < window.Length && position <= |file| && 0 <= startOfWindow && 0 <= startOfWindow + currInFlight
      && (checkGaps ==> Readable(recvdMsg))
    }

    constructor (source: seq<Byte>, windowSize: nat, slots: array<Packet>, unread: Report)
      requires 0 < windowSize == slots.Length
      ensures Valid() && file == source && window == slots
      ensures Now() == SenderState(slots[..], 0, 0, 0, false, false, unread)
    {
      file, window := source, slots;
      startOfWindow, currInFlight, position := 0, 0, 0;
      eof, checkGaps, recvdMsg := false, false, unread;
    }

    /** Sends again what the last report says is missing. */
    method FillReportedGaps() returns (sent: seq<Packet>)
      requires Valid()
      modifies this`checkGaps
      ensures Outcome(Now(), sent) == FillGaps(old(Now()))
      ensures old(checkGaps) ==> forall n :: AsksFor(recvdMsg, n) ==> window[n % window.Length] in sent
    {
      hide AsksFor, GapPackets, Resends;
      GapsAreFilled(Now());
      NoResends(window[..], recvdMsg.gaps);
      sent := [];
      if checkGaps {
        var gapNum := 0;
        while gapNum < recvdMsg.numGaps
          invariant 0 <= gapNum <= Reported(recvdMsg)
          invariant sent == Resends(window[..], recvdMsg.gaps, gapNum)
        {
          var gap := recvdMsg.gaps[gapNum];
          var seqToResend := gap.start;
          ghost var before := sent;
          NoGapPackets(window[..], gap.start);
          while seqToResend < gap.end
            invariant 0 <= seqToResend
            invariant gap.start <= seqToResend
            invariant seqToResend <= gap.end || seqToResend == gap.start
            invariant sent == before + GapPackets(window[..], gap.start, seqToResend)
          {
            NextGapPacket(window[..], gap.start, seqToResend);
            sent := sent + [window[seqToResend % window.Length]];
            seqToResend := seqToResend + 1;
          }
          NextResends(window[..], recvdMsg.gaps, gapNum, seqToResend);
          gapNum := gapNum + 1;
        }
        checkGaps := false;
      }
    }

    /** Reads and sends the next chunk if the window allows. */
    method SendNextChunk() returns (sent: seq<Packet>)
      requires Valid()
      modifies this`currInFlight, this`position, this`eof, window
      ensures Outcome(Now(), sent) == SendNext(old(Now()), file)
    {
      sent := [];
      if currInFlight < window.Length && !eof {
        var index := (startOfWindow + currInFlight) % window.Length;
        var chunk := ReadChunk(file, position);
        position := position + |chunk|;
        eof := |chunk| < MAX_MESS_LEN - 1;
        window[index] := Packet(startOfWindow + currInFlight, CString(chunk));
        sent := [window[index]];
        currInFlight := currInFlight + 1;
      }
    }

    /** Moves the window to where a report says. */
    method HandleReport(r: Report)
      requires Valid() && Readable(r)
      modifies this`recvdMsg, this`currInFlight, this`startOfWindow, this`checkGaps
      ensures Valid() && Now() == TakeReport(old(Now()), Some(r))
    {
      recvdMsg := r;
      if recvdMsg.aru > 0 {
        currInFlight := currInFlight - (recvdMsg.aru - startOfWindow);
        startOfWindow := recvdMsg.aru;
      }
      if recvdMsg.numGaps > 0 {
        checkGaps := true;
      }
    }

    /** Sends the first packets of the window again. */
    method ResendStart() returns (sent: seq<Packet>)
      requires Valid()
      ensures sent == ResendFirst(Now())
    {
      sent := [];
      var k := 0;
      while k < NUM_TO_RESEND && k < currInFlight
        invariant 0 <= k <= NUM_TO_RESEND && (k <= currInFlight || k == 0)
        invariant sent == GapPackets(window[..], startOfWindow, startOfWindow + k)
      {
        sent := sent + [window[(startOfWindow + k) % window.Length]];
        k := k + 1;
      }
    }

    /** One pass through the event loop; `incoming` is the report that select finds, if any. */
    method Iteration(incoming: Option<Report>, timedOut: bool) returns (sent: seq<Packet>, done: bool)
      requires Valid() && (incoming.Some? ==> Readable(incoming.value))
      modifies this, window
      ensures Valid() && Outcome(Now(), sent) == Iterate(old(Now()), file, incoming, timedOut)
      ensures forall p :: p in sent <==> IsDue(old(Now()), file, Now(), timedOut, p)
      ensures done <==> IsDone(Now())
    {
      PassSends(Now(), file, incoming, timedOut);
      sent := FillReportedGaps();
      var next := SendNextChunk();
      sent := sent + next;
      if incoming.Some? {
        HandleReport(incoming.value);
      }
      if eof && currInFlight <= 0 {
        return sent, true;
      }
      if timedOut {
        var again := ResendStart();
        sent := sent + again;
      }
      done := false;
    }
  }
}
