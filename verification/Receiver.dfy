/** The receiver's data-packet branch: what it holds is always a function of the packets received. */
module Receivers {
  import opened Bytes
  import opened Extrema
  import opened GapLists
  import opened Options
  import opened Packets
  import opened RcvBuffers

  /** The packets received so far: sequence numbers with their payloads. */
  type Inbox = map<int, seq<Byte>>

  ghost function Received(got: Inbox, p: Packet): Inbox {
    if p.seqNo < 0 || p.seqNo in got then got else got[p.seqNo := p.payload]
  }

  /** All packets below `n` are here. */
  ghost predicate AllBelow(got: Inbox, n: int) {
    forall s :: 0 <= s < n ==> s in got
  }

  ghost predicate FirstMissing(got: Inbox, n: int) {
    0 <= n && n !in got && AllBelow(got, n)
  }

  /** One more than the greatest number received. */
  ghost predicate IsTop(got: Inbox, top: int) {
    0 <= top && (forall s :: s in got ==> 0 <= s < top) && (top > 0 ==> top - 1 in got)
  }

  /** The payloads of the first `n` packets in order. */
  ghost function Text(got: Inbox, n: nat): seq<Byte>
    requires AllBelow(got, n)
  {
    if n == 0 then [] else Text(got, n - 1) + got[n - 1]
  }

  /** The gaps are exactly the numbers between the written and the greatest that have not come. */
  ghost predicate GapsExact(got: Inbox, written: int, greatest: int, gaps: seq<Gap>) {
    && Separated(gaps)
    && forall x :: Covers(gaps, x) <==> written < x <= greatest && x !in got
  }

  /** The buffer is exactly the packets received but not yet written, in order. */
  ghost predicate BufferExact(got: Inbox, written: int, buffer: seq<Packet>) {
    && Ascending(buffer)
    && forall q: Packet :: q in buffer <==> written < q.seqNo && q.seqNo in got && got[q.seqNo] == q.payload
  }

  ghost predicate Tracks(got: Inbox, written: int, greatest: int, gaps: seq<Gap>, buffer: seq<Packet>) {
    && -1 <= written && AllBelow(got, written + 1)
    && GapsExact(got, written, greatest, gaps) && BufferExact(got, written, buffer)
  }

  ghost predicate WroteText(got: Inbox, n: int, file: Option<seq<Byte>>) {
    0 <= n && AllBelow(got, n) && if file.None? then got == map[] else file.value == Text(got, n)
  }

  /** The gaps, the buffer and the file are what they should be after writing up to `written`. */
  ghost predicate Kept(got: Inbox, written: int, greatest: int, gaps: seq<Gap>, buffer: seq<Packet>,
                       file: Option<seq<Byte>>)
  {
    Tracks(got, written, greatest, gaps, buffer) && WroteText(got, written + 1, file)
  }

  /** A report made when `got` had arrived. */
  ghost predicate Describes(got: Inbox, r: Report) {
    && FirstMissing(got, r.aru)
    && exists gaps :: IsGapListOf(got, r.aru, gaps) && r.numGaps == |gaps| && r.gaps == gaps[..Min(|gaps|, MAX_GAPS)]
  }

  ghost predicate IsGapListOf(got: Inbox, aru: int, gaps: seq<Gap>) {
    exists top :: IsTop(got, top) && GapsExact(got, aru - 1, top - 1, gaps)
  }

  // ----- the branches of the main loop on values -----

  lemma TextGrows(got: Inbox, p: Packet, n: nat)
    requires AllBelow(got, n)
    ensures AllBelow(Received(got, p), n) && Text(Received(got, p), n) == Text(got, n)
  {
    if n > 0 {
      TextGrows(got, p, n - 1);
    }
  }

  lemma InboxText(got: Inbox, p: Packet)
    requires p.seqNo >= 0 && FirstMissing(got, p.seqNo)
    ensures AllBelow(Received(got, p), p.seqNo + 1)
    ensures Text(Received(got, p), p.seqNo + 1) == Text(got, p.seqNo) + p.payload
  {
    TextGrows(got, p, p.seqNo);
  }

  /** The next packet in order: it is written, and its gap, if there is one, shrinks. */
  lemma InOrder(got: Inbox, written: int, greatest: int, gaps: seq<Gap>, buffer: seq<Packet>, file: Option<seq<Byte>>,
                p: Packet, gaps': seq<Gap>)
    requires Kept(got, written, greatest, gaps, buffer, file) && FirstMissing(got, written + 1) && file.Some?
    requires p.seqNo == written + 1 && IsSplit(gaps, p.seqNo, gaps')
    ensures Kept(Received(got, p), written + 1, greatest, gaps', buffer, Some(file.value + p.payload))
  {
    IsSplitUncovers(gaps, p.seqNo, gaps');
    InboxText(got, p);
  }

  /** The head of the buffer follows the window: it is written, too. */
  lemma FromBuffer(got: Inbox, written: int, greatest: int, gaps: seq<Gap>, buffer: seq<Packet>, file: Option<seq<Byte>>)
    requires Kept(got, written, greatest, gaps, buffer, file) && file.Some?
    requires buffer != [] && buffer[0].seqNo == written + 1
    ensures Kept(got, written + 1, greatest, gaps, buffer[1..], Some(file.value + buffer[0].payload))
  {
    assert buffer[0] in buffer;
    assert buffer == [buffer[0]] + buffer[1..];
    forall q: Packet
      ensures q in buffer[1..] <==> written + 1 < q.seqNo && q.seqNo in got && got[q.seqNo] == q.payload
    {
    }
  }

  /** As long as the next packet is here, it is the head of the buffer. */
  lemma NextIsHead(got: Inbox, written: int, greatest: int, gaps: seq<Gap>, buffer: seq<Packet>, file: Option<seq<Byte>>)
    requires Kept(got, written, greatest, gaps, buffer, file)
    ensures FirstMissing(got, written + 1) || (buffer != [] && buffer[0].seqNo == written + 1)
  {
    assert written + 1 in got ==> Packet(written + 1, got[written + 1]) in buffer;
    assert buffer != [] ==> buffer[0] in buffer;
  }

  /** The gaps after a packet ahead of the window, which fills a gap or opens a new one. */
  ghost predicate GapsAfter(gaps: seq<Gap>, greatest: int, s: int, gaps': seq<Gap>) {
    exists split :: IsSplit(gaps, s, split)
      && gaps' == if !Covers(gaps, s) && s > greatest + 1 then split + [Gap(greatest + 1, s)] else split
  }

  lemma GapsEndBelow(got: Inbox, written: int, greatest: int, gaps: seq<Gap>)
    requires -1 <= written && GapsExact(got, written, greatest, gaps) && IsTop(got, greatest + 1)
    ensures forall i :: 0 <= i < |gaps| ==> gaps[i].end <= greatest
  {
    forall i | 0 <= i < |gaps|
      ensures gaps[i].end <= greatest
    {
      assert In(gaps[i].end - 1, gaps[i]);
      assert Covers(gaps, gaps[i].end - 1);
    }
  }

  lemma AheadGaps(got: Inbox, written: int, greatest: int, gaps: seq<Gap>, p: Packet, gaps': seq<Gap>)
    requires GapsExact(got, written, greatest, gaps) && IsTop(got, greatest + 1) && -1 <= written <= greatest
    requires p.seqNo > written + 1 && GapsAfter(gaps, greatest, p.seqNo, gaps')
    ensures GapsExact(Received(got, p), written, Max(greatest, p.seqNo), gaps')
  {
    hide Covers, Separated;
    var s := p.seqNo;
    var split :| IsSplit(gaps, s, split)
      && gaps' == if !Covers(gaps, s) && s > greatest + 1 then split + [Gap(greatest + 1, s)] else split;
    IsSplitUncovers(gaps, s, split);
    if s > greatest + 1 {
      GapsEndBelow(got, written, greatest, gaps);
      AppendCovers(gaps, Gap(greatest + 1, s));
    }
  }

  lemma AheadBuffer(got: Inbox, written: int, buffer: seq<Packet>, p: Packet, buffer': seq<Packet>)
    requires BufferExact(got, written, buffer) && p.seqNo > written + 1 >= 0
    requires if Has(buffer, p.seqNo) then buffer' == buffer else PutIn(buffer, p, buffer')
    ensures BufferExact(Received(got, p), written, buffer')
  {
    assert forall i :: 0 <= i < |buffer| ==> buffer[i] in buffer;
    if p.seqNo in got {
      var q := Packet(p.seqNo, got[p.seqNo]);
      assert q in buffer;
    } else {
      PutInKeeps(buffer, p, buffer');
    }
  }

  lemma TopAfter(got: Inbox, top: int, p: Packet)
    requires IsTop(got, top)
    ensures IsTop(Received(got, p), Max(top - 1, p.seqNo) + 1)
  {
  }

  /** A packet right behind the greatest leaves no new gap. */
  lemma NextTop(got: Inbox, written: int, greatest: int, gaps: seq<Gap>, buffer: seq<Packet>, s: int)
    requires Tracks(got, written, greatest, gaps, buffer) && s in got && s <= greatest + 1
    ensures Tracks(got, written, Max(greatest, s), gaps, buffer)
  {
  }

  lemma WindowBelowTop(got: Inbox, written: int, greatest: int)
    requires FirstMissing(got, written + 1) && IsTop(got, greatest + 1)
    ensures -1 <= written <= greatest
  {
    assert written >= 0 ==> written in got;
  }

  /** A packet that has been written before changes nothing. */
  lemma OldPacket(got: Inbox, written: int, greatest: int, p: Packet)
    requires FirstMissing(got, written + 1) && IsTop(got, greatest + 1) && p.seqNo <= written
    ensures Received(got, p) == got && Max(greatest, p.seqNo) == greatest
  {
    WindowBelowTop(got, written, greatest);
  }

  /** The first packet creates the file. */
  lemma FileCreated(got: Inbox, written: int, greatest: int, gaps: seq<Gap>, buffer: seq<Packet>)
    requires Kept(got, written, greatest, gaps, buffer, None)
    ensures Kept(got, written, greatest, gaps, buffer, Some([]))
  {
    assert written >= 0 ==> written in got;
  }

  lemma Ahead(got: Inbox, written: int, greatest: int, gaps: seq<Gap>, buffer: seq<Packet>, file: Option<seq<Byte>>, p: Packet)
    requires FirstMissing(got, written + 1) && IsTop(got, greatest + 1) && p.seqNo > written + 1
    requires WroteText(got, written + 1, file) && file.Some?
    requires GapsExact(Received(got, p), written, Max(greatest, p.seqNo), gaps)
    requires BufferExact(Received(got, p), written, buffer)
    ensures FirstMissing(Received(got, p), written + 1) && IsTop(Received(got, p), Max(greatest, p.seqNo) + 1)
    ensures Kept(Received(got, p), written, Max(greatest, p.seqNo), gaps, buffer, file)
  {
    TopAfter(got, greatest + 1, p);
    TextGrows(got, p, written + 1);
  }

  lemma KeptParts(got: Inbox, written: int, greatest: int, gaps: seq<Gap>, buffer: seq<Packet>, file: Option<seq<Byte>>)
    requires Kept(got, written, greatest, gaps, buffer, file)
    ensures GapsExact(got, written, greatest, gaps) && Separated(gaps)
    ensures BufferExact(got, written, buffer) && Ascending(buffer) && WroteText(got, written + 1, file)
  {
  }

  class Receiver {
    const windowSize: nat
    const list: GapList
    const buf: RcvBuffer
    var startOfWindow: int
    var writtenSinceLastMessage: int
    var greatestRecvdSeq: int
    /** Whether the connection is active; otherwise it has waited in the queue and nothing has arrived yet. */
    var active: bool
    /** The contents of the output file, which the first data packet creates. */
    var file: Option<seq<Byte>>
    ghost var got: Inbox

    ghost predicate Linked()
      reads list, list.repr, buf, buf.repr
    {
      list.Valid() && buf.Valid()
    }

    /** What holds of the lists and the file throughout. */
    ghost predicate Consistent()
      reads this`got, this`startOfWindow, this`greatestRecvdSeq, this`file, list`view, buf`view
    {
      Kept(got, startOfWindow, greatestRecvdSeq, list.view, buf.view, file)
    }

    /** What holds between packets: in addition, nothing is left to write. */
    ghost predicate Valid()
      reads this`got, this`startOfWindow, this`greatestRecvdSeq, this`file, list`view, buf`view
    {
      Consistent() && FirstMissing(got, startOfWindow + 1) && IsTop(got, greatestRecvdSeq + 1)
    }

    /** What holds when `pkt` has been dealt with but may still have to be noted as the greatest. */
    ghost predicate Settled(pkt: Packet)
      reads this`got, this`startOfWindow, this`greatestRecvdSeq, this`file, list`view, buf`view
    {
      && FirstMissing(got, startOfWindow + 1) && IsTop(got, Max(greatestRecvdSeq, pkt.seqNo) + 1)
      && Kept(got, startOfWindow, Max(greatestRecvdSeq, pkt.seqNo), list.view, buf.view, file) && file.Some?
    }

    constructor (w: nat, isActive: bool)
      ensures Linked() && Valid() && got == map[] && file == None && startOfWindow == -1 && windowSize == w && active == isActive
      ensures fresh(list) && fresh(buf) && list.repr == {} && buf.repr == {}
    {
      windowSize, active := w, isActive;
      list := new GapList();
      buf := new RcvBuffer();
      startOfWindow, writtenSinceLastMessage, greatestRecvdSeq := -1, 0, -1;
      file, got := None, map[];
    }

    /** The report about the current state. */
    method PrepareMessage() returns (r: Report)
      requires Linked() && FirstMissing(got, startOfWindow + 1) && IsGapListOf(got, startOfWindow + 1, list.view)
      ensures Describes(got, r)
    {
      var reported: seq<Gap> := [];
      var gapNode := list.head;
      while gapNode != null && |reported| < MAX_GAPS
        invariant |reported| <= |list.nodes| && |reported| <= MAX_GAPS && gapNode == Nth(list.nodes, |reported|)
        invariant reported == list.view[..|reported|]
        decreases MAX_GAPS - |reported|
      {
        assert list.view[|reported|] == gapNode.gapData;
        reported := reported + [gapNode.gapData];
        gapNode := gapNode.next;
      }
      r := Report(startOfWindow + 1, list.size, reported);
    }

    /** Writes the buffered packets that follow the window. */
    method WriteBuffered()
      requires Linked() && Consistent() && file.Some?
      modifies this`startOfWindow, this`file, this`writtenSinceLastMessage, buf
      ensures Linked() && Consistent() && FirstMissing(got, startOfWindow + 1) && file.Some?
      ensures buf.repr <= old(buf.repr)
      ensures writtenSinceLastMessage == old(writtenSinceLastMessage) + (startOfWindow - old(startOfWindow))
    {
      hide Kept, FirstMissing;
      while buf.head != null && buf.head.packet.seqNo == startOfWindow + 1
        invariant Linked() && Consistent() && file.Some? && buf.repr <= old(buf.repr)
        invariant writtenSinceLastMessage == old(writtenSinceLastMessage) + (startOfWindow - old(startOfWindow))
        decreases |buf.nodes|
      {
        assert buf.view[0] == buf.head.packet;
        FromBuffer(got, startOfWindow, greatestRecvdSeq, list.view, buf.view, file);
        startOfWindow := buf.head.packet.seqNo;
        file := Some(file.value + buf.head.packet.payload);
        writtenSinceLastMessage := writtenSinceLastMessage + 1;
        var freed := buf.FreeHead();
      }
      NextIsHead(got, startOfWindow, greatestRecvdSeq, list.view, buf.view, file);
      assert buf.view != [] ==> buf.view[0] == buf.head.packet;
    }

    /** Writes the packet that follows the window and takes it out of the gaps. */
    method WriteNext(pkt: Packet)
      requires Linked() && Valid() && file.Some? && pkt.seqNo == startOfWindow + 1
      modifies this`startOfWindow, this`file, this`writtenSinceLastMessage, this`got, list, list.repr
      ensures Linked() && Consistent() && fresh(list.repr - old(list.repr)) && file.Some?
      ensures got == Received(old(got), pkt) && startOfWindow == pkt.seqNo
      ensures greatestRecvdSeq == old(greatestRecvdSeq)
      ensures writtenSinceLastMessage == old(writtenSinceLastMessage) + 1
    {
      hide Kept, FirstMissing, IsTop, Received, Describes, GapsExact, BufferExact, Separated, Ascending, WroteText, GapList.Linked, IsSplit;
      KeptParts(got, startOfWindow, greatestRecvdSeq, list.view, buf.view, file);
      ghost var gaps, text := list.view, file;
      startOfWindow := pkt.seqNo;
      file := Some(file.value + pkt.payload);
      writtenSinceLastMessage := writtenSinceLastMessage + 1;
      var filled := list.SplitGap(pkt.seqNo);
      InOrder(got, pkt.seqNo - 1, greatestRecvdSeq, gaps, buf.view, text, pkt, list.view);
      got := Received(got, pkt);
    }

    /** Writes the packet that follows the window, and all buffered ones that follow it in turn. */
    method WriteInOrder(pkt: Packet)
      requires Linked() && Valid() && file.Some? && pkt.seqNo == startOfWindow + 1
      modifies this`startOfWindow, this`file, this`writtenSinceLastMessage, this`got, list, list.repr, buf
      ensures Linked() && Settled(pkt) && fresh(list.repr - old(list.repr)) && buf.repr <= old(buf.repr)
      ensures got == Received(old(got), pkt) && greatestRecvdSeq == old(greatestRecvdSeq)
      ensures writtenSinceLastMessage == old(writtenSinceLastMessage) + (startOfWindow - old(startOfWindow))
    {
      ghost var before := got;
      WindowBelowTop(got, startOfWindow, greatestRecvdSeq);
      WriteNext(pkt);
      WriteBuffered();
      TopAfter(before, greatestRecvdSeq + 1, pkt);
      NextTop(got, startOfWindow, greatestRecvdSeq, list.view, buf.view, pkt.seqNo);
    }

    /** Fills a gap, or notes the one a packet ahead of the window leaves; tells whether there is a new one. */
    method UpdateGaps(pkt: Packet) returns (newGap: bool)
      requires Linked() && GapsExact(got, startOfWindow, greatestRecvdSeq, list.view)
      requires IsTop(got, greatestRecvdSeq + 1) && -1 <= startOfWindow <= greatestRecvdSeq
      requires pkt.seqNo > startOfWindow + 1
      modifies list, list.repr
      ensures Linked() && fresh(list.repr - old(list.repr))
      ensures newGap == (pkt.seqNo > greatestRecvdSeq + 1)
      ensures GapsExact(Received(got, pkt), startOfWindow, Max(greatestRecvdSeq, pkt.seqNo), list.view)
    {
      ghost var gaps := list.view;
      var addGap := list.SplitGap(pkt.seqNo);
      addGap := !addGap;
      newGap := addGap && pkt.seqNo > greatestRecvdSeq + 1;
      if newGap {
        list.Insert(Gap(greatestRecvdSeq + 1, pkt.seqNo));
      }
      assert GapsAfter(gaps, greatestRecvdSeq, pkt.seqNo, list.view);
      AheadGaps(got, startOfWindow, greatestRecvdSeq, gaps, pkt, list.view);
    }

    /** Stores a packet ahead of the window; tells whether it leaves a new gap. */
    method Store(pkt: Packet) returns (newGap: bool)
      requires Linked() && Valid() && file.Some? && pkt.seqNo > startOfWindow + 1
      modifies this`got, list, list.repr, buf, buf.repr
      ensures Linked() && Settled(pkt)
      ensures fresh(list.repr - old(list.repr)) && fresh(buf.repr - old(buf.repr))
      ensures got == Received(old(got), pkt)
      ensures newGap == (pkt.seqNo > greatestRecvdSeq + 1)
    {
      hide Kept, FirstMissing, IsTop, Received, Describes, GapsExact, BufferExact, Separated, Ascending, WroteText, GapList.Linked;
      WindowBelowTop(got, startOfWindow, greatestRecvdSeq);
      KeptParts(got, startOfWindow, greatestRecvdSeq, list.view, buf.view, file);
      ghost var packets := buf.view;
      var stored := buf.Insert(pkt);
      AheadBuffer(got, startOfWindow, packets, pkt, buf.view);
      newGap := UpdateGaps(pkt);
      Ahead(got, startOfWindow, greatestRecvdSeq, list.view, buf.view, file, pkt);
      got := Received(got, pkt);
    }

    /** Keeps a packet ahead of the window, and reports a new gap at once. */
    method KeepForLater(pkt: Packet) returns (reports: seq<Report>)
      requires Linked() && Valid() && file.Some? && pkt.seqNo > startOfWindow + 1
      modifies this`got, this`writtenSinceLastMessage, list, list.repr, buf, buf.repr
      ensures Linked() && Settled(pkt)
      ensures fresh(list.repr - old(list.repr)) && fresh(buf.repr - old(buf.repr))
      ensures got == Received(old(got), pkt)
      ensures forall r :: r in reports ==> Describes(got, r)
      ensures |reports| == if pkt.seqNo > greatestRecvdSeq + 1 then 1 else 0
      ensures writtenSinceLastMessage == if pkt.seqNo > greatestRecvdSeq + 1 then 0 else old(writtenSinceLastMessage)
    {
      hide Received, Describes, Linked;
      reports := [];
      var newGap := Store(pkt);
      if newGap {
        var msg := PrepareMessage();
        reports := [msg];
        writtenSinceLastMessage := 0;
      }
    }

    /** Notes the greatest number received so far. */
    method NoteGreatest(pkt: Packet)
      requires Settled(pkt)
      modifies this`greatestRecvdSeq
      ensures Valid()
    {
      if pkt.seqNo > greatestRecvdSeq {
        greatestRecvdSeq := pkt.seqNo;
      }
    }

    /** Sends a report when half a window has been written since the last one, or time is up. */
    method ReportIfDue(timerElapsed: bool) returns (reports: seq<Report>)
      requires Linked() && Valid()
      modifies this`writtenSinceLastMessage
      ensures forall r :: r in reports ==> Describes(got, r)
      ensures var due := timerElapsed || old(writtenSinceLastMessage) >= windowSize / 2;
              && |reports| == (if due then 1 else 0)
              && writtenSinceLastMessage == if due then 0 else old(writtenSinceLastMessage)
    {
      reports := [];
      if writtenSinceLastMessage >= windowSize / 2 || timerElapsed {
        var msg := PrepareMessage();
        reports := [msg];
        writtenSinceLastMessage := 0;
      }
    }

    /** The arrival of a data packet; `timerElapsed` tells whether the last report is too long ago. */
    method DataPacket(pkt: Packet, timerElapsed: bool) returns (reports: seq<Report>)
      requires Linked() && Valid()
      modifies this, list, list.repr, buf, buf.repr
      ensures Linked() && Valid() && file.Some? && active
      ensures fresh(list.repr - old(list.repr)) && fresh(buf.repr - old(buf.repr))
      ensures got == Received(old(got), pkt) && FirstMissing(got, startOfWindow + 1)
      ensures forall r :: r in reports ==> Describes(got, r)
      ensures var newGap := pkt.seqNo > old(greatestRecvdSeq) + 1;
              var written := if newGap then 0 else old(writtenSinceLastMessage) + (startOfWindow - old(startOfWindow));
              var due := timerElapsed || written >= windowSize / 2;
              && |reports| == (if newGap then 1 else 0) + (if due then 1 else 0)
              && writtenSinceLastMessage == if due then 0 else written
    {
      hide Kept, FirstMissing, IsTop, Received, Describes, Linked;
      reports := [];
      WindowBelowTop(got, startOfWindow, greatestRecvdSeq);
      active := true;
      if file == None {
        FileCreated(got, startOfWindow, greatestRecvdSeq, list.view, buf.view);
        file := Some([]);
      }
      if pkt.seqNo <= startOfWindow {
        OldPacket(got, startOfWindow, greatestRecvdSeq, pkt);
      } else if startOfWindow + 1 == pkt.seqNo {
        WriteInOrder(pkt);
      } else {
        reports := KeepForLater(pkt);
      }
      NoteGreatest(pkt);
      var more := ReportIfDue(timerElapsed);
      reports := reports + more;
    }

    /** The time-out of the main loop while a transfer is active. */
    method Timeout() returns (r: Report)
      requires Linked() && Valid() && active
      modifies this`writtenSinceLastMessage
      ensures Describes(got, r) && writtenSinceLastMessage == 0
    {
      r := PrepareMessage();
      writtenSinceLastMessage := 0;
    }
  }
}
