/** The file transfer as a whole: sender and receiver over a network that may lose, repeat and reorder. */
module Transfers {
  import opened Bytes
  import opened Extrema
  import opened GapLists
  import opened Options
  import opened Packets
  import opened Receivers
  import opened SenderSpec

  const CHUNK := MAX_MESS_LEN - 1

  /** The number of packets: the last one comes from the short read that ends the file. */
  function ChunkCount(file: seq<Byte>): nat {
    |file| / CHUNK + 1
  }

  function Payload(file: seq<Byte>, s: nat): seq<Byte>
    requires s < ChunkCount(file)
  {
    CString(ReadChunk(file, CHUNK * s))
  }

  /** The payloads of the first `n` packets. */
  function Content(file: seq<Byte>, n: nat): seq<Byte>
    requires n <= ChunkCount(file)
  {
    if n == 0 then [] else Content(file, n - 1) + Payload(file, n - 1)
  }

  /** Both ends and all messages ever sent; a message may be taken any number of times, or never.
      `got` is what the receiver has accepted and `aru` the number of packets it has written; `active` is
      whether its connection is, which one that has waited in the queue becomes with the first data packet. */
  datatype World = World(sender: SenderState, got: Inbox, aru: int, active: bool, data: set<Packet>, reports: set<Report>)

  ghost predicate IsInit(w: nat, v: World) {
    && |v.sender.window| == w
    && v.sender.start == v.sender.inFlight == v.sender.pos == 0 && !v.sender.eof && !v.sender.checkGaps
    && v.got == map[] && v.aru == 0 && v.data == {} && v.reports == {}
  }

  /** One pass of the sender's loop, with any report in the network or none. */
  ghost predicate Sends(file: seq<Byte>, v: World, v': World, incoming: Option<Report>, timedOut: bool) {
    && 0 < |v.sender.window| && v.sender.pos <= |file| && !IsDone(v.sender)
    && (incoming.Some? ==> incoming.value in v.reports)
    && v' == v.(sender := Iterate(v.sender, file, incoming, timedOut).state,
                data := v.data + set p | p in Iterate(v.sender, file, incoming, timedOut).sent)
  }

  /** The receiver takes any data packet in the network, and may report. */
  ghost predicate Receives(v: World, v': World, p: Packet) {
    && p in v.data && v'.got == Received(v.got, p) && FirstMissing(v'.got, v'.aru) && v'.active
    && v'.sender == v.sender && v'.data == v.data && MoreReports(v, v')
  }

  /** The receiver's time-out, which reports only on an active connection. */
  ghost predicate TimesOut(v: World, v': World) {
    v.active && v'.active && v'.got == v.got && v'.aru == v.aru && v'.sender == v.sender && v'.data == v.data && MoreReports(v, v')
  }

  ghost predicate MoreReports(v: World, v': World) {
    v.reports <= v'.reports && forall r :: r in v'.reports - v.reports ==> Describes(v'.got, r)
  }

  ghost predicate Step(file: seq<Byte>, v: World, v': World) {
    || (exists incoming, timedOut :: Sends(file, v, v', incoming, timedOut))
    || (exists p :: Receives(v, v', p))
    || TimesOut(v, v')
  }

  ghost predicate IsRun(file: seq<Byte>, w: nat, run: seq<World>) {
    && 0 < |run| && IsInit(w, run[0])
    && forall i :: 0 <= i < |run| - 1 ==> Step(file, run[i], run[i + 1])
  }

  // ----- the invariant -----

  /** `p` is the packet with its number. */
  ghost predicate IsGenuine(file: seq<Byte>, n: int, p: Packet) {
    0 <= p.seqNo < n && p.seqNo < ChunkCount(file) && p.payload == Payload(file, p.seqNo)
  }

  ghost predicate AllGenuine(file: seq<Byte>, n: int, ps: set<Packet>) {
    forall p :: p in ps ==> IsGenuine(file, n, p)
  }

  ghost predicate StreamAt(file: seq<Byte>, s: SenderState) {
    if s.eof then Next(s) == ChunkCount(file) && s.pos == |file|
    else 0 <= Next(s) < ChunkCount(file) && s.pos == CHUNK * Next(s)
  }

  /** The ring buffer holds the last `|window|` packets that were sent. */
  ghost predicate RingHolds(file: seq<Byte>, window: seq<Packet>, n: int) {
    0 < |window| && forall s :: 0 <= s < n && n - |window| <= s ==> Slot(window, s).seqNo == s && IsGenuine(file, n, Slot(window, s))
  }

  ghost predicate InboxGenuine(file: seq<Byte>, n: int, got: Inbox) {
    forall s :: s in got ==> IsGenuine(file, n, Packet(s, got[s]))
  }

  /** What the sender relies on in a report. */
  ghost predicate GoodReport(w: nat, n: int, aru: int, r: Report) {
    && 0 <= r.aru <= aru && 0 <= r.numGaps <= w / 2 && |r.gaps| == Min(r.numGaps, MAX_GAPS)
    && forall g :: g in r.gaps ==> 0 <= g.start < g.end <= n
  }

  ghost predicate Inv(file: seq<Byte>, w: nat, v: World) {
    var n := Next(v.sender);
    && |v.sender.window| == w && RingHolds(file, v.sender.window, n) && StreamAt(file, v.sender)
    && 0 <= v.sender.start <= v.aru <= n <= v.aru + w
    && AllGenuine(file, n, v.data) && InboxGenuine(file, n, v.got) && FirstMissing(v.got, v.aru)
    && (v.active || v.got == map[])
    && (forall r :: r in v.reports ==> GoodReport(w, n, v.aru, r))
    && (v.sender.checkGaps ==> GoodReport(w, n, v.aru, v.sender.report))
  }

  lemma InitInv(file: seq<Byte>, w: nat, v: World)
    requires 0 < w && IsInit(w, v)
    ensures Inv(file, w, v)
  {
  }

  // ----- the ring buffer -----

  lemma NoMultipleBetween(d: int, w: int)
    requires 0 < w
    ensures 0 < d ==> w <= d * w
    ensures d < 0 ==> d * w <= -w
  {
  }

  lemma ModShift(s: int, w: int)
    requires 0 < w
    ensures (s + w) % w == s % w
  {
    var d := (s + w) / w - s / w;
    assert (d - 1) * w == s % w - (s + w) % w;
    NoMultipleBetween(d - 1, w);
  }

  /** Numbers less than a window apart have different slots. */
  lemma SlotsDiffer(s: int, t: int, w: int)
    requires 0 < w && s < t < s + w
    ensures s % w != t % w
  {
    var d := t / w - s / w;
    assert d * w == (t - s) + (s % w - t % w);
    NoMultipleBetween(d, w);
  }

  /** Every slot of a number below the next holds some genuine packet. */
  lemma {:induction false} SlotIsGenuine(file: seq<Byte>, window: seq<Packet>, n: int, s: int)
    requires RingHolds(file, window, n) && 0 <= s < n
    ensures IsGenuine(file, n, Slot(window, s))
    decreases n - s
  {
    if s < n - |window| {
      ModShift(s, |window|);
      SlotIsGenuine(file, window, n, s + |window|);
    }
  }

  lemma {:induction false} GapPacketsGenuine(file: seq<Byte>, window: seq<Packet>, n: int, lo: int, hi: int)
    requires RingHolds(file, window, n) && 0 <= lo && hi <= n
    ensures forall p :: p in GapPackets(window, lo, hi) ==> IsGenuine(file, n, p)
    decreases hi - lo
  {
    if lo < hi {
      SlotIsGenuine(file, window, n, hi - 1);
      GapPacketsGenuine(file, window, n, lo, hi - 1);
    }
  }

  lemma {:induction false} ResendsGenuine(file: seq<Byte>, window: seq<Packet>, n: int, gaps: seq<Gap>, k: nat)
    requires RingHolds(file, window, n) && k <= |gaps|
    requires forall g :: g in gaps ==> 0 <= g.start < g.end <= n
    ensures forall p :: p in Resends(window, gaps, k) ==> IsGenuine(file, n, p)
  {
    hide RingHolds, IsGenuine, GapPackets;
    if k > 0 {
      assert gaps[k - 1] in gaps;
      ResendsGenuine(file, window, n, gaps, k - 1);
      GapPacketsGenuine(file, window, n, gaps[k - 1].start, gaps[k - 1].end);
    }
  }

  /** Putting the next packet into the ring overwrites only the oldest one. */
  lemma RingAdvances(file: seq<Byte>, window: seq<Packet>, n: int, p: Packet)
    requires RingHolds(file, window, n) && p.seqNo == n && IsGenuine(file, n + 1, p)
    ensures RingHolds(file, window[n % |window| := p], n + 1)
  {
    var w := |window|;
    var window' := window[n % w := p];
    forall s | 0 <= s < n + 1 && n + 1 - w <= s
      ensures Slot(window', s).seqNo == s && IsGenuine(file, n + 1, Slot(window', s))
    {
      if s < n {
        SlotsDiffer(s, n, w);
        assert Slot(window', s) == Slot(window, s);
      }
    }
  }

  // ----- the sender's part of the invariant, one part of the loop at a time -----

  ghost predicate SenderInv(file: seq<Byte>, w: nat, aru: int, s: SenderState) {
    && |s.window| == w && RingHolds(file, s.window, Next(s)) && StreamAt(file, s)
    && 0 <= s.start <= aru <= Next(s) <= aru + w
  }

  lemma FillGapsKeeps(file: seq<Byte>, w: nat, aru: int, s: SenderState)
    requires SenderInv(file, w, aru, s) && (s.checkGaps ==> GoodReport(w, Next(s), aru, s.report))
    ensures FillGaps(s).state == s.(checkGaps := false)
    ensures forall p :: p in FillGaps(s).sent ==> IsGenuine(file, Next(s), p)
  {
    if s.checkGaps {
      ResendsGenuine(file, s.window, Next(s), s.report.gaps, Reported(s.report));
    }
  }

  lemma StreamAdvances(file: seq<Byte>, s: SenderState)
    requires StreamAt(file, s) && 0 < |s.window| && s.pos <= |file| && s.inFlight < |s.window| && !s.eof
    ensures StreamAt(file, SendNext(s, file).state) && SendNext(s, file).state.pos <= |file|
    ensures IsGenuine(file, Next(s) + 1, Packet(Next(s), CString(ReadChunk(file, s.pos))))
  {
  }

  lemma SendNextKeeps(file: seq<Byte>, w: nat, aru: int, s: SenderState)
    requires SenderInv(file, w, aru, s) && s.pos <= |file|
    ensures SenderInv(file, w, aru, SendNext(s, file).state)
    ensures Next(s) <= Next(SendNext(s, file).state)
    ensures forall p :: p in SendNext(s, file).sent ==> IsGenuine(file, Next(SendNext(s, file).state), p)
    ensures SendNext(s, file).state.checkGaps == s.checkGaps && SendNext(s, file).state.report == s.report
  {
    if s.inFlight < |s.window| && !s.eof {
      var p := Packet(Next(s), CString(ReadChunk(file, s.pos)));
      StreamAdvances(file, s);
      RingAdvances(file, s.window, Next(s), p);
    }
  }

  lemma TakeReportKeeps(file: seq<Byte>, w: nat, aru: int, s: SenderState, incoming: Option<Report>)
    requires SenderInv(file, w, aru, s) && (incoming.Some? ==> GoodReport(w, Next(s), aru, incoming.value))
    requires s.checkGaps ==> GoodReport(w, Next(s), aru, s.report)
    ensures SenderInv(file, w, aru, TakeReport(s, incoming)) && Next(TakeReport(s, incoming)) == Next(s)
    ensures TakeReport(s, incoming).checkGaps ==> GoodReport(w, Next(s), aru, TakeReport(s, incoming).report)
  {
  }

  lemma ResendFirstGenuine(file: seq<Byte>, w: nat, aru: int, s: SenderState)
    requires SenderInv(file, w, aru, s)
    ensures forall p :: p in ResendFirst(s) ==> IsGenuine(file, Next(s), p)
  {
    var k := if s.inFlight < NUM_TO_RESEND then s.inFlight else NUM_TO_RESEND;
    GapPacketsGenuine(file, s.window, Next(s), s.start, s.start + k);
  }

  lemma LaterGood(file: seq<Byte>, w: nat, n: int, aru: int, r: Report, n': int, aru': int)
    requires GoodReport(w, n, aru, r) && n <= n' && aru <= aru'
    ensures GoodReport(w, n', aru', r)
  {
    forall g | g in r.gaps
      ensures 0 <= g.start < g.end <= n'
    {
    }
  }

  /** A whole pass of the sender: its invariant, and everything it sends is genuine. */
  lemma IterateKeeps(file: seq<Byte>, w: nat, aru: int, s: SenderState, incoming: Option<Report>, timedOut: bool)
    requires SenderInv(file, w, aru, s) && s.pos <= |file|
    requires s.checkGaps ==> GoodReport(w, Next(s), aru, s.report)
    requires incoming.Some? ==> GoodReport(w, Next(s), aru, incoming.value)
    ensures SenderInv(file, w, aru, Iterate(s, file, incoming, timedOut).state)
    ensures Next(s) <= Next(Iterate(s, file, incoming, timedOut).state)
    ensures var t := Iterate(s, file, incoming, timedOut).state; t.checkGaps ==> GoodReport(w, Next(t), aru, t.report)
    ensures forall p :: p in Iterate(s, file, incoming, timedOut).sent ==>
              IsGenuine(file, Next(Iterate(s, file, incoming, timedOut).state), p)
  {
    FillGapsKeeps(file, w, aru, s);
    var s1 := FillGaps(s).state;
    SendNextKeeps(file, w, aru, s1);
    var s2 := SendNext(s1, file).state;
    if incoming.Some? {
      LaterGood(file, w, Next(s), aru, incoming.value, Next(s2), aru);
    }
    TakeReportKeeps(file, w, aru, s2, incoming);
    ResendFirstGenuine(file, w, aru, TakeReport(s2, incoming));
  }

  lemma SendsKeeps(file: seq<Byte>, w: nat, v: World, v': World, incoming: Option<Report>, timedOut: bool)
    requires Inv(file, w, v) && Sends(file, v, v', incoming, timedOut)
    ensures Inv(file, w, v')
  {
    var n, n' := Next(v.sender), Next(v'.sender);
    IterateKeeps(file, w, v.aru, v.sender, incoming, timedOut);
    forall r | r in v.reports
      ensures GoodReport(w, n', v.aru, r)
    {
      LaterGood(file, w, n, v.aru, r, n', v.aru);
    }
  }

  // ----- the receiver's part -----

  lemma FirstMissingUnique(got: Inbox, m: int, n: int)
    requires FirstMissing(got, m) && FirstMissing(got, n)
    ensures m == n
  {
  }

  lemma WindowGrows(got: Inbox, p: Packet, m: int, n: int)
    requires FirstMissing(got, m) && FirstMissing(Received(got, p), n)
    ensures m <= n
  {
    assert n in Received(got, p) || n !in got;
  }

  /** Gap k ends at least 2k + 1 above the window, as every gap is followed by a received packet. */
  lemma {:induction false} GapsSpread(got: Inbox, aru: int, gaps: seq<Gap>, top: int, k: nat)
    requires GapsExact(got, aru - 1, top - 1, gaps) && k < |gaps|
    ensures aru + 2 * k + 1 <= gaps[k].end
  {
    assert In(gaps[k].start, gaps[k]) && Covers(gaps, gaps[k].start);
    if k > 0 {
      GapsSpread(got, aru, gaps, top, k - 1);
    }
  }

  lemma GapsInRange(got: Inbox, aru: int, gaps: seq<Gap>, top: int)
    requires GapsExact(got, aru - 1, top - 1, gaps) && IsTop(got, top) && 0 <= aru
    ensures forall i :: 0 <= i < |gaps| ==> aru <= gaps[i].start < gaps[i].end < top
    ensures gaps != [] ==> aru + 2 * |gaps| <= top
  {
    GapsEndBelow(got, aru - 1, top - 1, gaps);
    forall i | 0 <= i < |gaps|
      ensures aru <= gaps[i].start
    {
      assert In(gaps[i].start, gaps[i]) && Covers(gaps, gaps[i].start);
    }
    if gaps != [] {
      GapsSpread(got, aru, gaps, top, |gaps| - 1);
    }
  }

  /** At most every second number of the window starts a gap, so all gaps fit into a report. */
  lemma ReportIsGood(file: seq<Byte>, w: nat, n: int, got: Inbox, aru: int, r: Report)
    requires Describes(got, r) && FirstMissing(got, aru) && InboxGenuine(file, n, got) && 0 <= n <= aru + w
    ensures GoodReport(w, n, aru, r)
  {
    FirstMissingUnique(got, r.aru, aru);
    var gaps :| IsGapListOf(got, r.aru, gaps) && r.numGaps == |gaps| && r.gaps == gaps[..Min(|gaps|, MAX_GAPS)];
    var top :| IsTop(got, top) && GapsExact(got, r.aru - 1, top - 1, gaps);
    GapsInRange(got, aru, gaps, top);
    assert top <= n by {
      if top > 0 {
        assert IsGenuine(file, n, Packet(top - 1, got[top - 1]));
      }
    }
  }

  lemma ReceivesKeeps(file: seq<Byte>, w: nat, v: World, v': World, p: Packet)
    requires Inv(file, w, v) && Receives(v, v', p)
    ensures Inv(file, w, v')
  {
    var n := Next(v.sender);
    assert IsGenuine(file, n, p);
    WindowGrows(v.got, p, v.aru, v'.aru);
    assert InboxGenuine(file, n, v'.got);
    assert v'.aru <= n by {
      assert v'.aru > 0 ==> v'.aru - 1 in v'.got;
    }
    ReportsKeep(file, w, v, v');
  }

  lemma ReportsKeep(file: seq<Byte>, w: nat, v: World, v': World)
    requires Inv(file, w, v) && v'.sender == v.sender && MoreReports(v, v')
    requires v.aru <= v'.aru && FirstMissing(v'.got, v'.aru) && InboxGenuine(file, Next(v.sender), v'.got)
    ensures forall r :: r in v'.reports ==> GoodReport(w, Next(v.sender), v'.aru, r)
    ensures v'.sender.checkGaps ==> GoodReport(w, Next(v.sender), v'.aru, v'.sender.report)
  {
    var n := Next(v.sender);
    forall r | r in v'.reports
      ensures GoodReport(w, n, v'.aru, r)
    {
      if r in v.reports {
        LaterGood(file, w, n, v.aru, r, n, v'.aru);
      } else {
        ReportIsGood(file, w, n, v'.got, v'.aru, r);
      }
    }
    if v'.sender.checkGaps {
      LaterGood(file, w, n, v.aru, v.sender.report, n, v'.aru);
    }
  }

  /** The invariant holds in every step, whatever the network does. */
  lemma StepInv(file: seq<Byte>, w: nat, v: World, v': World)
    requires Inv(file, w, v) && Step(file, v, v')
    ensures Inv(file, w, v')
  {
    if incoming, timedOut :| Sends(file, v, v', incoming, timedOut) {
      SendsKeeps(file, w, v, v', incoming, timedOut);
    } else if p :| Receives(v, v', p) {
      ReceivesKeeps(file, w, v, v', p);
    } else {
      ReportsKeep(file, w, v, v');
    }
  }

  lemma {:induction false} RunInv(file: seq<Byte>, w: nat, run: seq<World>, i: nat)
    requires 0 < w && IsRun(file, w, run) && i < |run|
    ensures Inv(file, w, run[i])
  {
    if i == 0 {
      InitInv(file, w, run[0]);
    } else {
      RunInv(file, w, run, i - 1);
      StepInv(file, w, run[i - 1], run[i]);
    }
  }

  // ----- what the protocol promises -----

  lemma NoChunks(file: seq<Byte>)
    ensures 0 <= ChunkCount(file) && Content(file, 0) == []
  {
  }

  lemma {:induction false} TextIsContent(file: seq<Byte>, n: int, got: Inbox, k: nat)
    requires InboxGenuine(file, n, got) && AllBelow(got, k)
    ensures k <= ChunkCount(file) && Text(got, k) == Content(file, k)
  {
    hide ChunkCount, Payload;
    if k == 0 {
      NoChunks(file);
    } else {
      TextIsContent(file, n, got, k - 1);
      assert IsGenuine(file, n, Packet(k - 1, got[k - 1]));
    }
  }

  /** At every moment the receiver has written exactly the first `aru` chunks, in order and once each. */
  lemma WrittenIsPrefix(file: seq<Byte>, w: nat, run: seq<World>, i: nat)
    requires 0 < w && IsRun(file, w, run) && i < |run|
    ensures 0 <= run[i].aru <= ChunkCount(file) && AllBelow(run[i].got, run[i].aru)
    ensures Text(run[i].got, run[i].aru) == Content(file, run[i].aru)
  {
    RunInv(file, w, run, i);
    TextIsContent(file, Next(run[i].sender), run[i].got, run[i].aru);
  }

  /** A number that the sender's last report asks for and that the receiver still lacks: the next pass sends
      exactly that packet again. */
  lemma MissingIsResent(file: seq<Byte>, w: nat, v: World, incoming: Option<Report>, timedOut: bool, n: int)
    requires 0 < w && Inv(file, w, v) && v.sender.checkGaps && v.sender.pos <= |file|
    requires AsksFor(v.sender.report, n) && n !in v.got
    ensures 0 <= n < ChunkCount(file) && Packet(n, Payload(file, n)) in Iterate(v.sender, file, incoming, timedOut).sent
  {
    var s := v.sender;
    hide Payload, Iterate;
    PassSends(s, file, incoming, timedOut);
    var i :| 0 <= i < s.report.numGaps && i < |s.report.gaps| && s.report.gaps[i].start <= n < s.report.gaps[i].end;
    assert s.report.gaps[i] in s.report.gaps;
    var p := Slot(s.window, n);
    assert p.seqNo == n && IsGenuine(file, Next(s), p);
    assert IsDue(s, file, Iterate(s, file, incoming, timedOut).state, timedOut, p);
  }

  /** The sender leaves its loop only when the receiver has written every chunk. */
  lemma DoneMeansWritten(file: seq<Byte>, w: nat, run: seq<World>, i: nat)
    requires 0 < w && IsRun(file, w, run) && i < |run| && IsDone(run[i].sender)
    ensures run[i].aru == ChunkCount(file) && AllBelow(run[i].got, run[i].aru)
    ensures Text(run[i].got, run[i].aru) == Content(file, ChunkCount(file))
  {
    RunInv(file, w, run, i);
    WrittenIsPrefix(file, w, run, i);
  }

  /** The sender is never a window ahead of what is written, its ring buffer still holds every packet
      the receiver can lack, and reports are short enough for their array. */
  lemma WindowIsSafe(file: seq<Byte>, w: nat, run: seq<World>, i: nat)
    requires 0 < w && IsRun(file, w, run) && i < |run|
    ensures Next(run[i].sender) <= run[i].aru + w && |run[i].sender.window| == w
    ensures forall s :: 0 <= s < Next(run[i].sender) && s !in run[i].got ==>
              Slot(run[i].sender.window, s).seqNo == s && s < ChunkCount(file)
              && Slot(run[i].sender.window, s).payload == Payload(file, s)
    ensures forall r :: r in run[i].reports ==> 0 <= r.numGaps <= w / 2
    ensures w <= 201 ==> forall r :: r in run[i].reports ==> r.numGaps == |r.gaps| <= 100 && Readable(r)
  {
    RunInv(file, w, run, i);
  }

  // ----- the file that arrives -----

  lemma {:induction false} ContentHasNoNul(file: seq<Byte>, n: nat)
    requires n <= ChunkCount(file)
    ensures 0 !in Content(file, n)
  {
    hide ChunkCount, Payload;
    if n > 0 {
      ContentHasNoNul(file, n - 1);
      PayloadHasNoNul(file, n - 1);
    }
  }

  lemma PayloadHasNoNul(file: seq<Byte>, n: nat)
    requires n < ChunkCount(file)
    ensures 0 !in Payload(file, n)
  {
  }

  lemma {:induction false} CStringOfText(s: seq<Byte>)
    requires 0 !in s
    ensures CString(s) == s
  {
    if s != [] {
      assert 0 !in s[1..];
      CStringOfText(s[1..]);
    }
  }

  /** The end of the part of the file that the first `n` reads cover. */
  function ReadUpTo(file: seq<Byte>, n: nat): (r: nat)
    ensures r <= |file|
  {
    Min(CHUNK * n, |file|)
  }

  lemma ReadsCover(file: seq<Byte>)
    ensures ReadUpTo(file, ChunkCount(file)) == |file|
  {
  }

  lemma ReadIsNext(file: seq<Byte>, n: nat)
    requires n < ChunkCount(file)
    ensures CHUNK * n == ReadUpTo(file, n) <= ReadUpTo(file, n + 1)
    ensures ReadChunk(file, CHUNK * n) == file[ReadUpTo(file, n)..ReadUpTo(file, n + 1)]
  {
  }

  /** A chunk of a file without NUL bytes arrives as it is. */
  lemma ChunkOfText(file: seq<Byte>, n: nat)
    requires n < ChunkCount(file) && 0 !in file
    ensures ReadUpTo(file, n) <= ReadUpTo(file, n + 1)
    ensures file[..ReadUpTo(file, n)] + Payload(file, n) == file[..ReadUpTo(file, n + 1)]
  {
    hide CString, ReadUpTo;
    ReadIsNext(file, n);
    CStringOfText(ReadChunk(file, CHUNK * n));
  }

  lemma {:induction false} ContentOfText(file: seq<Byte>, n: nat)
    requires n <= ChunkCount(file) && 0 !in file
    ensures Content(file, n) == file[..ReadUpTo(file, n)]
  {
    hide ReadUpTo, Payload;
    if n > 0 {
      ContentOfText(file, n - 1);
      ChunkOfText(file, n - 1);
    } else {
      NothingRead(file);
    }
  }

  lemma NothingRead(file: seq<Byte>)
    ensures ReadUpTo(file, 0) == 0
  {
  }

  /** The transferred file equals the source exactly when the source has no NUL byte: strlen and fputs
      stop a chunk at its first NUL. */
  lemma FileArrives(file: seq<Byte>)
    ensures Content(file, ChunkCount(file)) == file <==> 0 !in file
  {
    hide *;
    ContentHasNoNul(file, ChunkCount(file));
    if 0 !in file {
      ContentOfText(file, ChunkCount(file));
      ReadsCover(file);
      assert file[..|file|] == file;
    }
  }

  /** A finished transfer, for every behaviour of the network. */
  lemma TransferIsCorrect(file: seq<Byte>, w: nat, run: seq<World>, i: nat)
    requires 0 < w && IsRun(file, w, run) && i < |run| && IsDone(run[i].sender)
    ensures 0 <= run[i].aru && AllBelow(run[i].got, run[i].aru)
    ensures Text(run[i].got, run[i].aru) == file <==> 0 !in file
  {
    DoneMeansWritten(file, w, run, i);
    FileArrives(file);
  }
}
