/** The transfer never gets stuck: from every reachable state some behaviour of the network finishes it. */
module TransferProgress {
  import opened Bytes
  import opened Extrema
  import opened GapLists
  import opened Options
  import opened Packets
  import opened Receivers
  import opened SenderSpec
  import opened Transfers

  lemma {:induction false} TopExists(got: Inbox, n: nat) returns (top: int)
    requires forall s :: s in got ==> 0 <= s < n
    ensures IsTop(got, top)
  {
    if n == 0 || n - 1 in got {
      top := n;
    } else {
      top := TopExists(got, n - 1);
    }
  }

  lemma {:induction false} FirstMissingExists(got: Inbox, m: nat, n: nat) returns (aru: int)
    requires AllBelow(got, m) && m <= n && n !in got
    ensures FirstMissing(got, aru)
    decreases n - m
  {
    if m in got {
      aru := FirstMissingExists(got, m + 1, n);
    } else {
      aru := m;
    }
  }

  /** The numbers from `lo` to `hi` that are missing form a list of separated gaps. */
  lemma {:induction false} GapListExists(got: Inbox, lo: int, hi: int) returns (gaps: seq<Gap>)
    requires lo <= hi
    ensures GapsExact(got, lo - 1, hi - 1, gaps)
    ensures forall i :: 0 <= i < |gaps| ==> gaps[i].end <= hi
    decreases hi - lo
  {
    if lo == hi {
      gaps := [];
    } else {
      gaps := GapListExists(got, lo, hi - 1);
      if hi - 1 !in got {
        gaps := GapsPlusOne(got, lo, hi, gaps);
      }
    }
  }

  /** One more missing number prolongs the last gap or starts a new one. */
  lemma GapsPlusOne(got: Inbox, lo: int, hi: int, gaps: seq<Gap>) returns (gaps': seq<Gap>)
    requires lo < hi && hi - 1 !in got && GapsExact(got, lo - 1, hi - 2, gaps)
    requires forall i :: 0 <= i < |gaps| ==> gaps[i].end <= hi - 1
    ensures GapsExact(got, lo - 1, hi - 1, gaps')
    ensures forall i :: 0 <= i < |gaps'| ==> gaps'[i].end <= hi
  {
    hide Covers;
    if gaps != [] && gaps[|gaps| - 1].end == hi - 1 {
      var front, g := gaps[..|gaps| - 1], gaps[|gaps| - 1];
      assert gaps == front + [g];
      AppendCovers(front, g);
      AppendCovers(front, Gap(g.start, hi));
      gaps' := front + [Gap(g.start, hi)];
    } else {
      assert forall i :: 0 <= i < |gaps| ==> gaps[i].end < hi - 1;
      AppendCovers(gaps, Gap(hi - 1, hi));
      gaps' := gaps + [Gap(hi - 1, hi)];
    }
  }

  lemma ReportExists(got: Inbox, aru: int, n: nat) returns (r: Report)
    requires FirstMissing(got, aru) && forall s :: s in got ==> 0 <= s < n
    ensures Describes(got, r) && r.aru == aru
  {
    var top := TopExists(got, n);
    assert aru <= top by {
      assert aru > 0 ==> aru - 1 in got;
    }
    var gaps := GapListExists(got, aru, top);
    assert IsGapListOf(got, aru, gaps);
    r := Report(aru, |gaps|, gaps[..Min(|gaps|, MAX_GAPS)]);
  }

  /** Consecutive steps. */
  ghost predicate IsPath(file: seq<Byte>, path: seq<World>) {
    0 < |path| && forall i :: 0 <= i < |path| - 1 ==> Step(file, path[i], path[i + 1])
  }

  lemma PathOn(file: seq<Byte>, path: seq<World>, v: World)
    requires IsPath(file, path) && Step(file, path[|path| - 1], v)
    ensures IsPath(file, path + [v])
  {
  }

  lemma PathConcat(file: seq<Byte>, p: seq<World>, q: seq<World>)
    requires IsPath(file, p) && IsPath(file, q) && p[|p| - 1] == q[0]
    ensures IsPath(file, p + q[1..]) && (p + q[1..])[|p + q[1..]| - 1] == q[|q| - 1]
  {
    var r := p + q[1..];
    forall i | 0 <= i < |r| - 1
      ensures Step(file, r[i], r[i + 1])
    {
      if i >= |p| - 1 {
        assert Step(file, q[i - |p| + 1], q[i - |p| + 2]);
      }
    }
  }

  ghost predicate HasPacket(v: World) {
    exists p :: p in v.data && p.seqNo == v.aru
  }

  /** The receiver's time-out makes it report. */
  lemma Reporting(file: seq<Byte>, w: nat, v: World) returns (v': World, r: Report)
    requires 0 < w && Inv(file, w, v) && v.active
    ensures Step(file, v, v') && Inv(file, w, v') && v'.aru == v.aru && v'.sender == v.sender
    ensures r in v'.reports && r.aru == v.aru
  {
    var n := Next(v.sender);
    forall s | s in v.got
      ensures 0 <= s < n
    {
      assert IsGenuine(file, n, Packet(s, v.got[s]));
    }
    r := ReportExists(v.got, v.aru, n);
    v' := v.(reports := v.reports + {r});
    assert TimesOut(v, v');
    StepInv(file, w, v, v');
  }

  /** One pass of the sender. */
  lemma Sending(file: seq<Byte>, w: nat, v: World, incoming: Option<Report>) returns (v': World)
    requires 0 < w && Inv(file, w, v) && !IsDone(v.sender) && (incoming.Some? ==> incoming.value in v.reports)
    ensures Step(file, v, v') && Inv(file, w, v') && v'.aru == v.aru && v.sender.pos <= |file|
    ensures v'.sender == Iterate(v.sender, file, incoming, true).state
    ensures forall p :: p in Iterate(v.sender, file, incoming, true).sent ==> p in v'.data
  {
    hide Iterate;
    v' := v.(sender := Iterate(v.sender, file, incoming, true).state,
             data := v.data + set p | p in Iterate(v.sender, file, incoming, true).sent);
    assert Sends(file, v, v', incoming, true);
    StepInv(file, w, v, v');
  }

  /** The packet that is due arrives. */
  lemma Receiving(file: seq<Byte>, w: nat, v: World) returns (v': World)
    requires 0 < w && Inv(file, w, v) && HasPacket(v)
    ensures Step(file, v, v') && Inv(file, w, v') && v'.aru > v.aru
  {
    var p :| p in v.data && p.seqNo == v.aru;
    var n := Next(v.sender);
    var got := Received(v.got, p);
    assert n !in got by {
      assert n in v.got ==> IsGenuine(file, n, Packet(n, v.got[n]));
      assert IsGenuine(file, n, p);
    }
    var aru := FirstMissingExists(got, v.aru + 1, n);
    v' := v.(got := got, aru := aru, active := true);
    assert Receives(v, v', p);
    StepInv(file, w, v, v');
    assert aru != v.aru;
    WindowGrows(v.got, p, v.aru, aru);
  }

  /** After a time-out the packet that is due is sent, if it has been sent before. */
  lemma DueIsResent(file: seq<Byte>, w: nat, aru: int, s: SenderState)
    requires SenderInv(file, w, aru, s) && s.start == aru && 0 < s.inFlight
    ensures exists p :: p in ResendFirst(s) && p.seqNo == aru
  {
    hide ResendFirst, StreamAt, IsGenuine;
    ResendsFirstTwo(s);
    assert Slot(s.window, aru).seqNo == aru;
    assert s.window[aru % |s.window|] in ResendFirst(s);
  }

  /** A pass with an up-to-date report, or by a sender that is up to date: the window starts at the packet
      that is due, and after a time-out that packet is sent if any is in flight. */
  lemma AfterReport(file: seq<Byte>, w: nat, aru: int, s: SenderState, incoming: Option<Report>)
    requires SenderInv(file, w, aru, s) && s.pos <= |file|
    requires s.checkGaps ==> GoodReport(w, Next(s), aru, s.report)
    requires if incoming.Some? then incoming.value.aru == aru && GoodReport(w, Next(s), aru, incoming.value) else s.start == aru
    ensures Iterate(s, file, incoming, true).state.start == aru
    ensures var out := Iterate(s, file, incoming, true);
            out.state.inFlight > 0 ==> exists p :: p in out.sent && p.seqNo == aru
  {
    var t := Iterate(s, file, incoming, true).state;
    IterateKeeps(file, w, aru, s, incoming, true);
    if t.inFlight > 0 {
      DueIsResent(file, w, aru, t);
      var p :| p in ResendFirst(t) && p.seqNo == aru;
      assert p in Iterate(s, file, incoming, true).sent;
    }
  }

  /** With nothing in flight, a pass sends the next packet of the file. */
  lemma NewIsSent(file: seq<Byte>, s: SenderState)
    requires 0 < |s.window| && s.pos <= |file| && !s.eof && s.inFlight <= 0
    ensures exists p :: p in Iterate(s, file, None, true).sent && p.seqNo == Next(s)
  {
    var p := Packet(Next(s), CString(ReadChunk(file, s.pos)));
    assert p in SendNext(FillGaps(s).state, file).sent;
    assert p in Iterate(s, file, None, true).sent;
  }

  lemma SenderPart(file: seq<Byte>, w: nat, v: World)
    requires Inv(file, w, v)
    ensures SenderInv(file, w, v.aru, v.sender)
    ensures v.sender.checkGaps ==> GoodReport(w, Next(v.sender), v.aru, v.sender.report)
    ensures forall r :: r in v.reports ==> GoodReport(w, Next(v.sender), v.aru, r)
  {
  }

  /** One pass by which the sender is up to date: with a report, or without one as long as the connection
      is not active, when nothing has been written yet. */
  lemma CatchingUp(file: seq<Byte>, w: nat, v: World) returns (path: seq<World>)
    requires 0 < w && Inv(file, w, v) && !IsDone(v.sender)
    ensures IsPath(file, path) && path[0] == v
    ensures var u := path[|path| - 1];
            Inv(file, w, u) && u.aru == v.aru && u.sender.start == u.aru && (u.sender.inFlight > 0 ==> HasPacket(u))
  {
    hide Inv, Step, Iterate, GoodReport;
    if v.active {
      var v1, r := Reporting(file, w, v);
      SenderPart(file, w, v1);
      AfterReport(file, w, v.aru, v1.sender, Some(r));
      var v2 := Sending(file, w, v1, Some(r));
      path := [v, v1, v2];
    } else {
      SenderPart(file, w, v);
      NotYetActive(file, w, v);
      AfterReport(file, w, v.aru, v.sender, None);
      var v2 := Sending(file, w, v, None);
      path := [v, v2];
    }
  }

  lemma NotYetActive(file: seq<Byte>, w: nat, v: World)
    requires Inv(file, w, v) && !v.active
    ensures v.aru == 0 && v.sender.start == 0
  {
    assert v.aru > 0 ==> v.aru - 1 in v.got;
  }

  /** A report that arrives brings the sender up to date; then the packet that is due is resent,
      read and sent for the first time in the next pass, or there is none. */
  lemma DueIsSent(file: seq<Byte>, w: nat, v: World) returns (path: seq<World>)
    requires 0 < w && Inv(file, w, v) && !IsDone(v.sender)
    ensures IsPath(file, path) && path[0] == v
    ensures Inv(file, w, path[|path| - 1]) && path[|path| - 1].aru == v.aru
    ensures IsDone(path[|path| - 1].sender) || HasPacket(path[|path| - 1])
  {
    hide Inv, Step, Iterate, GoodReport;
    path := CatchingUp(file, w, v);
    var u := path[|path| - 1];
    SenderPart(file, w, u);
    if !IsDone(u.sender) && u.sender.inFlight <= 0 {
      var v3 := Sending(file, w, u, None);
      NewIsSent(file, u.sender);
      path := path + [v3];
    }
  }

  /** From every state that can be reached, a run leads to the end of the transfer. */
  lemma {:induction false} CanFinish(file: seq<Byte>, w: nat, v: World) returns (path: seq<World>)
    requires 0 < w && Inv(file, w, v)
    ensures IsPath(file, path) && path[0] == v && IsDone(path[|path| - 1].sender)
    decreases ChunkCount(file) - v.aru
  {
    path := [v];
    if !IsDone(v.sender) {
      path := DueIsSent(file, w, v);
      var u := path[|path| - 1];
      if !IsDone(u.sender) {
        var v' := Receiving(file, w, u);
        PathOn(file, path, v');
        path := path + [v'];
        var rest := CanFinish(file, w, v');
        PathConcat(file, path, rest);
        path := path + rest[1..];
      }
    }
  }

  lemma NeverStuck(file: seq<Byte>, w: nat, run: seq<World>)
    returns (more: seq<World>)
    requires 0 < w && IsRun(file, w, run)
    ensures run <= more && IsRun(file, w, more) && IsDone(more[|more| - 1].sender)
  {
    RunInv(file, w, run, |run| - 1);
    var path := CanFinish(file, w, run[|run| - 1]);
    PathConcat(file, run, path);
    more := run + path[1..];
  }
}
