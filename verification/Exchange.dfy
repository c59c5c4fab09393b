/** Sender and receiver objects joined by a network that delivers any message at any time, or never. */
module Exchanges {
  import opened Bytes
  import opened Options
  import opened Packets
  import opened Receivers
  import opened SenderSpec
  import opened Senders
  import opened Transfers

  lemma SendsStep(file: seq<Byte>, v: World, v': World, incoming: Option<Report>, timedOut: bool)
    requires 0 < |v.sender.window| && v.sender.pos <= |file| && !IsDone(v.sender)
    requires incoming.Some? ==> incoming.value in v.reports
    requires v'.sender == Iterate(v.sender, file, incoming, timedOut).state
    requires v'.data == v.data + set p | p in Iterate(v.sender, file, incoming, timedOut).sent
    requires v'.got == v.got && v'.aru == v.aru && v'.active == v.active && v'.reports == v.reports
    ensures Step(file, v, v')
  {
    assert Sends(file, v, v', incoming, timedOut);
  }

  lemma ReceivesStep(file: seq<Byte>, v: World, v': World, p: Packet, more: seq<Report>)
    requires p in v.data && v'.got == Received(v.got, p) && FirstMissing(v'.got, v'.aru)
    requires v'.sender == v.sender && v'.data == v.data && v'.active
    requires v'.reports == v.reports + (set r | r in more) && forall r :: r in more ==> Describes(v'.got, r)
    ensures Step(file, v, v')
  {
    assert Receives(v, v', p);
  }

  lemma TimesOutStep(file: seq<Byte>, v: World, v': World, r: Report)
    requires v.active && v' == v.(reports := v.reports + {r}) && Describes(v.got, r)
    ensures Step(file, v, v')
  {
    assert TimesOut(v, v');
  }

  lemma Longer(file: seq<Byte>, w: nat, run: seq<World>, v: World) returns (more: seq<World>)
    requires IsRun(file, w, run) && Step(file, run[|run| - 1], v)
    ensures IsRun(file, w, more) && more[|more| - 1] == v
  {
    more := run + [v];
  }

  lemma FirstState(file: seq<Byte>, w: nat, v: World) returns (run: seq<World>)
    requires IsInit(w, v)
    ensures IsRun(file, w, run) && run[|run| - 1] == v
  {
    run := [v];
  }

  lemma LastIsSafe(file: seq<Byte>, w: nat, run: seq<World>)
    requires 0 < w <= 201 && IsRun(file, w, run)
    ensures 0 < |run| && forall r :: r in run[|run| - 1].reports ==> Readable(r)
  {
    WindowIsSafe(file, w, run, |run| - 1);
  }

  lemma Outcomes(file: seq<Byte>, w: nat, run: seq<World>, output: Option<seq<Byte>>)
    requires 0 < w && IsRun(file, w, run)
    requires WroteText(run[|run| - 1].got, run[|run| - 1].aru, output)
    ensures output.Some? ==> exists n: nat :: n <= ChunkCount(file) && output.value == Content(file, n)
    ensures IsDone(run[|run| - 1].sender) ==> output.Some? && (output.value == file <==> 0 !in file)
  {
    var v := run[|run| - 1];
    WrittenIsPrefix(file, w, run, |run| - 1);
    assert output.Some? ==> output.value == Content(file, v.aru);
    if IsDone(v.sender) {
      TransferIsCorrect(file, w, run, |run| - 1);
      DoneMeansWritten(file, w, run, |run| - 1);
      assert 0 in v.got;
    }
  }

  /** The two ends and the messages under way. */
  class Network {
    const sender: Sender
    const receiver: Receiver
    const windowSize: nat
    var data: set<Packet>
    var reports: set<Report>
    ghost var run: seq<World>

    ghost function Now(): World
      reads this, sender, sender.window, receiver
    {
      World(sender.Now(), receiver.got, receiver.startOfWindow + 1, receiver.active, data, reports)
    }

    ghost function Footprint(): set<object>
      reads this, receiver.list, receiver.buf
    {
      {this, sender, sender.window, receiver, receiver.list, receiver.buf} + receiver.list.repr + receiver.buf.repr
    }

    ghost predicate Valid()
      reads this, sender, sender.window, receiver, receiver.list, receiver.buf, receiver.list.repr, receiver.buf.repr
    {
      && sender.Valid() && receiver.Linked() && receiver.Valid()
      && 0 < windowSize <= 201 && IsRun(sender.file, windowSize, run) && run[|run| - 1] == Now()
    }

    constructor (source: seq<Byte>, w: nat, isActive: bool)
      requires 0 < w <= 201
      ensures Valid() && sender.file == source && fresh(Footprint())
    {
      hide Receiver.Valid, Receiver.Linked, Sender.Valid;
      var slots := new Packet[w](_ => Packet(0, []));
      sender := new Sender(source, w, slots, Report(0, 0, []));
      receiver := new Receiver(w, isActive);
      windowSize, data, reports := w, {}, {};
      new;
      run := FirstState(source, w, Now());
    }

    /** One pass of the sender, with the given report if it is under way. */
    method SenderEvent(incoming: Option<Report>, timedOut: bool) returns (done: bool)
      requires Valid() && !IsDone(sender.Now()) && (incoming.Some? ==> incoming.value in reports)
      modifies Footprint()
      ensures Valid() && fresh(Footprint() - old(Footprint())) && (done <==> IsDone(sender.Now()))
    {
      hide Iterate, IsDone, IsDue, Readable, IsRun, Step, Receiver.Valid, Receiver.Linked, Sends, Describes;
      ghost var v := Now();
      LastIsSafe(sender.file, windowSize, run);
      var sent;
      sent, done := sender.Iteration(incoming, timedOut);
      data := data + set p | p in sent;
      SendsStep(sender.file, v, Now(), incoming, timedOut);
      run := Longer(sender.file, windowSize, run, Now());
    }

    /** A data packet that is under way arrives. */
    method ReceiverEvent(p: Packet, timerElapsed: bool)
      requires Valid() && p in data
      modifies Footprint()
      ensures Valid() && fresh(Footprint() - old(Footprint())) && IsDone(sender.Now()) == old(IsDone(sender.Now()))
    {
      hide Received, Describes, FirstMissing, IsRun, Step, Receiver.Valid, Receiver.Linked, Sender.Valid;
      ghost var v := Now();
      var more := receiver.DataPacket(p, timerElapsed);
      reports := reports + set r | r in more;
      ReceivesStep(sender.file, v, Now(), p, more);
      run := Longer(sender.file, windowSize, run, Now());
    }

    /** The receiver's time-out. */
    method TimeoutEvent()
      requires Valid() && receiver.active
      modifies Footprint()
      ensures Valid() && fresh(Footprint() - old(Footprint())) && IsDone(sender.Now()) == old(IsDone(sender.Now()))
    {
      hide Describes, IsRun, Step, Receiver.Valid, Receiver.Linked, Sender.Valid;
      ghost var v := Now();
      var r := receiver.Timeout();
      reports := reports + {r};
      TimesOutStep(sender.file, v, Now(), r);
      run := Longer(sender.file, windowSize, run, Now());
    }
  }

  lemma NetworkOutcome(net: Network)
    requires net.Valid()
    ensures net.receiver.file.Some? ==>
              exists n: nat :: n <= ChunkCount(net.sender.file) && net.receiver.file.value == Content(net.sender.file, n)
    ensures IsDone(net.sender.Now()) ==>
              net.receiver.file.Some? && (net.receiver.file.value == net.sender.file <==> 0 !in net.sender.file)
  {
    Outcomes(net.sender.file, net.windowSize, net.run, net.receiver.file);
  }

  /** `steps` events of a transfer in any order; `output` is the receiver's file behind them. */
  method Exchange(source: seq<Byte>, windowSize: nat, steps: nat) returns (done: bool, output: Option<seq<Byte>>)
    requires 0 < windowSize <= 201
    ensures done ==> output.Some? && (output.value == source <==> 0 !in source)
    ensures output.Some? ==> exists n: nat :: n <= ChunkCount(source) && output.value == Content(source, n)
  {
    hide Network.Valid, IsDone;
    var queued: bool := *;
    var net := new Network(source, windowSize, !queued);
    done := IsFinished(net.sender);
    var k := 0;
    while k < steps && !done
      invariant fresh(net.Footprint()) && net.Valid() && net.sender.file == source
      invariant done <==> IsDone(net.sender.Now())
    {
      var choice: nat, flag: bool := *, *;
      if choice == 0 {
        var incoming: Option<Report> := None;
        if net.reports != {} && flag {
          var r :| r in net.reports;
          incoming := Some(r);
        }
        var timedOut: bool := *;
        done := net.SenderEvent(incoming, timedOut);
      } else if choice == 1 && net.data != {} {
        var p :| p in net.data;
        net.ReceiverEvent(p, flag);
      } else if net.receiver.active {
        net.TimeoutEvent();
      }
      k := k + 1;
    }
    output := net.receiver.file;
    NetworkOutcome(net);
  }

  method IsFinished(s: Sender) returns (done: bool)
    ensures done <==> IsDone(s.Now())
  {
    done := s.eof && s.currInFlight <= 0;
  }
}
