/** Packets do arrive: when a callback hands one up, that a live link can always be emptied, and that
    sends on it succeed. */
module FramingProgress {
  import opened Wire
  import opened Codec
  import opened Framing

  lemma RunExtends(steps: seq<Step>, step: Step)
    requires Enabled(Run(steps), step)
    ensures Run(steps + [step]) == Apply(Run(steps), step)
  {
    assert (steps + [step])[..|steps|] == steps;
  }

  // ---------------------------------------------------------------- when a packet is handed up

  /** The bytes that a callback has read are those of all packets up to the next one, inclusive. */
  predicate Completes(k: Link, h: nat, b: nat)
    requires AllSendable(k.sent) && |k.consumed| <= |k.sent|
  {
    |k.consumed| < |k.sent| && k.taken + h + b == Start(k.sent, |k.consumed| + 1)
  }

  /** Reading up to the end of the next packet, and not reading up to it. */
  lemma ReadFills(k: Link, h: nat, b: nat, again: bool)
    requires Inv(k) && !k.readerDead && !Full(k.got) && CanRead(k, h, b)
    ensures var k1 := AfterRead(k, h, b, again);
      if Completes(k, h, b) then !k1.readerDead && Full(k1.got) else !Full(k1.got)
  {
    if k.got.Partial? {
      BodyFills(k, b, again);
    } else {
      HeaderFills(k, h, b, again);
    }
  }

  lemma BodyFills(k: Link, b: nat, again: bool)
    requires Inv(k) && !k.readerDead && k.got.Partial? && !Full(k.got) && CanRead(k, 0, b)
    ensures var k1 := AfterRead(k, 0, b, again);
      if Completes(k, 0, b) then !k1.readerDead && Full(k1.got) else !Full(k1.got)
  {
    assert AllSendable(k.sent) && Reading(k);
    NextStart(k.sent, |k.consumed|);
    hide Inv, Frame, Frames, Start;
  }

  lemma HeaderFills(k: Link, h: nat, b: nat, again: bool)
    requires Inv(k) && !k.readerDead && k.got.Nothing? && CanRead(k, h, b)
    ensures var k1 := AfterRead(k, h, b, again);
      if Completes(k, h, b) then !k1.readerDead && Full(k1.got) else !Full(k1.got)
  {
    var c := |k.consumed|;
    assert AllSendable(k.sent) && k.taken == Start(k.sent, c);
    if c < |k.sent| {
      NextStart(k.sent, c);
    }
    if h == LENGTH_SIZE {
      HeaderIsNext(k, h);
    }
    hide Inv, Frame, Frames, Announced, Start;
  }

  /** In every run, a callback hands up a packet exactly when it is accepted and the bytes of the next
      packet are complete; it is then the next packet, the slot is free and the link alive. */
  lemma HandsUpIff(steps: seq<Step>, h: nat, b: nat, again: bool, accept: bool)
    requires Enabled(Run(steps), ReadCallback(h, b, again, accept))
    ensures AllSendable(Run(steps).sent) && |Run(steps).consumed| <= |Run(steps).sent|
    ensures var k, k1 := Run(steps), Run(steps + [ReadCallback(h, b, again, accept)]);
      if accept && Completes(k, h, b)
      then k1.consumed == k.consumed + [Frame(k.sent[|k.consumed|])] && k1.got == Nothing && !k1.readerDead
      else k1.consumed == k.consumed
    ensures var k, k1 := Run(steps), Run(steps + [ReadCallback(h, b, again, accept)]);
      !accept && Completes(k, h, b) ==> Full(k1.got) && !k1.readerDead && k1.got.bytes == Frame(k.sent[|k.consumed|])
  {
    var k := Run(steps);
    RunKeepsInv(steps);
    RunExtends(steps, ReadCallback(h, b, again, accept));
    hide Run;
    var k1 := if Full(k.got) then k else AfterRead(k, h, b, again);
    if Full(k.got) {
      NextStart(k.sent, |k.consumed|);
    } else {
      ReadFills(k, h, b, again);
      KeepRead(k, h, b, again);
    }
    if Full(k1.got) && !k1.readerDead {
      FullIsFrame(k1);
    }
  }

  /** In every run, a callback ends a live connection exactly when it has no full packet yet and either
      the length field came in pieces or there was nothing to read for another reason than "not now". */
  lemma ReadEndsIff(steps: seq<Step>, h: nat, b: nat, again: bool, accept: bool)
    requires Enabled(Run(steps), ReadCallback(h, b, again, accept))
    ensures var k := Run(steps);
      Run(steps + [ReadCallback(h, b, again, accept)]).readerDead <==>
      !Full(k.got) && ((k.got.Nothing? && h != LENGTH_SIZE) || (b == 0 && !again))
  {
    var k := Run(steps);
    RunKeepsInv(steps);
    RunExtends(steps, ReadCallback(h, b, again, accept));
    hide Run, Inv;
    if !Full(k.got) {
      ReadDiesIff(k, h, b, again);
    }
    hide AfterRead;
  }

  lemma ReadDiesIff(k: Link, h: nat, b: nat, again: bool)
    requires Inv(k) && !k.readerDead && !Full(k.got) && CanRead(k, h, b)
    ensures AfterRead(k, h, b, again).readerDead <==> (k.got.Nothing? && h != LENGTH_SIZE) || (b == 0 && !again)
  {
    if k.got.Nothing? && h == LENGTH_SIZE {
      HeaderIsNext(k, h);
      assert Sendable(k.sent[|k.consumed|]);
    }
    hide Inv, Frame, Announced;
  }

  /** A write that fails for another reason ends the connection, and the send that was under way returns
      false; one that is told "not now" changes nothing on the wire and ends nothing. */
  lemma FailedWrite(steps: seq<Step>, again: bool)
    requires Run(steps).out.Busy? && !Run(steps).writerDead && Run(steps).out.solong < |Run(steps).out.bytes|
    ensures var k, k1 := Run(steps), Run(steps + [WriteCallback(NotWritten(again))]);
      && k1.stream == k.stream && k1.writerDead == !again && k1.results == k.results && (again ==> k1.out.Busy?)
      && (!again ==> Run(steps + [WriteCallback(NotWritten(again)), FinishSend]).results == k.results + [false])
  {
    RunKeepsInv(steps);
    var write := WriteCallback(NotWritten(again));
    assert CanWrite(Run(steps).out, NotWritten(again));
    RunExtends(steps, write);
    if !again {
      RunExtends(steps + [write], FinishSend);
      assert steps + [write, FinishSend] == steps + [write] + [FinishSend];
    }
  }

  lemma FullIsFrame(k: Link)
    requires Inv(k) && !k.readerDead && Full(k.got)
    ensures |k.consumed| < |k.sent| && AllSendable(k.sent) && k.got.bytes == Frame(k.sent[|k.consumed|])
  {
    assert AllSendable(k.sent);
    hide Frames, Frame, WriterInv;
    var f := Frame(k.sent[|k.consumed|]);
    assert f[..|f|] == f;
  }

  // ---------------------------------------------------------------- pieces of any size

  /** The socket may take any number of the bytes that are left, and exactly those go out. */
  lemma PieceIsWritten(steps: seq<Step>, n: nat)
    requires Run(steps).out.Busy? && !Run(steps).writerDead && Run(steps).out.solong + n <= |Run(steps).out.bytes|
    ensures AllSendable(Run(steps).sent) && |Run(steps).sent| > 0
    ensures var k, k1 := Run(steps), Run(steps + [WriteCallback(Wrote(n))]);
      && |k.out.bytes| == |k.sent[|k.sent| - 1]| && !k1.writerDead
      && k1.stream == k.stream + Frame(k.sent[|k.sent| - 1])[k.out.solong..k.out.solong + n]
  {
    var k := Run(steps);
    RunKeepsInv(steps);
    assert CanWrite(k.out, Wrote(n));
    RunExtends(steps, WriteCallback(Wrote(n)));
    hide Run;
    var pdu := k.sent[|k.sent| - 1];
    FrameOfFrame(k.out.bytes, pdu);
    var f := Frame(pdu);
    hide Frame, Frames;
    WritePduWrites(k.out, Wrote(n), f);
  }

  /** And may give any number of the bytes of a packet that are there. */
  lemma PieceIsRead(steps: seq<Step>, b: nat, accept: bool)
    requires !Run(steps).readerDead && Run(steps).got.Partial? && 0 < b <= Wanted(Run(steps).got)
    requires Run(steps).taken + b <= |Run(steps).stream|
    ensures var k1 := Run(steps + [ReadCallback(0, b, false, accept)]); !k1.readerDead && k1.taken == Run(steps).taken + b
  {
    RunExtends(steps, ReadCallback(0, b, false, accept));
  }

  // ---------------------------------------------------------------- a live link can be emptied

  ghost predicate Live(k: Link) {
    !k.writerDead && !k.readerDead
  }

  /** The link has delivered everything and nothing is under way. */
  ghost predicate Drained(k: Link) {
    Live(k) && k.out == Idle && k.got == Nothing && |k.consumed| == |k.sent|
  }

  /** A packet that is partly written can be written to its end, and its send then succeeds. */
  lemma SendCanFinish(steps: seq<Step>) returns (more: seq<Step>)
    requires Live(Run(steps))
    ensures var k, k1 := Run(steps), Run(steps + more);
      && Live(k1) && k1.out == Idle && k1.sent == k.sent && k1.consumed == k.consumed
      && k1.results == k.results + if k.out.Idle? then [] else [true]
  {
    var k := Run(steps);
    RunKeepsInv(steps);
    if k.out.Idle? {
      more := [];
      assert steps + more == steps;
    } else {
      hide Frames, Frame;
      var write := WriteCallback(Wrote(|k.out.bytes| - k.out.solong));
      RunExtends(steps, write);
      RunExtends(steps + [write], FinishSend);
      more := [write, FinishSend];
      assert steps + more == steps + [write] + [FinishSend];
    }
  }

  /** How many bytes of the length field and of the body the next packet still lacks. */
  function Lacks(k: Link): (nat, nat) {
    if k.got.Nothing? && |k.consumed| < |k.sent| && |k.sent[|k.consumed|]| >= LENGTH_SIZE
    then (LENGTH_SIZE, |k.sent[|k.consumed|]| - LENGTH_SIZE)
    else (0, Wanted(k.got))
  }

  lemma NextIsThere(k: Link)
    requires Inv(k) && Live(k) && k.out == Idle && |k.consumed| < |k.sent|
    ensures AllSendable(k.sent) && Completes(k, Lacks(k).0, Lacks(k).1)
    ensures Enabled(k, ReadCallback(Lacks(k).0, Lacks(k).1, true, true))
  {
    var c := |k.consumed|;
    NextStart(k.sent, c);
    FramesPrefix(k.sent, c + 1);
    if k.got.Nothing? {
      HeaderIsNext(k, LENGTH_SIZE);
    }
    hide Frames, Frame, Announced;
  }

  lemma OneMoreArrives(steps: seq<Step>) returns (step: Step)
    requires Live(Run(steps)) && Run(steps).out == Idle && |Run(steps).consumed| < |Run(steps).sent|
    ensures var k, k1 := Run(steps), Run(steps + [step]);
      && Live(k1) && k1.out == Idle && k1.sent == k.sent && k1.results == k.results
      && |k1.consumed| == |k.consumed| + 1 && k1.got == Nothing
  {
    var k := Run(steps);
    RunKeepsInv(steps);
    NextIsThere(k);
    step := ReadCallback(Lacks(k).0, Lacks(k).1, true, true);
    HandsUpIff(steps, Lacks(k).0, Lacks(k).1, true, true);
    RunExtends(steps, step);
    hide Run, Inv, Lacks, Completes, Frame;
  }

  lemma {:induction false} ReaderCanCatchUp(steps: seq<Step>) returns (more: seq<Step>)
    requires Live(Run(steps)) && Run(steps).out == Idle && (|Run(steps).consumed| < |Run(steps).sent| || Run(steps).got == Nothing)
    ensures Drained(Run(steps + more)) && Run(steps + more).sent == Run(steps).sent
    ensures Run(steps + more).results == Run(steps).results
    decreases |Run(steps).sent| - |Run(steps).consumed|
  {
    if |Run(steps).consumed| >= |Run(steps).sent| {
      RunKeepsInv(steps);
      more := [];
      assert steps + more == steps;
    } else {
      var step := OneMoreArrives(steps);
      hide Run;
      var rest := ReaderCanCatchUp(steps + [step]);
      more := [step] + rest;
      assert steps + more == steps + [step] + rest;
    }
  }

  lemma SlotNeedsPacket(steps: seq<Step>)
    requires Live(Run(steps))
    ensures |Run(steps).consumed| < |Run(steps).sent| || Run(steps).got == Nothing
  {
    RunKeepsInv(steps);
  }

  /** From every reachable state of a live link, some finite sequence of callbacks brings every packet
      that was sent to the other end, and the send that was under way succeeds. */
  lemma LinkCanDrain(steps: seq<Step>) returns (more: seq<Step>)
    requires Live(Run(steps))
    ensures Drained(Run(steps + more)) && Run(steps + more).sent == Run(steps).sent
    ensures Run(steps + more).results == Run(steps).results + if Run(steps).out.Idle? then [] else [true]
  {
    var finish := SendCanFinish(steps);
    SlotNeedsPacket(steps + finish);
    var rest := ReaderCanCatchUp(steps + finish);
    more := finish + rest;
    assert steps + more == steps + finish + rest;
  }

  /** And so a packet that is sent on a live link with a free slot arrives behind all others. */
  lemma PacketArrives(steps: seq<Step>, pdu: seq<Byte>) returns (more: seq<Step>)
    requires Live(Run(steps)) && Run(steps).out == Idle && Sendable(pdu)
    ensures var k, k1 := Run(steps), Run(steps + more);
      && Drained(k1) && k1.sent == k.sent + [pdu] && k1.results == k.results + [true]
      && |k1.consumed| == |k.sent| + 1 && k1.consumed[|k.sent|] == Frame(pdu)
  {
    var send := StartSend(pdu, Wrote(|pdu|));
    RunExtends(steps, send);
    assert Live(Run(steps + [send])) && Run(steps + [send]).out == Idle;
    var rest := LinkCanDrain(steps + [send]);
    more := [send] + rest;
    assert steps + more == steps + [send] + rest;
    ConsumedIsPrefixOfSent(steps + more);
  }

  // ---------------------------------------------------------------- sends on a live link succeed

  predicate AllTrue(results: seq<bool>) {
    forall i :: 0 <= i < |results| ==> results[i]
  }

  lemma StepKeepsSuccess(k: Link, step: Step)
    requires Enabled(k, step) && (!k.writerDead ==> AllTrue(k.results)) && (k.out.Failed? ==> k.writerDead)
    ensures var k1 := Apply(k, step);
      (!k1.writerDead ==> AllTrue(k1.results)) && (k1.out.Failed? ==> k1.writerDead)
  {
    hide Frame;
  }

  /** In every run, a send returns false only on a connection that has died. */
  lemma {:induction false} LiveSendsSucceed(steps: seq<Step>)
    ensures !Run(steps).writerDead ==> AllTrue(Run(steps).results)
    ensures Run(steps).out.Failed? ==> Run(steps).writerDead
  {
    if steps != [] {
      var k, step := Run(steps[..|steps| - 1]), steps[|steps| - 1];
      LiveSendsSucceed(steps[..|steps| - 1]);
      hide Apply, Enabled, AllTrue;
      if Enabled(k, step) {
        StepKeepsSuccess(k, step);
      }
    }
  }
}
