/** Packets over a byte stream. Sender threads take turns at the one outgoing slot of a connection;
    the socket accepts and delivers bytes in pieces of any size; the other end reads a length, then
    that many bytes, and hands the packet up until it is accepted. */
module Framing {
  import opened Wire
  import opened Codec

  const MAX_PDU := 10 * 0x10_0000

  // ---------------------------------------------------------------- one end of a connection

  /** The outgoing slot: empty, a packet of which `solong` bytes are written, or failed. */
  datatype Out = Idle | Busy(bytes: seq<Byte>, solong: nat) | Failed

  /** The incoming slot: empty, or the bytes read so far of a packet of `sz` bytes. */
  datatype In = Nothing | Partial(bytes: seq<Byte>, sz: nat)

  /** What `write` returns: a number of bytes, or an error that may only mean "not now". */
  datatype WriteResult = Wrote(n: nat) | NotWritten(again: bool)

  /** What `read` returns: some bytes, or none together with what `errno` says. */
  datatype ReadResult = Input(bytes: seq<Byte>, again: bool)

  predicate Sendable(pdu: seq<Byte>) {
    LENGTH_SIZE < |pdu| <= MAX_PDU
  }

  /** The packet with its length field filled in. */
  function Frame(pdu: seq<Byte>): (f: seq<Byte>)
    requires |pdu| >= LENGTH_SIZE
    ensures |f| == |pdu|
  {
    BigEndian(|pdu|, LENGTH_SIZE) + pdu[LENGTH_SIZE..]
  }

  predicate CanWrite(out: Out, w: WriteResult) {
    out.Busy? && out.solong <= |out.bytes| && |out.bytes| >= LENGTH_SIZE
    && (w.Wrote? ==> out.solong + w.n <= |out.bytes|)
  }

  /** The slot after a write, whether the connection is still good, and the bytes that went out. */
  function WritePdu(out: Out, w: WriteResult): (Out, bool, seq<Byte>)
    requires CanWrite(out, w)
  {
    if out.solong == |out.bytes| then (out, true, [])
    else
      var bytes := if out.solong == 0 then Frame(out.bytes) else out.bytes;
      match w
      case NotWritten(again) => if again then (Busy(bytes, out.solong), true, []) else (Failed, false, [])
      case Wrote(n) => (Busy(bytes, out.solong + n), true, bytes[out.solong..out.solong + n])
  }

  function Announced(header: seq<Byte>): nat {
    ReadNumber(Reader(header, 0, true), LENGTH_SIZE).0
  }

  function ReadBody(got: In, body: ReadResult): (In, bool)
    requires got.Partial?
  {
    if body.bytes == [] then (if body.again then (got, true) else (Nothing, false))
    else (Partial(got.bytes + body.bytes, got.sz), true)
  }

  /** The slot after reading, and whether the connection is still good. A length field that does not
      arrive in one piece ends the connection. */
  function ReadPdu(got: In, header: ReadResult, body: ReadResult): (In, bool) {
    if got.Partial? then ReadBody(got, body)
    else if |header.bytes| != LENGTH_SIZE then (Nothing, false)
    else
      var sz := Announced(header.bytes);
      if sz > MAX_PDU then (Nothing, false) else ReadBody(Partial(header.bytes, sz), body)
  }

  predicate Full(got: In) {
    got.Partial? && |got.bytes| == got.sz
  }

  // ---------------------------------------------------------------- the link

  /** One direction of a connection. `sent` lists the packets whose transmission was begun, `results`
      what `send` returned for them, `stream` the bytes handed to the socket, of which the reader
      has taken the first `taken`, and `consumed` the packets that were accepted. */
  datatype Link = Link(
    writerDead: bool, out: Out, sent: seq<seq<Byte>>, results: seq<bool>,
    stream: seq<Byte>, taken: nat,
    readerDead: bool, got: In, consumed: seq<seq<Byte>>)

  const INITIAL := Link(false, Idle, [], [], [], 0, false, Nothing, [])

  datatype Step =
    | StartSend(pdu: seq<Byte>, w: WriteResult)
    | WriteCallback(w: WriteResult)
    | FinishSend
    | KillWriter
    | ReadCallback(h: nat, b: nat, again: bool, accept: bool)
    | KillReader

  /** How many bytes the body read asks for. */
  function Wanted(got: In): nat {
    if got.Partial? && |got.bytes| <= got.sz then got.sz - |got.bytes| else 0
  }

  function WantedAfter(header: seq<Byte>): nat {
    Wanted(Partial(header, Announced(header)))
  }

  function HeaderInput(k: Link, h: nat): ReadResult
    requires k.taken + h <= |k.stream|
  {
    Input(k.stream[k.taken..k.taken + h], false)
  }

  function BodyInput(k: Link, h: nat, b: nat, again: bool): ReadResult
    requires k.taken + h + b <= |k.stream|
  {
    Input(k.stream[k.taken + h..k.taken + h + b], again)
  }

  /** The bytes of the length field are asked for only when the slot is empty, and a socket gives no
      more than it was asked for and no more than was written. */
  predicate CanRead(k: Link, h: nat, b: nat) {
    && k.taken + h + b <= |k.stream|
    && (k.got.Partial? ==> h == 0 && b <= Wanted(k.got))
    && (k.got.Nothing? ==> h <= LENGTH_SIZE && (b == 0 || (h == LENGTH_SIZE && b <= WantedAfter(HeaderInput(k, h).bytes))))
  }

  predicate Enabled(k: Link, step: Step) {
    match step
    case StartSend(pdu, w) => !k.writerDead && k.out.Idle? && Sendable(pdu) && CanWrite(Busy(pdu, 0), w)
    case WriteCallback(w) => !k.writerDead && CanWrite(k.out, w)
    case FinishSend => k.out.Failed? || (k.out.Busy? && (k.writerDead || k.out.solong == |k.out.bytes|))
    case KillWriter => true
    case ReadCallback(h, b, _, _) => !k.readerDead && if Full(k.got) then h == b == 0 else CanRead(k, h, b)
    case KillReader => true
  }

  /** A packet that went out at once leaves the slot empty again within the same locked section. */
  function AfterStart(k: Link, pdu: seq<Byte>, w: WriteResult): Link
    requires Enabled(k, StartSend(pdu, w))
  {
    var (out, ok, bytes) := WritePdu(Busy(pdu, 0), w);
    var k1 := k.(sent := k.sent + [pdu], stream := k.stream + bytes);
    if ok && out.solong == |out.bytes| then k1.(out := Idle, results := k.results + [true])
    else k1.(out := out, writerDead := !ok)
  }

  function AfterWrite(k: Link, w: WriteResult): Link
    requires Enabled(k, WriteCallback(w))
  {
    var (out, ok, bytes) := WritePdu(k.out, w);
    k.(out := out, stream := k.stream + bytes, writerDead := !ok)
  }

  function AfterFinish(k: Link): Link {
    var ret := !k.writerDead && k.out.Busy? && k.out.solong == |k.out.bytes|;
    k.(out := Idle, results := k.results + [ret])
  }

  /** The slot and the connection after the reading part of a callback. */
  function AfterRead(k: Link, h: nat, b: nat, again: bool): Link
    requires CanRead(k, h, b)
  {
    var (got, ok) := ReadPdu(k.got, HeaderInput(k, h), BodyInput(k, h, b, again));
    k.(got := got, readerDead := !ok, taken := k.taken + h + b)
  }

  /** A full packet is offered to the layer above; if refused it stays for the next callback. */
  function Offer(k: Link, accept: bool): Link {
    if Full(k.got) && accept then k.(got := Nothing, consumed := k.consumed + [k.got.bytes]) else k
  }

  function Apply(k: Link, step: Step): Link
    requires Enabled(k, step)
  {
    match step
    case StartSend(pdu, w) => AfterStart(k, pdu, w)
    case WriteCallback(w) => AfterWrite(k, w)
    case FinishSend => AfterFinish(k)
    case KillWriter => k.(writerDead := true)
    case ReadCallback(h, b, again, accept) => Offer(if Full(k.got) then k else AfterRead(k, h, b, again), accept)
    case KillReader => k.(readerDead := true)
  }

  /** The link after a run; a step that cannot be taken is skipped. */
  function Run(steps: seq<Step>): Link {
    if steps == [] then INITIAL
    else
      var k := Run(steps[..|steps| - 1]);
      var step := steps[|steps| - 1];
      if Enabled(k, step) then Apply(k, step) else k
  }

  // ---------------------------------------------------------------- the stream of frames

  predicate AllSendable(pdus: seq<seq<Byte>>) {
    forall i :: 0 <= i < |pdus| ==> Sendable(pdus[i])
  }

  /** The bytes of a whole sequence of packets. */
  function Frames(pdus: seq<seq<Byte>>): seq<Byte>
    requires AllSendable(pdus)
  {
    if pdus == [] then [] else Frames(pdus[..|pdus| - 1]) + Frame(pdus[|pdus| - 1])
  }

  /** Where packet number `i` begins in the stream. */
  function Start(pdus: seq<seq<Byte>>, i: nat): nat
    requires AllSendable(pdus) && i <= |pdus|
  {
    |Frames(pdus[..i])|
  }

  lemma NextStart(pdus: seq<seq<Byte>>, i: nat)
    requires AllSendable(pdus) && i < |pdus|
    ensures Start(pdus, i + 1) == Start(pdus, i) + |pdus[i]|
    ensures Frames(pdus[..i + 1]) == Frames(pdus[..i]) + Frame(pdus[i])
  {
    assert pdus[..i + 1][..i] == pdus[..i];
  }

  lemma {:induction false} FramesPrefix(pdus: seq<seq<Byte>>, i: nat)
    requires AllSendable(pdus) && i <= |pdus|
    ensures Start(pdus, i) <= |Frames(pdus)| && Frames(pdus)[..Start(pdus, i)] == Frames(pdus[..i])
    decreases |pdus| - i
  {
    if i < |pdus| {
      FramesPrefix(pdus, i + 1);
      NextStart(pdus, i);
      var all := Frames(pdus);
      assert all[..Start(pdus, i)] == all[..Start(pdus, i + 1)][..Start(pdus, i)];
    } else {
      assert pdus[..i] == pdus;
    }
  }

  lemma FramesAppend(pdus: seq<seq<Byte>>, pdu: seq<Byte>)
    requires AllSendable(pdus) && Sendable(pdu)
    ensures AllSendable(pdus + [pdu]) && Frames(pdus + [pdu]) == Frames(pdus) + Frame(pdu)
    ensures forall i :: 0 <= i <= |pdus| ==> Start(pdus + [pdu], i) == Start(pdus, i)
  {
    assert (pdus + [pdu])[..|pdus|] == pdus;
    assert forall i :: 0 <= i <= |pdus| ==> (pdus + [pdu])[..i] == pdus[..i];
  }

  predicate IsPrefix(a: seq<Byte>, b: seq<Byte>) {
    |a| <= |b| && a == b[..|a|]
  }

  lemma SliceOfPrefix(a: seq<Byte>, b: seq<Byte>, from: nat, to: nat)
    requires IsPrefix(a, b) && from <= to <= |a|
    ensures a[from..to] == b[from..to]
  {
  }

  lemma SliceOfAppend(a: seq<Byte>, b: seq<Byte>, from: nat, to: nat)
    requires from <= to <= |b|
    ensures (a + b)[|a| + from..|a| + to] == b[from..to]
  {
  }

  /** What follows the first `i` frames in a prefix of the stream is a part of frame `i`. */
  lemma InsideFrame(pdus: seq<seq<Byte>>, stream: seq<Byte>, i: nat, from: nat, to: nat)
    requires AllSendable(pdus) && IsPrefix(stream, Frames(pdus)) && i <= |pdus|
    requires from <= to && Start(pdus, i) + to <= |stream| && to > 0
    ensures i < |pdus|
    ensures to <= |pdus[i]| ==> stream[Start(pdus, i) + from..Start(pdus, i) + to] == Frame(pdus[i])[from..to]
  {
    hide Frame, Frames;
    assert pdus[..|pdus|] == pdus;
    NextStart(pdus, i);
    FramesPrefix(pdus, i + 1);
    if to <= |pdus[i]| {
      var at, upto := Start(pdus, i), Frames(pdus[..i + 1]);
      SliceOfPrefix(stream, Frames(pdus), at + from, at + to);
      SliceOfPrefix(upto, Frames(pdus), at + from, at + to);
      SliceOfAppend(Frames(pdus[..i]), Frame(pdus[i]), from, to);
    }
  }

  /** The length field of a frame announces its size. */
  lemma FrameAnnounces(pdu: seq<Byte>)
    requires Sendable(pdu)
    ensures Announced(Frame(pdu)[..LENGTH_SIZE]) == |pdu|
  {
    assert Frame(pdu)[..LENGTH_SIZE] == BigEndian(|pdu|, LENGTH_SIZE);
    Powers();
    NumberRoundTrip(Reader(BigEndian(|pdu|, LENGTH_SIZE), 0, true), |pdu|, LENGTH_SIZE);
  }

  // ---------------------------------------------------------------- invariant

  /** The slot holds the packet that was begun last, and the stream ends with what was written of it. */
  predicate Sending(k: Link)
    requires k.out.Busy? && AllSendable(k.sent)
  {
    && |k.sent| > 0
    && var n := |k.sent| - 1; var pdu := k.sent[n];
       && |k.out.bytes| == |pdu| && k.out.bytes[LENGTH_SIZE..] == pdu[LENGTH_SIZE..]
       && k.out.solong <= |pdu| && (k.out.solong > 0 ==> k.out.bytes == Frame(pdu))
       && k.stream == Frames(k.sent[..n]) + Frame(pdu)[..k.out.solong]
  }

  predicate WriterInv(k: Link) {
    && AllSendable(k.sent)
    && IsPrefix(k.stream, Frames(k.sent))
    && |k.results| == (if k.out.Idle? then |k.sent| else |k.sent| - 1)
    && (k.out.Idle? && !k.writerDead ==> k.stream == Frames(k.sent))
    && (k.out.Busy? ==> Sending(k))
    && (k.out.Failed? ==> k.writerDead)
    && (forall i :: 0 <= i < |k.results| && k.results[i] ==> Start(k.sent, i + 1) <= |k.stream|)
  }

  predicate Consumed(k: Link) {
    && |k.consumed| <= |k.sent|
    && (forall i :: 0 <= i < |k.consumed| ==> |k.sent[i]| >= LENGTH_SIZE && k.consumed[i] == Frame(k.sent[i]))
  }

  /** The reader stands behind the packets that it has consumed and the part of the next that it holds. */
  predicate Reading(k: Link)
    requires AllSendable(k.sent) && |k.consumed| <= |k.sent|
  {
    var c := |k.consumed|;
    match k.got
    case Nothing => k.taken == Start(k.sent, c)
    case Partial(bytes, sz) =>
      && c < |k.sent| && sz == |k.sent[c]| && LENGTH_SIZE <= |bytes| <= sz
      && bytes == Frame(k.sent[c])[..|bytes|] && k.taken == Start(k.sent, c) + |bytes|
  }

  predicate ReaderInv(k: Link)
    requires AllSendable(k.sent)
  {
    && k.taken <= |k.stream|
    && Consumed(k)
    && (!k.readerDead ==> Reading(k))
  }

  predicate Inv(k: Link) {
    WriterInv(k) && ReaderInv(k)
  }

  /** More packets and more bytes at the end do not disturb the reader. */
  lemma ReaderUndisturbed(k: Link, k1: Link)
    requires AllSendable(k.sent) && ReaderInv(k)
    requires k1.sent == k.sent || (|k1.sent| == |k.sent| + 1 && k1.sent[..|k.sent|] == k.sent && Sendable(k1.sent[|k.sent|]))
    requires |k1.stream| >= |k.stream| && k1.taken == k.taken
    requires k1.readerDead == k.readerDead && k1.got == k.got && k1.consumed == k.consumed
    ensures AllSendable(k1.sent) && ReaderInv(k1)
  {
    if k1.sent != k.sent {
      FramesAppend(k.sent, k1.sent[|k.sent|]);
      assert k1.sent == k.sent + [k1.sent[|k.sent|]];
    }
  }

  lemma FrameOfFrame(a: seq<Byte>, pdu: seq<Byte>)
    requires |a| == |pdu| >= LENGTH_SIZE && a[LENGTH_SIZE..] == pdu[LENGTH_SIZE..]
    ensures Frame(a) == Frame(pdu)
    ensures Frame(a)[LENGTH_SIZE..] == pdu[LENGTH_SIZE..]
  {
  }

  /** Writing `n` more bytes of a frame behind others. */
  lemma MoreOfFrame(before: seq<Byte>, f: seq<Byte>, i: nat, n: nat)
    requires i + n <= |f|
    ensures (before + f[..i]) + f[i..i + n] == before + f[..i + n]
    ensures IsPrefix(before + f[..i], before + f)
  {
  }

  /** What one write does, in terms of the frame. */
  lemma WritePduWrites(out: Out, w: WriteResult, f: seq<Byte>)
    requires CanWrite(out, w) && |f| == |out.bytes| && f == (if out.solong == 0 then Frame(out.bytes) else out.bytes)
    ensures var n := if out.solong < |f| && w.Wrote? then w.n else 0;
      && WritePdu(out, w).2 == f[out.solong..out.solong + n]
      && (if WritePdu(out, w).1 then WritePdu(out, w).0.Busy? && WritePdu(out, w).0.solong == out.solong + n
            && WritePdu(out, w).0.bytes == (if out.solong < |f| then f else out.bytes)
          else WritePdu(out, w).0.Failed?)
  {
    hide Frame;
  }

  /** A write keeps the slot in step with the stream, or kills the writer. */
  lemma WriteKeepsSending(k: Link, w: WriteResult)
    requires AllSendable(k.sent) && CanWrite(k.out, w) && Sending(k)
    ensures IsPrefix(k.stream + WritePdu(k.out, w).2, Frames(k.sent))
    ensures !WritePdu(k.out, w).1 ==> WritePdu(k.out, w).0.Failed?
    ensures WritePdu(k.out, w).1 ==>
      WritePdu(k.out, w).0.Busy? && Sending(k.(out := WritePdu(k.out, w).0, stream := k.stream + WritePdu(k.out, w).2))
  {
    var n := |k.sent| - 1;
    var f, before := Frame(k.sent[n]), Frames(k.sent[..n]);
    FrameOfFrame(k.out.bytes, k.sent[n]);
    NextStart(k.sent, n);
    assert k.sent[..n + 1] == k.sent;
    hide Frame, Frames;
    WritePduWrites(k.out, w, f);
    hide WritePdu;
    var written := if k.out.solong < |f| && w.Wrote? then w.n else 0;
    MoreOfFrame(before, f, k.out.solong, written);
    MoreOfFrame(before, f, k.out.solong + written, 0);
  }

  /** The packet in the slot, before anything of it is written. */
  lemma SlotTaken(k: Link, pdu: seq<Byte>)
    requires Inv(k) && !k.writerDead && k.out.Idle? && Sendable(pdu)
    ensures Inv(k.(sent := k.sent + [pdu], out := Busy(pdu, 0)))
  {
    hide ReaderInv;
    var k1 := k.(sent := k.sent + [pdu], out := Busy(pdu, 0));
    assert k1.sent[..|k.sent|] == k.sent;
    ReaderUndisturbed(k, k1);
    FramesAppend(k.sent, pdu);
    hide Frames, Frame;
    assert Frame(pdu)[..0] == [];
  }

  lemma KeepWrite(k: Link, w: WriteResult)
    requires Inv(k) && Enabled(k, WriteCallback(w))
    ensures Inv(AfterWrite(k, w))
  {
    WriteKeepsSending(k, w);
    ReaderUndisturbed(k, AfterWrite(k, w));
  }

  lemma KeepFinish(k: Link)
    requires Inv(k) && Enabled(k, FinishSend)
    ensures Inv(AfterFinish(k))
  {
    assert k.sent[..|k.sent|] == k.sent;
  }

  /** Beginning a send is taking the slot, writing, and finishing if everything went out. */
  lemma KeepStart(k: Link, pdu: seq<Byte>, w: WriteResult)
    requires Inv(k) && Enabled(k, StartSend(pdu, w))
    ensures Inv(AfterStart(k, pdu, w))
  {
    var k1 := k.(sent := k.sent + [pdu], out := Busy(pdu, 0));
    SlotTaken(k, pdu);
    hide Inv;
    KeepWrite(k1, w);
    var k2 := AfterWrite(k1, w);
    if k2.out.Busy? && k2.out.solong == |k2.out.bytes| {
      KeepFinish(k2);
    }
  }

  /** The length field is read at the start of a frame. */
  lemma HeaderIsNext(k: Link, h: nat)
    requires Inv(k) && !k.readerDead && k.got.Nothing? && h == LENGTH_SIZE && k.taken + h <= |k.stream|
    ensures var header := HeaderInput(k, h).bytes; var c := |k.consumed|;
      c < |k.sent| && header == Frame(k.sent[c])[..h] && Announced(header) == |k.sent[c]|
  {
    hide Frame, Frames, Announced;
    InsideFrame(k.sent, k.stream, |k.consumed|, 0, h);
    FrameAnnounces(k.sent[|k.consumed|]);
  }

  /** The bytes of a body continue the frame. */
  lemma BodyIsNext(k: Link, n: nat, b: nat)
    requires Inv(k) && |k.consumed| < |k.sent| && n + b <= |k.sent[|k.consumed|]|
    requires n > 0 && Start(k.sent, |k.consumed|) + n + b <= |k.stream|
    ensures var at := Start(k.sent, |k.consumed|) + n; var f := Frame(k.sent[|k.consumed|]);
      f[..n] + k.stream[at..at + b] == f[..n + b]
  {
    hide Frame, Frames;
    InsideFrame(k.sent, k.stream, |k.consumed|, n, n + b);
    var f := Frame(k.sent[|k.consumed|]);
    assert f[..n] + f[n..n + b] == f[..n + b];
  }

  predicate SameWriter(k: Link, k1: Link) {
    && k1.writerDead == k.writerDead && k1.out == k.out && k1.sent == k.sent
    && k1.results == k.results && k1.stream == k.stream
  }

  lemma WriterUndisturbed(k: Link, k1: Link)
    requires WriterInv(k) && SameWriter(k, k1)
    ensures WriterInv(k1)
  {
  }

  /** A body read behind a header or behind an earlier part. */
  lemma KeepBody(k: Link, b: nat, again: bool)
    requires Inv(k) && !k.readerDead && k.got.Partial? && CanRead(k, 0, b)
    ensures Inv(AfterRead(k, 0, b, again))
  {
    BodyIsNext(k, |k.got.bytes|, b);
    var k1 := AfterRead(k, 0, b, again);
    WriterUndisturbed(k, k1);
    hide Frame, Frames, WriterInv;
  }

  /** The state between the two reads. */
  lemma KeepLength(k: Link)
    requires Inv(k) && !k.readerDead && k.got.Nothing? && k.taken + LENGTH_SIZE <= |k.stream|
    ensures var header := HeaderInput(k, LENGTH_SIZE).bytes;
      Inv(k.(got := Partial(header, Announced(header)), taken := k.taken + LENGTH_SIZE))
  {
    HeaderIsNext(k, LENGTH_SIZE);
    var header := HeaderInput(k, LENGTH_SIZE).bytes;
    var mid := k.(got := Partial(header, Announced(header)), taken := k.taken + LENGTH_SIZE);
    WriterUndisturbed(k, mid);
    assert AllSendable(k.sent);
    hide Frame, Frames, Announced, WriterInv;
  }

  /** Reading a header and a body is reading the header first and then the body. */
  lemma KeepHeader(k: Link, b: nat, again: bool)
    requires Inv(k) && !k.readerDead && k.got.Nothing? && CanRead(k, LENGTH_SIZE, b)
    ensures Inv(AfterRead(k, LENGTH_SIZE, b, again))
  {
    HeaderIsNext(k, LENGTH_SIZE);
    KeepLength(k);
    var header := HeaderInput(k, LENGTH_SIZE).bytes;
    var mid := k.(got := Partial(header, Announced(header)), taken := k.taken + LENGTH_SIZE);
    assert Sendable(k.sent[|k.consumed|]);
    hide Inv, Frame, Frames, Announced;
    assert AfterRead(k, LENGTH_SIZE, b, again) == AfterRead(mid, 0, b, again);
    KeepBody(mid, b, again);
  }

  lemma KeepRead(k: Link, h: nat, b: nat, again: bool)
    requires Inv(k) && !k.readerDead && CanRead(k, h, b)
    ensures Inv(AfterRead(k, h, b, again))
  {
    if k.got.Partial? {
      KeepBody(k, b, again);
    } else if h == LENGTH_SIZE {
      KeepHeader(k, b, again);
    } else {
      WriterUndisturbed(k, AfterRead(k, h, b, again));
      hide WriterInv;
    }
  }

  lemma KeepOffer(k: Link, accept: bool)
    requires Inv(k) && !k.readerDead
    ensures Inv(Offer(k, accept))
  {
    WriterUndisturbed(k, Offer(k, accept));
    assert AllSendable(k.sent) && ReaderInv(k);
    hide WriterInv, ReaderInv;
    if Full(k.got) && accept {
      KeepAccepted(k);
    }
  }

  lemma KeepAccepted(k: Link)
    requires AllSendable(k.sent) && ReaderInv(k) && !k.readerDead && Full(k.got)
    ensures ReaderInv(k.(got := Nothing, consumed := k.consumed + [k.got.bytes]))
  {
    NextStart(k.sent, |k.consumed|);
    hide Frames, Frame, Start;
    var f := Frame(k.sent[|k.consumed|]);
    assert f[..|f|] == f;
  }

  lemma KeepKill(k: Link)
    requires Inv(k)
    ensures Inv(k.(writerDead := true)) && Inv(k.(readerDead := true))
  {
    WriterUndisturbed(k, k.(readerDead := true));
    ReaderUndisturbed(k, k.(writerDead := true));
  }

  lemma KeepReadCallback(k: Link, h: nat, b: nat, again: bool, accept: bool)
    requires Inv(k) && Enabled(k, ReadCallback(h, b, again, accept))
    ensures Inv(Apply(k, ReadCallback(h, b, again, accept)))
  {
    if Full(k.got) {
      KeepOffer(k, accept);
    } else {
      KeepRead(k, h, b, again);
      hide Inv;
      if !AfterRead(k, h, b, again).readerDead {
        KeepOffer(AfterRead(k, h, b, again), accept);
      }
    }
  }

  lemma StepKeepsInv(k: Link, step: Step)
    requires Inv(k) && Enabled(k, step)
    ensures Inv(Apply(k, step))
  {
    hide Inv, AfterStart, AfterWrite, AfterFinish, AfterRead, Offer;
    match step
    case StartSend(pdu, w) => KeepStart(k, pdu, w);
    case WriteCallback(w) => KeepWrite(k, w);
    case FinishSend => KeepFinish(k);
    case KillWriter => KeepKill(k);
    case ReadCallback(h, b, again, accept) => KeepReadCallback(k, h, b, again, accept);
    case KillReader => KeepKill(k);
  }

  lemma {:induction false} RunKeepsInv(steps: seq<Step>)
    ensures Inv(Run(steps))
  {
    if steps != [] {
      var k, step := Run(steps[..|steps| - 1]), steps[|steps| - 1];
      RunKeepsInv(steps[..|steps| - 1]);
      if Enabled(k, step) {
        StepKeepsInv(k, step);
      }
    }
  }

  // ---------------------------------------------------------------- theorems

  /** Whatever the interleaving and whatever the splitting, the packets handed up are the first ones
      sent, in order, each once and each byte for byte with its length filled in. */
  lemma ConsumedIsPrefixOfSent(steps: seq<Step>)
    ensures var k := Run(steps);
      |k.consumed| <= |k.sent|
      && forall i :: 0 <= i < |k.consumed| ==> Sendable(k.sent[i]) && k.consumed[i] == Frame(k.sent[i])
  {
    RunKeepsInv(steps);
  }

  /** Frames are never interleaved in the stream, and a packet whose `send` returned true is in it
      from its first byte to its last. */
  lemma SuccessfulSendIsInStream(steps: seq<Step>, i: nat)
    requires i < |Run(steps).results| && Run(steps).results[i]
    ensures var k := Run(steps);
      && i < |k.sent| && AllSendable(k.sent) && Start(k.sent, i) + |k.sent[i]| <= |k.stream|
      && k.stream[Start(k.sent, i)..Start(k.sent, i) + |k.sent[i]|] == Frame(k.sent[i])
  {
    RunKeepsInv(steps);
    var k := Run(steps);
    hide Run, Frame, Frames;
    NextStart(k.sent, i);
    InsideFrame(k.sent, k.stream, i, 0, |k.sent[i]|);
  }

  lemma StartsIncrease(pdus: seq<seq<Byte>>, i: nat)
    requires AllSendable(pdus) && i < |pdus|
    ensures Start(pdus, i) < |Frames(pdus)|
  {
    NextStart(pdus, i);
    FramesPrefix(pdus, i + 1);
  }

  /** Nothing is lost on a connection that stays up: once no send is under way and the reader has
      taken every byte and has no packet left to offer, every packet sent has been consumed. */
  lemma QuietLinkLostNothing(steps: seq<Step>)
    requires var k := Run(steps);
      !k.writerDead && !k.readerDead && k.out.Idle? && k.got.Nothing? && k.taken == |k.stream|
    ensures var k := Run(steps);
      |k.consumed| == |k.sent|
  {
    RunKeepsInv(steps);
    var k := Run(steps);
    if |k.consumed| < |k.sent| {
      StartsIncrease(k.sent, |k.consumed|);
    }
  }
}
