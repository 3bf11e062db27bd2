/** The connection as an object: each method is a section of `connection` that holds the lock, and is
    proved to do to its own fields what the step of the same name does to the link. */
module ConnectionModule {
  import opened Wire
  import opened Codec
  import opened RpcTypes
  import opened Framing

  class Connection {
    var dead: bool
    var wpdu: Out
    var rpdu: In

    constructor ()
      ensures !dead && wpdu == Idle && rpdu == Nothing
    {
      dead, wpdu, rpdu := false, Idle, Nothing;
    }

    /** This object is the writing end of the link. */
    ghost predicate WriterOf(k: Link)
      reads this
    {
      dead == k.writerDead && wpdu == k.out
    }

    /** This object is the reading end of the link. */
    ghost predicate ReaderOf(k: Link)
      reads this
    {
      dead == k.readerDead && rpdu == k.got
    }

    method WritePdu(w: WriteResult) returns (ok: bool, bytes: seq<Byte>)
      requires CanWrite(wpdu, w)
      modifies this`wpdu
      ensures (wpdu, ok, bytes) == Framing.WritePdu(old(wpdu), w)
    {
      if wpdu.solong == |wpdu.bytes| {
        return true, [];
      }
      if wpdu.solong == 0 {
        wpdu := wpdu.(bytes := BigEndian(|wpdu.bytes|, LENGTH_SIZE) + wpdu.bytes[LENGTH_SIZE..]);
      }
      match w {
        case NotWritten(again) =>
          if !again {
            wpdu := Failed;
          }
          return again, [];
        case Wrote(n) =>
          bytes := wpdu.bytes[wpdu.solong..wpdu.solong + n];
          wpdu := wpdu.(solong := wpdu.solong + n);
          return true, bytes;
      }
    }

    /** The first part of `send`, from the point where it has the slot or finds the connection dead, up to
        the point where it returns or waits for the rest to go out. */
    method StartSend(ghost k: Link, pdu: seq<Byte>, w: WriteResult) returns (refused: bool, done: bool, bytes: seq<Byte>)
      requires WriterOf(k) && (dead || Enabled(k, Step.StartSend(pdu, w)))
      modifies this
      ensures rpdu == old(rpdu) && refused == k.writerDead
      ensures refused ==> WriterOf(k) && !done && bytes == []
      ensures !refused ==> WriterOf(AfterStart(k, pdu, w)) && AfterStart(k, pdu, w).stream == k.stream + bytes
      ensures !refused ==> AfterStart(k, pdu, w).results == if done then k.results + [true] else k.results
    {
      refused := dead;
      if dead {
        return true, false, [];
      }
      wpdu := Busy(pdu, 0);
      var ok;
      ok, bytes := WritePdu(w);
      done := false;
      if !ok {
        dead := true;
      } else if wpdu.solong == |wpdu.bytes| {
        wpdu := Idle;
        done := true;
      }
    }

    /** The last part of `send`: the answer, and the slot free for the next sender. */
    method FinishSend(ghost k: Link) returns (ret: bool)
      requires WriterOf(k) && Enabled(k, Step.FinishSend)
      modifies this`wpdu
      ensures WriterOf(AfterFinish(k)) && AfterFinish(k).results == k.results + [ret]
    {
      ret := !dead && wpdu.Busy? && wpdu.solong == |wpdu.bytes|;
      wpdu := Idle;
    }

    /** The socket can take more bytes; with an empty slot there is nothing to do. */
    method WriteCallback(ghost k: Link, w: WriteResult) returns (bytes: seq<Byte>)
      requires WriterOf(k) && !dead && (wpdu.Idle? || CanWrite(wpdu, w))
      modifies this
      ensures rpdu == old(rpdu)
      ensures k.out.Idle? ==> WriterOf(k) && bytes == []
      ensures !k.out.Idle? ==> WriterOf(AfterWrite(k, w)) && AfterWrite(k, w).stream == k.stream + bytes
    {
      if wpdu.Idle? {
        return [];
      }
      var ok;
      ok, bytes := WritePdu(w);
      if !ok {
        dead := true;
      }
    }

    method ReadPdu(header: ReadResult, body: ReadResult) returns (ok: bool)
      modifies this`rpdu
      ensures (rpdu, ok) == Framing.ReadPdu(old(rpdu), header, body)
    {
      if rpdu.Nothing? {
        if |header.bytes| != LENGTH_SIZE {
          return false;
        }
        var sz := Announced(header.bytes);
        if sz > MAX_PDU {
          return false;
        }
        rpdu := Partial(header.bytes, sz);
      }
      if body.bytes == [] {
        if !body.again {
          rpdu := Nothing;
        }
        return body.again;
      }
      rpdu := rpdu.(bytes := rpdu.bytes + body.bytes);
      return true;
    }

    /** The socket has bytes: reads unless a packet waits already, and offers a full packet. */
    method ReadCallback(ghost k: Link, h: nat, b: nat, header: ReadResult, body: ReadResult, accept: bool)
      returns (offered: Option<seq<Byte>>)
      requires ReaderOf(k) && Enabled(k, Step.ReadCallback(h, b, body.again, accept))
      requires !Full(rpdu) ==> header == HeaderInput(k, h) && body == BodyInput(k, h, b, body.again)
      modifies this
      ensures var k1 := Apply(k, Step.ReadCallback(h, b, body.again, accept));
        ReaderOf(k1) && wpdu == old(wpdu)
        && k1.consumed == if offered.Some? && accept then k.consumed + [offered.value] else k.consumed
      ensures var got := if Full(old(rpdu)) then old(rpdu) else Framing.ReadPdu(old(rpdu), header, body).0;
        offered == if got.Partial? && |got.bytes| == got.sz then Some(got.bytes) else None
    {
      var ok := true;
      if !(rpdu.Partial? && |rpdu.bytes| == rpdu.sz) {
        ok := ReadPdu(header, body);
      }
      if !ok {
        dead := true;
      }
      offered := None;
      if rpdu.Partial? && |rpdu.bytes| == rpdu.sz {
        offered := Some(rpdu.bytes);
        if accept {
          rpdu := Nothing;
        }
      }
    }
  }
}
