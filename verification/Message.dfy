/** Whole messages: the growing buffer that a message is written into, the cursor that reads it, and
    the header that is packed in front of a body that is already there. */
module Message {
  import opened Wire
  import opened Codec

  /** Four bytes for the length of the packet and five numbers of four bytes each. */
  const HEADER_SIZE := 24
  const DEFAULT_SIZE := 1024

  // ---------------------------------------------------------------- sequences of values

  datatype Item = Item(kind: Type, value: Value)

  predicate WellTyped(items: seq<Item>) {
    forall i :: 0 <= i < |items| ==> HasType(items[i].value, items[i].kind)
  }

  /** The bytes of several values, written one after the other. */
  function Body(items: seq<Item>): seq<Byte>
    requires WellTyped(items)
  {
    if items == [] then [] else Encode(items[0].value, items[0].kind) + Body(items[1..])
  }

  /** Reading values of the given types, one after the other. */
  function ReadItems(kinds: seq<Type>, r: Reader): (res: (seq<Value>, Reader))
    ensures res.1.buf == r.buf && res.1.ind >= r.ind && (!r.ok ==> !res.1.ok)
  {
    if kinds == [] then ([], r)
    else
      var (v, r1) := Decode(kinds[0], r);
      var (vs, r2) := ReadItems(kinds[1..], r1);
      ([v] + vs, r2)
  }

  function Kinds(items: seq<Item>): (kinds: seq<Type>)
    ensures |kinds| == |items|
  {
    if items == [] then [] else [items[0].kind] + Kinds(items[1..])
  }

  function Values(items: seq<Item>): (values: seq<Value>)
    ensures |values| == |items|
  {
    if items == [] then [] else [items[0].value] + Values(items[1..])
  }

  predicate Complete(r: Reader) {
    r.ok && r.ind == |r.buf|
  }

  /** What was written is read back, value for value. */
  lemma {:induction false} ItemsRoundTrip(items: seq<Item>, r: Reader)
    requires WellTyped(items) && At(r, Body(items)) && |r.buf| < BUFFER_LIMIT
    ensures ReadItems(Kinds(items), r) == (Values(items), Skip(r, |Body(items)|))
  {
    if items != [] {
      var first := Encode(items[0].value, items[0].kind);
      AtSplit(r, first, Body(items[1..]));
      RoundTrip(items[0].value, items[0].kind, r);
      ItemsRoundTrip(items[1..], Skip(r, |first|));
      assert Kinds(items)[1..] == Kinds(items[1..]);
    }
  }

  /** A buffer that ends early is noticed. */
  lemma {:induction false} ItemsPrefixFails(items: seq<Item>, r: Reader)
    requires WellTyped(items) && Cut(r, Body(items)) && |Body(items)| < BUFFER_LIMIT && |r.buf| < BUFFER_LIMIT
    ensures !ReadItems(Kinds(items), r).1.ok
  {
    var first := Encode(items[0].value, items[0].kind);
    assert Kinds(items)[0] == items[0].kind && Kinds(items)[1..] == Kinds(items[1..]);
    if r.ok {
      CutSplit(r, first, Body(items[1..]));
      if Cut(r, first) {
        PrefixFails(items[0].value, items[0].kind, r);
      } else {
        RoundTrip(items[0].value, items[0].kind, r);
        ItemsPrefixFails(items[1..], Skip(r, |first|));
      }
    }
  }

  // ---------------------------------------------------------------- headers

  type Int32 = x: int | -0x8000_0000 <= x < 0x8000_0000
  type UInt32 = x: int | 0 <= x < 0x1_0000_0000

  datatype RequestHeader = RequestHeader(xid: Int32, proc: Int32, cltNonce: UInt32, srvNonce: UInt32, xidRep: Int32)

  datatype ReplyHeader = ReplyHeader(xid: Int32, ret: Int32)

  /** A header is written like nested pairs of numbers, without anything in between. */
  function RequestType(): Type {
    TPair(TI32, TPair(TI32, TPair(TU32, TPair(TU32, TI32))))
  }

  function RequestValue(h: RequestHeader): (v: Value)
    ensures HasType(v, RequestType())
  {
    Powers();
    Pair(Num(h.xid), Pair(Num(h.proc), Pair(Num(h.cltNonce), Pair(Num(h.srvNonce), Num(h.xidRep)))))
  }

  function ReplyType(): Type {
    TPair(TI32, TI32)
  }

  function ReplyValue(h: ReplyHeader): (v: Value)
    ensures HasType(v, ReplyType())
  {
    Pair(Num(h.xid), Num(h.ret))
  }

  function UnpackHeader(t: Type, r: Reader): (Value, Reader) {
    var (v, r1) := Decode(t, r.(ind := LENGTH_SIZE));
    (v, r1.(ind := HEADER_SIZE))
  }

  /** The four bytes in front of a header are left to the connection, and a short header leaves bytes
      behind it that nobody reads; `gap` stands for those. */
  function Packet(length: seq<Byte>, header: Item, gap: seq<Byte>, body: seq<Item>): seq<Byte>
    requires HasType(header.value, header.kind) && WellTyped(body)
  {
    length + (Encode(header.value, header.kind) + (gap + Body(body)))
  }

  /** Unpacking the header and then the values of a packet gives back what was packed, ends exactly
      at the end of the buffer, and does so whatever the connection put into the length field. */
  lemma PacketRoundTrip(length: seq<Byte>, header: Item, gap: seq<Byte>, body: seq<Item>)
    requires HasType(header.value, header.kind) && WellTyped(body)
    requires |length| == LENGTH_SIZE && |length| + |Encode(header.value, header.kind)| + |gap| == HEADER_SIZE
    requires |Packet(length, header, gap, body)| < BUFFER_LIMIT
    ensures var (h, r) := UnpackHeader(header.kind, Reader(Packet(length, header, gap, body), 0, true));
      var (vs, last) := ReadItems(Kinds(body), r);
      h == header.value && vs == Values(body) && Complete(last)
  {
    var p := Packet(length, header, gap, body);
    var r := Reader(p, LENGTH_SIZE, true);
    assert p[LENGTH_SIZE..] == Encode(header.value, header.kind) + (gap + Body(body));
    assert At(r, Encode(header.value, header.kind) + (gap + Body(body)));
    AtSplit(r, Encode(header.value, header.kind), gap + Body(body));
    RoundTrip(header.value, header.kind, r);
    AtSplit(Skip(r, |Encode(header.value, header.kind)|), gap, Body(body));
    ItemsRoundTrip(body, Reader(p, HEADER_SIZE, true));
  }

  /** Cut anywhere, inside the length, the header or the body, the same reads leave the reader not ok;
      only a body of no bytes has no cut that counts. */
  lemma PacketPrefixFails(length: seq<Byte>, header: Item, gap: seq<Byte>, body: seq<Item>, n: nat)
    requires HasType(header.value, header.kind) && WellTyped(body)
    requires |length| == LENGTH_SIZE && |length| + |Encode(header.value, header.kind)| + |gap| == HEADER_SIZE
    requires n < |Packet(length, header, gap, body)| < BUFFER_LIMIT
    ensures var r := UnpackHeader(header.kind, Reader(Packet(length, header, gap, body)[..n], 0, true)).1;
      !Complete(ReadItems(Kinds(body), r).1)
  {
    var p := Packet(length, header, gap, body);
    var h := UnpackHeader(header.kind, Reader(p[..n], 0, true)).1;
    assert h.buf == p[..n] && h.ind == HEADER_SIZE;
    if h.ok && n >= HEADER_SIZE {
      assert p[HEADER_SIZE..] == Body(body);
      assert h.buf[h.ind..] == Body(body)[..n - HEADER_SIZE];
      ItemsPrefixFails(body, h);
    }
  }

  // ---------------------------------------------------------------- the bytes on the wire

  /** A number of each width and of each sign, byte by byte. */
  lemma WireFormat(n: int, t: Type)
    requires IsNumber(t) && HasType(Num(n), t)
    ensures t == TBool || t == TU8 ==> Encode(Num(n), t) == [n % 0x100]
    ensures t == TU16 ==> Encode(Num(n), t) == [n / 0x100 % 0x100, n % 0x100]
    ensures t == TU32 ==> Encode(Num(n), t) == [n / 0x100_0000 % 0x100, n / 0x1_0000 % 0x100, n / 0x100 % 0x100, n % 0x100]
    ensures t == TU64 ==> Encode(Num(n), t) == BigEndian(n / 0x1_0000_0000, 4) + BigEndian(n, 4)
    ensures t == TI8 ==> Encode(Num(n), t) == BigEndian(if n < 0 then n + 0x100 else n, 1)
    ensures t == TI16 ==> Encode(Num(n), t) == BigEndian(if n < 0 then n + 0x1_0000 else n, 2)
    ensures t == TI32 ==> Encode(Num(n), t) == BigEndian(if n < 0 then n + 0x1_0000_0000 else n, 4)
  {
    Powers();
    var x := ToBits(n, t);
    ShortDigits(x);
    IntDigits(x);
    LongDigits(x);
    assert BigEndian(x, 1) == BigEndian(x / 0x100, 0) + [x % 0x100];
    hide BigEndian, Pow256;
  }

  // ---------------------------------------------------------------- the buffer of the writer

  function Max(a: int, b: int): int { if a >= b then a else b }

  lemma ShortDigits(x: nat)
    ensures BigEndian(x, 2) == [x / 0x100 % 0x100, x % 0x100]
  {
    assert BigEndian(x, 2) == BigEndian(x / 256, 1) + [x % 256];
    assert BigEndian(x / 256, 1) == BigEndian(x / 256 / 256, 0) + [x / 256 % 256];
  }

  lemma Quotients(x: nat)
    ensures x / 256 / 256 == x / 0x1_0000 && x / 256 / 256 / 0x100 == x / 0x100_0000
  {
  }

  lemma IntDigits(x: nat)
    ensures BigEndian(x, 4) == [x / 0x100_0000 % 0x100, x / 0x1_0000 % 0x100, x / 0x100 % 0x100, x % 0x100]
  {
    assert BigEndian(x, 4) == BigEndian(x / 256, 3) + [x % 256];
    assert BigEndian(x / 256, 3) == BigEndian(x / 256 / 256, 2) + [x / 256 % 256];
    ShortDigits(x / 256 / 256);
    hide BigEndian;
    Quotients(x);
  }

  lemma LongDigits(x: nat)
    ensures BigEndian(x, 8) == BigEndian(x / 0x1_0000_0000, 4) + BigEndian(x, 4)
  {
    IntDigits(x);
    var y := x / 0x1_0000_0000;
    assert y == x / 256 / 256 / 256 / 256;
    assert BigEndian(x, 8) == BigEndian(x / 256, 7) + [x % 256];
    assert BigEndian(x / 256, 7) == BigEndian(x / 256 / 256, 6) + [x / 256 % 256];
    assert BigEndian(x / 256 / 256, 6) == BigEndian(x / 256 / 256 / 256, 5) + [x / 256 / 256 % 256];
    assert BigEndian(x / 256 / 256 / 256, 5) == BigEndian(y, 4) + [x / 256 / 256 / 256 % 256];
  }

  /** The writer: bytes go to the position `ind`, and the buffer grows when they do not fit. */
  class Marshall {
    var buf: array<Byte>
    var ind: nat

    /** The contents before the position, and a capacity that is never more than twice what was needed. */
    ghost predicate Valid()
      reads this
    {
      HEADER_SIZE <= ind <= buf.Length && DEFAULT_SIZE <= buf.Length <= Max(DEFAULT_SIZE, 2 * ind)
    }

    ghost function Bytes(): seq<Byte>
      requires ind <= buf.Length
      reads this, buf
    {
      buf[..ind]
    }

    /** What was written behind the header. */
    ghost function Content(): seq<Byte>
      requires Valid()
      reads this, buf
    {
      buf[HEADER_SIZE..ind]
    }

    constructor ()
      ensures Valid() && fresh(buf) && Content() == [] && ind == HEADER_SIZE
    {
      buf := new Byte[DEFAULT_SIZE];
      ind := HEADER_SIZE;
    }

    /** The buffer with room for `capacity` bytes; the old bytes stay at its start. */
    method Grow(capacity: nat)
      requires capacity >= buf.Length
      modifies this`buf
      ensures fresh(buf) && buf.Length == capacity
      ensures buf[..old(buf.Length)] == old(buf[..])
    {
      var next := new Byte[capacity];
      var i := 0;
      while i < buf.Length
        invariant i <= buf.Length && buf[..] == old(buf[..])
        invariant next[..i] == buf[..i]
      {
        next[i] := buf[i];
        i := i + 1;
      }
      buf := next;
    }

    /** One byte more; doubling the capacity makes room for it, and nothing else changes. */
    method RawByte(x: Byte)
      requires ind <= buf.Length && buf.Length > 0
      modifies this, buf
      ensures ind == old(ind) + 1 <= buf.Length && Bytes() == old(Bytes()) + [x]
      ensures old(ind) < old(buf.Length) ==> buf == old(buf) && forall k :: ind <= k < buf.Length ==> buf[k] == old(buf[k])
      ensures old(ind) == old(buf.Length) ==> fresh(buf) && buf.Length == 2 * old(ind)
    {
      if ind >= buf.Length {
        Grow(2 * buf.Length);
      }
      buf[ind] := x;
      ind := ind + 1;
    }

    /** The four bytes of the low 32 bits. With room for them the buffer stays, and so does everything behind them. */
    method Pack(x: nat)
      requires ind <= buf.Length && buf.Length >= DEFAULT_SIZE
      modifies this, buf
      ensures ind == old(ind) + 4 <= buf.Length && Bytes() == old(Bytes()) + BigEndian(x, 4)
      ensures old(ind) + 4 <= old(buf.Length) ==> buf == old(buf) && forall k :: ind <= k < buf.Length ==> buf[k] == old(buf[k])
      ensures buf == old(buf) || fresh(buf)
      ensures old(buf.Length) <= buf.Length <= Max(old(buf.Length), 2 * ind)
    {
      IntDigits(x);
      RawByte(x / 0x100_0000 % 0x100);
      RawByte(x / 0x1_0000 % 0x100);
      RawByte(x / 0x100 % 0x100);
      RawByte(x % 0x100);
    }

    /** A request header goes in front of a body that is there already: it fills the bytes between the
        length field and the body, and disturbs neither the body nor the size of the message. */
    method PackRequestHeader(h: RequestHeader)
      requires Valid()
      modifies this, buf
      ensures Valid() && buf == old(buf) && ind == old(ind) && Content() == old(Content())
      ensures buf[..HEADER_SIZE] == old(buf[..LENGTH_SIZE]) + Encode(RequestValue(h), RequestType())
    {
      hide Encode;
      ghost var was := buf[..];
      var saved := ind;
      ind := LENGTH_SIZE;
      PackRequestFields(h);
      ind := saved;
      assert buf[HEADER_SIZE..ind] == was[HEADER_SIZE..ind];
    }

    /** The five numbers, one after the other. */
    method PackRequestFields(h: RequestHeader)
      requires ind == LENGTH_SIZE && buf.Length >= DEFAULT_SIZE
      modifies this, buf
      ensures buf == old(buf) && ind == HEADER_SIZE
      ensures buf[..HEADER_SIZE] == old(buf[..LENGTH_SIZE]) + Encode(RequestValue(h), RequestType())
      ensures forall k :: HEADER_SIZE <= k < buf.Length ==> buf[k] == old(buf[k])
    {
      RequestHeaderBytes(h);
      hide BigEndian, Encode, ToBits;
      Pack(ToBits(h.xid, TI32));
      Pack(ToBits(h.proc, TI32));
      Pack(h.cltNonce);
      Pack(h.srvNonce);
      Pack(ToBits(h.xidRep, TI32));
    }

    /** The reply header is shorter; the bytes between it and the body stay as they were. */
    method PackReplyHeader(h: ReplyHeader)
      requires Valid()
      modifies this, buf
      ensures Valid() && buf == old(buf) && ind == old(ind) && Content() == old(Content())
      ensures buf[..HEADER_SIZE] == old(buf[..LENGTH_SIZE]) + Encode(ReplyValue(h), ReplyType()) + old(buf[LENGTH_SIZE + 8..HEADER_SIZE])
    {
      hide BigEndian, Encode, ToBits;
      ghost var was := buf[..];
      var saved := ind;
      ind := LENGTH_SIZE;
      Pack(ToBits(h.xid, TI32));
      Pack(ToBits(h.ret, TI32));
      ReplyHeaderBytes(h);
      ind := saved;
      assert buf[HEADER_SIZE..ind] == was[HEADER_SIZE..ind];
      assert buf[LENGTH_SIZE + 8..HEADER_SIZE] == was[LENGTH_SIZE + 8..HEADER_SIZE];
    }

    /** Several bytes at once; either way of growing makes room for all of them. */
    method RawBytes(p: seq<Byte>)
      requires Valid()
      modifies this, buf
      ensures Valid() && Bytes() == old(Bytes()) + p
      ensures buf == old(buf) || fresh(buf)
    {
      if ind + |p| > buf.Length {
        Grow(if buf.Length > |p| then 2 * buf.Length else buf.Length + |p|);
        assert buf[..ind] == buf[..old(buf.Length)][..ind];
      }
      assert buf[..ind] == old(Bytes());
      CopyIn(p);
      ind := ind + |p|;
    }

    /** The bytes at the position, where there is room for them. */
    method CopyIn(p: seq<Byte>)
      requires ind + |p| <= buf.Length
      modifies buf
      ensures buf[..ind + |p|] == old(buf[..ind]) + p
    {
      forall i | 0 <= i < |p| {
        buf[ind + i] := p[i];
      }
    }

    /** A number of one, two, four or eight bytes, the most significant first. */
    method PutDigits(x: nat, w: nat)
      requires Valid() && w in {1, 2, 4, 8}
      modifies this, buf
      ensures Valid() && (buf == old(buf) || fresh(buf))
      ensures Bytes() == old(Bytes()) + BigEndian(x, w)
    {
      if w == 1 {
        assert BigEndian(x, 1) == BigEndian(x / 0x100, 0) + [x % 0x100];
        RawByte(x % 0x100);
      } else if w == 2 {
        ShortDigits(x);
        hide BigEndian;
        RawByte(x / 0x100 % 0x100);
        RawByte(x % 0x100);
      } else if w == 4 {
        hide BigEndian;
        Pack(x);
      } else {
        LongDigits(x);
        hide BigEndian;
        Pack(x / 0x1_0000_0000);
        Pack(x);
      }
    }

    /** Any value of any of the types. */
    method Put(v: Value, t: Type)
      requires Valid() && HasType(v, t)
      modifies this, buf
      ensures Valid() && (buf == old(buf) || fresh(buf))
      ensures Bytes() == old(Bytes()) + Encode(v, t)
      decreases t, 0
    {
      hide BigEndian, Pow256;
      match t {
        case TStr =>
          Pack(|v.s|);
          RawBytes(v.s);
        case TVec(e) =>
          PutCounted(v.elems, e);
        case TDict(e) =>
          PutCounted(v.elems, e);
        case TPair(k, w) =>
          Put(v.key, k);
          Put(v.val, w);
        case _ =>
          PutDigits(ToBits(v.n, t), Width(t));
      }
    }

    method PutCounted(vs: seq<Value>, t: Type)
      requires Valid() && AllHaveType(vs, t)
      modifies this, buf
      ensures Valid() && (buf == old(buf) || fresh(buf))
      ensures Bytes() == old(Bytes()) + (BigEndian(|vs|, 4) + EncodeAll(vs, t))
      decreases t, 2
    {
      hide BigEndian, Encode, EncodeAll, HasType;
      Pack(|vs|);
      PutAll(vs, t);
    }

    method PutAll(vs: seq<Value>, t: Type)
      requires Valid() && AllHaveType(vs, t)
      modifies this, buf
      ensures Valid() && (buf == old(buf) || fresh(buf))
      ensures Bytes() == old(Bytes()) + EncodeAll(vs, t)
      decreases t, 1
    {
      hide Encode, EncodeAll, HasType;
      NoneYet(t);
      var i := 0;
      while i < |vs|
        invariant i <= |vs| && Valid() && (buf == old(buf) || fresh(buf))
        invariant Bytes() == old(Bytes()) + EncodeAll(vs[..i], t)
      {
        OneMore(vs, i, t);
        Put(vs[i], t);
        i := i + 1;
      }
      assert vs[..i] == vs;
    }
  }

  lemma NoneYet(t: Type)
    ensures EncodeAll([], t) == []
  {
  }

  lemma OneMore(vs: seq<Value>, i: nat, t: Type)
    requires AllHaveType(vs, t) && i < |vs|
    ensures EncodeAll(vs[..i + 1], t) == EncodeAll(vs[..i], t) + Encode(vs[i], t)
  {
    assert vs[..i + 1][..i] == vs[..i];
  }

  lemma RequestHeaderBytes(h: RequestHeader)
    ensures Encode(RequestValue(h), RequestType()) ==
      BigEndian(ToBits(h.xid, TI32), 4) + BigEndian(ToBits(h.proc, TI32), 4) + BigEndian(h.cltNonce, 4)
      + BigEndian(h.srvNonce, 4) + BigEndian(ToBits(h.xidRep, TI32), 4)
  {
    hide BigEndian;
    var a, b := BigEndian(ToBits(h.xid, TI32), 4), BigEndian(ToBits(h.proc, TI32), 4);
    var c, d := BigEndian(h.cltNonce, 4), BigEndian(h.srvNonce, 4);
    var e := BigEndian(ToBits(h.xidRep, TI32), 4);
    assert Encode(RequestValue(h), RequestType()) == a + (b + (c + (d + e)));
    assert a + (b + (c + (d + e))) == a + b + c + d + e;
  }

  lemma ReplyHeaderBytes(h: ReplyHeader)
    ensures Encode(ReplyValue(h), ReplyType()) == BigEndian(ToBits(h.xid, TI32), 4) + BigEndian(ToBits(h.ret, TI32), 4)
  {
  }

  // ---------------------------------------------------------------- the cursor of the reader

  function FourDigits(a: int, b: int, c: int, d: int): int {
    a * 0x100_0000 + b * 0x1_0000 + c * 0x100 + d
  }

  /** One byte more at the end of a number. */
  lemma NextDigit(r: Reader, w: nat)
    ensures ReadNumber(r, w + 1).0 == 256 * ReadNumber(r, w).0 + RawByte(ReadNumber(r, w).1).0
    ensures ReadNumber(r, w + 1).1 == RawByte(ReadNumber(r, w).1).1
  {
  }

  lemma FourReads(r: Reader, r1: Reader, r2: Reader, r3: Reader)
    requires r1 == RawByte(r).1 && r2 == RawByte(r1).1 && r3 == RawByte(r2).1
    ensures ReadNumber(r, 4).0 == FourDigits(RawByte(r).0, RawByte(r1).0, RawByte(r2).0, RawByte(r3).0)
    ensures ReadNumber(r, 4).1 == RawByte(r3).1
  {
    assert ReadNumber(r, 0) == (0, r);
    hide ReadNumber, RawByte;
    TwoReads(r, 0);
    TwoReads(r, 2);
  }

  lemma TwoReads(r: Reader, w: nat)
    ensures ReadNumber(r, w + 2).0 ==
      0x1_0000 * ReadNumber(r, w).0 + 0x100 * RawByte(ReadNumber(r, w).1).0 + RawByte(RawByte(ReadNumber(r, w).1).1).0
    ensures ReadNumber(r, w + 2).1 == RawByte(RawByte(ReadNumber(r, w).1).1).1
  {
    hide RawByte, ReadNumber;
    NextDigit(r, w);
    NextDigit(r, w + 1);
  }

  /** Two numbers of four bytes are one of eight. */
  lemma EightReads(r: Reader)
    ensures var r1 := ReadNumber(r, 4).1;
      ReadNumber(r, 8) == (0x1_0000_0000 * ReadNumber(r, 4).0 + ReadNumber(r1, 4).0, ReadNumber(r1, 4).1)
  {
    var r1 := ReadNumber(r, 4).1;
    assert ReadNumber(r1, 0) == (0, r1);
    hide ReadNumber, RawByte;
    TwoReads(r1, 0);
    TwoReads(r1, 2);
    TwoReads(r, 4);
    TwoReads(r, 6);
  }

  lemma RequestDecodes(h: RequestHeader, r: Reader, r1: Reader, r2: Reader, r3: Reader, r5: Reader)
    requires Decode(TI32, r) == (Num(h.xid), r1) && Decode(TI32, r1) == (Num(h.proc), r2)
    requires Decode(TU32, r2) == (Num(h.cltNonce), r3) && Decode(TU32, r3).0 == Num(h.srvNonce)
    requires Decode(TI32, Decode(TU32, r3).1) == (Num(h.xidRep), r5)
    ensures Decode(RequestType(), r) == (RequestValue(h), r5)
  {
    hide ReadNumber, FromBits;
  }

  lemma NumberDecodes(t: Type, r: Reader)
    requires IsNumber(t)
    ensures Decode(t, r) == (Num(FromBits(ReadNumber(r, Width(t)).0, t)), ReadNumber(r, Width(t)).1)
  {
    hide ReadNumber, FromBits;
  }

  class Unmarshall {
    const buf: seq<Byte>
    var ind: nat
    var ok: bool
    ghost var stray: bool

    constructor (bytes: seq<Byte>)
      ensures State() == Reader(bytes, 0, true)
    {
      buf, ind, ok := bytes, 0, true;
      stray := false;
    }

    ghost function State(): Reader
      reads this
    {
      Reader(buf, ind, ok, stray)
    }

    method RawByte() returns (b: Byte)
      modifies this
      ensures (b, State()) == Codec.RawByte(old(State()))
    {
      b := 0;
      if ind >= |buf| {
        ok := false;
      } else {
        b := buf[ind];
        ind := ind + 1;
      }
    }

    method RawBytes(n: nat) returns (s: seq<Byte>)
      modifies this
      ensures (s, State()) == Codec.RawBytes(old(State()), n)
    {
      s := [];
      if (ind + n) % 0x1_0000_0000 > |buf| {
        ok := false;
      } else if ind + n <= |buf| {
        s := buf[ind..ind + n];
        ind := ind + n;
      } else {
        stray := true;
      }
    }

    method ReadInt() returns (x: nat)
      modifies this
      ensures (x, State()) == ReadNumber(old(State()), 4)
    {
      ghost var r := State();
      var a := RawByte();
      ghost var r1 := State();
      var b := RawByte();
      ghost var r2 := State();
      var c := RawByte();
      ghost var r3 := State();
      var d := RawByte();
      FourReads(r, r1, r2, r3);
      hide ReadNumber;
      x := FourDigits(a, b, c, d);
    }

    method GetNumber(t: Type) returns (v: Value)
      requires IsNumber(t)
      modifies this
      ensures (v, State()) == Decode(t, old(State()))
    {
      NumberDecodes(t, State());
      hide Decode, ReadNumber, FromBits;
      var bits := GetDigits(Width(t));
      v := Num(FromBits(bits, t));
    }

    /** One, two, four or eight bytes as one number. */
    method GetDigits(w: nat) returns (x: nat)
      requires w in {1, 2, 4, 8}
      modifies this
      ensures (x, State()) == ReadNumber(old(State()), w)
    {
      ghost var r := State();
      if w == 1 {
        assert ReadNumber(r, 0) == (0, r);
        x := RawByte();
      } else if w == 2 {
        assert ReadNumber(r, 0) == (0, r);
        assert ReadNumber(r, 1) == Codec.RawByte(r);
        var a: int := RawByte();
        var b: int := RawByte();
        x := a * 0x100 + b;
      } else if w == 4 {
        x := ReadInt();
      } else {
        EightReads(r);
        hide ReadNumber;
        var h := ReadInt();
        var l := ReadInt();
        x := l + h * 0x1_0000_0000;
      }
    }

    method Get(t: Type) returns (v: Value)
      modifies this
      ensures (v, State()) == Decode(t, old(State()))
      decreases t, 0
    {
      match t {
        case TStr =>
          var n := ReadInt();
          v := Str([]);
          if ok {
            var s := RawBytes(n);
            v := Str(s);
          }
        case TVec(e) =>
          var n := ReadInt();
          var vs := GetAll(e, n);
          v := Vec(vs);
        case TDict(e) =>
          var n := ReadInt();
          var es := GetEntries(e, n);
          v := Dict(es);
        case TPair(k, w) =>
          var a := Get(k);
          var b := Get(w);
          v := Pair(a, b);
        case _ =>
          v := GetNumber(t);
      }
    }

    method GetAll(t: Type, n: nat) returns (vs: seq<Value>)
      modifies this
      ensures (vs, State()) == DecodeAll(t, n, old(State()))
      decreases t, 1
    {
      vs := [];
      for i := 0 to n
        invariant (vs, State()) == DecodeAll(t, i, old(State()))
      {
        var v := Get(t);
        vs := vs + [v];
      }
    }

    /** Entries are stored one by one; a key that comes again replaces its value. */
    method GetEntries(t: Type, n: nat) returns (es: seq<Value>)
      modifies this
      ensures var (all, r) := DecodeAll(t, n, old(State())); es == Merge(all) && State() == r
      decreases t, 1
    {
      es := [];
      ghost var all := [];
      for i := 0 to n
        invariant (all, State()) == DecodeAll(t, i, old(State())) && es == Merge(all)
      {
        var v := Get(t);
        assert (all + [v])[..|all|] == all;
        all := all + [v];
        es := Codec.Put(es, v);
      }
    }

    method OkDone() returns (done: bool)
      ensures done == Complete(State())
    {
      done := ok && ind == |buf|;
    }

    method Unpack() returns (n: Int32)
      modifies this
      ensures (Num(n), State()) == Decode(TI32, old(State()))
    {
      Powers();
      NumberBound(State(), 4);
      var x := ReadInt();
      n := FromBits(x, TI32);
    }

    method UnpackUnsigned() returns (n: UInt32)
      modifies this
      ensures (Num(n), State()) == Decode(TU32, old(State()))
    {
      Powers();
      NumberBound(State(), 4);
      n := ReadInt();
    }

    method UnpackRequestHeader() returns (h: RequestHeader)
      modifies this
      ensures (RequestValue(h), State()) == UnpackHeader(RequestType(), old(State()))
    {
      hide Decode;
      ind := LENGTH_SIZE;
      ghost var r := State();
      var xid := Unpack();
      ghost var r1 := State();
      var proc := Unpack();
      ghost var r2 := State();
      var clt := UnpackUnsigned();
      ghost var r3 := State();
      var srv := UnpackUnsigned();
      var rep := Unpack();
      h := RequestHeader(xid, proc, clt, srv, rep);
      RequestDecodes(h, r, r1, r2, r3, State());
      ind := HEADER_SIZE;
    }

    method UnpackReplyHeader() returns (h: ReplyHeader)
      modifies this
      ensures (ReplyValue(h), State()) == UnpackHeader(ReplyType(), old(State()))
    {
      ind := LENGTH_SIZE;
      var xid := Unpack();
      var ret := Unpack();
      h := ReplyHeader(xid, ret);
      ind := HEADER_SIZE;
    }
  }
}
