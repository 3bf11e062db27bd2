/** Marshalling: every value is written in network byte order, and read back with a cursor that
    remembers whether it ever ran past the end. */
module Codec {
  import opened Wire

  /** The types that the marshalling operators cover. */
  datatype Type =
    | TBool | TU8 | TI8 | TU16 | TI16 | TU32 | TI32 | TU64
    | TStr | TVec(elem: Type) | TDict(elem: Type) | TPair(key: Type, val: Type)

  /** A dictionary lists its entries, which are pairs, in the iteration order of the map. */
  datatype Value =
    | Num(n: int)
    | Str(s: seq<Byte>)
    | Vec(elems: seq<Value>)
    | Dict(elems: seq<Value>)
    | Pair(key: Value, val: Value)

  // ---------------------------------------------------------------- numbers

  predicate IsNumber(t: Type) {
    !t.TStr? && !t.TVec? && !t.TDict? && !t.TPair?
  }

  function Width(t: Type): nat {
    if t.TBool? || t.TU8? || t.TI8? then 1
    else if t.TU16? || t.TI16? then 2
    else if t.TU32? || t.TI32? then 4
    else 8
  }

  function Pow256(n: nat): (p: nat)
    ensures p > 0
  {
    if n == 0 then 1 else 256 * Pow256(n - 1)
  }

  predicate InRange(n: int, t: Type) {
    match t
    case TBool => 0 <= n < 2
    case TI8 => -0x80 <= n < 0x80
    case TI16 => -0x8000 <= n < 0x8000
    case TI32 => -0x8000_0000 <= n < 0x8000_0000
    case _ => 0 <= n < Pow256(Width(t))
  }

  /** The bit pattern of a number, and the number of a bit pattern. */
  function ToBits(n: int, t: Type): nat
    requires InRange(n, t)
  {
    if n < 0 then (assert Pow256(Width(t)) >= -n by { Powers(); } n + Pow256(Width(t))) else n
  }

  function FromBits(bits: nat, t: Type): int {
    match t
    case TBool => if bits == 0 then 0 else 1
    case TI8 => if bits < 0x80 then bits else bits - 0x100
    case TI16 => if bits < 0x8000 then bits else bits - 0x1_0000
    case TI32 => if bits < 0x8000_0000 then bits else bits - 0x1_0000_0000
    case _ => bits
  }

  lemma Powers()
    ensures Pow256(1) == 0x100 && Pow256(2) == 0x1_0000 && Pow256(4) == 0x1_0000_0000
    ensures Pow256(8) == 0x1_0000_0000_0000_0000
  {
    assert Pow256(3) == 0x100_0000;
    assert Pow256(5) == 0x100_0000_0000;
    assert Pow256(6) == 0x1_0000_0000_0000;
    assert Pow256(7) == 0x100_0000_0000_0000;
  }

  lemma BitsRoundTrip(n: int, t: Type)
    requires IsNumber(t) && InRange(n, t)
    ensures ToBits(n, t) < Pow256(Width(t)) && FromBits(ToBits(n, t), t) == n
  {
    Powers();
  }

  /** The last `w` bytes of a number, the most significant first. */
  function BigEndian(x: nat, w: nat): (bytes: seq<Byte>)
    ensures |bytes| == w
  {
    if w == 0 then [] else BigEndian(x / 256, w - 1) + [x % 256]
  }

  // ---------------------------------------------------------------- writing

  predicate Distinct(entries: seq<Value>) {
    && (forall i :: 0 <= i < |entries| ==> entries[i].Pair?)
    && (forall i, j :: 0 <= i < j < |entries| ==> entries[i].key != entries[j].key)
  }

  predicate AllHaveType(vs: seq<Value>, t: Type)
    decreases t, 1
  {
    forall i :: 0 <= i < |vs| ==> HasType(vs[i], t)
  }

  predicate HasType(v: Value, t: Type)
    decreases t, 0
  {
    match t
    case TStr => v.Str?
    case TVec(e) => v.Vec? && AllHaveType(v.elems, e)
    case TDict(e) => v.Dict? && Distinct(v.elems) && AllHaveType(v.elems, e)
    case TPair(k, w) => v.Pair? && HasType(v.key, k) && HasType(v.val, w)
    case _ => v.Num? && InRange(v.n, t)
  }

  function Encode(v: Value, t: Type): seq<Byte>
    requires HasType(v, t)
    decreases t, 0
  {
    match t
    case TStr => BigEndian(|v.s|, 4) + v.s
    case TVec(e) => BigEndian(|v.elems|, 4) + EncodeAll(v.elems, e)
    case TDict(e) => BigEndian(|v.elems|, 4) + EncodeAll(v.elems, e)
    case TPair(k, w) => Encode(v.key, k) + Encode(v.val, w)
    case _ => BigEndian(ToBits(v.n, t), Width(t))
  }

  function EncodeAll(vs: seq<Value>, t: Type): seq<Byte>
    requires AllHaveType(vs, t)
    decreases t, |vs| + 1
  {
    if vs == [] then [] else
      var n := |vs| - 1;
      EncodeAll(vs[..n], t) + Encode(vs[n], t)
  }

  // ---------------------------------------------------------------- reading

  /** The cursor. `stray` records that a read went beyond the buffer, after which nothing is defined. */
  datatype Reader = Reader(buf: seq<Byte>, ind: nat, ok: bool, stray: bool := false)

  /** Past the end a byte reads as zero and the cursor stays. */
  function RawByte(r: Reader): (Byte, Reader) {
    if r.ind >= |r.buf| then (0, r.(ok := false)) else (r.buf[r.ind], r.(ind := r.ind + 1))
  }

  /** The bound check is made in 32-bit arithmetic, and lets a read that wraps around pass; what that
      read finds is not defined and stands here as the empty string. */
  function RawBytes(r: Reader, n: nat): (seq<Byte>, Reader) {
    if (r.ind + n) % 0x1_0000_0000 > |r.buf| then ([], r.(ok := false))
    else if r.ind + n > |r.buf| then ([], r.(stray := true))
    else (r.buf[r.ind..r.ind + n], r.(ind := r.ind + n))
  }

  function ReadNumber(r: Reader, w: nat): (res: (nat, Reader))
    ensures res.1.buf == r.buf && res.1.ind >= r.ind && (!r.ok ==> !res.1.ok)
  {
    if w == 0 then (0, r)
    else
      var (hi, r1) := ReadNumber(r, w - 1);
      var (b, r2) := RawByte(r1);
      (256 * hi + b, r2)
  }

  /** A number is read in full or not at all. */
  lemma {:induction false} NumberReads(r: Reader, w: nat)
    ensures ReadNumber(r, w).1.ok <==> r.ok && (w == 0 || r.ind + w <= |r.buf|)
    ensures w == 0 || r.ind + w <= |r.buf| ==> ReadNumber(r, w).1.ind == r.ind + w
    ensures w > 0 && r.ind + w > |r.buf| ==> ReadNumber(r, w).1.ind >= |r.buf|
  {
    if w > 0 {
      NumberReads(r, w - 1);
    }
  }

  lemma {:induction false} NumberBound(r: Reader, w: nat)
    ensures ReadNumber(r, w).0 < Pow256(w)
  {
    if w > 0 {
      NumberBound(r, w - 1);
    }
  }

  /** Storing an entry under a key that is there already replaces it. */
  function Put(entries: seq<Value>, e: Value): seq<Value> {
    if entries == [] then [e]
    else if e.Pair? && entries[0].Pair? && entries[0].key == e.key then [e] + entries[1..]
    else [entries[0]] + Put(entries[1..], e)
  }

  /** The dictionary that results from storing entries one after the other. */
  function Merge(entries: seq<Value>): seq<Value> {
    if entries == [] then []
    else Put(Merge(entries[..|entries| - 1]), entries[|entries| - 1])
  }

  function Decode(t: Type, r: Reader): (res: (Value, Reader))
    ensures res.1.buf == r.buf && res.1.ind >= r.ind && (!r.ok ==> !res.1.ok)
    decreases t, 0
  {
    match t
    case TStr =>
      var (n, r1) := ReadNumber(r, 4);
      if r1.ok then var (s, r2) := RawBytes(r1, n); (Str(s), r2) else (Str([]), r1)
    case TVec(e) =>
      var (n, r1) := ReadNumber(r, 4);
      var (vs, r2) := DecodeAll(e, n, r1);
      (Vec(vs), r2)
    case TDict(e) =>
      var (n, r1) := ReadNumber(r, 4);
      var (es, r2) := DecodeAll(e, n, r1);
      (Dict(Merge(es)), r2)
    case TPair(k, w) =>
      var (a, r1) := Decode(k, r);
      var (b, r2) := Decode(w, r1);
      (Pair(a, b), r2)
    case _ =>
      var (bits, r1) := ReadNumber(r, Width(t));
      (Num(FromBits(bits, t)), r1)
  }

  function DecodeAll(t: Type, n: nat, r: Reader): (res: (seq<Value>, Reader))
    ensures res.1.buf == r.buf && res.1.ind >= r.ind && (!r.ok ==> !res.1.ok)
    decreases t, n + 1
  {
    if n == 0 then ([], r)
    else
      var (vs, r1) := DecodeAll(t, n - 1, r);
      var (v, r2) := Decode(t, r1);
      (vs + [v], r2)
  }

  lemma {:induction false} PutNew(entries: seq<Value>, e: Value)
    requires Distinct(entries + [e])
    ensures Put(entries, e) == entries + [e]
  {
    if entries != [] {
      var all, rest := entries + [e], entries[1..] + [e];
      assert forall i :: 0 <= i < |rest| ==> rest[i] == all[i + 1];
      assert all[0] == entries[0] && all[|entries|] == e;
      PutNew(entries[1..], e);
    }
  }

  /** With distinct keys nothing is replaced. */
  lemma {:induction false} MergeDistinct(entries: seq<Value>)
    requires Distinct(entries)
    ensures Merge(entries) == entries
  {
    if entries != [] {
      var n := |entries| - 1;
      MergeDistinct(entries[..n]);
      assert entries[..n] + [entries[n]] == entries;
      PutNew(entries[..n], entries[n]);
    }
  }

  // ---------------------------------------------------------------- reads beyond the buffer

  const WORD_LIMIT := 0x1_0000_0000

  /** Buffer sizes are 31-bit numbers, so no length that fits the buffer wraps around. */
  const BUFFER_LIMIT := 0x8000_0000

  /** The bound check passes although the bytes are not there. */
  predicate Strays(r: Reader, n: nat) {
    r.ind + n > |r.buf| && (r.ind + n) % WORD_LIMIT <= |r.buf|
  }

  lemma RawBytesStraysIff(r: Reader, n: nat)
    ensures RawBytes(r, n).1.stray <==> r.stray || Strays(r, n)
  {
  }

  /** For a cursor inside a buffer of less than 2^31 bytes and a 32-bit length: exactly when their sum
      does not fit 32 bits. */
  lemma StraysWhenSumWraps(r: Reader, n: nat)
    requires r.ind <= |r.buf| < BUFFER_LIMIT && n < WORD_LIMIT
    ensures Strays(r, n) <==> r.ind + n >= WORD_LIMIT
  {
    if r.ind + n >= WORD_LIMIT {
      assert (r.ind + n) % WORD_LIMIT == r.ind + n - WORD_LIMIT;
    }
  }

  /** Where a string is read, and the length that was read in front of it. */
  datatype StringRead = StringRead(at: Reader, length: nat)

  /** The string reads that happen while a value is decoded, in order. */
  function StringReads(t: Type, r: Reader): seq<StringRead>
    decreases t, 0
  {
    match t
    case TStr =>
      var (n, r1) := ReadNumber(r, 4);
      if r1.ok then [StringRead(r1, n)] else []
    case TVec(e) => StringReadsAll(e, ReadNumber(r, 4).0, ReadNumber(r, 4).1)
    case TDict(e) => StringReadsAll(e, ReadNumber(r, 4).0, ReadNumber(r, 4).1)
    case TPair(k, w) => StringReads(k, r) + StringReads(w, Decode(k, r).1)
    case _ => []
  }

  function StringReadsAll(t: Type, n: nat, r: Reader): seq<StringRead>
    decreases t, n + 1
  {
    if n == 0 then [] else StringReadsAll(t, n - 1, r) + StringReads(t, DecodeAll(t, n - 1, r).1)
  }

  ghost predicate SomeStrays(rs: seq<StringRead>) {
    exists i :: 0 <= i < |rs| && Strays(rs[i].at, rs[i].length)
  }

  lemma SomeStraysAppend(a: seq<StringRead>, b: seq<StringRead>)
    ensures SomeStrays(a + b) <==> SomeStrays(a) || SomeStrays(b)
  {
    if i :| 0 <= i < |a| && Strays(a[i].at, a[i].length) {
      assert (a + b)[i] == a[i];
    }
    if i :| 0 <= i < |b| && Strays(b[i].at, b[i].length) {
      assert (a + b)[|a| + i] == b[i];
    }
  }

  lemma {:induction false} NumbersDoNotStray(r: Reader, w: nat)
    ensures ReadNumber(r, w).1.stray == r.stray
  {
    if w > 0 {
      NumbersDoNotStray(r, w - 1);
    }
  }

  /** On arbitrary bytes, decoding leaves the buffer exactly when one of its string reads does. */
  lemma {:induction false} DecodeStraysIff(t: Type, r: Reader)
    ensures Decode(t, r).1.stray <==> r.stray || SomeStrays(StringReads(t, r))
    decreases t, 0
  {
    match t
    case TStr =>
      NumbersDoNotStray(r, 4);
      var (n, r1) := ReadNumber(r, 4);
      assert r1.ok ==> StringReads(t, r)[0] == StringRead(r1, n);
    case TVec(e) => CountedStraysIff(e, r);
    case TDict(e) => CountedStraysIff(e, r);
    case TPair(k, w) =>
      DecodeStraysIff(k, r);
      DecodeStraysIff(w, Decode(k, r).1);
      SomeStraysAppend(StringReads(k, r), StringReads(w, Decode(k, r).1));
    case _ => NumbersDoNotStray(r, Width(t));
  }

  lemma {:induction false} CountedStraysIff(t: Type, r: Reader)
    ensures DecodeAll(t, ReadNumber(r, 4).0, ReadNumber(r, 4).1).1.stray
       <==> r.stray || SomeStrays(StringReadsAll(t, ReadNumber(r, 4).0, ReadNumber(r, 4).1))
    decreases t, ReadNumber(r, 4).0 + 2
  {
    NumbersDoNotStray(r, 4);
    DecodeAllStraysIff(t, ReadNumber(r, 4).0, ReadNumber(r, 4).1);
  }

  lemma LastOfAll(t: Type, n: nat, r: Reader)
    requires n > 0
    ensures DecodeAll(t, n, r).1 == Decode(t, DecodeAll(t, n - 1, r).1).1
    ensures StringReadsAll(t, n, r) == StringReadsAll(t, n - 1, r) + StringReads(t, DecodeAll(t, n - 1, r).1)
  {
    hide Decode, StringReads;
  }

  lemma {:induction false} DecodeAllStraysIff(t: Type, n: nat, r: Reader)
    ensures DecodeAll(t, n, r).1.stray <==> r.stray || SomeStrays(StringReadsAll(t, n, r))
    decreases t, n + 1
  {
    if n == 0 {
      assert !SomeStrays([]);
    } else {
      LastOfAll(t, n, r);
      hide Decode, DecodeAll, StringReads, StringReadsAll, SomeStrays;
      var r1 := DecodeAll(t, n - 1, r).1;
      DecodeAllStraysIff(t, n - 1, r);
      DecodeStraysIff(t, r1);
      SomeStraysAppend(StringReadsAll(t, n - 1, r), StringReads(t, r1));
    }
  }

  lemma DecodeString(r: Reader)
    ensures Decode(TStr, r).1 == if ReadNumber(r, 4).1.ok then RawBytes(ReadNumber(r, 4).1, ReadNumber(r, 4).0).1 else ReadNumber(r, 4).1
  {
    hide ReadNumber, RawBytes;
  }

  /** A string that announces a length for which cursor and length do not fit 32 bits together. */
  lemma StringStraysIff(r: Reader)
    requires |r.buf| < BUFFER_LIMIT
    ensures Decode(TStr, r).1.stray <==>
      r.stray || (ReadNumber(r, 4).1.ok && ReadNumber(r, 4).1.ind + ReadNumber(r, 4).0 >= WORD_LIMIT)
  {
    NumbersDoNotStray(r, 4);
    NumberReads(r, 4);
    NumberBound(r, 4);
    Powers();
    DecodeString(r);
    hide Decode, ReadNumber, RawBytes, Strays, Pow256;
    var n, r1 := ReadNumber(r, 4).0, ReadNumber(r, 4).1;
    RawBytesStraysIff(r1, n);
    if r1.ok {
      StraysWhenSumWraps(r1, n);
    }
  }

  /** A message of 28 bytes: room for a header and a string that claims to have 2^32 - 1 bytes. */
  lemma StrayingMessage() returns (buf: seq<Byte>)
    ensures |buf| == 28 && Decode(TStr, Reader(buf, 24, true)).1.stray && Decode(TStr, Reader(buf, 24, true)).1.ok
  {
    var header: seq<Byte> := seq(24, _ => 0);
    var length := BigEndian(WORD_LIMIT - 1, 4);
    buf := header + length;
    var r := Reader(buf, 24, true);
    assert buf[24..28] == length;
    Powers();
    NumberRoundTrip(r, WORD_LIMIT - 1, 4);
    StringStraysIff(r);
  }

  // ---------------------------------------------------------------- complete input

  /** The bytes at the cursor are `bytes`. */
  predicate At(r: Reader, bytes: seq<Byte>) {
    r.ok && r.ind + |bytes| <= |r.buf| && r.buf[r.ind..r.ind + |bytes|] == bytes
  }

  function Skip(r: Reader, n: nat): Reader {
    r.(ind := r.ind + n)
  }

  lemma AtSplit(r: Reader, a: seq<Byte>, b: seq<Byte>)
    requires At(r, a + b)
    ensures At(r, a) && At(Skip(r, |a|), b) && Skip(Skip(r, |a|), |b|) == Skip(r, |a + b|)
  {
    var s := r.buf[r.ind..r.ind + |a + b|];
    assert s[..|a|] == a && s[|a|..] == b;
    assert r.buf[r.ind..r.ind + |a|] == s[..|a|];
    assert r.buf[r.ind + |a|..r.ind + |a| + |b|] == s[|a|..];
  }

  lemma {:induction false} NumberRoundTrip(r: Reader, x: nat, w: nat)
    requires x < Pow256(w) && At(r, BigEndian(x, w))
    ensures ReadNumber(r, w) == (x, Skip(r, w))
  {
    if w > 0 {
      AtSplit(r, BigEndian(x / 256, w - 1), [x % 256]);
      NumberRoundTrip(r, x / 256, w - 1);
      var r1 := Skip(r, w - 1);
      assert r1.buf[r1.ind] == r1.buf[r1.ind..r1.ind + 1][0];
    }
  }

  /** Every element takes at least one byte, so a count never exceeds the buffer. */
  lemma {:induction false} EncodingsAreLong(v: Value, t: Type)
    requires HasType(v, t)
    ensures |Encode(v, t)| >= 1
    decreases t
  {
    if t.TPair? {
      EncodingsAreLong(v.key, t.key);
    }
  }

  lemma {:induction false} CountsAreSmall(vs: seq<Value>, t: Type)
    requires AllHaveType(vs, t)
    ensures |vs| <= |EncodeAll(vs, t)|
  {
    if vs != [] {
      var n := |vs| - 1;
      CountsAreSmall(vs[..n], t);
      EncodingsAreLong(vs[n], t);
    }
  }

  lemma CountRoundTrip(r: Reader, n: nat, rest: seq<Byte>)
    requires At(r, BigEndian(n, 4) + rest) && |r.buf| < BUFFER_LIMIT && n <= |rest|
    ensures ReadNumber(r, 4) == (n, Skip(r, 4))
    ensures At(Skip(r, 4), rest) && Skip(Skip(r, 4), |rest|) == Skip(r, 4 + |rest|)
  {
    AtSplit(r, BigEndian(n, 4), rest);
    Powers();
    NumberRoundTrip(r, n, 4);
  }

  lemma RoundTripNumber(n: int, t: Type, r: Reader)
    requires IsNumber(t) && InRange(n, t) && At(r, Encode(Num(n), t))
    ensures Decode(t, r) == (Num(n), Skip(r, |Encode(Num(n), t)|))
  {
    BitsRoundTrip(n, t);
    NumberRoundTrip(r, ToBits(n, t), Width(t));
  }

  lemma RawBytesAt(r: Reader, s: seq<Byte>)
    requires At(r, s) && |r.buf| < BUFFER_LIMIT
    ensures RawBytes(r, |s|) == (s, Skip(r, |s|))
  {
  }

  lemma RoundTripString(s: seq<Byte>, r: Reader)
    requires At(r, Encode(Str(s), TStr)) && |r.buf| < BUFFER_LIMIT
    ensures Decode(TStr, r) == (Str(s), Skip(r, |Encode(Str(s), TStr)|))
  {
    hide BigEndian, ReadNumber, RawBytes, At;
    CountRoundTrip(r, |s|, s);
    RawBytesAt(Skip(r, 4), s);
  }

  /** Reading what was written gives the value back and leaves the cursor behind it. */
  lemma {:induction false} RoundTrip(v: Value, t: Type, r: Reader)
    requires HasType(v, t) && At(r, Encode(v, t)) && |r.buf| < BUFFER_LIMIT
    ensures Decode(t, r) == (v, Skip(r, |Encode(v, t)|))
    decreases t, 0
  {
    match t
    case TStr => RoundTripString(v.s, r);
    case TVec(e) => RoundTripCounted(v.elems, e, r);
    case TDict(e) =>
      RoundTripCounted(v.elems, e, r);
      MergeDistinct(v.elems);
    case TPair(k, w) =>
      AtSplit(r, Encode(v.key, k), Encode(v.val, w));
      RoundTrip(v.key, k, r);
      RoundTrip(v.val, w, Skip(r, |Encode(v.key, k)|));
    case _ => RoundTripNumber(v.n, t, r);
  }

  /** A count and that many elements. */
  lemma {:induction false} RoundTripCounted(vs: seq<Value>, t: Type, r: Reader)
    requires AllHaveType(vs, t) && At(r, BigEndian(|vs|, 4) + EncodeAll(vs, t)) && |r.buf| < BUFFER_LIMIT
    ensures ReadNumber(r, 4) == (|vs|, Skip(r, 4))
    ensures DecodeAll(t, |vs|, Skip(r, 4)) == (vs, Skip(r, |BigEndian(|vs|, 4) + EncodeAll(vs, t)|))
    decreases t, |vs| + 2
  {
    hide BigEndian, ReadNumber, Encode, EncodeAll, Decode, DecodeAll, HasType, At;
    CountsAreSmall(vs, t);
    CountRoundTrip(r, |vs|, EncodeAll(vs, t));
    RoundTripAll(vs, t, Skip(r, 4));
  }

  lemma {:induction false} RoundTripAll(vs: seq<Value>, t: Type, r: Reader)
    requires AllHaveType(vs, t) && At(r, EncodeAll(vs, t)) && |r.buf| < BUFFER_LIMIT
    ensures DecodeAll(t, |vs|, r) == (vs, Skip(r, |EncodeAll(vs, t)|))
    decreases t, |vs| + 1
  {
    hide Encode, Decode, HasType, At;
    if vs != [] {
      var n := |vs| - 1;
      AtSplit(r, EncodeAll(vs[..n], t), Encode(vs[n], t));
      RoundTripAll(vs[..n], t, r);
      RoundTrip(vs[n], t, Skip(r, |EncodeAll(vs[..n], t)|));
      assert vs[..n] + [vs[n]] == vs;
    }
  }

  // ---------------------------------------------------------------- truncated input

  /** The buffer ends inside `bytes`. */
  predicate Cut(r: Reader, bytes: seq<Byte>) {
    r.ind <= |r.buf| < r.ind + |bytes| && r.buf[r.ind..] == bytes[..|r.buf| - r.ind]
  }

  lemma CutSplit(r: Reader, a: seq<Byte>, b: seq<Byte>)
    requires Cut(r, a + b) && r.ok
    ensures Cut(r, a) || (At(r, a) && Cut(Skip(r, |a|), b))
  {
    var s := r.buf[r.ind..];
    if |s| < |a| {
      assert s == a[..|s|];
    } else {
      assert r.buf[r.ind..r.ind + |a|] == s[..|a|] == a;
      assert r.buf[r.ind + |a|..] == s[|a|..] == b[..|s| - |a|];
    }
  }

  lemma RawBytesFails(r: Reader, n: nat)
    requires |r.buf| < r.ind + n < WORD_LIMIT
    ensures !RawBytes(r, n).1.ok
  {
  }

  /** The bytes of a string after its length, cut short. */
  lemma CutString(s: seq<Byte>, r: Reader)
    requires Cut(r, BigEndian(|s|, 4) + s) && |s| < BUFFER_LIMIT && |r.buf| < BUFFER_LIMIT && r.ok
    ensures var (n, r1) := ReadNumber(r, 4); !r1.ok || |r.buf| < r1.ind + n < WORD_LIMIT
  {
    NumberReads(r, 4);
    CutSplit(r, BigEndian(|s|, 4), s);
    hide BigEndian, ReadNumber;
    if At(r, BigEndian(|s|, 4)) {
      Powers();
      NumberRoundTrip(r, |s|, 4);
    }
  }

  lemma PrefixFailsString(s: seq<Byte>, r: Reader)
    requires Cut(r, Encode(Str(s), TStr)) && |s| < BUFFER_LIMIT && |r.buf| < BUFFER_LIMIT && r.ok
    ensures !Decode(TStr, r).1.ok
  {
    CutString(s, r);
    hide Cut, BigEndian, ReadNumber, RawBytes;
    var n, r1 := ReadNumber(r, 4).0, ReadNumber(r, 4).1;
    if r1.ok {
      RawBytesFails(r1, n);
    }
  }

  /** Any strict prefix of an encoding leaves the reader not ok. */
  lemma {:induction false} PrefixFails(v: Value, t: Type, r: Reader)
    requires HasType(v, t) && Cut(r, Encode(v, t)) && |Encode(v, t)| < BUFFER_LIMIT && |r.buf| < BUFFER_LIMIT
    ensures !Decode(t, r).1.ok
    decreases t, 0
  {
    if r.ok {
      match t
      case TStr => PrefixFailsString(v.s, r);
      case TVec(e) => PrefixFailsCounted(v.elems, e, r);
      case TDict(e) => PrefixFailsCounted(v.elems, e, r);
      case TPair(k, w) =>
        CutSplit(r, Encode(v.key, k), Encode(v.val, w));
        if Cut(r, Encode(v.key, k)) {
          PrefixFails(v.key, k, r);
        } else {
          RoundTrip(v.key, k, r);
          PrefixFails(v.val, w, Skip(r, |Encode(v.key, k)|));
        }
      case _ => NumberReads(r, Width(t));
    }
  }

  lemma {:induction false} PrefixFailsCounted(vs: seq<Value>, t: Type, r: Reader)
    requires AllHaveType(vs, t) && r.ok && |r.buf| < BUFFER_LIMIT
    requires Cut(r, BigEndian(|vs|, 4) + EncodeAll(vs, t)) && |EncodeAll(vs, t)| < BUFFER_LIMIT
    ensures var (n, r1) := ReadNumber(r, 4); !DecodeAll(t, n, r1).1.ok
    decreases t, |vs| + 2
  {
    Powers();
    NumberReads(r, 4);
    CountsAreSmall(vs, t);
    CutSplit(r, BigEndian(|vs|, 4), EncodeAll(vs, t));
    if At(r, BigEndian(|vs|, 4)) {
      NumberRoundTrip(r, |vs|, 4);
      PrefixFailsAll(vs, t, Skip(r, 4));
    }
  }

  lemma {:induction false} PrefixFailsAll(vs: seq<Value>, t: Type, r: Reader)
    requires AllHaveType(vs, t) && r.ok && |r.buf| < BUFFER_LIMIT
    requires Cut(r, EncodeAll(vs, t)) && |EncodeAll(vs, t)| < BUFFER_LIMIT
    ensures !DecodeAll(t, |vs|, r).1.ok
    decreases t, |vs| + 1
  {
    hide Encode, Decode, HasType;
    var n := |vs| - 1;
    CutSplit(r, EncodeAll(vs[..n], t), Encode(vs[n], t));
    if Cut(r, EncodeAll(vs[..n], t)) {
      PrefixFailsAll(vs[..n], t, r);
    } else {
      RoundTripAll(vs[..n], t, r);
      PrefixFails(vs[n], t, Skip(r, |EncodeAll(vs[..n], t)|));
    }
  }
}
