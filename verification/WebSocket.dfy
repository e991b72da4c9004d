/** WebSocket frames of mongoose (section 5.2 of RFC 6455): what is written, what the
    receiver makes of the bytes it has so far, and the buffer in between. */
module WebSocket {
  import opened Arithmetic

  type Byte = x: int | 0 <= x < 256

  const INT_LIMIT: int := 0x8000_0000
  const WORD: nat := 0x1_0000_0000

  /** A four-byte masking key, or none. */
  datatype Key = NoKey | Key(b: seq<Byte>)

  datatype Frame = Frame(bits: Byte, key: Key, data: seq<Byte>)

  predicate ValidFrame(f: Frame) {
    (f.key.Key? ==> |f.key.b| == 4) && |f.data| < WORD * WORD
  }

  function XorByte(a: Byte, b: Byte): Byte {
    assert Pow2(8) == 256;
    XorBelow(a, b, 8);
    Xor(a, b, 8)
  }

  /** Section 5.3 of RFC 6455. */
  function Mask(key: seq<Byte>, data: seq<Byte>): (r: seq<Byte>)
    requires |key| == 4
    ensures |r| == |data| && forall i :: 0 <= i < |data| ==> r[i] == XorByte(data[i], key[i % 4])
  {
    seq(|data|, i requires 0 <= i < |data| => XorByte(data[i], key[i % 4]))
  }

  /** Unmasking is masking. */
  lemma MaskTwice(key: seq<Byte>, data: seq<Byte>)
    requires |key| == 4
    ensures Mask(key, Mask(key, data)) == data
  {
    assert Pow2(8) == 256;
    forall i | 0 <= i < |data| ensures XorByte(XorByte(data[i], key[i % 4]), key[i % 4]) == data[i] {
      XorTwice(data[i], key[i % 4], 8);
    }
    hide XorByte;
  }

  /** Every binary digit of a masked byte is flipped exactly if the key's digit is 1. */
  lemma MaskDigit(key: seq<Byte>, data: seq<Byte>, i: nat, k: nat)
    requires |key| == 4 && i < |data| && k < 8
    ensures Digit(Mask(key, data)[i], k) == (Digit(data[i], k) + Digit(key[i % 4], k)) % 2
  {
    XorDigit(data[i], key[i % 4], 8, k);
  }

  /** A key of zeros masks nothing. */
  lemma MaskZero(data: seq<Byte>)
    ensures Mask([0, 0, 0, 0], data) == data
  {
    assert Pow2(8) == 256;
    forall i | 0 <= i < |data| ensures XorByte(data[i], 0) == data[i] { XorZero(data[i], 8); }
  }

  // ----- what is written

  function Be32(w: nat): (b: seq<Byte>)
    requires w < WORD
    ensures |b| == 4
  {
    [w / 0x100_0000, w / 0x1_0000 % 256, w / 0x100 % 256, w % 256]
  }

  /** The first two bytes and the extended length. */
  function Header(bits: Byte, masked: bool, n: nat): seq<Byte>
    requires n < WORD * WORD
  {
    var m := if masked then 128 else 0;
    if n < 126 then [bits, n + m]
    else if n <= 0xFFFF then [bits, 126 + m, n / 256, n % 256]
    else [bits, 127 + m] + Be32(n / WORD) + Be32(n % WORD)
  }

  function Encode(f: Frame): seq<Byte>
    requires ValidFrame(f)
  {
    match f.key
    case NoKey => Header(f.bits, false, |f.data|) + f.data
    case Key(b) => Header(f.bits, true, |f.data|) + b + Mask(b, f.data)
  }

  /** Examples of section 5.7 of RFC 6455: an unmasked text, what is in front of a masked
      one, and how a frame of 256 and one of 65536 bytes begin. */
  lemma Examples()
    ensures Encode(Frame(0x81, NoKey, [0x48, 0x65, 0x6c, 0x6c, 0x6f])) == [0x81, 0x05, 0x48, 0x65, 0x6c, 0x6c, 0x6f]
    ensures Header(0x81, true, 5) == [0x81, 0x85]
    ensures Header(0x82, false, 256) == [0x82, 0x7e, 0x01, 0x00]
    ensures Header(0x82, false, 65536) == [0x82, 0x7f, 0x00, 0x00, 0x00, 0x00, 0x00, 0x01, 0x00, 0x00]
  {
  }

  // ----- what is read

  function Int32(x: nat): int
    requires x < WORD
  {
    if x < INT_LIMIT then x else x - WORD
  }

  function Join(high: nat, low: nat): nat { 256 * high + low }

  function Word32(b: seq<Byte>): (w: nat)
    requires |b| == 4
    ensures w < WORD
  {
    Join(Join(Join(b[0], b[1]), b[2]), b[3])
  }

  function MaskLen(buf: seq<Byte>): (r: nat)
    requires |buf| >= 2
    ensures r == 0 || r == 4
  {
    if buf[1] >= 128 then 4 else 0
  }

  /** header_len and data_len; both stay 0 while the header is incomplete. The high half
      of a 64-bit length is shifted out of an int. */
  function Lengths(buf: seq<Byte>): (r: (int, int))
    ensures 0 <= r.0 <= 14 && -INT_LIMIT <= r.1 < INT_LIMIT
  {
    if |buf| < 2 then (0, 0)
    else
      var len, mask := buf[1] % 128, MaskLen(buf);
      if len < 126 && |buf| >= mask then (2 + mask, len)
      else if len == 126 && |buf| >= 4 + mask then (4 + mask, Join(buf[2], buf[3]))
      else if |buf| >= 10 + mask then (10 + mask, Int32(Word32(buf[6..10])))
      else (0, 0)
  }

  /** The sum of two ints, in two's complement. */
  function IntSum(x: int, y: int): int
    requires -INT_LIMIT <= x < INT_LIMIT && -INT_LIMIT <= y < INT_LIMIT
  {
    if x + y >= INT_LIMIT then x + y - WORD
    else if x + y < -INT_LIMIT then x + y + WORD
    else x + y
  }

  /** It is the one int that is the sum modulo 2^32; and so is the conversion of a word. */
  lemma IntSumIs(x: int, y: int)
    requires -INT_LIMIT <= x < INT_LIMIT && -INT_LIMIT <= y < INT_LIMIT
    ensures -INT_LIMIT <= IntSum(x, y) < INT_LIMIT && (x + y - IntSum(x, y)) % WORD == 0
    ensures forall w: nat :: w < WORD ==> -INT_LIMIT <= Int32(w) < INT_LIMIT && (w - Int32(w)) % WORD == 0
  {
  }

  /** `Misread` is a negative length: the source hands a size it converts to unsigned
      to the handler. */
  datatype Delivery = Wait | Deliver(bits: Byte, payload: seq<Byte>, used: nat) | Misread(used: nat)

  /** deliver_websocket_frame, as far as the buffer tells. */
  function ParseFrame(buf: seq<Byte>): (r: Delivery)
    ensures !r.Wait? ==> 0 < r.used <= |buf| && r.used < INT_LIMIT
  {
    var (header, data) := Lengths(buf);
    var frame := IntSum(header, data);
    if !(0 < frame <= |buf|) then Wait
    else if data < 0 then Misread(frame)
    else
      var raw := buf[header..frame];
      Deliver(buf[0], if MaskLen(buf) > 0 then Mask(buf[header - 4..header], raw) else raw, frame)
  }

  // ----- one frame

  lemma Word32OfBe32(w: nat)
    requires w < WORD
    ensures Word32(Be32(w)) == w
  {
    var a, b := w / 256, w / 0x1_0000;
    assert a / 256 == b && b / 256 == w / 0x100_0000;
  }

  /** The length the receiver sees is the low half of the one written, as an int: the
      right one exactly below 2^31. */
  lemma LengthRead(bits: Byte, masked: bool, n: nat, more: seq<Byte>)
    requires n < WORD * WORD && |more| >= (if masked then 4 else 0)
    ensures var buf := Header(bits, masked, n) + more;
            && Lengths(buf) == (|Header(bits, masked, n)| + (if masked then 4 else 0), Int32(n % WORD))
            && (Lengths(buf).1 == n <==> n < INT_LIMIT)
            && |buf| >= 2 && |Header(bits, masked, n)| >= 2
            && buf[0] == bits && MaskLen(buf) == (if masked then 4 else 0)
  {
    hide Header, Lengths, MaskLen, Int32;
    IntRead(n);
    if n < 126 {
      ShortLength(bits, masked, n, more);
    } else if n <= 0xFFFF {
      MediumLength(bits, masked, n, more);
    } else {
      LongLength(bits, masked, n, more);
    }
  }

  lemma IntRead(n: nat)
    requires n < WORD * WORD
    ensures Int32(n % WORD) == n <==> n < INT_LIMIT
  {
  }

  lemma ShortLength(bits: Byte, masked: bool, n: nat, more: seq<Byte>)
    requires n < 126 && |more| >= (if masked then 4 else 0)
    ensures var buf, mask := Header(bits, masked, n) + more, if masked then 4 else 0;
            |buf| >= 2 && buf[0] == bits && MaskLen(buf) == mask && Lengths(buf) == (2 + mask, n)
    ensures |Header(bits, masked, n)| == 2
  {
  }

  lemma MediumLength(bits: Byte, masked: bool, n: nat, more: seq<Byte>)
    requires 126 <= n <= 0xFFFF && |more| >= (if masked then 4 else 0)
    ensures var buf, mask := Header(bits, masked, n) + more, if masked then 4 else 0;
            |buf| >= 2 && buf[0] == bits && MaskLen(buf) == mask && Lengths(buf) == (4 + mask, n)
    ensures |Header(bits, masked, n)| == 4
  {
  }

  lemma LongLength(bits: Byte, masked: bool, n: nat, more: seq<Byte>)
    requires 0xFFFF < n < WORD * WORD && |more| >= (if masked then 4 else 0)
    ensures var buf, mask := Header(bits, masked, n) + more, if masked then 4 else 0;
            |buf| >= 2 && buf[0] == bits && MaskLen(buf) == mask && Lengths(buf) == (10 + mask, Int32(n % WORD))
    ensures |Header(bits, masked, n)| == 10
  {
    var high, low := Be32(n / WORD), Be32(n % WORD);
    Word32OfBe32(n % WORD);
    hide Be32, Word32;
    var buf := Header(bits, masked, n) + more;
    assert buf[6..10] == low;
  }

  /** A complete frame is delivered as it was sent, and exactly its bytes are taken, if
      and only if an int can count all its bytes. */
  lemma ParseEncoded(f: Frame, rest: seq<Byte>)
    requires ValidFrame(f)
    ensures ParseFrame(Encode(f) + rest) == Deliver(f.bits, f.data, |Encode(f)|) <==> |Encode(f)| < INT_LIMIT
  {
    hide Header, Mask, Lengths, MaskLen, ParseFrame, Encode, Int32;
    EncodedParts(f, rest);
    if |Encode(f)| < INT_LIMIT {
      if f.key.Key? {
        ParseMasked(f.bits, HeaderOf(f), f.key.b, Mask(f.key.b, f.data), rest);
        MaskTwice(f.key.b, f.data);
      } else {
        ParsePlain(f.bits, HeaderOf(f), f.data, rest);
      }
    }
  }

  function HeaderOf(f: Frame): seq<Byte>
    requires ValidFrame(f)
  {
    Header(f.bits, f.key.Key?, |f.data|)
  }

  /** What the receiver sees of an encoded frame. */
  lemma EncodedParts(f: Frame, rest: seq<Byte>)
    requires ValidFrame(f)
    ensures var h, n, mask, buf := HeaderOf(f), |f.data|, if f.key.Key? then 4 else 0, Encode(f) + rest;
            && buf == h + (if f.key.Key? then f.key.b + Mask(f.key.b, f.data) + rest else f.data + rest)
            && |Encode(f)| == |h| + mask + n
            && |h| >= 2 && h[0] == f.bits && |buf| >= 2 && MaskLen(buf) == mask
            && Lengths(buf) == (|h| + mask, Int32(n % WORD)) && (Int32(n % WORD) == n <==> n < INT_LIMIT)
  {
    hide Header, Mask, Lengths, MaskLen, Int32;
    var h := HeaderOf(f);
    if f.key.Key? {
      var m := Mask(f.key.b, f.data);
      LengthRead(f.bits, true, |f.data|, f.key.b + m + rest);
      assert Encode(f) + rest == h + (f.key.b + m + rest);
    } else {
      LengthRead(f.bits, false, |f.data|, f.data + rest);
      assert Encode(f) + rest == h + (f.data + rest);
    }
  }

  lemma ParseMasked(bits: Byte, h: seq<Byte>, key: seq<Byte>, m: seq<Byte>, rest: seq<Byte>)
    requires |h| >= 2 && h[0] == bits && |key| == 4 && |h| + 4 + |m| < INT_LIMIT
    requires var buf := h + (key + m + rest); Lengths(buf) == (|h| + 4, |m|) && MaskLen(buf) == 4
    ensures ParseFrame(h + (key + m + rest)) == Deliver(bits, Mask(key, m), |h| + 4 + |m|)
  {
    hide Mask, Lengths, MaskLen, ParseFrame;
    var buf := h + (key + m + rest);
    ParseCases(buf);
    Between(h, key, m + rest);
    Between(h + key, m, rest);
    assert h + (key + (m + rest)) == buf && (h + key) + (m + rest) == buf;
  }

  lemma ParsePlain(bits: Byte, h: seq<Byte>, data: seq<Byte>, rest: seq<Byte>)
    requires |h| >= 2 && h[0] == bits && |h| + |data| < INT_LIMIT
    requires var buf := h + (data + rest); Lengths(buf) == (|h|, |data|) && MaskLen(buf) == 0
    ensures ParseFrame(h + (data + rest)) == Deliver(bits, data, |h| + |data|)
  {
    hide Mask, Lengths, MaskLen, ParseFrame;
    ParseCases(h + (data + rest));
    Between(h, data, rest);
  }

  lemma Between(a: seq<Byte>, b: seq<Byte>, c: seq<Byte>)
    ensures (a + (b + c))[|a|..|a| + |b|] == b
  {
  }

  /** Where only header and payload together overflow, the frame is never delivered. */
  lemma OverflowWaits(f: Frame, rest: seq<Byte>)
    requires ValidFrame(f) && |f.data| < INT_LIMIT <= |Encode(f)|
    ensures ParseFrame(Encode(f) + rest).Wait?
  {
    hide Header, Mask, Lengths, MaskLen, Encode, Int32;
    EncodedParts(f, rest);
  }

  /** For instance a payload of 2^31 - 5 bytes, though its length is read right. */
  lemma NeverDelivered(data: seq<Byte>, rest: seq<Byte>)
    requires |data| == INT_LIMIT - 5
    ensures ParseFrame(Encode(Frame(130, NoKey, data)) + rest).Wait?
    ensures Lengths(Encode(Frame(130, NoKey, data)) + rest) == (10, |data|)
  {
    var f := Frame(130, NoKey, data);
    hide Mask, Lengths, MaskLen, Encode, ParseFrame, Be32;
    EncodedParts(f, rest);
    OverflowWaits(f, rest);
  }

  /** Until a frame is complete, nothing is delivered. */
  lemma PrefixWaits(f: Frame, k: nat)
    requires ValidFrame(f) && |f.data| < INT_LIMIT && k < |Encode(f)|
    ensures ParseFrame(Encode(f)[..k]).Wait?
  {
    hide ParseFrame, Encode;
    assert Encode(f)[..k] + Encode(f)[k..] == Encode(f) == Encode(f) + [];
    if |Encode(f)| < INT_LIMIT { ParseEncoded(f, []); } else { OverflowWaits(f, []); }
    if !ParseFrame(Encode(f)[..k]).Wait? {
      Stable(Encode(f)[..k], Encode(f)[k..]);
      assert false;
    }
  }

  /** ParseFrame, case by case. */
  lemma ParseCases(was: seq<Byte>)
    ensures var (header, data) := Lengths(was);
            var frame := IntSum(header, data);
            if !(0 < frame <= |was|) then ParseFrame(was) == Wait
            else if data < 0 then ParseFrame(was) == Misread(frame)
            else
              && |was| >= 2 && frame == header + data && MaskLen(was) + 2 <= header
              && ParseFrame(was) == Deliver(was[0], Payload(was, header, data, MaskLen(was)), frame)
  {
    hide Mask;
  }

  /** What the handler gets to see. */
  function Payload(was: seq<Byte>, header: nat, data: nat, mask: nat): seq<Byte>
    requires (mask == 0 || mask == 4) && mask <= header && header + data <= |was|
  {
    var raw := was[header..header + data];
    if mask > 0 then Mask(was[header - 4..header], raw) else raw
  }

  /** Bytes that arrive later do not change what is delivered. */
  lemma Stable(a: seq<Byte>, b: seq<Byte>)
    requires !ParseFrame(a).Wait?
    ensures ParseFrame(a + b) == ParseFrame(a)
  {
    hide Lengths, Mask, MaskLen, ParseFrame, IntSum;
    ParseCases(a);
    ParseCases(a + b);
    StableLengths(a, b);
    var (header, data) := Lengths(a);
    if data >= 0 {
      var mask := MaskLen(a);
      SliceKept(a, b, header, header + data);
      if mask > 0 { SliceKept(a, b, header - 4, header); }
    }
  }

  lemma SliceKept(a: seq<Byte>, b: seq<Byte>, i: nat, j: nat)
    requires i <= j <= |a|
    ensures (a + b)[i..j] == a[i..j]
  {
  }

  lemma StableLengths(a: seq<Byte>, b: seq<Byte>)
    requires var (header, data) := Lengths(a); 0 < IntSum(header, data) <= |a|
    ensures Lengths(a + b) == Lengths(a) && |a| >= 2 && MaskLen(a + b) == MaskLen(a)
    ensures MaskLen(a) <= Lengths(a).0 && (Lengths(a).1 >= 0 ==> Lengths(a).0 <= |a|) && Lengths(a).0 <= |a| + 14
  {
    if |a| >= 10 { assert (a + b)[6..10] == a[6..10]; }
  }

  // ----- a stream of frames

  datatype Message = Message(bits: Byte, payload: seq<Byte>) | Bad

  function MessageOf(d: Delivery): Message
    requires !d.Wait?
  {
    if d.Deliver? then Message(d.bits, d.payload) else Bad
  }

  /** do { } while (deliver_websocket_frame(conn)): the messages and what is left. */
  function Drain(buf: seq<Byte>): (r: (seq<Message>, seq<Byte>))
    decreases |buf|
  {
    var d := ParseFrame(buf);
    if d.Wait? then ([], buf)
    else
      var (ms, rest) := Drain(buf[d.used..]);
      ([MessageOf(d)] + ms, rest)
  }

  /** Receiving in two parts, whatever the bytes are, is receiving at once. */
  lemma {:induction false} DrainAppend(a: seq<Byte>, b: seq<Byte>)
    ensures var (ms, rest) := Drain(a);
            var (ms', rest') := Drain(rest + b);
            Drain(a + b) == (ms + ms', rest')
    decreases |a|
  {
    hide ParseFrame, MessageOf, Drain;
    var d := ParseFrame(a);
    DrainFirst(a);
    if d.Wait? {
      assert [] + Drain(a + b).0 == Drain(a + b).0;
    } else {
      Stable(a, b);
      DrainFirst(a + b);
      assert (a + b)[d.used..] == a[d.used..] + b;
      DrainAppend(a[d.used..], b);
      var (ms, rest) := Drain(a[d.used..]);
      var (ms', rest') := Drain(rest + b);
      assert [MessageOf(d)] + (ms + ms') == [MessageOf(d)] + ms + ms';
    }
  }

  lemma DrainFirst(buf: seq<Byte>)
    ensures var d := ParseFrame(buf);
            Drain(buf) == if d.Wait? then ([], buf)
                          else ([MessageOf(d)] + Drain(buf[d.used..]).0, Drain(buf[d.used..]).1)
  {
    hide ParseFrame, MessageOf;
  }

  /** All that is delivered when the chunks arrive one by one, and the final buffer. */
  function Receive(buf: seq<Byte>, chunks: seq<seq<Byte>>): (seq<Message>, seq<Byte>)
    decreases |chunks|
  {
    if chunks == [] then ([], buf)
    else
      var (ms, rest) := Drain(buf + chunks[0]);
      var (ms', rest') := Receive(rest, chunks[1..]);
      (ms + ms', rest')
  }

  function Concat(chunks: seq<seq<Byte>>): seq<Byte> {
    if chunks == [] then [] else chunks[0] + Concat(chunks[1..])
  }

  lemma {:induction false} DrainRest(buf: seq<Byte>)
    ensures Drain(Drain(buf).1) == ([], Drain(buf).1)
    decreases |buf|
  {
    if !ParseFrame(buf).Wait? { DrainRest(buf[ParseFrame(buf).used..]); }
  }

  /** However the bytes are split, the same messages are delivered. */
  lemma {:induction false} SplitIndependent(buf: seq<Byte>, chunks: seq<seq<Byte>>)
    requires Drain(buf) == ([], buf)
    ensures Receive(buf, chunks) == Drain(buf + Concat(chunks))
    decreases |chunks|
  {
    hide Drain;
    if chunks == [] {
      assert buf + [] == buf;
    } else {
      var a, b := buf + chunks[0], Concat(chunks[1..]);
      var (ms, rest) := Drain(a);
      DrainRest(a);
      SplitIndependent(rest, chunks[1..]);
      DrainAppend(a, b);
      assert buf + Concat(chunks) == a + b;
    }
  }

  function EncodeAll(fs: seq<Frame>): seq<Byte>
    requires forall i :: 0 <= i < |fs| ==> ValidFrame(fs[i])
  {
    if fs == [] then [] else Encode(fs[0]) + EncodeAll(fs[1..])
  }

  function MessagesOf(fs: seq<Frame>): seq<Message> {
    if fs == [] then [] else [Message(fs[0].bits, fs[0].data)] + MessagesOf(fs[1..])
  }

  /** A row of frames is delivered frame by frame, if and only if an int can count the
      bytes of each. */
  lemma {:induction false} DrainFrames(fs: seq<Frame>)
    requires forall i :: 0 <= i < |fs| ==> ValidFrame(fs[i])
    ensures Drain(EncodeAll(fs)) == (MessagesOf(fs), []) <==> forall i :: 0 <= i < |fs| ==> |Encode(fs[i])| < INT_LIMIT
    decreases |fs|
  {
    hide ParseFrame, Encode;
    if fs == [] {
      NothingYet();
    } else {
      var rest := EncodeAll(fs[1..]);
      ParseEncoded(fs[0], rest);
      assert EncodeAll(fs)[|Encode(fs[0])|..] == rest;
      DrainFrames(fs[1..]);
      var d := ParseFrame(EncodeAll(fs));
      if |Encode(fs[0])| >= INT_LIMIT {
        NotThisMessage(fs[0], rest);
        assert MessagesOf(fs)[0] == Message(fs[0].bits, fs[0].data);
        if !d.Wait? { assert Drain(EncodeAll(fs)).0[0] == MessageOf(d); }
      } else {
        assert Drain(EncodeAll(fs)) == ([MessageOf(d)] + Drain(rest).0, Drain(rest).1);
        FirstSame(MessageOf(d), Drain(rest).0, MessagesOf(fs[1..]));
      }
    }
  }

  lemma FirstSame(m: Message, a: seq<Message>, b: seq<Message>)
    ensures [m] + a == [m] + b <==> a == b
  {
    if [m] + a == [m] + b { assert a == ([m] + a)[1..] == ([m] + b)[1..] == b; }
  }

  /** A frame too long is not delivered as what it is. */
  lemma NotThisMessage(f: Frame, rest: seq<Byte>)
    requires ValidFrame(f) && |Encode(f)| >= INT_LIMIT
    ensures ParseFrame(Encode(f) + rest).Wait? || MessageOf(ParseFrame(Encode(f) + rest)) != Message(f.bits, f.data)
  {
    hide Header, Mask, Lengths, MaskLen, Encode, Int32;
    EncodedParts(f, rest);
  }

  lemma NothingYet()
    ensures ParseFrame([]).Wait?
  {
  }

  /** If every chunk gets into the buffer, the frames sent are the messages received,
      whatever the receives cut, if and only if an int can count the bytes of each. */
  lemma FramesArrive(fs: seq<Frame>, chunks: seq<seq<Byte>>)
    requires forall i :: 0 <= i < |fs| ==> ValidFrame(fs[i])
    requires Concat(chunks) == EncodeAll(fs)
    ensures Receive([], chunks) == (MessagesOf(fs), []) <==> forall i :: 0 <= i < |fs| ==> |Encode(fs[i])| < INT_LIMIT
  {
    hide Drain, Receive, Concat, EncodeAll, MessagesOf, Encode;
    NothingDrained();
    SplitIndependent([], chunks);
    assert [] + Concat(chunks) == Concat(chunks);
    DrainFrames(fs);
  }

  lemma NothingDrained()
    ensures Drain([]) == ([], [])
  {
  }

  // ----- through a buffer of bounded size

  /** What one recv returned, and whether memory is granted if the buffer must grow. */
  datatype Chunk = Chunk(data: seq<Byte>, granted: bool)

  /** recv is called with room for so many bytes. */
  const CHUNK: nat := 2048

  /** iobuf_append: n more bytes find room, or the doubled length is an int. */
  predicate Fits(capacity: nat, len: nat, n: nat) {
    n == 0 || len + n < capacity || 2 * (len + n) < INT_LIMIT
  }

  predicate Kept(capacity: nat, len: nat, n: nat, granted: bool) {
    n == 0 || len + n < capacity || (2 * (len + n) < INT_LIMIT && granted)
  }

  function NewCapacity(capacity: nat, len: nat, n: nat, granted: bool): nat {
    if n > 0 && len + n >= capacity && 2 * (len + n) < INT_LIMIT && granted then 2 * (len + n) else capacity
  }

  /** The messages handed on, what is left in the buffer, its capacity, and how many bytes
      were received but not kept. */
  datatype Run = Run(messages: seq<Message>, rest: seq<Byte>, capacity: nat, lost: nat)

  /** ns_read_from_socket, once for each chunk: what iobuf_append returns is not looked at. */
  function Through(capacity: nat, buf: seq<Byte>, chunks: seq<Chunk>): Run
    decreases |chunks|
  {
    if chunks == [] then Run([], buf, capacity, 0)
    else
      var c := chunks[0];
      var kept := Kept(capacity, |buf|, |c.data|, c.granted);
      var (ms, rest) := Drain(if kept then buf + c.data else buf);
      var r := Through(NewCapacity(capacity, |buf|, |c.data|, c.granted), rest, chunks[1..]);
      Run(ms + r.messages, r.rest, r.capacity, r.lost + (if kept then 0 else |c.data|))
  }

  function DataOf(chunks: seq<Chunk>): seq<seq<Byte>> {
    if chunks == [] then [] else [chunks[0].data] + DataOf(chunks[1..])
  }

  /** While nothing is lost, the buffer is no more than a place to wait. */
  lemma {:induction false} NothingLost(capacity: nat, buf: seq<Byte>, chunks: seq<Chunk>)
    requires Through(capacity, buf, chunks).lost == 0
    ensures var r := Through(capacity, buf, chunks); Receive(buf, DataOf(chunks)) == (r.messages, r.rest)
    decreases |chunks|
  {
    hide Drain, Kept, NewCapacity;
    if chunks != [] {
      var c := chunks[0];
      LostNothing(capacity, buf, c);
      NothingLost(NewCapacity(capacity, |buf|, |c.data|, c.granted), Drain(buf + c.data).1, chunks[1..]);
      assert DataOf(chunks)[1..] == DataOf(chunks[1..]);
    }
  }

  /** A chunk of no bytes is always kept. */
  lemma LostNothing(capacity: nat, buf: seq<Byte>, c: Chunk)
    ensures !Kept(capacity, |buf|, |c.data|, c.granted) ==> |c.data| > 0
  {
  }

  // ----- the program

  /** mg_websocket_write: the copy handed to mg_write. */
  method MgWebsocketWrite(opcode: int, data: seq<Byte>) returns (copy: array<Byte>)
    requires |data| < WORD * WORD
    ensures fresh(copy)
    ensures |Encode(Frame(128 + opcode % 16, NoKey, data))| <= copy.Length == |data| + 10
    ensures copy[..|Encode(Frame(128 + opcode % 16, NoKey, data))|] == Encode(Frame(128 + opcode % 16, NoKey, data))
  {
    copy := new Byte[|data| + 10];
    var n := |data|;
    copy[0] := 128 + opcode % 16;
    var at := 2;
    if n < 126 {
      copy[1] := n;
    } else if n <= 0xFFFF {
      copy[1] := 126;
      Put(copy, 2, [n / 256, n % 256]);
      at := 4;
    } else {
      copy[1] := 127;
      Put(copy, 2, Be32(n / WORD));
      Put(copy, 6, Be32(n % WORD));
      at := 10;
    }
    assert copy[..at] == Header(128 + opcode % 16, false, n);
    Put(copy, at, data);
    assert copy[..at + n] == Header(128 + opcode % 16, false, n) + data;
  }

  method Put(a: array<Byte>, at: nat, data: seq<Byte>)
    requires at + |data| <= a.Length
    modifies a
    ensures a[..at + |data|] == old(a[..at]) + data && a[at + |data|..] == old(a[at + |data|..])
  {
    var i := 0;
    while i < |data|
      invariant 0 <= i <= |data|
      invariant forall x :: 0 <= x < a.Length ==> a[x] == if at <= x < at + i then data[x - at] else old(a[x])
    {
      a[at + i] := data[i];
      i := i + 1;
    }
  }

  /** struct iobuf. */
  class IoBuf {
    var buf: array<Byte>
    var len: nat

    ghost predicate Valid()
      reads this
    {
      len <= buf.Length < INT_LIMIT
    }

    function Contents(): seq<Byte>
      requires Valid()
      reads this, buf
    {
      buf[..len]
    }

    constructor (size: nat)
      requires size < INT_LIMIT
      ensures Valid() && fresh(buf) && Contents() == [] && buf.Length == size
    {
      buf, len := new Byte[size], 0;
    }

    /** iobuf_append. Growing doubles the new length; `granted` says whether the
        allocation succeeds. Where the doubled length is no int (`fits` is false) its
        conversion is undefined; here the buffer is then left as it was. */
    method Append(data: seq<Byte>, granted: bool) returns (n: nat, fits: bool)
      requires Valid()
      modifies this, buf
      ensures Valid() && (buf == old(buf) || fresh(buf))
      ensures fits <==> Fits(old(buf.Length), old(len), |data|)
      ensures n == if Kept(old(buf.Length), old(len), |data|, granted) then |data| else 0
      ensures Contents() == old(Contents()) + data[..n]
      ensures buf.Length == NewCapacity(old(buf.Length), old(len), |data|, granted)
    {
      n, fits := |data|, true;
      var newLen := len + n;
      if n == 0 {
        assert Contents() == old(Contents()) + data[..n];
      } else if newLen < buf.Length {
        Put(buf, len, data);
        len := newLen;
      } else if 2 * newLen >= INT_LIMIT {
        n, fits := 0, false;
      } else if granted {
        var p := new Byte[2 * newLen];
        Put(p, 0, buf[..len]);
        Put(p, len, data);
        buf, len := p, newLen;
      } else {
        n := 0;
      }
    }

    /** iobuf_remove; what is not there is not removed. */
    method Remove(n: int)
      requires Valid()
      modifies this`len, buf
      ensures Valid() && Contents() == if 0 <= n <= old(len) then old(Contents())[n..] else old(Contents())
    {
      if 0 <= n <= len {
        Put(buf, 0, buf[n..len]);
        len := len - n;
      }
    }

    /** deliver_websocket_frame: a complete frame is unmasked in place, handed on and
        removed. */
    method DeliverFrame() returns (d: Delivery)
      requires Valid()
      modifies this`len, buf
      ensures Valid() && d == ParseFrame(old(Contents()))
      ensures Contents() == if d.Wait? then old(Contents()) else old(Contents())[d.used..]
    {
      hide Lengths, Mask, MaskLen, ParseFrame, IntSum;
      ghost var was := Contents();
      ParseCases(was);
      var (header, data) := Lengths(Contents());
      var frame := IntSum(header, data);
      if !(0 < frame <= len) {
        return Wait;
      }
      if data >= 0 {
        var mask, bits := MaskLen(Contents()), buf[0];
        var payload := HandOn(header, data, mask);
        d := Deliver(bits, payload, frame);
      } else {
        d := Misread(frame);
      }
      Remove(frame);
    }

    method HandOn(header: nat, data: nat, mask: nat) returns (payload: seq<Byte>)
      requires Valid() && (mask == 0 || mask == 4) && mask <= header && header + data <= len
      modifies buf
      ensures payload == Payload(old(Contents()), header, data, mask)
      ensures Contents()[header + data..] == old(Contents())[header + data..]
    {
      hide Mask;
      ghost var was := buf[..];
      TakeSlice(was, len, header, header + data);
      if mask > 0 {
        TakeSlice(was, len, header - 4, header);
        Unmask(header, data);
      }
      TakeRest(was, buf[..], len, header + data);
      payload := buf[..][header..header + data];
    }

    method Unmask(header: nat, data: nat)
      requires Valid() && 4 <= header && header + data <= len
      modifies buf
      ensures var was, now := old(buf[..]), buf[..];
              && now[header..header + data] == Mask(was[header - 4..header], was[header..header + data])
              && now[..header] == was[..header] && now[header + data..] == was[header + data..]
    {
      var i := 0;
      while i < data
        invariant 0 <= i <= data
        invariant forall x :: 0 <= x < buf.Length ==>
                    buf[x] == if header <= x < header + i
                              then XorByte(old(buf[x]), old(buf[header - 4 + (x - header) % 4]))
                              else old(buf[x])
      {
        buf[header + i] := XorByte(buf[header + i], buf[header - 4 + i % 4]);
        i := i + 1;
      }
      Unmasked(old(buf[..]), buf[..], header, data);
    }

    /** do { } while (deliver_websocket_frame(conn)) */
    method DeliverAll() returns (ms: seq<Message>)
      requires Valid()
      modifies this`len, buf
      ensures Valid() && (ms, Contents()) == Drain(old(Contents()))
    {
      hide ParseFrame, MessageOf, Drain;
      ms := [];
      assert [] + Drain(Contents()).0 == Drain(Contents()).0;
      while true
        invariant Valid() && Drain(old(Contents())) == (ms + Drain(Contents()).0, Drain(Contents()).1)
        decreases len
      {
        ghost var was := Contents();
        var d := DeliverFrame();
        DrainStep(was, ms);
        if d.Wait? {
          return;
        }
        ms := ms + [MessageOf(d)];
      }
    }

    lemma DrainStep(was: seq<Byte>, ms: seq<Message>)
      ensures var d := ParseFrame(was);
              if d.Wait? then ms + Drain(was).0 == ms && Drain(was).1 == was
              else
                && ms + Drain(was).0 == ms + [MessageOf(d)] + Drain(was[d.used..]).0
                && Drain(was).1 == Drain(was[d.used..]).1
    {
      hide ParseFrame, MessageOf;
    }

    /** ns_read_from_socket, chunk after chunk. */
    method ReceiveAll(chunks: seq<Chunk>) returns (ms: seq<Message>, lost: nat)
      requires Valid()
      modifies this, buf
      ensures Valid()
      ensures Run(ms, Contents(), buf.Length, lost) == Through(old(buf.Length), old(Contents()), chunks)
    {
      hide Drain, Kept, NewCapacity, Through;
      ghost var whole := Through(buf.Length, Contents(), chunks);
      ms, lost := [], 0;
      var rest := chunks;
      ThroughStart(buf.Length, Contents(), chunks);
      while rest != []
        invariant Valid() && (buf == old(buf) || fresh(buf))
        invariant whole == After(ms, lost, Through(buf.Length, Contents(), rest))
        decreases |rest|
      {
        ghost var capacity, was := buf.Length, Contents();
        var n, _ := Append(rest[0].data, rest[0].granted);
        lost := lost + |rest[0].data| - n;
        assert rest[0].data[..|rest[0].data|] == rest[0].data && was + rest[0].data[..0] == was;
        var more := DeliverAll();
        ThroughStep(capacity, was, rest, ms, lost - |rest[0].data| + n);
        ms := ms + more;
        rest := rest[1..];
      }
      ThroughEnd(buf.Length, Contents(), ms, lost);
    }
  }

  lemma TakeSlice(s: seq<Byte>, n: nat, i: nat, j: nat)
    requires i <= j <= n <= |s|
    ensures s[..n][i..j] == s[i..j]
  {
  }

  lemma TakeRest(was: seq<Byte>, now: seq<Byte>, n: nat, i: nat)
    requires i <= n <= |was| == |now| && now[i..] == was[i..]
    ensures now[..n][i..] == was[..n][i..]
  {
    assert forall x :: i <= x < n ==> now[x] == now[i..][x - i] == was[i..][x - i] == was[x];
  }

  /** Byte by byte masked, and the rest as it was. */
  lemma Unmasked(was: seq<Byte>, now: seq<Byte>, header: nat, data: nat)
    requires |now| == |was| && 4 <= header && header + data <= |was|
    requires forall x :: header <= x < header + data ==> now[x] == XorByte(was[x], was[header - 4 + (x - header) % 4])
    requires forall x :: 0 <= x < |now| && !(header <= x < header + data) ==> now[x] == was[x]
    ensures now[header..header + data] == Mask(was[header - 4..header], was[header..header + data])
    ensures now[..header] == was[..header] && now[header + data..] == was[header + data..]
  {
    hide XorByte;
  }

  /** A run after what has been handed on and lost already. */
  function After(ms: seq<Message>, lost: nat, r: Run): Run {
    Run(ms + r.messages, r.rest, r.capacity, lost + r.lost)
  }

  lemma ThroughStart(capacity: nat, buf: seq<Byte>, chunks: seq<Chunk>)
    ensures After([], 0, Through(capacity, buf, chunks)) == Through(capacity, buf, chunks)
  {
    hide Through;
    assert [] + Through(capacity, buf, chunks).messages == Through(capacity, buf, chunks).messages;
  }

  lemma ThroughStep(capacity: nat, buf: seq<Byte>, chunks: seq<Chunk>, ms: seq<Message>, lost: nat)
    requires chunks != []
    ensures var c := chunks[0];
            var kept := Kept(capacity, |buf|, |c.data|, c.granted);
            var (more, rest) := Drain(if kept then buf + c.data else buf);
            var r := Through(NewCapacity(capacity, |buf|, |c.data|, c.granted), rest, chunks[1..]);
            var lost' := lost + (if kept then 0 else |c.data|);
            After(ms, lost, Through(capacity, buf, chunks)) == After(ms + more, lost', r)
  {
    hide Drain, Kept, NewCapacity;
    var c := chunks[0];
    var kept := Kept(capacity, |buf|, |c.data|, c.granted);
    var (more, rest) := Drain(if kept then buf + c.data else buf);
    var r := Through(NewCapacity(capacity, |buf|, |c.data|, c.granted), rest, chunks[1..]);
    assert ms + (more + r.messages) == ms + more + r.messages;
  }

  lemma ThroughEnd(capacity: nat, buf: seq<Byte>, ms: seq<Message>, lost: nat)
    ensures After(ms, lost, Through(capacity, buf, [])) == Run(ms, buf, capacity, lost)
  {
    assert ms + [] == ms;
  }
}
