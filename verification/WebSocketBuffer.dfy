/** Frames on their way through the receive buffer: which bytes are lost where the buffer
    would have to grow beyond an int, and when the frames sent arrive all the same. */
module WebSocketBuffer {
  import opened Arithmetic
  import opened WebSocket

  /** 2^30: a buffer that needs to hold so many bytes and is full cannot grow. */
  const HALF: nat := 0x4000_0000

  predicate Countable(fs: seq<Frame>)
    requires forall i :: 0 <= i < |fs| ==> ValidFrame(fs[i])
  {
    forall i :: 0 <= i < |fs| ==> |Encode(fs[i])| < INT_LIMIT
  }

  /** With no byte lost the handler gets the frames sent exactly if an int can count each. */
  lemma KeptFramesArrive(fs: seq<Frame>, capacity: nat, chunks: seq<Chunk>)
    requires forall i :: 0 <= i < |fs| ==> ValidFrame(fs[i])
    requires Concat(DataOf(chunks)) == EncodeAll(fs) && Through(capacity, [], chunks).lost == 0
    ensures var r := Through(capacity, [], chunks);
            r.messages == MessagesOf(fs) && r.rest == [] <==> Countable(fs)
  {
    hide Through, Receive, Concat, EncodeAll, MessagesOf, Encode, DataOf;
    NothingLost(capacity, [], chunks);
    FramesArrive(fs, DataOf(chunks));
  }

  // ----- losses show

  /** The fewest bytes a message can come in. */
  function Least(m: Message): nat {
    match m
    case Bad => 0
    case Message(_, payload) => (if |payload| < 126 then 2 else if |payload| <= 0xFFFF then 4 else 10) + |payload|
  }

  function LeastOf(ms: seq<Message>): nat {
    if ms == [] then 0 else Least(ms[0]) + LeastOf(ms[1..])
  }

  lemma {:induction false} LeastAppend(a: seq<Message>, b: seq<Message>)
    ensures LeastOf(a + b) == LeastOf(a) + LeastOf(b)
    decreases |a|
  {
    hide Least;
    if a == [] {
      assert a + b == b;
    } else {
      assert (a + b)[1..] == a[1..] + b;
      LeastAppend(a[1..], b);
    }
  }

  lemma LeastTaken(buf: seq<Byte>)
    ensures var d := ParseFrame(buf); !d.Wait? ==> Least(MessageOf(d)) <= d.used <= |buf|
  {
    hide Mask, Word32;
    MaskLengths();
  }

  lemma MaskLengths()
    ensures forall key: seq<Byte>, data: seq<Byte> :: |key| == 4 ==> |Mask(key, data)| == |data|
  {
  }

  lemma {:induction false} DrainTakes(buf: seq<Byte>)
    ensures LeastOf(Drain(buf).0) + |Drain(buf).1| <= |buf|
    decreases |buf|
  {
    hide ParseFrame, MessageOf, Least;
    LeastTaken(buf);
    var d := ParseFrame(buf);
    if !d.Wait? {
      DrainTakes(buf[d.used..]);
      assert ([MessageOf(d)] + Drain(buf[d.used..]).0)[1..] == Drain(buf[d.used..]).0;
    }
  }

  /** What is handed on, left and lost is not more than what was received. */
  lemma {:induction false} ThroughTakes(capacity: nat, buf: seq<Byte>, chunks: seq<Chunk>)
    ensures var r := Through(capacity, buf, chunks);
            LeastOf(r.messages) + |r.rest| + r.lost <= |buf| + |Concat(DataOf(chunks))|
    decreases |chunks|
  {
    hide Drain, Kept, NewCapacity, LeastOf;
    if chunks == [] {
      assert LeastOf([]) == 0 by { NoLeast(); }
    } else {
      var c := chunks[0];
      var kept := Kept(capacity, |buf|, |c.data|, c.granted);
      var got := if kept then buf + c.data else buf;
      var (ms, rest) := Drain(got);
      DrainTakes(got);
      var next := NewCapacity(capacity, |buf|, |c.data|, c.granted);
      ThroughTakes(next, rest, chunks[1..]);
      LeastAppend(ms, Through(next, rest, chunks[1..]).messages);
      assert DataOf(chunks)[1..] == DataOf(chunks[1..]);
    }
  }

  lemma NoLeast()
    ensures LeastOf([]) == 0
  {
  }

  function Masked(fs: seq<Frame>): nat {
    if fs == [] then 0 else (if fs[0].key.Key? then 1 else 0) + Masked(fs[1..])
  }

  lemma EncodedSize(f: Frame)
    requires ValidFrame(f)
    ensures |Encode(f)| == Least(Message(f.bits, f.data)) + (if f.key.Key? then 4 else 0)
  {
    hide Mask, Be32;
    MaskLengths();
  }

  lemma {:induction false} EncodedSizes(fs: seq<Frame>)
    requires forall i :: 0 <= i < |fs| ==> ValidFrame(fs[i])
    ensures |EncodeAll(fs)| == LeastOf(MessagesOf(fs)) + 4 * Masked(fs)
    decreases |fs|
  {
    hide Encode, Least;
    if fs != [] {
      EncodedSize(fs[0]);
      EncodedSizes(fs[1..]);
      assert MessagesOf(fs)[1..] == MessagesOf(fs[1..]);
    }
  }

  /** If the handler gets the frames sent, no more bytes are lost or left than there are
      bytes of masking keys. */
  lemma LossShows(fs: seq<Frame>, capacity: nat, chunks: seq<Chunk>)
    requires forall i :: 0 <= i < |fs| ==> ValidFrame(fs[i])
    requires Concat(DataOf(chunks)) == EncodeAll(fs)
    ensures var r := Through(capacity, [], chunks);
            r.messages == MessagesOf(fs) ==> r.lost + |r.rest| <= 4 * Masked(fs)
  {
    hide Through, Concat, EncodeAll, MessagesOf, DataOf, LeastOf, Masked;
    ThroughTakes(capacity, [], chunks);
    EncodedSizes(fs);
  }

  /** Frames without masking keys arrive through the buffer if and only if no byte is lost
      on the way into it and an int can count the bytes of each. */
  lemma PlainFramesArrive(fs: seq<Frame>, capacity: nat, chunks: seq<Chunk>)
    requires forall i :: 0 <= i < |fs| ==> ValidFrame(fs[i]) && fs[i].key.NoKey?
    requires Concat(DataOf(chunks)) == EncodeAll(fs)
    ensures var r := Through(capacity, [], chunks);
            r.messages == MessagesOf(fs) <==> r.lost == 0 && Countable(fs)
  {
    hide Through, Concat, EncodeAll, MessagesOf, DataOf, Countable;
    LossShows(fs, capacity, chunks);
    NoneMasked(fs);
    if Through(capacity, [], chunks).lost == 0 { KeptFramesArrive(fs, capacity, chunks); }
  }

  lemma {:induction false} NoneMasked(fs: seq<Frame>)
    requires forall i :: 0 <= i < |fs| ==> fs[i].key.NoKey?
    ensures Masked(fs) == 0
    decreases |fs|
  {
    if fs != [] { NoneMasked(fs[1..]); }
  }

  /** Masking keys can be lost unnoticed: four of six bytes of a frame are lost because
      memory is refused, and what is left happens to be the same message. */
  lemma HiddenLoss()
    ensures var f := Frame(130, Key([0, 0, 0, 0]), []);
            var chunks := [Chunk([130], true), Chunk([128, 0, 0, 0], false), Chunk([0], true)];
            var r := Through(3, [], chunks);
            && Concat(DataOf(chunks)) == EncodeAll([f])
            && r.messages == MessagesOf([f]) && r.lost == 4 && Masked([f]) == 1
  {
    var f := Frame(130, Key([0, 0, 0, 0]), []);
    var a, b, c := Chunk([130], true), Chunk([128, 0, 0, 0], false), Chunk([0], true);
    SixBytes(f, a, b, c);
    TwoBytes();
    var r3 := Through(3, [], []);
    var r2 := Through(3, [130], [c]);
    var r1 := Through(3, [130], [b, c]);
    assert r3 == Run([], [], 3, 0);
    assert [130] + [0] == [130, 0] && [] + [130] == [130];
    assert [c][1..] == [] && [b, c][1..] == [c] && [a, b, c][1..] == [b, c];
    assert [Message(130, [])] + [] == [Message(130, [])] && [] + [Message(130, [])] == [Message(130, [])];
    hide Drain;
    assert r2 == Run([Message(130, [])], [], 3, 0);
    assert r1 == Run([Message(130, [])], [], 3, 4);
    assert Through(3, [], [a, b, c]) == r1;
  }

  lemma SixBytes(f: Frame, a: Chunk, b: Chunk, c: Chunk)
    requires f == Frame(130, Key([0, 0, 0, 0]), [])
    requires a.data == [130] && b.data == [128, 0, 0, 0] && c.data == [0]
    ensures Concat(DataOf([a, b, c])) == EncodeAll([f]) && MessagesOf([f]) == [Message(130, [])] && Masked([f]) == 1
  {
    JustOne(f);
    assert Encode(f) == [130, 128] + [0, 0, 0, 0] + [];
    assert [f][1..] == [];
    hide EncodeAll, Encode;
    ThreeChunks(a, b, c);
    assert [130] + ([128, 0, 0, 0] + [0]) == [130, 128] + [0, 0, 0, 0] + [];
  }

  lemma ThreeChunks(a: Chunk, b: Chunk, c: Chunk)
    ensures Concat(DataOf([a, b, c])) == a.data + (b.data + c.data)
  {
    FirstChunk(a, [b, c]);
    FirstChunk(b, [c]);
    FirstChunk(c, []);
    assert [a] + [b, c] == [a, b, c] && [b] + [c] == [b, c] && [c] + [] == [c];
    assert c.data + Concat(DataOf([])) == c.data;
    hide Concat, DataOf;
  }

  lemma FirstChunk(c: Chunk, more: seq<Chunk>)
    ensures Concat(DataOf([c] + more)) == c.data + Concat(DataOf(more))
  {
    assert ([c] + more)[1..] == more;
    assert ([c.data] + DataOf(more))[1..] == DataOf(more);
  }

  lemma TwoBytes()
    ensures Drain([130]) == ([], [130]) && Drain([130, 0]) == ([Message(130, [])], [])
  {
    assert ParseFrame([130]).Wait?;
    assert ParseFrame([130, 0]) == Deliver(130, [], 2);
    NothingDrained();
    hide ParseFrame;
    assert [130, 0][2..] == [] && [Message(130, [])] + [] == [Message(130, [])];
    assert MessageOf(Deliver(130, [], 2)) == Message(130, []);
    DrainFirst([130, 0]);
  }

  // ----- frames that fit

  /** The bytes behind the first k are those of some last frames, with what is left of the
      first k in front. */
  lemma {:induction false} DrainPrefix(fs: seq<Frame>, k: nat, limit: nat) returns (j: nat)
    requires forall i :: 0 <= i < |fs| ==> ValidFrame(fs[i]) && |Encode(fs[i])| <= limit
    requires 0 < limit < INT_LIMIT && k <= |EncodeAll(fs)|
    ensures j <= |fs| && var rest := Drain(EncodeAll(fs)[..k]).1;
            rest + EncodeAll(fs)[k..] == EncodeAll(fs[j..]) && |rest| < limit
    decreases |fs|
  {
    hide ParseFrame, Encode;
    var all := EncodeAll(fs);
    if fs == [] || k < |Encode(fs[0])| {
      j := 0;
      if fs == [] { NothingDrained(); assert all[..k] == []; } else { FirstWaits(fs, k); }
      assert all[..k] + all[k..] == all && fs[0..] == fs;
    } else {
      var n := |Encode(fs[0])|;
      var more := EncodeAll(fs[1..]);
      j := DrainPrefix(fs[1..], k - n, limit);
      assert all[..k] == Encode(fs[0]) + more[..k - n] && all[k..] == more[k - n..];
      ParseEncoded(fs[0], more[..k - n]);
      assert all[..k][n..] == more[..k - n];
      assert fs[1..][j..] == fs[j + 1..];
      j := j + 1;
    }
  }

  lemma FirstWaits(fs: seq<Frame>, k: nat)
    requires fs != [] && (forall i :: 0 <= i < |fs| ==> ValidFrame(fs[i])) && k < |Encode(fs[0])| < INT_LIMIT
    ensures k <= |EncodeAll(fs)| && Drain(EncodeAll(fs)[..k]) == ([], EncodeAll(fs)[..k])
  {
    hide ParseFrame, Encode;
    EncodedSize(fs[0]);
    PrefixWaits(fs[0], k);
    assert EncodeAll(fs)[..k] == Encode(fs[0])[..k];
  }

  predicate Read(chunks: seq<Chunk>) {
    forall i :: 0 <= i < |chunks| ==> |chunks[i].data| <= CHUNK && chunks[i].granted
  }

  /** Nothing is lost as long as what is left and the next chunk stay below 2^30. */
  lemma {:induction false} ShortFramesKept(fs: seq<Frame>, capacity: nat, buf: seq<Byte>, chunks: seq<Chunk>)
    requires forall i :: 0 <= i < |fs| ==> ValidFrame(fs[i]) && |Encode(fs[i])| <= HALF - CHUNK
    requires Read(chunks) && buf + Concat(DataOf(chunks)) == EncodeAll(fs) && |buf| < HALF - CHUNK
    ensures Through(capacity, buf, chunks).lost == 0
    decreases |chunks|
  {
    hide Drain, Encode, EncodeAll;
    if chunks != [] {
      var c := chunks[0];
      var got, all := buf + c.data, EncodeAll(fs);
      assert DataOf(chunks)[0] == c.data && DataOf(chunks)[1..] == DataOf(chunks[1..]);
      assert all == got + Concat(DataOf(chunks[1..]));
      assert all[..|got|] == got && all[|got|..] == Concat(DataOf(chunks[1..]));
      var j := DrainPrefix(fs, |got|, HALF - CHUNK);
      ShortFramesKept(fs[j..], NewCapacity(capacity, |buf|, |c.data|, c.granted), Drain(got).1, chunks[1..]);
    }
  }

  /** Frames of up to 2^30 - 2048 bytes arrive through the program's buffer, however many
      they are and whatever the receives cut, as long as memory is granted. */
  lemma ShortFramesArrive(fs: seq<Frame>, capacity: nat, chunks: seq<Chunk>)
    requires forall i :: 0 <= i < |fs| ==> ValidFrame(fs[i]) && |Encode(fs[i])| <= HALF - CHUNK
    requires Read(chunks) && Concat(DataOf(chunks)) == EncodeAll(fs)
    ensures var r := Through(capacity, [], chunks);
            r.messages == MessagesOf(fs) && r.rest == [] && r.lost == 0
  {
    hide Through, Concat, EncodeAll, MessagesOf, DataOf, Encode;
    assert [] + Concat(DataOf(chunks)) == EncodeAll(fs);
    ShortFramesKept(fs, capacity, [], chunks);
    KeptFramesArrive(fs, capacity, chunks);
  }

  // ----- frames that do not

  /** For instance: 2048 bytes for a buffer of 2^30 bytes that has room for no more. */
  lemma GrowthFails()
    ensures !Fits(HALF, HALF - CHUNK, CHUNK) && Fits(HALF, HALF - CHUNK, CHUNK - 1)
  {
  }

  /** All receives but the last one fill their room. */
  predicate Full(chunks: seq<Chunk>) {
    forall i :: 0 <= i < |chunks| ==>
      && chunks[i].granted && 0 < |chunks[i].data| <= CHUNK && (i < |chunks| - 1 ==> |chunks[i].data| == CHUNK)
  }

  /** With enough of its header in front, nothing is delivered before a frame's size. */
  lemma HeaderWaits(f: Frame, k: nat, x: seq<Byte>)
    requires ValidFrame(f) && 14 <= k <= |Encode(f)| < INT_LIMIT && k + |x| < |Encode(f)|
    ensures ParseFrame(Encode(f)[..k] + x).Wait? && Drain(Encode(f)[..k] + x) == ([], Encode(f)[..k] + x)
  {
    hide Header, Mask, MaskLen, Encode, Int32;
    var a, b := Encode(f)[..k], Encode(f)[k..];
    EncodedParts(f, []);
    assert a + b == Encode(f) + [];
    SameLengths(a, x, b);
    ParseCases(a + x);
    hide ParseFrame, Lengths;
  }

  lemma SameLengths(a: seq<Byte>, b: seq<Byte>, c: seq<Byte>)
    requires |a| >= 14
    ensures Lengths(a + b) == Lengths(a + c)
  {
    hide Word32, Int32;
    assert (a + b)[6..10] == a[6..10] == (a + c)[6..10];
  }

  /** A frame of 2^30 bytes or more is never delivered once the buffer is full. */
  lemma {:induction false} Overfull(f: Frame, chunks: seq<Chunk>)
    requires ValidFrame(f) && HALF <= |Encode(f)| < INT_LIMIT && Full(chunks)
    ensures Through(HALF, Encode(f)[..HALF - CHUNK], chunks).messages == []
    decreases |chunks|
  {
    hide Drain, Encode, ParseFrame;
    if chunks != [] {
      var buf, c := Encode(f)[..HALF - CHUNK], chunks[0].data;
      if |c| == CHUNK {
        assert buf + [] == buf;
        HeaderWaits(f, HALF - CHUNK, []);
        assert Full(chunks[1..]);
        Overfull(f, chunks[1..]);
      } else {
        HeaderWaits(f, HALF - CHUNK, c);
      }
    }
  }

  lemma Pow2Near(i: nat)
    requires 0x4_0000 <= Pow2(i) < 0x8_0000
    ensures Pow2(i) == 0x4_0000
  {
    assert Pow2(6) == 64;
    assert Pow2(12) == 4096;
    assert Pow2(18) == 0x4_0000 && Pow2(19) == 0x8_0000;
    if i < 18 { Pow2Monotone(i, 18); } else if i > 18 { Pow2Monotone(19, i); }
  }

  /** The buffer's capacity after j full receives. */
  predicate Doubled(capacity: nat, j: nat, i: nat) {
    if j == 0 then capacity == 0 else capacity == 2 * CHUNK * Pow2(i) && CHUNK * j < capacity <= 2 * CHUNK * j
  }

  lemma DoubledNext(capacity: nat, j: nat, i: nat) returns (i': nat)
    requires Doubled(capacity, j, i) && CHUNK * (j + 1) < HALF
    ensures Kept(capacity, CHUNK * j, CHUNK, true) && Doubled(NewCapacity(capacity, CHUNK * j, CHUNK, true), j + 1, i')
  {
    i' := if j == 0 then 0 else if CHUNK * (j + 1) < capacity then i else i + 1;
  }

  lemma DoubledLast(capacity: nat, j: nat, i: nat)
    requires Doubled(capacity, j, i) && CHUNK * (j + 1) == HALF
    ensures capacity == HALF
  {
    Pow2Near(i);
  }

  /** Full receives of a frame of 2^30 bytes or more fill a buffer that starts empty. */
  lemma {:induction false} Filling(f: Frame, j: nat, i: nat, capacity: nat, chunks: seq<Chunk>)
    requires ValidFrame(f) && HALF <= |Encode(f)| < INT_LIMIT && Full(chunks)
    requires CHUNK * (j + 1) <= HALF && Doubled(capacity, j, i)
    requires Concat(DataOf(chunks)) == Encode(f)[CHUNK * j..]
    ensures Through(capacity, Encode(f)[..CHUNK * j], chunks).messages == []
    decreases HALF - CHUNK * j
  {
    hide Drain, Encode, ParseFrame, Pow2, Doubled, Kept, NewCapacity, Concat, DataOf;
    var buf := Encode(f)[..CHUNK * j];
    if CHUNK * (j + 1) == HALF {
      DoubledLast(capacity, j, i);
      Overfull(f, chunks);
    } else {
      FirstFull(chunks);
      var c, more := chunks[0].data, Concat(DataOf(chunks[1..]));
      assert Encode(f)[CHUNK * j..] == c + more;
      PrefixGrows(Encode(f), CHUNK * j, c, more);
      var i' := DoubledNext(capacity, j, i);
      HeaderWaits(f, CHUNK * (j + 1), []);
      assert buf + c + [] == buf + c;
      assert Full(chunks[1..]);
      Filling(f, j + 1, i', NewCapacity(capacity, CHUNK * j, CHUNK, true), chunks[1..]);
    }
  }

  lemma PrefixGrows(s: seq<Byte>, n: nat, c: seq<Byte>, more: seq<Byte>)
    requires n <= |s| && s[n..] == c + more
    ensures s[..n] + c == s[..n + |c|] && more == s[n + |c|..]
  {
    assert s == s[..n] + (c + more);
    assert s == s[..n] + c + more;
  }

  /** Of more than one receive's worth of bytes the first receive is full. */
  lemma FirstFull(chunks: seq<Chunk>)
    requires Full(chunks) && |Concat(DataOf(chunks))| > CHUNK
    ensures chunks != [] && |chunks[0].data| == CHUNK && chunks[0].granted
    ensures Concat(DataOf(chunks)) == chunks[0].data + Concat(DataOf(chunks[1..]))
  {
    assert DataOf(chunks)[1..] == if chunks == [] then [] else DataOf(chunks[1..]);
  }

  /** One frame, read 2048 bytes at a time into a new buffer with all the memory it asks
      for, is delivered if and only if it has less than 2^30 bytes. */
  lemma OneFrame(f: Frame, chunks: seq<Chunk>)
    requires ValidFrame(f) && |Encode(f)| < INT_LIMIT && Full(chunks) && Concat(DataOf(chunks)) == Encode(f)
    ensures var r := Through(0, [], chunks);
            if |Encode(f)| < HALF then r.messages == [Message(f.bits, f.data)] && r.rest == [] else r.messages == []
  {
    hide Through, Concat, DataOf, Encode, Full;
    if |Encode(f)| < HALF {
      assert [] + Concat(DataOf(chunks)) == Concat(DataOf(chunks));
      SmallWhole(0, [], chunks);
      JustOne(f);
      KeptFramesArrive([f], 0, chunks);
    } else {
      assert Encode(f)[..CHUNK * 0] == [] && Encode(f)[CHUNK * 0..] == Encode(f);
      Filling(f, 0, 0, 0, chunks);
    }
  }

  lemma JustOne(f: Frame)
    requires ValidFrame(f)
    ensures EncodeAll([f]) == Encode(f) && MessagesOf([f]) == [Message(f.bits, f.data)]
  {
    assert [f][1..] == [];
  }

  /** Less than 2^30 bytes in all never need too much room. */
  lemma {:induction false} SmallWhole(capacity: nat, buf: seq<Byte>, chunks: seq<Chunk>)
    requires Full(chunks) && |buf| + |Concat(DataOf(chunks))| < HALF
    ensures Through(capacity, buf, chunks).lost == 0
    decreases |chunks|
  {
    hide Drain, LeastOf;
    if chunks != [] {
      var c := chunks[0];
      assert DataOf(chunks)[1..] == DataOf(chunks[1..]);
      DrainTakes(buf + c.data);
      assert Full(chunks[1..]);
      SmallWhole(NewCapacity(capacity, |buf|, |c.data|, c.granted), Drain(buf + c.data).1, chunks[1..]);
    }
  }
}
