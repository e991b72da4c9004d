/** MD5's context, and the hash of a list of strings. */
module Md5 {
  import opened StreamHash

  /** Four bytes, least significant first. */
  function Bytes(w: nat): (b: seq<byte>)
    ensures |b| == 4
  {
    [w % 256, w / 0x100 % 256, w / 0x1_0000 % 256, w / 0x100_0000 % 256]
  }

  lemma BytesAre(w: nat)
    requires w < WORD
    ensures var b := Bytes(w); Four(b[3], b[2], b[1], b[0]) == w
  {
    FourDigits(w);
    hide Four;
  }

  /** The last eight bytes of the padding spell the length in bits modulo 2^64, the least
      significant byte first. */
  lemma LengthBytes(n: nat)
    ensures Little(Bytes(BitsLow(n)) + Bytes(BitsHigh(n))) == 8 * n % (WORD * WORD)
  {
    hide Bytes, BitsHigh, BitsLow;
    BitsTogether(n);
    WordSizes(n);
    BytesAre(BitsHigh(n));
    BytesAre(BitsLow(n));
    LittleMore(Bytes(BitsLow(n)), Bytes(BitsHigh(n)));
    LittleMore(Bytes(BitsHigh(n)), []);
    assert Bytes(BitsHigh(n)) + [] == Bytes(BitsHigh(n));
  }

  /** The padded message, folded. */
  function Hash(c: Compression, init: State, m: seq<byte>): State {
    Fold(c, init, Padded(m, Bytes(BitsLow(|m|)) + Bytes(BitsHigh(|m|))))
  }

  function Concat(parts: seq<seq<byte>>): seq<byte> {
    if parts == [] then [] else parts[0] + Concat(parts[1..])
  }

  class Context {
    const compress: Compression
    const init: State
    var state: State
    var low: nat
    var high: nat
    const buffer: array<byte>

    /** The context has taken in exactly the message `m`. */
    ghost predicate Holds(m: seq<byte>)
      reads this, buffer
    {
      && low == BitsLow(|m|) && high == BitsHigh(|m|)
      && Absorbed(compress, init, m, state, buffer[..])
    }

    constructor (compress: Compression, init: State)
      ensures Holds([]) && fresh(buffer) && this.compress == compress && this.init == init
    {
      this.compress, this.init, state, low, high := compress, init, init, 0, 0;
      buffer := new byte[64];
    }

    /** MD5Update; no length is too long for it. */
    method Update(data: seq<byte>, ghost m: seq<byte>)
      requires |data| < WORD && Holds(m)
      modifies this, buffer
      ensures Holds(m + data)
    {
      hide BitsLow, BitsHigh, Absorbed, Used, Fold;
      var t := AddCount(|data|, |m|);
      Absorb(data, m, t);
    }

    method Absorb(data: seq<byte>, ghost m: seq<byte>, t: nat)
      requires t == Used(|m|) && Absorbed(compress, init, m, state, buffer[..])
      modifies this`state, buffer
      ensures Absorbed(compress, init, m + data, state, buffer[..])
    {
      hide Absorbed, Used, Fold, Aligned;
      if t > 0 {
        if |data| < 64 - t {
          Keep(data, m, t);
        } else {
          var rest := Fill(data, m, t);
          MoreBlocks(rest, m + data[..64 - t]);
          assert m + data[..64 - t] + rest == m + data;
        }
      } else {
        NothingUsed(m);
        MoreBlocks(data, m);
      }
    }

    /** The blocks that come straight from the data, and the bytes after them. */
    method MoreBlocks(data: seq<byte>, ghost m: seq<byte>)
      requires Aligned(m) && state == Fold(compress, init, m) && buffer.Length == 64
      modifies this`state, buffer
      ensures Absorbed(compress, init, m + data, state, buffer[..])
    {
      hide Absorbed, Fold, Aligned;
      var rest := data;
      ghost var mm := m;
      while |rest| >= 64
        invariant mm + rest == m + data && Aligned(mm) && state == Fold(compress, init, mm)
        decreases |rest|
      {
        var block := rest[..64];
        CopyInto(buffer, 0, block);
        assert buffer[..] == block;
        NextBlock(compress, init, mm, block);
        state := compress(state, buffer[..]);
        assert mm + block + rest[64..] == mm + rest;
        mm := mm + block;
        rest := rest[64..];
      }
      CopyInto(buffer, 0, rest);
      KeepRest(compress, init, mm, rest, buffer[..]);
    }

    /** The buffer is filled up and compressed; the bytes after that are returned. */
    method Fill(data: seq<byte>, ghost m: seq<byte>, t: nat) returns (rest: seq<byte>)
      requires t == Used(|m|) && 64 - t <= |data| && Absorbed(compress, init, m, state, buffer[..])
      modifies this`state, buffer
      ensures rest == data[64 - t..] && Aligned(m + data[..64 - t]) && buffer.Length == 64
      ensures state == Fold(compress, init, m + data[..64 - t])
    {
      var n := 64 - t;
      FillBlock(compress, init, m, state, buffer[..], data[..n]);
      assert buffer[..][..t] == buffer[..t];
      hide Fold, Aligned, Used;
      CopyInto(buffer, t, data[..n]);
      assert buffer[..] == old(buffer[..t]) + data[..n];
      state := compress(state, buffer[..]);
      rest := data[n..];
    }

    method Keep(data: seq<byte>, ghost m: seq<byte>, t: nat)
      requires t == Used(|m|) && |data| < 64 - t && Absorbed(compress, init, m, state, buffer[..])
      modifies buffer
      ensures Absorbed(compress, init, m + data, state, buffer[..])
    {
      ghost var before := buffer[..];
      CopyInto(buffer, t, data);
      hide Fold, Used;
      KeepAll(compress, init, m, state, before, data, buffer[..]);
    }

    lemma NothingUsed(m: seq<byte>)
      requires Used(|m|) == 0 && Absorbed(compress, init, m, state, buffer[..])
      ensures Aligned(m) && state == Fold(compress, init, m) && buffer.Length == 64
    {
    }

    method AddCount(len: nat, ghost n: nat) returns (t: nat)
      requires len < WORD && low == BitsLow(n) && high == BitsHigh(n)
      modifies this`low, this`high
      ensures low == BitsLow(n + len) && high == BitsHigh(n + len) && t == Used(n)
    {
      hide BitsLow, BitsHigh, Used;
      BufferedCount(n);
      t := low;
      low := (t + 8 * len % WORD) % WORD;
      if low < t {
        high := (high + 1) % WORD;
      }
      high := (high + len / 0x2000_0000) % WORD;
      CounterStep(n, len, t, old(high), low, high);
      t := t / 8 % 64;
    }

    /** MD5Final: the padding is written into the buffer, over a second block if the
        length does not fit into this one. */
    method Final(ghost m: seq<byte>) returns (digest: State)
      requires Holds(m)
      modifies this, buffer
      ensures digest == Hash(compress, init, m)
    {
      hide BitsLow, BitsHigh, Fold, Bytes, Used, Absorbed, Hash;
      BufferedCount(|m|);
      BufferSize(m);
      var count := low / 8 % 64;
      var length := Bytes(low) + Bytes(high);
      FinalIs(m, buffer[..], state);
      state := Pad(count, length);
      digest := state;
    }

    lemma BufferSize(m: seq<byte>)
      requires Absorbed(compress, init, m, state, buffer[..])
      ensures buffer.Length == 64
    {
    }

    /** The padding behind `count` buffered bytes, and the state after it. */
    method Pad(count: nat, length: seq<byte>) returns (st: State)
      requires count < 64 == buffer.Length && |length| == 8
      modifies buffer
      ensures st == Finished(state, old(buffer[..count]), length)
    {
      ghost var first := buffer[..count] + [128];
      st := state;
      buffer[count] := 128;
      var left := 63 - count;
      if left < 8 {
        CopyInto(buffer, count + 1, Zeros(left));
        assert buffer[..] == first + Zeros(left);
        st := compress(st, buffer[..]);
        CopyInto(buffer, 0, Zeros(56));
        CopyInto(buffer, 56, length);
        assert buffer[..] == Zeros(56) + length;
      } else {
        CopyInto(buffer, count + 1, Zeros(left - 8));
        CopyInto(buffer, 56, length);
        assert buffer[..] == first + Zeros(left - 8) + length;
      }
      st := compress(st, buffer[..]);
    }

    function Finished(st: State, buffered: seq<byte>, length: seq<byte>): State
      requires |buffered| < 64
    {
      var first, count := buffered + [128], |buffered|;
      if count > 55 then compress(compress(st, first + Zeros(63 - count)), Zeros(56) + length)
      else compress(st, first + Zeros(55 - count) + length)
    }

    lemma FinalIs(m: seq<byte>, was: seq<byte>, st: State)
      requires Absorbed(compress, init, m, st, was)
      ensures Used(|m|) <= |was|
      ensures Finished(st, was[..Used(|m|)], Bytes(BitsLow(|m|)) + Bytes(BitsHigh(|m|))) == Hash(compress, init, m)
    {
      hide Finished, Fold, Bytes, BitsLow, BitsHigh, Used, Tail;
      LastBlocks(m, was[..Used(|m|)], st, Bytes(BitsLow(|m|)) + Bytes(BitsHigh(|m|)));
    }

    /** What Final computes is the fold over the padding. */
    lemma LastBlocks(m: seq<byte>, tail: seq<byte>, st: State, length: seq<byte>)
      requires st == Fold(compress, init, m) && tail == Tail(m) && |length| == 8
      ensures |tail| < 64 && Finished(st, tail, length) == Fold(compress, init, Padded(m, length))
    {
      PaddingFits(|m|);
      hide Fold, Whole, Tail, Used, Aligned, Zeros, ZeroCount;
      Split(m);
      FoldWhole(compress, init, m);
      var count := |tail|;
      if count > 55 {
        var b1, b2 := tail + [128] + Zeros(63 - count), Zeros(56) + length;
        LongPadding(m, length);
        NextBlock(compress, init, Whole(m), b1);
        NextBlock(compress, init, Whole(m) + b1, b2);
      } else {
        var b := tail + [128] + Zeros(55 - count) + length;
        assert Padded(m, length) == Whole(m) + b;
        NextBlock(compress, init, Whole(m), b);
      }
    }

    lemma LongPadding(m: seq<byte>, length: seq<byte>)
      requires |length| == 8 && Used(|m|) > 55
      ensures Padded(m, length) == Whole(m) + (Tail(m) + [128] + Zeros(63 - Used(|m|))) + (Zeros(56) + length)
    {
      PaddingFits(|m|);
      hide Whole, Tail, Used, Zeros, ZeroCount;
      Split(m);
      ZerosAdd(63 - Used(|m|), 56);
    }
  }

  lemma {:induction false} ZerosAdd(a: nat, b: nat)
    ensures Zeros(a) + Zeros(b) == Zeros(a + b)
    decreases b
  {
  }

  /** mg_md5: the hash of a list of strings is the hash of what they spell together,
      wherever the cuts are. */
  method HashStrings(compress: Compression, init: State, parts: seq<seq<byte>>) returns (digest: State)
    requires forall i :: 0 <= i < |parts| ==> |parts[i]| < WORD
    ensures digest == Hash(compress, init, Concat(parts))
  {
    hide Fold, Hash, Absorbed, Used, BitsLow, BitsHigh;
    var ctx := new Context(compress, init);
    var rest := parts;
    ghost var m := [];
    while rest != []
      invariant ctx.Holds(m) && fresh(ctx) && fresh(ctx.buffer) && ctx.compress == compress && ctx.init == init
      invariant forall i :: 0 <= i < |rest| ==> |rest[i]| < WORD
      invariant m + Concat(rest) == Concat(parts)
      decreases |rest|
    {
      ctx.Update(rest[0], m);
      assert m + (rest[0] + Concat(rest[1..])) == m + rest[0] + Concat(rest[1..]);
      m := m + rest[0];
      rest := rest[1..];
    }
    assert m + [] == m;
    digest := ctx.Final(m);
  }
}
