/** SHA-1's context: the last block waits in a buffer, the bit count in two words. */
module Sha1 {
  import opened StreamHash

  /** Four bytes, most significant first. */
  function Bytes(w: nat): (b: seq<byte>)
    ensures |b| == 4
  {
    [w / 0x100_0000 % 256, w / 0x1_0000 % 256, w / 0x100 % 256, w % 256]
  }

  lemma BytesAre(w: nat)
    requires w < WORD
    ensures var b := Bytes(w); Four(b[0], b[1], b[2], b[3]) == w
  {
    FourDigits(w);
    hide Four;
  }

  /** The last eight bytes of the padding spell the length in bits modulo 2^64, the most
      significant byte first. */
  lemma LengthBytes(n: nat)
    ensures Big(Bytes(BitsHigh(n)) + Bytes(BitsLow(n))) == 8 * n % (WORD * WORD)
  {
    hide Bytes, BitsHigh, BitsLow;
    BitsTogether(n);
    WordSizes(n);
    BytesAre(BitsHigh(n));
    BytesAre(BitsLow(n));
    BigMore([], Bytes(BitsHigh(n)));
    assert [] + Bytes(BitsHigh(n)) == Bytes(BitsHigh(n));
    BigMore(Bytes(BitsHigh(n)), Bytes(BitsLow(n)));
  }

  /** The padded message, folded. */
  function Hash(c: Compression, init: State, m: seq<byte>): State {
    Fold(c, init, Padded(m, Bytes(BitsHigh(|m|)) + Bytes(BitsLow(|m|))))
  }

  class Context {
    const compress: Compression
    const init: State
    var state: State
    var low: nat
    var high: nat
    const buffer: array<byte>

    /** The context has taken in exactly the message `m`. */
    ghost predicate Holds(m: seq<byte>)
      reads this, buffer
    {
      && low == BitsLow(|m|) && high == BitsHigh(|m|)
      && Absorbed(compress, init, m, state, buffer[..])
    }

    constructor (compress: Compression, init: State)
      ensures Holds([]) && fresh(buffer) && this.compress == compress && this.init == init
    {
      this.compress, this.init, state, low, high := compress, init, init, 0, 0;
      buffer := new byte[64];
    }

    /** SHA1Update. All arithmetic on `len` is in 32 bits; `fits` is false when the sum
        of buffered and new bytes wraps. The source then copies all of the data to where
        the buffered bytes end, beyond the buffer; here the buffer and the state are left
        as they were. */
    method Update(data: seq<byte>, ghost m: seq<byte>) returns (fits: bool)
      requires |data| < WORD && Holds(m)
      modifies this, buffer
      ensures fits <==> Used(|m|) + |data| < WORD
      ensures fits ==> Holds(m + data)
      ensures !fits ==> state == old(state) && buffer[..] == old(buffer[..])
      ensures low == BitsLow(|m| + |data|) && high == BitsHigh(|m| + |data|)
    {
      hide BitsLow, BitsHigh, Absorbed, Used, Fold;
      var len := |data|;
      BufferedCount(|m|);
      BufferSize(m);
      var j := AddCount(len, |m|);
      Wraps(j, len);
      if (j + len) % WORD > 63 {
        Blocks(data, m, j);
        fits := true;
      } else {
        fits := j + len <= 64;
        if fits {
          ghost var before := buffer[..];
          CopyInto(buffer, j, data);
          KeepAll(compress, init, m, state, before, data, buffer[..]);
        }
      }
    }

    /** The counters take in `len` bytes; the result is the number of bytes buffered. */
    method AddCount(len: nat, ghost n: nat) returns (j: nat)
      requires len < WORD && low == BitsLow(n) && high == BitsHigh(n)
      modifies this`low, this`high
      ensures low == BitsLow(n + len) && high == BitsHigh(n + len) && j == Used(n)
    {
      hide BitsLow, BitsHigh, Used;
      BufferedCount(n);
      j := low;
      low := (low + 8 * len % WORD) % WORD;
      if low < j {
        high := (high + 1) % WORD;
      }
      high := (high + len / 0x2000_0000) % WORD;
      CounterStep(n, len, j, old(high), low, high);
      j := j / 8 % 64;
    }

    /** The source only copies when the 32-bit sum is below 64; then the copy stays
        inside the buffer exactly if the sum did not wrap. */
    static lemma Wraps(j: nat, len: nat)
      requires j < 64 && len < WORD
      ensures (j + len) % WORD > 63 ==> 63 < j + len < WORD
      ensures (j + len) % WORD <= 63 ==> (j + len <= 64 <==> j + len < WORD) && j + len != 64
    {
    }

    /** One byte buffered and 2^32 - 1 new ones: the sum is 0, and all are copied. */
    static lemma WrapsAt(m: seq<byte>, data: seq<byte>)
      requires |m| == 1 && |data| == WORD - 1
      ensures (Used(|m|) + |data|) % WORD <= 63 && Used(|m|) + |data| > 64
    {
    }

    /** The part of Update that compresses. */
    method Blocks(data: seq<byte>, ghost m: seq<byte>, j: nat)
      requires j == Used(|m|) && 63 < j + |data| < WORD
      requires Absorbed(compress, init, m, state, buffer[..])
      modifies this`state, buffer
      ensures Absorbed(compress, init, m + data, state, buffer[..])
    {
      hide Absorbed, Fold, Aligned, Used;
      var len := |data|;
      var i := 64 - j;
      BufferSize(m);
      FillBlock(compress, init, m, state, buffer[..], data[..i]);
      assert buffer[..][..j] == buffer[..j];
      CopyInto(buffer, j, data[..i]);
      assert buffer[..] == old(buffer[..j]) + data[..i];
      state := compress(state, buffer[..]);
      while (i + 63) % WORD < len
        invariant 0 <= i <= len && Aligned(m + data[..i])
        invariant state == Fold(compress, init, m + data[..i])
        decreases len - i
      {
        NoWrap(m, data[..i], len);
        NextBlock(compress, init, m + data[..i], data[i..i + 64]);
        assert m + data[..i] + data[i..i + 64] == m + data[..i + 64];
        state := compress(state, data[i..i + 64]);
        i := i + 64;
      }
      NoWrap(m, data[..i], len);
      CopyInto(buffer, 0, data[i..]);
      KeepRest(compress, init, m + data[..i], data[i..], buffer[..]);
      assert m + data[..i] + data[i..] == m + data;
    }

    lemma BufferSize(m: seq<byte>)
      requires Absorbed(compress, init, m, state, buffer[..])
      ensures buffer.Length == 64
    {
    }

    lemma NoWrap(m: seq<byte>, part: seq<byte>, len: nat)
      requires |part| <= len && Aligned(m + part) && Used(|m|) + len < WORD
      ensures (|part| + 63) % WORD == |part| + 63
    {
      var j, i := Used(|m|), |part|;
      assert (j + i) % 64 == 0 && WORD % 64 == 0;
    }

    /** SHA1Final: a one bit, zeros one byte at a time, and the count from before. */
    method Final(ghost m: seq<byte>) returns (digest: State)
      requires Holds(m)
      modifies this, buffer
      ensures digest == Hash(compress, init, m)
    {
      hide BitsLow, BitsHigh, Absorbed, Fold, Bytes, Used, ZeroCount;
      var finalcount := Bytes(high) + Bytes(low);
      var ok := Update([128], m);
      ghost var n := 0;
      ghost var m1 := m + [128];
      assert m1 + Zeros(0) == m1;
      BufferedCount(|m1|);
      while low / 8 % 64 != 56
        invariant Holds(m1 + Zeros(n)) && low / 8 % 64 == Used(|m1| + n)
        invariant n <= ZeroCount(|m|)
        decreases ZeroCount(|m|) - n
      {
        PaddingLeft(|m|, n);
        ok := Update([0], m1 + Zeros(n));
        assert m1 + Zeros(n) + [0] == m1 + Zeros(n + 1);
        n := n + 1;
        BufferedCount(|m1 + Zeros(n)|);
      }
      PaddingLeft(|m|, n);
      ok := Update(finalcount, m1 + Zeros(n));
      digest := state;
      assert m1 + Zeros(n) + finalcount == Padded(m, finalcount);
      StateIs(Padded(m, finalcount));
    }

    lemma StateIs(m: seq<byte>)
      requires Holds(m)
      ensures state == Fold(compress, init, m)
    {
    }

    /** The loop stops at the first length that is 56 modulo 64. */
    lemma PaddingLeft(k: nat, n: nat)
      requires n <= ZeroCount(k)
      ensures Used(k + 1 + n) == 56 <==> n == ZeroCount(k)
    {
      PaddingFits(k);
      var r := k % 64;
      assert (k + 1 + n) % 64 == (r + 1 + n) % 64;
    }
  }
}
