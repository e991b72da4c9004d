/** Hashing a message that arrives in pieces: what SHA-1 and MD5 have in common. The
    compression function is a parameter. */
module StreamHash {
  import opened Arithmetic

  type byte = x: int | 0 <= x < 256

  type State(!new)

  type Compression = (State, seq<byte>) -> State

  const WORD: nat := 0x1_0000_0000

  /** The compression function over the complete blocks of a message. */
  function Fold(c: Compression, st: State, m: seq<byte>): State
    decreases |m|
  {
    if |m| < 64 then st else Fold(c, c(st, m[..64]), m[64..])
  }

  /** How many of n bytes are behind the last complete block. */
  function Used(n: nat): (u: nat)
    ensures u < 64 && u <= n
  {
    n % 64
  }

  function Whole(m: seq<byte>): seq<byte> { m[..|m| - Used(|m|)] }

  /** The bytes behind the last complete block. */
  function Tail(m: seq<byte>): seq<byte> { m[|m| - Used(|m|)..] }

  ghost predicate Aligned(m: seq<byte>) { Used(|m|) == 0 }

  function Zeros(n: nat): (z: seq<byte>)
    ensures |z| == n && forall i :: 0 <= i < n ==> z[i] == 0
  {
    if n == 0 then [] else Zeros(n - 1) + [0]
  }

  /** Section 5.1.1 of FIPS 180-4 and sections 3.1 and 3.2 of RFC 1321: a one bit, zeros
      up to 56 modulo 64, and the length in bits in eight bytes. */
  function Padded(m: seq<byte>, length: seq<byte>): (p: seq<byte>)
    requires |length| == 8
    ensures |p| % 64 == 0
  {
    PaddingFits(|m|);
    m + [128] + Zeros(ZeroCount(|m|)) + length
  }

  function ZeroCount(n: nat): nat { (119 - n % 64) % 64 }

  lemma PaddingFits(n: nat)
    ensures (n + 1 + ZeroCount(n) + 8) % 64 == 0
    ensures ZeroCount(n) == if Used(n) <= 55 then 55 - Used(n) else 119 - Used(n)
  {
  }

  /** How much of the last block n bytes fill, with a one bit and so many zero bytes. */
  function Filled(n: nat, zeros: nat): nat { (n + 1 + zeros) % 64 }

  /** It is the least number of zeros that leaves eight bytes of the block. */
  lemma FewestZeros(n: nat)
    ensures Filled(n, ZeroCount(n)) == 56
    ensures forall k :: 0 <= k < ZeroCount(n) ==> Filled(n, k) != 56
  {
    PaddingFits(n);
  }

  /** Low and high word of the number of bits, modulo 2^64. */
  function BitsLow(n: nat): nat { 8 * n % WORD }

  function BitsHigh(n: nat): nat { 8 * n / WORD % WORD }

  /** The number that bytes spell, the most significant first ... */
  function Big(b: seq<byte>): nat {
    if b == [] then 0 else 256 * Big(b[..|b| - 1]) + b[|b| - 1]
  }

  /** ... and the least significant first. */
  function Little(b: seq<byte>): nat {
    if b == [] then 0 else b[0] + 256 * Little(b[1..])
  }

  /** The number with these four digits to the base 256. */
  function Four(a: nat, b: nat, c: nat, d: nat): nat { 256 * (256 * (256 * a + b) + c) + d }

  lemma FourDigits(w: nat)
    requires w < WORD
    ensures Four(w / 0x100_0000 % 256, w / 0x1_0000 % 256, w / 0x100 % 256, w % 256) == w
  {
    var x := w / 0x100;
    var y := x / 0x100;
    var z := y / 0x100;
    assert w == 256 * x + w % 256 && x == 256 * y + x % 256 && y == 256 * z + y % 256;
    assert w / 0x1_0000 == y && w / 0x100_0000 == z && z < 256;
  }

  lemma BigSnoc(b: seq<byte>, x: byte)
    ensures Big(b + [x]) == 256 * Big(b) + x
  {
    assert (b + [x])[..|b|] == b;
  }

  lemma BigMore(a: seq<byte>, b: seq<byte>)
    requires |b| == 4
    ensures Big(a + b) == WORD * Big(a) + Four(b[0], b[1], b[2], b[3])
  {
    BigSnoc(a, b[0]);
    BigSnoc(a + [b[0]], b[1]);
    BigSnoc(a + [b[0]] + [b[1]], b[2]);
    BigSnoc(a + [b[0]] + [b[1]] + [b[2]], b[3]);
    assert a + b == a + [b[0]] + [b[1]] + [b[2]] + [b[3]];
    hide Big;
  }

  lemma LittleCons(x: byte, b: seq<byte>)
    ensures Little([x] + b) == x + 256 * Little(b)
  {
    assert ([x] + b)[1..] == b;
  }

  lemma LittleMore(a: seq<byte>, b: seq<byte>)
    requires |a| == 4
    ensures Little(a + b) == Four(a[3], a[2], a[1], a[0]) + WORD * Little(b)
  {
    LittleCons(a[3], b);
    LittleCons(a[2], [a[3]] + b);
    LittleCons(a[1], [a[2]] + ([a[3]] + b));
    LittleCons(a[0], [a[1]] + ([a[2]] + ([a[3]] + b)));
    assert a + b == [a[0]] + ([a[1]] + ([a[2]] + ([a[3]] + b)));
    hide Little;
  }

  lemma WordSizes(n: nat)
    ensures BitsLow(n) < WORD && BitsHigh(n) < WORD && Big([]) == 0 && Little([]) == 0
  {
  }

  /** High and low word make up the number of bits modulo 2^64. */
  lemma BitsTogether(n: nat)
    ensures WORD * BitsHigh(n) + BitsLow(n) == 8 * n % (WORD * WORD)
  {
    var q := 8 * n / WORD;
    assert 8 * n == WORD * q + BitsLow(n);
    DivIs(8 * n, WORD * WORD, q / WORD, WORD * (q % WORD) + BitsLow(n));
  }

  // ----- counters

  lemma ModSum(a: nat, b: nat)
    ensures (a % WORD + b) % WORD == (a + b) % WORD
  {
    var q, r := (a % WORD + b) / WORD, (a % WORD + b) % WORD;
    DivIs(a + b, WORD, a / WORD + q, r);
  }

  /** Adding to two 32-bit counters with a carry adds to the 64-bit number of bits. */
  lemma CounterStep(n: nat, len: nat, was: nat, wasHigh: nat, lo: nat, hi: nat)
    requires len < WORD && was == BitsLow(n) && wasHigh == BitsHigh(n)
    requires lo == (was + 8 * len % WORD) % WORD
    requires hi == ((if lo < was then (wasHigh + 1) % WORD else wasHigh) + len / 0x2000_0000) % WORD
    ensures lo == BitsLow(n + len) && hi == BitsHigh(n + len)
  {
    var a, b := 8 * n / WORD, len / 0x2000_0000;
    var c, l := BitsLow(n), 8 * len % WORD;
    assert 8 * len == b * WORD + l;
    var carry := if c + l >= WORD then 1 else 0;
    assert lo == c + l - carry * WORD;
    DivIs(8 * (n + len), WORD, a + b + carry, lo);
    ModSum(a, carry);
    ModSum(a + carry, b);
  }

  lemma BufferedCount(n: nat)
    ensures BitsLow(n) / 8 % 64 == Used(n)
  {
    var a, r := n / 0x2000_0000, n % 0x2000_0000;
    DivIs(8 * n, WORD, a, 8 * r);
    assert BitsLow(n) / 8 == r;
    hide BitsLow;
    UsedAfter(a, r);
  }

  lemma UsedAfter(a: nat, r: nat)
    ensures Used(a * 0x2000_0000 + r) == r % 64
  {
    var b, s := r / 64, r % 64;
    assert a * 0x2000_0000 + r == (a * 0x80_0000 + b) * 64 + s;
  }

  // ----- blocks

  lemma Split(m: seq<byte>)
    ensures m == Whole(m) + Tail(m) && Aligned(Whole(m)) && |Tail(m)| == Used(|m|)
  {
  }

  lemma AlignedDrop(m: seq<byte>)
    requires Aligned(m) && m != []
    ensures |m| >= 64 && Aligned(m[64..])
  {
  }

  lemma {:induction false} FoldAppend(c: Compression, st: State, a: seq<byte>, b: seq<byte>)
    requires Aligned(a)
    ensures Fold(c, st, a + b) == Fold(c, Fold(c, st, a), b)
    decreases |a|
  {
    hide Aligned;
    if a == [] {
      assert a + b == b;
    } else {
      AlignedDrop(a);
      assert (a + b)[..64] == a[..64] && (a + b)[64..] == a[64..] + b;
      FoldAppend(c, c(st, a[..64]), a[64..], b);
    }
  }

  lemma FoldOne(c: Compression, st: State, b: seq<byte>)
    requires |b| == 64
    ensures Fold(c, st, b) == c(st, b)
  {
    assert b[..64] == b && b[64..] == [];
  }

  lemma FoldShort(c: Compression, st: State, b: seq<byte>)
    requires |b| < 64
    ensures Fold(c, st, b) == st
  {
  }

  lemma FoldWhole(c: Compression, st: State, m: seq<byte>)
    ensures Fold(c, st, m) == Fold(c, st, Whole(m))
  {
    hide Fold, Whole, Tail, Used, Aligned;
    Split(m);
    FoldAppend(c, st, Whole(m), Tail(m));
    FoldShort(c, Fold(c, st, Whole(m)), Tail(m));
  }

  lemma AlignedPlus(a: seq<byte>, block: seq<byte>)
    requires Aligned(a) && |block| == 64
    ensures Aligned(a + block)
  {
  }

  lemma TailIs(a: seq<byte>, rest: seq<byte>)
    requires Aligned(a) && |rest| < 64
    ensures Tail(a + rest) == rest && Used(|a + rest|) == |rest|
  {
    UsedIs(|a|, |rest|);
    hide Used;
  }

  lemma UsedIs(n: nat, r: nat)
    requires n % 64 == 0 && r < 64
    ensures Used(n + r) == r
  {
  }

  /** The state and the buffer of a context that has taken in the message `m`. */
  ghost predicate Absorbed(c: Compression, init: State, m: seq<byte>, st: State, buffer: seq<byte>) {
    && |buffer| == 64 && st == Fold(c, init, m)
    && buffer[..Used(|m|)] == Tail(m)
  }

  /** The buffer is filled up and compressed. */
  lemma FillBlock(c: Compression, init: State, m: seq<byte>, st: State, buffer: seq<byte>, part: seq<byte>)
    requires Absorbed(c, init, m, st, buffer) && Used(|m|) + |part| == 64
    ensures c(st, buffer[..Used(|m|)] + part) == Fold(c, init, m + part)
    ensures Aligned(m + part)
  {
    hide Fold, Whole, Tail, Used, Aligned;
    var block := Tail(m) + part;
    Split(m);
    assert m + part == Whole(m) + block;
    FoldWhole(c, init, m);
    NextBlock(c, init, Whole(m), block);
  }

  lemma NextBlock(c: Compression, init: State, m: seq<byte>, block: seq<byte>)
    requires Aligned(m) && |block| == 64
    ensures c(Fold(c, init, m), block) == Fold(c, init, m + block) && Aligned(m + block)
  {
    hide Fold, Aligned;
    FoldAppend(c, init, m, block);
    FoldOne(c, Fold(c, init, m), block);
    AlignedPlus(m, block);
  }

  /** Less than a block is left for the buffer. */
  lemma KeepRest(c: Compression, init: State, m: seq<byte>, rest: seq<byte>, buffer: seq<byte>)
    requires Aligned(m) && |rest| < 64 && |buffer| == 64 && buffer[..|rest|] == rest
    ensures Absorbed(c, init, m + rest, Fold(c, init, m), buffer)
  {
    hide Fold, Whole, Tail, Used, Aligned;
    FoldAppend(c, init, m, rest);
    FoldShort(c, Fold(c, init, m), rest);
    TailIs(m, rest);
  }

  /** The new bytes fit into the buffer. */
  lemma KeepAll(c: Compression, init: State, m: seq<byte>, st: State, before: seq<byte>,
                  part: seq<byte>, buffer: seq<byte>)
    requires Absorbed(c, init, m, st, before) && Used(|m|) + |part| < 64 && |buffer| == 64
    requires buffer[..Used(|m|) + |part|] == before[..Used(|m|)] + part
    ensures Absorbed(c, init, m + part, st, buffer)
  {
    hide Fold, Whole, Tail, Used, Aligned;
    Split(m);
    assert m + part == Whole(m) + (Tail(m) + part);
    FoldWhole(c, init, m);
    KeepRest(c, init, Whole(m), Tail(m) + part, buffer);
  }

  /** memcpy into the buffer. */
  method CopyInto(buffer: array<byte>, at: nat, data: seq<byte>)
    requires at + |data| <= buffer.Length
    modifies buffer
    ensures buffer[..] == old(buffer[..at]) + data + old(buffer[at + |data|..])
  {
    var i := 0;
    while i < |data|
      invariant 0 <= i <= |data|
      invariant forall x :: 0 <= x < buffer.Length ==>
                  buffer[x] == if at <= x < at + i then data[x - at] else old(buffer[x])
    {
      buffer[at + i] := data[i];
      i := i + 1;
    }
  }
}
