/** The codec works on 32-bit words with shifts and masks, the model on the numbers they
    hold. Here its expressions are written with bit-vectors as they are in the source,
    and hold what the functions of the model say. */
module QuickLzWords {
  import opened Arithmetic
  import opened QuickLzFormat
  import opened QuickLzHistory
  import opened Words
  import C = QuickLzCompress

  // ----- reading a match

  /** What the decompressor makes of four bytes: distance, length, and bytes used. */
  function DecodeWord(fetch: U32): (U32, U32, nat) {
    if fetch & 3 == 0 then ((fetch & 0xff) >> 2, 3, 1)
    else if fetch & 2 == 0 then ((fetch & 0xffff) >> 2, 3, 2)
    else if fetch & 1 == 0 then ((fetch & 0xffff) >> 6, ((fetch >> 2) & 15) + 3, 2)
    else if fetch & 127 != 3 then ((fetch >> 7) & 0x1ffff, ((fetch >> 2) & 0x1f) + 2, 3)
    else (fetch >> 15, ((fetch >> 7) & 255) + 3, 4)
  }

  function DecodeNested(x: U32): (U32, U32, nat) {
    if And(x, 3) == 0 then (Right(And(x, 0xff), 2), 3, 1)
    else if And(x, 2) == 0 then (Right(And(x, 0xffff), 2), 3, 2)
    else if And(x, 1) == 0 then (Right(And(x, 0xffff), 6), Plus3(And(Right(x, 2), 15)), 2)
    else if And(x, 127) != 3 then (And(Right(x, 7), 0x1ffff), Plus2(And(Right(x, 2), 31)), 3)
    else (Right(x, 15), Plus3(And(Right(x, 7), 255)), 4)
  }

  lemma DecodeNestedIs(x: U32)
    ensures DecodeWord(x) == DecodeNested(x)
  {
    hide Right;
    RightIs(x);
    RightIs(And(x, 0xff));
    RightIs(And(x, 0xffff));
  }

  lemma Conditions(x: U32)
    ensures And(x, 3) == 0 <==> Value(x) % 4 == 0
    ensures And(x, 2) == 0 <==> Value(x) / 2 % 2 == 0
    ensures And(x, 1) == 0 <==> Value(x) % 2 == 0
    ensures And(x, 127) == 3 <==> Value(x) % 128 == 3
  {
    hide Value, Half, Bit, And, Ones, Pow2;
    MaskConstants();
    Powers();
    Numerals();
    ValueAnd(x, 3, 2);
    ValueOrder(And(x, 3), 0);
    ValueAnd(x, 127, 7);
    ValueOrder(And(x, 127), 3);
    ValueHalf(x);
    ValueHalf(Half(x));
    LowBits(x);
  }

  lemma LowBits(x: U32)
    ensures And(x, 2) == 0 <==> Bit(Half(x)) == 0
    ensures And(x, 1) == 0 <==> Bit(x) == 0
  {
  }

  /** The shifts and masks with which the decompressor tells the five forms of a match
      apart and reads them give what DecodeMatch gives, on all words. */
  lemma MaskForms(fetch: U32)
    ensures var (offset, len, n) := DecodeWord(fetch);
            DecodeMatch(Value(fetch)) == (Value(offset), Value(len), n)
  {
    hide DecodeWord, Value, And, Ones, Right, Pow2, Plus2, Plus3;
    DecodeNestedIs(fetch);
    MaskConstants();
    Powers();
    Numerals();
    Conditions(fetch);
    MaskedRight(fetch, 0xff, 8, 2);
    MaskedRight(fetch, 0xffff, 16, 2);
    MaskedRight(fetch, 0xffff, 16, 6);
    RightMasked(fetch, 2, 15, 4);
    ValuePlus3(And(Right(fetch, 2), 15));
    RightMasked(fetch, 7, 0x1ffff, 17);
    RightMasked(fetch, 2, 31, 5);
    ValuePlus3(And(Right(fetch, 2), 31));
    ValueRight(fetch, 15);
    RightMasked(fetch, 7, 255, 8);
    ValuePlus3(And(Right(fetch, 7), 255));
  }

  // ----- writing a match

  /** The code the compressor writes for a match, and its bytes. */
  function EncodeWord(offset: U32, matchlen: U32): (U32, nat) {
    if matchlen == 3 && offset <= 63 then (offset << 2, 1)
    else if matchlen == 3 && offset <= 16383 then ((offset << 2) | 1, 2)
    else if matchlen <= 18 && offset <= 1023 then (((matchlen - 3) << 2) | (offset << 6) | 2, 2)
    else if matchlen <= 33 then (((matchlen - 2) << 2) | (offset << 7) | 3, 3)
    else (((matchlen - 3) << 7) | (offset << 15) | 3, 4)
  }

  function EncodeNested(o: U32, l: U32): (U32, nat) {
    if l == 3 && AtMost(o, 63) then (Left(o, 2), 1)
    else if l == 3 && AtMost(o, 16383) then (Or(Left(o, 2), 1), 2)
    else if AtMost(l, 18) && AtMost(o, 1023) then (Or(Or(Left(Minus3(l), 2), Left(o, 6)), 2), 2)
    else if AtMost(l, 33) then (Or(Or(Left(Minus2(l), 2), Left(o, 7)), 3), 3)
    else (Or(Or(Left(Minus3(l), 7), Left(o, 15)), 3), 4)
  }

  lemma ShortForm(o: U32, l: U32)
    ensures Or(Or(Left(Minus3(l), 2), Left(o, 6)), 2) == ((l - 3) << 2) | (o << 6) | 2
  {
    hide Left;
    LeftIs(Minus3(l));
    LeftIs(o);
  }

  lemma LongForm(o: U32, l: U32)
    ensures Or(Or(Left(Minus2(l), 2), Left(o, 7)), 3) == ((l - 2) << 2) | (o << 7) | 3
  {
    hide Left;
    LeftIs(Minus2(l));
    LeftIs(o);
  }

  lemma LongestForm(o: U32, l: U32)
    ensures Or(Or(Left(Minus3(l), 7), Left(o, 15)), 3) == ((l - 3) << 7) | (o << 15) | 3
  {
    hide Left;
    LeftIs(Minus3(l));
    LeftIs(o);
  }

  lemma NearForms(o: U32)
    ensures Left(o, 2) == o << 2 && Or(Left(o, 2), 1) == (o << 2) | 1
  {
    hide Left;
    LeftIs(o);
  }

  lemma EncodeNestedIs(o: U32, l: U32)
    ensures EncodeWord(o, l) == EncodeNested(o, l)
  {
    hide Left, Or, Minus2, Minus3;
    NearForms(o);
    ShortForm(o, l);
    LongForm(o, l);
    LongestForm(o, l);
  }

  lemma ShortDigits(o: U32, l: U32, a: U32, b: U32)
    requires a == l << 2 && b == o << 6 && AtMost(l, 15)
    ensures And(a, b) == 0 && And(Or(a, b), 2) == 0
  {
  }

  lemma LongDigits(o: U32, l: U32, a: U32, b: U32)
    requires a == l << 2 && b == o << 7 && AtMost(l, 31)
    ensures And(a, b) == 0 && And(Or(a, b), 3) == 0
  {
  }

  lemma LongestDigits(o: U32, l: U32, a: U32, b: U32)
    requires a == l << 7 && b == o << 15 && AtMost(l, 255)
    ensures And(a, b) == 0 && And(Or(a, b), 3) == 0
  {
  }

  lemma ShortValue(o: U32, l: U32)
    requires Value(l) <= 15 && Value(o) < 1024
    ensures Value(Or(Or(Left(l, 2), Left(o, 6)), 2)) == Value(l) * 4 + Value(o) * 64 + 2
  {
    hide Value, And, Or, Left, AtMost, Ones, Pow2;
    MaskConstants();
    Powers();
    Numerals();
    BelowOnes(l, 15, 4);
    LeftIs(l);
    LeftIs(o);
    ShortDigits(o, l, Left(l, 2), Left(o, 6));
    ValueLeft(l, 2);
    ValueLeft(o, 6);
    ValueOr(Left(l, 2), Left(o, 6));
    ValueOr(Or(Left(l, 2), Left(o, 6)), 2);
  }

  lemma LongValue(o: U32, l: U32)
    requires Value(l) <= 31 && Value(o) < 131072
    ensures Value(Or(Or(Left(l, 2), Left(o, 7)), 3)) == Value(l) * 4 + Value(o) * 128 + 3
  {
    hide Value, And, Or, Left, AtMost, Ones, Pow2;
    MaskConstants();
    Powers();
    Numerals();
    BelowOnes(l, 31, 5);
    LeftIs(l);
    LeftIs(o);
    LongDigits(o, l, Left(l, 2), Left(o, 7));
    ValueLeft(l, 2);
    ValueLeft(o, 7);
    ValueOr(Left(l, 2), Left(o, 7));
    ValueOr(Or(Left(l, 2), Left(o, 7)), 3);
  }

  lemma LongestValue(o: U32, l: U32)
    requires Value(l) <= 255 && Value(o) < 131072
    ensures Value(Or(Or(Left(l, 7), Left(o, 15)), 3)) == Value(l) * 128 + Value(o) * 32768 + 3
  {
    hide Value, And, Or, Left, AtMost, Ones, Pow2;
    MaskConstants();
    Powers();
    Numerals();
    BelowOnes(l, 255, 8);
    LeftIs(l);
    LeftIs(o);
    LongestDigits(o, l, Left(l, 7), Left(o, 15));
    ValueLeft(l, 7);
    ValueLeft(o, 15);
    ValueOr(Left(l, 7), Left(o, 15));
    ValueOr(Or(Left(l, 7), Left(o, 15)), 3);
  }

  lemma NearValue(o: U32)
    requires Value(o) < 16384
    ensures Value(Left(o, 2)) == Value(o) * 4 && Value(Or(Left(o, 2), 1)) == Value(o) * 4 + 1
  {
    hide Value, And, Or, Left, Pow2;
    Powers();
    Numerals();
    LeftIs(o);
    NearDigits(o, Left(o, 2));
    ValueLeft(o, 2);
    ValueOr(Left(o, 2), 1);
  }

  lemma NearDigits(o: U32, a: U32)
    requires a == o << 2
    ensures And(a, 1) == 0
  {
  }

  lemma EncodeConditions(o: U32, l: U32)
    ensures l == 3 <==> Value(l) == 3
    ensures AtMost(o, 63) <==> Value(o) <= 63
    ensures AtMost(o, 16383) <==> Value(o) <= 16383
    ensures AtMost(o, 1023) <==> Value(o) <= 1023
    ensures AtMost(l, 18) <==> Value(l) <= 18
    ensures AtMost(l, 33) <==> Value(l) <= 33
  {
    hide Value, AtMost, Ones, Pow2;
    MaskConstants();
    Powers();
    Numerals();
    LargerNumerals();
    BelowOnes(o, 63, 6);
    BelowOnes(o, 16383, 14);
    BelowOnes(o, 1023, 10);
    ValueOrder(l, 3);
    AtMostValue(l, 18);
    AtMostValue(l, 33);
  }

  /** For every match the compressor may write, its shifts and ors give the code of the
      model. */
  lemma ShiftForms(offset: U32, matchlen: U32)
    requires MIN_OFFSET <= Value(offset) <= MAX_OFFSET && 3 <= Value(matchlen) <= MAX_MATCH
    ensures var (f, n) := EncodeWord(offset, matchlen);
            MatchCode(Value(offset), Value(matchlen)) == (Value(f), n)
  {
    hide EncodeWord, Value, Or, Left, AtMost, Minus2, Minus3;
    EncodeNestedIs(offset, matchlen);
    EncodeConditions(offset, matchlen);
    ValueMinus(matchlen);
    if Value(matchlen) == 3 && Value(offset) <= 16383 {
      NearValue(offset);
    } else if Value(matchlen) <= 18 && Value(offset) <= 1023 {
      ShortValue(offset, Minus3(matchlen));
    } else if Value(matchlen) <= 33 {
      LongValue(offset, Minus2(matchlen));
    } else {
      LongestValue(offset, Minus3(matchlen));
    }
  }

  // ----- the control word

  function CwordMatch(cword: U32): U32 { (cword >> 1) | 0x8000_0000 }

  function CwordLiteral(cword: U32): U32 { cword >> 1 }

  lemma CwordValues(cword: U32)
    ensures Value(CwordLiteral(cword)) == Value(cword) / 2
    ensures Value(CwordMatch(cword)) == Value(cword) / 2 + 0x8000_0000
    ensures cword & 1 == 1 <==> Value(cword) % 2 == 1
    ensures Value(cword & 15) == Value(cword) % 16
  {
    hide Value, Half, Bit, And, Or, Ones, Pow2, CwordMatch, CwordLiteral;
    CwordNested(cword);
    CwordDigits(cword);
    AndWord(cword, 15);
    ValueHalf(cword);
    ValueOr(Half(cword), 0x8000_0000);
    ValueSentinel();
    MaskConstants();
    Powers();
    ValueAnd(cword, 15, 4);
  }

  lemma CwordNested(cword: U32)
    ensures CwordLiteral(cword) == Half(cword) && CwordMatch(cword) == Or(Half(cword), 0x8000_0000)
    ensures cword & 1 == 1 <==> Bit(cword) == 1
  {
  }

  lemma CwordDigits(cword: U32)
    ensures And(Half(cword), 0x8000_0000) == 0
  {
  }

  /** Shifting a flag into the control word of the tokens so far gives the control word
      with one token more, bit 0 shows when the group is full, and what is stored then
      holds its flags. */
  lemma ControlWordForms(cword: U32, grp: seq<Token>, t: Token)
    requires |grp| <= GROUP && Value(cword) == C.CwordOf(grp)
    ensures cword & 1 == 1 <==> |grp| == GROUP
    ensures |grp| < GROUP ==>
              Value(if t.Match? then CwordMatch(cword) else CwordLiteral(cword)) == C.CwordOf(grp + [t])
    ensures |grp| == GROUP ==> Value(CwordMatch(cword)) == Word(grp)
  {
    hide Value, CwordMatch, CwordLiteral, C.CwordOf, Word;
    CwordValues(cword);
    C.CwordFull(grp);
    if |grp| < GROUP { C.CwordStep(grp, t); }
  }

  // ----- reading and writing bytes

  /** b0 | b1 << 8 | b2 << 16 | b3 << 24 */
  function ReadWord(b0: U32, b1: U32, b2: U32, b3: U32): U32 { Or(Or(Or(b0, b1 << 8), b2 << 16), b3 << 24) }

  lemma ReadNested(b0: U32, b1: U32, b2: U32, b3: U32)
    ensures ReadWord(b0, b1, b2, b3) == Or(Or(Or(b0, Left(b1, 8)), Left(b2, 16)), Left(b3, 24))
  {
    hide Left, Or;
    LeftBytes(b1);
    LeftBytes(b2);
    LeftBytes(b3);
  }

  lemma ByteDigits(b0: U32, b1: U32, b2: U32, b3: U32, c1: U32, c2: U32, c3: U32)
    requires AtMost(b0, 255) && AtMost(b1, 255) && AtMost(b2, 255)
    requires c1 == b1 << 8 && c2 == b2 << 16 && c3 == b3 << 24
    ensures And(b0, c1) == 0 && And(Or(b0, c1), c2) == 0 && And(Or(Or(b0, c1), c2), c3) == 0
  {
  }

  /** Four bytes put together by shifts and ors spell the number FromLe4 gives. */
  lemma ReadForms(b0: U32, b1: U32, b2: U32, b3: U32)
    requires Value(b0) < 256 && Value(b1) < 256 && Value(b2) < 256 && Value(b3) < 256
    ensures Value(ReadWord(b0, b1, b2, b3)) == FromLe4([Value(b0), Value(b1), Value(b2), Value(b3)])
  {
    hide Value, And, Or, Left, AtMost, Ones, Pow2, ReadWord;
    MaskConstants();
    Powers();
    BytePowers();
    BelowOnes(b0, 255, 8);
    BelowOnes(b1, 255, 8);
    BelowOnes(b2, 255, 8);
    ReadNested(b0, b1, b2, b3);
    LeftBytes(b1);
    LeftBytes(b2);
    LeftBytes(b3);
    ByteDigits(b0, b1, b2, b3, Left(b1, 8), Left(b2, 16), Left(b3, 24));
    ValueLeft(b1, 8);
    ValueLeft(b2, 16);
    ValueLeft(b3, 24);
    ValueOr(b0, Left(b1, 8));
    ValueOr(Or(b0, Left(b1, 8)), Left(b2, 16));
    ValueOr(Or(Or(b0, Left(b1, 8)), Left(b2, 16)), Left(b3, 24));
  }

  /** What the four bytes of a word are. */
  function WordBytes(f: U32): seq<U32> { [f & 0xff, (f >> 8) & 0xff, (f >> 16) & 0xff, (f >> 24) & 0xff] }

  lemma BytesNested(f: U32)
    ensures WordBytes(f) == [And(f, 255), And(Right(f, 8), 255), And(Right(f, 16), 255), And(Right(f, 24), 255)]
  {
    hide Right;
    RightBytes(f);
  }

  /** The shifts and casts to bytes that write a word out give its bytes as Le does. */
  lemma WriteForms(f: U32)
    ensures var b := WordBytes(f);
            Le(Value(f), 4) == [Value(b[0]), Value(b[1]), Value(b[2]), Value(b[3])]
  {
    hide Value, And, Right, Ones, Pow2, WordBytes;
    MaskConstants();
    Powers();
    BytePowers();
    BytesNested(f);
    ValueAnd(f, 255, 8);
    RightMasked(f, 8, 255, 8);
    RightMasked(f, 16, 255, 8);
    RightMasked(f, 24, 255, 8);
  }

  /** The 24-bit mask of the fetched bytes is a remainder, and masking the exclusive or
      compares three bytes. */
  lemma FetchForms(a: U32, b: U32)
    ensures Value(a & 0xff_ffff) == Value(a) % 0x100_0000
    ensures Value((a & 0xff_ffff) >> 12) == Value(a) % 0x100_0000 / 4096
    ensures (a ^ b) & 0xff_ffff == 0 <==> Value(a) % 0x100_0000 == Value(b) % 0x100_0000
  {
    hide Value, And, Right, Ones, Pow2;
    MaskConstants();
    Powers();
    BytePowers();
    FetchNested(a);
    AndWord(a, 0xff_ffff);
    FetchSame(a, b);
    ValueAnd(a, 0xff_ffff, 24);
    ValueAnd(b, 0xff_ffff, 24);
    MaskedRight(a, 0xff_ffff, 24, 12);
    ValueOrder(And(a, 0xff_ffff), And(b, 0xff_ffff));
  }

  /** The hash of the source, on every word. */
  lemma HashForms(x: U32)
    ensures Value(((x >> 12) ^ x) & 4095) == HashFunc(Value(x))
  {
    hide Value, And, Right, Differ, Ones, Pow2, Xor;
    MaskConstants();
    BytePowers();
    HashNested(x);
    ValueAnd(Differ(Right(x, 12), x), 4095, 12);
    ValueDiffer(Right(x, 12), x);
    ValueRight(x, 12);
    XorLow(Value(x) / 4096, Value(x), 12, 32);
  }

  lemma HashNested(x: U32)
    ensures ((x >> 12) ^ x) & 4095 == And(Differ(Right(x, 12), x), 4095)
  {
    hide Right;
    RightBytes(x);
  }

  lemma FetchNested(a: U32)
    ensures (a & 0xff_ffff) >> 12 == Right(And(a, 0xff_ffff), 12)
  {
    hide Right;
    RightBytes(And(a, 0xff_ffff));
  }

  lemma FetchSame(a: U32, b: U32)
    ensures (a ^ b) & 0xff_ffff == 0 <==> And(a, 0xff_ffff) == And(b, 0xff_ffff)
  {
    FetchXor(a, b);
    hide And;
    XorZero(And(a, 0xff_ffff), And(b, 0xff_ffff));
  }

  lemma FetchXor(a: U32, b: U32)
    ensures (a ^ b) & 0xff_ffff == And(a, 0xff_ffff) ^ And(b, 0xff_ffff)
  {
  }

  lemma XorZero(a: U32, b: U32)
    ensures a ^ b == 0 <==> a == b
  {
  }
}
