/**
  A stream of seventeen bytes, a final block with dynamic codes, and its decoding step by step. Its header
  uses all three repetitions, and its data a match that overlaps what it copies.
*/
module KnownStream {
  import opened Gf2Poly
  import opened Crc
  import opened ByteNumber
  import opened DeflateBits
  import opened Huffman
  import opened HuffmanFixed
  import opened InflateSpec
  import opened InflateStrict
  import opened InflateWindow
  import opened InflateHeader
  import opened Inflate

  const STREAM: seq<Byte> := [13, 193, 39, 1, 0, 0, 0, 195, 48, 173, 59, 254, 57, 108, 147, 212, 7]

  ghost predicate IsStream(data: seq<Byte>) {
    data == STREAM
  }

  lemma StreamLength(data: seq<Byte>)
    requires IsStream(data)
    ensures |data| == 17
  {}

  // ---------- the bits ----------

  function Small(k: nat): nat
    requires k <= 16
  {
    [1, 2, 4, 8, 16, 32, 64, 128, 256, 512, 1024, 2048, 4096, 8192, 16384, 32768, 65536][k]
  }

  lemma SmallIs(k: nat)
    requires k <= 16
    ensures Pow2(k) == Small(k)
  {
    assert Pow2(4) == 16 && Pow2(8) == 256 && Pow2(12) == 4096;
  }

  lemma TwoBytes(data: seq<Byte>, at: nat)
    requires at + 2 <= |data|
    ensures var a: nat, b: nat := data[at], data[at + 1]; Le(data[at..at + 2]) == a + 256 * b
  {
    var w := data[at..at + 2];
    assert w[1..][1..] == [];
    assert Le(w[1..]) == data[at + 1];
  }

  /** A number of v in two bytes of the stream. */
  lemma Field(data: seq<Byte>, at: nat, p: nat, n: nat, v: nat)
    requires at + 2 <= |data| && p + n <= 16
    requires var a: nat, b: nat := data[at], data[at + 1]; (a + 256 * b) / Small(p) % Small(n) == v
    ensures BitsLe(data, 8 * at + p, n) == v
  {
    Window(data, at, 2, p, n);
    SmallIs(p); SmallIs(n);
    TwoBytes(data, at);
    hide BitsLe, Le, Pow2, Small;
  }

  lemma CodeOf1(data: seq<Byte>, p: nat)
    requires p + 1 <= 8 * |data|
    ensures CodeBits(data, p, 1) == BitsLe(data, p, 1)
  {
    hide Bit;
    assert CodeBits(data, p, 0) == 0 && BitsLe(data, p + 1, 0) == 0;
  }

  lemma CodeOf2(data: seq<Byte>, p: nat)
    requires p + 2 <= 8 * |data|
    ensures CodeBits(data, p, 2) == 2 * BitsLe(data, p, 1) + BitsLe(data, p + 1, 1)
  {
    CodeOf1(data, p); CodeOf1(data, p + 1);
    hide Bit;
    assert CodeBits(data, p, 2) == 2 * CodeBits(data, p, 1) + Bit(data, p + 1);
    assert CodeBits(data, p + 1, 1) == Bit(data, p + 1);
  }

  lemma CodeOf3(data: seq<Byte>, p: nat)
    requires p + 3 <= 8 * |data|
    ensures CodeBits(data, p, 3) == 4 * BitsLe(data, p, 1) + 2 * BitsLe(data, p + 1, 1) + BitsLe(data, p + 2, 1)
  {
    CodeOf2(data, p); CodeOf1(data, p + 2);
    hide Bit;
    assert CodeBits(data, p, 3) == 2 * CodeBits(data, p, 2) + Bit(data, p + 2);
    assert CodeBits(data, p + 2, 1) == Bit(data, p + 2);
  }

  /** Last block, dynamic codes, and how many lengths there are. */
  lemma Fields(data: seq<Byte>)
    requires IsStream(data)
    ensures BitsLe(data, 0, 1) == 1 && BitsLe(data, 1, 2) == 2 && BitsLe(data, 3, 5) == 1
    ensures BitsLe(data, 8, 5) == 1 && BitsLe(data, 13, 4) == 14
  {
    hide BitsLe, CodeBits;
    Field(data, 0, 0, 1, 1); Field(data, 0, 1, 2, 2); Field(data, 0, 3, 5, 1);
    Field(data, 1, 0, 5, 1); Field(data, 1, 5, 4, 14);
  }

  lemma SentFirst(data: seq<Byte>)
    requires IsStream(data)
    ensures BitsLe(data, 17, 3) == 3 && BitsLe(data, 20, 3) == 2 && BitsLe(data, 23, 3) == 2
    ensures BitsLe(data, 26, 3) == 0 && BitsLe(data, 29, 3) == 0 && BitsLe(data, 32, 3) == 0
    ensures BitsLe(data, 35, 3) == 0 && BitsLe(data, 38, 3) == 0 && BitsLe(data, 41, 3) == 0
  {
    hide BitsLe, CodeBits;
    Field(data, 2, 1, 3, 3); Field(data, 2, 4, 3, 2); Field(data, 2, 7, 3, 2);
    Field(data, 3, 2, 3, 0); Field(data, 3, 5, 3, 0); Field(data, 4, 0, 3, 0);
    Field(data, 4, 3, 3, 0); Field(data, 4, 6, 3, 0); Field(data, 5, 1, 3, 0);
  }

  lemma SentLast(data: seq<Byte>)
    requires IsStream(data)
    ensures BitsLe(data, 44, 3) == 0 && BitsLe(data, 47, 3) == 0 && BitsLe(data, 50, 3) == 0
    ensures BitsLe(data, 53, 3) == 0 && BitsLe(data, 56, 3) == 3 && BitsLe(data, 59, 3) == 0
    ensures BitsLe(data, 62, 3) == 3 && BitsLe(data, 65, 3) == 0 && BitsLe(data, 68, 3) == 3
  {
    hide BitsLe, CodeBits;
    Field(data, 5, 4, 3, 0); Field(data, 5, 7, 3, 0); Field(data, 6, 2, 3, 0);
    Field(data, 6, 5, 3, 0); Field(data, 7, 0, 3, 3); Field(data, 7, 3, 3, 0);
    Field(data, 7, 6, 3, 3); Field(data, 8, 1, 3, 0); Field(data, 8, 4, 3, 3);
  }

  lemma RunBits(data: seq<Byte>)
    requires IsStream(data)
    ensures BitsLe(data, 73, 7) == 86 && BitsLe(data, 86, 2) == 0 && BitsLe(data, 90, 7) == 127
    ensures BitsLe(data, 99, 3) == 7 && BitsLe(data, 104, 3) == 4
  {
    hide BitsLe, CodeBits;
    Field(data, 9, 1, 7, 86); Field(data, 10, 6, 2, 0); Field(data, 11, 2, 7, 127);
    Field(data, 12, 3, 3, 7); Field(data, 13, 0, 3, 4);
  }

  lemma RunCodes(data: seq<Byte>)
    requires IsStream(data)
    ensures CodeBits(data, 71, 2) == 1 && CodeBits(data, 80, 3) == 6 && CodeBits(data, 83, 3) == 7
  {
    hide BitsLe, CodeBits;
    Field(data, 8, 7, 1, 0); Field(data, 9, 0, 1, 1); CodeOf2(data, 71);
    Field(data, 10, 0, 1, 1); Field(data, 10, 1, 1, 1); Field(data, 10, 2, 1, 0);
    CodeOf3(data, 80); Field(data, 10, 3, 1, 1); Field(data, 10, 4, 1, 1);
    Field(data, 10, 5, 1, 1); CodeOf3(data, 83);
  }

  lemma MoreRunCodes(data: seq<Byte>)
    requires IsStream(data)
    ensures CodeBits(data, 88, 2) == 1 && CodeBits(data, 97, 2) == 0 && CodeBits(data, 102, 2) == 0
  {
    hide BitsLe, CodeBits;
    Field(data, 11, 0, 1, 0); Field(data, 11, 1, 1, 1); CodeOf2(data, 88);
    Field(data, 12, 1, 1, 0); Field(data, 12, 2, 1, 0); CodeOf2(data, 97);
    Field(data, 12, 6, 1, 0); Field(data, 12, 7, 1, 0); CodeOf2(data, 102);
  }

  lemma PlainCodes(data: seq<Byte>)
    requires IsStream(data)
    ensures CodeBits(data, 107, 3) == 5 && CodeBits(data, 110, 3) == 5 && CodeBits(data, 113, 3) == 4
    ensures CodeBits(data, 116, 3) == 4
  {
    hide BitsLe, CodeBits;
    Field(data, 13, 3, 1, 1); Field(data, 13, 4, 1, 0); Field(data, 13, 5, 1, 1);
    CodeOf3(data, 107); Field(data, 13, 6, 1, 1); Field(data, 13, 7, 1, 0);
    Field(data, 14, 0, 1, 1); CodeOf3(data, 110); Field(data, 14, 1, 1, 1);
    Field(data, 14, 2, 1, 0); Field(data, 14, 3, 1, 0); CodeOf3(data, 113);
    Field(data, 14, 4, 1, 1); Field(data, 14, 5, 1, 0); Field(data, 14, 6, 1, 0);
    CodeOf3(data, 116);
  }

  lemma DataCodes(data: seq<Byte>)
    requires IsStream(data)
    ensures CodeBits(data, 119, 3) == 4 && CodeBits(data, 122, 3) == 5 && CodeBits(data, 125, 2) == 1
  {
    hide BitsLe, CodeBits;
    Field(data, 14, 7, 1, 1); Field(data, 15, 0, 1, 0); Field(data, 15, 1, 1, 0);
    CodeOf3(data, 119); Field(data, 15, 2, 1, 1); Field(data, 15, 3, 1, 0);
    Field(data, 15, 4, 1, 1); CodeOf3(data, 122); Field(data, 15, 5, 1, 0);
    Field(data, 15, 6, 1, 1); CodeOf2(data, 125);
  }

  lemma MoreDataCodes(data: seq<Byte>)
    requires IsStream(data)
    ensures CodeBits(data, 127, 1) == 1 && CodeBits(data, 128, 3) == 7 && CodeBits(data, 131, 2) == 0
  {
    hide BitsLe, CodeBits;
    Field(data, 15, 7, 1, 1); CodeOf1(data, 127); Field(data, 15, 8, 1, 1);
    Field(data, 15, 9, 1, 1); Field(data, 15, 10, 1, 1); CodeOf3(data, 128);
    Field(data, 15, 11, 1, 0); Field(data, 15, 12, 1, 0); CodeOf2(data, 131);
  }

  // ---------- the code length code ----------

  function SentLen(sym: nat): nat {
    if 1 <= sym <= 3 || sym == 16 then 3 else if sym > 16 then 2 else 0
  }

  /** Lengths 2 for the repetitions of zero, 3 for the other one and for the lengths 1, 2 and 3. */
  function Sent(): (lens: seq<nat>)
    ensures |lens| == 19 && forall sym: nat :: sym < 19 ==> lens[sym] == SentLen(sym)
  {
    seq(19, sym requires 0 <= sym => SentLen(sym))
  }

  lemma SentAt(data: seq<Byte>, sym: nat, n: nat, k: nat)
    requires sym < 19 && n == 18 && 17 + 3 * n <= 8 * |data| && Place(sym) == k
    requires k < n ==> BitsLe(data, 17 + 3 * k, 3) == SentLen(sym)
    requires k >= n ==> SentLen(sym) == 0
    ensures CodeLengths(data, 17, n)[sym] == SentLen(sym)
  {
    hide BitsLe;
  }

  ghost predicate AsSent(data: seq<Byte>, sym: nat, n: nat) {
    sym < 19 && n == 18 && 17 + 3 * n <= 8 * |data| && CodeLengths(data, 17, n)[sym] == SentLen(sym)
  }

  lemma FirstAsSent(data: seq<Byte>, n: nat)
    requires IsStream(data) && n == 18
    ensures AsSent(data, 16, n) && AsSent(data, 17, n) && AsSent(data, 18, n) && AsSent(data, 0, n)
    ensures AsSent(data, 8, n) && AsSent(data, 7, n) && AsSent(data, 9, n) && AsSent(data, 6, n) && AsSent(data, 10, n)
  {
    hide IsStream, BitsLe, CodeLengths;
    StreamLength(data);
    SentFirst(data);
    SentAt(data, 16, n, 0); SentAt(data, 17, n, 1); SentAt(data, 18, n, 2); SentAt(data, 0, n, 3);
    SentAt(data, 8, n, 4); SentAt(data, 7, n, 5); SentAt(data, 9, n, 6); SentAt(data, 6, n, 7);
    SentAt(data, 10, n, 8);
  }

  lemma LastAsSent(data: seq<Byte>, n: nat)
    requires IsStream(data) && n == 18
    ensures AsSent(data, 5, n) && AsSent(data, 11, n) && AsSent(data, 4, n) && AsSent(data, 12, n) && AsSent(data, 3, n)
    ensures AsSent(data, 13, n) && AsSent(data, 2, n) && AsSent(data, 14, n) && AsSent(data, 1, n)
    ensures AsSent(data, 15, n)
  {
    hide IsStream, BitsLe, CodeLengths;
    StreamLength(data);
    SentLast(data);
    SentAt(data, 5, n, 9); SentAt(data, 11, n, 10); SentAt(data, 4, n, 11); SentAt(data, 12, n, 12);
    SentAt(data, 3, n, 13); SentAt(data, 13, n, 14); SentAt(data, 2, n, 15); SentAt(data, 14, n, 16);
    SentAt(data, 1, n, 17); SentAt(data, 15, n, 18);
  }

  lemma NineteenSent(data: seq<Byte>, lens: seq<nat>, n: nat)
    requires n == 18 && 17 + 3 * n <= 8 * |data| && lens == CodeLengths(data, 17, n)
    requires AsSent(data, 0, n) && AsSent(data, 1, n) && AsSent(data, 2, n) && AsSent(data, 3, n) && AsSent(data, 4, n)
    requires AsSent(data, 5, n) && AsSent(data, 6, n) && AsSent(data, 7, n) && AsSent(data, 8, n) && AsSent(data, 9, n)
    requires AsSent(data, 10, n) && AsSent(data, 11, n) && AsSent(data, 12, n) && AsSent(data, 13, n)
    requires AsSent(data, 14, n) && AsSent(data, 15, n) && AsSent(data, 16, n) && AsSent(data, 17, n)
    requires AsSent(data, 18, n)
    ensures lens == Sent()
  {
    hide CodeLengths, Sent, BitsLe, SentLen;
    var r := Sent();
    assert lens[0] == r[0] && lens[1] == r[1] && lens[2] == r[2] && lens[3] == r[3] && lens[4] == r[4];
    assert lens[5] == r[5] && lens[6] == r[6] && lens[7] == r[7] && lens[8] == r[8] && lens[9] == r[9];
    assert lens[10] == r[10] && lens[11] == r[11] && lens[12] == r[12] && lens[13] == r[13] && lens[14] == r[14];
    assert lens[15] == r[15] && lens[16] == r[16] && lens[17] == r[17] && lens[18] == r[18];
    hide AsSent;
    SameNineteen(lens, r);
  }

  lemma SameNineteen(a: seq<nat>, b: seq<nat>)
    requires |a| == |b| == 19 && a[0] == b[0] && a[1] == b[1] && a[2] == b[2] && a[3] == b[3] && a[4] == b[4]
    requires a[5] == b[5] && a[6] == b[6] && a[7] == b[7] && a[8] == b[8] && a[9] == b[9] && a[10] == b[10]
    requires a[11] == b[11] && a[12] == b[12] && a[13] == b[13] && a[14] == b[14] && a[15] == b[15]
    requires a[16] == b[16] && a[17] == b[17] && a[18] == b[18]
    ensures a == b
  {}

  lemma SentLengths(data: seq<Byte>)
    requires IsStream(data)
    ensures CodeLengths(data, 17, 18) == Sent()
  {
    hide IsStream, CodeLengths, Sent, BitsLe;
    StreamLength(data);
    FirstAsSent(data, 18); LastAsSent(data, 18);
    NineteenSent(data, CodeLengths(data, 17, 18), 18);
  }

  lemma SentCodes(cl: seq<nat>)
    requires cl == Sent()
    ensures Code(cl, 17) == 0 && Code(cl, 18) == 1
    ensures Code(cl, 1) == 4 && Code(cl, 2) == 5 && Code(cl, 3) == 6 && Code(cl, 16) == 7
  {
    hide Sent;
    CountNone(cl);
    CountOther(cl, 1, 0, 19);
    CountOther(cl, 2, 0, 17); CountRun(cl, 2, 17, 18); CountRun(cl, 2, 17, 19);
    CountOther(cl, 3, 0, 1); CountRun(cl, 3, 1, 2); CountRun(cl, 3, 1, 3); CountRun(cl, 3, 1, 4);
    CountOther(cl, 3, 4, 16);
    hide Count;
    assert First(cl, 1) == 0;
    assert First(cl, 2) == 0;
    assert First(cl, 3) == 4;
  }

  // ---------- the lengths of the two codes ----------

  lemma Plain(data: seq<Byte>, cl: seq<nat>, p: nat, have: seq<nat>, sym: nat)
    requires |cl| == 19 && sym < 16 && cl[sym] == 3 && p + 3 <= 8 * |data| && CodeBits(data, p, 3) == Code(cl, sym)
    ensures LengthBy(data, cl, p, have, p + 3, have + [sym], sym)
  {
    hide CodeBits, Code;
  }

  lemma Again(data: seq<Byte>, cl: seq<nat>, p: nat, have: seq<nat>, v: nat, last: nat)
    requires |cl| == 19 && cl[16] == 3 && p + 5 <= 8 * |data| && CodeBits(data, p, 3) == Code(cl, 16)
    requires have != [] && have[|have| - 1] == last && BitsLe(data, p + 3, 2) == v
    ensures LengthBy(data, cl, p, have, p + 5, have + Repeated(last, 3 + v), 16)
  {
    hide CodeBits, Code, BitsLe;
  }

  lemma FewZeros(data: seq<Byte>, cl: seq<nat>, p: nat, have: seq<nat>, v: nat)
    requires |cl| == 19 && cl[17] == 2 && p + 5 <= 8 * |data| && CodeBits(data, p, 2) == Code(cl, 17)
    requires BitsLe(data, p + 2, 3) == v
    ensures LengthBy(data, cl, p, have, p + 5, have + Repeated(0, 3 + v), 17)
  {
    hide CodeBits, Code, BitsLe;
  }

  lemma ManyZeros(data: seq<Byte>, cl: seq<nat>, p: nat, have: seq<nat>, v: nat)
    requires |cl| == 19 && cl[18] == 2 && p + 9 <= 8 * |data| && CodeBits(data, p, 2) == Code(cl, 18)
    requires BitsLe(data, p + 2, 7) == v
    ensures LengthBy(data, cl, p, have, p + 9, have + Repeated(0, 11 + v), 18)
  {
    hide CodeBits, Code, BitsLe;
  }

  ghost predicate ReadUpTo(data: seq<Byte>, cl: seq<nat>, from: nat, n: nat, have: seq<nat>, q: nat, k: nat) {
    |have| <= n && LengthsRead(data, cl, from, [], n, q, have, k)
  }

  /** One more symbol of the code length code. */
  lemma Grow(data: seq<Byte>, cl: seq<nat>, from: nat, n: nat, have: seq<nat>, p: nat, k: nat,
             all: seq<nat>, q: nat, sym: nat)
    requires ReadUpTo(data, cl, from, n, have, p, k) && |have| < |all| <= n
    requires LengthBy(data, cl, p, have, q, all, sym)
    ensures ReadUpTo(data, cl, from, n, all, q, k + 1)
  {
    hide LengthBy, LengthsRead;
    LengthMade(data, cl, p, have, n, q, all, sym);
    LengthsAppend(data, cl, from, [], n, p, have, k, q, all);
  }

  lemma ReadNone(data: seq<Byte>, cl: seq<nat>, from: nat, n: nat)
    ensures ReadUpTo(data, cl, from, n, [], from, 0)
  {}

  /** 97 zeros, a 3 and three more. */
  lemma FirstRuns(data: seq<Byte>, cl: seq<nat>) returns (have: seq<nat>)
    requires IsStream(data) && cl == Sent()
    ensures ReadUpTo(data, cl, 71, 258, have, 88, 3) && have == [] + Repeated(0, 97) + [3] + Repeated(3, 3)
  {
    hide IsStream, BitsLe, CodeBits, Code, Sent, ReadUpTo, LengthBy, Repeated;
    StreamLength(data);
    SentCodes(cl); RunCodes(data); RunBits(data); ReadNone(data, cl, 71, 258);
    var h1 := [] + Repeated(0, 97);
    ManyZeros(data, cl, 71, [], 86);
    Grow(data, cl, 71, 258, [], 71, 0, h1, 80, 18);
    Plain(data, cl, 80, h1, 3);
    Grow(data, cl, 71, 258, h1, 80, 1, h1 + [3], 83, 3);
    Again(data, cl, 83, h1 + [3], 0, 3);
    have := h1 + [3] + Repeated(3, 3);
    Grow(data, cl, 71, 258, h1 + [3], 83, 2, have, 88, 16);
  }

  /** 138 zeros. */
  lemma LongRun(data: seq<Byte>, cl: seq<nat>, have: seq<nat>)
    requires IsStream(data) && cl == Sent() && |have| == 101 && ReadUpTo(data, cl, 71, 258, have, 88, 3)
    ensures ReadUpTo(data, cl, 71, 258, have + Repeated(0, 138), 97, 4)
  {
    hide IsStream, BitsLe, CodeBits, Code, Sent, ReadUpTo, LengthBy, Repeated;
    StreamLength(data);
    SentCodes(cl); MoreRunCodes(data); RunBits(data);
    ManyZeros(data, cl, 88, have, 127);
    Grow(data, cl, 71, 258, have, 88, 3, have + Repeated(0, 138), 97, 18);
  }

  /** Seventeen zeros more, in two runs. */
  lemma MoreRuns(data: seq<Byte>, cl: seq<nat>, have: seq<nat>)
    requires IsStream(data) && cl == Sent() && |have| == 239 && ReadUpTo(data, cl, 71, 258, have, 97, 4)
    ensures ReadUpTo(data, cl, 71, 258, have + Repeated(0, 10) + Repeated(0, 7), 107, 6)
  {
    hide IsStream, BitsLe, CodeBits, Code, ReadUpTo, LengthBy, Sent, Repeated;
    StreamLength(data);
    SentCodes(cl); MoreRunCodes(data); RunBits(data);
    FewZeros(data, cl, 97, have, 7);
    Grow(data, cl, 71, 258, have, 97, 4, have + Repeated(0, 10), 102, 17);
    FewZeros(data, cl, 102, have + Repeated(0, 10), 4);
    Grow(data, cl, 71, 258, have + Repeated(0, 10), 102, 5, have + Repeated(0, 10) + Repeated(0, 7), 107, 17);
  }

  /** Lengths 2 and 2. */
  lemma LastLengths(data: seq<Byte>, cl: seq<nat>, have: seq<nat>)
    requires IsStream(data) && cl == Sent() && |have| == 256 && ReadUpTo(data, cl, 71, 258, have, 107, 6)
    ensures ReadUpTo(data, cl, 71, 258, have + [2] + [2], 113, 8)
  {
    hide IsStream, BitsLe, CodeBits, Code, ReadUpTo, LengthBy, Sent;
    StreamLength(data);
    SentCodes(cl); PlainCodes(data);
    Plain(data, cl, 107, have, 2);
    Grow(data, cl, 71, 258, have, 107, 6, have + [2], 110, 2);
    Plain(data, cl, 110, have + [2], 2);
    Grow(data, cl, 71, 258, have + [2], 110, 7, have + [2] + [2], 113, 2);
  }

  /** And 1 and 1 for the distances. */
  lemma DistanceLengths(data: seq<Byte>, cl: seq<nat>)
    requires IsStream(data) && cl == Sent()
    ensures ReadUpTo(data, cl, 113, 2, [] + [1] + [1], 119, 2)
  {
    hide IsStream, BitsLe, CodeBits, Code, ReadUpTo, LengthBy, Sent;
    StreamLength(data);
    SentCodes(cl); PlainCodes(data); ReadNone(data, cl, 113, 2);
    Plain(data, cl, 113, [], 1);
    Grow(data, cl, 113, 2, [], 113, 0, [] + [1], 116, 1);
    Plain(data, cl, 116, [] + [1], 1);
    Grow(data, cl, 113, 2, [] + [1], 116, 1, [] + [1] + [1], 119, 1);
  }

  function LiteralLength(i: nat): nat {
    if 97 <= i <= 100 then 3 else if i >= 256 then 2 else 0
  }

  function Literals(): (lens: seq<nat>)
    ensures |lens| == 258 && forall i: nat :: i < 258 ==> lens[i] == LiteralLength(i)
  {
    seq(258, i requires 0 <= i => LiteralLength(i))
  }

  function Distances(): (lens: seq<nat>)
    ensures |lens| == 2 && lens[0] == 1 && lens[1] == 1
  {
    [1, 1]
  }

  lemma AllLengths(data: seq<Byte>, cl: seq<nat>)
    requires IsStream(data) && cl == Sent()
    ensures ReadUpTo(data, cl, 71, 258, Literals(), 113, 8) && ReadUpTo(data, cl, 113, 2, Distances(), 119, 2)
  {
    hide IsStream, ReadUpTo, Sent, Literals, Distances;
    var h := FirstRuns(data, cl);
    LongRun(data, cl, h);
    MoreRuns(data, cl, h + Repeated(0, 138));
    LastLengths(data, cl, h + Repeated(0, 138) + Repeated(0, 10) + Repeated(0, 7));
    LengthsTogether(h);
    DistanceLengths(data, cl);
    assert [] + [1] + [1] == Distances();
  }

  lemma LengthsTogether(h: seq<nat>)
    requires h == [] + Repeated(0, 97) + [3] + Repeated(3, 3)
    ensures Literals() == h + Repeated(0, 138) + Repeated(0, 10) + Repeated(0, 7) + [2] + [2]
  {
    hide Literals, Distances, Repeated;
  }

  /** Codes that end with length b, and use up all codes of that length, are complete. */
  lemma EndsEarly(lens: seq<nat>, b: nat)
    requires 0 < b < 15 && End(lens, b) == Pow2(b) && forall j :: b < j <= 15 ==> Unused(lens, j)
    ensures Complete(lens)
  {
    hide First, Codes, Groups, Pow2;
    NoneBetween(lens, b + 1, 16, b);
    PowAdd(16 - (b + 1), b);
  }

  lemma CompleteCodes(cl: seq<nat>, l: seq<nat>, d: seq<nat>)
    requires cl == Sent() && l == Literals() && d == Distances()
    ensures Complete(cl) && Complete(l) && Complete(d)
  {
    hide Sent, Literals, Distances;
    ThreeEnds(cl); ThreeEnds(l); OneEnds(d);
    EndsEarly(cl, 3); EndsEarly(l, 3); EndsEarly(d, 1);
  }

  lemma ThreeEnds(lens: seq<nat>)
    requires lens == Sent() || lens == Literals()
    ensures End(lens, 3) == Pow2(3)
  {
    hide Sent, Literals;
    CountNone(lens);
    CountOther(lens, 1, 0, |lens|);
    if lens == Sent() {
      CountOther(lens, 2, 0, 17); CountRun(lens, 2, 17, 19);
      CountOther(lens, 3, 0, 1); CountRun(lens, 3, 1, 4); CountOther(lens, 3, 4, 16); CountRun(lens, 3, 16, 17);
      CountOther(lens, 3, 17, 19);
    } else {
      CountOther(lens, 2, 0, 256); CountRun(lens, 2, 256, 258);
      CountOther(lens, 3, 0, 97); CountRun(lens, 3, 97, 101); CountOther(lens, 3, 101, 258);
    }
    hide Count;
    assert First(lens, 1) == 0;
    assert First(lens, 2) == 0;
    assert First(lens, 3) == 4;
  }

  lemma OneEnds(lens: seq<nat>)
    requires lens == Distances()
    ensures End(lens, 1) == Pow2(1)
  {
    CountNone(lens);
    CountRun(lens, 1, 0, 2);
    hide Count;
    assert First(lens, 1) == 0;
  }

  lemma HeaderIs(data: seq<Byte>)
    requires IsStream(data)
    ensures Split(data, 3, Literals(), Distances(), 119)
  {
    hide IsStream, BitsLe, CodeLengths, LengthsRead, Literals, Distances, Sent, Complete;
    StreamLength(data);
    var cl := Sent();
    Fields(data); SentLengths(data); AllLengths(data, cl); CompleteCodes(cl, Literals(), Distances());
    assert SplitFrom(data, 3, 18, Literals(), Distances(), 119, 113, 8, 2);
  }

  // ---------- the data ----------

  lemma LiteralCodes(lens: seq<nat>)
    requires lens == Literals()
    ensures Code(lens, 256) == 0 && Code(lens, 257) == 1
    ensures Code(lens, 97) == 4 && Code(lens, 98) == 5 && Code(lens, 100) == 7
  {
    hide Literals;
    CountNone(lens);
    CountOther(lens, 1, 0, 258);
    CountOther(lens, 2, 0, 256); CountRun(lens, 2, 256, 257); CountRun(lens, 2, 256, 258);
    CountOther(lens, 3, 0, 97); CountRun(lens, 3, 97, 98); CountRun(lens, 3, 97, 100);
    hide Count;
    assert First(lens, 1) == 0;
    assert First(lens, 2) == 0;
    assert First(lens, 3) == 4;
  }

  lemma DistanceCodes(lens: seq<nat>)
    requires lens == Distances()
    ensures Code(lens, 1) == 1
  {
    hide Count;
    CountNone(lens);
    CountRun(lens, 1, 0, 1);
    assert First(lens, 1) == 0;
  }

  function Coding(pos: nat, out: seq<Byte>): State {
    State(pos, true, Coded(Literals(), Distances()), out)
  }

  function InMatch(left: nat, out: seq<Byte>): State {
    State(128, true, Copying(2, left, Literals(), Distances()), out)
  }

  function Ended(out: seq<Byte>): State {
    State(133, true, Between, out)
  }

  lemma Begins(data: seq<Byte>)
    requires IsStream(data)
    ensures StrictStep(data, START, Coding(119, []))
  {
    hide IsStream, StrictStep, BitsLe, Split, Literals, Distances;
    StreamLength(data);
    HeaderIs(data); Fields(data);
    BeginsWith(data, START, Coding(119, []));
  }

  lemma BeginsWith(data: seq<Byte>, s: State, t: State)
    requires s.phase == Between && !s.last && s.pos + 3 <= 8 * |data| && t.last && t.out == s.out
    requires BitsLe(data, s.pos, 1) == 1 && BitsLe(data, s.pos + 1, 2) == 2
    requires t.phase.Coded? && Split(data, s.pos + 3, t.phase.literals, t.phase.distances, t.pos)
    ensures StrictStep(data, s, t)
  {
    hide BitsLe, Dynamic, Split;
    SplitIsDynamic(data, s.pos + 3, t.phase.literals, t.phase.distances, t.pos);
  }

  lemma ThenSteps(data: seq<Byte>, m: State, k: nat, t: State)
    requires StrictRuns(data, START, m, k) && Step(data, m, t) && m.phase != Between
    ensures StrictRuns(data, START, t, k + 1)
  {
    hide Step, Split;
    assert StrictRuns(data, START, m, k + 1 - 1) && StrictStep(data, m, t);
  }

  lemma Letter(data: seq<Byte>, p: nat, out: seq<Byte>, sym: Byte)
    requires 97 <= sym <= 100 && p + 3 <= 8 * |data| && CodeBits(data, p, 3) == Code(Literals(), sym)
    ensures Step(data, Coding(p, out), Coding(p + 3, out + [sym]))
  {
    hide CodeBits, Code, Literals, Distances;
    assert SymbolBy(data, Coding(p, out), Coding(p + 3, out + [sym]), sym);
  }

  lemma MatchStarts(data: seq<Byte>, out: seq<Byte>)
    requires IsStream(data) && |out| == 2
    ensures Step(data, Coding(125, out), InMatch(3, out))
  {
    hide IsStream, CodeBits, Code, Literals, Distances;
    StreamLength(data);
    LiteralCodes(Literals()); DistanceCodes(Distances()); DataCodes(data); MoreDataCodes(data);
    MatchWith(data, Coding(125, out), InMatch(3, out), 125);
  }

  lemma MatchWith(data: seq<Byte>, s: State, t: State, p: nat)
    requires s.phase.Coded? && |s.phase.literals| == 258
    requires s.phase.literals[257] == 2 && Code(s.phase.literals, 257) == 1
    requires |s.phase.distances| == 2 && s.phase.distances[1] == 1 && Code(s.phase.distances, 1) == 1
    requires s.pos == p && p + 3 <= 8 * |data| && CodeBits(data, p, 2) == 1 && CodeBits(data, p + 2, 1) == 1
    requires |s.out| >= 2 && t == State(p + 3, s.last, Copying(2, 3, s.phase.literals, s.phase.distances), s.out)
    ensures Step(data, s, t)
  {
    hide MatchBy, CodeBits, Code;
    MatchIs(data, s, t, p + 2);
    assert MatchAfter(data, s, t, 257, 1);
    assert SymbolBy(data, s, t, 257);
  }

  lemma MatchIs(data: seq<Byte>, s: State, t: State, p: nat)
    requires s.phase.Coded? && |s.phase.distances| == 2 && s.phase.distances[1] == 1 && Code(s.phase.distances, 1) == 1
    requires p + 1 <= 8 * |data| && CodeBits(data, p, 1) == 1 && |s.out| >= 2
    requires t == State(p + 1, s.last, Copying(2, 3, s.phase.literals, s.phase.distances), s.out)
    ensures MatchBy(data, s, t, p, 0, 1)
  {
    hide CodeBits, Code;
    assert BitsLe(data, p, 0) == 0 && BitsLe(data, p + 1, 0) == 0;
    assert LengthBase(0) == 3 && DistanceBase(1) == 2;
  }

  lemma Copies(data: seq<Byte>, left: nat, out: seq<Byte>)
    requires |out| >= 2
    ensures left > 0 ==> Step(data, InMatch(left, out), InMatch(left - 1, out + [out[|out| - 2]]))
    ensures left == 0 ==> Step(data, InMatch(left, out), Coding(128, out))
  {
    hide Literals, Distances;
  }

  lemma EndOfBlock(data: seq<Byte>, out: seq<Byte>)
    requires IsStream(data)
    ensures Step(data, Coding(131, out), Ended(out))
  {
    hide IsStream, CodeBits, Code, Literals, Distances;
    StreamLength(data);
    LiteralCodes(Literals()); MoreDataCodes(data);
    assert SymbolBy(data, Coding(131, out), Ended(out), 256);
  }

  lemma Letters(data: seq<Byte>)
    requires IsStream(data)
    ensures Step(data, Coding(119, []), Coding(122, [97])) && Step(data, Coding(122, [97]), Coding(125, [97, 98]))
    ensures Step(data, Coding(128, [97, 98, 97, 98, 97]), Coding(131, [97, 98, 97, 98, 97, 100]))
  {
    hide IsStream, Step, CodeBits, Code, Literals, Coding;
    StreamLength(data);
    LiteralCodes(Literals()); DataCodes(data); MoreDataCodes(data);
    Letter(data, 119, [], 97); Letter(data, 122, [97], 98); Letter(data, 128, [97, 98, 97, 98, 97], 100);
    assert [] + [97] == [97] && [97] + [98] == [97, 98];
    assert [97, 98, 97, 98, 97] + [100] == [97, 98, 97, 98, 97, 100];
  }

  /** To the match. */
  lemma FirstSteps(data: seq<Byte>)
    requires IsStream(data)
    ensures StrictRuns(data, START, InMatch(3, [97, 98]), 4)
  {
    hide *;
    FirstStep(data); Letters(data); MatchStarts(data, [97, 98]);
    CodingIsCoded(119, []); CodingIsCoded(122, [97]); CodingIsCoded(125, [97, 98]);
    ThenSteps(data, Coding(119, []), 1, Coding(122, [97]));
    ThenSteps(data, Coding(122, [97]), 2, Coding(125, [97, 98]));
    ThenSteps(data, Coding(125, [97, 98]), 3, InMatch(3, [97, 98]));
  }

  lemma FirstStep(data: seq<Byte>)
    requires IsStream(data)
    ensures StrictRuns(data, START, Coding(119, []), 1)
  {
    hide StrictStep, IsStream, Coding;
    Begins(data);
    assert StrictRuns(data, START, START, 0);
  }

  lemma CodingIsCoded(pos: nat, out: seq<Byte>)
    ensures Coding(pos, out).phase != Between
    ensures forall left: nat :: InMatch(left, out).phase != Between
  {}

  /** Through the match. */
  lemma MatchSteps(data: seq<Byte>, a: Byte, b: Byte, k: nat)
    requires StrictRuns(data, START, InMatch(3, [a, b]), k)
    ensures StrictRuns(data, START, Coding(128, [a, b, a, b, a]), k + 4)
  {
    hide *;
    var o2, o3, o4, o5 := [a, b], [a, b, a], [a, b, a, b], [a, b, a, b, a];
    Copies(data, 3, o2); Copies(data, 2, o3); Copies(data, 1, o4); Copies(data, 0, o5);
    CodingIsCoded(0, o2); CodingIsCoded(0, o3); CodingIsCoded(0, o4); CodingIsCoded(0, o5);
    assert o2 + [a] == o3 && o3 + [b] == o4 && o4 + [a] == o5;
    ThenSteps(data, InMatch(3, o2), k, InMatch(2, o3));
    ThenSteps(data, InMatch(2, o3), k + 1, InMatch(1, o4));
    ThenSteps(data, InMatch(1, o4), k + 2, InMatch(0, o5));
    ThenSteps(data, InMatch(0, o5), k + 3, Coding(128, o5));
  }

  /** The stream stands for the six bytes "ababad", and the decoder takes every step on the way. */
  lemma Decoding(data: seq<Byte>)
    requires IsStream(data)
    ensures StrictRuns(data, START, Ended([97, 98, 97, 98, 97, 100]), 10)
  {
    hide *;
    FirstSteps(data);
    MatchSteps(data, 97, 98, 4);
    Letters(data);
    var o5, o6 := [97, 98, 97, 98, 97], [97, 98, 97, 98, 97, 100];
    EndOfBlock(data, o6);
    CodingIsCoded(128, o5); CodingIsCoded(131, o6);
    ThenSteps(data, Coding(128, o5), 8, Coding(131, o6));
    ThenSteps(data, Coding(131, o6), 9, Ended(o6));
  }

  /** So that is what a call with room for it puts out. */
  method ReadKnown() returns (out: seq<Byte>)
    ensures out == [97, 98, 97, 98, 97, 100]
  {
    hide Runs, StrictRuns, Breaks, WindowOk, Usable, IsStream, Step;
    var data := STREAM;
    var reader := new Reader(data);
    var buf := new Byte[7](_ => 0);
    var st, n := reader.Read(buf);
    KnownEnd(data);
    if !st.Good? {
      NeverEnds(data, [], buf.Length);
      assert false;
    }
    reader.PutOutIsPrefix(Ended([97, 98, 97, 98, 97, 100]), 10);
    out := buf[..n];
  }

  lemma KnownEnd(data: seq<Byte>)
    requires data == STREAM
    ensures StrictRuns(data, START, Ended([97, 98, 97, 98, 97, 100]), 10)
    ensures Runs(data, START, Ended([97, 98, 97, 98, 97, 100]), 10) && Final(Ended([97, 98, 97, 98, 97, 100]))
  {
    hide Runs, StrictRuns;
    Decoding(data);
    StrictIsRun(data, START, Ended([97, 98, 97, 98, 97, 100]), 10);
  }
}
