/** Bits, numbers and Huffman symbols from a stream of bytes, out of a buffer of two bytes. */
module BitReader {
  import opened Arith
  import opened Gf2Poly
  import opened Crc
  import opened ByteNumber
  import opened DeflateBits
  import opened Huffman
  import opened HuffmanWalk

  lemma {:induction false} ShrDiv(v: nat, k: nat)
    ensures Shr(v, k) == v / Pow2(k)
    decreases k
  {
    if k > 0 {
      ShrDiv(v / 2, k - 1);
      DivDiv(v, 2, Pow2(k - 1));
    }
  }

  /** (value >> (8 - bitlen)) & ((1 << num) - 1) */
  function Taken(value: nat, bitlen: nat, num: nat): nat
    requires bitlen <= 8
  {
    Shr(value, 8 - bitlen) % Pow2(num)
  }

  lemma TakenCut(value: nat, bitlen: nat, num: nat)
    requires bitlen <= 8
    ensures Taken(value, bitlen, num) == Cut(value, 8 - bitlen, num)
  {
    ShrDiv(value, 8 - bitlen);
  }

  /** The unread bits are the upper ones of the last byte that was read. */
  ghost predicate Buffered(data: seq<Byte>, rpos: nat, last: Byte, bitlen: nat) {
    rpos <= |data| && bitlen < 8 && (bitlen > 0 ==> rpos > 0 && last == data[rpos - 1])
  }

  lemma LeOne(b: Byte)
    ensures Le([b]) == b
  {
    assert Le([b][1..]) == 0;
  }

  /** From the buffer alone. */
  lemma NoByte(data: seq<Byte>, rpos: nat, last: Byte, bitlen: nat, num: nat)
    requires Buffered(data, rpos, last, bitlen) && 0 < num <= bitlen
    ensures 8 * rpos >= bitlen && Taken(last, bitlen, num) == BitsLe(data, 8 * rpos - bitlen, num)
  {
    hide Taken, Cut, BitsLe, Le;
    TakenCut(last, bitlen, num);
    assert data[rpos - 1..rpos] == [last];
    LeOne(last);
    Window(data, rpos - 1, 1, 8 - bitlen, num);
  }

  lemma DropLast(more: nat, last: Byte, num: nat)
    ensures Cut(last + 256 * more, 8, num) == Cut(more, 0, num)
  {
    Powers();
    assert Pow2(0) == 1;
    hide Pow2;
    DivDrop(256, more, last);
  }

  /** From the buffer and n more bytes. */
  lemma MoreBytes(data: seq<Byte>, rpos: nat, last: Byte, bitlen: nat, num: nat, n: nat)
    requires Buffered(data, rpos, last, bitlen) && rpos + n <= |data| && bitlen < num <= bitlen + 8 * n
    ensures 8 * rpos >= bitlen
    ensures Taken(last + 256 * Le(data[rpos..rpos + n]), bitlen, num) == BitsLe(data, 8 * rpos - bitlen, num)
  {
    hide Taken, BitsLe, Le, Pow2, Cut;
    var more := data[rpos..rpos + n];
    TakenCut(last + 256 * Le(more), bitlen, num);
    if bitlen > 0 {
      var w := data[rpos - 1..rpos + n];
      assert w == [last] + more;
      LastAndMore(last, more);
      Window(data, rpos - 1, n + 1, 8 - bitlen, num);
    } else {
      DropLast(Le(more), last, num);
      Window(data, rpos, n, 0, num);
    }
  }

  lemma LastAndMore(last: Byte, more: seq<Byte>)
    ensures Le([last] + more) == last + 256 * Le(more)
  {
    assert ([last] + more)[1..] == more;
  }

  // ---------- Huffman symbols ----------

  /** num - j bits of a code have been shifted in behind v0; the j others are still in res. */
  ghost predicate Shifting(data: seq<Byte>, p: nat, num: nat, j: nat, v0: nat, value: nat, res: nat) {
    && j <= num && p + num <= 8 * |data|
    && res == BitsLe(data, p + num - j, j) && value == Pow2(num - j) * v0 + CodeBits(data, p, num - j)
  }

  lemma ShiftStart(data: seq<Byte>, p: nat, num: nat, v0: nat, res: nat)
    requires p + num <= 8 * |data| && res == BitsLe(data, p, num)
    ensures Shifting(data, p, num, num, v0, v0, res)
  {}

  lemma ShiftStep(data: seq<Byte>, p: nat, num: nat, j: nat, v0: nat, value: nat, res: nat)
    requires Shifting(data, p, num, j, v0, value, res) && j > 0
    ensures Shifting(data, p, num, j - 1, v0, 2 * value + res % 2, res / 2)
    ensures j == 1 ==> res % 2 == res
  {
    var i := num - j;
    var bit, rest := Bit(data, p + i), BitsLe(data, p + i + 1, j - 1);
    assert res == bit + 2 * rest;
    assert res % 2 == bit && res / 2 == rest;
    assert CodeBits(data, p, i + 1) == 2 * CodeBits(data, p, i) + bit;
    assert Pow2(i + 1) == 2 * Pow2(i);
    hide Bit, BitsLe, CodeBits, Pow2;
    MulAssoc(2, Pow2(i), v0);
  }

  lemma ShiftEnd(data: seq<Byte>, p: nat, num: nat, v0: nat, value: nat, res: nat)
    requires Shifting(data, p, num, 0, v0, value, res)
    ensures value == Pow2(num) * v0 + CodeBits(data, p, num)
  {}

  /** value <<= 1; value += res & 1; res >>= 1; */
  method ShiftOne(value0: nat, res0: nat, ghost data: seq<Byte>, ghost p: nat, ghost num: nat, ghost j: nat,
                  ghost v0: nat)
    returns (value: nat, res: nat)
    requires j > 0 && Shifting(data, p, num, j, v0, value0, res0)
    ensures Shifting(data, p, num, j - 1, v0, value, res)
  {
    ShiftStep(data, p, num, j, v0, value0, res0);
    value, res := 2 * value0 + res0 % 2, res0 / 2;
  }

  /** Bits go into the value in the order in which they come. */
  method ShiftIn(v0: nat, res0: nat, num: nat, ghost data: seq<Byte>, ghost p: nat) returns (value: nat)
    requires 0 < num <= 8 && p + num <= 8 * |data| && res0 == BitsLe(data, p, num)
    ensures value == Pow2(num) * v0 + CodeBits(data, p, num)
  {
    hide Shifting, BitsLe, CodeBits, Pow2;
    value := v0;
    var res := res0;
    ShiftStart(data, p, num, v0, res);
    if num >= 8 { value, res := ShiftOne(value, res, data, p, num, 8, v0); }
    if num >= 7 { value, res := ShiftOne(value, res, data, p, num, 7, v0); }
    if num >= 6 { value, res := ShiftOne(value, res, data, p, num, 6, v0); }
    if num >= 5 { value, res := ShiftOne(value, res, data, p, num, 5, v0); }
    if num >= 4 { value, res := ShiftOne(value, res, data, p, num, 4, v0); }
    if num >= 3 { value, res := ShiftOne(value, res, data, p, num, 3, v0); }
    if num >= 2 { value, res := ShiftOne(value, res, data, p, num, 2, v0); }
    ShiftStep(data, p, num, 1, v0, value, res);
    value := 2 * value + res;
    ShiftEnd(data, p, num, v0, value, res / 2);
  }

  lemma {:induction false} CodeJoin(data: seq<Byte>, p: nat, m: nat, n: nat)
    requires p + m + n <= 8 * |data|
    ensures CodeBits(data, p, m + n) == Pow2(n) * CodeBits(data, p, m) + CodeBits(data, p + m, n)
    decreases n
  {
    hide Bit, CodeBits, Pow2;
    if n == 0 {
      JoinNone(data, p, m);
    } else {
      CodeJoin(data, p, m, n - 1);
      JoinStep(data, p, m, n, CodeBits(data, p, m));
    }
  }

  lemma JoinNone(data: seq<Byte>, p: nat, m: nat)
    requires p + m <= 8 * |data|
    ensures CodeBits(data, p + m, 0) == 0 && Pow2(0) == 1
  {}

  lemma JoinStep(data: seq<Byte>, p: nat, m: nat, n: nat, a: nat)
    requires n > 0 && p + m + n <= 8 * |data|
    requires CodeBits(data, p, m + (n - 1)) == Pow2(n - 1) * a + CodeBits(data, p + m, n - 1)
    ensures CodeBits(data, p, m + n) == Pow2(n) * a + CodeBits(data, p + m, n)
  {
    assert CodeBits(data, p, m + n) == 2 * CodeBits(data, p, m + (n - 1)) + Bit(data, p + m + n - 1);
    assert CodeBits(data, p + m, n) == 2 * CodeBits(data, p + m, n - 1) + Bit(data, p + m + n - 1);
    assert Pow2(n) == 2 * Pow2(n - 1);
    hide Bit, CodeBits, Pow2;
    MulAssoc(2, Pow2(n - 1), a);
  }

  lemma EntryParts(count: nat, delta: nat)
    requires delta < 16
    ensures (16 * count + delta) / 16 == count && (16 * count + delta) % 16 == delta
  {}

  /** The walk stands at place t behind c bits, with what their value exceeds all codes so far by. */
  ghost predicate Walking(tree: seq<nat>, t: nat, lens: seq<nat>, data: seq<Byte>, p: nat, c: nat, value: nat) {
    && c <= 15 && p + c <= 8 * |data| && TableAt(tree, t, lens, c) && Complete(lens)
    && CodeBits(data, p, c) == End(lens, c) + value
  }

  lemma WalkStart(tree: seq<nat>, lens: seq<nat>, data: seq<Byte>, p: nat)
    requires TableAt(tree, 0, lens, 0) && Complete(lens) && p <= 8 * |data|
    ensures Walking(tree, 0, lens, data, p, 0, 0)
  {}

  /** The length that the next group is about. */
  ghost function Ahead(lens: seq<nat>, c: nat): nat {
    Next(lens, c + 1)
  }

  lemma WalkEntry(tree: seq<nat>, t: nat, lens: seq<nat>, data: seq<Byte>, p: nat, c: nat, value: nat)
    requires Walking(tree, t, lens, data, p, c, value)
    ensures var b := Ahead(lens, c);
      && c < b <= 15 && GroupAt(tree, t, lens, c, b) && t < |tree|
      && if b - c > 8 then tree[t] / 16 == 0 && tree[t] % 16 == 8
         else tree[t] / 16 == Codes(lens, b) && tree[t] % 16 == b - c
  {
    hide TableAt, GroupAt, Codes, First, End, CodeBits, Complete, Next;
    CodeBitsBound(data, p, c);
    WalkStep(tree, t, lens, c);
    GroupEntry2(tree, t, lens, c, Ahead(lens, c));
  }

  lemma GroupEntry2(tree: seq<nat>, t: nat, lens: seq<nat>, c: nat, b: nat)
    requires GroupAt(tree, t, lens, c, b)
    ensures c < b && t < |tree|
    ensures if b - c > 8 then tree[t] / 16 == 0 && tree[t] % 16 == 8
            else tree[t] / 16 == Codes(lens, b) && tree[t] % 16 == b - c
  {
    hide TableAt, Codes, First, Symbols, End;
    if b - c <= 8 { EntryParts(Codes(lens, b), b - c); }
  }

  /** After the bits of a group: the walk goes on, or the symbol has been reached. */
  lemma WalkBits(tree: seq<nat>, t: nat, lens: seq<nat>, data: seq<Byte>, p: nat, c: nat, value: nat, now: nat)
    requires Walking(tree, t, lens, data, p, c, value)
    requires var bits := if Ahead(lens, c) - c > 8 then 8 else Ahead(lens, c) - c;
      bits > 0 && p + c + bits <= 8 * |data| && now == Pow2(bits) * value + CodeBits(data, p + c, bits)
    requires GroupAt(tree, t, lens, c, Ahead(lens, c)) && Ahead(lens, c) <= 15
    ensures var b := Ahead(lens, c);
      if b - c > 8 then Walking(tree, t + 1, lens, data, p, c + 8, now)
      else if now >= Codes(lens, b) then Walking(tree, t + 1 + Codes(lens, b), lens, data, p, b, now - Codes(lens, b))
      else t + 1 + now < |tree| && tree[t + 1 + now] < |lens| && lens[tree[t + 1 + now]] == b
           && Decoded(lens, data, p, tree[t + 1 + now])
  {
    var b := Ahead(lens, c);
    hide TableAt, Codes, First, Symbols, CodeBits, Pow2, Ahead, Complete;
    WalkValue(lens, data, p, c, if b - c > 8 then 8 else b - c, value, now);
    if b - c <= 8 && now < Codes(lens, b) {
      WalkFound(tree, t, lens, data, p, b, now);
    }
  }

  lemma WalkValue(lens: seq<nat>, data: seq<Byte>, p: nat, c: nat, bits: nat, value: nat, now: nat)
    requires p + c + bits <= 8 * |data| && CodeBits(data, p, c) == End(lens, c) + value
    requires now == Pow2(bits) * value + CodeBits(data, p + c, bits)
    ensures CodeBits(data, p, c + bits) == Pow2(bits) * End(lens, c) + now
  {
    hide End, CodeBits, Pow2;
    CodeJoin(data, p, c, bits);
    var v: int := value;
    MulMinus(Pow2(bits), End(lens, c), -v);
  }

  lemma WalkFound(tree: seq<nat>, t: nat, lens: seq<nat>, data: seq<Byte>, p: nat, b: nat, now: nat)
    requires b > 0 && p + b <= 8 * |data| && now < Codes(lens, b) && CodeBits(data, p, b) == First(lens, b) + now
    requires t + 1 + Codes(lens, b) <= |tree| && tree[t + 1..t + 1 + Codes(lens, b)] == Symbols(lens, b, 0)
    ensures tree[t + 1 + now] < |lens| && lens[tree[t + 1 + now]] == b && Decoded(lens, data, p, tree[t + 1 + now])
  {
    SymbolsLength(lens, b, 0);
    SymbolAt(lens, b, 0, now);
    hide Symbols, First, CodeBits;
    assert tree[t + 1..t + 1 + Codes(lens, b)][now] == tree[t + 1 + now];
  }

  /** Bits that begin with a code of at most c bits lie before the end of the codes of c bits. */
  lemma CodeBefore(lens: seq<nat>, data: seq<Byte>, p: nat, c: nat, sym: nat)
    requires p + c <= 8 * |data| && Decoded(lens, data, p, sym) && lens[sym] <= c
    ensures CodeBits(data, p, c) < End(lens, c)
  {
    var b := lens[sym];
    CountBelow(lens, sym, |lens|);
    if b < c {
      EndGrows(lens, b, c);
      CodePrefix(data, p, b, c);
      MulMonotone(Pow2(c - b), CodeBits(data, p, b) + 1, End(lens, b));
    }
  }

  /** The code that comes next is at least as long as the walk says. */
  lemma LongCode(tree: seq<nat>, t: nat, lens: seq<nat>, data: seq<Byte>, p: nat, c: nat, value: nat, sym: nat)
    requires Walking(tree, t, lens, data, p, c, value) && Decoded(lens, data, p, sym)
    ensures Ahead(lens, c) <= 16 ==> lens[sym] >= Ahead(lens, c)
  {
    CountBelow(lens, sym, |lens|);
    hide CodeBits, Code, TableAt, Next, Count, First;
    if lens[sym] <= c {
      CodeBefore(lens, data, p, c, sym);
    } else if lens[sym] < Ahead(lens, c) {
      NextSkips(lens, c + 1, lens[sym]);
    }
  }

  /** When the bits that the walk needs next are missing, no code can be complete. */
  lemma NoCode(tree: seq<nat>, t: nat, lens: seq<nat>, data: seq<Byte>, p: nat, c: nat, value: nat)
    requires Walking(tree, t, lens, data, p, c, value) && Ahead(lens, c) <= 15 && p + Ahead(lens, c) > 8 * |data|
    ensures !exists sym :: Decoded(lens, data, p, sym)
  {
    hide CodeBits, Code, TableAt, Ahead, Walking;
    forall sym: nat | Decoded(lens, data, p, sym) ensures false {
      LongCode(tree, t, lens, data, p, c, value, sym);
    }
  }

  class Bits {
    const data: seq<Byte>
    var rpos: nat
    var buf0: Byte
    var buf1: Byte
    var bitlen: nat

    ghost predicate Valid()
      reads this
    {
      Buffered(data, rpos, buf1, bitlen)
    }

    /** Bits consumed so far. */
    ghost function Pos(): (p: int)
      reads this
      ensures Valid() ==> p >= 0
    {
      8 * rpos - bitlen
    }

    constructor (data: seq<Byte>)
      ensures Valid() && Pos() == 0 && this.data == data
    {
      this.data := data;
      rpos, buf0, buf1, bitlen := 0, 0, 0, 0;
    }

    /** The reader of the bytes: fewer than n at the end of the stream. */
    method ReadBytes(n: nat) returns (bytes: seq<Byte>)
      requires rpos <= |data|
      modifies `rpos
      ensures rpos == old(rpos) + |bytes| <= |data| && bytes == data[old(rpos)..rpos]
      ensures |bytes| == if n <= |data| - old(rpos) then n else |data| - old(rpos)
    {
      var m := if n <= |data| - rpos then n else |data| - rpos;
      bytes := data[rpos..rpos + m];
      rpos := rpos + m;
    }

    /** lib_deflate_get_bits */
    method GetBits(num: nat) returns (ok: bool, value: nat)
      requires Valid() && 0 < num <= 8
      modifies this
      ensures ok <==> old(Pos()) + num <= 8 * |data|
      ensures ok ==> Valid() && Pos() == old(Pos()) + num && value == BitsLe(data, old(Pos()), num)
    {
      hide BitsLe, Taken, Le, Or, Shl;
      ghost var before, last := rpos, buf1;
      value := buf1;
      if num > bitlen {
        var bytes := ReadBytes(1);
        if |bytes| < 1 {
          return false, 0;
        }
        buf1 := bytes[0];
        MoreBytes(data, before, last, bitlen, num, 1);
        LeOne(buf1);
        assert bytes == [buf1];
        OrByte(buf1, value);
        value := Or(Shl(buf1, 8), value);
      } else {
        NoByte(data, rpos, buf1, bitlen, num);
      }
      value := Taken(value, bitlen, num);
      bitlen := (bitlen - num) % 8;
      ok := true;
    }

    /** lib_deflate_get_bits_long */
    method GetBitsLong(num: nat) returns (ok: bool, value: nat)
      requires Valid() && 0 < num <= 16
      modifies this
      ensures ok <==> old(Pos()) + num <= 8 * |data|
      ensures ok ==> Valid() && Pos() == old(Pos()) + num && value == BitsLe(data, old(Pos()), num)
    {
      hide BitsLe, Taken, Le, Or, Shl;
      ghost var before, last := rpos, buf1;
      value := buf1;
      if num > bitlen + 8 {
        var bytes := ReadBytes(2);
        if |bytes| < 2 {
          return false, 0;
        }
        buf0, buf1 := bytes[0], bytes[1];
        MoreBytes(data, before, last, bitlen, num, 2);
        OrTwoBytes(bytes, value);
        value := Or(Shl(Or(Shl(buf1, 8), buf0), 8), value);
      } else if num > bitlen {
        var bytes := ReadBytes(1);
        if |bytes| < 1 {
          return false, 0;
        }
        buf1 := bytes[0];
        MoreBytes(data, before, last, bitlen, num, 1);
        LeOne(buf1);
        assert bytes == [buf1];
        OrByte(buf1, value);
        value := Or(Shl(buf1, 8), value);
      } else {
        NoByte(data, rpos, buf1, bitlen, num);
      }
      value := Taken(value, bitlen, num);
      bitlen := (bitlen - num) % 8;
      ok := true;
    }

    /** lib_deflate_get_huffman: the symbol whose code comes next, within 15 bits. */
    method GetHuffman(tbl: array<Entry>, ghost lens: seq<nat>) returns (ok: bool, sym: nat)
      requires Valid() && TableAt(tbl[..], 0, lens, 0) && Complete(lens)
      modifies this
      ensures ok ==> Valid() && Decoded(lens, data, old(Pos()), sym)
      ensures ok ==> lens[sym] <= 15 && Pos() == old(Pos()) + lens[sym]
      ensures !ok ==> !exists s :: Decoded(lens, data, old(Pos()), s)
    {
      hide TableAt, GroupAt, Codes, Complete, Decoded, CodeBits, BitsLe, Pow2, Walking, Ahead;
      ghost var p: nat, c: nat := Pos(), 0;
      var value: nat, t: nat := 0, 0;
      WalkStart(tbl[..], lens, data, p);
      while true
        invariant Valid() && Pos() == p + c && c <= 15
        invariant Walking(tbl[..], t, lens, data, p, c, value)
        decreases 15 - c
      {
        ghost var b := Ahead(lens, c);
        WalkEntry(tbl[..], t, lens, data, p, c, value);
        var entry := tbl[t];
        var bits: nat, entries: nat := entry % 16, entry / 16;
        var more, res := GetBits(bits);
        if !more {
          NoCode(tbl[..], t, lens, data, p, c, value);
          return false, 0;
        }
        var now := ShiftIn(value, res, bits, data, p + c);
        WalkBits(tbl[..], t, lens, data, p, c, value, now);
        t := t + 1;
        if now < entries {
          return true, tbl[t + now];
        }
        value := now - entries;
        t := t + entries;
        c := c + bits;
      }
    }
  }

  lemma OrByte(high: nat, low: Byte)
    ensures Or(Shl(high, 8), low) == 256 * high + low
  {
    Powers();
    OrSum(high, low, 8);
  }

  lemma OrTwoBytes(bytes: seq<Byte>, low: Byte)
    requires |bytes| == 2
    ensures Or(Shl(Or(Shl(bytes[1], 8), bytes[0]), 8), low) == low + 256 * Le(bytes)
  {
    OrByte(bytes[1], bytes[0]);
    var b0: nat, b1: nat := bytes[0], bytes[1];
    OrByte(256 * b1 + b0, low);
    assert bytes[1..] == [bytes[1]];
    LeOne(bytes[1]);
  }
}
