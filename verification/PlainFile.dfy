/** What a file is for: a byte array with a position. */
module PlainFile {
  import opened Crc

  /** Positions and sizes are words of 32 bits. */
  const POS_MAX := 0xffff_ffff

  datatype Plain = Plain(bytes: seq<Byte>, pos: nat)

  datatype Whence = Set | Current | End

  datatype Op = Read(n: nat) | Write(data: seq<Byte>) | Seek(off: int, whence: Whence) | Flush

  datatype Out = Bytes(data: seq<Byte>) | Number(n: nat) | BadFile | Invalid | Failed

  datatype Mode = Mode(readable: bool, writable: bool, append: bool)

  function Zeros(n: nat): (z: seq<Byte>)
    ensures |z| == n && forall k :: 0 <= k < n ==> z[k] == 0
  {
    seq(n, _ => 0)
  }

  /** The bytes from pos on. */
  function Rest(bytes: seq<Byte>, pos: nat): seq<Byte> {
    if pos < |bytes| then bytes[pos..] else []
  }

  /** Exactly pos bytes: the array cut off at pos, or filled with zeros up to it. */
  function Upto(bytes: seq<Byte>, pos: nat): (u: seq<Byte>)
    ensures |u| == pos
  {
    if pos <= |bytes| then bytes[..pos] else bytes + Zeros(pos - |bytes|)
  }

  /** Overwriting at pos. */
  function Written(bytes: seq<Byte>, pos: nat, data: seq<Byte>): (w: seq<Byte>)
    ensures |w| >= pos + |data|
  {
    Upto(bytes, pos) + data + Rest(bytes, pos + |data|)
  }

  /** Where a write takes place. */
  function WritePos(mode: Mode, p: Plain): nat {
    if mode.append && p.pos < |p.bytes| then |p.bytes| else p.pos
  }

  function ReadOf(p: Plain, n: nat): seq<Byte> {
    var rest := Rest(p.bytes, p.pos);
    if n <= |rest| then rest[..n] else rest
  }

  /** A position that runs over wraps around. */
  function Wrapped(pos: int): (w: nat)
    requires -0x1_0000_0000 <= pos < 0x2_0000_0000
    ensures w <= POS_MAX
  {
    if pos < 0 then pos + 0x1_0000_0000 else if pos < 0x1_0000_0000 then pos else pos - 0x1_0000_0000
  }

  predicate Signed32(off: int) {
    -0x8000_0000 <= off < 0x8000_0000
  }

  function SeekFrom(p: Plain, whence: Whence): nat {
    match whence
    case Set => 0
    case Current => p.pos
    case End => |p.bytes|
  }

  /** The new position, or an error when it would be negative. */
  function SeekOf(p: Plain, off: int, whence: Whence): Out
    requires Signed32(off) && p.pos <= POS_MAX && |p.bytes| <= POS_MAX
  {
    var from := SeekFrom(p, whence);
    if !whence.Set? && from + off < 0 then Invalid else Number(Wrapped(from + off))
  }

  /** What an operation asks of its caller. */
  predicate Fits(mode: Mode, p: Plain, op: Op) {
    && p.pos <= POS_MAX && |p.bytes| <= POS_MAX
    && match op
       case Write(data) => WritePos(mode, p) + |data| <= POS_MAX
       case Seek(off, _) => Signed32(off)
       case _ => true
  }

  /** One operation: the new array and position, and the answer. */
  function Step(mode: Mode, p: Plain, op: Op): (Plain, Out)
    requires Fits(mode, p, op)
  {
    match op
    case Read(n) =>
      if !mode.readable then (p, BadFile) else
        var data := ReadOf(p, n);
        (p.(pos := p.pos + |data|), Bytes(data))
    case Write(data) =>
      if !mode.writable then (p, BadFile) else
        var at := WritePos(mode, p);
        (Plain(Written(p.bytes, at, data), at + |data|), Number(|data|))
    case Seek(off, whence) =>
      var out := SeekOf(p, off, whence);
      (if out.Number? then p.(pos := out.n) else p, out)
    case Flush => (p, Number(0))
  }

  /** Every operation of a run may be called where the ones before it lead. */
  predicate AllFit(mode: Mode, p: Plain, ops: seq<Op>)
    decreases |ops|
  {
    ops == [] || (Fits(mode, p, ops[0]) && AllFit(mode, Step(mode, p, ops[0]).0, ops[1..]))
  }

  predicate NoWrites(ops: seq<Op>) {
    forall i :: 0 <= i < |ops| ==> !ops[i].Write?
  }

  /** The array and the position after the first k operations. */
  function After(mode: Mode, p: Plain, ops: seq<Op>, k: nat): Plain
    requires AllFit(mode, p, ops) && k <= |ops|
    decreases k, |ops|
  {
    if k == 0 then p else After(mode, Step(mode, p, ops[0]).0, ops[1..], k - 1)
  }

  lemma {:induction false} AfterNext(mode: Mode, p: Plain, ops: seq<Op>, k: nat)
    requires AllFit(mode, p, ops) && k < |ops|
    ensures var q := After(mode, p, ops, k);
      Fits(mode, q, ops[k]) && After(mode, p, ops, k + 1) == Step(mode, q, ops[k]).0
    decreases k
  {
    hide Fits, Step;
    if k > 0 { AfterNext(mode, Step(mode, p, ops[0]).0, ops[1..], k - 1); }
  }

  function Outs(mode: Mode, p: Plain, ops: seq<Op>): seq<Out>
    requires AllFit(mode, p, ops)
    decreases |ops|
  {
    if ops == [] then [] else
      var (p', out) := Step(mode, p, ops[0]);
      [out] + Outs(mode, p', ops[1..])
  }

  lemma {:induction false} OutsLength(mode: Mode, p: Plain, ops: seq<Op>)
    requires AllFit(mode, p, ops)
    ensures |Outs(mode, p, ops)| == |ops|
    decreases |ops|
  {
    if ops != [] { OutsLength(mode, Step(mode, p, ops[0]).0, ops[1..]); }
  }

  // ---------- what the operations mean, byte by byte ----------

  /** A write puts its bytes at the position, keeps the others, and zeros fill a gap behind the end. */
  lemma WrittenAt(c: seq<Byte>, pos: nat, data: seq<Byte>)
    ensures var w := Written(c, pos, data);
      && |w| == (if pos + |data| < |c| then |c| else pos + |data|)
      && forall k :: 0 <= k < |w| ==>
           w[k] == if pos <= k < pos + |data| then data[k - pos] else if k < |c| then c[k] else 0
  {}

  /** A read gives the bytes from the position on, as many as there are. */
  lemma ReadAt(p: Plain, n: nat)
    ensures var r := ReadOf(p, n);
      && |r| == (if p.pos >= |p.bytes| then 0 else if n < |p.bytes| - p.pos then n else |p.bytes| - p.pos)
      && forall k :: 0 <= k < |r| ==> r[k] == p.bytes[p.pos + k]
  {}

  /** In append mode the old bytes stay a prefix of the new ones. */
  lemma AppendKeeps(mode: Mode, p: Plain, data: seq<Byte>)
    ensures WritePos(mode, p) >= p.pos && (!mode.append ==> WritePos(mode, p) == p.pos)
    ensures mode.append ==> p.bytes <= Written(p.bytes, WritePos(mode, p), data)
    ensures mode.append && p.pos <= |p.bytes| ==> Written(p.bytes, WritePos(mode, p), data) == p.bytes + data
  {}

  /** From the start, from the position or from the end; a negative result is refused for the latter two. */
  lemma SeekAt(p: Plain, off: int)
    requires Signed32(off) && p.pos <= POS_MAX && |p.bytes| <= POS_MAX
    ensures SeekOf(p, off, Set) == Number(off % 0x1_0000_0000)
    ensures SeekOf(p, off, Current) == if p.pos + off < 0 then Invalid else Number((p.pos + off) % 0x1_0000_0000)
    ensures SeekOf(p, off, End) == if |p.bytes| + off < 0 then Invalid else Number((|p.bytes| + off) % 0x1_0000_0000)
    ensures SeekOf(p, 0, End) == Number(|p.bytes|) && SeekOf(p, 0, Current) == Number(p.pos)
  {}

  // ---------- writing piece by piece ----------

  /** c after `full` has been written over it up to pos. */
  function PartWritten(c: seq<Byte>, full: seq<Byte>, pos: nat): seq<Byte>
    requires pos <= |full|
  {
    full[..pos] + Rest(c, pos)
  }

  /**
    What an operation leaves that the device had no room for: of a write, some of the bytes up to
    the new position and nothing else; of any other, the bytes as they were.
  */
  ghost predicate Interrupted(mode: Mode, p: Plain, op: Op, q: Plain) {
    match op
    case Write(data) =>
      var full := Written(p.bytes, WritePos(mode, p), data);
      q.pos <= |full| && q.pos < WritePos(mode, p) + |data| && q.bytes == PartWritten(p.bytes, full, q.pos)
    case _ => q.bytes == p.bytes
  }

  /** What lies behind a position, seen from an earlier one. */
  lemma RestSame(c: seq<Byte>, front: seq<Byte>, d: seq<Byte>, pos: nat)
    requires c == front + Rest(d, |front|) && |front| <= pos
    ensures Rest(c, pos) == Rest(d, pos)
  {}

  lemma WrittenPrefix(c: seq<Byte>, pos: nat, data: seq<Byte>, n: nat)
    requires n <= |data|
    ensures Written(c, pos, data)[..pos + n] == Upto(c, pos) + data[..n]
    ensures PartWritten(c, Written(c, pos, data), pos + |data|) == Written(c, pos, data)
  {}

  lemma FilledPrefix(c: seq<Byte>, pos: nat, data: seq<Byte>, p: nat)
    requires p <= pos
    ensures Written(c, pos, data)[..p] == Upto(c, p)
  {}

  /** All of the filling and some of the data have been written, or only some of the filling. */
  lemma WriteStopped(c: seq<Byte>, p: nat, data: seq<Byte>, pos: nat)
    requires pos <= p + |data|
    ensures pos <= |Written(c, p, data)|
    ensures PartWritten(c, Written(c, p, data), pos)
         == (if pos <= p then Upto(c, pos) else Upto(c, p) + data[..pos - p]) + Rest(c, pos)
    ensures pos == p + |data| ==> PartWritten(c, Written(c, p, data), pos) == Written(c, p, data)
  {
    if pos <= p { FilledPrefix(c, p, data, pos); } else { WrittenPrefix(c, p, data, pos - p); }
    WrittenPrefix(c, p, data, |data|);
  }

  lemma UptoNext(c: seq<Byte>, pos: nat)
    requires pos >= |c|
    ensures Upto(c, pos) + [0] == Upto(c, pos + 1)
  {}

  lemma PartSame(c: seq<Byte>, pos: nat)
    requires pos <= |c|
    ensures c[..pos] + Rest(c, pos) == c
  {}

  /** Copying the next byte of d behind a part of c that ends in d. */
  lemma CopyNext(c: seq<Byte>, front: seq<Byte>, d: seq<Byte>, pos: nat)
    requires c == front + Rest(d, |front|) && |front| <= pos < |d|
    ensures pos < |c| && c[..pos] + [d[pos]] == c[..pos + 1]
  {}

  lemma CopyAll(c: seq<Byte>, front: seq<Byte>, d: seq<Byte>, pos: nat)
    requires c == front + Rest(d, |front|) && |front| <= pos && pos <= |c| && |d| <= pos
    ensures c[..pos] == c
  {}
}
