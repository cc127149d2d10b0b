/** The buffered I/O fast paths of mariadb-10.11.2-winx64/include/mysql/server/my_sys.h as byte streams. The slow paths
    have no body there; they enter as contracts on the states before and after. */
module IoCache {
  import opened ByteOrder

  // ---------- writing ----------

  /** What a write cache stands for: the bytes that reached the file, the bytes pending in the buffer, the room of the
      buffer, and the file offset of its first byte. */
  datatype WriteState = WriteState(file: seq<Byte>, pending: seq<Byte>, room: nat, posInFile: nat)

  /** Everything written so far, in order. */
  function Stream(s: WriteState): seq<Byte> { s.file + s.pending }

  /** my_b_tell of a write cache. */
  function WriteTell(s: WriteState): nat { s.posInFile + |s.pending| }

  /** The offset counts what reached the file, from the offset `start` at which the cache was opened. */
  predicate WriteValid(s: WriteState, start: nat) {
    s.posInFile == start + |s.file| && |s.pending| <= s.room
  }

  datatype WriteOp = Write(bytes: seq<Byte>) | WriteByte(b: Byte)

  function Written(op: WriteOp): seq<Byte> {
    match op
    case Write(bytes) => bytes
    case WriteByte(b) => [b]
  }

  /** A successful _my_b_write: the bytes follow everything before them, in the file or still pending. */
  ghost predicate SlowWrite(s: WriteState, bytes: seq<Byte>, t: WriteState) {
    Stream(t) == Stream(s) + bytes && t.posInFile + |s.file| == s.posInFile + |t.file| && |t.pending| <= t.room
  }

  /** A successful my_b_flush_io_cache: everything is in the file and the buffer has room. */
  ghost predicate Flush(s: WriteState, t: WriteState) {
    t.file == Stream(s) && t.pending == [] && t.posInFile == s.posInFile + |s.pending| && t.room >= 1
  }

  ghost predicate WriteStep(s: WriteState, op: WriteOp, t: WriteState) {
    match op
    case Write(bytes) =>
      if |s.pending| + |bytes| <= s.room then t == s.(pending := s.pending + bytes) else SlowWrite(s, bytes, t)
    case WriteByte(b) =>
      if |s.pending| >= s.room then exists u :: Flush(s, u) && t == u.(pending := u.pending + [b])
      else t == s.(pending := s.pending + [b])
  }

  ghost predicate WriteRun(states: seq<WriteState>, ops: seq<WriteOp>) {
    |states| == |ops| + 1 && forall i :: 0 <= i < |ops| ==> WriteStep(states[i], ops[i], states[i + 1])
  }

  function AllWritten(ops: seq<WriteOp>): seq<Byte> {
    if ops == [] then [] else AllWritten(ops[..|ops| - 1]) + Written(ops[|ops| - 1])
  }

  lemma WriteStepAppends(s: WriteState, op: WriteOp, t: WriteState, start: nat)
    requires WriteValid(s, start) && WriteStep(s, op, t)
    ensures WriteValid(t, start) && Stream(t) == Stream(s) + Written(op)
  {
    if op.Write? && |s.pending| + |op.bytes| > s.room {
      assert |Stream(t)| == |Stream(s)| + |op.bytes|;
    } else if op.WriteByte? && |s.pending| >= s.room {
      var u :| Flush(s, u) && t == u.(pending := u.pending + [op.b]);
      assert u.pending + [op.b] == [op.b];
    } else {
      assert s.file + (s.pending + Written(op)) == Stream(s) + Written(op);
    }
  }

  lemma TellIsLength(s: WriteState, start: nat)
    requires WriteValid(s, start)
    ensures WriteTell(s) == start + |Stream(s)|
  {}

  /** Over every sequence of successful writes, however they are cut into fast, slow and flushed ones, flushed
      bytes plus pending bytes are everything written, and my_b_tell has advanced by exactly that much. */
  lemma {:induction false} WritesAreAStream(states: seq<WriteState>, ops: seq<WriteOp>, start: nat)
    requires WriteRun(states, ops) && WriteValid(states[0], start)
    ensures var t := states[|ops|];
            WriteValid(t, start) && Stream(t) == Stream(states[0]) + AllWritten(ops) &&
            WriteTell(t) == WriteTell(states[0]) + |AllWritten(ops)|
  {
    if ops == [] {
      assert Stream(states[0]) + [] == Stream(states[0]);
    } else {
      var n := |ops| - 1;
      WritesAreAStream(states[..n + 1], ops[..n], start);
      WriteStepAppends(states[n], ops[n], states[n + 1], start);
      hide WriteStep, Stream, Written;
      var a, b, c := Stream(states[0]), AllWritten(ops[..n]), Written(ops[n]);
      assert (a + b) + c == a + (b + c);
      TellIsLength(states[0], start);
      TellIsLength(states[n + 1], start);
    }
  }

  // ---------- reading ----------

  /** What a read cache stands for: the file, the offset of the buffer in it, the valid bytes of the buffer, and the
      position of the next byte in them. */
  datatype ReadState = ReadState(file: seq<Byte>, posInFile: nat, window: seq<Byte>, readPos: nat)

  predicate ReadValid(s: ReadState) {
    s.posInFile + |s.window| <= |s.file| && s.window == s.file[s.posInFile..s.posInFile + |s.window|] &&
    s.readPos <= |s.window|
  }

  /** my_b_tell of a read cache: the offset of the next byte. */
  function ReadTell(s: ReadState): nat { s.posInFile + s.readPos }

  datatype ReadOp = Read(count: nat) | Get

  function Count(op: ReadOp): nat { if op.Read? then op.count else 1 }

  /** A successful slow read delivers the next bytes of the file and leaves a valid window behind them. */
  ghost predicate SlowRead(s: ReadState, count: nat, t: ReadState, out: seq<Byte>) {
    ReadValid(t) && t.file == s.file && ReadTell(t) == ReadTell(s) + count && out == s.file[ReadTell(s)..ReadTell(t)]
  }

  predicate IsFast(s: ReadState, op: ReadOp) {
    match op
    case Read(count) => s.readPos + count <= |s.window|
    case Get => s.readPos != |s.window|
  }

  ghost predicate ReadStep(s: ReadState, op: ReadOp, t: ReadState, out: seq<Byte>)
    requires ReadValid(s)
  {
    if IsFast(s, op)
    then out == s.window[s.readPos..s.readPos + Count(op)] && t == s.(readPos := s.readPos + Count(op))
    else ReadTell(s) + Count(op) <= |s.file| && SlowRead(s, Count(op), t, out)
  }

  ghost predicate ReadRun(states: seq<ReadState>, ops: seq<ReadOp>, outs: seq<seq<Byte>>) {
    |states| == |ops| + 1 && |outs| == |ops| &&
    forall i :: 0 <= i < |ops| ==> ReadValid(states[i]) && ReadStep(states[i], ops[i], states[i + 1], outs[i])
  }

  function AllRead(outs: seq<seq<Byte>>): seq<Byte> {
    if outs == [] then [] else AllRead(outs[..|outs| - 1]) + outs[|outs| - 1]
  }

  function TotalCount(ops: seq<ReadOp>): nat {
    if ops == [] then 0 else TotalCount(ops[..|ops| - 1]) + Count(ops[|ops| - 1])
  }

  lemma ReadStepReadsNext(s: ReadState, op: ReadOp, t: ReadState, out: seq<Byte>)
    requires ReadValid(s) && ReadStep(s, op, t, out)
    ensures ReadValid(t) && t.file == s.file && ReadTell(t) == ReadTell(s) + Count(op) <= |s.file|
    ensures out == s.file[ReadTell(s)..ReadTell(t)]
  {
    if IsFast(s, op) {
      WindowSlice(s.file, s.posInFile, |s.window|, s.readPos, Count(op));
    }
  }

  lemma WindowSlice(file: seq<Byte>, pos: nat, size: nat, i: nat, n: nat)
    requires pos + size <= |file| && i + n <= size
    ensures file[pos..pos + size][i..i + n] == file[pos + i..pos + i + n]
  {
    var a, b := file[pos..pos + size][i..i + n], file[pos + i..pos + i + n];
    assert |a| == |b| == n;
    forall k | 0 <= k < n
      ensures a[k] == b[k]
    {
      assert file[pos..pos + size][i + k] == file[pos + (i + k)];
    }
  }

  lemma TakenFromWindow(s: seq<Byte>, end: nat, i: nat, n: nat)
    requires i + n <= end <= |s|
    ensures s[i..i + n] == s[..end][i..i + n]
  {}

  lemma SlicesJoin(file: seq<Byte>, a: nat, b: nat, c: nat)
    requires a <= b <= c <= |file|
    ensures file[a..b] + file[b..c] == file[a..c]
  {}

  lemma ReadRunLast(states: seq<ReadState>, ops: seq<ReadOp>, outs: seq<seq<Byte>>)
    requires ReadRun(states, ops, outs) && ops != []
    ensures var n := |ops| - 1;
            ReadRun(states[..n + 1], ops[..n], outs[..n]) &&
            ReadValid(states[n]) && ReadStep(states[n], ops[n], states[n + 1], outs[n])
    ensures AllRead(outs) == AllRead(outs[..|ops| - 1]) + outs[|ops| - 1]
    ensures TotalCount(ops) == TotalCount(ops[..|ops| - 1]) + Count(ops[|ops| - 1])
  {
    hide ReadStep, ReadValid;
  }

  /** Over every sequence of successful reads the bytes delivered are the next ones of the file, in order and without a
      gap, and my_b_tell has advanced by the counts asked for. */
  lemma {:induction false} ReadsAreAStream(states: seq<ReadState>, ops: seq<ReadOp>, outs: seq<seq<Byte>>)
    requires ReadRun(states, ops, outs) && ReadValid(states[0])
    ensures var s, t := states[0], states[|ops|];
            ReadValid(t) && t.file == s.file && ReadTell(t) == ReadTell(s) + TotalCount(ops) <= |s.file| &&
            AllRead(outs) == s.file[ReadTell(s)..ReadTell(t)]
  {
    if ops == [] {
      assert states[0].file[ReadTell(states[0])..ReadTell(states[0])] == [];
    } else {
      var n := |ops| - 1;
      ReadRunLast(states, ops, outs);
      hide *;
      ReadsAreAStream(states[..n + 1], ops[..n], outs[..n]);
      ReadStepReadsNext(states[n], ops[n], states[n + 1], outs[n]);
      SlicesJoin(states[0].file, ReadTell(states[0]), ReadTell(states[n]), ReadTell(states[n + 1]));
    }
  }

  /** However a read is split into smaller reads and single bytes, the same bytes come out. */
  lemma SplitReadsAgree(p: seq<ReadState>, ops: seq<ReadOp>, outs: seq<seq<Byte>>,
                        q: seq<ReadState>, ops': seq<ReadOp>, outs': seq<seq<Byte>>)
    requires ReadRun(p, ops, outs) && ReadRun(q, ops', outs')
    requires ReadValid(p[0]) && ReadValid(q[0]) && p[0].file == q[0].file && ReadTell(p[0]) == ReadTell(q[0])
    requires TotalCount(ops) == TotalCount(ops')
    ensures AllRead(outs) == AllRead(outs') && ReadTell(p[|ops|]) == ReadTell(q[|ops'|])
  {
    hide *;
    ReadsAreAStream(p, ops, outs);
    ReadsAreAStream(q, ops', outs');
  }

  // ---------- the cache structure ----------

  datatype CacheType = ReadCache | WriteCache

  /** The fields of IO_CACHE that the fast paths use; pointers are positions in the two buffers. */
  class IoCache {
    const kind: CacheType
    const buffer: array<Byte>
    const writeBuffer: array<Byte>
    var posInFile: nat
    var readPos: nat
    var readEnd: nat
    var writePos: nat
    var writeEnd: nat
    /** The position from which my_b_tell counts; the fast paths never move it. */
    var requestPos: nat

    constructor (kind: CacheType, buffer: array<Byte>, writeBuffer: array<Byte>)
      requires buffer != writeBuffer
      ensures this.kind == kind && this.buffer == buffer && this.writeBuffer == writeBuffer
      ensures posInFile == 0 && readPos == readEnd == writePos == requestPos == 0 && writeEnd == writeBuffer.Length
      ensures Valid()
    {
      this.kind, this.buffer, this.writeBuffer := kind, buffer, writeBuffer;
      posInFile, readPos, readEnd, writePos, writeEnd, requestPos := 0, 0, 0, 0, writeBuffer.Length, 0;
    }

    ghost predicate Valid()
      reads this
    {
      buffer != writeBuffer && readPos <= readEnd <= buffer.Length && writePos <= writeEnd <= writeBuffer.Length
    }

    /** The reading side over the file `file`. */
    ghost function Reading(file: seq<Byte>): ReadState
      requires Valid()
      reads this, buffer
    {
      ReadState(file, posInFile, buffer[..readEnd], readPos)
    }

    /** The writing side after `file` was flushed. */
    ghost function Writing(file: seq<Byte>): WriteState
      requires Valid()
      reads this, writeBuffer
    {
      WriteState(file, writeBuffer[..writePos], writeEnd, posInFile)
    }

    /** my_b_read; `fast` is false when the call goes on to the slow path, with nothing changed yet. */
    method MyBRead(dest: array<Byte>, count: nat, ghost file: seq<Byte>) returns (fast: bool)
      requires Valid() && dest.Length >= count && dest != buffer && dest != writeBuffer
      requires ReadValid(Reading(file))
      modifies this`readPos, dest
      ensures Valid() && dest[count..] == old(dest[count..])
      ensures fast <==> old(IsFast(Reading(file), Read(count)))
      ensures fast <==> old(readPos) + count <= readEnd
      ensures fast ==> readPos == old(readPos) + count && dest[..count] == old(buffer[..][readPos..readPos + count])
      ensures fast ==> ReadStep(old(Reading(file)), Read(count), Reading(file), dest[..count])
      ensures !fast ==> Reading(file) == old(Reading(file)) && dest[..] == old(dest[..])
    {
      fast := readPos + count <= readEnd;
      if fast {
        ghost var window := buffer[..readEnd];
        Memcpy(dest, buffer, readPos, count);
        TakenFromWindow(buffer[..], readEnd, readPos, count);
        assert buffer[..][..readEnd] == buffer[..readEnd] == window;
        assert dest[..count] == window[readPos..readPos + count];
        readPos := readPos + count;
      }
    }

    /** memcpy of `n` bytes of `src` from position `i` on. */
    static method Memcpy(dest: array<Byte>, src: array<Byte>, i: nat, n: nat)
      requires n <= dest.Length && i + n <= src.Length && dest != src
      modifies dest
      ensures dest[..n] == src[..][i..i + n]
      ensures dest[n..] == old(dest[n..])
    {
      for k := 0 to n
        invariant forall j :: 0 <= j < k ==> dest[j] == src[i + j]
        invariant forall j :: n <= j < dest.Length ==> dest[j] == old(dest[j])
      {
        dest[k] := src[i + k];
      }
    }

    /** my_b_get; `fast` is false when the call goes on to the slow path. */
    method MyBGet(ghost file: seq<Byte>) returns (fast: bool, b: Byte)
      requires Valid() && ReadValid(Reading(file))
      modifies this`readPos
      ensures Valid()
      ensures fast <==> old(IsFast(Reading(file), Get))
      ensures fast <==> old(readPos) != readEnd
      ensures fast ==> readPos == old(readPos) + 1 && b == buffer[old(readPos)]
      ensures fast ==> ReadStep(old(Reading(file)), Get, Reading(file), [b])
      ensures !fast ==> Reading(file) == old(Reading(file))
    {
      fast := readPos != readEnd;
      b := 0;
      if fast {
        readPos := readPos + 1;
        b := buffer[readPos - 1];
        assert [b] == buffer[..readEnd][readPos - 1..readPos];
      }
    }

    /** my_b_write. */
    method MyBWrite(bytes: seq<Byte>, ghost file: seq<Byte>) returns (fast: bool)
      requires Valid()
      modifies this`writePos, writeBuffer
      ensures Valid()
      ensures fast <==> old(writePos) + |bytes| <= writeEnd
      ensures fast ==> WriteStep(old(Writing(file)), Write(bytes), Writing(file))
      ensures !fast ==> Writing(file) == old(Writing(file))
    {
      fast := writePos + |bytes| <= writeEnd;
      if fast && |bytes| != 0 {
        for i := 0 to |bytes|
          invariant writePos == old(writePos) && Valid()
          invariant writeBuffer[..writePos + i] == old(writeBuffer[..writePos]) + bytes[..i]
        {
          writeBuffer[writePos + i] := bytes[i];
        }
        writePos := writePos + |bytes|;
        assert bytes[..|bytes|] == bytes;
      }
      assert fast && bytes == [] ==> old(writeBuffer[..writePos]) + bytes == writeBuffer[..writePos];
    }

    /** my_b_write_byte. The flush has no body in the header: `flushOk` is its outcome, and a successful one has
        moved the pending bytes to the file and left room for `newEnd` bytes. */
    method MyBWriteByte(chr: Byte, flushOk: bool, newEnd: nat, ghost file: seq<Byte>)
      returns (ok: bool, ghost flushed: seq<Byte>)
      requires Valid() && 0 < newEnd <= writeBuffer.Length
      modifies this`writePos, this`writeEnd, this`posInFile, writeBuffer
      ensures Valid()
      ensures ok <==> old(writePos) < old(writeEnd) || flushOk
      ensures flushed == if ok && old(writePos) >= old(writeEnd) then Stream(old(Writing(file))) else file
      ensures ok ==> WriteStep(old(Writing(file)), WriteByte(chr), Writing(flushed))
    {
      flushed := file;
      ghost var before := Writing(file);
      ghost var ready := before;
      if writePos >= writeEnd {
        if !flushOk {
          return false, flushed;
        }
        flushed := Stream(before);
        posInFile, writePos, writeEnd := posInFile + writePos, 0, newEnd;
        ready := WriteState(flushed, [], newEnd, posInFile);
        assert Flush(before, ready);
      }
      ghost var pending := writeBuffer[..writePos];
      writeBuffer[writePos] := chr;
      writePos := writePos + 1;
      assert writeBuffer[..writePos] == pending + [chr];
      assert Writing(flushed) == ready.(pending := ready.pending + [chr]);
      return true, flushed;
    }

    /** my_b_tell: the position in the stream model, if and only if `requestPos` is the start of the buffer. */
    method MyBTell(ghost file: seq<Byte>) returns (pos: int)
      requires Valid()
      ensures kind == WriteCache ==> pos == WriteTell(Writing(file)) - requestPos
      ensures kind == ReadCache ==> pos == ReadTell(Reading(file)) - requestPos
      ensures pos == (if kind == WriteCache then WriteTell(Writing(file)) else ReadTell(Reading(file)))
              <==> requestPos == 0
    {
      if kind == WriteCache {
        return posInFile + (writePos - requestPos);
      }
      return posInFile + (readPos - requestPos);
    }
  }
}
