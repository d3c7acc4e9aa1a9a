/**
 * The copy of a file to a mass-storage device (usbdevice::msc_copy): chunks of
 * MAX_BUF bytes, with a progress callback that can also ask to stop.
 *
 * Reading may fail at any time, which `failed` records, and the callback may
 * ask to stop at any time, which `aborted` records.  The target takes as many
 * bytes as its capacity allows.
 */
module MscCopy {
  import opened Wrappers
  import opened Sequences

  const MAX_BUF: nat := 1024

  function Min(a: nat, b: nat): nat {
    if a < b then a else b
  }

  /** A conversion to a 32-bit long. */
  function ToLong(n: nat): int {
    (n + 0x8000_0000) % 0x1_0000_0000 - 0x8000_0000
  }

  /** A long passed on as an unsigned 64-bit number. */
  function ToUnsigned64(i: int): nat {
    i % 0x1_0000_0000_0000_0000
  }

  /** ftell gives the size as a long, and -1 when it does not fit. */
  function FileSize(n: nat): int {
    if n < 0x8000_0000 then n else -1
  }

  datatype Call = Begin(size: nat) | Current(pos: nat) | End

  /** The FILE read from. */
  class SourceFile {
    const content: seq<Byte>
    var pos: nat
    var eof: bool
    ghost var failed: bool

    ghost predicate Valid()
      reads this
    {
      pos <= |content| && (eof ==> pos == |content|)
    }

    constructor (content: seq<Byte>)
      ensures Valid() && this.content == content && pos == 0 && !eof && !failed
    {
      this.content := content;
      pos, eof, failed := 0, false, false;
    }

    /** fread of a whole buffer: fewer bytes mean the end of the file or an error. */
    method Read(buf: array<Byte>) returns (n: nat)
      requires Valid()
      modifies this, buf
      ensures Valid() && n <= buf.Length && pos == old(pos) + n
      ensures buf[..n] == content[old(pos)..pos]
      ensures old(failed) ==> failed
      ensures !failed ==> n == Min(buf.Length, |content| - old(pos)) && (eof <==> old(eof) || n < buf.Length)
    {
      n := Min(buf.Length, |content| - pos);
      if * {
        var fewer: nat :| fewer <= n;
        n := fewer;
        failed := true;
      } else if n < buf.Length {
        eof := true;
      }
      forall i | 0 <= i < n {
        buf[i] := content[pos + i];
      }
      assert forall i :: 0 <= i < n ==> buf[..n][i] == content[pos..pos + n][i];
      pos := pos + n;
    }
  }

  /** The FILE written to. */
  class TargetFile {
    var content: seq<Byte>
    const capacity: nat

    constructor (capacity: nat)
      ensures content == [] && this.capacity == capacity
    {
      this.capacity := capacity;
      content := [];
    }

    /** Opening with "wb" empties the file. */
    method Truncate()
      modifies this`content
      ensures content == []
    {
      content := [];
    }

    /** fwrite, which writes fewer bytes when the target is full. */
    method Write(buf: array<Byte>, n: nat) returns (written: nat)
      requires n <= buf.Length && |content| <= capacity
      modifies this`content
      ensures written == Min(n, capacity - |old(content)|)
      ensures content == old(content) + buf[..written]
    {
      written := Min(n, capacity - |content|);
      content := content + buf[..written];
    }
  }

  /** The progress notifier. */
  class Notifier {
    var trace: seq<Call>
    ghost var aborted: bool

    constructor ()
      ensures trace == [] && !aborted
    {
      trace := [];
      aborted := false;
    }

    method Notify(call: Call)
      modifies this`trace
      ensures trace == old(trace) + [call]
    {
      trace := trace + [call];
    }

    method IsAbort() returns (abort: bool)
      modifies this`aborted
      ensures abort ==> aborted
      ensures !abort ==> aborted == old(aborted)
    {
      abort := false;
      if * {
        abort := true;
        aborted := true;
      }
    }
  }

  // ------------------------------------------------------------- what is to happen

  /** The ends of the chunks that are written completely, from a position on. */
  function ChunkEnds(from: nat, size: nat, capacity: nat): seq<nat>
    decreases size - from
  {
    if from >= size then []
    else
      var end := Min(from + MAX_BUF, size);
      if end > capacity then [] else [end] + ChunkEnds(end, size, capacity)
  }

  /** The progress calls for these positions. */
  function Currents(positions: seq<nat>): (r: seq<Call>)
    ensures |r| == |positions|
  {
    if positions == [] then []
    else Currents(positions[..|positions| - 1]) + [Current(ToUnsigned64(ToLong(positions[|positions| - 1])))]
  }

  /** Does a copy without abort and read error return success? */
  predicate ReturnsSuccess(size: nat, capacity: nat) {
    size <= capacity || (size % MAX_BUF != 0 && size - size % MAX_BUF <= capacity)
  }

  lemma SuccessExactly(size: nat, capacity: nat)
    ensures ReturnsSuccess(size, capacity)
            <==> size <= capacity || (size % 1024 != 0 && size / 1024 * 1024 <= capacity)
  {
  }

  predicate Increasing(positions: seq<nat>) {
    forall i, j :: 0 <= i < j < |positions| ==> positions[i] < positions[j]
  }

  /** Rising positions, none above the bound. */
  predicate Within(positions: seq<nat>, bound: nat) {
    Increasing(positions) && forall p :: p in positions ==> p <= bound
  }

  /** Positions rise strictly, stay within size and capacity, and end at the size when all fits. */
  lemma {:induction false} ChunkEndsRise(from: nat, size: nat, capacity: nat)
    ensures var ends := ChunkEnds(from, size, capacity);
            && Increasing(ends)
            && (forall e :: e in ends ==> from < e <= size && e <= capacity)
            && (from < size <= capacity ==> ends != [] && ends[|ends| - 1] == size)
    decreases size - from
  {
    if from < size {
      var end := Min(from + MAX_BUF, size);
      if end <= capacity {
        ChunkEndsRise(end, size, capacity);
        var rest := ChunkEnds(end, size, capacity);
        assert forall j :: 0 <= j < |rest| ==> rest[j] in rest;
      }
    }
  }

  /**
   * The chunk ends one by one: multiples of 1024, the last one the size itself
   * if that is none; they stop at the end of the source, or before the first
   * that is more than the target takes.
   */
  lemma {:induction false} ChunkEndsExactly(n: nat, size: nat, capacity: nat)
    requires 1024 * n < size || n == 0
    ensures var ends := ChunkEnds(1024 * n, size, capacity);
            && (forall i :: 0 <= i < |ends| ==> ends[i] == Min(1024 * (n + i + 1), size))
            && (1024 * (n + |ends|) >= size || Min(1024 * (n + |ends| + 1), size) > capacity)
    decreases size - 1024 * n
  {
    var from := 1024 * n;
    if from < size {
      var end := Min(from + MAX_BUF, size);
      if end <= capacity && end < size {
        ChunkEndsExactly(n + 1, size, capacity);
        var rest := ChunkEnds(end, size, capacity);
        assert ChunkEnds(from, size, capacity) == [end] + rest;
      } else if end <= capacity {
        assert ChunkEnds(end, size, capacity) == [];
        assert ChunkEnds(from, size, capacity) == [end];
      }
    }
  }

  /** What the notifier is given for a position: its last 32 bits, as a signed number widened to 64 bits. */
  lemma ReportedAs(n: nat)
    ensures var low := n % 0x1_0000_0000;
            ToUnsigned64(ToLong(n)) == if low < 0x8000_0000 then low else 0xFFFF_FFFF_0000_0000 + low
  {
  }

  /** Positions are reported as they are exactly when they are below two gigabytes. */
  lemma ReportedExactly(n: nat)
    requires n < 0x8000_0000_0000_0000
    ensures ToUnsigned64(ToLong(n)) == n <==> n < 0x8000_0000
  {
  }

  lemma CurrentsSnoc(positions: seq<nat>, p: nat)
    ensures Currents(positions + [p]) == Currents(positions) + [Current(ToUnsigned64(ToLong(p)))]
  {
    assert (positions + [p])[..|positions|] == positions;
  }

  lemma IncreasingSnoc(positions: seq<nat>, p: nat)
    requires Increasing(positions) && forall q :: q in positions ==> q < p
    ensures Increasing(positions + [p])
  {
    assert forall i :: 0 <= i < |positions| ==> positions[i] in positions;
  }

  /** The last of the positions, 0 when there is none. */
  function LastPosition(positions: seq<nat>): nat {
    if positions == [] then 0 else positions[|positions| - 1]
  }

  /** One complete chunk further, the positions still to come are one fewer. */
  lemma ChunkEndsStep(done: seq<nat>, from: nat, size: nat, capacity: nat)
    requires from < size && Min(from + MAX_BUF, size) <= capacity
    ensures var end := Min(from + MAX_BUF, size);
            done + ChunkEnds(from, size, capacity) == (done + [end]) + ChunkEnds(end, size, capacity)
  {
  }

  ghost predicate NoAbort(notifier: Notifier?)
    reads notifier
  {
    notifier == null || !notifier.aborted
  }

  /** The notifier has had these calls since its trace was `before`. */
  ghost predicate Told(notifier: Notifier?, before: seq<Call>, calls: seq<Call>)
    reads notifier
  {
    notifier == null || notifier.trace == before + calls
  }

  ghost function TraceOf(notifier: Notifier?): seq<Call>
    reads notifier
  {
    if notifier == null then [] else notifier.trace
  }

  /** How a pass of the loop ends: with the next one, or for one of three reasons with none. */
  datatype Outcome = More | Aborted | EndOfInput | ShortWrite

  /** The fread and, unless that gives nothing, the fwrite of one pass. */
  method ReadAndWrite(source: SourceFile, target: TargetFile, buf: array<Byte>)
    returns (bytesRead: nat, bytesWritten: nat)
    requires source.Valid() && source.pos == |target.content| <= target.capacity
    requires target.content == source.content[..source.pos]
    modifies source, target`content, buf
    ensures source.Valid() && (old(source.failed) ==> source.failed) && source.pos == old(source.pos) + bytesRead
    ensures target.content == source.content[..Min(source.pos, target.capacity)]
    ensures bytesWritten == Min(bytesRead, target.capacity - old(source.pos))
    ensures !source.failed ==>
              && bytesRead == Min(buf.Length, |source.content| - old(source.pos))
              && (source.eof <==> old(source.eof) || bytesRead < buf.Length)
  {
    ghost var pos0 := source.pos;
    bytesRead := source.Read(buf);
    if bytesRead == 0 {
      return 0, 0;
    }
    ghost var chunk := buf[..bytesRead];
    bytesWritten := target.Write(buf, bytesRead);
    assert buf[..bytesWritten] == chunk[..bytesWritten];
    Slices(source.content, pos0, pos0 + bytesRead, bytesWritten);
    assert target.content == source.content[..pos0] + source.content[pos0..pos0 + bytesWritten];
  }

  /** One pass of the copy loop: read a chunk, write it, report it. */
  method CopyChunk(source: SourceFile, target: TargetFile, notifier: Notifier?, buf: array<Byte>,
                   crtCopied: nat, ghost before: seq<Call>, ghost told: seq<Call>)
    returns (outcome: Outcome, copied: nat)
    requires crtCopied == source.pos
    requires source.Valid() && buf.Length == MAX_BUF
    requires source.pos == |target.content| <= target.capacity && target.content == source.content[..source.pos]
    requires Told(notifier, before, told)
    modifies source, target`content, notifier, buf
    ensures source.Valid() && (old(source.failed) ==> source.failed) && copied == source.pos
    ensures target.content == source.content[..Min(source.pos, target.capacity)]
    ensures Told(notifier, before,
                 told + if outcome.More? then [Current(ToUnsigned64(ToLong(source.pos)))] else [])
    ensures outcome.Aborted? ==> !NoAbort(notifier) && source.pos == old(source.pos) && source.eof == old(source.eof)
    ensures !outcome.Aborted? ==> NoAbort(notifier) == old(NoAbort(notifier))
    ensures outcome.EndOfInput? ==> source.pos == old(source.pos)
    ensures outcome.More? ==> old(source.pos) < source.pos == |target.content|
    ensures outcome.ShortWrite? ==> source.pos > target.capacity
    ensures !outcome.Aborted? && !source.failed ==>
              && source.pos == Min(old(source.pos) + MAX_BUF, |source.content|)
              && (source.eof <==> old(source.eof) || source.pos < old(source.pos) + MAX_BUF)
  {
    EmptyConcat(told);
    copied := crtCopied;
    if notifier != null {
      var abort := notifier.IsAbort();
      if abort {
        return Aborted, copied;
      }
    }
    forall i | 0 <= i < buf.Length {
      buf[i] := 0;
    }
    var bytesRead, bytesWritten := ReadAndWrite(source, target, buf);
    if bytesRead == 0 {
      return EndOfInput, copied;
    }
    copied := copied + bytesRead;
    if bytesWritten != bytesRead {
      return ShortWrite, copied;
    }
    if notifier != null {
      Assoc(before, told, [Current(ToUnsigned64(ToLong(copied)))]);
      notifier.Notify(Current(ToUnsigned64(ToLong(copied))));
    }
    outcome := More;
  }

  /** Where the loop stands when nothing has gone wrong so far. */
  ghost predicate AtChunk(pos: nat, size: nat, eof: bool, positions: seq<nat>, capacity: nat) {
    && pos <= size
    && positions + ChunkEnds(pos, size, capacity) == ChunkEnds(0, size, capacity)
    && (if eof then pos == size && size % MAX_BUF != 0 else pos % MAX_BUF == 0)
  }

  /** Where it ends then: at the end of the input, or with a short write. */
  ghost predicate AtEnd(pos: nat, size: nat, eof: bool, positions: seq<nat>, capacity: nat) {
    && positions == ChunkEnds(0, size, capacity)
    && (pos == size || pos > capacity)
    && (eof <==> ReturnsSuccess(size, capacity))
  }

  /** A pass without abort and read error from such a place. */
  lemma ChunkTaken(pos: nat, size: nat, eof: bool, positions: seq<nat>, capacity: nat, eof': bool)
    requires AtChunk(pos, size, eof, positions, capacity) && pos <= capacity
    requires eof' <==> eof || Min(pos + MAX_BUF, size) < pos + MAX_BUF
    ensures var end := Min(pos + MAX_BUF, size);
            && (pos < end <= capacity ==> AtChunk(end, size, eof', positions + [end], capacity))
            && (end == pos || end > capacity ==> AtEnd(end, size, eof', positions, capacity))
  {
    var end := Min(pos + MAX_BUF, size);
    if pos < end <= capacity {
      ChunkEndsStep(positions, pos, size, capacity);
    } else {
      EmptyConcat(positions);
    }
  }

  /** From such a place on the positions so far are a first part of all. */
  lemma ChunksSoFar(pos: nat, size: nat, eof: bool, positions: seq<nat>, capacity: nat)
    requires AtChunk(pos, size, eof, positions, capacity) || AtEnd(pos, size, eof, positions, capacity)
    ensures positions <= ChunkEnds(0, size, capacity)
  {
  }

  /**
   * The copy loop: pass after pass until one stops, for the reason given.
   * Unless that was a short write, as many bytes are written as the last
   * position says.
   */
  method CopyLoop(source: SourceFile, target: TargetFile, notifier: Notifier?, buf: array<Byte>,
                  ghost before: seq<Call>, ghost begin: seq<Call>)
    returns (ghost positions: seq<nat>, ghost reason: Outcome)
    requires source.Valid() && source.pos == 0 && !source.eof && !source.failed && NoAbort(notifier)
    requires buf.Length == MAX_BUF && target.content == [] && Told(notifier, before, begin)
    modifies source, target`content, notifier, buf
    ensures source.Valid() && target.content == source.content[..Min(source.pos, target.capacity)]
    ensures Told(notifier, before, begin + Currents(positions))
    ensures !reason.More? && (reason.Aborted? <==> !NoAbort(notifier))
    ensures Within(positions, |target.content|)
    ensures if reason.ShortWrite? then |target.content| == target.capacity < source.pos
            else |target.content| == source.pos == LastPosition(positions)
    ensures !source.failed ==> positions <= ChunkEnds(0, |source.content|, target.capacity)
    ensures NoAbort(notifier) && !source.failed ==>
              AtEnd(source.pos, |source.content|, source.eof, positions, target.capacity)
  {
    var crtCopied: nat := 0;
    positions := [];
    ghost var size, capacity := |source.content|, target.capacity;
    EmptyConcat(begin);
    EmptyConcat(ChunkEnds(0, size, capacity));
    var outcome := More;
    while outcome.More?
      invariant source.Valid() && crtCopied == source.pos
      invariant NoAbort(notifier) <==> !outcome.Aborted?
      invariant target.content == source.content[..Min(source.pos, capacity)]
      invariant if outcome.ShortWrite? then source.pos > capacity else LastPosition(positions) == source.pos <= capacity
      invariant Told(notifier, before, begin + Currents(positions))
      invariant Within(positions, Min(source.pos, capacity))
      invariant (outcome.More? || outcome.Aborted?) && !source.failed ==>
                  AtChunk(source.pos, size, source.eof, positions, capacity)
      invariant !outcome.More? && !outcome.Aborted? && !source.failed ==>
                  AtEnd(source.pos, size, source.eof, positions, capacity)
      decreases outcome.More?, size - source.pos
    {
      ghost var pos0, eof0 := source.pos, source.eof;
      outcome, crtCopied := CopyChunk(source, target, notifier, buf, crtCopied, before, begin + Currents(positions));
      if !source.failed && !outcome.Aborted? {
        ChunkTaken(pos0, size, eof0, positions, capacity, source.eof);
      }
      if outcome.More? {
        PositionAdded(begin, positions, pos0, source.pos);
        positions := positions + [source.pos];
      } else {
        EmptyConcat(begin + Currents(positions));
      }
    }
    reason := outcome;
    if !source.failed {
      ChunksSoFar(source.pos, size, source.eof, positions, capacity);
    }
  }

  lemma PositionAdded(begin: seq<Call>, positions: seq<nat>, q: nat, p: nat)
    requires Within(positions, q) && q < p
    ensures begin + Currents(positions) + [Current(ToUnsigned64(ToLong(p)))] == begin + Currents(positions + [p])
    ensures Within(positions + [p], p)
  {
    CurrentsSnoc(positions, p);
    IncreasingSnoc(positions, p);
    Assoc(begin, Currents(positions), [Current(ToUnsigned64(ToLong(p)))]);
  }

  /**
   * What a copy into `capacity` leaves behind, given the positions it reported
   * and the reason for which it stopped; failed says that there was a read
   * error.  The target is always a first part of the source: as much of it as
   * was last reported, unless the last write was short.
   */
  ghost predicate Copied(content: seq<Byte>, target: seq<Byte>, capacity: nat, positions: seq<nat>, reason: Outcome,
                         failed: bool)
  {
    && target <= content
    && Within(positions, |target|)
    && !reason.More?
    && |target| == (if reason.ShortWrite? then capacity else LastPosition(positions))
    && (!failed ==> positions <= ChunkEnds(0, |content|, capacity))
    && (!failed && !reason.Aborted? ==>
          && positions == ChunkEnds(0, |content|, capacity)
          && target == content[..Min(|content|, capacity)])
  }

  /** The call gives this position, as it is while that fits a long. */
  predicate Gives(call: Call, position: nat) {
    call.Current? && (position < 0x8000_0000 ==> call.pos == position)
  }

  /**
   * The calls of a copy of `size` bytes: the size first, or minus one as an
   * unsigned number when it does not fit a long; then the positions, as they
   * are while they fit; then the end.
   */
  ghost predicate CallsMade(calls: seq<Call>, size: nat, positions: seq<nat>) {
    && |calls| == |positions| + 2
    && calls[0] == Begin(if size < 0x8000_0000 then size else 0xFFFF_FFFF_FFFF_FFFF)
    && (forall i {:trigger Gives(calls[i + 1], positions[i])} :: 0 <= i < |positions| ==>
          Gives(calls[i + 1], positions[i]))
    && calls[|calls| - 1] == End
  }

  lemma {:induction false} CurrentsAt(positions: seq<nat>, i: nat)
    requires i < |positions|
    ensures Currents(positions)[i] == Current(ToUnsigned64(ToLong(positions[i])))
  {
    var n := |positions| - 1;
    if i < n {
      CurrentsAt(positions[..n], i);
      assert Currents(positions) == Currents(positions[..n]) + [Current(ToUnsigned64(ToLong(positions[n])))];
    }
  }

  lemma CallsOf(size: nat, positions: seq<nat>)
    ensures CallsMade([Begin(ToUnsigned64(FileSize(size)))] + Currents(positions) + [End], size, positions)
  {
    var calls := [Begin(ToUnsigned64(FileSize(size)))] + Currents(positions) + [End];
    forall i | 0 <= i < |positions| ensures Gives(calls[i + 1], positions[i]) {
      CurrentsAt(positions, i);
      assert calls[i + 1] == Currents(positions)[i];
      if positions[i] < 0x8000_0000 {
        ReportedExactly(positions[i]);
      }
    }
  }

  /**
   * msc_copy.  The source is null when it could not be opened.  The target must
   * have been opened: the code tests the wrong pointer there, so its error code
   * 2 is never returned, and neither is 3, which a short write sets.
   */
  method MscCopy(source: SourceFile?, target: TargetFile, notifier: Notifier?)
    returns (ret: int, ghost positions: seq<nat>, ghost reason: Outcome)
    requires source != null ==> source.Valid() && source.pos == 0 && !source.eof && !source.failed
    requires NoAbort(notifier)
    modifies source, target, notifier
    ensures source == null ==>
              ret == 1 && target.content == old(target.content) && Told(notifier, old(TraceOf(notifier)), [])
    ensures source != null ==>
              && Copied(source.content, target.content, target.capacity, positions, reason, source.failed)
              && (reason.Aborted? <==> !NoAbort(notifier))
              && Told(notifier, old(TraceOf(notifier)),
                      [Begin(ToUnsigned64(FileSize(|source.content|)))] + Currents(positions) + [End])
              && (notifier != null ==>
                    && |old(TraceOf(notifier))| <= |notifier.trace|
                    && CallsMade(notifier.trace[|old(TraceOf(notifier))|..], |source.content|, positions))
              && ret in {0, 4}
              && (ret == 0 ==> (target.content == source.content <==> |source.content| <= target.capacity))
              && (NoAbort(notifier) && !source.failed ==>
                    (ret == 0 <==> |source.content| <= target.capacity
                                   || (|source.content| % 1024 != 0
                                       && |source.content| / 1024 * 1024 <= target.capacity)))
  {
    positions, reason := [], EndOfInput;
    ghost var before := TraceOf(notifier);
    EmptyConcat(before);
    if source == null {
      return 1, [], EndOfInput;
    }
    target.Truncate();
    var buf := new Byte[MAX_BUF](_ => 0);
    var fileSize := FileSize(|source.content|);
    ghost var size, capacity := |source.content|, target.capacity;
    ghost var begin := [Begin(ToUnsigned64(fileSize))];
    if notifier != null {
      notifier.Notify(Begin(ToUnsigned64(fileSize)));
    }
    EmptyConcat(begin);
    positions, reason := CopyLoop(source, target, notifier, buf, before, begin);
    if notifier != null {
      Assoc(before, begin + Currents(positions), [End]);
      notifier.Notify(End);
      CallsOf(size, positions);
      assert notifier.trace[|before|..] == begin + Currents(positions) + [End];
    }
    SuccessExactly(size, capacity);
    if !source.eof {
      return 4, positions, reason;
    }
    ret := 0;
  }

  /** Ten bytes copied to a device with room for five: without a read error 0 is returned. */
  method ShortCopySucceeds() returns (ret: int, source: SourceFile, target: TargetFile)
    ensures source.content == [0, 1, 2, 3, 4, 5, 6, 7, 8, 9] && target.content <= source.content
    ensures !source.failed ==> ret == 0 && target.content == [0, 1, 2, 3, 4]
  {
    source := new SourceFile([0, 1, 2, 3, 4, 5, 6, 7, 8, 9]);
    target := new TargetFile(5);
    var r, _, _ := MscCopy(source, target, null);
    ret := r;
    assert [0, 1, 2, 3, 4, 5, 6, 7, 8, 9][..5] == [0, 1, 2, 3, 4];
  }

  /** A whole chunk copied to a device with room for half of it: without a read error 4 is returned. */
  method WholeChunkFails() returns (ret: int, source: SourceFile, target: TargetFile)
    ensures |source.content| == 1024 && target.capacity == 500 && target.content <= source.content
    ensures !source.failed ==> ret == 4 && |target.content| == 500
  {
    source := new SourceFile(seq(1024, _ => 7));
    target := new TargetFile(500);
    var r, _, _ := MscCopy(source, target, null);
    ret := r;
  }
}
