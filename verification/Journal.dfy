/** The line buffer behind the journal streams: characters are gathered in a fixed buffer that is
    written to the log file at every newline and at every sync. */
module Journal {
  import opened Seqs

  /** One stored character (`char`). */
  type Octet = x: int | 0 <= x < 256

  /** One streamed character (`wchar_t`), end-of-file included. */
  type Wide = x: int | 0 <= x < 0x1_0000

  const MAX_BUFFER_SIZE: nat := 2048
  const NEWLINE: Octet := 10
  const WEOF: Wide := 0xFFFF

  /** The narrowing cast to char. */
  function Narrow(wc: Wide): Octet {
    wc % 256
  }

  /** The promotion of a (signed) char back to the stream's integer type. */
  function Widen(c: Octet): Wide {
    if c < 128 then c else 0xFF00 + c
  }

  function Clip(segment: seq<Octet>): seq<Octet> {
    if |segment| <= MAX_BUFFER_SIZE then segment else segment[..MAX_BUFFER_SIZE]
  }

  class JournalStreamBuf {
    const buffer: array<Octet>
    var current: nat
    var fileOutput: bool           // file output is on and the handle is valid
    var file: seq<Octet>           // what WriteFile has appended
    ghost var pending: seq<Octet>  // everything streamed since the last flush

    ghost predicate Valid()
      reads this, buffer
    {
      && buffer.Length == MAX_BUFFER_SIZE + 1
      && current <= MAX_BUFFER_SIZE
      && buffer[..current] == Clip(pending)
    }

    constructor (fileOutput: bool)
      ensures Valid() && fresh(buffer) && file == [] && pending == [] && this.fileOutput == fileOutput
    {
      buffer := new Octet[MAX_BUFFER_SIZE + 1];
      current := 0;
      this.fileOutput := fileOutput;
      file, pending := [], [];
    }

    /** Writes the buffer out and starts over; the terminating NUL stays inside the buffer. */
    method Flush()
      requires Valid()
      modifies this, buffer
      ensures Valid() && pending == [] && fileOutput == old(fileOutput)
      ensures file == if fileOutput then old(file) + Clip(old(pending)) else old(file)
    {
      assert buffer[..current] == Clip(pending);
      buffer[current] := 0;
      if fileOutput {
        file := file + buffer[..current];
      }
      current := 0;
      pending := [];
    }

    method Overflow(wc: Wide) returns (r: Wide)
      requires Valid()
      modifies this, buffer
      ensures Valid() && fileOutput == old(fileOutput)
      ensures r != WEOF
      ensures var segment := old(pending) + [Narrow(wc)];
              if Narrow(wc) == NEWLINE
              then pending == [] && file == (if fileOutput then old(file) + Clip(segment) else old(file))
              else pending == segment && file == old(file)
    {
      var c := Narrow(wc);
      if current < MAX_BUFFER_SIZE {
        ghost var before := buffer[..current];
        buffer[current] := c;
        current := current + 1;
        assert buffer[..current] == before + [c];
      }
      pending := pending + [c];
      if c == NEWLINE {
        Flush();
      }
      r := if Widen(c) != WEOF then Widen(c) else 0;
    }

    method Sync()
      requires Valid()
      modifies this, buffer
      ensures Valid() && fileOutput == old(fileOutput)
      ensures pending == []
      ensures file == if fileOutput then old(file) + Clip(old(pending)) else old(file)
    {
      if current > 0 {
        Flush();
      }
    }

    /** Any sequence of calls: what reaches the file is the clipped segments, in order. */
    method Run(ops: seq<Op>)
      requires Valid()
      modifies this, buffer
      ensures Valid() && fileOutput == old(fileOutput)
      ensures pending == OpenSegment(old(pending), ops)
      ensures file == if fileOutput then old(file) + Joined(ClippedAll(ClosedSegments(old(pending), ops)))
                      else old(file)
    {
      ghost var open := OpenSegment(pending, ops);
      ghost var total := file + (if fileOutput then Written(pending, ops) else []);
      for i := 0 to |ops|
        invariant Valid() && fileOutput == old(fileOutput)
        invariant OpenSegment(pending, ops[i..]) == open
        invariant file + (if fileOutput then Written(pending, ops[i..]) else []) == total
      {
        TakeNext(ops, i);
        WrittenNext(file, pending, ops[i], ops[i + 1..]);
        match ops[i]
        case Put(wc) => var _ := Overflow(wc);
        case Sync => Sync();
      }
      assert ops[|ops|..] == [] && Written(pending, []) == [];
      assert file + [] == file && old(file) + [] == old(file);
    }
  }

  // ---- segments, independently of any buffer

  datatype Op = Put(wc: Wide) | Sync

  /** The segments that are complete: cut after each newline and at each sync. */
  function ClosedSegments(open: seq<Octet>, ops: seq<Op>): (segments: seq<seq<Octet>>)
    decreases |ops|
  {
    if ops == [] then []
    else match ops[0]
      case Sync => [open] + ClosedSegments([], ops[1..])
      case Put(wc) =>
        var more := open + [Narrow(wc)];
        if Narrow(wc) == NEWLINE then [more] + ClosedSegments([], ops[1..]) else ClosedSegments(more, ops[1..])
  }

  /** The segment still open at the end. */
  function OpenSegment(open: seq<Octet>, ops: seq<Op>): (segment: seq<Octet>)
    decreases |ops|
  {
    if ops == [] then open
    else match ops[0]
      case Sync => OpenSegment([], ops[1..])
      case Put(wc) => OpenSegment(if Narrow(wc) == NEWLINE then [] else open + [Narrow(wc)], ops[1..])
  }

  function Joined(segments: seq<seq<Octet>>): (all: seq<Octet>) {
    if segments == [] then [] else segments[0] + Joined(segments[1..])
  }

  function ClippedAll(segments: seq<seq<Octet>>): (clipped: seq<seq<Octet>>)
    ensures |clipped| == |segments|
  {
    if segments == [] then [] else [Clip(segments[0])] + ClippedAll(segments[1..])
  }

  /** Everything that is put, each character cut to its low byte. */
  function Streamed(ops: seq<Op>): (all: seq<Octet>) {
    if ops == [] then []
    else (match ops[0] case Put(wc) => [wc % 0x100] case Sync => []) + Streamed(ops[1..])
  }

  /** A segment ends with this call. */
  predicate Cuts(op: Op) {
    op.Sync? || op.wc % 0x100 == 10
  }

  /** The bytes that a sequence of calls writes. */
  function Written(open: seq<Octet>, ops: seq<Op>): (bytes: seq<Octet>) {
    Joined(ClippedAll(ClosedSegments(open, ops)))
  }

  lemma WrittenNext(file: seq<Octet>, open: seq<Octet>, op: Op, rest: seq<Op>)
    ensures var more := if op.Put? then open + [Narrow(op.wc)] else open;
            if op.Sync? || Narrow(op.wc) == NEWLINE then
              file + Written(open, [op] + rest) == (file + Clip(more)) + Written([], rest)
              && OpenSegment(open, [op] + rest) == OpenSegment([], rest)
            else
              Written(open, [op] + rest) == Written(more, rest)
              && OpenSegment(open, [op] + rest) == OpenSegment(more, rest)
  {
    var more := if op.Put? then open + [Narrow(op.wc)] else open;
    CutAppend([op], rest);
    if op.Sync? || Narrow(op.wc) == NEWLINE {
      CutAppend([more], ClosedSegments([], rest));
      CutAppend([Clip(more)], ClippedAll(ClosedSegments([], rest)));
      Assoc(file, Clip(more), Written([], rest));
    }
  }

  /** The cuts lose nothing. */
  lemma {:induction false} SegmentsConserve(open: seq<Octet>, ops: seq<Op>)
    ensures open + Streamed(ops) == Joined(ClosedSegments(open, ops)) + OpenSegment(open, ops)
    decreases |ops|
  {
    if ops != [] {
      var rest := ops[1..];
      var more := if ops[0].Put? then open + [Narrow(ops[0].wc)] else open;
      if ops[0].Put? {
        Assoc(open, [Narrow(ops[0].wc)], Streamed(rest));
      }
      assert open + Streamed(ops) == more + Streamed(rest);
      if ops[0].Sync? || Narrow(ops[0].wc) == NEWLINE {
        SegmentsConserve([], rest);
        assert [] + Streamed(rest) == Streamed(rest);
        Assoc(more, Joined(ClosedSegments([], rest)), OpenSegment([], rest));
        CutAppend([more], ClosedSegments([], rest));
      } else {
        SegmentsConserve(more, rest);
      }
    }
  }

  lemma {:induction false} ClippedLength(segments: seq<seq<Octet>>)
    ensures |Joined(ClippedAll(segments))| <= |Joined(segments)|
    ensures |Joined(ClippedAll(segments))| == |Joined(segments)|
       <==> forall s :: s in segments ==> |s| <= MAX_BUFFER_SIZE
    ensures |Joined(ClippedAll(segments))| == |Joined(segments)|
        ==> Joined(ClippedAll(segments)) == Joined(segments)
  {
    if segments != [] {
      ClippedLength(segments[1..]);
      assert forall s :: s in segments <==> s == segments[0] || s in segments[1..];
    }
  }

  /** What is written, followed by what is still open, is everything streamed exactly when no
      segment is longer than the buffer. */
  lemma LosslessIff(ops: seq<Op>)
    ensures Joined(ClippedAll(ClosedSegments([], ops))) + OpenSegment([], ops) == Streamed(ops)
       <==> forall s :: s in ClosedSegments([], ops) ==> |s| <= MAX_BUFFER_SIZE
  {
    SegmentsConserve([], ops);
    ClippedLength(ClosedSegments([], ops));
    assert [] + Streamed(ops) == Streamed(ops);
  }

  /** A segment is what was put since the last cut, the newline that cuts included. */
  lemma {:induction false} SegmentMeaning(open: seq<Octet>, quiet: seq<Op>, cut: Op, rest: seq<Op>)
    requires (forall op :: op in quiet ==> !Cuts(op)) && Cuts(cut)
    ensures ClosedSegments(open, quiet) == [] && OpenSegment(open, quiet) == open + Streamed(quiet)
    ensures ClosedSegments(open, quiet + [cut] + rest)
         == [open + Streamed(quiet) + Streamed([cut])] + ClosedSegments([], rest)
    ensures OpenSegment(open, quiet + [cut] + rest) == OpenSegment([], rest)
    decreases |quiet|
  {
    if quiet == [] {
      assert quiet + [cut] + rest == [cut] + rest;
      CutAppend([cut], rest);
      WithEmpty(open);
      WithEmpty(Streamed([cut]));
      OneStreamed(cut);
    } else {
      var more := open + [quiet[0].wc % 0x100];
      assert quiet + [cut] + rest == [quiet[0]] + (quiet[1..] + [cut] + rest);
      CutAppend([quiet[0]], quiet[1..] + [cut] + rest);
      assert quiet[0] in quiet;
      SegmentMeaning(more, quiet[1..], cut, rest);
      Assoc(open, [quiet[0].wc % 0x100], Streamed(quiet[1..]));
    }
  }

  lemma OneStreamed(op: Op)
    ensures Streamed([op]) == if op.Put? then [op.wc % 0x100] else []
  {
    assert [op][1..] == [];
  }

  /** Of a segment the first 2048 bytes are written. */
  lemma ClipMeaning(segment: seq<Octet>)
    ensures Clip(segment) <= segment && |Clip(segment)| == if |segment| < 2048 then |segment| else 2048
  {
  }

  lemma {:induction false} ClippedAt(segments: seq<seq<Octet>>, i: nat)
    requires i < |segments|
    ensures ClippedAll(segments)[i] <= segments[i]
    ensures |ClippedAll(segments)[i]| == if |segments[i]| < 2048 then |segments[i]| else 2048
  {
    if i > 0 {
      ClippedAt(segments[1..], i - 1);
    }
  }
}
