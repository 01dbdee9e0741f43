/** The double-buffer transfer schedule, stated as a reference.

    A run of the scheduler is recorded as a trace of events: reads into a
    buffer, transfers issued to the transfer engine, blocking waits for the
    engine to finish, and the final close of the file. This module defines
    the trace a run over a given file must produce, declaratively, and
    proves what that trace promises: which transfers are issued, from which
    buffer, with how many words, what bytes reach the output, when reads may
    happen, and that the file is closed exactly once when streaming
    started and never after a failed first read.
 */
module Schedule {
  import opened Words
  import opened BlockSource

  /** The two statically allocated playback buffers. */
  datatype BufferId = Buffer0 | Buffer1

  /** One programming of the transfer engine: its source buffer, its word
      count, and the words it carries out of that buffer. */
  datatype Transfer = Transfer(source: BufferId, count: nat, words: seq<word>)

  datatype Event =
    | Fill(target: BufferId, stored: nat)   // a read of BUFFER_SIZE bytes into a buffer, storing `stored` bytes
    | Issue(transfer: Transfer)             // configure and start the transfer engine
    | Wait                                  // block until the engine has finished its transfer
    | Close                                 // close the file

  /** Whether the transfer engine is reading from one of the buffers. */
  datatype Channel = Idle | Busy(source: BufferId)

  /** Where a run is. */
  datatype Phase =
    | Opened              // file open, nothing read yet
    | Streaming           // a transfer has been issued; the loop runs
    | Exited(why: Stop)   // the loop has ended; the file is still open
    | Closed(why: Stop)   // the file has been closed after the loop
    | Halted(why: Stop)   // the first read failed or was empty; nothing was played

  /** The engine's state after a trace: busy with the last issued transfer
      until a wait, idle before any transfer. */
  function ChannelAfter(trace: seq<Event>): Channel
  {
    if trace == [] then Idle
    else match trace[|trace| - 1]
      case Issue(t) => Busy(t.source)
      case Wait => Idle
      case _ => ChannelAfter(trace[..|trace| - 1])
  }

  /** The transfer issued at index i has been waited for later in the trace. */
  ghost predicate Completed(trace: seq<Event>, i: nat)
  {
    exists j :: i < j < |trace| && trace[j].Wait?
  }

  /** The engine is idle exactly when every transfer issued so far has been
      waited for. */
  lemma {:induction false} IdleIffAllCompleted(trace: seq<Event>)
    ensures ChannelAfter(trace) == Idle <==>
      forall i :: 0 <= i < |trace| && trace[i].Issue? ==> Completed(trace, i)
  {
    if trace != [] {
      var n := |trace| - 1;
      var p := trace[..n];
      assert forall j :: 0 <= j < n ==> trace[j] == p[j];
      match trace[n]
      case Issue(t) =>
        assert !Completed(trace, n);
      case Wait =>
        forall i | 0 <= i < |trace| && trace[i].Issue?
          ensures Completed(trace, i)
        {
          assert i < n && trace[n].Wait?;
        }
      case _ =>
        IdleIffAllCompleted(p);
        forall i | 0 <= i < n
          ensures Completed(trace, i) <==> Completed(p, i)
        {
          if Completed(trace, i) {
            var j :| i < j < |trace| && trace[j].Wait?;
            assert j < n;
          }
        }
    }
  }

  /** Every read happens while the engine is idle, so no read ever writes
      into the buffer a transfer is reading from. */
  ghost predicate FillsOnlyWhenIdle(trace: seq<Event>)
  {
    forall i :: 0 <= i < |trace| && trace[i].Fill? ==> ChannelAfter(trace[..i]) == Idle
  }

  /** Every transfer is issued right after the read that filled its source
      buffer, for that read's whole words. */
  ghost predicate IssuesFollowFills(trace: seq<Event>)
  {
    forall j :: 0 < j < |trace| && trace[j].Issue? ==>
      trace[j - 1].Fill? && trace[j - 1].target == trace[j].transfer.source &&
      trace[j].transfer.count == WordCount(trace[j - 1].stored)
  }

  lemma AppendKeepsFillsOnlyWhenIdle(trace: seq<Event>, e: Event)
    requires FillsOnlyWhenIdle(trace)
    requires e.Fill? ==> ChannelAfter(trace) == Idle
    ensures FillsOnlyWhenIdle(trace + [e])
  {
    var t := trace + [e];
    forall i | 0 <= i < |t| && t[i].Fill?
      ensures ChannelAfter(t[..i]) == Idle
    {
      if i < |trace| {
        assert t[..i] == trace[..i];
      } else {
        assert t[..i] == trace;
      }
    }
  }

  lemma AppendKeepsIssuesFollowFills(trace: seq<Event>, e: Event)
    requires IssuesFollowFills(trace)
    requires e.Issue? ==>
               (trace != [] && trace[|trace| - 1].Fill? &&
                trace[|trace| - 1].target == e.transfer.source &&
                e.transfer.count == WordCount(trace[|trace| - 1].stored))
    ensures IssuesFollowFills(trace + [e])
  {
    var t := trace + [e];
    forall j | 0 < j < |t| && t[j].Issue?
      ensures t[j - 1].Fill? && t[j - 1].target == t[j].transfer.source &&
        t[j].transfer.count == WordCount(t[j - 1].stored)
    {
      assert t[j - 1] == trace[j - 1];
    }
  }

  /** Whether event e may follow the events `before` under the scheduler's
      discipline: a read only while the engine is idle, a transfer only
      right after the read that filled its source buffer, for that read's
      whole words. */
  ghost predicate Admissible(before: seq<Event>, e: Event)
  {
    (e.Fill? ==> ChannelAfter(before) == Idle) &&
    (e.Issue? ==>
       before != [] && before[|before| - 1].Fill? &&
       before[|before| - 1].target == e.transfer.source &&
       e.transfer.count == WordCount(before[|before| - 1].stored))
  }

  /** Every event of the trace is admissible after the ones before it. */
  ghost predicate Disciplined(trace: seq<Event>)
  {
    trace == [] ||
    (Disciplined(trace[..|trace| - 1]) && Admissible(trace[..|trace| - 1], trace[|trace| - 1]))
  }

  /** A disciplined trace never reads while a transfer runs, and issues each
      transfer right after the read that filled its buffer. */
  lemma {:induction false} DisciplinedMeans(trace: seq<Event>)
    requires Disciplined(trace)
    ensures FillsOnlyWhenIdle(trace) && IssuesFollowFills(trace)
  {
    if trace != [] {
      var n := |trace| - 1;
      DisciplinedMeans(trace[..n]);
      AppendKeepsFillsOnlyWhenIdle(trace[..n], trace[n]);
      AppendKeepsIssuesFollowFills(trace[..n], trace[n]);
      assert trace[..n] + [trace[n]] == trace;
    }
  }

  /** The buffer the i-th read (0 = the priming read) goes into. The first
      loop iteration reads into buffer0 again, because the selector is only
      flipped after the transfer of its own iteration is issued. */
  function SourceOf(i: nat): (b: BufferId)
    ensures i <= 1 ==> b == Buffer0
    ensures i >= 1 ==> (b == Buffer0 <==> i % 2 == 1)
  {
    if i == 0 || i % 2 == 1 then Buffer0 else Buffer1
  }

  /** The transfer issued for the i-th read. */
  function TransferFor(file: seq<ReadResult>, i: nat): Transfer
  {
    var data := ReadAt(file, i).Stored();
    Transfer(SourceOf(i), WordCount(|data|), Pack(Truncate(data)))
  }

  /** One loop iteration that ends in a transfer: wait, read, issue. */
  function Cycle(file: seq<ReadResult>, i: nat): seq<Event>
  {
    [Wait, Fill(SourceOf(i), |ReadAt(file, i).Stored()|), Issue(TransferFor(file, i))]
  }

  /** The trace after the priming read and n - 1 loop iterations all
      delivered data. */
  function Streamed(file: seq<ReadResult>, n: nat): seq<Event>
    requires n >= 1
  {
    if n == 1 then [Fill(Buffer0, |ReadAt(file, 0).Stored()|), Issue(TransferFor(file, 0))]
    else Streamed(file, n - 1) + Cycle(file, n - 1)
  }

  /** The stream starts with the priming read into buffer0 and holds one
      read and one transfer per read, with a wait before each loop read. */
  lemma {:induction false} StreamedShape(file: seq<ReadResult>, n: nat)
    requires n >= 1
    ensures |Streamed(file, n)| == 3 * n - 1
    ensures Streamed(file, n)[0] == Fill(Buffer0, |ReadAt(file, 0).Stored()|)
  {
    if n > 1 {
      StreamedShape(file, n - 1);
    }
  }

  /** The whole trace of a run over `file`. With k the first read that fails
      or is empty: if k is the priming read, that read is all there is;
      otherwise reads 0..k-1 are each followed by their transfer, read k
      follows one last wait and is followed by the close. */
  function ExpectedTrace(file: seq<ReadResult>): (t: seq<Event>)
    ensures |t| == if FirstStop(file) == 0 then 1 else 3 * FirstStop(file) + 2
    ensures t[0] == Fill(Buffer0, |ReadAt(file, 0).Stored()|)
    ensures t[|t| - 1] == if FirstStop(file) == 0 then t[0] else Close
  {
    var k := FirstStop(file);
    var last := Fill(SourceOf(k), |ReadAt(file, k).Stored()|);
    if k == 0 then [last]
    else
      StreamedShape(file, k);
      Streamed(file, k) + [Wait, last, Close]
  }

  /** The scheduler's state apart from the buffers' contents: where the run
      is, how many reads it made, the selector, and what it did so far. */
  datatype Snapshot = Snapshot(phase: Phase, pos: nat, useBuffer0: bool, trace: seq<Event>)

  /** One iteration of the streaming loop from state s: wait, read the next
      block into the buffer the selector names, then stop on a failed or
      empty read, or transfer the block's whole words from that same buffer
      and flip the selector. */
  function Iterate(file: seq<ReadResult>, s: Snapshot): (next: Snapshot)
    ensures |next.trace| == |s.trace| + if ReadAt(file, s.pos).Stops() then 2 else 3
    ensures next.pos == s.pos + 1
    ensures next.trace[..|s.trace|] == s.trace
    ensures next.trace[|s.trace|] == Wait
    ensures next.trace[|s.trace| + 1]
         == Fill(if s.useBuffer0 then Buffer0 else Buffer1, |ReadAt(file, s.pos).Stored()|)
    ensures ReadAt(file, s.pos).Stops() ==>
              next.phase == Exited(StopOf(ReadAt(file, s.pos))) &&
              next.useBuffer0 == s.useBuffer0
    ensures !ReadAt(file, s.pos).Stops() ==>
              next.phase == s.phase &&
              next.useBuffer0 == !s.useBuffer0 &&
              next.trace[|s.trace| + 2].Issue? &&
              next.trace[|s.trace| + 2].transfer.source == (if s.useBuffer0 then Buffer0 else Buffer1) &&
              next.trace[|s.trace| + 2].transfer.count == |ReadAt(file, s.pos).data| / 4
  {
    var r := ReadAt(file, s.pos);
    var b := if s.useBuffer0 then Buffer0 else Buffer1;
    var filled := s.trace + [Wait, Fill(b, |r.Stored()|)];
    if r.Stops() then
      s.(phase := Exited(StopOf(r)), pos := s.pos + 1, trace := filled)
    else
      var t := Transfer(b, WordCount(|r.data|), Pack(Truncate(r.data)));
      s.(pos := s.pos + 1, useBuffer0 := !s.useBuffer0, trace := filled + [Issue(t)])
  }

  /** An iteration keeps the trace disciplined: its read follows the wait,
      and its transfer follows that read. Afterwards the engine is idle if
      the loop stopped, and busy with the iteration's buffer otherwise. */
  lemma IterationDisciplined(file: seq<ReadResult>, s: Snapshot)
    requires Disciplined(s.trace)
    ensures Disciplined(Iterate(file, s).trace)
    ensures ChannelAfter(Iterate(file, s).trace)
         == if ReadAt(file, s.pos).Stops() then Idle
            else Busy(if s.useBuffer0 then Buffer0 else Buffer1)
  {
    var r := ReadAt(file, s.pos);
    var b := if s.useBuffer0 then Buffer0 else Buffer1;
    var f := Fill(b, |r.Stored()|);
    Snoc(s.trace, Wait);
    Snoc(s.trace + [Wait], f);
    assert s.trace + [Wait] + [f] == s.trace + [Wait, f];
    if !r.Stops() {
      var t := Transfer(b, WordCount(|r.data|), Pack(Truncate(r.data)));
      Snoc(s.trace + [Wait, f], Issue(t));
    }
  }

  /** Where a run stands against the reference: while streaming, pos reads
      have delivered data and the selector names SourceOf(pos); once the
      loop has exited, only the close is missing. */
  ghost predicate OnSchedule(file: seq<ReadResult>, s: Snapshot)
  {
    (s.phase == Streaming ==>
       1 <= s.pos <= FirstStop(file) && s.trace == Streamed(file, s.pos) &&
       s.useBuffer0 == (s.pos % 2 == 1)) &&
    (s.phase.Exited? ==>
       s.pos == FirstStop(file) + 1 && 2 <= s.pos &&
       s.phase == Exited(StopOf(ReadAt(file, s.pos - 1))) &&
       s.trace + [Close] == ExpectedTrace(file))
  }

  /** Every loop iteration keeps a streaming run on the reference schedule:
      the read goes into SourceOf(pos); if it fails or is empty it is the
      stopping read and only the close remains; otherwise its transfer
      extends the stream by one cycle. */
  lemma IterationOnSchedule(file: seq<ReadResult>, s: Snapshot)
    requires s.phase == Streaming && OnSchedule(file, s)
    ensures OnSchedule(file, Iterate(file, s))
    ensures Iterate(file, s).phase == Streaming || Iterate(file, s).phase.Exited?
  {
    if ReadAt(file, s.pos).Stops() {
      LastIteration(file, s);
    } else {
      StreamingIteration(file, s);
    }
  }

  /** The iteration whose read fails or is empty leaves only the close. */
  lemma LastIteration(file: seq<ReadResult>, s: Snapshot)
    requires s.phase == Streaming && OnSchedule(file, s)
    requires ReadAt(file, s.pos).Stops()
    ensures Iterate(file, s).phase.Exited? && OnSchedule(file, Iterate(file, s))
  {
    var k := FirstStop(file);
    var r := ReadAt(file, s.pos);
    var last := Fill(SourceOf(s.pos), |r.Stored()|);
    var next := Iterate(file, s);
    assert s.pos == k;
    assert next.trace == s.trace + [Wait, last];
    assert next.trace + [Close] == Streamed(file, k) + [Wait, last, Close];
  }

  /** An iteration whose read delivers data adds one cycle to the stream. */
  lemma StreamingIteration(file: seq<ReadResult>, s: Snapshot)
    requires s.phase == Streaming && OnSchedule(file, s)
    requires !ReadAt(file, s.pos).Stops()
    ensures Iterate(file, s).phase == Streaming && OnSchedule(file, Iterate(file, s))
  {
    var r := ReadAt(file, s.pos);
    var next := Iterate(file, s);
    assert SourceOf(s.pos) == if s.useBuffer0 then Buffer0 else Buffer1;
    assert next.trace == s.trace + Cycle(file, s.pos);
    assert s.pos < FirstStop(file);
    assert next.trace == Streamed(file, s.pos + 1);
    assert next.phase == Streaming && 1 <= next.pos <= FirstStop(file);
    assert next.useBuffer0 == (next.pos % 2 == 1);
  }

  /** The transfers for reads 0..n-1, in read order. */
  function TransfersUpTo(file: seq<ReadResult>, n: nat): (ts: seq<Transfer>)
    ensures |ts| == n
  {
    if n == 0 then [] else TransfersUpTo(file, n - 1) + [TransferFor(file, n - 1)]
  }

  /** The i-th of the transfers for the first n reads is the transfer for
      read i. */
  lemma {:induction false} TransferAt(file: seq<ReadResult>, n: nat, i: nat)
    requires i < n
    ensures TransfersUpTo(file, n)[i] == TransferFor(file, i)
  {
    if i < n - 1 {
      TransferAt(file, n - 1, i);
    }
  }

  /** The transfers of a run: one per read before the first failed or empty one. */
  function ExpectedTransfers(file: seq<ReadResult>): seq<Transfer>
  {
    TransfersUpTo(file, FirstStop(file))
  }

  /** Where a run over `file` ends. */
  function ExpectedPhase(file: seq<ReadResult>): (p: Phase)
    ensures p.Halted? <==> ReadAt(file, 0).Stops()
    ensures p.Halted? || p.Closed?
    ensures p.why.ReadError? <==> ReadAt(file, FirstStop(file)).Failed?
  {
    var k := FirstStop(file);
    if k == 0 then Halted(StopOf(ReadAt(file, 0))) else Closed(StopOf(ReadAt(file, k)))
  }

  /** The transfers issued in a trace, in order (what an instrumented
      transfer engine would log). */
  function Transfers(trace: seq<Event>): seq<Transfer>
  {
    if trace == [] then []
    else (if trace[0].Issue? then [trace[0].transfer] else []) + Transfers(trace[1..])
  }

  /** The number of closes in a trace. */
  function Closes(trace: seq<Event>): nat
  {
    if trace == [] then 0
    else (if trace[0].Close? then 1 else 0) + Closes(trace[1..])
  }

  /** The number of reads in a trace. */
  function Fills(trace: seq<Event>): nat
  {
    if trace == [] then 0
    else (if trace[0].Fill? then 1 else 0) + Fills(trace[1..])
  }

  /** The bytes a sequence of transfers sends to the serial output, in order. */
  function Output(transfers: seq<Transfer>): seq<byte>
  {
    if transfers == [] then []
    else Unpack(transfers[0].words) + Output(transfers[1..])
  }

  /** The whole words of each block, concatenated in read order. */
  function Playable(blocks: seq<ReadResult>): seq<byte>
  {
    if blocks == [] then []
    else Truncate(blocks[0].Stored()) + Playable(blocks[1..])
  }

  /** The tallies of a trace are the sums of the tallies of its parts. */
  lemma {:induction false} TalliesAppend(a: seq<Event>, b: seq<Event>)
    ensures Transfers(a + b) == Transfers(a) + Transfers(b)
    ensures Closes(a + b) == Closes(a) + Closes(b)
    ensures Fills(a + b) == Fills(a) + Fills(b)
  {
    if a == [] {
      assert a + b == b;
    } else {
      assert (a + b)[0] == a[0];
      assert (a + b)[1..] == a[1..] + b;
      TalliesAppend(a[1..], b);
      var h := if a[0].Issue? then [a[0].transfer] else [];
      assert Transfers(a + b) == h + (Transfers(a[1..]) + Transfers(b));
    }
  }

  /** Output distributes over concatenation of transfer logs. */
  lemma {:induction false} OutputAppend(a: seq<Transfer>, b: seq<Transfer>)
    ensures Output(a + b) == Output(a) + Output(b)
  {
    if a == [] {
      assert a + b == b;
    } else {
      assert (a + b)[0] == a[0];
      assert (a + b)[1..] == a[1..] + b;
      OutputAppend(a[1..], b);
      assert Output(a + b) == Unpack(a[0].words) + (Output(a[1..]) + Output(b));
    }
  }

  /** Playable distributes over concatenation of files. */
  lemma {:induction false} PlayableAppend(a: seq<ReadResult>, b: seq<ReadResult>)
    ensures Playable(a + b) == Playable(a) + Playable(b)
  {
    if a == [] {
      assert a + b == b;
    } else {
      assert (a + b)[0] == a[0];
      assert (a + b)[1..] == a[1..] + b;
      PlayableAppend(a[1..], b);
      assert Playable(a + b) == Truncate(a[0].Stored()) + (Playable(a[1..]) + Playable(b));
    }
  }

  /** The tallies of a one-event trace. */
  lemma TalliesOne(e: Event)
    ensures Transfers([e]) == if e.Issue? then [e.transfer] else []
    ensures Closes([e]) == if e.Close? then 1 else 0
    ensures Fills([e]) == if e.Fill? then 1 else 0
  {
    assert [e][1..] == [];
  }

  /** Appending one event keeps the trace disciplined exactly when the event
      is admissible, and moves the engine's state by that event alone. */
  lemma Snoc(trace: seq<Event>, e: Event)
    ensures Disciplined(trace + [e]) <==> Disciplined(trace) && Admissible(trace, e)
    ensures ChannelAfter(trace + [e])
         == match e
            case Issue(t) => Busy(t.source)
            case Wait => Idle
            case _ => ChannelAfter(trace)
  {
    assert (trace + [e])[..|trace|] == trace;
  }

  /** Appending one event adds its own contribution to each tally. */
  lemma TalliesSnoc(trace: seq<Event>, e: Event)
    ensures Transfers(trace + [e]) == Transfers(trace) + (if e.Issue? then [e.transfer] else [])
    ensures Closes(trace + [e]) == Closes(trace) + (if e.Close? then 1 else 0)
    ensures Fills(trace + [e]) == Fills(trace) + (if e.Fill? then 1 else 0)
  {
    TalliesAppend(trace, [e]);
    TalliesOne(e);
  }

  /** Appending the three events of a cycle, or of the final wait, read and
      close, adds their contributions in order. */
  lemma SnocThree(trace: seq<Event>, a: Event, b: Event, c: Event)
    ensures Transfers(trace + [a, b, c])
         == Transfers(trace) + (if a.Issue? then [a.transfer] else [])
            + (if b.Issue? then [b.transfer] else []) + (if c.Issue? then [c.transfer] else [])
    ensures Closes(trace + [a, b, c])
         == Closes(trace) + (if a.Close? then 1 else 0) + (if b.Close? then 1 else 0) + (if c.Close? then 1 else 0)
    ensures Fills(trace + [a, b, c])
         == Fills(trace) + (if a.Fill? then 1 else 0) + (if b.Fill? then 1 else 0) + (if c.Fill? then 1 else 0)
  {
    assert trace + [a, b, c] == ((trace + [a]) + [b]) + [c];
    TalliesSnoc(trace, a);
    TalliesSnoc(trace + [a], b);
    TalliesSnoc(trace + [a] + [b], c);
  }

  /** Streaming n reads issues exactly the transfers for reads 0..n-1, in
      order. */
  lemma {:induction false} StreamedTransfers(file: seq<ReadResult>, n: nat)
    requires n >= 1
    ensures Transfers(Streamed(file, n)) == TransfersUpTo(file, n)
  {
    if n == 1 {
      var f := Fill(Buffer0, |ReadAt(file, 0).Stored()|);
      var t := TransferFor(file, 0);
      assert Streamed(file, 1) == [] + [f] + [Issue(t)];
      TalliesSnoc([], f);
      TalliesSnoc([f], Issue(t));
      assert TransfersUpTo(file, 1) == [t];
    } else {
      var prev := Streamed(file, n - 1);
      StreamedTransfers(file, n - 1);
      var f := Fill(SourceOf(n - 1), |ReadAt(file, n - 1).Stored()|);
      var t := TransferFor(file, n - 1);
      assert Streamed(file, n) == prev + [Wait, f, Issue(t)];
      SnocThree(prev, Wait, f, Issue(t));
      assert TransfersUpTo(file, n) == TransfersUpTo(file, n - 1) + [t];
    }
  }

  /** Streaming n reads performs n reads and closes nothing. */
  lemma {:induction false} StreamedCounts(file: seq<ReadResult>, n: nat)
    requires n >= 1
    ensures Closes(Streamed(file, n)) == 0
    ensures Fills(Streamed(file, n)) == n
  {
    if n == 1 {
      var f := Fill(Buffer0, |ReadAt(file, 0).Stored()|);
      var t := Issue(TransferFor(file, 0));
      assert Streamed(file, 1) == [] + [f] + [t];
      TalliesSnoc([], f);
      TalliesSnoc([f], t);
    } else {
      var prev := Streamed(file, n - 1);
      StreamedCounts(file, n - 1);
      var f := Fill(SourceOf(n - 1), |ReadAt(file, n - 1).Stored()|);
      var t := Issue(TransferFor(file, n - 1));
      assert Streamed(file, n) == prev + [Wait, f, t];
      SnocThree(prev, Wait, f, t);
    }
  }

  /** The transfers in the expected trace are the expected transfers: one per
      read before the first failed or empty read, none for that read. */
  lemma TraceTransfers(file: seq<ReadResult>)
    ensures Transfers(ExpectedTrace(file)) == ExpectedTransfers(file)
  {
    var k := FirstStop(file);
    var last := Fill(SourceOf(k), |ReadAt(file, k).Stored()|);
    if k == 0 {
      TalliesSnoc([], last);
      assert [] + [last] == [last];
    } else {
      StreamedTransfers(file, k);
      SnocThree(Streamed(file, k), Wait, last, Close);
    }
  }

  /** The file is closed exactly once, as the last step, when streaming
      started; it is never closed when the priming read fails. Every read is
      made once: there are k + 1 reads for stopping read k, and no retry. */
  lemma CloseOnceReadOnce(file: seq<ReadResult>)
    ensures Closes(ExpectedTrace(file)) == if FirstStop(file) == 0 then 0 else 1
    ensures FirstStop(file) > 0 ==> ExpectedTrace(file)[|ExpectedTrace(file)| - 1] == Close
    ensures Fills(ExpectedTrace(file)) == FirstStop(file) + 1
  {
    var k := FirstStop(file);
    var last := Fill(SourceOf(k), |ReadAt(file, k).Stored()|);
    if k == 0 {
      TalliesSnoc([], last);
      assert [] + [last] == [last];
    } else {
      StreamedCounts(file, k);
      SnocThree(Streamed(file, k), Wait, last, Close);
    }
  }

  /** A priming read that fails or delivers nothing halts the program:
      that read is all it does, nothing is transferred and the file is
      never closed. */
  lemma PrimeFailure(file: seq<ReadResult>)
    requires ReadAt(file, 0).Stops()
    ensures ExpectedTrace(file) == [Fill(Buffer0, |ReadAt(file, 0).Stored()|)]
    ensures Transfers(ExpectedTrace(file)) == [] && Closes(ExpectedTrace(file)) == 0
    ensures ExpectedPhase(file) == Halted(StopOf(ReadAt(file, 0)))
  {
    TraceTransfers(file);
    CloseOnceReadOnce(file);
  }

  /** The loop stops at the first failed or empty read, reports why, and
      issues no transfer for it: a failure is not retried and an empty read
      ends the run at end of file. */
  lemma StopOutcome(file: seq<ReadResult>)
    requires !ReadAt(file, 0).Stops()
    ensures ExpectedPhase(file) == Closed(StopOf(ReadAt(file, FirstStop(file))))
    ensures ExpectedPhase(file).why.ReadError? <==> ReadAt(file, FirstStop(file)).Failed?
    ensures |Transfers(ExpectedTrace(file))| == FirstStop(file)
    ensures Fills(ExpectedTrace(file)) == FirstStop(file) + 1
  {
    TraceTransfers(file);
    CloseOnceReadOnce(file);
  }

  /** What each transfer carries: the i-th transfer comes from buffer
      SourceOf(i), counts bytes_read / 4 words of the i-th read, at most
      BUFFER_SIZE / 4, and sends exactly the first 4 * count bytes of the
      block; the trailing bytes_read mod 4 bytes are never sent. */
  lemma TransferContents(file: seq<ReadResult>, i: nat)
    requires WellFormed(file)
    requires i < FirstStop(file)
    ensures file[i].Read? && |file[i].data| > 0
    ensures ExpectedTransfers(file)[i].source == SourceOf(i)
    ensures ExpectedTransfers(file)[i].count == |file[i].data| / 4 <= BUFFER_SIZE / 4
    ensures |ExpectedTransfers(file)[i].words| == ExpectedTransfers(file)[i].count
    ensures Unpack(ExpectedTransfers(file)[i].words)
         == file[i].data[..4 * ExpectedTransfers(file)[i].count]
  {
    TransferAt(file, FirstStop(file), i);
    UnpackPack(Truncate(file[i].data));
  }

  lemma PrefixSnoc<T>(s: seq<T>, n: nat)
    requires 0 < n <= |s|
    ensures s[..n] == s[..n - 1] + [s[n - 1]]
  {
  }

  /** Streaming the first n reads sends their whole words, in order. */
  lemma {:induction false} OutputOfFirst(file: seq<ReadResult>, n: nat)
    requires n <= |file|
    ensures Output(TransfersUpTo(file, n)) == Playable(file[..n])
  {
    if n > 0 {
      OutputOfFirst(file, n - 1);
      OutputStep(file, n);
      PlayableStep(file, n);
    }
  }

  /** The transfer for one more read sends that read's whole words. */
  lemma OutputStep(file: seq<ReadResult>, n: nat)
    requires 0 < n <= |file|
    ensures Output(TransfersUpTo(file, n))
         == Output(TransfersUpTo(file, n - 1)) + Truncate(file[n - 1].Stored())
  {
    var t := TransferFor(file, n - 1);
    OutputAppend(TransfersUpTo(file, n - 1), [t]);
    OutputOfTransfer(file, n - 1);
  }

  /** One more read adds that read's whole words. */
  lemma PlayableStep(file: seq<ReadResult>, n: nat)
    requires 0 < n <= |file|
    ensures Playable(file[..n]) == Playable(file[..n - 1]) + Truncate(file[n - 1].Stored())
  {
    PrefixSnoc(file, n);
    PlayableAppend(file[..n - 1], [file[n - 1]]);
    PlayableOne(file[n - 1]);
  }

  /** The i-th transfer sends the whole words of the i-th read. */
  lemma OutputOfTransfer(file: seq<ReadResult>, i: nat)
    requires i < |file|
    ensures Output([TransferFor(file, i)]) == Truncate(file[i].Stored())
  {
    assert [TransferFor(file, i)][1..] == [];
    UnpackPack(Truncate(file[i].Stored()));
  }

  /** The bytes a run sends are the whole words of every read before the
      first failed or empty read, in read order. */
  lemma PlaybackOutput(file: seq<ReadResult>)
    ensures Output(ExpectedTransfers(file)) == Playable(file[..FirstStop(file)])
  {
    OutputOfFirst(file, FirstStop(file));
  }

  lemma PlayableOne(r: ReadResult)
    ensures Playable([r]) == Truncate(r.Stored())
  {
    assert [r][1..] == [];
  }

  /** Dropping a whole buffer from the front of a file drops a whole buffer
      from the front of its whole words. */
  lemma WholeWordsAfterBuffer(bytes: seq<byte>)
    requires |bytes| > BUFFER_SIZE
    ensures bytes[..4 * (|bytes| / 4)]
         == bytes[..BUFFER_SIZE]
            + bytes[BUFFER_SIZE..][..4 * ((|bytes| - BUFFER_SIZE) / 4)]
  {
    var m := 4 * ((|bytes| - BUFFER_SIZE) / 4);
    assert 4 * (|bytes| / 4) == BUFFER_SIZE + m;
  }

  lemma {:induction false} PlayableChunks(bytes: seq<byte>)
    ensures Playable(Chunks(bytes)) == bytes[..4 * (|bytes| / 4)]
    decreases |bytes|
  {
    if |bytes| > BUFFER_SIZE {
      var rest := bytes[BUFFER_SIZE..];
      var head := Read(bytes[..BUFFER_SIZE]);
      PlayableChunks(rest);
      PlayableAppend([head], Chunks(rest));
      PlayableOne(head);
      WholeWordsAfterBuffer(bytes);
    } else if bytes != [] {
      PlayableOne(Read(bytes));
    }
  }

  /** Playing a healthy file sends all of its bytes, in order, except the
      trailing bytes that do not fill a word; a file of whole words (in
      particular one of whole buffers) is reproduced exactly. */
  lemma PlaybackOfFile(bytes: seq<byte>)
    ensures Output(ExpectedTransfers(Chunks(bytes))) == bytes[..4 * (|bytes| / 4)]
    ensures |bytes| % 4 == 0 ==> Output(ExpectedTransfers(Chunks(bytes))) == bytes
  {
    ChunksPlayWhole(bytes);
    PlayableChunks(bytes);
    WholeWordsOfAligned(bytes);
  }

  /** A healthy file streams every one of its reads. */
  lemma ChunksPlayWhole(bytes: seq<byte>)
    ensures Output(ExpectedTransfers(Chunks(bytes))) == Playable(Chunks(bytes))
  {
    var file := Chunks(bytes);
    ChunksStopAtEnd(bytes);
    PlaybackOutput(file);
    assert file[..FirstStop(file)] == file;
  }

  lemma WholeWordsOfAligned(bytes: seq<byte>)
    ensures |bytes| % 4 == 0 ==> bytes[..4 * (|bytes| / 4)] == bytes
  {
  }

  /** The buffer order as written: the priming read and the first loop
      iteration both use buffer0, and only then do the buffers alternate. */
  lemma {:induction false} BufferOrder(file: seq<ReadResult>)
    requires FirstStop(file) >= 3
    ensures ExpectedTransfers(file)[0].source == Buffer0
    ensures ExpectedTransfers(file)[1].source == Buffer0
    ensures ExpectedTransfers(file)[2].source == Buffer1
  {
    TransferAt(file, FirstStop(file), 0);
    TransferAt(file, FirstStop(file), 1);
    TransferAt(file, FirstStop(file), 2);
  }

  /** After the first loop iteration the buffers alternate. */
  lemma SourcesAlternate(i: nat)
    requires i >= 1
    ensures SourceOf(i + 1) != SourceOf(i)
  {
  }

  /** A read of whole words is transferred whole, from the buffer the
      schedule names for it. */
  lemma WholeWordTransfer(file: seq<ReadResult>, i: nat)
    requires i < |file| && file[i].Read? && |file[i].data| % 4 == 0
    ensures TransferFor(file, i) == Transfer(SourceOf(i), |file[i].data| / 4, Pack(file[i].data))
  {
    assert Truncate(file[i].data) == file[i].data;
  }

  /** A read of fewer than four bytes still issues a transfer, of zero
      words; the next, empty, read then ends the run at end of file. */
  lemma ShortRead(b0: byte, b1: byte, b2: byte)
    ensures ExpectedTransfers([Read([b0, b1, b2])]) == [Transfer(Buffer0, 0, [])]
    ensures ExpectedTrace([Read([b0, b1, b2])])
         == [Fill(Buffer0, 3), Issue(Transfer(Buffer0, 0, [])), Wait, Fill(Buffer0, 0), Close]
    ensures ExpectedPhase([Read([b0, b1, b2])]) == Closed(EndOfFile)
  {
    var file := [Read([b0, b1, b2])];
    assert FirstStop(file) == 1 by {
      assert file[1..] == [];
    }
    assert Truncate([b0, b1, b2]) == [];
  }

  /** Two full buffers and a half buffer are sent as 1024, 1024 and 512
      words from buffer0, buffer0 and buffer1, and the run ends at end of
      file. */
  lemma TwoAndAHalfBuffers(a: seq<byte>, b: seq<byte>, c: seq<byte>)
    requires |a| == BUFFER_SIZE && |b| == BUFFER_SIZE && |c| == BUFFER_SIZE / 2
    ensures FirstStop([Read(a), Read(b), Read(c)]) == 3
    ensures |ExpectedTransfers([Read(a), Read(b), Read(c)])| == 3
    ensures ExpectedTransfers([Read(a), Read(b), Read(c)])[0].count == 1024
    ensures ExpectedTransfers([Read(a), Read(b), Read(c)])[1].count == 1024
    ensures ExpectedTransfers([Read(a), Read(b), Read(c)])[2].count == 512
    ensures ExpectedTransfers([Read(a), Read(b), Read(c)])[0].source == Buffer0
    ensures ExpectedTransfers([Read(a), Read(b), Read(c)])[1].source == Buffer0
    ensures ExpectedTransfers([Read(a), Read(b), Read(c)])[2].source == Buffer1
    ensures ExpectedPhase([Read(a), Read(b), Read(c)]) == Closed(EndOfFile)
  {
    var file := [Read(a), Read(b), Read(c)];
    assert FirstStop(file) == 3 by {
      assert file[1..][1..][1..] == [];
      assert FirstStop(file[1..][1..]) == 1;
      assert FirstStop(file[1..]) == 2;
    }
    assert ReadAt(file, 3) == Read([]);
    TransferAt(file, 3, 0);
    TransferAt(file, 3, 1);
    TransferAt(file, 3, 2);
  }
}
