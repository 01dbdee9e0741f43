/** The playback scheduler of main(), as the program runs it.

    A Player owns the two statically allocated playback buffers, the
    selector that names the buffer of the next loop iteration, and the
    opened file. The transfer engine is represented by its state (idle, or
    busy reading one buffer) and by the trace of what the scheduler did, in
    which every issued transfer records the words it carries out of its
    buffer. Each step of main() is a method here; Run is the whole
    program from the priming read to the close, and is proved to produce
    exactly the reference trace of module Schedule.
 */
module Player {
  import opened Words
  import opened BlockSource
  import opened Schedule

  class Player {
    /** The results the opened file's reads return, in order. */
    const file: seq<ReadResult>
    const buffer0: array<byte>
    const buffer1: array<byte>
    /** Number of reads made so far. */
    var pos: nat
    /** Whether the next loop iteration reads into, and transfers from, buffer0. */
    var useBuffer0: bool
    /** What the transfer engine is doing. */
    var channel: Channel
    var phase: Phase
    /** Everything the scheduler has done, in order. */
    var trace: seq<Event>

    /** Two distinct buffers of BUFFER_SIZE bytes over a file whose reads fit them. */
    ghost predicate Allocated()
      reads this
    {
      buffer0.Length == BUFFER_SIZE && buffer1.Length == BUFFER_SIZE && buffer0 != buffer1 &&
      WellFormed(file)
    }

    /** The object invariant: the engine state is the one the trace leads to,
        no read has touched a buffer while a transfer was running, and every
        transfer follows the read that filled its buffer. */
    ghost predicate Valid()
      reads this
    {
      Allocated() &&
      channel == ChannelAfter(trace) &&
      Disciplined(trace) &&
      (phase == Opened ==> pos == 0 && trace == [])
    }

    /** The state apart from the buffers' contents. */
    function State(): Snapshot
      reads this
    {
      Snapshot(phase, pos, useBuffer0, trace)
    }

    function Buffer(id: BufferId): array<byte>
    {
      if id == Buffer0 then buffer0 else buffer1
    }

    /** The state right after the file was opened. */
    constructor (file: seq<ReadResult>)
      requires WellFormed(file)
      ensures Valid() && fresh(buffer0) && fresh(buffer1)
      ensures this.file == file && phase == Opened && channel == Idle
    {
      this.file := file;
      buffer0 := new byte[BUFFER_SIZE];
      buffer1 := new byte[BUFFER_SIZE];
      pos := 0;
      channel := Idle;
      phase := Opened;
      trace := [];
    }

    /** One read of BUFFER_SIZE bytes into a buffer. The file delivers its
        next result; the bytes it stores land at the front of the buffer and
        the rest of the buffer keeps its old contents. */
    method ReadInto(target: BufferId) returns (r: ReadResult)
      requires Allocated()
      modifies this`pos, this`trace, Buffer(target)
      ensures r == ReadAt(file, old(pos)) && pos == old(pos) + 1
      ensures trace == old(trace) + [Fill(target, |r.Stored()|)]
      ensures Buffer(target)[..|r.Stored()|] == r.Stored()
      ensures Buffer(target)[|r.Stored()|..] == old(Buffer(target)[|r.Stored()|..])
    {
      r := ReadAt(file, pos);
      ReadFits(file, pos);
      var stored := r.Stored();
      var a := Buffer(target);
      forall i | 0 <= i < |stored| {
        a[i] := stored[i];
      }
      pos := pos + 1;
      trace := trace + [Fill(target, |stored|)];
    }

    /** Block until the running transfer, if any, has finished. */
    method WaitForFinish()
      modifies this`channel, this`trace
      ensures channel == Idle && trace == old(trace) + [Wait]
    {
      channel := Idle;
      trace := trace + [Wait];
    }

    /** Program the transfer engine to move `count` words out of a buffer
        and start it at once. */
    method Configure(source: BufferId, count: nat)
      requires 4 * count <= Buffer(source).Length
      modifies this`channel, this`trace
      ensures channel == Busy(source)
      ensures trace == old(trace) + [Issue(Transfer(source, count, Pack(Buffer(source)[..4 * count])))]
    {
      var words := Pack(Buffer(source)[..4 * count]);
      channel := Busy(source);
      trace := trace + [Issue(Transfer(source, count, words))];
    }

    method CloseFile()
      modifies this`trace
      ensures trace == old(trace) + [Close]
    {
      trace := trace + [Close];
    }

    /** The priming read into buffer0. If it fails or delivers nothing the
        program halts: nothing is transferred and the file is not closed.
        Otherwise the whole words it delivered are transferred from buffer0
        and the selector starts at buffer0. */
    method Prime() returns (ok: bool)
      requires Valid() && phase == Opened
      modifies this, buffer0
      ensures Valid()
      ensures ok == !ReadAt(file, 0).Stops()
      ensures ok ==> phase == Streaming && pos == 1 && useBuffer0 && trace == Streamed(file, 1)
      ensures !ok ==> phase == ExpectedPhase(file) && trace == ExpectedTrace(file) && pos == 1
      ensures buffer0[..|ReadAt(file, 0).Stored()|] == ReadAt(file, 0).Stored()
      ensures buffer0[|ReadAt(file, 0).Stored()|..] == old(buffer0[|ReadAt(file, 0).Stored()|..])
    {
      var r := ReadInto(Buffer0);
      Snoc([], trace[0]);
      if r.Stops() {
        phase := Halted(StopOf(r));
        return false;
      }
      var transfers := WordCount(|r.data|);
      assert buffer0[..4 * transfers] == Truncate(r.data);
      ghost var before := trace;
      Configure(Buffer0, transfers);
      Snoc(before, trace[|trace| - 1]);
      phase := Streaming;
      useBuffer0 := true;
      ok := true;
    }

    /** The first half of a loop iteration: block until the running
        transfer has finished, then read the next block into the buffer the
        selector names. */
    method WaitAndRead() returns (target: BufferId, r: ReadResult)
      requires Allocated()
      modifies this`channel, this`trace, this`pos, Buffer(if useBuffer0 then Buffer0 else Buffer1)
      ensures target == (if useBuffer0 then Buffer0 else Buffer1)
      ensures r == ReadAt(file, old(pos)) && pos == old(pos) + 1 && channel == Idle
      ensures trace == old(trace) + [Wait, Fill(target, |r.Stored()|)]
      ensures Buffer(target)[..|r.Stored()|] == r.Stored()
      ensures Buffer(target)[|r.Stored()|..] == old(Buffer(target)[|r.Stored()|..])
    {
      WaitForFinish();
      target := if useBuffer0 then Buffer0 else Buffer1;
      r := ReadInto(target);
      assert trace == old(trace) + [Wait] + [Fill(target, |r.Stored()|)];
    }

    /** The second half of a loop iteration that read data: transfer the
        whole words of the block just read from the buffer that holds it,
        and flip the selector. */
    method Transmit(source: BufferId, data: seq<byte>)
      requires Allocated()
      requires |data| <= BUFFER_SIZE && Buffer(source)[..|data|] == data
      modifies this`channel, this`trace, this`useBuffer0
      ensures channel == Busy(source) && useBuffer0 == !old(useBuffer0)
      ensures trace == old(trace) + [Issue(Transfer(source, WordCount(|data|), Pack(Truncate(data))))]
    {
      var transfers := WordCount(|data|);
      assert Buffer(source)[..4 * transfers] == Truncate(data);
      Configure(source, transfers);
      useBuffer0 := !useBuffer0;
    }

    /** One iteration of the streaming loop: wait for the running transfer
        to finish, read the next block into the buffer the selector names,
        then stop on a failed read, stop on an empty read, or transfer that
        block's whole words from that same buffer and flip the selector. */
    method Step()
      requires Valid() && phase == Streaming
      modifies this, Buffer(if useBuffer0 then Buffer0 else Buffer1)
      ensures Valid()
      ensures State() == Iterate(file, old(State()))
      ensures var b := Buffer(if old(useBuffer0) then Buffer0 else Buffer1);
        var n := |ReadAt(file, old(pos)).Stored()|;
        b[..n] == ReadAt(file, old(pos)).Stored() && b[n..] == old(b[n..])
    {
      IterationDisciplined(file, State());
      var target, r := WaitAndRead();
      if r.Stops() {
        // a failed read exits with its code, an empty one at end of file
        phase := Exited(StopOf(r));
      } else {
        Transmit(target, r.data);
      }
    }

    /** The whole playback: the priming read, the streaming loop until a
        read fails or is empty, then the close. The trace is exactly the
        reference trace, so every property proved of that trace holds of
        the program. */
    method Run()
      requires Valid() && phase == Opened
      modifies this, buffer0, buffer1
      ensures Valid()
      ensures trace == ExpectedTrace(file)
      ensures phase == ExpectedPhase(file)
      ensures pos == FirstStop(file) + 1
    {
      var ok := Prime();
      if !ok {
        return;
      }
      while phase == Streaming
        invariant Valid() && OnSchedule(file, State())
        invariant phase == Streaming || phase.Exited?
        decreases |file| + 1 - pos
      {
        IterationOnSchedule(file, State());
        Step();
      }
      ghost var before := trace;
      CloseFile();
      Snoc(before, Close);
      phase := Closed(phase.why);
    }
  }

  /** A playback session over a file that opened: the trace it produces is
      the reference trace, it ends where the reference says, it reads only
      while the transfer engine is idle, and it issues every transfer right
      after the read that filled its buffer. */
  method Playback(file: seq<ReadResult>) returns (trace: seq<Event>, outcome: Phase)
    requires WellFormed(file)
    ensures trace == ExpectedTrace(file) && outcome == ExpectedPhase(file)
    ensures FillsOnlyWhenIdle(trace) && IssuesFollowFills(trace)
  {
    var p := new Player(file);
    p.Run();
    trace, outcome := p.trace, p.phase;
    DisciplinedMeans(trace);
  }

  /** Playing a healthy file sends its bytes, in order, without the
      trailing bytes that do not fill a word, and ends at end of file
      with the file closed once. */
  method PlayBytes(bytes: seq<byte>) returns (played: seq<byte>, outcome: Phase, closes: nat)
    ensures played == bytes[..4 * (|bytes| / 4)]
    ensures |bytes| % 4 == 0 ==> played == bytes
    ensures outcome == if bytes == [] then Halted(EndOfFile) else Closed(EndOfFile)
    ensures closes == if bytes == [] then 0 else 1
  {
    var file := Chunks(bytes);
    var trace;
    trace, outcome := Playback(file);
    TraceTransfers(file);
    CloseOnceReadOnce(file);
    PlaybackOfFile(bytes);
    ChunksStopAtEnd(bytes);
    played := Output(Transfers(trace));
    closes := Closes(trace);
  }
}
