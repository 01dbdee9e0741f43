/** The block source: the audio file as the scheduler sees it, one read of
    BUFFER_SIZE bytes at a time.

    The file system is not modelled. A file is the sequence of results its
    successive reads return; once that sequence is used up, every further
    read succeeds with zero bytes (end of file).
 */
module BlockSource {
  import opened Words

  /** What one read of BUFFER_SIZE bytes into a buffer returns. */
  datatype ReadResult =
    | Read(data: seq<byte>)                  // success; |data| is the byte count, 0 at end of file
    | Failed(code: nat, stored: seq<byte>)   // a failure code, and whatever bytes reached the buffer first
  {
    /** The bytes the read leaves at the front of its destination buffer. */
    function Stored(): seq<byte>
    {
      if Read? then data else stored
    }

    /** Whether the scheduler stops at this read: on a failure, or on zero bytes. */
    predicate Stops()
    {
      Failed? || |data| == 0
    }
  }

  /** Why streaming ended. */
  datatype Stop = EndOfFile | ReadError(code: nat)

  function StopOf(r: ReadResult): (s: Stop)
    requires r.Stops()
    ensures s.ReadError? <==> r.Failed?
  {
    if r.Failed? then ReadError(r.code) else EndOfFile
  }

  /** Result code 0 is success; a read never stores more than it was asked for. */
  ghost predicate WellFormed(file: seq<ReadResult>)
  {
    forall i :: 0 <= i < |file| ==>
      |file[i].Stored()| <= BUFFER_SIZE && (file[i].Failed? ==> file[i].code != 0)
  }

  /** The result of the i-th read of the file (counting from 0). */
  function ReadAt(file: seq<ReadResult>, i: nat): (r: ReadResult)
    ensures i >= |file| ==> r == Read([])
  {
    if i < |file| then file[i] else Read([])
  }

  /** No read of a well-formed file stores more than a buffer holds. */
  lemma ReadFits(file: seq<ReadResult>, i: nat)
    requires WellFormed(file)
    ensures |ReadAt(file, i).Stored()| <= BUFFER_SIZE
  {
  }

  /** The index of the read at which streaming stops: the first failure or
      empty read. The reads before it all deliver data. */
  function FirstStop(file: seq<ReadResult>): (k: nat)
    ensures k <= |file|
    ensures ReadAt(file, k).Stops()
    ensures forall i :: 0 <= i < k ==> !file[i].Stops()
  {
    if file == [] || file[0].Stops() then 0 else 1 + FirstStop(file[1..])
  }

  /** The bytes a sequence of reads leaves in the buffers, concatenated in
      read order. */
  function Contents(file: seq<ReadResult>): seq<byte>
  {
    if file == [] then [] else file[0].Stored() + Contents(file[1..])
  }

  /** The reads a healthy file holding `bytes` returns: full blocks of
      BUFFER_SIZE bytes, then the remainder if there is one. Together they
      hold the file's bytes in order. */
  function Chunks(bytes: seq<byte>): (file: seq<ReadResult>)
    ensures WellFormed(file)
    ensures forall i :: 0 <= i < |file| ==> file[i].Read? && |file[i].data| > 0
    ensures forall i :: 0 <= i < |file| - 1 ==> |file[i].data| == BUFFER_SIZE
    ensures Contents(file) == bytes
    decreases |bytes|
  {
    if bytes == [] then []
    else if |bytes| <= BUFFER_SIZE then
      var file := [Read(bytes)];
      assert file[1..] == [];
      file
    else
      var rest := Chunks(bytes[BUFFER_SIZE..]);
      var file := [Read(bytes[..BUFFER_SIZE])] + rest;
      assert file[1..] == rest;
      assert bytes == bytes[..BUFFER_SIZE] + bytes[BUFFER_SIZE..];
      file
  }

  /** A healthy file plays to its end: streaming stops only at end of file. */
  lemma ChunksStopAtEnd(bytes: seq<byte>)
    ensures FirstStop(Chunks(bytes)) == |Chunks(bytes)|
    ensures StopOf(ReadAt(Chunks(bytes), |Chunks(bytes)|)) == EndOfFile
  {
  }
}
