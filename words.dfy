/** Bytes, 32-bit words and the sizes the playback scheduler works with.

    The two playback buffers are byte arrays of BUFFER_SIZE bytes, but the
    transfer engine is programmed for 32-bit transfers, so it moves whole
    words read from memory in little-endian order (the processor's byte
    order), four bytes per word. This module defines that packing and
    proves it loses nothing. The word size is written as the literal 4
    throughout, which keeps the arithmetic linear for the verifier.
 */
module Words {

  /** Size in bytes of each playback buffer, and of every read request. */
  const BUFFER_SIZE: nat := 4096

  type byte = x: int | 0 <= x < 0x100

  type word = x: int | 0 <= x < 0x1_0000_0000

  /** The transfer count the scheduler programs for a block of n bytes:
      the number of whole words in it. The rest is never transferred. */
  function WordCount(n: nat): (w: nat)
    ensures 4 * w <= n < 4 * w + 4
    ensures n <= BUFFER_SIZE ==> w <= BUFFER_SIZE / 4
  {
    n / 4
  }

  /** The part of a block the transfer engine sends: its whole words. */
  function Truncate(data: seq<byte>): (t: seq<byte>)
    ensures |t| % 4 == 0 && |t| <= |data| < |t| + 4
  {
    data[..4 * WordCount(|data|)]
  }

  /** The word a 32-bit read sees at four consecutive bytes b0..b3. */
  function LittleEndian(b0: byte, b1: byte, b2: byte, b3: byte): word
  {
    b0 + 0x100 * (b1 + 0x100 * (b2 + 0x100 * b3))
  }

  /** The four bytes of a word, lowest address first. */
  function BytesOf(w: word): (bs: seq<byte>)
    ensures |bs| == 4
    ensures LittleEndian(bs[0], bs[1], bs[2], bs[3]) == w
  {
    var b0, r0 := w % 0x100, w / 0x100;
    var b1, r1 := r0 % 0x100, r0 / 0x100;
    var b2, b3 := r1 % 0x100, r1 / 0x100;
    [b0, b1, b2, b3]
  }

  lemma SplitByte(lo: byte, hi: nat)
    ensures (lo + 0x100 * hi) % 0x100 == lo
    ensures (lo + 0x100 * hi) / 0x100 == hi
  {
  }

  /** Unpacking a packed word gives back its bytes. */
  lemma BytesOfLittleEndian(b0: byte, b1: byte, b2: byte, b3: byte)
    ensures BytesOf(LittleEndian(b0, b1, b2, b3)) == [b0, b1, b2, b3]
  {
    SplitByte(b0, b1 + 0x100 * (b2 + 0x100 * b3));
    SplitByte(b1, b2 + 0x100 * b3);
    SplitByte(b2, b3);
  }

  /** The words a 32-bit transfer reads from a byte region of whole words. */
  function Pack(bytes: seq<byte>): (ws: seq<word>)
    requires |bytes| % 4 == 0
    ensures 4 * |ws| == |bytes|
    decreases |bytes|
  {
    if |bytes| == 0 then []
    else [LittleEndian(bytes[0], bytes[1], bytes[2], bytes[3])] + Pack(bytes[4..])
  }

  /** The bytes a sequence of words carries, in transfer order. */
  function Unpack(ws: seq<word>): (bytes: seq<byte>)
    ensures |bytes| == 4 * |ws|
  {
    if ws == [] then [] else BytesOf(ws[0]) + Unpack(ws[1..])
  }

  /** Packing then unpacking a region of whole words reproduces it. */
  lemma {:induction false} UnpackPack(bytes: seq<byte>)
    requires |bytes| % 4 == 0
    ensures Unpack(Pack(bytes)) == bytes
    decreases |bytes|
  {
    if |bytes| > 0 {
      var rest := bytes[4..];
      UnpackPack(rest);
      BytesOfLittleEndian(bytes[0], bytes[1], bytes[2], bytes[3]);
      assert Pack(bytes)[1..] == Pack(rest);
      assert bytes == bytes[..4] + rest;
    }
  }

  /** Unpacking then packing words reproduces them. */
  lemma {:induction false} PackUnpack(ws: seq<word>)
    ensures Pack(Unpack(ws)) == ws
  {
    if ws != [] {
      PackUnpack(ws[1..]);
      var bs := Unpack(ws);
      assert bs[4..] == Unpack(ws[1..]);
      assert ws == [ws[0]] + ws[1..];
    }
  }

  /** Unpacking distributes over concatenation of word sequences. */
  lemma {:induction false} UnpackAppend(a: seq<word>, b: seq<word>)
    ensures Unpack(a + b) == Unpack(a) + Unpack(b)
  {
    if a == [] {
      assert a + b == b;
    } else {
      var ab := a + b;
      assert ab[0] == a[0] && ab[1..] == a[1..] + b;
      UnpackAppend(a[1..], b);
      calc {
        Unpack(ab);
        BytesOf(a[0]) + Unpack(a[1..] + b);
        BytesOf(a[0]) + (Unpack(a[1..]) + Unpack(b));
        (BytesOf(a[0]) + Unpack(a[1..])) + Unpack(b);
      }
    }
  }
}
