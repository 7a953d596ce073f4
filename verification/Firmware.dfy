/**
  Firmware upload: the image with its header, sent in chunks to an erased flash,
  leaving out the chunks that an erased flash already holds.
*/
module Firmware {
  import opened Wrappers
  import opened Bytes
  import opened PacketCodec
  import Message

  const CHUNK_SIZE: nat := 384
  const HEADER_SIZE: nat := 6
  const ERASED: byte := 255
  const LZSS_MARK: bv8 := 0xCC

  // ----- the image -----------------------------------------------------------------

  /** The size in four bytes; the mark of a compressed image is OR-ed into the first. */
  function SizeBytes(size: nat, lzss: bool): (b: bytes)
    ensures |b| == 4
  {
    var b := ToBigEndian(4, size);
    if lzss then [(b[0] as bv8 | LZSS_MARK) as byte] + b[1..] else b
  }

  function Image(crc: Checker, firmware: bytes, lzss: bool): (image: bytes)
    ensures |image| == |firmware| + HEADER_SIZE
  {
    SizeBytes(|firmware|, lzss) + U16Bytes(crc(firmware)) + firmware
  }

  /** The size can be read back from the header: from all four bytes, or from the
      last three of a compressed image that fits them. */
  lemma SizeReadsBack(size: nat)
    ensures size < Span(4) ==> FromBigEndian(SizeBytes(size, false)) == size
    ensures size < Span(3) ==> SizeBytes(size, true)[0] == 0xCC && FromBigEndian(SizeBytes(size, true)[1..]) == size
    ensures SizeBytes(size, true)[1..] == SizeBytes(size, false)[1..]
    ensures SizeBytes(size, true)[0] as bv8 == SizeBytes(size, false)[0] as bv8 | 0xCC
  {
    if size < Span(4) {
      BigEndianRoundTrip(4, size);
    }
    if size < Span(3) {
      TopByteZero(size);
      BigEndianRoundTrip(3, size);
    }
  }

  /** What a reader of the image finds: the checksum behind the size, and the firmware
      behind both. */
  lemma ImageReadsBack(crc: Checker, firmware: bytes, lzss: bool)
    ensures var image := Image(crc, firmware, lzss);
      && image[..4] == SizeBytes(|firmware|, lzss)
      && U16(image[4], image[5]) == crc(firmware)
      && image[HEADER_SIZE..] == firmware
  {
    var size, sum := SizeBytes(|firmware|, lzss), U16Bytes(crc(firmware));
    var image := Image(crc, firmware, lzss);
    assert image == size + sum + firmware;
    assert image[4] == sum[0] && image[5] == sum[1];
  }

  lemma {:induction false} TopByteZero(size: nat)
    requires size < Span(3)
    ensures ToBigEndian(4, size) == [0] + ToBigEndian(3, size)
  {
    assert Span(3) == 256 * 256 * 256;
    assert ToBigEndian(4, size) == ToBigEndian(3, size / 256) + [size % 256];
    assert ToBigEndian(3, size / 256) == ToBigEndian(2, size / 256 / 256) + [size / 256 % 256];
    assert ToBigEndian(2, size / 256 / 256) == ToBigEndian(1, size / 256 / 256 / 256) + [size / 256 / 256 % 256];
    assert ToBigEndian(1, 0) == ToBigEndian(0, 0) + [0];
    assert ToBigEndian(3, size) == ToBigEndian(2, size / 256) + [size % 256];
    assert ToBigEndian(2, size / 256) == ToBigEndian(1, size / 256 / 256) + [size / 256 % 256];
    assert ToBigEndian(1, size / 256 / 256) == ToBigEndian(0, 0) + [size / 256 / 256 % 256];
  }

  // ----- what the flash holds ------------------------------------------------------------

  predicate AllErased(b: bytes) {
    forall i :: 0 <= i < |b| ==> b[i] == ERASED
  }

  function ChunkAt(image: bytes, off: nat): (c: bytes)
    requires off <= |image|
    ensures |c| <= CHUNK_SIZE && (off < |image| ==> c != [])
  {
    if off + CHUNK_SIZE <= |image| then image[off..off + CHUNK_SIZE] else image[off..]
  }

  /** How many chunks n bytes take: n / CHUNK_SIZE, rounded up. */
  function ChunkCount(n: nat): nat {
    (n + 383) / 384
  }

  /** Where chunk k starts. */
  function Offset(k: nat): nat {
    if k == 0 then 0 else Offset(k - 1) + CHUNK_SIZE
  }

  lemma {:induction false} OffsetIs(k: nat)
    ensures Offset(k) == 384 * k
    decreases k
  {
    if k > 0 {
      OffsetIs(k - 1);
    }
  }

  /** The flash after writing a packet at off. */
  function Written(flash: bytes, off: nat, packet: bytes): (r: bytes)
    requires off + |packet| <= |flash|
    ensures |r| == |flash|
  {
    flash[..off] + packet + flash[off + |packet|..]
  }

  /** Room for every packet of n bytes from off on, the last one padded to full size. */
  predicate Fits(capacity: nat, n: nat, off: nat)
    decreases if off >= n then 0 else n - off
  {
    off >= n || (off + CHUNK_SIZE <= capacity && Fits(capacity, n, off + CHUNK_SIZE))
  }

  lemma CountNext(n: nat, off: nat)
    requires off < n
    ensures ChunkCount(n - off) == 1 + if off + CHUNK_SIZE >= n then 0 else ChunkCount(n - off - CHUNK_SIZE)
  {
  }

  /** That is room for all chunks. */
  lemma {:induction false} FitsIff(capacity: nat, n: nat, off: nat)
    requires off < n
    ensures Fits(capacity, n, off) <==> off + Offset(ChunkCount(n - off)) <= capacity
    decreases n - off
  {
    CountNext(n, off);
    if off + CHUNK_SIZE < n {
      FitsIff(capacity, n, off + CHUNK_SIZE);
    }
  }

  /** The packet that carries the chunk at off; the message pads it with zeros. */
  function PacketAt(image: bytes, off: nat): (p: bytes)
    requires off <= |image|
    ensures |p| == CHUNK_SIZE
  {
    Message.Fit(ChunkAt(image, off), CHUNK_SIZE)
  }

  function Step(flash: bytes, image: bytes, off: nat, skip: bool): (r: bytes)
    requires off < |image| && off + CHUNK_SIZE <= |flash|
    ensures |r| == |flash|
  {
    if skip && AllErased(ChunkAt(image, off)) then flash else Written(flash, off, PacketAt(image, off))
  }

  /** The flash after the chunks from off on, with or without leaving out the blank ones. */
  function Uploaded(flash: bytes, image: bytes, off: nat, skip: bool): (r: bytes)
    requires Fits(|flash|, |image|, off)
    ensures |r| == |flash|
    decreases if off >= |image| then 0 else |image| - off
  {
    if off >= |image| then flash
    else
      Uploaded(Step(flash, image, off, skip), image, off + CHUNK_SIZE, skip)
  }

  /** The flash holds the image up to off and is erased behind it. */
  predicate HoldsUpTo(flash: bytes, image: bytes, off: nat) {
    && (forall i :: 0 <= i < |flash| && i < |image| && i < off ==> flash[i] == image[i])
    && (forall i :: off <= i < |flash| ==> flash[i] == ERASED)
  }

  lemma StepHolds(flash: bytes, image: bytes, off: nat, skip: bool)
    requires off < |image| && off + CHUNK_SIZE <= |flash| && HoldsUpTo(flash, image, off)
    ensures HoldsUpTo(Step(flash, image, off, skip), image, off + CHUNK_SIZE)
  {
    var c := ChunkAt(image, off);
    assert forall i :: off <= i < off + |c| ==> c[i - off] == image[i];
    assert off + |c| < off + CHUNK_SIZE ==> off + |c| == |image|;
  }

  lemma {:induction false} UploadedHolds(flash: bytes, image: bytes, off: nat, skip: bool)
    requires Fits(|flash|, |image|, off) && HoldsUpTo(flash, image, off)
    ensures off < |image| ==> |image| <= |flash|
    ensures off < |image| ==> Uploaded(flash, image, off, skip)[..|image|] == image
    decreases if off >= |image| then 0 else |image| - off
  {
    if off < |image| {
      StepHolds(flash, image, off, skip);
      var next := Step(flash, image, off, skip);
      if off + CHUNK_SIZE < |image| {
        UploadedHolds(next, image, off + CHUNK_SIZE, skip);
      } else {
        assert Uploaded(flash, image, off, skip) == next;
      }
    }
  }

  /** Nothing is touched behind the last packet. */
  lemma {:induction false} UploadedBehind(flash: bytes, image: bytes, off: nat, skip: bool, i: nat)
    requires Fits(|flash|, |image|, off) && off < |image|
    requires off + Offset(ChunkCount(|image| - off)) <= i < |flash|
    ensures Uploaded(flash, image, off, skip)[i] == flash[i]
    decreases |image| - off
  {
    CountNext(|image|, off);
    var next := Step(flash, image, off, skip);
    assert next[i] == flash[i];
    if off + CHUNK_SIZE < |image| {
      UploadedBehind(next, image, off + CHUNK_SIZE, skip, i);
    } else {
      assert Uploaded(flash, image, off, skip) == next;
    }
  }

  function Blank(capacity: nat): bytes {
    seq(capacity, _ => ERASED)
  }

  lemma {:induction false} WholeImage(capacity: nat, image: bytes, skip: bool)
    requires image != [] && Fits(capacity, |image|, 0)
    ensures |image| <= capacity && Uploaded(Blank(capacity), image, 0, skip)[..|image|] == image
  {
    UploadedHolds(Blank(capacity), image, 0, skip);
  }

  lemma {:induction false} RestErased(capacity: nat, image: bytes, tail: nat)
    requires image != [] && Fits(capacity, |image|, 0) && tail == Offset(ChunkCount(|image|)) <= capacity
    ensures AllErased(Uploaded(Blank(capacity), image, 0, true)[tail..])
  {
    var r := Uploaded(Blank(capacity), image, 0, true);
    forall i | tail <= i < capacity
      ensures r[i] == ERASED
    {
      UploadedBehind(Blank(capacity), image, 0, true, i);
    }
  }

  /** From an erased flash, leaving out blank chunks loses nothing: the image is
      there in full, as it is when every chunk is written, and nothing is touched
      behind the last packet. */
  lemma {:induction false} SkippingIsSafe(capacity: nat, image: bytes)
    requires image != [] && Fits(capacity, |image|, 0)
    ensures |image| <= capacity && Offset(ChunkCount(|image|)) <= capacity
    ensures Uploaded(Blank(capacity), image, 0, true)[..|image|] == image
    ensures Uploaded(Blank(capacity), image, 0, false)[..|image|] == image
    ensures AllErased(Uploaded(Blank(capacity), image, 0, true)[Offset(ChunkCount(|image|))..])
  {
    FitsIff(capacity, |image|, 0);
    WholeImage(capacity, image, true);
    WholeImage(capacity, image, false);
    RestErased(capacity, image, Offset(ChunkCount(|image|)));
  }

  // ----- the uploader -----------------------------------------------------------------------

  class Firmware {
    var fwBytes: bytes
    var originalSize: nat
    var size: nat
    var chunk: Option<bytes>
    const lzss: bool

    /** load. */
    constructor (file: bytes, lzss: bool)
      ensures fwBytes == file && originalSize == size == |file| && chunk == None && this.lzss == lzss
    {
      fwBytes, originalSize, size, chunk, this.lzss := file, |file|, |file|, None, lzss;
    }

    /** Puts the header in front. The size field keeps counting the firmware alone.
        A size that needs more than four bytes overflows. */
    method Process(crc: Checker) returns (ok: bool)
      requires size == |fwBytes|
      modifies `fwBytes
      ensures ok <==> size < Span(4)
      ensures fwBytes == if ok then Image(crc, old(fwBytes), lzss) else old(fwBytes)
    {
      assert Span(4) == 0x1_0000_0000;
      if size >= 0x1_0000_0000 {
        return false;
      }
      var header := SizeBytes(size, lzss) + U16Bytes(crc(fwBytes));
      fwBytes := header + fwBytes;
      ok := true;
    }

    method GetNextChunk() returns (c: bytes)
      modifies `chunk
      ensures c == ChunkAt(fwBytes, 0) && chunk == Some(c)
    {
      c := if |fwBytes| >= CHUNK_SIZE then fwBytes[..CHUNK_SIZE] else fwBytes;
      chunk := Some(c);
    }

    method ClearChunk()
      modifies `fwBytes, `size, `chunk
      ensures chunk == None && size == |fwBytes|
      ensures fwBytes == if |old(fwBytes)| >= CHUNK_SIZE then old(fwBytes)[CHUNK_SIZE..] else []
    {
      chunk := None;
      fwBytes := if |fwBytes| >= CHUNK_SIZE then fwBytes[CHUNK_SIZE..] else [];
      size := |fwBytes|;
    }
  }

  /** What the bootloader does with an erase command that it acknowledges. */
  method EraseNewApp(flash: array<byte>)
    modifies flash
    ensures flash[..] == Blank(flash.Length)
  {
    for i := 0 to flash.Length
      invariant forall k :: 0 <= k < i ==> flash[k] == ERASED
    {
      flash[i] := ERASED;
    }
  }

  /** What the bootloader does with a write it acknowledges. */
  method WriteNewAppData(flash: array<byte>, off: nat, data: bytes)
    requires off + CHUNK_SIZE <= flash.Length
    modifies flash
    ensures flash[..] == Written(old(flash[..]), off, Message.Fit(data, CHUNK_SIZE))
    ensures forall i :: 0 <= i < CHUNK_SIZE ==> flash[off + i] == if i < |data| then data[i] else 0
    ensures forall i :: 0 <= i < flash.Length && !(off <= i < off + CHUNK_SIZE) ==> flash[i] == old(flash[i])
  {
    var packet := Message.Fit(data, CHUNK_SIZE);
    for i := 0 to CHUNK_SIZE
      invariant flash[..] == Written(old(flash[..]), off, packet[..i])
    {
      flash[off + i] := packet[i];
      assert packet[..i + 1] == packet[..i] + [packet[i]];
    }
    assert packet[..CHUNK_SIZE] == packet;
  }

  method HasData(chunk: bytes) returns (hasData: bool)
    ensures hasData <==> !AllErased(chunk)
  {
    for i := 0 to |chunk|
      invariant forall k :: 0 <= k < i ==> chunk[k] == ERASED
    {
      if chunk[i] != ERASED {
        return true;
      }
    }
    hasData := false;
  }

  function Rest(image: bytes, off: nat): bytes {
    if off < |image| then image[off..] else []
  }

  lemma RestChunk(image: bytes, off: nat)
    requires off < |image|
    ensures ChunkAt(Rest(image, off), 0) == ChunkAt(image, off)
    ensures Rest(Rest(image, off), CHUNK_SIZE) == Rest(image, off + CHUNK_SIZE)
  {
  }

  /** One pass of the upload loop: send the next chunk unless it is blank, and drop
      it from the firmware; a refused chunk stays, and stores nothing. */
  method SendNextChunk(fw: Firmware, flash: array<byte>, off: nat, ack: bool, ghost image: bytes)
      returns (sent: bool, ok: bool)
    requires off < |image| && off + CHUNK_SIZE <= flash.Length && fw.fwBytes == Rest(image, off)
    modifies fw, flash
    ensures sent <==> NeedsWrite(image, off)
    ensures ok <==> !sent || ack
    ensures flash[..] == if ok then Step(old(flash[..]), image, off, true) else old(flash[..])
    ensures ok ==> fw.fwBytes == Rest(image, off + CHUNK_SIZE) && fw.size == |fw.fwBytes|
  {
    var fwChunk := fw.GetNextChunk();
    RestChunk(image, off);
    var hasData := HasData(fwChunk);
    if hasData {
      if !ack {
        return true, false;
      }
      WriteNewAppData(flash, off, fwChunk);
    }
    fw.ClearChunk();
    return hasData, true;
  }

  /** The chunk at off is not blank, and so it is written. */
  predicate NeedsWrite(image: bytes, off: nat) {
    off < |image| && !AllErased(ChunkAt(image, off))
  }

  lemma {:induction false} UploadedKeeps(flash: bytes, image: bytes, off: nat, skip: bool)
    requires Fits(|flash|, |image|, off) && off <= |flash|
    ensures Uploaded(flash, image, off, skip)[..off] == flash[..off]
    decreases if off >= |image| then 0 else |image| - off
  {
    if off < |image| {
      var next := Step(flash, image, off, skip);
      UploadedKeeps(next, image, off + CHUNK_SIZE, skip);
      var whole := Uploaded(flash, image, off, skip);
      assert whole[..off] == whole[..off + CHUNK_SIZE][..off] == next[..off + CHUNK_SIZE][..off] == next[..off];
      assert next[..off] == flash[..off];
    }
  }

  /** There are k chunks, and room for them. */
  predicate HasChunks(capacity: nat, n: nat, k: nat) {
    k == 0 || (Offset(k - 1) < n && Offset(k) <= capacity)
  }

  lemma {:induction false} AllChunksCounted(capacity: nat, n: nat, k: nat)
    requires k > 0 && HasChunks(capacity, n, k) && Offset(k) >= n
    ensures k == ChunkCount(n)
  {
    OffsetIs(k);
    OffsetIs(k - 1);
  }

  lemma {:induction false} FitsAfter(capacity: nat, n: nat, k: nat)
    requires Fits(capacity, n, 0) && (k == 0 || Offset(k - 1) < n)
    ensures Fits(capacity, n, Offset(k)) && HasChunks(capacity, n, k)
    decreases k
  {
    if k > 0 {
      FitsAfter(capacity, n, k - 1);
      FitsStep(capacity, n, Offset(k - 1), Offset(k));
    }
  }

  lemma {:induction false} FitsStep(capacity: nat, n: nat, off: nat, next: nat)
    requires off < n && next == off + CHUNK_SIZE && Fits(capacity, n, off)
    ensures next <= capacity && Fits(capacity, n, next)
  {
  }

  /** The flash after the first k chunks of an upload. */
  function UploadedTo(flash: bytes, image: bytes, k: nat): (r: bytes)
    requires HasChunks(|flash|, |image|, k)
    ensures |r| == |flash|
  {
    if k == 0 then flash else Step(UploadedTo(flash, image, k - 1), image, Offset(k - 1), true)
  }

  lemma {:induction false} UploadedNext(flash: bytes, image: bytes, off: nat, next: nat)
    requires off < |image| && next == off + CHUNK_SIZE && Fits(|flash|, |image|, off)
    ensures next <= |flash| && Fits(|flash|, |image|, next)
    ensures Uploaded(flash, image, off, true) == Uploaded(Step(flash, image, off, true), image, next, true)
  {
  }

  /** What is left of the upload completes it. */
  lemma {:induction false} Completed(flash: bytes, image: bytes, k: nat)
    requires Fits(|flash|, |image|, 0) && HasChunks(|flash|, |image|, k)
    ensures Fits(|flash|, |image|, Offset(k))
    ensures Uploaded(UploadedTo(flash, image, k), image, Offset(k), true) == Uploaded(flash, image, 0, true)
    decreases k
  {
    FitsAfter(|flash|, |image|, k);
    if k > 0 {
      Completed(flash, image, k - 1);
      UploadedNext(UploadedTo(flash, image, k - 1), image, Offset(k - 1), Offset(k));
    }
  }

  /** All chunks make the whole upload. */
  lemma {:induction false} AllChunks(flash: bytes, image: bytes, k: nat)
    requires Fits(|flash|, |image|, 0) && HasChunks(|flash|, |image|, k) && Offset(k) >= |image|
    ensures UploadedTo(flash, image, k) == Uploaded(flash, image, 0, true)
  {
    Completed(flash, image, k);
  }

  /** Where an upload stands after its first chunks: what the whole upload puts there
      is there, and nothing behind them has changed. */
  lemma {:induction false} StandsAfter(flash: bytes, image: bytes, k: nat)
    requires Fits(|flash|, |image|, 0) && HasChunks(|flash|, |image|, k)
    ensures var r, off := UploadedTo(flash, image, k), Offset(k);
      r[..off] == Uploaded(flash, image, 0, true)[..off] && r[off..] == flash[off..]
  {
    Completed(flash, image, k);
    UploadedKeeps(UploadedTo(flash, image, k), image, Offset(k), true);
    UntouchedBehind(flash, image, k);
  }

  lemma StepBehind(flash: bytes, image: bytes, off: nat, next: nat)
    requires off < |image| && next == off + CHUNK_SIZE <= |flash|
    ensures Step(flash, image, off, true)[next..] == flash[next..]
  {
  }

  lemma {:induction false} UntouchedBehind(flash: bytes, image: bytes, k: nat)
    requires HasChunks(|flash|, |image|, k)
    ensures UploadedTo(flash, image, k)[Offset(k)..] == flash[Offset(k)..]
    decreases k
  {
    if k > 0 {
      UntouchedBehind(flash, image, k - 1);
      var r, off, next := UploadedTo(flash, image, k - 1), Offset(k - 1), Offset(k);
      StepBehind(r, image, off, next);
      assert r[next..] == r[off..][CHUNK_SIZE..] == flash[off..][CHUNK_SIZE..] == flash[next..];
    }
  }

  /** How the bootloader answers the write at an offset. */
  type Answers = nat -> bool

  /** Chunk k is written and refused; a blank one is never written. */
  predicate Refused(image: bytes, answers: Answers, k: nat) {
    NeedsWrite(image, Offset(k)) && !answers(Offset(k))
  }

  predicate Accepted(image: bytes, answers: Answers, k: nat) {
    forall j: nat :: j < k ==> !Refused(image, answers, j)
  }

  lemma AcceptedNext(image: bytes, answers: Answers, k: nat)
    requires Accepted(image, answers, k) && !Refused(image, answers, k)
    ensures Accepted(image, answers, k + 1)
  {
    forall j: nat | j < k + 1
      ensures !Refused(image, answers, j)
    {
      if j < k {
        assert !Refused(image, answers, j);
      }
    }
  }

  /** update_firmware on a firmware that was processed. Without the erase nothing happens.
      The first refusal ends the loop, with the flash as it was after the chunks before.
      Without one it ends after ceil((n + 6) / 384) chunks; a firmware of no bytes writes
      nothing, not even its header. */
  method UpdateFirmware(fw: Firmware, flash: array<byte>, erases: bool, answers: Answers, ghost image: bytes)
      returns (ok: bool, ghost chunks: nat)
    requires fw.fwBytes == image && |image| == fw.size + HEADER_SIZE
    requires Fits(flash.Length, |image|, 0)
    modifies fw, flash
    ensures HasChunks(flash.Length, |image|, chunks)
    ensures !erases ==> !ok && chunks == 0 && flash[..] == old(flash[..]) && fw.fwBytes == image
    ensures erases ==> flash[..] == UploadedTo(Blank(flash.Length), image, chunks)
    ensures Accepted(image, answers, chunks)
    ensures ok ==> chunks == (if old(fw.size) > 0 then ChunkCount(|image|) else 0)
    ensures erases && old(fw.size) == 0 ==> ok
    ensures ok && old(fw.size) > 0 ==> Offset(chunks) >= |image| && fw.fwBytes == [] && fw.size == 0
    ensures erases && !ok ==> Offset(chunks) < |image| && Refused(image, answers, chunks)
  {
    var offset: nat := 0;
    chunks := 0;
    if !erases {
      return false, 0;
    }
    EraseNewApp(flash);
    while fw.size > 0
      invariant offset == Offset(chunks) && HasChunks(flash.Length, |image|, chunks)
      invariant fw.fwBytes == Rest(image, offset)
      invariant fw.size == if chunks == 0 then old(fw.size) else |fw.fwBytes|
      invariant chunks > 0 ==> old(fw.size) > 0
      invariant flash[..] == UploadedTo(Blank(flash.Length), image, chunks)
      invariant Accepted(image, answers, chunks)
      decreases |fw.fwBytes|
    {
      FitsAfter(flash.Length, |image|, chunks + 1);
      var sent, stored := SendNextChunk(fw, flash, offset, answers(offset), image);
      if !stored {
        return false, chunks;
      }
      AcceptedNext(image, answers, chunks);
      offset := offset + CHUNK_SIZE;
      chunks := chunks + 1;
    }
    if chunks > 0 {
      AllChunksCounted(flash.Length, |image|, chunks);
    }
    ok := true;
  }

  lemma EmptyImageMissing(crc: Checker, flash: bytes, lzss: bool)
    requires AllErased(flash) && |flash| >= HEADER_SIZE
    ensures flash[..HEADER_SIZE] != Image(crc, [], lzss)
  {
    SizeReadsBack(0);
    assert SizeBytes(0, lzss)[0] != ERASED by {
      TopByteZero(0);
    }
    assert Image(crc, [], lzss)[0] == SizeBytes(0, lzss)[0];
    assert flash[..HEADER_SIZE][0] == ERASED;
  }

  lemma {:induction false} FileArrives(before: bytes, image: bytes, k: nat)
    requires AllErased(before) && image != [] && Fits(|before|, |image|, 0)
    requires HasChunks(|before|, |image|, k) && Offset(k) >= |image|
    ensures |image| <= |before| && UploadedTo(before, image, k)[..|image|] == image
  {
    AllChunks(before, image, k);
    UploadedHolds(before, image, 0, true);
  }

  lemma {:induction false} RefusedIsCounted(image: bytes, answers: Answers, k: nat)
    requires Offset(k) < |image| && Refused(image, answers, k)
    ensures !Accepted(image, answers, ChunkCount(|image|))
  {
    OffsetIs(k);
  }

  /** A refused chunk is missing: the flash behind the chunks before it is still erased. */
  lemma {:induction false} RefusedIsMissing(before: bytes, image: bytes, k: nat)
    requires AllErased(before) && HasChunks(|before|, |image|, k) && |image| <= |before|
    requires NeedsWrite(image, Offset(k))
    ensures UploadedTo(before, image, k)[..|image|] != image
  {
    var r, off := UploadedTo(before, image, k), Offset(k);
    var c := ChunkAt(image, off);
    var i :| 0 <= i < |c| && c[i] != ERASED;
    UntouchedBehind(before, image, k);
    assert r[off..][i] == before[off..][i] == ERASED;
    assert c[i] == image[off + i];
  }

  /** How many chunks an upload has to get through: none for an empty file. */
  function ChunksToSend(file: bytes): nat {
    if file == [] then 0 else ChunkCount(|file| + HEADER_SIZE)
  }

  /** Loading, processing and uploading a file, whatever the flash held. A file of 2^32
      bytes or more has no header and, like a refused erase, leaves the flash alone. After
      an erase the image is there exactly when no write was refused and there was at least
      one byte of firmware to send. */
  method UploadFile(crc: Checker, file: bytes, lzss: bool, flash: array<byte>, erases: bool, answers: Answers)
      returns (ok: bool)
    requires Fits(flash.Length, |file| + HEADER_SIZE, 0)
    modifies flash
    ensures |file| + HEADER_SIZE <= flash.Length
    ensures ok <==> |file| < Span(4) && erases && Accepted(Image(crc, file, lzss), answers, ChunksToSend(file))
    ensures |file| >= Span(4) || !erases ==> flash[..] == old(flash[..])
    ensures |file| < Span(4) && erases ==>
      (flash[..|file| + HEADER_SIZE] == Image(crc, file, lzss) <==> ok && file != [])
  {
    ghost var image, blank := Image(crc, file, lzss), Blank(flash.Length);
    UploadedHolds(blank, image, 0, true);
    var fw := new Firmware(file, lzss);
    ok := fw.Process(crc);
    if ok {
      ghost var chunks;
      ok, chunks := UpdateFirmware(fw, flash, erases, answers, image);
      if ok && file == [] {
        EmptyImageMissing(crc, blank, lzss);
      } else if ok {
        FileArrives(blank, image, chunks);
      } else if erases {
        RefusedIsCounted(image, answers, chunks);
        RefusedIsMissing(blank, image, chunks);
      }
    }
  }
}
