/**
 * How an input stream hands AAC frames to higher layers: a tag, a 16-bit frame count and then
 * each frame behind its 16-bit size, packed into the caller's buffer as the driver delivers.
 */
module AacFrames {
  import opened Basics
  import opened Words

  /** `0x51434F4D`, little-endian. */
  const TAG: seq<byte> := [0x4D, 0x4F, 0x43, 0x51]

  /** A value stored in a `uint16_t`, little-endian. */
  function U16(n: nat): (s: seq<byte>)
    ensures |s| == 2
  {
    [n % 0x100, n / 0x100 % 0x100]
  }

  function FromU16(s: seq<byte>): nat
    requires |s| == 2
  {
    var high: nat := s[1];
    s[0] + 0x100 * high
  }

  // ----- The format -----

  function Frames(chunks: seq<seq<byte>>): seq<byte> {
    if chunks == [] then []
    else
      var last := chunks[|chunks| - 1];
      Frames(chunks[..|chunks| - 1]) + (U16(|last|) + last)
  }

  function Packed(chunks: seq<seq<byte>>): seq<byte> {
    TAG + U16(|chunks|) + Frames(chunks)
  }

  /** A reader: `n` frames, each as long as its size says. */
  function ParseFrames(n: nat, s: seq<byte>): Option<seq<seq<byte>>> {
    if n == 0 then Some([])
    else if |s| < 2 || |s| < 2 + FromU16(s[..2]) then None
    else
      var end := 2 + FromU16(s[..2]);
      match ParseFrames(n - 1, s[end..])
      case None => None
      case Some(rest) => Some([s[2..end]] + rest)
  }

  function Parse(s: seq<byte>): Option<seq<seq<byte>>> {
    if |s| < 6 || s[..4] != TAG then None else ParseFrames(FromU16(s[4..6]), s[6..])
  }

  // ----- Reading from the driver -----

  /**
   * What the reads of one call return: each takes what the driver has next, cut to the room
   * left after a size field. It stops when there is no room or nothing to read, and after the
   * stream's very first read.
   */
  function Chunks(room: int, firstRead: bool, driver: seq<seq<byte>>): seq<seq<byte>>
    decreases |driver|
  {
    if room <= 2 || driver == [] || driver[0] == [] then []
    else
      var c := Cut(driver[0], room - 2);
      [c] + if firstRead then [] else Chunks(room - 2 - |c|, false, driver[1..])
  }

  function Cut(data: seq<byte>, room: nat): seq<byte> {
    if |data| > room then data[..room] else data
  }

  /** `s` with `data` written at an offset. */
  function Patch(s: seq<byte>, at: nat, data: seq<byte>): (r: seq<byte>)
    requires at + |data| <= |s|
    ensures |r| == |s|
  {
    s[..at] + data + s[at + |data|..]
  }

  method Write(buffer: array<byte>, at: nat, data: seq<byte>)
    requires at + |data| <= buffer.Length
    modifies buffer
    ensures buffer[..] == Patch(old(buffer[..]), at, data)
  {
    forall i | 0 <= i < |data| {
      buffer[at + i] := data[i];
    }
  }

  /** The stored frame count goes up. */
  method CountFrame(buffer: array<byte>, ghost n: nat)
    requires buffer.Length >= 6 && buffer[4..6] == U16(n)
    modifies buffer
    ensures buffer[..] == Patch(old(buffer[..]), 4, U16(n + 1))
  {
    U16Increment(n);
    Write(buffer, 4, U16(FromU16(buffer[4..6]) + 1));
  }

  /** The buffer is `was` with packed chunks over its first `p` bytes. */
  ghost predicate Holds(s: seq<byte>, was: seq<byte>, p: nat, chunks: seq<seq<byte>>) {
    p == |Packed(chunks)| <= |was| && s == Packed(chunks) + was[p..]
  }

  /** A frame goes behind the others: its data, then its size, then the new frame count. */
  method AddFrame(buffer: array<byte>, p: nat, data: seq<byte>, ghost was: seq<byte>, ghost chunks: seq<seq<byte>>)
    requires Holds(buffer[..], was, p, chunks) && p + 2 + |data| <= |was|
    modifies buffer
    ensures Holds(buffer[..], was, p + 2 + |data|, chunks + [data])
  {
    Write(buffer, p + 2, data);
    Write(buffer, p, U16(|data|));
    AddedFrame(chunks, was[p..], data);
    assert buffer[4..6] == buffer[..][4..6];
    CountFrame(buffer, |chunks|);
    assert was[p..][2 + |data|..] == was[p + 2 + |data|..];
  }

  method WriteHeader(buffer: array<byte>)
    requires buffer.Length >= 6
    modifies buffer
    ensures Holds(buffer[..], old(buffer[..]), 6, [])
  {
    Write(buffer, 0, TAG);
    Write(buffer, 4, U16(0));
  }

  /** Incrementing the stored count. */
  lemma U16Increment(n: nat)
    ensures U16(FromU16(U16(n)) + 1) == U16(n + 1)
  {
    var low, q := n % 0x100, n / 0x100;
    var high := q % 0x100;
    if low == 0xFF {
      assert n + 1 == 0x100 * (q + 1);
    } else {
      assert (n + 1) / 0x100 == q;
    }
  }

  /** The three writes on values. */
  lemma AddedFrame(chunks: seq<seq<byte>>, rest: seq<byte>, data: seq<byte>)
    requires 2 + |data| <= |rest|
    ensures var p, b0 := |Packed(chunks)|, Packed(chunks) + rest;
            var b2 := Patch(Patch(b0, p + 2, data), p, U16(|data|));
            && b2[4..6] == U16(|chunks|) && |Packed(chunks + [data])| == p + 2 + |data|
            && Patch(b2, 4, U16(|chunks| + 1)) == Packed(chunks + [data]) + rest[2 + |data|..]
  {
    var later, size, frames := rest[2 + |data|..], U16(|data|), Frames(chunks);
    var head := TAG + U16(|chunks|) + frames;
    assert Patch(head + rest, |head| + 2, data) == head + rest[..2] + data + later;
    assert Patch(head + rest[..2] + data + later, |head|, size) == head + size + data + later;
    assert (chunks + [data])[..|chunks|] == chunks;
    assert Frames(chunks + [data]) == frames + (size + data);
  }

  /**
   * The read of an AAC stream that is already recording. `firstRead` is whether the stream has
   * not read anything yet. Nothing is written past the packed frames, and unless the buffer is
   * too long for 16-bit sizes a reader gets from it exactly what the driver returned.
   */
  method Read(buffer: array<byte>, firstRead: bool, driver: seq<seq<byte>>) returns (size: nat)
    requires buffer.Length >= 6
    modifies buffer
    ensures size == buffer.Length
    ensures var chunks := Chunks(size - 6, firstRead, driver);
            Holds(buffer[..], old(buffer[..]), |Packed(chunks)|, chunks)
    ensures buffer[..][..4] == [0x4D, 0x4F, 0x43, 0x51]
    ensures size <= 65543 ==> GivesReads(buffer[..], firstRead, driver)
  {
    ghost var was := buffer[..];
    ReadFrames(buffer, firstRead, driver);
    size := buffer.Length;
    HeldReads(buffer[..], was, firstRead, driver);
  }

  /** The header, and the loop over the driver's reads. */
  method ReadFrames(buffer: array<byte>, firstRead: bool, driver: seq<seq<byte>>)
    requires buffer.Length >= 6
    modifies buffer
    ensures var chunks := Chunks(buffer.Length - 6, firstRead, driver);
            Holds(buffer[..], old(buffer[..]), |Packed(chunks)|, chunks)
  {
    ghost var was := buffer[..];
    WriteHeader(buffer);
    var p, count, next, done := 6, buffer.Length - 6, driver, false;
    ghost var chunks: seq<seq<byte>> := [];
    ghost var left := Chunks(count, firstRead, driver);
    while count > 0 && !done
      invariant 0 <= p && p + count == |was| && 0 <= count
      invariant Holds(buffer[..], was, p, chunks)
      invariant left == (if done then [] else Chunks(count, firstRead, next))
      invariant chunks + left == Chunks(|was| - 6, firstRead, driver)
      decreases !done, count
    {
      if count <= 2 || next == [] || next[0] == [] {
        break;
      }
      var data := Cut(next[0], count - 2);
      AddFrame(buffer, p, data, was, chunks);
      done, next, p, count := firstRead, next[1..], p + 2 + |data|, count - 2 - |data|;
      MoveFront(chunks, data, left);
      chunks, left := chunks + [data], left[1..];
    }
    assert left == [] && chunks == Chunks(|was| - 6, firstRead, driver);
  }

  lemma MoveFront(front: seq<seq<byte>>, c: seq<byte>, back: seq<seq<byte>>)
    requires back != [] && back[0] == c
    ensures front + back == front + [c] + back[1..]
  {
  }

  // ----- What the reader gets -----

  lemma U16Bytes(n: nat)
    requires n < 0x1_0000
    ensures U16(n) == [n % 0x100, n / 0x100]
  {
  }

  lemma U16RoundTrip(n: nat)
    requires n < 0x1_0000
    ensures FromU16(U16(n)) == n
  {
  }

  predicate Fits(chunks: seq<seq<byte>>) {
    forall i | 0 <= i < |chunks| :: |chunks[i]| < 0x1_0000
  }

  lemma {:induction false} FramesFront(chunks: seq<seq<byte>>)
    requires chunks != []
    ensures Frames(chunks) == U16(|chunks[0]|) + chunks[0] + Frames(chunks[1..])
  {
    var n := |chunks| - 1;
    var last := chunks[n];
    if n > 0 {
      FramesFront(chunks[..n]);
      assert chunks[..n][1..] == chunks[1..][..n - 1];
      var tail := Frames(chunks[1..][..n - 1]);
      assert Frames(chunks[1..]) == tail + (U16(|last|) + last);
      assert U16(|chunks[0]|) + chunks[0] + tail + (U16(|last|) + last)
          == U16(|chunks[0]|) + chunks[0] + (tail + (U16(|last|) + last));
    } else {
      assert Frames(chunks[..0]) == [] && Frames(chunks[1..]) == [];
    }
  }

  lemma {:induction false} ParseOfFrames(chunks: seq<seq<byte>>, junk: seq<byte>)
    requires Fits(chunks)
    ensures ParseFrames(|chunks|, Frames(chunks) + junk) == Some(chunks)
  {
    if chunks != [] {
      var c, rest := chunks[0], chunks[1..];
      FramesFront(chunks);
      U16RoundTrip(|c|);
      var s, size, later := Frames(chunks) + junk, U16(|c|), Frames(rest) + junk;
      assert s == size + c + later;
      assert s[..2] == size && s[2..2 + |c|] == c && s[2 + |c|..] == later;
      ParseOfFrames(rest, junk);
      assert chunks == [c] + rest;
    }
  }

  lemma ParseOfPacked(chunks: seq<seq<byte>>, junk: seq<byte>)
    requires Fits(chunks) && |chunks| < 0x1_0000
    ensures Parse(Packed(chunks) + junk) == Some(chunks)
  {
    var s := Packed(chunks) + junk;
    assert s[..4] == TAG && s[4..6] == U16(|chunks|) && s[6..] == Frames(chunks) + junk;
    U16RoundTrip(|chunks|);
    ParseOfFrames(chunks, junk);
  }

  /** The chunks of one call, with their sizes, fit the room; none is empty. */
  lemma {:induction false} ChunksFit(room: int, firstRead: bool, driver: seq<seq<byte>>)
    ensures var chunks := Chunks(room, firstRead, driver);
            && (chunks == [] || 3 * |chunks| <= room)
            && forall i | 0 <= i < |chunks| :: 0 < |chunks[i]| <= room - 2
    decreases |driver|
  {
    var chunks := Chunks(room, firstRead, driver);
    if chunks != [] {
      var c := chunks[0];
      assert 0 < |c| <= room - 2;
      var rest := if firstRead then [] else Chunks(room - 2 - |c|, false, driver[1..]);
      assert chunks == [c] + rest;
      if !firstRead {
        ChunksFit(room - 2 - |c|, false, driver[1..]);
      }
    }
  }

  /** A reader of the packed chunks of a call, with anything behind them, recovers them. */
  predicate Recovered(size: nat, firstRead: bool, driver: seq<seq<byte>>, junk: seq<byte>) {
    var chunks := Chunks(size - 6, firstRead, driver);
    Parse(Packed(chunks) + junk) == Some(chunks)
  }

  /**
   * A reader recovers exactly the chunks delivered, whatever the driver does, exactly when the
   * buffer is at most 65543 bytes: the longest frame then still fits its 16-bit size.
   */
  lemma ReaderRecoversChunks(size: nat)
    requires size >= 6
    ensures (forall firstRead, driver, junk :: Recovered(size, firstRead, driver, junk)) <==> size <= 65543
  {
    if size <= 65543 {
      forall firstRead, driver, junk ensures Recovered(size, firstRead, driver, junk) {
        ChunksFit(size - 6, firstRead, driver);
        ParseOfPacked(Chunks(size - 6, firstRead, driver), junk);
      }
    } else {
      LongFrameIsLost(size, seq(0x1_0000, _ => 0));
    }
  }

  lemma LongFrameIsLost(size: nat, c: seq<byte>)
    requires size > 65543 && |c| == 0x1_0000
    ensures !Recovered(size, true, [c], [])
  {
    var chunks := Chunks(size - 6, true, [c]);
    assert chunks == [c];
    FramesFront(chunks);
    var s := Packed(chunks) + [];
    assert s[..4] == TAG && s[4..6] == U16(1) == [1, 0];
    assert s[6..][..2] == U16(|c|) == [0, 0];
    assert s[6..][2..2] == [];
    assert ParseFrames(0, s[6..][2..]) == Some([]);
    assert ParseFrames(1, s[6..]) == Some([[]] + []);
    assert ([[]] + [])[0] != c;
  }

  // ----- The driver's reads, one by one -----

  /** Frame `i` is what the driver's read returned, cut to the room left behind the frames before. */
  predicate IsRead(frames: seq<seq<byte>>, i: nat, room: int, read: seq<byte>)
    requires i < |frames|
  {
    var left := room - |Frames(frames[..i])| - 2;
    left > 0 && read != [] && frames[i] == if |read| <= left then read else read[..left]
  }

  /**
   * No read is skipped, reordered or split. A first read yields at most one frame; otherwise
   * packing stops only at an empty read, at the end of the driver's data, or for lack of room.
   */
  predicate FromReads(frames: seq<seq<byte>>, room: int, firstRead: bool, driver: seq<seq<byte>>) {
    && |frames| <= |driver| && (firstRead ==> |frames| <= 1)
    && (forall i | 0 <= i < |frames| :: IsRead(frames, i, room, driver[i]))
    && (|| (firstRead && |frames| == 1)
        || |frames| == |driver| || driver[|frames|] == []
        || room - |Frames(frames)| <= 2)
  }

  /** A reader of the buffer gets the driver's reads. */
  predicate GivesReads(s: seq<byte>, firstRead: bool, driver: seq<seq<byte>>) {
    var frames := Parse(s);
    frames.Some? && FromReads(frames.value, |s| - 6, firstRead, driver)
  }

  lemma {:induction false} ChunksAreReads(room: int, firstRead: bool, driver: seq<seq<byte>>)
    ensures FromReads(Chunks(room, firstRead, driver), room, firstRead, driver)
    decreases |driver|
  {
    var chunks := Chunks(room, firstRead, driver);
    if chunks != [] {
      var c := Cut(driver[0], room - 2);
      if firstRead {
        assert chunks == [c] && chunks[..0] == [];
      } else {
        var rest := Chunks(room - 2 - |c|, false, driver[1..]);
        assert chunks == [c] + rest;
        ChunksAreReads(room - 2 - |c|, false, driver[1..]);
        ReadComesFirst(c, rest, room, driver);
      }
    }
  }

  lemma ReadComesFirst(c: seq<byte>, rest: seq<seq<byte>>, room: int, driver: seq<seq<byte>>)
    requires room > 2 && driver != [] && driver[0] != [] && c == Cut(driver[0], room - 2)
    requires FromReads(rest, room - 2 - |c|, false, driver[1..])
    ensures FromReads([c] + rest, room, false, driver)
  {
    var frames := [c] + rest;
    FirstFrame(c, rest, |rest|);
    assert rest[..|rest|] == rest && frames[..|frames|] == frames;
    forall i | 0 <= i < |frames| ensures IsRead(frames, i, room, driver[i]) {
      if i == 0 {
        assert frames[..0] == [];
      } else {
        assert IsRead(rest, i - 1, room - 2 - |c|, driver[1..][i - 1]);
        FirstFrame(c, rest, i - 1);
      }
    }
  }

  lemma FirstFrame(c: seq<byte>, rest: seq<seq<byte>>, i: nat)
    requires i <= |rest|
    ensures |Frames(([c] + rest)[..i + 1])| == 2 + |c| + |Frames(rest[..i])|
  {
    var frames := ([c] + rest)[..i + 1];
    FramesFront(frames);
    assert frames[1..] == rest[..i];
  }

  lemma {:induction false} FramesPrefix(chunks: seq<seq<byte>>, i: nat)
    requires i <= |chunks|
    ensures Frames(chunks[..i]) <= Frames(chunks)
    decreases |chunks|
  {
    if i < |chunks| {
      var front := chunks[..|chunks| - 1];
      FramesPrefix(front, i);
      assert front[..i] == chunks[..i];
    } else {
      assert chunks[..i] == chunks;
    }
  }

  lemma FramesSplit(chunks: seq<seq<byte>>, i: nat) returns (after: seq<byte>)
    requires i < |chunks|
    ensures Frames(chunks) == Frames(chunks[..i]) + (U16(|chunks[i]|) + chunks[i]) + after
  {
    FramesPrefix(chunks, i + 1);
    assert chunks[..i + 1][..i] == chunks[..i];
    after := Frames(chunks)[|Frames(chunks[..i + 1])|..];
  }

  /** Which bytes of a packing hold what: tag, count, and each frame behind its size. */
  lemma FrameIsAt(chunks: seq<seq<byte>>, i: nat)
    requires Fits(chunks) && |chunks| < 0x1_0000 && i < |chunks|
    ensures var s, at := Packed(chunks), 6 + |Frames(chunks[..i])|;
            && at + 2 + |chunks[i]| <= |s|
            && s[..6] == [0x4D, 0x4F, 0x43, 0x51, |chunks| % 0x100, |chunks| / 0x100]
            && s[at..at + 2] == [|chunks[i]| % 0x100, |chunks[i]| / 0x100]
            && s[at + 2..at + 2 + |chunks[i]|] == chunks[i]
  {
    var head, before, c := TAG + U16(|chunks|), Frames(chunks[..i]), chunks[i];
    var after := FramesSplit(chunks, i);
    Sliced(head, before, U16(|c|), c, after);
    U16Bytes(|c|);
    U16Bytes(|chunks|);
    assert Packed(chunks)[..6] == head;
  }

  lemma Sliced(head: seq<byte>, before: seq<byte>, size: seq<byte>, c: seq<byte>, after: seq<byte>)
    ensures var s, at := head + (before + (size + c) + after), |head| + |before|;
            && s[at..at + |size|] == size
            && s[at + |size|..at + |size| + |c|] == c
  {
  }

  lemma HeldReads(s: seq<byte>, was: seq<byte>, firstRead: bool, driver: seq<seq<byte>>)
    requires |was| >= 6
    requires var chunks := Chunks(|was| - 6, firstRead, driver); Holds(s, was, |Packed(chunks)|, chunks)
    ensures |s| >= 4 && s[..4] == [0x4D, 0x4F, 0x43, 0x51]
    ensures |was| <= 65543 ==> GivesReads(s, firstRead, driver)
  {
    var chunks := Chunks(|was| - 6, firstRead, driver);
    assert s[..4] == TAG;
    if |was| <= 65543 {
      ReadsAreRecovered(|was|, firstRead, driver, was[|Packed(chunks)|..]);
    }
  }

  /** What a reader recovers from the buffer are the driver's reads. */
  lemma ReadsAreRecovered(size: nat, firstRead: bool, driver: seq<seq<byte>>, junk: seq<byte>)
    requires 6 <= size <= 65543
    ensures var frames := Parse(Packed(Chunks(size - 6, firstRead, driver)) + junk);
            frames.Some? && FromReads(frames.value, size - 6, firstRead, driver)
  {
    var chunks := Chunks(size - 6, firstRead, driver);
    ChunksFit(size - 6, firstRead, driver);
    assert Fits(chunks) && |chunks| < 0x1_0000;
    ChunksAreReads(size - 6, firstRead, driver);
    PackedReadsAreRecovered(chunks, size - 6, firstRead, driver, junk);
  }

  lemma PackedReadsAreRecovered(
      chunks: seq<seq<byte>>, room: int, firstRead: bool, driver: seq<seq<byte>>, junk: seq<byte>)
    requires Fits(chunks) && |chunks| < 0x1_0000 && FromReads(chunks, room, firstRead, driver)
    ensures var frames := Parse(Packed(chunks) + junk);
            frames.Some? && FromReads(frames.value, room, firstRead, driver)
  {
    ParseOfPacked(chunks, junk);
  }
}
