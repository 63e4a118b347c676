/** The chunk framing of EffectFile: each command is written as
    `0x100, opcode, dataOffset, payload`, wrapped in a chunk whose s32 size
    prefix counts itself and is rounded up to 16 bytes with zero fill; the
    reader walks the size prefixes over the data region.

    CommandFactory and BaseCommand are not part of this model, so every
    command at this level is the byte-exact UnhandledCommand. */
module Chunks {
  import opened Wrappers
  import opened Bytes
  import Padding
  import Cmd = Commands

  type Command = Cmd.UnhandledCommand

  /** The u16 every command starts with. */
  const Marker: u16 := 0x100

  /** `CommandOpcode.SchedulerMetaAdd`. */
  const SchedulerMetaAdd: u16 := 0x600

  const IntMax: int := 0x7FFF_FFFF

  // ---------------------------------------------------------------- one command

  /** `WriteCommand`: the marker, the opcode, the data offset the command's
      `Serialize` reports, then the bytes it wrote. */
  function CommandBytes(c: Command, e: Endian): (r: bytes)
    ensures |r| == 8 + |c.data|
  {
    var (data, dataOffset) := Cmd.SerializeUnhandled(c);
    EncodeU16(Marker, e) + EncodeU16(c.opcode, e) + EncodeS32(dataOffset, e) + data
  }

  /** `ReadCommand`: the marker must be 0x100; the opcode and data offset
      follow, and the rest of the chunk is handed to the command. The three
      reads are a u16 at 0, a u16 at 2 and an s32 at 4, so a chunk shorter
      than its reads fails as a read past the end. */
  function ReadCommand(p: bytes, e: Endian): (r: Result<Command>)
    ensures r.Ok? <==> |p| >= 8 && DecodeU16(p[..2], e) == Marker
    ensures |p| >= 2 && DecodeU16(p[..2], e) != Marker ==> r == Err(Format)
    ensures r.Err? ==> r.error == Format || r.error == ArgumentOutOfRange
    ensures r.Ok? ==> r.value.data == p[8..]
  {
    if |p| < 2 then Err(ArgumentOutOfRange)
    else if DecodeU16(p[..2], e) != Marker then Err(Format)
    else if |p| < 8 then Err(ArgumentOutOfRange)
    else Ok(Cmd.DeserializeUnhandled(DecodeU16(p[2..4], e), p[8..], DecodeS32(p[4..8], e)))
  }

  /** Whatever ReadCommand accepts is written back byte for byte. */
  lemma ReadCommandReencodes(p: bytes, e: Endian)
    requires ReadCommand(p, e).Ok?
    ensures CommandBytes(ReadCommand(p, e).value, e) == p
  {
    U16Bytes(p[..2], e);
    U16Bytes(p[2..4], e);
    S32Bytes(p[4..8], e);
    assert p == p[..2] + p[2..4] + p[4..8] + p[8..];
  }

  /** A written command reads back as itself. */
  lemma CommandRoundTrip(c: Command, e: Endian)
    ensures ReadCommand(CommandBytes(c, e), e) == Ok(c)
  {
    Slices224(EncodeU16(Marker, e), EncodeU16(c.opcode, e), EncodeS32(c.dataOffset, e), c.data);
    DecodeEncodeU16(Marker, e);
    DecodeEncodeU16(c.opcode, e);
    DecodeEncodeS32(c.dataOffset, e);
  }

  // ---------------------------------------------------------------- writing chunks

  /** `Align(16)` on a non-negative size: the next multiple of 16. */
  function Align16(x: nat): (r: nat)
    ensures r % 16 == 0 && x <= r < x + 16
  {
    (x + 15) / 16 * 16
  }

  /** One iteration of `WriteChunks`: the s32 chunk size (the command, its
      own 4 bytes and the fill), the command, and the zero fill. */
  function WriteChunk(c: Command, e: Endian): (r: bytes)
    ensures |r| == Align16(|c.data| + 12) && |r| % 16 == 0
    ensures r[4..4 + |CommandBytes(c, e)|] == CommandBytes(c, e)
    ensures Padding.AllZero(r[4 + |CommandBytes(c, e)|..])
  {
    var cmd := CommandBytes(c, e);
    var size := |cmd| + 4;
    var pad := Align16(size) - size;
    var r := EncodeS32(WrapS32(size + pad), e) + cmd + Padding.SkipWrite(pad);
    assert r[4..4 + |cmd|] == cmd;
    assert r[4 + |cmd|..] == Padding.SkipWrite(pad);
    r
  }

  /** `WriteChunks`: the chunks of all commands, in order. */
  function WriteChunks(cs: seq<Command>, e: Endian): (r: bytes)
    ensures |r| % 16 == 0
  {
    if |cs| == 0 then []
    else
      var a, b := WriteChunk(cs[0], e), WriteChunks(cs[1..], e);
      MultiplesOf16(|a|, |b|);
      a + b
  }

  lemma MultiplesOf16(a: nat, b: nat)
    requires a % 16 == 0 && b % 16 == 0
    ensures (a + b) % 16 == 0
  {
    assert a == a / 16 * 16 && b == b / 16 * 16;
    assert a + b == (a / 16 + b / 16) * 16;
  }

  // ---------------------------------------------------------------- reading chunks

  /** `ReadChunks` from the chunk starting `consumed` bytes into the data
      region, `d` being the rest of the region. The bound check is C#'s
      32-bit `chunkStart + chunkSize > spanLength`; when that sum wraps
      around it turns negative and the check passes. The slice of the chunk
      then fails if it runs past the region; if it does not, the command is
      read and the next index is negative, so the next read fails. The check
      is written here in its unwrapped form, which OverrunCheck shows equal
      to the wrapped comparison. */
  function ReadChunks(d: bytes, consumed: nat, e: Endian): (r: Result<seq<Command>>)
    ensures r.Err? ==> r.error == Format || r.error == ArgumentOutOfRange
    decreases |d|
  {
    if |d| == 0 then Ok([])
    else if |d| < 4 then Err(ArgumentOutOfRange)
    else
      var n := DecodeS32(d[..4], e);
      if n < 8 || (consumed + n <= IntMax && n > |d|) then Err(Format)
      else if n > |d| then Err(ArgumentOutOfRange)
      else
        match ReadCommand(d[4..n], e)
        case Err(x) => Err(x)
        case Ok(c) =>
          if consumed + n > IntMax then Err(ArgumentOutOfRange)
          else
            match ReadChunks(d[n..], consumed + n, e)
            case Err(x) => Err(x)
            case Ok(cs) => Ok([c] + cs)
  }

  // ---------------------------------------------------------------- frames: the reader's view

  /** A chunk exactly as the reader sees it: the size prefix and the command,
      with no fill (any fill is part of the command's bytes). */
  function Frame(c: Command, e: Endian): (r: bytes)
    ensures |r| == 12 + |c.data|
  {
    EncodeS32(WrapS32(|CommandBytes(c, e)| + 4), e) + CommandBytes(c, e)
  }

  function JoinFrames(cs: seq<Command>, e: Endian): (r: bytes)
    ensures |cs| > 0 ==> |r| >= 12
  {
    if |cs| == 0 then [] else Frame(cs[0], e) + JoinFrames(cs[1..], e)
  }

  /** For a chunk start and size that are both C# ints, the unwrapped bound
      check rejects exactly what the 32-bit comparison rejects. */
  lemma OverrunCheck(consumed: nat, n: int, len: nat)
    requires consumed <= IntMax && 0 <= n <= IntMax
    ensures (consumed + n <= IntMax && n > len) <==> WrapS32(consumed + n) > consumed + len
  {
  }

  /** The rejections of the first chunk: a size below the 8 bytes of a
      command header, a size running past the region (as long as the 32-bit
      sum does not wrap), and a region too short for any chunk. */
  lemma ReadChunksRejects(d: bytes, consumed: nat, e: Endian)
    requires |d| >= 4
    ensures DecodeS32(d[..4], e) < 8 ==> ReadChunks(d, consumed, e) == Err(Format)
    ensures consumed + DecodeS32(d[..4], e) <= IntMax && DecodeS32(d[..4], e) > |d|
            ==> ReadChunks(d, consumed, e) == Err(Format)
    ensures |d| < 8 ==> ReadChunks(d, consumed, e).Err?
  {
  }

  /** One accepted chunk: its size is at least 8 and within the region, its
      command reads, and the rest of the region reads after it. */
  lemma ReadChunksStep(d: bytes, consumed: nat, e: Endian)
    requires |d| > 0 && ReadChunks(d, consumed, e).Ok?
    ensures |d| >= 4 && 8 <= DecodeS32(d[..4], e) <= |d| && consumed + DecodeS32(d[..4], e) <= IntMax
    ensures var n := DecodeS32(d[..4], e);
            && ReadCommand(d[4..n], e).Ok? && ReadChunks(d[n..], consumed + n, e).Ok?
            && ReadChunks(d, consumed, e).value
               == [ReadCommand(d[4..n], e).value] + ReadChunks(d[n..], consumed + n, e).value
  {
  }

  /** The same step, naming the first chunk's size, its command and the
      commands after it. */
  lemma ReadChunksSplit(d: bytes, consumed: nat, e: Endian, cs: seq<Command>)
      returns (n: int, c: Command, rs: seq<Command>)
    requires |d| > 0 && ReadChunks(d, consumed, e) == Ok(cs)
    ensures |d| >= 4 && n == DecodeS32(d[..4], e) && 8 <= n <= |d| && consumed + n <= IntMax
    ensures ReadCommand(d[4..n], e) == Ok(c) && ReadChunks(d[n..], consumed + n, e) == Ok(rs)
    ensures cs == [c] + rs
  {
    ReadChunksStep(d, consumed, e);
    n := DecodeS32(d[..4], e);
    c := ReadCommand(d[4..n], e).value;
    rs := ReadChunks(d[n..], consumed + n, e).value;
  }

  /** The converse step: a well-sized chunk whose command and successors read
      contributes its command in front of theirs. */
  lemma ReadChunksCons(d: bytes, consumed: nat, e: Endian, n: int, c: Command, rs: seq<Command>)
    requires |d| >= 4 && n == DecodeS32(d[..4], e) && 8 <= n <= |d| && consumed + n <= IntMax
    requires ReadCommand(d[4..n], e) == Ok(c) && ReadChunks(d[n..], consumed + n, e) == Ok(rs)
    ensures ReadChunks(d, consumed, e) == Ok([c] + rs)
  {
  }

  /** Whatever ReadChunks accepts is tiled exactly by the chunks it found:
      re-framing the commands read gives back the data region byte for byte. */
  lemma {:induction false} ReadChunksTiles(d: bytes, consumed: nat, e: Endian, cs: seq<Command>)
    requires ReadChunks(d, consumed, e) == Ok(cs)
    ensures JoinFrames(cs, e) == d
    decreases |d|
  {
    if |d| > 0 {
      var n, c, rs := ReadChunksSplit(d, consumed, e, cs);
      ReadChunksTiles(d[n..], consumed + n, e, rs);
      TileOfRead(d, n, c, rs, e);
    }
  }

  /** A size prefix and the command it frames, followed by frames covering
      the rest, are the frames of that command and the rest. */
  lemma TileOfRead(d: bytes, n: int, c: Command, rs: seq<Command>, e: Endian)
    requires |d| >= 4 && n == DecodeS32(d[..4], e) && 8 <= n <= |d|
    requires ReadCommand(d[4..n], e) == Ok(c) && JoinFrames(rs, e) == d[n..]
    ensures JoinFrames([c] + rs, e) == d
  {
    FrameOfRead(d[..4], d[4..n], e);
    TileCons(d, n, c, rs, e);
  }

  /** A frame covering the first `n` bytes, followed by frames covering the
      rest, covers the whole region. */
  lemma TileCons(d: bytes, n: nat, c: Command, rs: seq<Command>, e: Endian)
    requires 4 <= n <= |d| && Frame(c, e) == d[..4] + d[4..n] && JoinFrames(rs, e) == d[n..]
    ensures JoinFrames([c] + rs, e) == d
  {
    JoinCons(c, rs, e);
    Split3(d, 4, n);
  }

  /** A size prefix followed by the command it frames is that command's frame. */
  lemma FrameOfRead(prefix: bytes, p: bytes, e: Endian)
    requires |prefix| == 4 && DecodeS32(prefix, e) == |p| + 4 && ReadCommand(p, e).Ok?
    ensures Frame(ReadCommand(p, e).value, e) == prefix + p
  {
    S32Bytes(prefix, e);
    ReadCommandReencodes(p, e);
  }

  lemma JoinCons(c: Command, cs: seq<Command>, e: Endian)
    ensures JoinFrames([c] + cs, e) == Frame(c, e) + JoinFrames(cs, e)
  {
    assert ([c] + cs)[1..] == cs;
  }

  /** Framed commands are read back as they were, from any position whose
      end stays within C#'s int range. */
  lemma {:induction false} FramesRoundTrip(cs: seq<Command>, consumed: nat, e: Endian)
    requires consumed + |JoinFrames(cs, e)| <= IntMax
    ensures ReadChunks(JoinFrames(cs, e), consumed, e) == Ok(cs)
    decreases |cs|
  {
    if |cs| > 0 {
      var c, rest := cs[0], cs[1..];
      HeadTail(cs);
      JoinCons(c, rest, e);
      FramesRoundTrip(rest, consumed + (12 + |c.data|), e);
      FrameCons(c, JoinFrames(rest, e), rest, consumed, e);
    }
  }

  /** One frame in front of chunks that read back reads back as its command
      in front of theirs. */
  lemma FrameCons(c: Command, tail: bytes, rs: seq<Command>, consumed: nat, e: Endian)
    requires consumed + (12 + |c.data|) + |tail| <= IntMax
    requires ReadChunks(tail, consumed + (12 + |c.data|), e) == Ok(rs)
    ensures ReadChunks(Frame(c, e) + tail, consumed, e) == Ok([c] + rs)
  {
    var n := 12 + |c.data|;
    var cmd := CommandBytes(c, e);
    assert WrapS32(|cmd| + 4) == n;
    DecodeEncodeS32(n, e);
    CommandRoundTrip(c, e);
    ConsFrame(EncodeS32(n, e), cmd, tail, consumed, n, e, c, rs);
  }

  /** A size prefix, a command and the chunks after it, all given as plain
      bytes, read as that command followed by the later ones. */
  lemma ConsFrame(h: bytes, cmd: bytes, tail: bytes, consumed: nat, n: int, e: Endian,
                  c: Command, rs: seq<Command>)
    requires |h| == 4 && n == |cmd| + 4 && DecodeS32(h, e) == n && n >= 8
    requires consumed + n <= IntMax
    requires ReadCommand(cmd, e) == Ok(c) && ReadChunks(tail, consumed + n, e) == Ok(rs)
    ensures ReadChunks(h + cmd + tail, consumed, e) == Ok([c] + rs)
  {
    Cut3(h, cmd, tail);
    ReadChunksCons(h + cmd + tail, consumed, e, n, c, rs);
  }

  // ---------------------------------------------------------------- padding absorbed by the reader

  /** The command a written chunk reads back as: its data followed by the
      chunk's zero fill. */
  function Padded(c: Command): (r: Command)
    ensures r.opcode == c.opcode && r.dataOffset == c.dataOffset && |r.data| >= |c.data|
    ensures r.data[..|c.data|] == c.data && Padding.AllZero(r.data[|c.data|..])
    ensures (|r.data| + 12) % 16 == 0 && |r.data| < |c.data| + 16
  {
    var fill := Padding.SkipWrite(Align16(|c.data| + 12) - (|c.data| + 12));
    var r := c.(data := c.data + fill);
    assert r.data[..|c.data|] == c.data && r.data[|c.data|..] == fill;
    r
  }

  function PadAll(cs: seq<Command>): (r: seq<Command>)
    ensures |r| == |cs| && forall i :: 0 <= i < |cs| ==> r[i] == Padded(cs[i])
  {
    if |cs| == 0 then [] else [Padded(cs[0])] + PadAll(cs[1..])
  }

  /** A command already filled to the chunk boundary needs no more fill. */
  lemma PaddedIdempotent(c: Command)
    ensures Padded(Padded(c)) == Padded(c)
  {
    var p := Padded(c);
    assert Align16(|p.data| + 12) == |p.data| + 12;
    assert p.data + Padding.SkipWrite(0) == p.data;
  }

  /** A written chunk is the frame of the padded command. */
  lemma WriteChunkIsFrame(c: Command, e: Endian)
    ensures WriteChunk(c, e) == Frame(Padded(c), e)
  {
    var cmd := CommandBytes(c, e);
    var size := |cmd| + 4;
    var fill := Padding.SkipWrite(Align16(size) - size);
    var h := EncodeS32(WrapS32(size + |fill|), e);
    assert Padded(c) == c.(data := c.data + fill);
    CommandBytesAppend(c, fill, e);
    assert WriteChunk(c, e) == h + cmd + fill;
    assert Frame(Padded(c), e) == h + (cmd + fill);
    Assoc(h, cmd, fill);
  }

  /** Extra data bytes land at the end of the command's bytes. */
  lemma CommandBytesAppend(c: Command, more: bytes, e: Endian)
    ensures CommandBytes(c.(data := c.data + more), e) == CommandBytes(c, e) + more
  {
  }

  lemma {:induction false} WriteChunksAreFrames(cs: seq<Command>, e: Endian)
    ensures WriteChunks(cs, e) == JoinFrames(PadAll(cs), e)
    decreases |cs|
  {
    if |cs| > 0 {
      WriteChunkIsFrame(cs[0], e);
      WriteChunksAreFrames(cs[1..], e);
      assert PadAll(cs)[1..] == PadAll(cs[1..]);
    }
  }

  /** The chunks written for the read-back commands are the same bytes. */
  lemma {:induction false} RewriteIsStable(cs: seq<Command>, e: Endian)
    ensures WriteChunks(PadAll(cs), e) == WriteChunks(cs, e)
    decreases |cs|
  {
    if |cs| > 0 {
      WriteChunkIsFrame(cs[0], e);
      WriteChunkIsFrame(Padded(cs[0]), e);
      PaddedIdempotent(cs[0]);
      RewriteIsStable(cs[1..], e);
      assert PadAll(cs)[1..] == PadAll(cs[1..]);
    }
  }

  /** Written chunks are read back as the padded commands. */
  lemma ChunksRoundTrip(cs: seq<Command>, e: Endian)
    requires |WriteChunks(cs, e)| <= IntMax
    ensures ReadChunks(WriteChunks(cs, e), 0, e) == Ok(PadAll(cs))
  {
    WriteChunksAreFrames(cs, e);
    FramesRoundTrip(PadAll(cs), 0, e);
  }
}
