/** The EFX container: an 8-byte ASCII magic naming the format version, an
    f32 of unknown meaning, an s32 total size, then the chunk region. The
    game is not stored; it is inferred from the data size every
    SchedulerMetaAdd command declares, before the commands are read. */
module EffectFiles {
  import opened Wrappers
  import opened Bytes
  import opened Targets
  import opened Chunks

  /** `EffectFile`: the byte order is set by the caller before reading. */
  datatype EffectFile = EffectFile(endian: Endian, target: Target, unknown: f32, commands: seq<Command>)

  const HeaderSize: nat := 16

  // ---------------------------------------------------------------- fixed-length ASCII strings

  /** `Encoding.ASCII` decoding: a byte above 0x7F becomes '?'. */
  function AsciiChar(b: byte): (r: char)
    ensures (r as int) < 0x80
    ensures b < 0x80 <==> r as int == b
  {
    if b < 0x80 then b as char else '?'
  }

  /** `Encoding.ASCII` encoding: a character above 0x7F becomes '?'. */
  function AsciiByte(c: char): (r: byte)
    ensures r < 0x80
    ensures (c as int) < 0x80 <==> r == c as int
  {
    if (c as int) < 0x80 then c as int else '?' as int
  }

  function AsciiDecode(b: bytes): (r: string)
    ensures |r| == |b| && forall i :: 0 <= i < |b| ==> r[i] == AsciiChar(b[i])
  {
    if |b| == 0 then [] else [AsciiChar(b[0])] + AsciiDecode(b[1..])
  }

  function AsciiEncode(str: string): (r: bytes)
    ensures |r| == |str| && forall i :: 0 <= i < |str| ==> r[i] == AsciiByte(str[i])
  {
    if |str| == 0 then [] else [AsciiByte(str[0])] + AsciiEncode(str[1..])
  }

  /** The bytes before the first NUL. */
  function UntilNul(b: bytes): (r: bytes)
    ensures |r| <= |b| && r == b[..|r|]
    ensures forall i :: 0 <= i < |r| ==> r[i] != 0
    ensures |r| < |b| ==> b[|r|] == 0
  {
    if |b| == 0 || b[0] == 0 then [] else [b[0]] + UntilNul(b[1..])
  }

  /** `ReadString(ref index, 8, Encoding.ASCII, true)`: eight bytes, decoded
      and cut at the first NUL. */
  function ReadString8(s: bytes): (r: Result<Parsed<string>>)
    ensures r.Ok? <==> |s| >= 8
    ensures r.Err? ==> r.error == ArgumentOutOfRange
    ensures r.Ok? ==> r.value.rest == s[8..] && |r.value.value| <= 8
  {
    if |s| < 8 then Err(ArgumentOutOfRange)
    else Ok(Parsed(AsciiDecode(UntilNul(s[..8])), s[8..]))
  }

  /** `WriteString(value, 8, Encoding.ASCII)`: the encoded characters in an
      eight-byte field, zero-filled or cut to fit. */
  function WriteString8(str: string): (r: bytes)
    ensures |r| == 8
    ensures |str| < 8 ==> r[..|str|] == AsciiEncode(str) && forall i :: |str| <= i < 8 ==> r[i] == 0
  {
    var a := AsciiEncode(str);
    if |a| >= 8 then a[..8] else a + seq(8 - |a|, _ => 0)
  }

  /** A string that survives the eight-byte field unchanged and is the only
      string its bytes decode to: seven characters, none of them NUL, '?' or
      outside ASCII. */
  predicate PlainMagic(m: string) {
    |m| == 7 && forall i :: 0 <= i < |m| ==> 0 < (m[i] as int) < 0x80 && m[i] != '?'
  }

  lemma {:induction false} DecodeOfEncode(str: string)
    requires forall i :: 0 <= i < |str| ==> (str[i] as int) < 0x80
    ensures AsciiDecode(AsciiEncode(str)) == str
  {
    var d := AsciiDecode(AsciiEncode(str));
    assert forall i :: 0 <= i < |str| ==> d[i] == str[i] by {
      forall i | 0 <= i < |str|
        ensures d[i] == str[i]
      {
        assert AsciiEncode(str)[i] == str[i] as int;
      }
    }
  }

  /** The magic field reads back as the magic. */
  lemma MagicDecodes(m: string)
    requires PlainMagic(m)
    ensures AsciiDecode(UntilNul(WriteString8(m))) == m
  {
    UntilNulCut(WriteString8(m), AsciiEncode(m));
    DecodeOfEncode(m);
  }

  lemma MagicRoundTrip(m: string, rest: bytes)
    requires PlainMagic(m)
    ensures ReadString8(WriteString8(m) + rest) == Ok(Parsed(m, rest))
  {
    var s := WriteString8(m) + rest;
    assert s[..8] == WriteString8(m) && s[8..] == rest;
    MagicDecodes(m);
  }

  /** Cutting at the first NUL finds a NUL-free prefix followed by a NUL. */
  lemma {:induction false} UntilNulCut(b: bytes, a: bytes)
    requires |a| < |b| && b[..|a|] == a && b[|a|] == 0
    requires forall i :: 0 <= i < |a| ==> a[i] != 0
    ensures UntilNul(b) == a
    decreases |a|
  {
    if |a| > 0 {
      assert b[0] == a[0] != 0;
      assert b[1..][..|a[1..]|] == a[1..];
      UntilNulCut(b[1..], a[1..]);
    }
  }

  /** The field is the only eight bytes that read back as a plain magic. */
  lemma MagicBytesUnique(b: bytes, m: string)
    requires |b| == 8 && PlainMagic(m) && AsciiDecode(UntilNul(b)) == m
    ensures b == WriteString8(m)
  {
    var u := UntilNul(b);
    var a := AsciiEncode(m);
    assert |u| == 7;
    forall i | 0 <= i < 7
      ensures u[i] == a[i]
    {
      assert AsciiChar(u[i]) == m[i];
    }
    assert u == a;
    var w := WriteString8(m);
    forall i | 0 <= i < 8
      ensures b[i] == w[i]
    {
      if i < 7 {
        assert b[i] == u[i];
      }
    }
  }

  // ---------------------------------------------------------------- magic and version

  /** The version switch of `Serialize`. */
  function MagicOf(version: byte): (r: Result<string>)
    ensures r.Ok? <==> 8 <= version <= 11
    ensures r.Err? ==> r.error == NotSupported
    ensures r.Ok? ==> PlainMagic(r.value)
  {
    match version
    case 8 => Ok("EFX0008")
    case 9 => Ok("EFX0009")
    case 10 => Ok("EFX0010")
    case 11 => Ok("EFX0011")
    case _ => Err(NotSupported)
  }

  /** The magic switch of `Deserialize`. */
  function VersionOf(magic: string): (r: Result<byte>)
    ensures r.Ok? ==> 8 <= r.value <= 11
    ensures r.Err? ==> r.error == Format
  {
    if magic == "EFX0008" then Ok(8)
    else if magic == "EFX0009" then Ok(9)
    else if magic == "EFX0010" then Ok(10)
    else if magic == "EFX0011" then Ok(11)
    else Err(Format)
  }

  /** The two switches are inverse to each other on versions 8 to 11. */
  lemma MagicVersionInverse(version: byte, magic: string)
    ensures MagicOf(version).Ok? ==> VersionOf(MagicOf(version).value) == Ok(version)
    ensures VersionOf(magic).Ok? ==> MagicOf(VersionOf(magic).value) == Ok(magic)
  {
  }

  // ---------------------------------------------------------------- game detection

  /** The data sizes of the SchedulerMetaAdd commands, in order. */
  function MetaSizes(cs: seq<Command>): (r: seq<s32>)
    ensures |r| <= |cs|
  {
    if |cs| == 0 then []
    else (if cs[0].opcode == SchedulerMetaAdd then [cs[0].dataOffset] else []) + MetaSizes(cs[1..])
  }

  predicate AllSame(vs: seq<s32>) {
    forall i, j :: 0 <= i < |vs| && 0 <= j < |vs| ==> vs[i] == vs[j]
  }

  /** A SchedulerMetaAdd whose size differs from the one remembered. */
  predicate Disagrees(op: u16, size: s32, meta: Option<s32>) {
    op == SchedulerMetaAdd && meta.Some? && meta.value != size
  }

  /** The size remembered after a command: a SchedulerMetaAdd's own. */
  function Note(op: u16, size: s32, meta: Option<s32>): Option<s32> {
    if op == SchedulerMetaAdd then Some(size) else meta
  }

  predicate Clash(c: Command, meta: Option<s32>) {
    Disagrees(c.opcode, c.dataOffset, meta)
  }

  function Remember(c: Command, meta: Option<s32>): Option<s32> {
    Note(c.opcode, c.dataOffset, meta)
  }

  /** The scan of `DetectGame` stated over commands: the remembered size
      starts at `meta` and every SchedulerMetaAdd must agree with it. */
  function MetaAgree(cs: seq<Command>, meta: Option<s32>): (r: Result<Option<s32>>)
    ensures r.Err? ==> r.error == InvalidOperation
  {
    if |cs| == 0 then Ok(meta)
    else if Clash(cs[0], meta) then Err(InvalidOperation)
    else MetaAgree(cs[1..], Remember(cs[0], meta))
  }

  function Seed(meta: Option<s32>): seq<s32> {
    if meta.Some? then [meta.value] else []
  }

  /** The scan succeeds exactly when all declared sizes are equal, and then
      yields that size, or nothing when there is none. */
  lemma {:induction false} MetaAgreeIffAllSame(cs: seq<Command>, meta: Option<s32>)
    ensures var vs := Seed(meta) + MetaSizes(cs);
      MetaAgree(cs, meta) == if !AllSame(vs) then Err(InvalidOperation)
                             else if |vs| == 0 then Ok(None) else Ok(Some(vs[0]))
  {
    var vs := Seed(meta) + MetaSizes(cs);
    if |cs| > 0 {
      var c := cs[0];
      var next := if c.opcode == SchedulerMetaAdd then Some(c.dataOffset) else meta;
      var ws := Seed(next) + MetaSizes(cs[1..]);
      MetaAgreeIffAllSame(cs[1..], next);
      if c.opcode == SchedulerMetaAdd {
        if meta.Some? {
          assert vs == [meta.value] + ws;
          if meta.value != c.dataOffset {
            assert vs[0] != vs[1];
          } else {
            AllSameCons(meta.value, ws);
          }
        } else {
          assert vs == ws;
        }
      } else {
        assert vs == ws;
      }
    }
  }

  lemma AllSameCons(v: s32, ws: seq<s32>)
    requires |ws| > 0 && ws[0] == v
    ensures AllSame([v] + ws) <==> AllSame(ws)
  {
    var vs := [v] + ws;
    if AllSame(ws) {
      forall i, j | 0 <= i < |vs| && 0 <= j < |vs|
        ensures vs[i] == vs[j]
      {
        assert vs[i] == ws[if i == 0 then 0 else i - 1];
        assert vs[j] == ws[if j == 0 then 0 else j - 1];
      }
    }
    if AllSame(vs) {
      forall i, j | 0 <= i < |ws| && 0 <= j < |ws|
        ensures ws[i] == ws[j]
      {
        assert ws[i] == vs[i + 1] && ws[j] == vs[j + 1];
      }
    }
  }

  /** Where one chunk of the scan ends, and the size remembered after it. */
  datatype Step = Step(size: nat, meta: Option<s32>)

  /** One pass of the loop of `DetectGame`. It checks the size prefix as
      `ReadChunks` does but reads the command header from the whole region
      rather than from the chunk, so a header may run past a short chunk. A
      chunk whose end overflows an int leaves a negative index, and the next
      read throws. */
  function ScanChunk(d: bytes, consumed: nat, e: Endian, meta: Option<s32>): (r: Result<Step>)
    requires |d| > 0
    ensures r.Ok? ==> 8 <= r.value.size <= |d| && consumed + r.value.size <= IntMax
    ensures r.Err? ==> r.error == Format || r.error == ArgumentOutOfRange || r.error == InvalidOperation
  {
    if |d| < 4 then Err(ArgumentOutOfRange)
    else
      var n := DecodeS32(d[..4], e);
      if n < 8 || (consumed + n <= IntMax && n > |d|) then Err(Format)
      else if |d| < 6 then Err(ArgumentOutOfRange)
      else if DecodeU16(d[4..6], e) != Marker then Err(Format)
      else if |d| < 12 then Err(ArgumentOutOfRange)
      else
        var op := DecodeU16(d[6..8], e);
        var size := DecodeS32(d[8..12], e);
        if Disagrees(op, size, meta) then Err(InvalidOperation)
        else if consumed + n > IntMax then Err(ArgumentOutOfRange)
        else Ok(Step(n, Note(op, size, meta)))
  }

  /** The loop of `DetectGame`, over the data region. */
  function DetectScan(d: bytes, consumed: nat, e: Endian, meta: Option<s32>): (r: Result<Option<s32>>)
    ensures r.Err? ==> r.error == Format || r.error == ArgumentOutOfRange || r.error == InvalidOperation
    decreases |d|
  {
    if |d| == 0 then Ok(meta)
    else
      match ScanChunk(d, consumed, e, meta)
      case Err(err) => Err(err)
      case Ok(st) => DetectScan(d[st.size..], consumed + st.size, e, st.meta)
  }

  /** The final switch of `DetectGame`. */
  function Classify(version: byte, meta: Option<s32>): (r: Result<Game>)
    ensures r.Err? ==> r.error == NotSupported
  {
    match meta
    case Some(160) => if 8 <= version <= 10 then Ok(FinalFantasyXII) else Err(NotSupported)
    case Some(208) => if version == 11 then Ok(TacticsOgrePSP) else Err(NotSupported)
    case Some(320) => if version == 11 then Ok(TacticsOgreReborn) else Err(NotSupported)
    case _ => Err(NotSupported)
  }

  /** The SchedulerMetaAdd data size each game uses. */
  function MetaSizeOf(g: Game): s32 {
    match g
    case FinalFantasyXII => 160
    case TacticsOgrePSP => 208
    case TacticsOgreReborn => 320
  }

  /** The versions each game writes. */
  predicate VersionFits(g: Game, version: byte) {
    match g
    case FinalFantasyXII => 8 <= version <= 10
    case _ => version == 11
  }

  /** The switch accepts exactly a game's own size with one of its versions. */
  lemma ClassifyExact(version: byte, meta: Option<s32>, g: Game)
    ensures Classify(version, meta) == Ok(g) <==> meta == Some(MetaSizeOf(g)) && VersionFits(g, version)
  {
  }

  /** `DetectGame`: scan, then classify. */
  function DetectGame(version: byte, d: bytes, e: Endian): (r: Result<Game>)
    ensures r.Err? ==> r.error == Format || r.error == ArgumentOutOfRange || r.error == InvalidOperation || r.error == NotSupported
  {
    match DetectScan(d, 0, e, None)
    case Err(err) => Err(err)
    case Ok(meta) => Classify(version, meta)
  }

  /** One chunk the reader accepts is one pass of the scan over the same
      header fields. */
  lemma ScanChunkOfRead(d: bytes, consumed: nat, e: Endian, meta: Option<s32>, n: int, c: Command)
    requires |d| >= 4 && n == DecodeS32(d[..4], e) && 8 <= n <= |d| && consumed + n <= IntMax
    requires ReadCommand(d[4..n], e) == Ok(c)
    ensures ScanChunk(d, consumed, e, meta)
         == if Clash(c, meta) then Err(InvalidOperation) else Ok(Step(n, Remember(c, meta)))
  {
    SliceOfSlice(d, 4, n, 0, 2);
    SliceOfSlice(d, 4, n, 2, 4);
    SliceOfSlice(d, 4, n, 4, 8);
  }

  lemma ScanStepOfRead(d: bytes, consumed: nat, e: Endian, meta: Option<s32>, n: int, c: Command)
    requires |d| >= 4 && n == DecodeS32(d[..4], e) && 8 <= n <= |d| && consumed + n <= IntMax
    requires ReadCommand(d[4..n], e) == Ok(c)
    ensures DetectScan(d, consumed, e, meta)
         == if Clash(c, meta) then Err(InvalidOperation) else DetectScan(d[n..], consumed + n, e, Remember(c, meta))
  {
    ScanChunkOfRead(d, consumed, e, meta, n, c);
  }

  /** The scan of `DetectGame` and `ReadChunks` walk the same chunks: on a
      region the reader accepts, the scan's verdict is the agreement of the
      SchedulerMetaAdd sizes among the commands read. */
  lemma {:induction false} ScanMatchesRead(d: bytes, consumed: nat, e: Endian, meta: Option<s32>, cs: seq<Command>)
    requires ReadChunks(d, consumed, e) == Ok(cs)
    ensures DetectScan(d, consumed, e, meta) == MetaAgree(cs, meta)
    decreases |d|
  {
    if |d| > 0 {
      var n, c, rs := ReadChunksSplit(d, consumed, e, cs);
      ScanStepOfRead(d, consumed, e, meta, n, c);
      MetaAgreeCons(c, rs, meta);
      if !Clash(c, meta) {
        ScanMatchesRead(d[n..], consumed + n, e, Remember(c, meta), rs);
      }
    }
  }

  lemma MetaAgreeCons(c: Command, rs: seq<Command>, meta: Option<s32>)
    ensures MetaAgree([c] + rs, meta)
         == if Clash(c, meta) then Err(InvalidOperation) else MetaAgree(rs, Remember(c, meta))
  {
    assert ([c] + rs)[0] == c && ([c] + rs)[1..] == rs;
  }

  /** Padding a command changes neither its opcode nor its data offset. */
  lemma {:induction false} MetaAgreePadAll(cs: seq<Command>, meta: Option<s32>)
    ensures MetaAgree(PadAll(cs), meta) == MetaAgree(cs, meta)
    decreases |cs|
  {
    if |cs| > 0 {
      var p := PadAll(cs);
      assert PadAll(cs[1..]) == p[1..];
      MetaAgreePadAll(cs[1..], Remember(cs[0], meta));
    }
  }

  /** Detection on written chunks sees the commands' own sizes. */
  lemma DetectWritten(version: byte, cs: seq<Command>, e: Endian)
    requires |WriteChunks(cs, e)| <= IntMax
    ensures DetectGame(version, WriteChunks(cs, e), e)
         == match MetaAgree(cs, None) case Err(err) => Err(err) case Ok(meta) => Classify(version, meta)
  {
    ChunksRoundTrip(cs, e);
    ScanMatchesRead(WriteChunks(cs, e), 0, e, None, PadAll(cs));
    MetaAgreePadAll(cs, None);
  }

  // ---------------------------------------------------------------- the file

  /** `Serialize`: the magic, the unknown value, the total size (a C# int
      sum), then the chunks. */
  function Serialize(f: EffectFile): (r: Result<bytes>)
    ensures r.Ok? <==> 8 <= f.target.version <= 11
    ensures r.Err? ==> r.error == NotSupported
    ensures r.Ok? ==> |r.value| == HeaderSize + |WriteChunks(f.commands, f.endian)|
    ensures r.Ok? ==> r.value[HeaderSize..] == WriteChunks(f.commands, f.endian)
    ensures r.Ok? ==> r.value[..8] == WriteString8(MagicOf(f.target.version).value)
    ensures r.Ok? ==> r.value[8..12] == EncodeF32(f.unknown, f.endian)
    ensures r.Ok? ==> r.value[12..16] == EncodeS32(WrapS32(|r.value|), f.endian)
  {
    match MagicOf(f.target.version)
    case Err(err) => Err(err)
    case Ok(magic) =>
      var chunks := WriteChunks(f.commands, f.endian);
      var total := EncodeS32(WrapS32(HeaderSize + |chunks|), f.endian);
      Slices844(WriteString8(magic), EncodeF32(f.unknown, f.endian), total, chunks);
      Ok(WriteString8(magic) + EncodeF32(f.unknown, f.endian) + total + chunks)
  }

  /** `Deserialize`: reads with the prior object's byte order and, on
      success, replaces its target, unknown value and commands. On any error
      the result is the error alone, so the prior object is unchanged. The
      total size is range-checked and otherwise unused; the data region is
      everything after the header. */
  function Deserialize(prior: EffectFile, s: bytes): (r: Result<EffectFile>)
    ensures r.Ok? ==> |s| >= HeaderSize && r.value.endian == prior.endian
    ensures r.Ok? ==> 8 <= r.value.target.version <= 11
    ensures r.Ok? ==> r.value.unknown == DecodeU32(s[8..12], prior.endian)
    ensures |s| < 8 ==> r == Err(ArgumentOutOfRange)
  {
    var e := prior.endian;
    match ReadString8(s)
    case Err(err) => Err(err)
    case Ok(m) =>
      match VersionOf(m.value)
      case Err(err) => Err(err)
      case Ok(version) =>
        if |s| < HeaderSize then Err(ArgumentOutOfRange)
        else
          var unknown := DecodeU32(s[8..12], e);
          var total := DecodeS32(s[12..16], e);
          if total < 0 || total > |s| then Err(Format)
          else
            var data := s[HeaderSize..];
            match DetectGame(version, data, e)
            case Err(err) => Err(err)
            case Ok(game) =>
              match ReadChunks(data, 0, e)
              case Err(err) => Err(err)
              case Ok(cs) => Ok(EffectFile(e, Target(game, version), unknown, cs))
  }

  /** The header checks, in the order the code makes them. */
  lemma DeserializeHeaderErrors(prior: EffectFile, s: bytes)
    requires |s| >= 8
    ensures VersionOf(AsciiDecode(UntilNul(s[..8]))).Err? ==> Deserialize(prior, s) == Err(Format)
    ensures VersionOf(AsciiDecode(UntilNul(s[..8]))).Ok? && |s| < HeaderSize
            ==> Deserialize(prior, s) == Err(ArgumentOutOfRange)
    ensures VersionOf(AsciiDecode(UntilNul(s[..8]))).Ok? && |s| >= HeaderSize
            && (DecodeS32(s[12..16], prior.endian) < 0 || DecodeS32(s[12..16], prior.endian) > |s|)
            ==> Deserialize(prior, s) == Err(Format)
  {
  }

  /** Detection runs first: its error wins over any error of the chunk reader. */
  lemma DetectionFirst(prior: EffectFile, s: bytes)
    requires |s| >= HeaderSize && VersionOf(AsciiDecode(UntilNul(s[..8]))).Ok?
    requires 0 <= DecodeS32(s[12..16], prior.endian) <= |s|
    requires DetectGame(VersionOf(AsciiDecode(UntilNul(s[..8]))).value, s[HeaderSize..], prior.endian).Err?
    ensures Deserialize(prior, s)
         == Err(DetectGame(VersionOf(AsciiDecode(UntilNul(s[..8]))).value, s[HeaderSize..], prior.endian).error)
  {
  }

  /** The stored total size does not steer the reader: any in-range value
      gives the same result. */
  lemma TotalSizeUnused(prior: EffectFile, s: bytes, t: bytes)
    requires |s| >= HeaderSize && |t| == 4
    requires 0 <= DecodeS32(s[12..16], prior.endian) <= |s|
    requires 0 <= DecodeS32(t, prior.endian) <= |s|
    ensures Deserialize(prior, s[..12] + t + s[16..]) == Deserialize(prior, s)
  {
    var s' := s[..12] + t + s[16..];
    assert s'[..8] == s[..8] && s'[8..12] == s[8..12] && s'[12..16] == t;
    assert s'[HeaderSize..] == s[HeaderSize..];
  }

  /** What a file must satisfy for its bytes to read back: a version the
      writer knows, SchedulerMetaAdd sizes that name its game, and a size
      that fits a C# int. */
  predicate Writable(f: EffectFile) {
    && VersionFits(f.target.game, f.target.version)
    && MetaAgree(f.commands, None) == Ok(Some(MetaSizeOf(f.target.game)))
    && HeaderSize + |WriteChunks(f.commands, f.endian)| <= IntMax
  }

  /** The field values `Deserialize` returns, gathered from the stages. */
  lemma DeserializeOfParts(prior: EffectFile, s: bytes, version: byte, game: Game, cs: seq<Command>)
    requires |s| >= HeaderSize && VersionOf(AsciiDecode(UntilNul(s[..8]))) == Ok(version)
    requires 0 <= DecodeS32(s[12..16], prior.endian) <= |s|
    requires DetectGame(version, s[HeaderSize..], prior.endian) == Ok(game)
    requires ReadChunks(s[HeaderSize..], 0, prior.endian) == Ok(cs)
    ensures Deserialize(prior, s)
         == Ok(EffectFile(prior.endian, Target(game, version), DecodeU32(s[8..12], prior.endian), cs))
  {
  }

  /** The stages of a successful `Deserialize`. */
  lemma DeserializeStages(prior: EffectFile, s: bytes)
    requires Deserialize(prior, s).Ok?
    ensures |s| >= HeaderSize && VersionOf(AsciiDecode(UntilNul(s[..8]))).Ok?
    ensures var f := Deserialize(prior, s).value;
      && f.target.version == VersionOf(AsciiDecode(UntilNul(s[..8]))).value
      && DetectGame(f.target.version, s[HeaderSize..], prior.endian) == Ok(f.target.game)
      && ReadChunks(s[HeaderSize..], 0, prior.endian) == Ok(f.commands)
  {
  }

  /** The four fields `Serialize` writes. */
  lemma SerializeOfParts(f: EffectFile, magic: string, u: bytes, z: bytes, chunks: bytes)
    requires MagicOf(f.target.version) == Ok(magic)
    requires u == EncodeF32(f.unknown, f.endian) && chunks == WriteChunks(f.commands, f.endian)
    requires z == EncodeS32(WrapS32(HeaderSize + |chunks|), f.endian)
    ensures Serialize(f) == Ok(WriteString8(magic) + u + z + chunks)
  {
  }

  /** A file that reads names its game consistently: its SchedulerMetaAdd
      commands all declare that game's size, and its version is one the game
      uses. */
  lemma ReadIsConsistent(prior: EffectFile, s: bytes)
    requires Deserialize(prior, s).Ok?
    ensures var f := Deserialize(prior, s).value;
      && MetaAgree(f.commands, None) == Ok(Some(MetaSizeOf(f.target.game)))
      && VersionFits(f.target.game, f.target.version)
  {
    var f := Deserialize(prior, s).value;
    DeserializeStages(prior, s);
    ScanMatchesRead(s[HeaderSize..], 0, prior.endian, None, ReadChunks(s[HeaderSize..], 0, prior.endian).value);
    var meta := MetaAgree(f.commands, None);
    assert meta.Ok?;
    ClassifyExact(f.target.version, meta.value, f.target.game);
  }

  /** Writing then reading gives the file back, each command's data
      extended by the zero fill of its chunk. */
  lemma RoundTrip(f: EffectFile, prior: EffectFile)
    requires Writable(f) && prior.endian == f.endian
    ensures Serialize(f).Ok?
    ensures Deserialize(prior, Serialize(f).value) == Ok(f.(commands := PadAll(f.commands)))
  {
    var e := f.endian;
    var version := f.target.version;
    var magic := MagicOf(version).value;
    var chunks := WriteChunks(f.commands, e);
    var total := WrapS32(HeaderSize + |chunks|);
    var u, z := EncodeF32(f.unknown, e), EncodeS32(total, e);
    SerializeOfParts(f, magic, u, z, chunks);
    var s := WriteString8(magic) + u + z + chunks;
    Slices844(WriteString8(magic), u, z, chunks);
    MagicDecodes(magic);
    MagicVersionInverse(version, magic);
    DecodeEncodeU32(f.unknown, e);
    DecodeEncodeS32(total, e);
    assert total == |s|;
    DetectWritten(version, f.commands, e);
    ClassifyExact(version, Some(MetaSizeOf(f.target.game)), f.target.game);
    ChunksRoundTrip(f.commands, e);
    DeserializeOfParts(prior, s, version, f.target.game, PadAll(f.commands));
  }

  /** A magic field that reads as a version is the field written for it. */
  lemma MagicOfRead(s8: bytes, version: byte)
    requires |s8| == 8 && VersionOf(AsciiDecode(UntilNul(s8))) == Ok(version)
    ensures MagicOf(version).Ok? && WriteString8(MagicOf(version).value) == s8
  {
    var magic := AsciiDecode(UntilNul(s8));
    MagicVersionInverse(version, magic);
    MagicBytesUnique(s8, magic);
  }

  /** Chunks that read as commands already carrying their fill are the
      bytes written for those commands. */
  lemma ChunksOfRead(data: bytes, e: Endian, cs: seq<Command>)
    requires ReadChunks(data, 0, e) == Ok(cs) && PadAll(cs) == cs
    ensures WriteChunks(cs, e) == data
  {
    ReadChunksTiles(data, 0, e, cs);
    WriteChunksAreFrames(cs, e);
  }

  /** A stored total size equal to the length is the one written. */
  lemma TotalOfRead(s: bytes, e: Endian)
    requires |s| >= HeaderSize && DecodeS32(s[12..16], e) == |s|
    ensures EncodeS32(WrapS32(HeaderSize + |s[HeaderSize..]|), e) == s[12..16]
  {
    S32Bytes(s[12..16], e);
  }

  /** Reading then writing gives the bytes back when the stored total size
      is the true one and every chunk already carries its fill. */
  lemma WriteOfRead(prior: EffectFile, s: bytes)
    requires Deserialize(prior, s).Ok?
    requires DecodeS32(s[12..16], prior.endian) == |s|
    requires PadAll(Deserialize(prior, s).value.commands) == Deserialize(prior, s).value.commands
    ensures Serialize(Deserialize(prior, s).value) == Ok(s)
  {
    var e := prior.endian;
    var f := Deserialize(prior, s).value;
    DeserializeStages(prior, s);
    MagicOfRead(s[..8], f.target.version);
    ChunksOfRead(s[HeaderSize..], e, f.commands);
    TotalOfRead(s, e);
    EncodeDecodeU32(s[8..12], e);
    SerializeOfSlices(f, s);
  }

  /** Bytes whose four header slices are the parts `Serialize` writes are
      what it writes. */
  lemma SerializeOfSlices(f: EffectFile, s: bytes)
    requires |s| >= HeaderSize && MagicOf(f.target.version).Ok?
    requires WriteString8(MagicOf(f.target.version).value) == s[..8]
    requires EncodeF32(f.unknown, f.endian) == s[8..12]
    requires EncodeS32(WrapS32(HeaderSize + |s[HeaderSize..]|), f.endian) == s[12..16]
    requires WriteChunks(f.commands, f.endian) == s[HeaderSize..]
    ensures Serialize(f) == Ok(s)
  {
    SerializeOfParts(f, MagicOf(f.target.version).value, s[8..12], s[12..16], s[HeaderSize..]);
    Join844(s);
  }

  /** Writing what was read from written bytes gives the same bytes. */
  lemma ReserializeIsStable(f: EffectFile, prior: EffectFile)
    requires Writable(f) && prior.endian == f.endian
    ensures Serialize(f).Ok? && Deserialize(prior, Serialize(f).value).Ok?
    ensures Serialize(Deserialize(prior, Serialize(f).value).value) == Serialize(f)
  {
    RoundTrip(f, prior);
    Chunks.RewriteIsStable(f.commands, f.endian);
  }
}
