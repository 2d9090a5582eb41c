/** The IVF muxer, and why the demuxer reads back what it wrote. */
module IvfMux {
  import opened Wrappers
  import opened Bytes
  import opened IvfFormat
  import opened IvfDemux
  import opened IvfRuns
  import opened IvfSchedules
  import opened IvfReading

  // ---- Codecs ----

  /** `OtherCodec` carries the bytes of its tag, `NoFourcc` stands for every codec IVF has no code for. */
  datatype Codec = Av1 | Vp9 | Vp8 | H264 | Hevc | OtherCodec(tag: seq<byte>) | NoFourcc

  const AV01: seq<byte> := [0x41, 0x56, 0x30, 0x31]
  const VP90: seq<byte> := [0x56, 0x50, 0x39, 0x30]
  const VP80: seq<byte> := [0x56, 0x50, 0x38, 0x30]
  const H264_TAG: seq<byte> := [0x48, 0x32, 0x36, 0x34]
  const AVC1: seq<byte> := [0x41, 0x56, 0x43, 0x31]
  const HEVC_TAG: seq<byte> := [0x48, 0x45, 0x56, 0x43]
  const H265_TAG: seq<byte> := [0x48, 0x32, 0x36, 0x35]

  /** The tags that name a codec of their own. */
  const KNOWN_TAGS: set<seq<byte>> := {AV01, VP90, VP80, H264_TAG, AVC1, HEVC_TAG, H265_TAG}

  function CodecOf(fourcc: seq<byte>): (c: Codec) {
    if fourcc == AV01 then Av1
    else if fourcc == VP90 then Vp9
    else if fourcc == VP80 then Vp8
    else if fourcc == H264_TAG || fourcc == AVC1 then H264
    else if fourcc == HEVC_TAG || fourcc == H265_TAG then Hevc
    else OtherCodec(fourcc)
  }

  function FourccFor(c: Codec): (f: Option<seq<byte>>)
    ensures f.Some? ==> |f.value| == 4
  {
    match c
    case Av1 => Some(AV01)
    case Vp9 => Some(VP90)
    case Vp8 => Some(VP80)
    case H264 => Some(H264_TAG)
    case Hevc => Some(HEVC_TAG)
    case OtherCodec(tag) => if |tag| == 4 then Some(tag) else None
    case NoFourcc => None
  }

  /** A codec with a fourcc comes back as itself, exactly unless it is an unknown tag that names a known codec. */
  lemma {:induction false} CodecRoundTrip(c: Codec)
    requires FourccFor(c).Some?
    ensures CodecOf(FourccFor(c).value) == c <==> !(c.OtherCodec? && c.tag in KNOWN_TAGS)
  {
    assert AV01[3] != VP90[3] && AV01[3] != VP80[3] && VP90[2] != VP80[2];
    assert H264_TAG[0] != AV01[0] && H264_TAG[0] != VP90[0] && H264_TAG[0] != VP80[0];
    assert HEVC_TAG[0] != AV01[0] && HEVC_TAG[0] != VP90[0] && HEVC_TAG[0] != VP80[0];
    assert HEVC_TAG[1] != H264_TAG[1] && HEVC_TAG[0] != AVC1[0];
  }

  /** The tags as text. */
  lemma {:induction false} TagsAreSpelled()
    ensures AV01 == Ascii("AV01") && VP90 == Ascii("VP90") && VP80 == Ascii("VP80")
    ensures H264_TAG == Ascii("H264") && AVC1 == Ascii("AVC1") && HEVC_TAG == Ascii("HEVC") && H265_TAG == Ascii("H265")
  {
  }

  /** The codecs they name, and the tag each codec is written with. */
  lemma {:induction false} TagsName()
    ensures CodecOf(AV01) == Av1 && CodecOf(VP90) == Vp9 && CodecOf(VP80) == Vp8
    ensures CodecOf(H264_TAG) == CodecOf(AVC1) == H264 && CodecOf(HEVC_TAG) == CodecOf(H265_TAG) == Hevc
    ensures FourccFor(Av1) == Some(AV01) && FourccFor(Vp9) == Some(VP90) && FourccFor(Vp8) == Some(VP80)
    ensures FourccFor(H264) == Some(H264_TAG) && FourccFor(Hevc) == Some(HEVC_TAG)
  {
    CodecRoundTrip(Av1);
    CodecRoundTrip(Vp9);
    CodecRoundTrip(Vp8);
    CodecRoundTrip(H264);
    CodecRoundTrip(Hevc);
    assert AVC1[2] != AV01[2] && VP90[0] != AVC1[0] && VP80[0] != AVC1[0];
    assert H265_TAG[0] != AV01[0] && H265_TAG[0] != VP90[0] && H265_TAG[0] != AVC1[0] && H265_TAG[3] != H264_TAG[3];
    assert VP80[0] != H265_TAG[0];
  }

  // ---- The bytes of a muxed file ----

  datatype Track = Track(isVideo: bool, codec: Codec, width: nat, height: nat, timeBase: TimeBase)

  /** What of a packet reaches the file. */
  datatype Sample = Sample(payload: seq<byte>, pts: int) {
    predicate Fits() { |payload| < U32 && IsI64(pts) }
  }

  /** A track `begin` accepts. */
  predicate Muxable(t: Track) {
    t.isVideo && FourccFor(t.codec).Some? && t.width < U16 && t.height < U16 && t.timeBase.Valid()
  }

  /** The header with a frame count. */
  function HeaderBytes(t: Track, count: nat): (b: seq<byte>)
    requires Muxable(t) && count < U32
    ensures |b| == HEADER_LEN
  {
    SIGNATURE + Le16(0) + Le16(HEADER_LEN) + FourccFor(t.codec).value + Le16(t.width) + Le16(t.height)
    + Le32(t.timeBase.den) + Le32(t.timeBase.num) + Le32(count) + [0, 0, 0, 0]
  }

  function PacketBytes(s: Sample): (b: seq<byte>)
    requires s.Fits()
    ensures |b| == PACKET_HEADER_LEN + |s.payload|
  {
    Le32(|s.payload|) + Le64(Unsigned64(s.pts)) + s.payload
  }

  ghost predicate AllFit(samples: seq<Sample>) { forall i :: 0 <= i < |samples| ==> samples[i].Fits() }

  ghost function Body(samples: seq<Sample>): (b: seq<byte>)
    requires AllFit(samples)
  {
    if samples == [] then [] else PacketBytes(samples[0]) + Body(samples[1..])
  }

  lemma {:induction false} BodySnoc(samples: seq<Sample>, s: Sample)
    requires AllFit(samples) && s.Fits()
    ensures AllFit(samples + [s]) && Body(samples + [s]) == Body(samples) + PacketBytes(s)
  {
    if samples == [] {
      assert Body([]) == [] && [s][1..] == [];
      assert samples + [s] == [s];
      assert Body([s]) == PacketBytes(s) + Body([s][1..]);
    } else {
      hide PacketBytes, Sample.Fits;
      BodySnoc(samples[1..], s);
      assert (samples + [s])[1..] == samples[1..] + [s];
      var (first, rest) := (PacketBytes(samples[0]), Body(samples[1..]));
      assert Body(samples + [s]) == first + (rest + PacketBytes(s)) == (first + rest) + PacketBytes(s);
    }
  }

  /** The file of a track and its samples, with a frame count in its header. */
  ghost function Serialize(t: Track, samples: seq<Sample>, count: nat): (b: seq<byte>)
    requires Muxable(t) && AllFit(samples) && count < U32
  {
    HeaderBytes(t, count) + Body(samples)
  }

  lemma {:induction false} SerializeSnoc(t: Track, samples: seq<Sample>, s: Sample, drained: seq<byte>, out: seq<byte>)
    requires Muxable(t) && AllFit(samples) && s.Fits() && drained + out == Serialize(t, samples, 0)
    ensures AllFit(samples + [s]) && drained + (out + PacketBytes(s)) == Serialize(t, samples + [s], 0)
  {
    BodySnoc(samples, s);
    assert drained + (out + PacketBytes(s)) == (drained + out) + PacketBytes(s);
    assert HeaderBytes(t, 0) + (Body(samples) + PacketBytes(s)) == (HeaderBytes(t, 0) + Body(samples)) + PacketBytes(s);
  }

  // ---- The muxer ----

  datatype Stamp = Stamp(ticks: int, base: TimeBase)

  /** A packet handed to the muxer; its payload may have been taken already. */
  datatype Offered = Offered(track: nat, pts: Option<Stamp>, payload: Option<seq<byte>>)

  datatype Patch = Patch(offset: nat, bytes: seq<byte>)

  datatype Finish = Finish(remaining: seq<byte>, patches: seq<Patch>)

  /** Why a packet is refused, if it is, checked in the muxer's order. */
  function Refusal(p: Offered, begun: bool, timeBase: Option<TimeBase>, patching: bool,
      count: nat): (e: Option<IvfError>) {
    if !begun then Some(NoBegin)
    else if p.track != 0 then Some(NoSuchTrack)
    else if p.pts.None? then Some(MissingTimestamp)
    else if Some(p.pts.value.base) != timeBase then Some(ClockMismatch)
    else if patching && count >= NO_COUNT - 1 then Some(TooManyPackets)
    else if p.payload.None? then Some(EmptyPacket)
    else if |p.payload.value| >= U32 then Some(PacketTooLarge)
    else None
  }

  /** Why a track list is refused, if it is. */
  function BeginRefusal(tracks: seq<Track>, begun: bool): (e: Option<IvfError>) {
    if begun then Some(BeginTwice)
    else if |tracks| != 1 || !tracks[0].isVideo then Some(OneVideoTrack)
    else if FourccFor(tracks[0].codec).None? then Some(UnsupportedCodec)
    else if tracks[0].width >= U16 || tracks[0].height >= U16 then Some(DimensionsTooLarge)
    else None
  }

  class IvfMuxer {
    const countPatch: bool
    var out: seq<byte>
    var begun: bool
    var patching: bool
    var timeBase: Option<TimeBase>
    var count: nat
    /** What the destination has taken so far. */
    ghost var drained: seq<byte>
    ghost var track: Option<Track>
    ghost var samples: seq<Sample>

    /** All that was ever put out is the file of the accepted packets, its count unknown. */
    ghost predicate Valid()
      reads this
    {
      && begun == track.Some? && count == |samples| && AllFit(samples)
      && (patching ==> begun && count < NO_COUNT)
      && if track.None? then out == [] && drained == [] && samples == [] && timeBase.None?
         else Muxable(track.value) && timeBase == Some(track.value.timeBase)
              && drained + out == Serialize(track.value, samples, 0)
    }

    constructor (withCountPatch: bool)
      ensures Valid() && !begun && samples == [] && countPatch == withCountPatch
    {
      countPatch := withCountPatch;
      out, begun, patching, timeBase, count := [], false, false, None, 0;
      drained, track, samples := [], None, [];
    }

    method Begin(tracks: seq<Track>, forwardOnly: bool) returns (r: Result<bool, IvfError>)
      requires Valid() && forall t :: t in tracks ==> t.timeBase.Valid()
      modifies this
      ensures Valid() && drained == old(drained)
      ensures match BeginRefusal(tracks, old(begun))
        case Some(e) =>
          && r == Err(e) && begun == old(begun) && track == old(track) && samples == old(samples)
          && out == old(out) && patching == old(patching)
        case None =>
          && patching == (countPatch && !forwardOnly) && r == Ok(patching)
          && track == Some(tracks[0]) && samples == []
    {
      if begun { return Err(BeginTwice); }
      if |tracks| != 1 { return Err(OneVideoTrack); }
      var t := tracks[0];
      if !t.isVideo { return Err(OneVideoTrack); }
      var fourcc := FourccFor(t.codec);
      if fourcc.None? { return Err(UnsupportedCodec); }
      if t.width >= U16 || t.height >= U16 { return Err(DimensionsTooLarge); }
      assert t in tracks;
      out := out + HeaderBytes(t, 0);
      timeBase := Some(t.timeBase);
      patching := countPatch && !forwardOnly;
      begun := true;
      track := Some(t);
      assert Body([]) == [];
      assert drained + out == HeaderBytes(t, 0) + [];
      r := Ok(patching);
    }

    method WritePacket(p: Offered) returns (r: Result<(), IvfError>)
      requires Valid() && (p.pts.Some? ==> IsI64(p.pts.value.ticks))
      modifies this
      ensures Valid() && drained == old(drained) && track == old(track) && patching == old(patching)
        && begun == old(begun)
      ensures match Refusal(p, old(begun), old(timeBase), old(patching), old(count))
        case Some(e) => r == Err(e) && samples == old(samples) && out == old(out)
        case None => r == Ok(()) && samples == old(samples) + [Sample(p.payload.value, p.pts.value.ticks)]
    {
      if !begun { return Err(NoBegin); }
      if p.track != 0 { return Err(NoSuchTrack); }
      if p.pts.None? { return Err(MissingTimestamp); }
      var pts := p.pts.value;
      if Some(pts.base) != timeBase { return Err(ClockMismatch); }
      if patching && count >= NO_COUNT - 1 { return Err(TooManyPackets); }
      if p.payload.None? { return Err(EmptyPacket); }
      var bytes := p.payload.value;
      if |bytes| >= U32 { return Err(PacketTooLarge); }
      Append(bytes, pts.ticks);
      r := Ok(());
    }

    /** Puts out one packet. */
    method Append(bytes: seq<byte>, ticks: int)
      requires Valid() && begun && Sample(bytes, ticks).Fits() && (patching ==> count < NO_COUNT - 1)
      modifies this
      ensures Valid() && drained == old(drained) && track == old(track) && patching == old(patching) && begun
      ensures samples == old(samples) + [Sample(bytes, ticks)]
    {
      ghost var s := Sample(bytes, ticks);
      SerializeSnoc(track.value, samples, s, drained, out);
      out := out + Le32(|bytes|);
      out := out + Le64(Unsigned64(ticks));
      out := out + bytes;
      assert out == old(out) + PacketBytes(s);
      count := count + 1;
      samples := samples + [s];
    }

    /** The destination takes the first `n` pending bytes. */
    method ConsumeOutput(n: nat)
      requires Valid() && n <= |out|
      modifies this`out, this`drained
      ensures Valid() && drained == old(drained) + old(out)[..n] && out == old(out)[n..]
    {
      assert drained + out == (drained + out[..n]) + out[n..];
      drained := drained + out[..n];
      out := out[n..];
    }

    /**
     Whatever was taken before, the destination ends with the whole file once the rest and the patches are
     applied.
     */
    method FinishOutput() returns (r: Result<Finish, IvfError>)
      requires Valid()
      ensures !begun ==> r == Err(NoBegin)
      ensures begun ==> r.Ok? && Applied(drained + r.value.remaining, r.value.patches)
                                 == Serialize(track.value, samples, if patching then count else 0)
      ensures CountFor(if patching then count else 0, |samples|)
    {
      if !begun { return Err(NoBegin); }
      var patches := [];
      if patching {
        patches := [Patch(COUNT_OFFSET, Le32(count))];
        CountPatched(track.value, samples, count);
      }
      r := Ok(Finish(out, patches));
    }
  }

  /** A destination overwritten by patches in order. */
  function Applied(file: seq<byte>, patches: seq<Patch>): (b: seq<byte>)
    decreases |patches|
  {
    if patches == [] then file else
    var p := patches[0];
    var end := p.offset + |p.bytes|;
    Applied(if end <= |file| then file[..p.offset] + p.bytes + file[end..] else file, patches[1..])
  }

  /** Patching the count into a file of unknown count gives the file of that count. */
  lemma {:induction false} CountPatched(t: Track, samples: seq<Sample>, count: nat)
    requires Muxable(t) && AllFit(samples) && count < U32
    ensures Applied(Serialize(t, samples, 0), [Patch(COUNT_OFFSET, Le32(count))]) == Serialize(t, samples, count)
  {
    var before := SIGNATURE + Le16(0) + Le16(HEADER_LEN) + FourccFor(t.codec).value + Le16(t.width) + Le16(t.height)
                  + Le32(t.timeBase.den) + Le32(t.timeBase.num);
    var after := [0, 0, 0, 0] + Body(samples);
    assert Serialize(t, samples, 0) == before + Le32(0) + after;
    assert Serialize(t, samples, count) == before + Le32(count) + after;
    PatchMiddle(before, Le32(0), Le32(count), after);
  }

  lemma {:induction false} PatchMiddle(before: seq<byte>, x: seq<byte>, y: seq<byte>, after: seq<byte>)
    requires |x| == |y|
    ensures Applied(before + x + after, [Patch(|before|, y)]) == before + y + after
  {
    var file := before + x + after;
    assert file[..|before|] == before && file[|before| + |y|..] == after;
    assert [Patch(|before|, y)][1..] == [];
  }

  // ---- Reading it back ----

  /** How many samples come before the first empty one. */
  function Readable(samples: seq<Sample>): (n: nat)
    ensures n <= |samples|
    ensures n == |samples| <==> forall i :: 0 <= i < |samples| ==> samples[i].payload != []
  {
    if samples == [] || samples[0].payload == [] then 0
    else
      var n := Readable(samples[1..]);
      assert forall i :: 0 < i < |samples| ==> samples[i] == samples[1..][i - 1];
      n + 1
  }

  /** The packets a reader should find for samples laid out from `offset`. */
  function PacketsOf(samples: seq<Sample>, offset: nat, ordinal: nat): (ps: seq<Packet>)
    ensures |ps| == |samples|
    ensures forall i :: 0 <= i < |ps| ==>
      ps[i].payload == samples[i].payload && ps[i].pts == samples[i].pts && ps[i].ordinal == ordinal + i
  {
    if samples == [] then [] else
    [Packet(samples[0].payload, samples[0].pts, ordinal, offset)]
    + PacketsOf(samples[1..], offset + PACKET_HEADER_LEN + |samples[0].payload|, ordinal + 1)
  }

  lemma {:induction false} SliceOf(b: seq<byte>, x: seq<byte>, y: seq<byte>, z: seq<byte>)
    requires b == x + y + z
    ensures HoldsAt(b, |x|, y)
  {
  }

  /** Where the parts of a packet lie. */
  lemma {:induction false} PacketParts(file: seq<byte>, pos: nat, len: seq<byte>, pts: seq<byte>, payload: seq<byte>,
      rest: seq<byte>)
    requires pos <= |file| && |len| == 4 && |pts| == 8 && file[pos..] == len + pts + payload + rest
    ensures HoldsAt(file, pos, len) && HoldsAt(file, pos + 4, pts) && HoldsAt(file, pos + 12, payload)
    ensures file[pos + 12 + |payload|..] == rest
  {
    hide HoldsAt;
    var before := file[..pos];
    assert file == before + len + (pts + payload + rest);
    SliceOf(file, before, len, pts + payload + rest);
    assert file == (before + len) + pts + (payload + rest);
    SliceOf(file, before + len, pts, payload + rest);
    assert file == (before + len + pts) + payload + rest;
    SliceOf(file, before + len + pts, payload, rest);
  }

  /** One packet's bytes are read as that packet. */
  lemma {:induction false} PacketReads(file: seq<byte>, pos: nat, s: Sample, rest: seq<byte>, ordinal: nat)
    requires s.Fits() && pos <= |file| && file[pos..] == PacketBytes(s) + rest
    ensures pos + PACKET_HEADER_LEN <= |file| && U32At(file, pos) == |s.payload|
    ensures s.payload == [] ==> StopAt(file, pos) == Some(Some(EmptyPacket))
    ensures s.payload != [] ==> StopAt(file, pos).None?
    ensures s.payload != [] ==> PacketAt(file, pos, ordinal) == Packet(s.payload, s.pts, ordinal, pos)
    ensures s.payload != [] ==> file[NextPos(file, pos)..] == rest
  {
    hide Le32, Le64, U32At, U64At;
    PacketParts(file, pos, Le32(|s.payload|), Le64(Unsigned64(s.pts)), s.payload, rest);
    ReadLe32(file, pos, |s.payload|);
    ReadLe64(file, pos + 4, Unsigned64(s.pts));
  }

  /** The chain at `pos` is the samples, up to the first that is empty. */
  ghost predicate ReadsAs(file: seq<byte>, pos: nat, samples: seq<Sample>, ordinal: nat) {
    var c := ReadChain(file, pos, ordinal);
    var n := Readable(samples);
    && c.packets == PacketsOf(samples[..n], pos, ordinal)
    && (if n == |samples| then c.error.None? && c.end == |file|
        else c.error == Some(EmptyPacket) && c.end + PACKET_HEADER_LEN <= |file|)
  }

  lemma {:induction false} ReadsOneMore(file: seq<byte>, pos: nat, samples: seq<Sample>, ordinal: nat)
    requires samples != [] && samples[0].payload != [] && StopAt(file, pos).None?
    requires PacketAt(file, pos, ordinal) == Packet(samples[0].payload, samples[0].pts, ordinal, pos)
    requires NextPos(file, pos) == pos + PACKET_HEADER_LEN + |samples[0].payload|
    requires ReadsAs(file, NextPos(file, pos), samples[1..], ordinal + 1)
    ensures ReadsAs(file, pos, samples, ordinal)
  {
    hide StopAt, PacketAt, NextPos;
    var n := Readable(samples);
    assert samples[..n][1..] == samples[1..][..n - 1];
  }

  /** A body is read as its samples. */
  lemma {:induction false} BodyReads(file: seq<byte>, pos: nat, samples: seq<Sample>, ordinal: nat)
    requires AllFit(samples) && pos <= |file| && file[pos..] == Body(samples)
    ensures ReadsAs(file, pos, samples, ordinal)
    decreases |samples|
  {
    if samples == [] {
      assert samples[..0] == [] && PacketsOf([], pos, ordinal) == [];
    } else {
      PacketReads(file, pos, samples[0], Body(samples[1..]), ordinal);
      if samples[0].payload == [] {
        assert samples[..0] == [] && PacketsOf([], pos, ordinal) == [];
      } else {
        BodyReads(file, NextPos(file, pos), samples[1..], ordinal + 1);
        ReadsOneMore(file, pos, samples, ordinal);
      }
    }
  }

  /** Where the header's fields are. */
  lemma {:induction false} HeaderLayout(t: Track, count: nat, file: seq<byte>, rest: seq<byte>)
    requires Muxable(t) && count < U32 && file == HeaderBytes(t, count) + rest
    ensures HoldsAt(file, 0, SIGNATURE) && HoldsAt(file, 4, Le16(0)) && HoldsAt(file, 6, Le16(HEADER_LEN))
    ensures HoldsAt(file, 8, FourccFor(t.codec).value) && HoldsAt(file, 12, Le16(t.width))
      && HoldsAt(file, 14, Le16(t.height))
    ensures HoldsAt(file, 16, Le32(t.timeBase.den)) && HoldsAt(file, 20, Le32(t.timeBase.num))
      && HoldsAt(file, 24, Le32(count)) && HoldsAt(file, 28, [0, 0, 0, 0])
  {
    FieldsAt(SIGNATURE, Le16(0), Le16(HEADER_LEN), FourccFor(t.codec).value, Le16(t.width), Le16(t.height),
             Le32(t.timeBase.den), Le32(t.timeBase.num), Le32(count), [0, 0, 0, 0], rest, file);
  }

  lemma {:induction false} FieldsAt(a: seq<byte>, b: seq<byte>, c: seq<byte>, d: seq<byte>, e: seq<byte>, f: seq<byte>,
    g: seq<byte>, h: seq<byte>, i: seq<byte>, z: seq<byte>, rest: seq<byte>, file: seq<byte>)
    requires |a| == 4 && |b| == |c| == 2 && |d| == 4 && |e| == |f| == 2 && |g| == |h| == |i| == |z| == 4
    requires file == (a + b + c + d + e + f + g + h + i + z) + rest
    ensures HoldsAt(file, 0, a) && HoldsAt(file, 4, b) && HoldsAt(file, 6, c) && HoldsAt(file, 8, d)
      && HoldsAt(file, 12, e)
    ensures HoldsAt(file, 14, f) && HoldsAt(file, 16, g) && HoldsAt(file, 20, h) && HoldsAt(file, 24, i)
    ensures HoldsAt(file, 28, z)
  {
  }

  /** The header is read as the track it was written for, exactly unless a dimension is zero. */
  lemma {:induction false} HeaderReads(t: Track, count: nat, file: seq<byte>, rest: seq<byte>)
    requires Muxable(t) && count < U32 && file == HeaderBytes(t, count) + rest
    ensures ParseHeader(file) ==
      if t.width == 0 || t.height == 0 then Err(ZeroDimensions)
      else Ok(Header(FourccFor(t.codec).value, t.width, t.height, t.timeBase, Declared(count), HEADER_LEN))
  {
    HeaderLayout(t, count, file, rest);
    ReadLe16(file, 4, 0);
    ReadLe16(file, 6, HEADER_LEN);
    ReadLe16(file, 12, t.width);
    ReadLe16(file, 14, t.height);
    ReadLe32(file, 16, t.timeBase.den);
    ReadLe32(file, 20, t.timeBase.num);
    ReadLe32(file, 24, count);
  }

  /** A count the muxer may have left in the header: unknown, or the number of packets it let through. */
  predicate CountFor(count: nat, n: nat) { count == 0 || (count == n && n < NO_COUNT) }

  /** What a demuxed copy of a muxed file shows. */
  ghost predicate ReadBack(t: Track, samples: seq<Sample>, file: seq<byte>, n: nat, end: Outcome)
    requires n <= |samples|
  {
    Ends(MachineOf(file), START, n + 2, [Headers] + PacketEvents(PacketsOf(samples[..n], HEADER_LEN, 0)), end)
  }

  lemma {:induction false} MuxedChain(t: Track, samples: seq<Sample>, count: nat, h: Header)
    requires Muxable(t) && AllFit(samples) && CountFor(count, |samples|) && h.headerLen == HEADER_LEN
      && h.declared == Declared(count)
    ensures
      var file := Serialize(t, samples, count);
      var (c, n) := (FileChain(file, h), Readable(samples));
      && c.packets == PacketsOf(samples[..n], HEADER_LEN, 0) && StopBefore(h, c) == n
      && EndAt(file, h, c, n) == if n == |samples| then Emit(Done) else Fail(EmptyPacket)
  {
    var file := Serialize(t, samples, count);
    assert file[HEADER_LEN..] == Body(samples);
    BodyReads(file, HEADER_LEN, samples, 0);
  }

  /**
   Demuxing what the muxer wrote: the same dimensions, time base and packets, in
   order and numbered from 0, then the end; and never a count mismatch. An empty
   payload, which the muxer writes but no demuxer accepts, ends the reading there.
   */
  lemma {:induction false} MuxRoundTrip(t: Track, samples: seq<Sample>, count: nat)
    requires Muxable(t) && t.width > 0 && t.height > 0 && AllFit(samples) && CountFor(count, |samples|)
    ensures
      var file := Serialize(t, samples, count);
      var n := Readable(samples);
      && ParseHeader(file) ==
        Ok(Header(FourccFor(t.codec).value, t.width, t.height, t.timeBase, Declared(count), HEADER_LEN))
      && ReadBack(t, samples, file, n, if n == |samples| then Emit(Done) else Fail(EmptyPacket))
  {
    var file := Serialize(t, samples, count);
    HeaderReads(t, count, file, Body(samples));
    var h := ParseHeader(file).value;
    MuxedChain(t, samples, count, h);
    SequentialRead(file, h);
    var c := FileChain(file, h);
    assert c.packets[..|c.packets|] == c.packets;
  }

  /** A zero dimension is written but never read back. */
  lemma {:induction false} ZeroDimensionsFail(t: Track, samples: seq<Sample>, count: nat)
    requires Muxable(t) && (t.width == 0 || t.height == 0) && AllFit(samples) && count < U32
    ensures Ends(MachineOf(Serialize(t, samples, count)), START, 1, [], Fail(ZeroDimensions))
  {
    var file := Serialize(t, samples, count);
    HeaderReads(t, count, file, Body(samples));
    EndsNow(MachineOf(file), START, Fail(ZeroDimensions));
  }
}
