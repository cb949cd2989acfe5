/** Frame headers of AC-3 / E-AC-3, MPEG-1/2 audio and AAC in ADTS. */
module AudioHeaders {
  import opened Arithmetic
  import opened Bytes
  import opened Wrappers

  datatype FrameKind = Ac3 | Eac3 | MpegLayer1 | MpegLayer2 | MpegLayer3 | AacAdts

  datatype FrameInfo = FrameInfo(
    kind: FrameKind, frameLen: nat, samplesPerFrame: nat, sampleRate: nat, channels: nat, bitRate: Option<nat>)
  {
    /** Frame duration in 90 kHz ticks, rounded to nearest. */
    function Duration90k(): nat {
      if sampleRate == 0 then 0 else (samplesPerFrame * 90_000 + sampleRate / 2) / sampleRate
    }
  }

  // ---- AC-3 and E-AC-3 ----

  const AC3_FRAME_WORDS_48K: seq<nat> := [
    64, 64, 80, 80, 96, 96, 112, 112, 128, 128, 160, 160, 192, 192, 224, 224, 256, 256, 320, 320,
    384, 384, 448, 448, 512, 512, 640, 640, 768, 768, 896, 896, 1024, 1024, 1152, 1152, 1280, 1280]

  const AC3_FRAME_WORDS_44K: seq<nat> := [
    69, 70, 87, 88, 104, 105, 121, 122, 139, 140, 174, 175, 208, 209, 243, 244, 278, 279, 348, 349,
    417, 418, 487, 488, 557, 558, 696, 697, 835, 836, 975, 976, 1114, 1115, 1253, 1254, 1393, 1394]

  const AC3_FRAME_WORDS_32K: seq<nat> := [
    96, 96, 120, 120, 144, 144, 168, 168, 192, 192, 240, 240, 288, 288, 336, 336, 384, 384, 480, 480,
    576, 576, 672, 672, 768, 768, 960, 960, 1152, 1152, 1344, 1344, 1536, 1536, 1728, 1728, 1920, 1920]

  const AC3_BIT_RATE_KBPS: seq<nat> := [
    32, 40, 48, 56, 64, 80, 96, 112, 128, 160, 192, 224, 256, 320, 384, 448, 512, 576, 640]

  const AC3_NFCHANS: seq<nat> := [2, 1, 2, 3, 3, 4, 4, 5]
  const AC3_SAMPLE_RATE: seq<nat> := [48_000, 44_100, 32_000]
  const EAC3_SAMPLE_RATE2: seq<nat> := [24_000, 22_050, 16_000]
  const EAC3_BLOCKS: seq<nat> := [1, 2, 3, 6]

  /** The bit at an absolute offset, or 0 past the end. */
  function BitOr0(b: seq<Byte>, bit: nat): nat {
    if bit / 8 < |b| then BitAt(b[bit / 8], bit % 8) as nat else 0
  }

  /** Where lfeon lies behind acmod and the mix-level fields it brings. */
  function LfeBit(acmod: nat): nat {
    51
    + (if acmod % 2 == 1 && acmod != 1 then 2 else 0)
    + (if acmod >= 4 then 2 else 0)
    + (if acmod == 2 then 2 else 0)
  }

  function Ac3Info(b4: nat, b6: nat, lfeon: nat): Option<FrameInfo>
    requires b4 < 256 && b6 < 256
  {
    var fscod, frmsizecod, acmod := b4 / 64, b4 % 64, b6 / 32;
    if fscod > 2 || frmsizecod >= 38 then None
    else
      var words := if fscod == 0 then AC3_FRAME_WORDS_48K[frmsizecod]
                   else if fscod == 1 then AC3_FRAME_WORDS_44K[frmsizecod]
                   else AC3_FRAME_WORDS_32K[frmsizecod];
      Some(FrameInfo(Ac3, words * 2, 1536, AC3_SAMPLE_RATE[fscod],
                     AC3_NFCHANS[acmod] + lfeon, Some(AC3_BIT_RATE_KBPS[frmsizecod / 2] * 1000)))
  }

  function Eac3Info(b2: nat, b3: nat, b4: nat): Option<FrameInfo>
    requires b2 < 256 && b3 < 256 && b4 < 256
  {
    var frmsiz := b2 % 8 * 256 + b3;
    var fscod, code2 := b4 / 64, b4 / 16 % 4;
    var channels := AC3_NFCHANS[b4 / 2 % 8] + b4 % 2;
    if fscod == 3 then
      if code2 > 2 then None
      else Some(FrameInfo(Eac3, (frmsiz + 1) * 2, 6 * 256, EAC3_SAMPLE_RATE2[code2], channels, None))
    else
      Some(FrameInfo(Eac3, (frmsiz + 1) * 2, EAC3_BLOCKS[code2] * 256, AC3_SAMPLE_RATE[fscod], channels, None))
  }

  function ParseAc3Frame(b: seq<Byte>): Option<FrameInfo> {
    if |b| < 6 || b[0] != 0x0B || b[1] != 0x77 then None
    else
      var bsid := b[5] as nat / 8;
      if bsid <= 8 then
        if |b| < 7 then None
        else Ac3Info(b[4] as nat, b[6] as nat, BitOr0(b, LfeBit(b[6] as nat / 32)))
      else if 11 <= bsid <= 16 then Eac3Info(b[2] as nat, b[3] as nat, b[4] as nat)
      else None
  }

  // ---- MPEG-1/2 audio ----

  const MPEG1_BITRATE_KBPS: seq<seq<nat>> := [
    [0, 32, 64, 96, 128, 160, 192, 224, 256, 288, 320, 352, 384, 416, 448, 0],
    [0, 32, 48, 56, 64, 80, 96, 112, 128, 160, 192, 224, 256, 320, 384, 0],
    [0, 32, 40, 48, 56, 64, 80, 96, 112, 128, 160, 192, 224, 256, 320, 0]]

  const MPEG2_BITRATE_KBPS: seq<seq<nat>> := [
    [0, 32, 48, 56, 64, 80, 96, 112, 128, 144, 160, 176, 192, 224, 256, 0],
    [0, 8, 16, 24, 32, 40, 48, 56, 64, 80, 96, 112, 128, 144, 160, 0]]

  const MPEG1_SAMPLE_RATE: seq<nat> := [44_100, 48_000, 32_000]
  const MPEG2_SAMPLE_RATE: seq<nat> := [22_050, 24_000, 16_000]

  /** Bit rate in bit/s and sampling rate of the coded indices. */
  function MpegRates(id: nat, layerIndex: nat, bitrateIndex: nat, sfIndex: nat): (r: (nat, nat))
    requires layerIndex < 3 && bitrateIndex < 16 && sfIndex < 3
    ensures r.1 > 0
  {
    if id == 1 then (1000 * MPEG1_BITRATE_KBPS[layerIndex][bitrateIndex], MPEG1_SAMPLE_RATE[sfIndex])
    else (1000 * MPEG2_BITRATE_KBPS[if layerIndex == 0 then 0 else 1][bitrateIndex], MPEG2_SAMPLE_RATE[sfIndex])
  }

  function MpegInfo(b1: nat, b2: nat, b3: nat): Option<FrameInfo> {
    var id, layerCode := b1 / 8 % 2, b1 / 2 % 4;
    var bitrateIndex, sfIndex, padding := b2 / 16 % 16, b2 / 4 % 4, b2 / 2 % 2;
    var channels := if b3 / 64 == 3 then 1 else 2;
    if layerCode == 0 || bitrateIndex == 0 || bitrateIndex == 15 || sfIndex == 3 then None
    else
      var layerIndex := 3 - layerCode;
      var (bitrate, rate) := MpegRates(id, layerIndex, bitrateIndex, sfIndex);
      if layerIndex == 0 then
        Some(FrameInfo(MpegLayer1, 12 * bitrate / rate * 4 + padding * 4, 384, rate, channels, Some(bitrate)))
      else if layerIndex == 1 then
        Some(FrameInfo(MpegLayer2, 144 * bitrate / rate + padding, 1152, rate, channels, Some(bitrate)))
      else
        var slots, samples := if id == 1 then 144 else 72, if id == 1 then 1152 else 576;
        Some(FrameInfo(MpegLayer3, slots * bitrate / rate + padding, samples, rate, channels, Some(bitrate)))
  }

  function ParseMpegAudioHeader(b: seq<Byte>): Option<FrameInfo> {
    if |b| < 4 || b[0] != 0xFF || b[1] as nat / 16 != 15 then None
    else MpegInfo(b[1] as nat, b[2] as nat, b[3] as nat)
  }

  // ---- AAC in ADTS ----

  const ADTS_SAMPLE_RATE: seq<nat> := [
    96_000, 88_200, 64_000, 48_000, 44_100, 32_000, 24_000, 22_050, 16_000, 12_000, 11_025, 8_000]

  const ADTS_CHANNELS: seq<nat> := [0, 1, 2, 3, 4, 5, 6, 8]

  function ParseAdtsHeader(b: seq<Byte>): Option<FrameInfo> {
    if |b| < 7 || b[0] != 0xFF || b[1] as nat / 16 != 15 || b[1] as nat / 2 % 4 != 0 then None
    else
      var sfIndex := b[2] as nat / 4 % 16;
      if sfIndex >= |ADTS_SAMPLE_RATE| then None
      else
        var channelConfiguration := b[2] as nat % 2 * 4 + b[3] as nat / 64;
        var frameLength := b[3] as nat % 4 * 2048 + b[4] as nat * 8 + b[5] as nat / 32;
        var headerLen := if b[1] as nat % 2 == 1 then 7 else 9;
        if frameLength < headerLen then None
        else
          Some(FrameInfo(AacAdts, frameLength, 1024 * (b[6] as nat % 4 + 1), ADTS_SAMPLE_RATE[sfIndex],
                         ADTS_CHANNELS[channelConfiguration], None))
  }

  // ---- One syntax ----

  datatype Syntax = Ac3Syntax | MpegAudioSyntax | AdtsSyntax
  {
    function Parse(b: seq<Byte>): Option<FrameInfo> {
      match this
      case Ac3Syntax => ParseAc3Frame(b)
      case MpegAudioSyntax => ParseMpegAudioHeader(b)
      case AdtsSyntax => ParseAdtsHeader(b)
    }

    function HeaderLen(): nat {
      match this
      case Ac3Syntax => 8
      case MpegAudioSyntax => 4
      case AdtsSyntax => 7
    }
  }

  /** No parser looks past the header, so a header parses alike in whatever follows it. */
  lemma ParseIsLocal(syn: Syntax, a: seq<Byte>, b: seq<Byte>)
    requires |a| >= syn.HeaderLen() && |b| >= syn.HeaderLen()
    requires a[..syn.HeaderLen()] == b[..syn.HeaderLen()]
    ensures syn.Parse(a) == syn.Parse(b)
  {
    var n := syn.HeaderLen();
    forall i | 0 <= i < n ensures a[i] == b[i] {
      assert a[i] == a[..n][i] && b[i] == b[..n][i];
    }
    match syn {
      case Ac3Syntax => Ac3IsLocal(a, b);
      case MpegAudioSyntax => MpegIsLocal(a, b);
      case AdtsSyntax => AdtsIsLocal(a, b);
    }
  }

  lemma Ac3IsLocal(a: seq<Byte>, b: seq<Byte>)
    requires |a| >= 8 && |b| >= 8 && forall i | 0 <= i < 8 :: a[i] == b[i]
    ensures ParseAc3Frame(a) == ParseAc3Frame(b)
  {
    hide BitOr0, Ac3Info, Eac3Info;
    SameBits(a, b);
    assert a[0] == b[0] && a[1] == b[1] && a[2] == b[2] && a[3] == b[3];
    assert a[4] == b[4] && a[5] == b[5] && a[6] == b[6];
  }

  lemma SameBits(a: seq<Byte>, b: seq<Byte>)
    requires |a| >= 8 && |b| >= 8 && forall i | 0 <= i < 8 :: a[i] == b[i]
    ensures forall bit: nat | bit < 64 :: BitOr0(a, bit) == BitOr0(b, bit)
  {
    forall bit: nat | bit < 64 ensures BitOr0(a, bit) == BitOr0(b, bit) {
      assert a[bit / 8] == b[bit / 8];
    }
  }

  lemma MpegIsLocal(a: seq<Byte>, b: seq<Byte>)
    requires |a| >= 4 && |b| >= 4 && forall i | 0 <= i < 4 :: a[i] == b[i]
    ensures ParseMpegAudioHeader(a) == ParseMpegAudioHeader(b)
  {
    hide MpegInfo;
    assert a[0] == b[0] && a[1] == b[1] && a[2] == b[2] && a[3] == b[3];
  }

  lemma AdtsIsLocal(a: seq<Byte>, b: seq<Byte>)
    requires |a| >= 7 && |b| >= 7 && forall i | 0 <= i < 7 :: a[i] == b[i]
    ensures ParseAdtsHeader(a) == ParseAdtsHeader(b)
  {
    assert a[0] == b[0] && a[1] == b[1] && a[2] == b[2] && a[3] == b[3];
    assert a[4] == b[4] && a[5] == b[5] && a[6] == b[6];
  }

  /** Only an E-AC-3 header can announce a frame shorter than the header the splitter waits for. */
  lemma ShortFramesAreEac3(syn: Syntax, b: seq<Byte>)
    requires syn.Parse(b).Some?
    ensures var info := syn.Parse(b).value;
            && info.sampleRate > 0 && 0 < info.samplesPerFrame
            && info.sampleRate <= 375 * info.samplesPerFrame
            && (info.frameLen < syn.HeaderLen() ==> info.kind == Eac3 && info.frameLen <= 6)
  {
    match syn {
      case Ac3Syntax => ShortAc3(b);
      case MpegAudioSyntax => ShortMpeg(b);
      case AdtsSyntax =>
        var sfIndex := b[2] as nat / 4 % 16;
        assert ADTS_SAMPLE_RATE[sfIndex] <= 96_000 && ADTS_SAMPLE_RATE[sfIndex] > 0;
    }
  }

  lemma ShortAc3(b: seq<Byte>)
    requires ParseAc3Frame(b).Some?
    ensures var info := ParseAc3Frame(b).value;
            && info.sampleRate > 0 && 256 <= info.samplesPerFrame && info.sampleRate <= 96_000
            && (info.frameLen < 8 ==> info.kind == Eac3 && info.frameLen <= 6)
  {
    var code := b[4] as nat % 64;
    if b[5] as nat / 8 <= 8 {
      Words48(code);
      Words44(code);
      Words32(code);
    }
  }

  lemma Words48(code: nat)
    requires code < 38
    ensures AC3_FRAME_WORDS_48K[code] >= 64
  {
  }

  lemma Words44(code: nat)
    requires code < 38
    ensures AC3_FRAME_WORDS_44K[code] >= 64
  {
  }

  lemma Words32(code: nat)
    requires code < 38
    ensures AC3_FRAME_WORDS_32K[code] >= 64
  {
  }

  lemma ShortMpeg(b: seq<Byte>)
    requires ParseMpegAudioHeader(b).Some?
    ensures var info := ParseMpegAudioHeader(b).value;
            && 0 < info.sampleRate <= 48_000 && 384 <= info.samplesPerFrame
            && info.frameLen >= 4
  {
    hide MpegRates;
    var b1, b2 := b[1] as nat, b[2] as nat;
    RatesBounded(b1 / 8 % 2, 3 - b1 / 2 % 4, b2 / 16 % 16, b2 / 4 % 4);
    var (bitrate, rate) := MpegRates(b1 / 8 % 2, 3 - b1 / 2 % 4, b2 / 16 % 16, b2 / 4 % 4);
    AtLeast(12 * bitrate, rate, 1);
    AtLeast(144 * bitrate, rate, 4);
    AtLeast(72 * bitrate, rate, 4);
  }

  lemma RatesBounded(id: nat, layerIndex: nat, bitrateIndex: nat, sfIndex: nat)
    requires id < 2 && layerIndex < 3 && 0 < bitrateIndex < 15 && sfIndex < 3
    ensures var (bitrate, rate) := MpegRates(id, layerIndex, bitrateIndex, sfIndex);
            && 0 < rate <= 48_000
            && 12 * bitrate >= (if layerIndex == 0 then rate else 0)
            && 72 * bitrate >= 4 * rate
  {
    if id == 1 {
      assert MPEG1_BITRATE_KBPS[layerIndex][bitrateIndex] >= 32;
    } else if layerIndex == 0 {
      assert MPEG2_BITRATE_KBPS[0][bitrateIndex] >= 32;
    } else {
      assert MPEG2_BITRATE_KBPS[1][bitrateIndex] >= 8;
    }
  }

  lemma AtLeast(x: nat, d: nat, q: nat)
    requires d > 0
    ensures x >= q * d ==> x / d >= q
  {
    assert x == (x / d) * d + x % d;
    if x >= q * d {
      assert (x / d - q) * d + d > 0;
      NonNegative(x / d - q, d);
    }
  }
}
