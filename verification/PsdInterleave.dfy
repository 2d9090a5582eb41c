/** Planar channels become pixels: every case of the decoder's match, and what every output number is. */
module PsdInterleave {
  import opened Wrappers
  import opened Bytes
  import opened Bits
  import opened Planes
  import opened PsdPredictor
  import opened PsdHeader

  /** What a decode has at hand: the used planes, and the palette of an indexed image. */
  datatype Image = Image(
    planes: seq<byte>, header: Header, transparency: Option<nat>, palette: Option<seq<byte>>, little: bool
  ) {
    /** The buffers are as long as the header says; nothing is said about the header. */
    ghost predicate Valid() {
      && |planes| == UsedChannels(header) * PlaneBytesOf(header)
      && (palette.Some? ==> |palette.value| == 768)
    }

    function Alpha(): (a: bool) { HasAlpha(header, transparency) }

    function Pixels(): (n: nat) { header.width * header.height }
  }

  // ---- The cases ----

  /** A case of the match: how many bytes a sample has, and whether alpha is written. */
  datatype Arm =
    | BitmapArm
    | GrayArm(n: nat, alpha: bool)
    | IndexedArm
    | RgbArm(n: nat, alpha: bool)
    | CmykArm(n: nat, alpha: bool)

  /** The match on mode, depth and alpha; `None` is its fallthrough. */
  function ArmOf(m: Mode, d: Depth, alpha: bool): (a: Option<Arm>) {
    match (m, d, alpha)
    case (Bitmap, One, _) => Some(BitmapArm)
    case (Grayscale, Eight, _) => Some(GrayArm(1, alpha))
    case (Duotone, Eight, _) => Some(GrayArm(1, alpha))
    case (Grayscale, Sixteen, _) => Some(GrayArm(2, alpha))
    case (Duotone, Sixteen, _) => Some(GrayArm(2, alpha))
    case (Grayscale, ThirtyTwo, _) => Some(GrayArm(4, alpha))
    case (Duotone, ThirtyTwo, _) => Some(GrayArm(4, alpha))
    case (Indexed, Eight, _) => Some(IndexedArm)
    case (Rgb, Eight, _) => Some(RgbArm(1, alpha))
    case (Rgb, Sixteen, _) => Some(RgbArm(2, alpha))
    case (Rgb, ThirtyTwo, _) => Some(RgbArm(4, alpha))
    case (Cmyk, Eight, _) => Some(CmykArm(1, alpha))
    case (Cmyk, Sixteen, _) => Some(CmykArm(2, alpha))
    case _ => None
  }

  /** Every accepted header has its case, with or without alpha: the fallthrough is never reached. */
  lemma {:induction false} AcceptedHasArm(h: Header, alpha: bool)
    requires Accepted(h)
    ensures ArmOf(h.mode, h.depth, alpha).Some?
  {
  }

  /**
   Of the modes and depths the format has, the header check lets through exactly those
   with a case, but for 16 and 32-bit duotone, which have one and are refused.
   */
  lemma {:induction false} ArmsBeyondAccepted(m: Mode, d: Depth, alpha: bool)
    ensures ArmOf(m, d, alpha).Some? <==> SupportsDepth(m, d) || (m.Duotone? && !d.One?)
  {
  }

  /** The image's own case, with all it needs. */
  ghost predicate Readable(im: Image, arm: Arm) {
    && im.Valid() && ArmOf(im.header.mode, im.header.depth, im.Alpha()) == Some(arm)
    && (arm.IndexedArm? ==> im.palette.Some?)
  }

  /** Bytes of one output number. */
  function Width(arm: Arm): (n: nat) { if arm.BitmapArm? || arm.IndexedArm? then 1 else arm.n }

  /** Numbers in one output pixel; `alpha` only matters to an indexed image. */
  function Components(arm: Arm, alpha: bool): (n: nat) {
    match arm
    case BitmapArm => 1
    case GrayArm(n, a) => if a then if n == 4 then 4 else 2 else 1
    case IndexedArm => if alpha then 4 else 3
    case RgbArm(_, a) => if a then 4 else 3
    case CmykArm(_, a) => if a then 4 else 3
  }

  /** Channels a case reads. */
  function Reads(arm: Arm): (n: nat) {
    match arm
    case BitmapArm => 1
    case GrayArm(_, a) => if a then 2 else 1
    case IndexedArm => 1
    case RgbArm(_, a) => if a then 4 else 3
    case CmykArm(_, a) => if a then 5 else 4
  }

  /** The used channels are exactly those the case reads, and its pixels are what the output descriptor says. */
  lemma {:induction false} ArmFits(im: Image, arm: Arm)
    requires Readable(im, arm)
    ensures Reads(arm) == UsedChannels(im.header) && (Width(arm) == 1 || Width(arm) == 2 || Width(arm) == 4)
    ensures Components(arm, im.Alpha()) * Width(arm) == BytesPerPixel(im.header, im.Alpha())
    ensures arm.BitmapArm? ==> PlaneBytesOf(im.header) == (im.header.width + 7) / 8 * im.header.height
    ensures !arm.BitmapArm? ==> PlaneBytesOf(im.header) == im.Pixels() * Width(arm)
    ensures arm.CmykArm? ==> Width(arm) <= 2
    ensures arm.IndexedArm? && im.Alpha() ==> im.transparency.Some?
    ensures arm.GrayArm? || arm.RgbArm? ==> arm.alpha == im.Alpha()
  {
    PlaneIsSamples(im.header.width, im.header.height, im.header.depth);
  }

  lemma {:induction false} PlaneIsSamples(w: nat, h: nat, d: Depth)
    ensures match d
      case One => true
      case Eight => ScanlineBytes(w, d) * h == w * h * 1
      case Sixteen => ScanlineBytes(w, d) * h == w * h * 2
      case ThirtyTwo => ScanlineBytes(w, d) * h == w * h * 4
  {
  }

  // ---- Samples ----

  /** One channel's plane. */
  function Channel(im: Image, c: nat): (plane: seq<byte>)
    requires im.Valid() && c < UsedChannels(im.header)
    ensures |plane| == PlaneBytesOf(im.header)
  {
    StepProduct(c, UsedChannels(im.header), PlaneBytesOf(im.header));
    im.planes[c * PlaneBytesOf(im.header)..c * PlaneBytesOf(im.header) + PlaneBytesOf(im.header)]
  }

  /** Sample `i` of a plane, as it is stored: big-endian. */
  function Sample(plane: seq<byte>, i: nat, n: nat): (s: seq<byte>)
    requires i * n + n <= |plane|
    ensures |s| == n
  {
    plane[i * n..i * n + n]
  }

  /** Every sample a case reads lies in its plane, below the planes the decoder read. */
  lemma {:induction false} SampleFits(im: Image, arm: Arm, c: nat, i: nat)
    requires Readable(im, arm) && !arm.BitmapArm? && c < Reads(arm) && i < im.Pixels()
    ensures c < UsedChannels(im.header) && i * Width(arm) + Width(arm) <= |Channel(im, c)|
    ensures c * PlaneBytesOf(im.header) + PlaneBytesOf(im.header) <= |im.planes|
  {
    hide UsedChannels, PlaneBytesOf, HasAlpha, BytesPerPixel, Components, ArmOf;
    ArmFits(im, arm);
    StepProduct(i, im.Pixels(), Width(arm));
    StepProduct(c, UsedChannels(im.header), PlaneBytesOf(im.header));
  }

  /** Sample `i` of channel `c`, as it is stored. */
  function Stored(im: Image, arm: Arm, c: nat, i: nat): (s: seq<byte>)
    requires Readable(im, arm) && !arm.BitmapArm? && c < Reads(arm) && i < im.Pixels()
    ensures |s| == Width(arm)
  {
    SampleFits(im, arm, c, i);
    Sample(Channel(im, c), i, Width(arm))
  }

  /** The number big-endian bytes spell. */
  function Big(s: seq<byte>): (n: nat) {
    if s == [] then 0 else 256 * Big(s[..|s| - 1]) + s[|s| - 1]
  }

  lemma {:induction false} BigSmall(s: seq<byte>)
    requires |s| == 1 || |s| == 2
    ensures |s| == 1 ==> Big(s) == s[0] < 256
    ensures |s| == 2 ==> Big(s) == 256 * s[0] + s[1] < U16
  {
    assert s[..|s| - 1][..0] == [];
    assert Big([]) == 0;
    if |s| == 2 { assert s[..1] == [s[0]]; }
  }

  function Reversed(s: seq<byte>): (r: seq<byte>)
    ensures |r| == |s| && forall i :: 0 <= i < |s| ==> r[i] == s[|s| - 1 - i]
  {
    if s == [] then [] else Reversed(s[1..]) + [s[0]]
  }

  /** Big-endian bytes in the machine's order. */
  function Native(s: seq<byte>, little: bool): (b: seq<byte>)
    ensures |b| == |s|
  {
    if little then Reversed(s) else s
  }

  /** The number the machine reads in its own order. */
  function Machine(s: seq<byte>, little: bool): (n: nat) { if little then Big(Reversed(s)) else Big(s) }

  lemma {:induction false} MachineReadsNative(s: seq<byte>, little: bool)
    ensures Machine(Native(s, little), little) == Big(s)
  {
    assert Reversed(Reversed(s)) == s;
  }

  // ---- Light ----

  /** Ink and black to light, rounded: 0 is full ink. */
  function Light(ink: nat, black: nat, max: nat): (v: nat)
    requires max > 0
  {
    (ink * black + max / 2) / max
  }

  /** The output is the nearest integer to `ink * black / max`, and in range. */
  lemma {:induction false} LightIsNearest(ink: nat, black: nat, max: nat)
    requires (max == 255 || max == 65535) && ink <= max && black <= max
    ensures
      var v := Light(ink, black, max);
      v <= max && 2 * (max * v) < 2 * (ink * black) + max && 2 * (ink * black) < 2 * (max * v) + max
  {
    var n := ink * black;
    Bits.MulStep(ink, max, black);
    Bits.MulStep(black, max, max);
    Rounded(n, max);
    AtMostMax(Light(ink, black, max), max, n);
  }

  lemma {:induction false} Rounded(n: nat, max: nat)
    requires max % 2 == 1
    ensures
      var v := (n + max / 2) / max;
      max * v <= n + max / 2 && 2 * (max * v) < 2 * n + max && 2 * n < 2 * (max * v) + max
  {
    QuotientBounds(n + max / 2, max);
  }

  lemma AtMostMax(v: nat, max: nat, n: nat)
    requires max > 0 && max * v <= n + max / 2 && n <= max * max
    ensures v <= max
  {
    if v > max { Bits.MulStep(max + 1, v, max); }
  }

  lemma QuotientBounds(n: nat, d: nat)
    requires d > 0
    ensures d * (n / d) <= n < d * (n / d) + d
  {
  }

  /** The brightest value of `n` bytes. */
  function MaxOf(n: nat): (m: nat)
    ensures m > 0
  {
    if n == 1 then 255 else 65535
  }

  /** A light value in output bytes. */
  function LightBytes(ink: seq<byte>, black: seq<byte>, little: bool): (s: seq<byte>)
    requires |ink| == |black| && (|ink| == 1 || |ink| == 2)
    ensures |s| == |ink|
  {
    BigSmall(ink);
    BigSmall(black);
    LightIsNearest(Big(ink), Big(black), MaxOf(|ink|));
    var v := Light(Big(ink), Big(black), MaxOf(|ink|));
    if |ink| == 1 then [v] else Native(Be16(v), little)
  }

  lemma {:induction false} LightReads(ink: seq<byte>, black: seq<byte>, little: bool)
    requires |ink| == |black| && (|ink| == 1 || |ink| == 2)
    ensures Machine(LightBytes(ink, black, little), little) == Light(Big(ink), Big(black), MaxOf(|ink|))
  {
    hide Light;
    BigSmall(ink);
    BigSmall(black);
    LightIsNearest(Big(ink), Big(black), MaxOf(|ink|));
    var v := Light(Big(ink), Big(black), MaxOf(|ink|));
    if |ink| == 1 {
      assert Reversed([v]) == [v];
      BigSmall([v]);
    } else {
      MachineReadsNative(Be16(v), little);
      BigSmall(Be16(v));
    }
  }

  // ---- Pixels ----

  /** A sample in output order. */
  function Out(im: Image, arm: Arm, c: nat, i: nat): (s: seq<byte>)
    requires Readable(im, arm) && !arm.BitmapArm? && c < Reads(arm) && i < im.Pixels()
    ensures |s| == Width(arm)
  {
    Native(Stored(im, arm, c, i), im.little)
  }

  /** Gray and alpha side by side; at 32 bits gray is repeated for each color. */
  function GrayBytes(arm: Arm, g: seq<byte>, a: seq<byte>): (px: seq<byte>)
    requires arm.GrayArm? && |g| == arm.n && |a| == if arm.alpha then arm.n else 0
    ensures forall alpha :: |px| == Components(arm, alpha) * Width(arm)
  {
    if arm.alpha && arm.n == 4 then g + g + g + a else g + a
  }

  function GrayPixel(im: Image, arm: Arm, i: nat): (px: seq<byte>)
    requires Readable(im, arm) && arm.GrayArm? && i < im.Pixels()
    ensures |px| == Components(arm, im.Alpha()) * Width(arm)
  {
    GrayBytes(arm, Out(im, arm, 0, i), if arm.alpha then Out(im, arm, 1, i) else [])
  }

  function IndexedPixel(im: Image, arm: Arm, i: nat): (px: seq<byte>)
    requires Readable(im, arm) && arm.IndexedArm? && i < im.Pixels()
    ensures |px| == Components(arm, im.Alpha()) * Width(arm)
  {
    var (k, pal) := (Stored(im, arm, 0, i)[0], im.palette.value);
    [pal[k], pal[256 + k], pal[512 + k]]
    + if !im.Alpha() then [] else
      ArmFits(im, arm);
      var alpha: byte := if k == im.transparency.value then 0 else 255;
      [alpha]
  }

  function RgbPixel(im: Image, arm: Arm, i: nat): (px: seq<byte>)
    requires Readable(im, arm) && arm.RgbArm? && i < im.Pixels()
    ensures |px| == Components(arm, im.Alpha()) * Width(arm)
  {
    Out(im, arm, 0, i) + Out(im, arm, 1, i) + Out(im, arm, 2, i) + (if arm.alpha then Out(im, arm, 3, i) else [])
  }

  function CmykPixel(im: Image, arm: Arm, i: nat): (px: seq<byte>)
    requires Readable(im, arm) && arm.CmykArm? && i < im.Pixels()
    ensures |px| == Components(arm, im.Alpha()) * Width(arm)
  {
    ArmFits(im, arm);
    var k := Stored(im, arm, 3, i);
    LightBytes(Stored(im, arm, 0, i), k, im.little) + LightBytes(Stored(im, arm, 1, i), k, im.little)
    + LightBytes(Stored(im, arm, 2, i), k, im.little) + (if arm.alpha then Out(im, arm, 4, i) else [])
  }

  /** Bytes of a bitmap's scanline. */
  function BitRow(im: Image): (n: nat) { (im.header.width + 7) / 8 }

  lemma {:induction false} BitmapFits(im: Image, y: nat, x: nat)
    requires Readable(im, BitmapArm) && y < im.header.height && x < im.header.width
    ensures x / 8 < BitRow(im) && y * BitRow(im) + BitRow(im) <= |im.planes|
  {
    hide UsedChannels, PlaneBytesOf, HasAlpha, BytesPerPixel, Components, ArmOf;
    ArmFits(im, BitmapArm);
    StepProduct(y, im.header.height, BitRow(im));
    StepProduct(0, UsedChannels(im.header), PlaneBytesOf(im.header));
  }

  /** One bit of a bitmap row: 0 is white. */
  function BitmapPixel(im: Image, y: nat, x: nat): (px: seq<byte>)
    requires Readable(im, BitmapArm) && y < im.header.height && x < im.header.width
    ensures |px| == 1
  {
    BitmapFits(im, y, x);
    var white: byte := if Mask(Shr(im.planes[y * BitRow(im) + x / 8], 7 - x % 8), 1) == 0 then 255 else 0;
    [white]
  }

  /** Pixel `i` of any case but the bitmap's. */
  function FlatPixel(im: Image, arm: Arm, i: nat): (px: seq<byte>)
    requires Readable(im, arm) && !arm.BitmapArm? && i < im.Pixels()
    ensures |px| == Components(arm, im.Alpha()) * Width(arm)
  {
    match arm
    case GrayArm(_, _) => GrayPixel(im, arm, i)
    case IndexedArm => IndexedPixel(im, arm, i)
    case RgbArm(_, _) => RgbPixel(im, arm, i)
    case CmykArm(_, _) => CmykPixel(im, arm, i)
  }

  /** Pixel `x` of row `y`. */
  function PixelAt(im: Image, arm: Arm, y: nat, x: nat): (px: seq<byte>)
    requires Readable(im, arm) && y < im.header.height && x < im.header.width
    ensures |px| == Components(arm, im.Alpha()) * Width(arm)
  {
    PixelIndex(im, y, x);
    if arm.BitmapArm? then BitmapPixel(im, y, x) else FlatPixel(im, arm, y * im.header.width + x)
  }

  lemma {:induction false} PixelIndex(im: Image, y: nat, x: nat)
    requires y < im.header.height && x < im.header.width
    ensures y * im.header.width + x < im.Pixels()
  {
    StepProduct(y, im.header.height, im.header.width);
  }

  // ---- What the numbers are ----

  /** Number `k` of palette entry `p`; number 3 says whether it is opaque. */
  function IndexedNumber(im: Image, p: byte, k: nat): (v: int)
    requires im.palette.Some? && |im.palette.value| == 768 && k <= 3
  {
    if k < 3 then im.palette.value[256 * k + p] else if Some(p as nat) == im.transparency then 0 else 255
  }

  /** Number `k` of the pixel at `x`, `y`, whatever bytes hold it. */
  ghost function Meaning(im: Image, arm: Arm, y: nat, x: nat, k: nat): (v: int)
    requires Readable(im, arm) && y < im.header.height && x < im.header.width && k < Components(arm, im.Alpha())
  {
    PixelIndex(im, y, x);
    var i := y * im.header.width + x;
    match arm
    case BitmapArm => BitmapFits(im, y, x); if Unpacked(im.planes)[8 * (y * BitRow(im)) + x] then 0 else 255
    case GrayArm(_, a) => Big(Stored(im, arm, if a && k == Components(arm, im.Alpha()) - 1 then 1 else 0, i))
    case RgbArm(_, _) => Big(Stored(im, arm, k, i))
    case CmykArm(n, _) =>
      if k == 3 then Big(Stored(im, arm, 4, i))
      else Light(Big(Stored(im, arm, k, i)), Big(Stored(im, arm, 3, i)), MaxOf(n))
    case IndexedArm => IndexedNumber(im, Stored(im, arm, 0, i)[0], k)
  }

  /** Number `k` of some pixel bytes. */
  function Component(px: seq<byte>, n: nat, k: nat): (s: seq<byte>)
    requires k * n + n <= |px|
    ensures |s| == n
  {
    px[k * n..k * n + n]
  }

  lemma {:induction false} ComponentFits(arm: Arm, alpha: bool, k: nat)
    requires k < Components(arm, alpha)
    ensures k * Width(arm) + Width(arm) <= Components(arm, alpha) * Width(arm)
  {
    StepProduct(k, Components(arm, alpha), Width(arm));
  }

  lemma {:induction false} OutReads(im: Image, arm: Arm, c: nat, i: nat)
    requires Readable(im, arm) && !arm.BitmapArm? && c < Reads(arm) && i < im.Pixels()
    ensures Machine(Out(im, arm, c, i), im.little) == Big(Stored(im, arm, c, i))
  {
    hide Readable, Stored, Big;
    MachineReadsNative(Stored(im, arm, c, i), im.little);
  }

  /** Equal chunks joined. */
  lemma {:induction false} Chunks(a: seq<byte>, b: seq<byte>, c: seq<byte>, d: seq<byte>, n: nat)
    requires |a| == |b| == |c| == n
    ensures (a + b + c + d)[0..n] == a && (a + b + c + d)[n..2 * n] == b && (a + b + c + d)[2 * n..3 * n] == c
    ensures |d| == n ==> (a + b + c + d)[3 * n..4 * n] == d
  {
  }

  lemma {:induction false} TwoChunks(a: seq<byte>, b: seq<byte>)
    ensures (a + b)[0..|a|] == a && (a + b)[|a|..|a| + |b|] == b
  {
  }

  lemma {:induction false} BitmapMeans(im: Image, y: nat, x: nat)
    requires Readable(im, BitmapArm) && y < im.header.height && x < im.header.width
    ensures 8 * (y * BitRow(im)) + x < 8 * |im.planes|
    ensures BitmapPixel(im, y, x) == [if Unpacked(im.planes)[8 * (y * BitRow(im)) + x] then 0 else 255]
  {
    hide Readable, Shr, Mask;
    BitmapFits(im, y, x);
    var at := y * BitRow(im) + x / 8;
    SampleInByte(im.planes, at, x % 8, 1);
    OneBit(Unpacked(im.planes), 8 * (y * BitRow(im)) + x);
  }

  lemma {:induction false} OneBit(s: seq<bit>, i: nat)
    requires i < |s|
    ensures Value(s[i..i + 1]) == if s[i] then 1 else 0
  {
    assert s[i..i + 1] == [s[i]] && [s[i]][..0] == [];
    assert Value([s[i]][..0]) == 0;
  }

  lemma {:induction false} OneByte(b: byte, little: bool)
    ensures Machine([b], little) == b
  {
    BigSmall([b]);
    assert Reversed([b]) == [b];
  }

  lemma {:induction false} GrayMeans(im: Image, arm: Arm, i: nat, k: nat)
    requires Readable(im, arm) && arm.GrayArm? && i < im.Pixels() && k < Components(arm, im.Alpha())
    requires k * Width(arm) + Width(arm) <= |GrayPixel(im, arm, i)|
    ensures Machine(Component(GrayPixel(im, arm, i), Width(arm), k), im.little)
         == Big(Stored(im, arm, if arm.alpha && k == Components(arm, im.Alpha()) - 1 then 1 else 0, i))
  {
    hide Readable, Stored, Big, Machine, Out;
    var g := Out(im, arm, 0, i);
    OutReads(im, arm, 0, i);
    if arm.alpha {
      var a := Out(im, arm, 1, i);
      OutReads(im, arm, 1, i);
      if arm.n == 4 { Chunks(g, g, g, a, arm.n); } else { TwoChunks(g, a); }
    } else {
      TwoChunks(g, []);
    }
  }

  lemma {:induction false} RgbMeans(im: Image, arm: Arm, i: nat, k: nat)
    requires Readable(im, arm) && arm.RgbArm? && i < im.Pixels() && k < Components(arm, im.Alpha())
    requires k * Width(arm) + Width(arm) <= |RgbPixel(im, arm, i)|
    ensures Machine(Component(RgbPixel(im, arm, i), Width(arm), k), im.little) == Big(Stored(im, arm, k, i))
  {
    hide Readable, Stored, Big, Machine, Out;
    var alpha := if arm.alpha then Out(im, arm, 3, i) else [];
    Chunks(Out(im, arm, 0, i), Out(im, arm, 1, i), Out(im, arm, 2, i), alpha, arm.n);
    OutReads(im, arm, k, i);
  }

  lemma {:induction false} CmykMeans(im: Image, arm: Arm, i: nat, k: nat)
    requires Readable(im, arm) && arm.CmykArm? && i < im.Pixels() && k < Components(arm, im.Alpha())
    requires k * Width(arm) + Width(arm) <= |CmykPixel(im, arm, i)|
    ensures Machine(Component(CmykPixel(im, arm, i), Width(arm), k), im.little) ==
      if k == 3 then Big(Stored(im, arm, 4, i))
      else Light(Big(Stored(im, arm, k, i)), Big(Stored(im, arm, 3, i)), MaxOf(arm.n))
  {
    hide Readable, Stored, Big, Machine, Out, LightBytes, Light, MaxOf;
    ArmFits(im, arm);
    var black := Stored(im, arm, 3, i);
    var alpha := if arm.alpha then Out(im, arm, 4, i) else [];
    Chunks(LightBytes(Stored(im, arm, 0, i), black, im.little), LightBytes(Stored(im, arm, 1, i), black, im.little),
      LightBytes(Stored(im, arm, 2, i), black, im.little), alpha, arm.n);
    if k == 3 { OutReads(im, arm, 4, i); } else { LightReads(Stored(im, arm, k, i), black, im.little); }
  }

  /**
   Every number of every pixel is what its case and place say: the stored sample of its
   channel, its palette entry, its light, or its bit.
   */
  lemma {:induction false} PixelMeans(im: Image, arm: Arm, y: nat, x: nat, k: nat)
    requires Readable(im, arm) && y < im.header.height && x < im.header.width && k < Components(arm, im.Alpha())
    ensures k * Width(arm) + Width(arm) <= |PixelAt(im, arm, y, x)|
    ensures Machine(Component(PixelAt(im, arm, y, x), Width(arm), k), im.little) == Meaning(im, arm, y, x, k)
  {
    hide Readable, Machine, Stored, GrayPixel, RgbPixel, CmykPixel, IndexedPixel, BitmapPixel, Component, Big, Light;
    hide Unpacked;
    PixelIndex(im, y, x);
    ComponentFits(arm, im.Alpha(), k);
    var i := y * im.header.width + x;
    match arm
    case GrayArm(_, _) => GrayMeans(im, arm, i, k);
    case RgbArm(_, _) => RgbMeans(im, arm, i, k);
    case CmykArm(_, _) => CmykMeans(im, arm, i, k);
    case IndexedArm => IndexedMeans(im, arm, i, k);
    case BitmapArm => BitMeans(im, y, x);
  }

  lemma {:induction false} IndexedMeans(im: Image, arm: Arm, i: nat, k: nat)
    requires Readable(im, arm) && arm.IndexedArm? && i < im.Pixels() && k < Components(arm, im.Alpha())
    requires k * Width(arm) + Width(arm) <= |IndexedPixel(im, arm, i)|
    ensures Machine(Component(IndexedPixel(im, arm, i), Width(arm), k), im.little)
         == IndexedNumber(im, Stored(im, arm, 0, i)[0], k)
  {
    hide Machine, Stored;
    ArmFits(im, arm);
    var px := IndexedPixel(im, arm, i);
    ByteComponent(px, k);
    OneByte(px[k], im.little);
  }

  lemma {:induction false} BitMeans(im: Image, y: nat, x: nat)
    requires Readable(im, BitmapArm) && y < im.header.height && x < im.header.width
    ensures 8 * (y * BitRow(im)) + x < 8 * |im.planes|
    ensures Machine(Component(BitmapPixel(im, y, x), 1, 0), im.little)
         == if Unpacked(im.planes)[8 * (y * BitRow(im)) + x] then 0 else 255
  {
    hide Machine, Readable, BitmapPixel;
    BitmapMeans(im, y, x);
    var px := BitmapPixel(im, y, x);
    ByteComponent(px, 0);
    OneByte(px[0], im.little);
  }

  lemma {:induction false} ByteComponent(px: seq<byte>, k: nat)
    requires k < |px|
    ensures Component(px, 1, k) == [px[k]]
  {
    assert px[k..k + 1] == [px[k]];
  }

  // ---- The output ----

  /** `px` is pixel `i` of the output. */
  ghost predicate HoldsPixel(out: seq<byte>, i: nat, px: seq<byte>) {
    i * |px| + |px| <= |out| && out[i * |px|..i * |px| + |px|] == px
  }

  /** The output is every pixel's bytes, row by row. */
  ghost predicate Pictured(im: Image, arm: Arm, out: seq<byte>)
    requires Readable(im, arm)
  {
    && |out| == im.Pixels() * BytesPerPixel(im.header, im.Alpha())
    && forall y: nat, x: nat :: y < im.header.height && x < im.header.width ==>
         HoldsPixel(out, y * im.header.width + x, PixelAt(im, arm, y, x))
  }

  /** Where number `k` of pixel `x` of row `y` begins in the output. */
  function IndexOf(im: Image, arm: Arm, y: nat, x: nat, k: nat): (at: nat) {
    (y * im.header.width + x) * BytesPerPixel(im.header, im.Alpha()) + k * Width(arm)
  }

  /** And every number of the output, by its index, is what its pixel, its place in it and its case say. */
  lemma {:induction false} OutputMeans(im: Image, arm: Arm, out: seq<byte>, y: nat, x: nat, k: nat)
    requires Readable(im, arm) && Pictured(im, arm, out)
    requires y < im.header.height && x < im.header.width && k < Components(arm, im.Alpha())
    ensures
      var at := IndexOf(im, arm, y, x, k);
      at + Width(arm) <= |out| && Machine(out[at..at + Width(arm)], im.little) == Meaning(im, arm, y, x, k)
  {
    hide Readable, Machine, Meaning, PixelAt, BytesPerPixel, Components, HoldsPixel, Width, Component;
    ArmFits(im, arm);
    PixelMeans(im, arm, y, x, k);
    var px := PixelAt(im, arm, y, x);
    assert HoldsPixel(out, y * im.header.width + x, px);
    ReadsComponent(out, y * im.header.width + x, px, Width(arm), k);
  }

  lemma {:induction false} ReadsComponent(out: seq<byte>, i: nat, px: seq<byte>, n: nat, k: nat)
    requires HoldsPixel(out, i, px) && k * n + n <= |px|
    ensures
      var at := i * |px| + k * n;
      at + n <= |out| && out[at..at + n] == Component(px, n, k)
  {
    hide HoldsPixel, Component;
    var at := HeldAt(out, i, px);
    var from := ComponentAt(px, n, k);
    PartOf(out, at, px, from, n);
  }

  lemma {:induction false} HeldAt(out: seq<byte>, i: nat, px: seq<byte>) returns (at: nat)
    requires HoldsPixel(out, i, px)
    ensures at == i * |px| && at + |px| <= |out| && out[at..at + |px|] == px
  {
    at := i * |px|;
  }

  lemma {:induction false} ComponentAt(px: seq<byte>, n: nat, k: nat) returns (from: nat)
    requires k * n + n <= |px|
    ensures from == k * n && from + n <= |px| && Component(px, n, k) == px[from..from + n]
  {
    from := k * n;
  }

  lemma {:induction false} PartOf(out: seq<byte>, at: nat, px: seq<byte>, from: nat, n: nat)
    requires at + |px| <= |out| && out[at..at + |px|] == px && from + n <= |px|
    ensures out[at + from..at + from + n] == px[from..from + n]
  {
    SubSlice(out, at, at + |px|, from, from + n);
  }

  lemma {:induction false} StillHolds(was: seq<byte>, now: seq<byte>, j: nat, px: seq<byte>, at: nat)
    requires HoldsPixel(was, j, px) && j * |px| + |px| <= at <= |was| == |now| && now[..at] == was[..at]
    ensures HoldsPixel(now, j, px)
  {
    var (from, to) := (j * |px|, j * |px| + |px|);
    SubSlice(was, 0, at, from, to);
    SubSlice(now, 0, at, from, to);
    assert was[..at] == was[0..at] && now[..at] == now[0..at];
  }

  /**
   `interleave_planes`: an image of a case it has becomes its pixels; one of none is refused, and a missing
   palette.
   */
  method InterleavePlanes(im: Image) returns (r: Result<array<byte>, PsdError>)
    requires im.Valid()
    ensures match r
      case Ok(out) => exists arm :: Readable(im, arm) && Pictured(im, arm, out[..])
      case Err(e) =>
        var arm := ArmOf(im.header.mode, im.header.depth, im.Alpha());
        if arm.None? then e == UnsupportedColorMode(RawMode(im.header.mode))
        else arm == Some(IndexedArm) && im.palette.None? && e == Malformed
  {
    hide BytesPerPixel, HasAlpha, Pictured, UsedChannels, PlaneBytesOf;
    var arm := ArmOf(im.header.mode, im.header.depth, im.Alpha());
    if arm.None? { return Err(UnsupportedColorMode(RawMode(im.header.mode))); }
    if arm == Some(IndexedArm) && im.palette.None? { return Err(Malformed); }
    assert Readable(im, arm.value);
    var out := new byte[im.Pixels() * BytesPerPixel(im.header, im.Alpha())](_ => 0);
    if arm == Some(BitmapArm) { PaintBitmap(im, out); } else { PaintFlat(im, arm.value, out); }
    r := Ok(out);
  }

  /** One pass over the pixels. */
  method PaintFlat(im: Image, arm: Arm, out: array<byte>)
    requires Readable(im, arm) && !arm.BitmapArm?
    requires out.Length == im.Pixels() * BytesPerPixel(im.header, im.Alpha())
    modifies out
    ensures Pictured(im, arm, out[..])
  {
    hide BytesPerPixel, Readable, FlatPixel, HoldsPixel, Components, Width;
    ArmFits(im, arm);
    var (n, bpp) := (im.Pixels(), BytesPerPixel(im.header, im.Alpha()));
    var i: nat, at: nat := 0, 0;
    while i < n
      invariant i <= n && at == i * bpp <= out.Length
      invariant forall j: nat :: j < i ==> HoldsPixel(out[..], j, FlatPixel(im, arm, j))
    {
      StepProduct(i, n, bpp);
      ghost var was := out[..];
      CopyInto(out, at, FlatPixel(im, arm, i));
      PixelPut(out[..], i, FlatPixel(im, arm, i));
      forall j: nat | j < i ensures HoldsPixel(out[..], j, FlatPixel(im, arm, j)) {
        StepProduct(j, i, bpp);
        StillHolds(was, out[..], j, FlatPixel(im, arm, j), at);
      }
      at := at + bpp;
      i := i + 1;
    }
    forall y: nat, x: nat | y < im.header.height && x < im.header.width
      ensures HoldsPixel(out[..], y * im.header.width + x, PixelAt(im, arm, y, x))
    {
      PixelIndex(im, y, x);
    }
  }

  lemma {:induction false} PixelPut(out: seq<byte>, i: nat, px: seq<byte>)
    requires i * |px| + |px| <= |out| && out[i * |px|..i * |px| + |px|] == px
    ensures HoldsPixel(out, i, px)
  {
  }

  /** The bitmap's pixel is in place. */
  ghost predicate BitPut(out: seq<byte>, im: Image, y: nat, x: nat)
    requires Readable(im, BitmapArm) && y < im.header.height && x < im.header.width
  {
    y * im.header.width + x < |out| && [out[y * im.header.width + x]] == BitmapPixel(im, y, x)
  }

  /** The first `n` pixels are in place. */
  ghost predicate BitsPut(out: seq<byte>, im: Image, n: nat)
    requires Readable(im, BitmapArm)
  {
    forall v: nat, u: nat :: v < im.header.height && u < im.header.width && v * im.header.width + u < n ==>
      BitPut(out, im, v, u)
  }

  lemma {:induction false} OneMoreBit(was: seq<byte>, im: Image, y: nat, x: nat, b: byte)
    requires Readable(im, BitmapArm) && y < im.header.height && x < im.header.width
    requires y * im.header.width + x < |was| && BitsPut(was, im, y * im.header.width + x)
    requires BitmapPixel(im, y, x) == [b]
    ensures
      var n := y * im.header.width + x;
      BitsPut(was[n := b], im, n + 1)
  {
    hide Readable, BitmapPixel;
    var w := im.header.width;
    var n := y * w + x;
    var now := was[n := b];
    forall v: nat, u: nat | v < im.header.height && u < w && v * w + u < n + 1 ensures BitPut(now, im, v, u) {
      if v * w + u == n { DivModUnique(n, w, v, u); DivModUnique(n, w, y, x); } else { assert BitPut(was, im, v, u); }
    }
  }

  /** Row by row, eight pixels to a byte. */
  method PaintBitmap(im: Image, out: array<byte>)
    requires Readable(im, BitmapArm) && out.Length == im.Pixels() * BytesPerPixel(im.header, im.Alpha())
    modifies out
    ensures Pictured(im, BitmapArm, out[..])
  {
    hide BytesPerPixel, Readable, BitsPut, Pictured;
    BitmapBytes(im);
    var (w, h) := (im.header.width, im.header.height);
    var y: nat := 0;
    NoBits(im, out[..]);
    while y < h
      invariant y <= h && y * w <= out.Length && BitsPut(out[..], im, y * w)
    {
      StepProduct(y, h, w);
      PaintBits(im, y, out);
      y := y + 1;
    }
    BitsArePixels(im, out[..]);
  }

  /** One row. */
  method PaintBits(im: Image, y: nat, out: array<byte>)
    requires Readable(im, BitmapArm) && out.Length == im.Pixels() && y < im.header.height
    requires BitsPut(out[..], im, y * im.header.width)
    modifies out
    ensures BitsPut(out[..], im, y * im.header.width + im.header.width)
  {
    hide Readable, BitmapPixel, Shr, Mask, BitsPut;
    var w := im.header.width;
    var x: nat, at: nat := 0, y * w;
    while x < w
      invariant x <= w && at == y * w + x && BitsPut(out[..], im, at)
    {
      BitIsPixel(im, y, x);
      var bit := Mask(Shr(im.planes[y * BitRow(im) + x / 8], 7 - x % 8), 1);
      OneMoreBit(out[..], im, y, x, if bit == 0 then 255 else 0);
      out[at] := if bit == 0 then 255 else 0;
      x := x + 1;
      at := at + 1;
    }
  }

  lemma {:induction false} BitmapBytes(im: Image)
    requires Readable(im, BitmapArm)
    ensures BytesPerPixel(im.header, im.Alpha()) == 1
  {
  }

  lemma {:induction false} NoBits(im: Image, out: seq<byte>)
    requires Readable(im, BitmapArm)
    ensures BitsPut(out, im, 0)
  {
    hide Readable;
  }

  lemma {:induction false} BitsArePixels(im: Image, out: seq<byte>)
    requires Readable(im, BitmapArm) && BitsPut(out, im, im.Pixels()) && |out| == im.Pixels()
    ensures Pictured(im, BitmapArm, out)
  {
    hide Readable, BytesPerPixel, BitmapPixel;
    BitmapBytes(im);
    forall y: nat, x: nat | y < im.header.height && x < im.header.width
      ensures HoldsPixel(out, y * im.header.width + x, PixelAt(im, BitmapArm, y, x))
    {
      PixelIndex(im, y, x);
      assert BitPut(out, im, y, x);
    }
  }

  lemma {:induction false} BitIsPixel(im: Image, y: nat, x: nat)
    requires Readable(im, BitmapArm) && y < im.header.height && x < im.header.width
    ensures y * BitRow(im) + x / 8 < |im.planes| && y * im.header.width + x < im.Pixels()
    ensures BitmapPixel(im, y, x) ==
      [if Mask(Shr(im.planes[y * BitRow(im) + x / 8], 7 - x % 8), 1) == 0 then 255 else 0]
  {
    hide Mask, Shr;
    BitmapFits(im, y, x);
    PixelIndex(im, y, x);
  }

  // ---- Nothing is lost ----

  /** The number of a pixel that shows channel `c`. */
  function PlaceOf(arm: Arm, c: nat): (k: nat) { if arm.GrayArm? && arm.n == 4 && c == 1 then 3 else c }

  /** Gray and color output shows every stored sample, at every depth. */
  lemma {:induction false} SampleIsShown(im: Image, arm: Arm, out: seq<byte>, c: nat, i: nat)
    requires Readable(im, arm) && (arm.GrayArm? || arm.RgbArm?) && Pictured(im, arm, out)
    requires c < Reads(arm) && i < im.Pixels()
    ensures PlaceOf(arm, c) < Components(arm, im.Alpha())
    ensures
      var at := i * BytesPerPixel(im.header, im.Alpha()) + PlaceOf(arm, c) * Width(arm);
      at + Width(arm) <= |out| && Machine(out[at..at + Width(arm)], im.little) == Big(Stored(im, arm, c, i))
  {
    hide Readable, Machine, Pictured, BytesPerPixel, Big, Stored;
    var y, x := RowOfPixel(im, i);
    ArmFits(im, arm);
    OutputMeans(im, arm, out, y, x, PlaceOf(arm, c));
  }

  lemma {:induction false} RowOfPixel(im: Image, i: nat) returns (y: nat, x: nat)
    requires i < im.Pixels()
    ensures y < im.header.height && x < im.header.width && i == y * im.header.width + x
  {
    var w := im.header.width;
    if w == 0 { assert false; }
    y, x := i / w, i % w;
    if y >= im.header.height { Bits.MulStep(im.header.height, y, w); }
  }

  lemma {:induction false} BigInjective(a: seq<byte>, b: seq<byte>)
    requires |a| == |b| && Big(a) == Big(b)
    ensures a == b
  {
    if a != [] {
      BigInjective(a[..|a| - 1], b[..|b| - 1]);
      assert a == a[..|a| - 1] + [a[|a| - 1]] && b == b[..|b| - 1] + [b[|b| - 1]];
    }
  }

  /** So the planes can be told from the picture: two images that differ in them alone look different. */
  lemma {:induction false} PictureTellsPlanes(im: Image, other: seq<byte>, arm: Arm, out: seq<byte>)
    requires Readable(im, arm) && Readable(im.(planes := other), arm) && (arm.GrayArm? || arm.RgbArm?)
    requires Pictured(im, arm, out) && Pictured(im.(planes := other), arm, out)
    ensures im.planes == other
  {
    hide Readable, Pictured, UsedChannels, PlaneBytesOf, Reads, Width;
    var im' := im.(planes := other);
    SameLength(im, arm);
    SameLength(im', arm);
    forall t | 0 <= t < |im.planes| ensures im.planes[t] == other[t] {
      var c, i, b := PlaceInPlanes(im, arm, t);
      SampleIsShown(im, arm, out, c, i);
      SampleIsShown(im', arm, out, c, i);
      BigInjective(Stored(im, arm, c, i), Stored(im', arm, c, i));
      StoredByte(im, arm, c, i, b, t);
      StoredByte(im', arm, c, i, b, t);
    }
  }

  lemma {:induction false} SameLength(im: Image, arm: Arm)
    requires Readable(im, arm)
    ensures |im.planes| == UsedChannels(im.header) * PlaneBytesOf(im.header)
  {
  }

  /** A byte of the planes is a byte of a sample of a channel. */
  lemma {:induction false} PlaceInPlanes(im: Image, arm: Arm, t: nat) returns (c: nat, i: nat, b: nat)
    requires Readable(im, arm) && !arm.BitmapArm? && t < |im.planes|
    ensures c < Reads(arm) && i < im.Pixels() && b < Width(arm)
    ensures t == c * PlaneBytesOf(im.header) + (i * Width(arm) + b)
  {
    hide Readable, UsedChannels, PlaneBytesOf, Reads, Width;
    ArmFits(im, arm);
    SameLength(im, arm);
    var r;
    r, c := SplitIndex(t, PlaneBytesOf(im.header), UsedChannels(im.header));
    b, i := SplitIndex(r, Width(arm), im.Pixels());
  }

  lemma {:induction false} StoredByte(im: Image, arm: Arm, c: nat, i: nat, b: nat, t: nat)
    requires Readable(im, arm) && !arm.BitmapArm? && c < Reads(arm) && i < im.Pixels() && b < Width(arm)
    requires t == c * PlaneBytesOf(im.header) + (i * Width(arm) + b)
    ensures t < |im.planes| && Stored(im, arm, c, i)[b] == im.planes[t]
  {
    hide Readable, UsedChannels, PlaneBytesOf, Reads, Width;
    SampleFits(im, arm, c, i);
    SampleByte(im.planes, PlaneBytesOf(im.header), c, i, Width(arm), b);
  }

  lemma {:induction false} SampleByte(planes: seq<byte>, plane: nat, c: nat, i: nat, n: nat, b: nat)
    requires c * plane + plane <= |planes| && i * n + n <= plane && b < n
    ensures planes[c * plane..c * plane + plane][i * n..i * n + n][b] == planes[c * plane + (i * n + b)]
  {
    SubSlice(planes, c * plane, c * plane + plane, i * n, i * n + n);
  }

  /** Eight-bit gray and color pixels are a transposition of the planes, so de-interleaving gives the planes back. */
  lemma {:induction false} PixelsKeepPlanes(im: Image, arm: Arm, out: seq<byte>)
    requires Readable(im, arm) && (arm.GrayArm? || arm.RgbArm?) && arm.n == 1 && Pictured(im, arm, out)
    ensures
      var (n, plane) := (UsedChannels(im.header), PlaneBytesOf(im.header));
      |out| == plane * n && Interleaved(out, n, plane, n) == im.planes
  {
    hide Readable, Pictured, UsedChannels, PlaneBytesOf, Reads, BytesPerPixel, Stored;
    ArmFits(im, arm);
    SameLength(im, arm);
    PicturedLength(im, arm, out);
    var (n, plane) := (UsedChannels(im.header), PlaneBytesOf(im.header));
    Components8(im, arm);
    InterleavedLength(im.planes, plane, n, plane);
    forall t | 0 <= t < |out| ensures out[t] == Interleaved(im.planes, plane, n, plane)[t] {
      var q, p := SplitIndex(t, n, plane);
      ShownByte(im, arm, out, q, p);
      InterleavedAt(im.planes, plane, n, plane, p, q);
    }
    assert out == Interleaved(im.planes, plane, n, plane);
    InterleaveTransposes(im.planes, plane, n);
  }

  lemma {:induction false} PicturedLength(im: Image, arm: Arm, out: seq<byte>)
    requires Readable(im, arm) && Pictured(im, arm, out)
    ensures |out| == im.Pixels() * BytesPerPixel(im.header, im.Alpha())
  {
  }

  lemma {:induction false} Components8(im: Image, arm: Arm)
    requires Readable(im, arm) && (arm.GrayArm? || arm.RgbArm?) && arm.n == 1
    ensures UsedChannels(im.header) == Reads(arm) == Components(arm, im.Alpha()) == BytesPerPixel(im.header, im.Alpha())
    ensures Width(arm) == 1 && PlaneBytesOf(im.header) == im.Pixels()
  {
    hide UsedChannels, PlaneBytesOf, BytesPerPixel;
    ArmFits(im, arm);
  }

  lemma {:induction false} ShownByte(im: Image, arm: Arm, out: seq<byte>, c: nat, i: nat)
    requires Readable(im, arm) && (arm.GrayArm? || arm.RgbArm?) && arm.n == 1 && Pictured(im, arm, out)
    requires c < Reads(arm) && i < im.Pixels()
    ensures
      var (at, t) := (i * UsedChannels(im.header) + c, c * PlaneBytesOf(im.header) + i);
      at < |out| && t < |im.planes| && out[at] == im.planes[t]
  {
    hide Readable, Pictured, UsedChannels, PlaneBytesOf, Reads, BytesPerPixel, Stored, Big, Machine;
    Components8(im, arm);
    SampleIsShown(im, arm, out, c, i);
    StoredByte(im, arm, c, i, 0, c * PlaneBytesOf(im.header) + i);
    var at := i * UsedChannels(im.header) + c;
    assert out[at..at + 1] == [out[at]];
    OneByte(out[at], im.little);
    var s := Stored(im, arm, c, i);
    assert s == [s[0]];
    BigSmall(s);
  }
}
