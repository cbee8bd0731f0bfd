/** The hardware frame of DMXController.cpp: 512 channels between a header and a terminator. */
module Dmx {
  import opened LightPacket

  datatype LightType = Rgb | Uv

  datatype Light = Light(kind: LightType, address: Byte, numChannels: Byte)

  type Lights = map<nat, Light>

  // ----- Configuration

  /** What the configuration file says of one light; an absent value takes its default. */
  datatype Setting<T> = Default | Given(value: T)

  datatype LightSettings = LightSettings(address: Setting<nat>, kind: Setting<string>, numChannels: Setting<nat>)

  datatype Parsed<T> = Ok(value: T) | BadLightType

  /** `parseLightType`. */
  function ParseLightType(s: string): Parsed<LightType> {
    if s == "rgb" then Ok(Rgb) else if s == "uv" then Ok(Uv) else BadLightType
  }

  function Or<T>(s: Setting<T>, default: T): T {
    match s case Default => default case Given(v) => v
  }

  /** One light of `LightsConfig::parse`; the numbers are stored in a `uint8_t` each. */
  function ParseLight(s: LightSettings): Parsed<Light> {
    match ParseLightType(Or(s.kind, "rgb"))
    case BadLightType => BadLightType
    case Ok(kind) => Ok(Light(kind, Or(s.address, 0) % 256, Or(s.numChannels, if kind == Uv then 2 else 5) % 256))
  }

  /** The type must be "rgb" or "uv" to the letter, and is "rgb" when absent; an absent address is 0, and
      absent channels are as many as the type writes. Numbers below 256 are kept. */
  lemma LightOf(s: LightSettings)
    ensures ParseLight(s).Ok? <==> s.kind in {Default, Given("rgb"), Given("uv")}
    ensures ParseLight(s).Ok? ==>
      var l := ParseLight(s).value;
      && (l.kind == Uv <==> s.kind == Given("uv"))
      && (s.address == Default ==> l.address == 0)
      && (s.address.Given? && s.address.value < 256 ==> l.address == s.address.value)
      && (s.address.Given? ==> exists k: nat :: s.address.value == 256 * k + l.address)
      && (s.numChannels == Default ==> l.numChannels == Width(l.kind))
      && (s.numChannels.Given? ==> exists k: nat :: s.numChannels.value == 256 * k + l.numChannels)
  {
    if s.address.Given? { Modulo(s.address.value); }
    if s.numChannels.Given? { Modulo(s.numChannels.value); }
    if ParseLight(s).Ok? {
      assert s.kind == Given("uv") <==> ParseLight(s).value.kind == Uv by { TypesDiffer(); }
    }
  }

  lemma TypesDiffer()
    ensures "rgb" != "uv"
  {
    assert |"rgb"| == 3 && |"uv"| == 2;
  }

  lemma Modulo(n: nat)
    ensures n == 256 * (n / 256) + n % 256 && n / 256 >= 0
  {
  }

  /** `LightsConfig::parse`: the lights get the indices 0 to n-1; the first bad type ends it. */
  method ParseLights(settings: seq<LightSettings>) returns (r: Parsed<Lights>)
    ensures r.Ok? <==> forall s :: s in settings ==> ParseLight(s).Ok?
    ensures r.Ok? ==> forall i: nat :: i in r.value <==> i < |settings|
    ensures r.Ok? ==> forall i: nat :: i < |settings| ==> ParseLight(settings[i]) == Ok(r.value[i])
  {
    var lights: Lights := map[];
    var i := 0;
    while i < |settings|
      invariant 0 <= i <= |settings|
      invariant forall k: nat :: k in lights <==> k < i
      invariant forall k: nat :: k < i ==> ParseLight(settings[k]) == Ok(lights[k])
    {
      var light := ParseLight(settings[i]);
      if light.BadLightType? {
        assert settings[i] in settings;
        return BadLightType;
      }
      lights := lights[i := light.value];
      i := i + 1;
    }
    return Ok(lights);
  }

  // ----- Frames

  const FRAME_SIZE := 517

  predicate IsFrame(f: seq<Byte>) {
    && |f| == FRAME_SIZE
    && f[0] == 0x7e && f[1] == 0x06 && f[2] == 0x00 && f[3] == 0x02
    && f[516] == 0xe7
  }

  /** Brightness of a UV light for a colour. */
  function Intensity(c: Color): int {
    (77 * c.red + 150 * c.green + 29 * c.blue) / 256
  }

  /** The intensity fits a byte, and a grey keeps its value. */
  lemma IntensityOfGrey(c: Color)
    ensures 0 <= Intensity(c) < 256
    ensures c.red == c.green == c.blue ==> Intensity(c) == c.red
  {
  }

  /** The channel bytes that show colour `c` on a light. */
  function Rendering(kind: LightType, c: Color): (bytes: seq<Byte>)
    ensures |bytes| == Width(kind)
  {
    match kind
    case Rgb => [c.red, c.green, c.blue, 255, 0]
    case Uv => (IntensityOfGrey(c); [Intensity(c), 0])
  }

  function Width(kind: LightType): nat {
    match kind case Rgb => 5 case Uv => 2
  }

  /** First frame byte of a light. */
  function Offset(l: Light): nat {
    l.address + 4
  }

  /** The bytes of the frame from which the hardware takes a light's colour. */
  predicate Shows(f: seq<Byte>, l: Light, c: Color)
    requires |f| == FRAME_SIZE
  {
    var a := l.address;
    match l.kind
    case Rgb => f[a + 4] == c.red && f[a + 5] == c.green && f[a + 6] == c.blue && f[a + 7] == 255 && f[a + 8] == 0
    case Uv =>
      var weighted: int, bright: int := 77 * c.red + 150 * c.green + 29 * c.blue, f[a + 4];
      256 * bright <= weighted < 256 * (bright + 1) && f[a + 5] == 0
  }

  lemma ShowsRendering(f: seq<Byte>, l: Light, c: Color)
    requires |f| == FRAME_SIZE
    ensures Shows(f, l, c) <==> f[Offset(l)..Offset(l) + Width(l.kind)] == Rendering(l.kind, c)
  {
    var w := f[Offset(l)..Offset(l) + Width(l.kind)];
    assert forall k :: 0 <= k < Width(l.kind) ==> w[k] == f[l.address + 4 + k];
    var bytes := Rendering(l.kind, c);
    if l.kind == Uv {
      IntensityOfGrey(c);
      assert bytes[0] == Intensity(c) && bytes[1] == 0;
    }
    assert w == bytes <==> forall k :: 0 <= k < Width(l.kind) ==> w[k] == bytes[k];
  }

  /** The lights write to different channels. */
  predicate Disjoint(a: Light, b: Light) {
    Offset(a) + Width(a.kind) <= Offset(b) || Offset(b) + Width(b.kind) <= Offset(a)
  }

  /** Lights that a packet can name write to different channels. */
  predicate NoOverlap(lights: Lights) {
    forall i, j :: i in lights && j in lights && i != j && Nameable(i) && Nameable(j) ==> Disjoint(lights[i], lights[j])
  }

  /** `setLightColor` on a light that exists. */
  function Paint(f: seq<Byte>, l: Light, c: Color): (g: seq<Byte>)
    requires |f| == FRAME_SIZE
    ensures |g| == FRAME_SIZE
  {
    f[..Offset(l)] + Rendering(l.kind, c) + f[Offset(l) + Width(l.kind)..]
  }

  lemma PaintIs(f: seq<Byte>, l: Light, c: Color, g: seq<Byte>)
    requires |f| == |g| == FRAME_SIZE
    requires forall k :: 0 <= k < FRAME_SIZE && !(Offset(l) <= k < Offset(l) + Width(l.kind)) ==> g[k] == f[k]
    requires forall k :: 0 <= k < Width(l.kind) ==> g[Offset(l) + k] == Rendering(l.kind, c)[k]
    ensures g == Paint(f, l, c)
  {
    var p, o, w := Paint(f, l, c), Offset(l), Width(l.kind);
    forall k | 0 <= k < FRAME_SIZE
      ensures g[k] == p[k]
    {
      if o <= k < o + w { assert p[k] == Rendering(l.kind, c)[k - o] == g[o + (k - o)]; }
    }
  }

  /** Painting a light shows its colour, leaves lights on other channels alone, and stays clear of
      the header and the terminator wherever the light is. */
  lemma PaintShows(f: seq<Byte>, l: Light, c: Color)
    requires |f| == FRAME_SIZE
    ensures Shows(Paint(f, l, c), l, c)
    ensures IsFrame(f) ==> IsFrame(Paint(f, l, c))
  {
    hide Shows, Rendering;
    var g := Paint(f, l, c);
    assert g[Offset(l)..Offset(l) + Width(l.kind)] == Rendering(l.kind, c);
    ShowsRendering(g, l, c);
  }

  /** ... and every byte that is not one of the light's channels is left as it was. */
  lemma PaintKeepsRest(f: seq<Byte>, l: Light, c: Color, k: nat)
    requires |f| == FRAME_SIZE && k < FRAME_SIZE
    requires k < l.address + 4 || k >= l.address + (if l.kind == Rgb then 9 else 6)
    ensures Paint(f, l, c)[k] == f[k]
  {
  }

  lemma SameWindow(f: seq<Byte>, g: seq<Byte>, o: nat, w: nat)
    requires o + w <= |f| && o + w <= |g| && forall k :: o <= k < o + w ==> g[k] == f[k]
    ensures g[o..o + w] == f[o..o + w]
  {
  }

  lemma PaintKeepsOthers(f: seq<Byte>, l: Light, c: Color, other: Light, d: Color)
    requires |f| == FRAME_SIZE && Disjoint(l, other)
    ensures Shows(Paint(f, l, c), other, d) <==> Shows(f, other, d)
  {
    hide Rendering, Shows;
    var g := Paint(f, l, c);
    var o, w := Offset(other), Width(other.kind);
    forall k | o <= k < o + w
      ensures g[k] == f[k]
    {
    }
    SameWindow(f, g, o, w);
    ShowsRendering(f, other, d);
    ShowsRendering(g, other, d);
  }

  /** Of two lights that share a channel, painting the later one by address spoils the other. */
  lemma PaintSpoils(f: seq<Byte>, l: Light, other: Light)
    requires |f| == FRAME_SIZE && !Disjoint(l, other) && Offset(other) <= Offset(l) && Shows(f, other, Color(0, 0, 0))
    ensures !Shows(Paint(f, l, Color(1, 1, 1)), other, Color(0, 0, 0))
  {
    hide Shows;
    var g, k := Paint(f, l, Color(1, 1, 1)), Offset(l) - Offset(other);
    assert g[Offset(l)] == Rendering(l.kind, Color(1, 1, 1))[0] == 1;
    assert g[Offset(other)..Offset(other) + Width(other.kind)][k] == g[Offset(l)];
    assert Rendering(other.kind, Color(0, 0, 0))[k] != 1;
    ShowsRendering(g, other, Color(0, 0, 0));
  }

  /** `setLightColor`: a light that is not configured is ignored. */
  function SetLight(f: seq<Byte>, lights: Lights, l: LightColor): (g: seq<Byte>)
    requires |f| == FRAME_SIZE
    ensures |g| == FRAME_SIZE
  {
    if l.index in lights then Paint(f, lights[l.index], l.color) else f
  }

  function StartFrame(): seq<Byte> {
    [0x7e, 0x06, 0x00, 0x02] + seq(512, _ => 0) + [0xe7]
  }

  /** The start frame is well formed, and all channels are dark. */
  lemma StartIsFrame()
    ensures IsFrame(StartFrame()) && forall k :: 4 <= k < 516 ==> StartFrame()[k] == 0
  {
  }

  class DMXController {
    var dmxPacket: array<Byte>
    var lights: Lights
    /** What the device was last told. */
    ghost var written: seq<seq<Byte>>

    ghost predicate Valid()
      reads this, dmxPacket
    {
      dmxPacket.Length == FRAME_SIZE && IsFrame(dmxPacket[..])
    }

    constructor (lights: Lights)
      ensures Valid() && fresh(dmxPacket) && this.lights == lights && written == []
      ensures dmxPacket[..] == StartFrame()
    {
      var packet := new Byte[517](_ => 0);
      packet[0] := 0x7e;
      packet[1] := 0x06;
      packet[2] := 0x00;
      packet[3] := 0x02;
      packet[516] := 0xe7;
      dmxPacket := packet;
      this.lights := lights;
      written := [];
    }

    method SetLightColor(index: nat, color: Color)
      requires Valid()
      modifies dmxPacket
      ensures Valid() && dmxPacket[..] == SetLight(old(dmxPacket[..]), lights, LightColor(index, color))
      ensures index in lights ==> Shows(dmxPacket[..], lights[index], color)
    {
      if index !in lights { return; }
      var light := lights[index];
      var offset := light.address + 4;
      ghost var f := dmxPacket[..];
      match light.kind
      case Rgb =>
        dmxPacket[offset + 0] := color.red;
        dmxPacket[offset + 1] := color.green;
        dmxPacket[offset + 2] := color.blue;
        dmxPacket[offset + 3] := 255;
        dmxPacket[offset + 4] := 0;
        PaintIs(f, light, color, dmxPacket[..]);
      case Uv =>
        IntensityOfGrey(color);
        var intensity := 77 * color.red + 150 * color.green + 29 * color.blue;
        intensity := intensity / 256;
        dmxPacket[offset + 0] := intensity;
        dmxPacket[offset + 1] := 0;
        PaintIs(f, light, color, dmxPacket[..]);
    }

    /** `update`: the whole frame is written to the device. */
    method Update()
      requires Valid()
      modifies this`written
      ensures Valid() && written == old(written) + [dmxPacket[..]]
    {
      written := written + [dmxPacket[..]];
    }
  }
}
