/** The light server of serveri.cpp, in its build with websocket monitors. Packets change a
    snapshot of the lights and the hardware frame; the end of each loop iteration passes changes on
    to the device and to the monitors. */
module Serveri {
  import opened LightPacket
  import opened Dmx
  import opened Options

  /** A websocket connection. */
  type Connection = nat

  // ----- The monitor message

  const HEX_DIGITS := "0123456789abcdef"

  /** `{:02x}`. */
  function Hex2(b: Byte): string {
    [HEX_DIGITS[b / 16], HEX_DIGITS[b % 16]]
  }

  function HexColor(c: Color): string {
    Hex2(c.red) + Hex2(c.green) + Hex2(c.blue)
  }

  /** The fields of the message: the tag, and the colours of light 0, 1 and so on. */
  datatype Message = Message(tag: seq<Byte>, colors: seq<string>)

  type Colors = map<nat, Color>

  const BLACK := Color(0, 0, 0)

  /** The lights are numbered from 0 without gaps. */
  ghost predicate Numbered<T>(m: map<nat, T>) {
    forall i: nat :: i in m <==> i < |m|
  }

  function Render(tag: seq<Byte>, colors: Colors): Message
    requires Numbered(colors)
  {
    Message(tag, seq(|colors|, i requires 0 <= i < |colors| => HexColor(colors[i])))
  }

  lemma HexDigitsDiffer(a: int, b: int)
    requires 0 <= a < 16 && 0 <= b < 16 && HEX_DIGITS[a] == HEX_DIGITS[b]
    ensures a == b
  {
  }

  lemma Hex2Injective(a: Byte, b: Byte)
    requires Hex2(a) == Hex2(b)
    ensures a == b
  {
    assert Hex2(a)[0] == Hex2(b)[0] && Hex2(a)[1] == Hex2(b)[1];
    HexDigitsDiffer(a / 16, b / 16);
    HexDigitsDiffer(a % 16, b % 16);
  }

  lemma HexColorInjective(c: Color, d: Color)
    requires HexColor(c) == HexColor(d)
    ensures c == d
  {
    var x, y := HexColor(c), HexColor(d);
    assert x[0..2] == Hex2(c.red) && x[2..4] == Hex2(c.green) && x[4..6] == Hex2(c.blue);
    assert y[0..2] == Hex2(d.red) && y[2..4] == Hex2(d.green) && y[4..6] == Hex2(d.blue);
    Hex2Injective(c.red, d.red);
    Hex2Injective(c.green, d.green);
    Hex2Injective(c.blue, d.blue);
  }

  /** The value of a lower-case hexadecimal digit. */
  predicate IsDigit(c: char, v: int) {
    ('0' <= c <= '9' && v == c as int - '0' as int) || ('a' <= c <= 'f' && v == c as int - 'a' as int + 10)
  }

  /** Two digits stand for a byte. */
  predicate Stands(high: char, low: char, b: Byte) {
    IsDigit(high, b / 16) && IsDigit(low, b % 16)
  }

  lemma DigitOf(v: int)
    requires 0 <= v < 16
    ensures IsDigit(HEX_DIGITS[v], v)
  {
  }

  /** The text of a colour is red, green and blue in two digits each. */
  lemma HexColorReads(c: Color)
    ensures var t := HexColor(c);
      |t| == 6 && Stands(t[0], t[1], c.red) && Stands(t[2], t[3], c.green) && Stands(t[4], t[5], c.blue)
  {
    hide IsDigit;
    DigitOf(c.red / 16);
    DigitOf(c.red % 16);
    DigitOf(c.green / 16);
    DigitOf(c.green % 16);
    DigitOf(c.blue / 16);
    DigitOf(c.blue % 16);
  }

  // ----- The tag filter

  const SMALL := "abcdefghijklmnopqrstuvwxyz"
  const CAPITAL := "ABCDEFGHJKLMNOPQRSTUVWXYZ"
  const DIGITS := "0123456789"
  const SIGNS := "!#%&/()[]{}=?+-*,.;:|<>"
  const TAG_WHITELIST := SMALL + CAPITAL + " " + DIGITS + SIGNS

  /** The whitelist is filled from the literal with its terminating zero. */
  predicate Allowed(b: Byte) {
    b as char in TAG_WHITELIST || b == 0
  }

  lemma InSmall(c: char)
    ensures c in SMALL <==> 'a' <= c <= 'z'
  {
    if 'a' <= c <= 'z' {
      assert SMALL[c as int - 'a' as int] == c;
    }
  }

  lemma InCapital(c: char)
    ensures c in CAPITAL <==> 'A' <= c <= 'Z' && c != 'I'
  {
    if 'A' <= c < 'I' {
      assert CAPITAL[c as int - 'A' as int] == c;
    } else if 'I' < c <= 'Z' {
      assert CAPITAL[c as int - 'A' as int - 1] == c;
    }
  }

  lemma InDigits(c: char)
    ensures c in DIGITS <==> '0' <= c <= '9'
  {
    if '0' <= c <= '9' {
      assert DIGITS[c as int - '0' as int] == c;
    }
  }

  /** Letters but for the capital I, digits, zeros, blanks and some punctuation are allowed, and nothing else. */
  lemma AllowedAre(b: Byte)
    ensures Allowed(b) <==>
      || b == 0
      || 'a' <= b as char <= 'z' || ('A' <= b as char <= 'Z' && b as char != 'I') || '0' <= b as char <= '9'
      || b as char == ' ' || b as char in "!#%&/()[]{}=?+-*,.;:|<>"
  {
    hide SMALL, CAPITAL, DIGITS;
    InSmall(b as char);
    InCapital(b as char);
    InDigits(b as char);
  }

  function FilterTag(tag: seq<Byte>): seq<Byte> {
    if tag == [] then []
    else (if Allowed(tag[0]) then [tag[0]] else []) + FilterTag(tag[1..])
  }

  /** `at` are the places of the allowed bytes of `tag`, and `kept` is what stands there, in order. */
  ghost predicate KeptAt(tag: seq<Byte>, at: seq<nat>, kept: seq<Byte>) {
    && Ascending(at) && (forall k: nat :: k in at <==> k < |tag| && Allowed(tag[k]))
    && |kept| == |at| && forall j :: 0 <= j < |at| ==> at[j] < |tag| && kept[j] == tag[at[j]]
  }

  /** The filter keeps exactly the allowed bytes, each where it stands among the others. */
  lemma {:induction false} FilterTagKeepsAllowed(tag: seq<Byte>) returns (at: seq<nat>)
    ensures KeptAt(tag, at, FilterTag(tag))
  {
    hide Allowed, KeptAt, FilterTag;
    if tag == [] {
      at := [];
      assert KeptAt([], [], FilterTag([])) by { NothingKept(); }
    } else {
      var n := |tag| - 1;
      var before := FilterTagKeepsAllowed(tag[..n]);
      assert tag == tag[..n] + [tag[n]];
      FilterTagConcat(tag[..n], [tag[n]]);
      FilterOne(tag[n]);
      at := OneMoreKept(tag[..n], tag[n], before, FilterTag(tag[..n]));
    }
  }

  lemma NothingKept()
    ensures KeptAt([], [], FilterTag([]))
  {
  }

  lemma FilterOne(b: Byte)
    ensures FilterTag([b]) == if Allowed(b) then [b] else []
  {
    hide Allowed;
    assert [b][1..] == [];
  }

  lemma OneMoreKept(tag: seq<Byte>, b: Byte, before: seq<nat>, kept: seq<Byte>) returns (at: seq<nat>)
    requires KeptAt(tag, before, kept)
    ensures KeptAt(tag + [b], at, kept + (if Allowed(b) then [b] else []))
  {
    hide Allowed;
    var all := tag + [b];
    assert forall k :: 0 <= k < |tag| ==> all[k] == tag[k];
    if Allowed(b) {
      at := before + [|tag|];
      assert forall k :: 0 <= k < |before| ==> before[k] in before;
    } else {
      at := before;
      assert kept + [] == kept;
    }
  }

  lemma {:induction false} FilterTagConcat(a: seq<Byte>, b: seq<Byte>)
    ensures FilterTag(a + b) == FilterTag(a) + FilterTag(b)
  {
    hide Allowed;
    if a == [] {
      assert a + b == b;
    } else {
      assert (a + b)[1..] == a[1..] + b && (a + b)[0] == a[0];
      FilterTagConcat(a[1..], b);
      var head := if Allowed(a[0]) then [a[0]] else [];
      assert head + (FilterTag(a[1..]) + FilterTag(b)) == head + FilterTag(a[1..]) + FilterTag(b);
    }
  }

  // ----- The server as a state machine

  datatype State = State(
    config: Lights,
    tag: seq<Byte>, colors: Colors, frame: seq<Byte>, dirty: bool,
    written: seq<seq<Byte>>,
    message: Message, monitors: set<Connection>, pending: set<Connection>, received: map<Connection, Message>)

  /** A packet by UDP or websocket, a callback for a monitor, or the end of a loop iteration. */
  datatype Event =
    | Arrives(bytes: seq<Byte>)
    | Established(c: Connection)
    | Closed(c: Connection)
    | Writeable(c: Connection)
    | EndOfLoop

  ghost function Initial(config: Lights): State
    requires Numbered(config)
  {
    var colors := map i | i in config :: BLACK;
    NumberedKeys(config, colors);
    State(config, [], colors, StartFrame(), true, [], Render([], colors), {}, {}, map[])
  }

  lemma NumberedKeys<S, T>(m: map<nat, S>, n: map<nat, T>)
    requires Numbered(m) && m.Keys == n.Keys
    ensures Numbered(n)
  {
    assert |m| == |m.Keys| && |n| == |n.Keys|;
  }

  /** A snapshot of a light that is not configured is not kept. */
  function SetColor(colors: Colors, l: LightColor): Colors {
    if l.index in colors then colors[l.index := l.color] else colors
  }

  function SetLights(s: State, lights: seq<LightColor>): State
    requires |s.frame| == FRAME_SIZE
    decreases lights
  {
    if lights == [] then s
    else SetLights(s.(frame := SetLight(s.frame, s.config, lights[0]), colors := SetColor(s.colors, lights[0])),
      lights[1..])
  }

  /** `Serveri::lightPacket`. */
  function OnPacket(s: State, bytes: seq<Byte>): State
    requires |s.frame| == FRAME_SIZE
  {
    var p := Parse(bytes);
    SetLights(s.(tag := FilterTag(p.tag), dirty := true), p.lights)
  }

  /** The end of an iteration of `Serveri::run`. */
  ghost function OnEndOfLoop(s: State): State
    requires Numbered(s.colors)
  {
    if !s.dirty then s
    else s.(written := s.written + [s.frame], dirty := false, message := Render(s.tag, s.colors),
      pending := s.pending + s.monitors)
  }

  ghost function Step(s: State, e: Event): State
    requires |s.frame| == FRAME_SIZE && Numbered(s.colors)
  {
    match e
    case Arrives(bytes) => OnPacket(s, bytes)
    case Established(c) => s.(monitors := s.monitors + {c}, pending := s.pending + {c})
    case Closed(c) => s.(monitors := s.monitors - {c}, pending := s.pending - {c})
    case Writeable(c) => s.(received := s.received[c := s.message], pending := s.pending - {c})
    case EndOfLoop => OnEndOfLoop(s)
  }

  /** A monitor is owed nothing: a write is due, or it has the current message. */
  predicate Served(s: State, c: Connection) {
    c in s.pending || (c in s.received && s.received[c] == s.message)
  }

  /** Nothing is lost: what the device and the message do not show yet is marked as such. */
  ghost predicate Inv(s: State) {
    && Numbered(s.colors) && s.colors.Keys == s.config.Keys && IsFrame(s.frame)
    && (s.dirty || (s.message == Render(s.tag, s.colors) && s.written != [] && s.written[|s.written| - 1] == s.frame))
    && (forall c :: c in s.monitors ==> Served(s, c))
  }

  lemma InitialInv(config: Lights)
    requires Numbered(config)
    ensures Inv(Initial(config))
  {
    hide Render, StartFrame;
    StartIsFrame();
    assert Initial(config).colors.Keys == config.Keys;
  }

  lemma SetColorKeys(colors: Colors, l: LightColor)
    ensures SetColor(colors, l).Keys == colors.Keys
  {
  }

  /** Setting lights changes only the frame and the colours, and neither's shape. */
  lemma {:induction false} SetLightsFrame(s: State, lights: seq<LightColor>)
    requires IsFrame(s.frame)
    ensures var t := SetLights(s, lights);
      t == s.(frame := t.frame, colors := t.colors) && IsFrame(t.frame) && t.colors.Keys == s.colors.Keys
    decreases lights
  {
    hide Paint;
    if lights != [] {
      var l := lights[0];
      if l.index in s.config { PaintShows(s.frame, s.config[l.index], l.color); }
      SetColorKeys(s.colors, l);
      SetLightsFrame(s.(frame := SetLight(s.frame, s.config, l), colors := SetColor(s.colors, l)), lights[1..]);
    }
  }

  /** Every step keeps the invariant. */
  lemma StepInv(s: State, e: Event)
    requires Inv(s)
    ensures Inv(Step(s, e)) && Step(s, e).config == s.config
  {
    hide Render;
    match e
    case Arrives(bytes) =>
      var p := Parse(bytes);
      SetLightsFrame(s.(tag := FilterTag(p.tag), dirty := true), p.lights);
      var t := OnPacket(s, bytes);
      NumberedKeys(s.colors, t.colors);
      assert forall c :: Served(t, c) <==> Served(s, c);
    case _ =>
  }

  /** The state after a run, from the server's start. */
  ghost function Run(config: Lights, events: seq<Event>): (s: State)
    requires Numbered(config)
    ensures Inv(s) && s.config == config
  {
    if events == [] then
      InitialInv(config);
      Initial(config)
    else
      var last := |events| - 1;
      StepInv(Run(config, events[..last]), events[last]);
      Step(Run(config, events[..last]), events[last])
  }

  /** A connection is a monitor if it was established and not closed since. */
  function Connected(events: seq<Event>, c: Connection): bool {
    if events == [] then false
    else
      var last := events[|events| - 1];
      if last == Established(c) then true
      else if last == Closed(c) then false
      else Connected(events[..|events| - 1], c)
  }

  /** ... and waits for its first message if it was not written to since. */
  function AwaitsFirst(events: seq<Event>, c: Connection): bool {
    if events == [] then false
    else
      var last := events[|events| - 1];
      if last == Established(c) then true
      else if last == Closed(c) || last == Writeable(c) then false
      else AwaitsFirst(events[..|events| - 1], c)
  }

  /** A packet arrived since the last end of the loop, or there was no end yet. */
  function News(events: seq<Event>): bool {
    if events == [] then true
    else
      var last := events[|events| - 1];
      if last.Arrives? then true
      else if last.EndOfLoop? then false
      else News(events[..|events| - 1])
  }

  /** How often the loop ended with news. */
  function Updates(events: seq<Event>): nat {
    if events == [] then 0
    else
      var before := events[..|events| - 1];
      Updates(before) + if events[|events| - 1].EndOfLoop? && News(before) then 1 else 0
  }

  /** The tag of the last packet. */
  function LastTag(events: seq<Event>): seq<Byte> {
    if events == [] then []
    else
      var last := events[|events| - 1];
      if last.Arrives? then Parse(last.bytes).tag else LastTag(events[..|events| - 1])
  }

  /** What a run knows, told by its events alone: its monitors, the first messages due, whether there
      is news for the device, and the tag. */
  lemma {:induction false} RunKnows(config: Lights, events: seq<Event>, c: Connection)
    requires Numbered(config)
    ensures var s := Run(config, events);
      && (c in s.monitors <==> Connected(events, c))
      && (AwaitsFirst(events, c) ==> c in s.pending)
      && (s.dirty <==> News(events))
      && s.tag == FilterTag(LastTag(events))
      && |s.written| == Updates(events)
  {
    hide Parse, FilterTag, Inv, Render;
    if events == [] {
      hide Run;
      RunBegins(config);
      assert FilterTag([]) == [] by { FilterNothing(); }
    } else {
      var last := |events| - 1;
      var s, e := Run(config, events[..last]), events[last];
      RunKnows(config, events[..last], c);
      RunFrame(config, events[..last]);
      assert Run(config, events) == Step(s, e);
      if e.Arrives? {
        PacketKnows(s, e.bytes);
      } else {
        QuietStep(s, e);
      }
    }
  }

  lemma FilterNothing()
    ensures FilterTag([]) == []
  {
  }

  lemma PacketKnows(s: State, bytes: seq<Byte>)
    requires Inv(s)
    ensures var t := OnPacket(s, bytes);
      t.monitors == s.monitors && t.pending == s.pending && t.dirty && t.tag == FilterTag(Parse(bytes).tag)
      && t.written == s.written
  {
    hide Parse, FilterTag, Render;
    var p := Parse(bytes);
    SetLightsFrame(s.(tag := FilterTag(p.tag), dirty := true), p.lights);
  }

  lemma QuietStep(s: State, e: Event)
    requires Inv(s) && !e.Arrives?
    ensures var t := Step(s, e);
      && t.tag == s.tag && (t.dirty <==> s.dirty && !e.EndOfLoop?)
      && |t.written| == |s.written| + (if e.EndOfLoop? && s.dirty then 1 else 0)
      && t.monitors == (if e.Established? then s.monitors + {e.c}
          else if e.Closed? then s.monitors - {e.c}
          else s.monitors)
      && (if e.Established? then t.pending == s.pending + {e.c}
          else if e.EndOfLoop? then s.pending <= t.pending
          else t.pending == s.pending - {e.c})
  {
    hide Render;
  }

  /** Before anything happens all is dark: the snapshot, the message and the frame. */
  lemma DarkAtFirst(config: Lights)
    requires Numbered(config)
    ensures var s := Run(config, []);
      && (forall i :: i in config ==> i in s.colors && s.colors[i] == BLACK)
      && s.message.tag == [] && |s.message.colors| == |config|
      && (forall i :: 0 <= i < |config| ==> s.message.colors[i] == "000000")
      && IsFrame(s.frame) && (forall k :: 4 <= k < 516 ==> s.frame[k] == 0)
      && s.monitors == {} && s.pending == {} && s.written == []
  {
    hide Run, StartFrame, HexColor;
    RunBegins(config);
    StartIsFrame();
    var colors := map i | i in config :: BLACK;
    assert |colors| == |config| by { SameSize(colors, config); }
    assert HexColor(BLACK) == "000000" by { BlackText(); }
  }

  lemma BlackText()
    ensures HexColor(BLACK) == "000000"
  {
  }

  /** A write to a monitor hands it the message of that moment, and asks for nothing more. */
  lemma WriteDelivers(config: Lights, events: seq<Event>, c: Connection)
    requires Numbered(config)
    ensures var s, t := Run(config, events), Run(config, events + [Writeable(c)]);
      t.message == s.message && c in t.received && t.received[c] == s.message && c !in t.pending
  {
    var all := events + [Writeable(c)];
    assert all[..|all| - 1] == events;
    RunFrame(config, events);
  }

  /** No update is lost in any run. When there is no news, the message renders the snapshot with the tag
      of the last packet, and the device was last told the frame. Every connection established and not
      closed since has a write due or the current message, and until its first message the write is
      due. Header and terminator of the frame never change. */
  lemma NoLostUpdate(config: Lights, events: seq<Event>)
    requires Numbered(config)
    ensures var s := Run(config, events);
      && (News(events) || (Numbered(s.colors) && s.message == Render(FilterTag(LastTag(events)), s.colors)
          && s.written != [] && s.written[|s.written| - 1] == s.frame))
      && (forall c :: Connected(events, c) ==> Served(s, c))
      && (forall c :: AwaitsFirst(events, c) ==> c in s.pending)
      && s.colors.Keys == config.Keys && IsFrame(s.frame)
  {
    hide Run, Connected, AwaitsFirst, News, LastTag;
    var s := Run(config, events);
    assert Inv(s);
    RunKnows(config, events, 0);
    forall c
      ensures Connected(events, c) ==> Served(s, c)
      ensures AwaitsFirst(events, c) ==> c in s.pending
    {
      RunKnows(config, events, c);
    }
  }

  // ----- From packets to lights

  /** Every light colour that arrived, in order. */
  function Arrived(events: seq<Event>): seq<LightColor> {
    if events == [] then []
    else
      var last := |events| - 1;
      Arrived(events[..last]) + (if events[last].Arrives? then Parse(events[last].bytes).lights else [])
  }

  /** The last colour given for light `i`. */
  function LastColor(lights: seq<LightColor>, i: nat): Option<Color> {
    if lights == [] then None
    else
      var last := |lights| - 1;
      if lights[last].index == i then Some(lights[last].color) else LastColor(lights[..last], i)
  }

  /** The snapshot and the frame show, of every light, the last colour given. */
  ghost predicate ShowsLast(s: State, arrived: seq<LightColor>) {
    && |s.frame| == FRAME_SIZE && s.colors.Keys == s.config.Keys
    && forall i :: i in s.config ==>
      match LastColor(arrived, i)
      case None => s.colors[i] == BLACK
      case Some(c) => s.colors[i] == c && Shows(s.frame, s.config[i], c)
  }

  predicate AllNameable(lights: seq<LightColor>) {
    forall l :: l in lights ==> Nameable(l.index)
  }

  lemma {:induction false} LastColorNamed(lights: seq<LightColor>, i: nat)
    requires LastColor(lights, i).Some? && AllNameable(lights)
    ensures Nameable(i)
  {
    var last := |lights| - 1;
    assert lights[last] in lights;
    if lights[last].index != i { LastColorNamed(lights[..last], i); }
  }

  lemma {:induction false} ArrivedNameable(events: seq<Event>)
    ensures AllNameable(Arrived(events))
  {
    hide Parse;
    if events != [] {
      var last := |events| - 1;
      ArrivedNameable(events[..last]);
      if events[last].Arrives? { ParsedNameable(events[last].bytes); }
    }
  }

  lemma ParsedNameable(bytes: seq<Byte>)
    ensures AllNameable(Parse(bytes).lights)
  {
    hide Records;
    if HeaderOk(bytes) { RecordsAreNameable(bytes, RecordsStart(bytes)); }
  }

  lemma ShowsLastOne(s: State, arrived: seq<LightColor>, l: LightColor)
    requires NoOverlap(s.config) && ShowsLast(s, arrived) && AllNameable(arrived) && Nameable(l.index)
    ensures ShowsLast(s.(frame := SetLight(s.frame, s.config, l), colors := SetColor(s.colors, l)), arrived + [l])
  {
    hide Paint, Shows;
    var t := s.(frame := SetLight(s.frame, s.config, l), colors := SetColor(s.colors, l));
    assert (arrived + [l])[..|arrived|] == arrived;
    forall i | i in t.config
      ensures match LastColor(arrived + [l], i)
        case None => t.colors[i] == BLACK
        case Some(c) => t.colors[i] == c && Shows(t.frame, t.config[i], c)
    {
      if l.index in s.config {
        PaintShows(s.frame, s.config[l.index], l.color);
        if i != l.index {
          var before := LastColor(arrived, i);
          if before.Some? {
            LastColorNamed(arrived, i);
            PaintKeepsOthers(s.frame, s.config[l.index], l.color, s.config[i], before.value);
          }
        }
      }
    }
  }

  lemma {:induction false} ShowsLastAll(s: State, arrived: seq<LightColor>, lights: seq<LightColor>)
    requires NoOverlap(s.config) && ShowsLast(s, arrived) && AllNameable(arrived) && AllNameable(lights)
    ensures ShowsLast(SetLights(s, lights), arrived + lights)
    decreases lights
  {
    hide ShowsLast, SetLight;
    assert |s.frame| == FRAME_SIZE by { FrameOfShowsLast(s, arrived); }
    if lights == [] {
      assert arrived + lights == arrived;
    } else {
      var l := lights[0];
      assert l in lights;
      ShowsLastOne(s, arrived, l);
      assert arrived + [l] + lights[1..] == arrived + lights;
      ShowsLastAll(s.(frame := SetLight(s.frame, s.config, l), colors := SetColor(s.colors, l)), arrived + [l],
        lights[1..]);
    }
  }

  lemma FrameOfShowsLast(s: State, arrived: seq<LightColor>)
    requires ShowsLast(s, arrived)
    ensures |s.frame| == FRAME_SIZE
  {
  }

  lemma StepShowsLast(s: State, arrived: seq<LightColor>, e: Event)
    requires Numbered(s.colors) && NoOverlap(s.config) && ShowsLast(s, arrived) && AllNameable(arrived)
    ensures ShowsLast(Step(s, e), arrived + if e.Arrives? then Parse(e.bytes).lights else [])
  {
    if e.Arrives? {
      hide NoOverlap;
      var p := Parse(e.bytes);
      var t := s.(tag := FilterTag(p.tag), dirty := true);
      assert ShowsLast(t, arrived);
      ParsedNameable(e.bytes);
      ShowsLastAll(t, arrived, p.lights);
    } else {
      assert arrived + [] == arrived;
    }
  }

  /** Over any run in which lights that can be named are on separate channels,
    the snapshot holds the last colour given for
      each light, and the frame renders it. */
  lemma {:induction false} RunShowsLast(config: Lights, events: seq<Event>)
    requires Numbered(config) && NoOverlap(config)
    ensures ShowsLast(Run(config, events), Arrived(events))
  {
    hide NoOverlap, Step;
    if events == [] {
      hide Run, Inv;
      assert Run(config, []) == Initial(config) by { RunBegins(config); }
    } else {
      hide ShowsLast;
      var last := |events| - 1;
      RunShowsLast(config, events[..last]);
      ArrivedNameable(events[..last]);
      StepShowsLast(Run(config, events[..last]), Arrived(events[..last]), events[last]);
    }
  }

  /** Separate channels are also necessary: two lights that share one have a run that spoils one of them. */
  lemma ShowsLastIff(config: Lights)
    requires Numbered(config)
    ensures (forall events :: ShowsLast(Run(config, events), Arrived(events))) <==> NoOverlap(config)
  {
    hide ShowsLast, Run, Disjoint;
    if NoOverlap(config) {
      hide NoOverlap;
      forall events
        ensures ShowsLast(Run(config, events), Arrived(events))
      {
        RunShowsLast(config, events);
      }
    } else {
      var events := SpoiledRun(config);
    }
  }

  lemma SpoiledRun(config: Lights) returns (events: seq<Event>)
    requires Numbered(config) && !NoOverlap(config)
    ensures !ShowsLast(Run(config, events), Arrived(events))
  {
    hide ShowsLast, Run, Arrived, Nameable;
    var i, j :| i in config && j in config && i != j && Nameable(i) && Nameable(j) && !Disjoint(config[i], config[j]);
    if Offset(config[i]) <= Offset(config[j]) {
      events := Spoiling(i, j);
      Spoils(config, i, j);
    } else {
      events := Spoiling(j, i);
      Spoils(config, j, i);
    }
  }

  /** A packet that makes light `i` black and then light `j` nearly so. */
  function SpoilingPacket(i: nat, j: nat): seq<Byte>
    requires Nameable(i) && Nameable(j)
  {
    [1, 0, 0] + [1, NamingByte(i), 0, 0, 0, 0] + [1, NamingByte(j), 0, 1, 1, 1]
  }

  ghost function Spoiling(i: nat, j: nat): seq<Event>
    requires Nameable(i) && Nameable(j)
  {
    [Arrives(SpoilingPacket(i, j))]
  }

  lemma SpoilingParses(i: nat, j: nat)
    requires Nameable(i) && Nameable(j)
    ensures Parse(SpoilingPacket(i, j)).lights == [LightColor(i, BLACK), LightColor(j, Color(1, 1, 1))]
  {
    hide CharToUnsigned;
    var p := SpoilingPacket(i, j);
    assert FirstZero(p, 2) == 2;
    assert RecordAt(p, 3) == [LightColor(i, BLACK)] && RecordAt(p, 9) == [LightColor(j, Color(1, 1, 1))];
    assert Records(p, 15) == [];
    assert Records(p, 9) == RecordAt(p, 9) + Records(p, 15);
  }

  lemma Spoils(config: Lights, i: nat, j: nat)
    requires Numbered(config) && i in config && j in config && i != j && Nameable(i) && Nameable(j)
    requires !Disjoint(config[i], config[j]) && Offset(config[i]) <= Offset(config[j])
    ensures !ShowsLast(Run(config, Spoiling(i, j)), Arrived(Spoiling(i, j)))
  {
    hide Parse, SpoilingPacket, Paint, Rendering, Render, Inv, Run;
    var events, a, b := Spoiling(i, j), LightColor(i, BLACK), LightColor(j, Color(1, 1, 1));
    SpoilingParses(i, j);
    assert events[..0] == [];
    assert Arrived(events) == [a, b] by { assert Arrived([]) == []; assert [] + [a, b] == [a, b]; }
    assert LastColor([a, b], i) == Some(BLACK) by { assert [a, b][..1] == [a]; }
    RunBegins(config);
    var s := Initial(config);
    assert IsFrame(s.frame) by { InitialInv(config); }
    var f := Paint(s.frame, config[i], BLACK);
    PaintShows(s.frame, config[i], BLACK);
    assert Run(config, events) == OnPacket(s, SpoilingPacket(i, j)) by { RunOne(config, events[0]); }
    TwoLights(s.(tag := FilterTag(Parse(SpoilingPacket(i, j)).tag), dirty := true), a, b);
    PaintSpoils(f, config[j], config[i]);
  }

  lemma RunOne(config: Lights, e: Event)
    requires Numbered(config)
    ensures Run(config, [e]) == Step(Run(config, []), e)
  {
    hide Step;
    assert [e][..0] == [];
  }

  lemma TwoLights(s: State, a: LightColor, b: LightColor)
    requires |s.frame| == FRAME_SIZE
    ensures SetLights(s, [a, b]).frame == SetLight(SetLight(s.frame, s.config, a), s.config, b)
    ensures SetLights(s, [a, b]).config == s.config
  {
    hide SetLight, SetColor;
    var t := s.(frame := SetLight(s.frame, s.config, a), colors := SetColor(s.colors, a));
    assert [a, b][1..] == [b];
    assert SetLights(s, [a, b]) == SetLights(t, [b]);
    OneLight(t, b);
  }

  lemma OneLight(s: State, l: LightColor)
    requires |s.frame| == FRAME_SIZE
    ensures SetLights(s, [l]) == s.(frame := SetLight(s.frame, s.config, l), colors := SetColor(s.colors, l))
  {
    hide SetLight, SetColor;
    assert [l][1..] == [];
  }

  // ----- Lights out of reach

  lemma {:induction false} SetLightsKeepsColor(s: State, lights: seq<LightColor>, i: nat)
    requires |s.frame| == FRAME_SIZE && i in s.colors && forall l :: l in lights ==> l.index != i
    ensures var t := SetLights(s, lights); i in t.colors && t.colors[i] == s.colors[i]
    decreases lights
  {
    hide SetLight;
    if lights != [] {
      var l := lights[0];
      assert l in lights;
      SetLightsKeepsColor(s.(frame := SetLight(s.frame, s.config, l), colors := SetColor(s.colors, l)), lights[1..], i);
    }
  }

  /** A configured light with a number that no packet can name, 128 to 2^32 - 129, stays black in every run. */
  lemma {:induction false} OutOfReachStaysBlack(config: Lights, events: seq<Event>, i: nat)
    requires Numbered(config) && i in config && !Nameable(i)
    ensures var s := Run(config, events); i in s.colors && s.colors[i] == BLACK
  {
    hide Parse, Render;
    if events == [] {
      hide Run, Inv;
      RunBegins(config);
    } else {
      hide Inv;
      var last := |events| - 1;
      var s, e := Run(config, events[..last]), events[last];
      OutOfReachStaysBlack(config, events[..last], i);
      if e.Arrives? {
        ParsedNameable(e.bytes);
        RunFrame(config, events[..last]);
        SetLightsKeepsColor(s.(tag := FilterTag(Parse(e.bytes).tag), dirty := true), Parse(e.bytes).lights, i);
      }
    }
  }

  lemma RunFrame(config: Lights, events: seq<Event>)
    requires Numbered(config)
    ensures |Run(config, events).frame| == FRAME_SIZE && Numbered(Run(config, events).colors)
  {
    hide Run;
    assert Inv(Run(config, events));
  }

  lemma RunBegins(config: Lights)
    requires Numbered(config)
    ensures Run(config, []) == Initial(config)
  {
  }

  /** A run ends its last iteration with nothing left to pass on. */
  lemma NotDirtyAfterLoop(config: Lights, events: seq<Event>)
    requires Numbered(config)
    ensures !Run(config, events + [EndOfLoop]).dirty && Arrived(events + [EndOfLoop]) == Arrived(events)
  {
    var all := events + [EndOfLoop];
    assert all[..|all| - 1] == events;
  }

  lemma EndChangesNoOne(events: seq<Event>)
    ensures LastTag(events + [EndOfLoop]) == LastTag(events)
    ensures forall c :: Connected(events + [EndOfLoop], c) == Connected(events, c)
  {
    var all := events + [EndOfLoop];
    assert all[..|all| - 1] == events;
  }

  lemma SameSize<S, T>(m: map<nat, S>, n: map<nat, T>)
    requires m.Keys == n.Keys
    ensures |m| == |n|
  {
    assert |m| == |m.Keys| && |n| == |n.Keys|;
  }

  lemma LastShown(s: State, arrived: seq<LightColor>, i: nat, c: Color)
    requires ShowsLast(s, arrived) && i in s.config && LastColor(arrived, i) == Some(c)
    ensures |s.frame| == FRAME_SIZE && i in s.colors && s.colors[i] == c && Shows(s.frame, s.config[i], c)
  {
  }

  /** At the end of the loop, what the device was last told shows colour `c` for light `i`, the message
      names it, and every monitor has the message or is about to. */
  ghost predicate Delivered(config: Lights, events: seq<Event>, i: nat, c: Color)
    requires Numbered(config) && i in config
  {
    var s := Run(config, events + [EndOfLoop]);
    && s.written != [] && |s.written[|s.written| - 1]| == FRAME_SIZE && Shows(s.written[|s.written| - 1], config[i], c)
    && i < |s.message.colors| == |config| && s.message.colors[i] == HexColor(c)
    && s.message.tag == FilterTag(LastTag(events))
    && forall m :: Connected(events, m) ==> Served(s, m)
  }

  /** At the end of every loop iteration, what the device was last told shows the last colour given
      for each light, the message names it, and every monitor has the message or is about to. */
  lemma DeliveredAtEndOfLoop(config: Lights, events: seq<Event>, i: nat, c: Color)
    requires Numbered(config) && NoOverlap(config) && i in config && LastColor(Arrived(events), i) == Some(c)
    ensures Delivered(config, events, i, c)
  {
    hide Run, NoOverlap, ShowsLast, Shows, LastColor, Arrived, Connected, LastTag;
    var all := events + [EndOfLoop];
    EndChangesNoOne(events);
    NoLostUpdate(config, all);
    RunKnows(config, all, 0);
    assert |Run(config, all).colors| == |config| by { SameSize(Run(config, all).colors, config); }
    RunShowsLast(config, all);
    NotDirtyAfterLoop(config, events);
    LastShown(Run(config, all), Arrived(all), i, c);
  }

  // ----- From the client to the device

  /** Lights read from a configuration carry the numbers 0 to n-1, as the server relies on. */
  lemma ConfiguredLightsAreNumbered<T>(m: map<nat, T>, n: nat)
    requires forall i: nat :: i in m <==> i < n
    ensures Numbered(m)
  {
    BelowSize(n, m.Keys);
  }

  lemma {:induction false} BelowSize(n: nat, below: set<nat>)
    requires forall i: nat :: i in below <==> i < n
    ensures |below| == n
  {
    if n == 0 {
      assert below == {};
    } else {
      BelowSize(n - 1, below - {n - 1});
    }
  }

  lemma {:induction false} LastColorConcat(a: seq<LightColor>, b: seq<LightColor>, i: nat)
    ensures LastColor(a + b, i) == if LastColor(b, i).Some? then LastColor(b, i) else LastColor(a, i)
  {
    if b == [] {
      assert a + b == a;
    } else {
      var n := |b| - 1;
      assert (a + b)[..|a| + n] == a + b[..n] && (a + b)[|a| + n] == b[n];
      LastColorConcat(a, b[..n], i);
    }
  }

  /** What a client encodes is what the device shows: after a packet built by the client and the end
      of the loop, whatever happened before, each configured light named in the packet shows, in the
      bytes last written to the device, the last colour the packet gives it. */
  lemma EncodedIsShown(config: Lights, events: seq<Event>, nick: seq<int>, lights: seq<LightColor>, i: nat, c: Color)
    requires Numbered(config) && NoOverlap(config) && i in config
    requires AreBytes(Encode(nick, lights)) && ZeroFree(nick) && SmallIndices(lights)
    requires LastColor(lights, i) == Some(c)
    ensures Delivered(config, events + [Arrives(Bytes(Encode(nick, lights)))], i, c)
  {
    hide Run, Shows, NoOverlap, LastColor, Parse, Encode, Bytes, Delivered;
    var e := Arrives(Bytes(Encode(nick, lights)));
    var all := events + [e];
    ParseEncodeIff(nick, lights);
    assert all[..|all| - 1] == events;
    assert Arrived(all) == Arrived(events) + lights;
    LastColorConcat(Arrived(events), lights, i);
    DeliveredAtEndOfLoop(config, all, i, c);
  }
}
