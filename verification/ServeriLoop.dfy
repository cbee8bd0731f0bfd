/** The `Serveri` object of serveri.cpp: its methods and callbacks update the fields in place, and
    each is one step of the state machine. */
module ServeriLoop {
  import opened LightPacket
  import opened Dmx
  import opened Options
  import opened Serveri

  /** The packet, if the UDP socket was ready, and the callbacks of one pass through the loop. */
  datatype Iteration = Iteration(udp: Option<seq<Byte>>, callbacks: seq<Event>)

  /** The events of one iteration, in the order the loop causes them. */
  function EventsOf(it: Iteration): seq<Event> {
    (match it.udp case None => [] case Some(bytes) => [Arrives(bytes)]) + it.callbacks + [EndOfLoop]
  }

  function AllEvents(its: seq<Iteration>): seq<Event> {
    if its == [] then [] else AllEvents(its[..|its| - 1]) + EventsOf(its[|its| - 1])
  }

  class Server {
    const dmx: DMXController
    var tag: seq<Byte>
    var lights: Colors
    var monitorConnections: map<Connection, string>
    var monitorMessage: Message
    var lightsDirty: bool
    /** Monitors for which a writeable callback was asked for, and what each was sent last. */
    ghost var pending: set<Connection>
    ghost var received: map<Connection, Message>
    /** Everything that has happened. */
    ghost var history: seq<Event>

    ghost function View(): State
      reads this, dmx, dmx.dmxPacket
    {
      State(dmx.lights, tag, lights, dmx.dmxPacket[..], lightsDirty, dmx.written,
            monitorMessage, monitorConnections.Keys, pending, received)
    }

    /** The fields are what the state machine reaches on the events so far. */
    ghost predicate Valid()
      reads this, dmx, dmx.dmxPacket
    {
      && dmx.Valid() && Numbered(dmx.lights)
      && View() == Run(dmx.lights, history)
    }

    /** `Serveri::Serveri`: every configured light starts black. */
    constructor (config: Lights)
      requires Numbered(config)
      ensures Valid() && history == [] && dmx.lights == config && fresh(dmx) && fresh(dmx.dmxPacket)
    {
      dmx := new DMXController(config);
      tag := [];
      var colors := BlackLights(config);
      lights := colors;
      monitorConnections := map[];
      monitorMessage := Message([], []);
      lightsDirty := true;
      pending := {};
      received := map[];
      history := [];
      new;
      hide Run, Inv, Render, IsFrame, StartFrame, View;
      NumberedKeys(config, lights);
      UpdateMonitorMessage();
      Begins();
    }

    /** A new server is in the initial state. */
    lemma Begins()
      requires dmx.Valid() && Numbered(dmx.lights) && dmx.written == [] && dmx.dmxPacket[..] == StartFrame()
      requires tag == [] && lights == map i | i in dmx.lights :: BLACK
      requires Numbered(lights) && monitorMessage == Render([], lights) && lightsDirty
      requires monitorConnections == map[] && pending == {} && received == map[] && history == []
      ensures Valid()
    {
      hide Run, Inv, Render, IsFrame, StartFrame;
      RunBegins(dmx.lights);
      var s := Initial(dmx.lights);
      assert lights == s.colors;
      assert monitorConnections.Keys == s.monitors;
      assert View() == s;
    }

    /** `updateMonitorMessage`: reading a light through `operator[]` would insert a missing one; none
        is ever missing. */
    method UpdateMonitorMessage()
      requires Numbered(lights)
      modifies this`monitorMessage, this`lights
      ensures lights == old(lights) && monitorMessage == Render(tag, lights)
    {
      hide HexColor;
      var numLights := |lights|;
      var colors: seq<string> := [];
      var i := 0;
      while i < numLights
        invariant 0 <= i <= numLights && lights == old(lights)
        invariant |colors| == i && forall k :: 0 <= k < i ==> colors[k] == HexColor(lights[k])
      {
        var (c, all) := Subscript(lights, i);
        lights := all;
        colors := colors + [HexColor(c)];
        i := i + 1;
      }
      monitorMessage := Message(tag, colors);
      assert colors == Render(tag, lights).colors;
    }

    /** `lightPacket`, for a packet from either side. */
    method LightPacket(buf: seq<Byte>)
      requires Valid()
      modifies this`tag, this`lights, this`lightsDirty, this`history, dmx.dmxPacket
      ensures Valid() && history == old(history) + [Arrives(buf)] && lightsDirty
    {
      hide Run, Inv, IsFrame, Numbered, SetLights, Parse, FilterTag;
      ghost var s := View();
      RunOk(dmx.lights, history);
      var packet := ParseLightPacket(buf);
      tag := WhitelistedTag(packet.tag);
      lightsDirty := true;
      SetAll(packet.lights);
      history := history + [Arrives(buf)];
      assert View() == Step(s, Arrives(buf));
      RunSnoc(dmx.lights, old(history), Arrives(buf));
    }

    /** The loop of `lightPacket` over the lights of a packet. */
    method SetAll(all: seq<LightColor>)
      requires dmx.Valid()
      modifies this`lights, dmx.dmxPacket
      ensures dmx.Valid() && View() == SetLights(old(View()), all)
    {
      hide IsFrame, SetLight;
      var i := 0;
      while i < |all|
        invariant 0 <= i <= |all| && dmx.Valid()
        invariant SetLights(View(), all[i..]) == SetLights(old(View()), all)
      {
        var l := all[i];
        assert all[i..][1..] == all[i + 1..];
        dmx.SetLightColor(l.index, l.color);
        if l.index in lights {
          lights := lights[l.index := l.color];
        }
        i := i + 1;
      }
    }

    /** `LWS_CALLBACK_ESTABLISHED` on the monitor protocol: registered, and its first write asked for. */
    method OnEstablished(c: Connection, address: string)
      requires Valid()
      modifies this`monitorConnections, this`pending, this`history
      ensures Valid() && history == old(history) + [Established(c)]
      ensures c in monitorConnections && c in pending
    {
      hide Run, Inv, IsFrame, Numbered;
      AddMonitor(c, address);
      pending := pending + {c};
      history := history + [Established(c)];
      RunSnoc(dmx.lights, old(history), Established(c));
    }

    /** `addMonitor`: a connection already known keeps its address. */
    method AddMonitor(c: Connection, address: string)
      modifies this`monitorConnections
      ensures monitorConnections ==
        if c in old(monitorConnections) then old(monitorConnections) else old(monitorConnections)[c := address]
      ensures monitorConnections.Keys == old(monitorConnections.Keys) + {c}
    {
      if c !in monitorConnections {
        monitorConnections := monitorConnections[c := address];
      }
    }

    /** `LWS_CALLBACK_CLOSED`. */
    method OnClosed(c: Connection)
      requires Valid()
      modifies this`monitorConnections, this`pending, this`history
      ensures Valid() && history == old(history) + [Closed(c)]
      ensures c !in monitorConnections && c !in pending
    {
      hide Run, Inv, IsFrame, Numbered;
      DeleteMonitor(c);
      pending := pending - {c};
      history := history + [Closed(c)];
      RunSnoc(dmx.lights, old(history), Closed(c));
    }

    /** `deleteMonitor`. */
    method DeleteMonitor(c: Connection)
      modifies this`monitorConnections
      ensures monitorConnections == old(monitorConnections) - {c}
    {
      if c in monitorConnections {
        monitorConnections := monitorConnections - {c};
      }
    }

    /** `LWS_CALLBACK_SERVER_WRITEABLE`: the current message goes out. */
    method OnWriteable(c: Connection) returns (sent: Message)
      requires Valid()
      modifies this`pending, this`received, this`history
      ensures Valid() && history == old(history) + [Writeable(c)] && sent == monitorMessage
      ensures c in received && received[c] == sent && c !in pending
    {
      hide Run, Inv, IsFrame, Numbered;
      sent := monitorMessage;
      received := received[c := sent];
      pending := pending - {c};
      history := history + [Writeable(c)];
      RunSnoc(dmx.lights, old(history), Writeable(c));
    }

    /** Asks for a writeable callback for every monitor. */
    method RequestWrites()
      modifies this`pending
      ensures pending == old(pending) + monitorConnections.Keys
    {
      var left := monitorConnections.Keys;
      while left != {}
        invariant left <= monitorConnections.Keys
        invariant pending == old(pending) + (monitorConnections.Keys - left)
        decreases |left|
      {
        var c :| c in left;
        pending := pending + {c};
        left := left - {c};
      }
    }

    /** The end of an iteration of `run`. */
    method EndLoop()
      requires Valid()
      modifies this, dmx`written
      ensures Valid() && history == old(history) + [EndOfLoop] && dmx.dmxPacket == old(dmx.dmxPacket)
      ensures !lightsDirty && dmx.written == old(dmx.written) + if old(lightsDirty) then [dmx.dmxPacket[..]] else []
    {
      hide Run, Inv, IsFrame, Numbered, Render;
      ghost var s := View();
      RunOk(dmx.lights, history);
      if lightsDirty {
        dmx.Update();
        lightsDirty := false;
        UpdateMonitorMessage();
        RequestWrites();
      }
      history := history + [EndOfLoop];
      assert View() == Step(s, EndOfLoop);
      RunSnoc(dmx.lights, old(history), EndOfLoop);
    }

    /** What libwebsockets may call while its descriptors are served. */
    method OnCallback(e: Event)
      requires Valid() && !e.EndOfLoop?
      modifies this, dmx.dmxPacket
      ensures Valid() && history == old(history) + [e] && dmx.dmxPacket == old(dmx.dmxPacket)
    {
      match e
      case Arrives(bytes) => LightPacket(bytes);
      case Established(c) => OnEstablished(c, "");
      case Closed(c) => OnClosed(c);
      case Writeable(c) => var sent := OnWriteable(c);
    }

    /** The body of the loop of `run`: the UDP packet if there is one, the callbacks, then the end. */
    method RunOnce(it: Iteration)
      requires Valid() && forall e :: e in it.callbacks ==> !e.EndOfLoop?
      modifies this, dmx`written, dmx.dmxPacket
      ensures Valid() && history == old(history) + EventsOf(it) && dmx.dmxPacket == old(dmx.dmxPacket)
    {
      hide Valid;
      if it.udp.Some? { LightPacket(it.udp.value); }
      ghost var start := history;
      var k := 0;
      while k < |it.callbacks|
        invariant 0 <= k <= |it.callbacks| && Valid() && dmx.dmxPacket == old(dmx.dmxPacket)
        invariant history == start + it.callbacks[..k]
      {
        assert it.callbacks[k] in it.callbacks;
        OnCallback(it.callbacks[k]);
        assert it.callbacks[..k + 1] == it.callbacks[..k] + [it.callbacks[k]];
        k := k + 1;
      }
      assert it.callbacks[..k] == it.callbacks;
      EndLoop();
    }

    /** `run`, for as many iterations as the environment drives it. */
    method RunLoop(its: seq<Iteration>)
      requires Valid() && forall it, e :: it in its && e in it.callbacks ==> !e.EndOfLoop?
      modifies this, dmx`written, dmx.dmxPacket
      ensures Valid() && history == old(history) + AllEvents(its)
    {
      hide Valid;
      var n := 0;
      while n < |its|
        invariant 0 <= n <= |its| && Valid() && dmx.dmxPacket == old(dmx.dmxPacket)
        invariant history == old(history) + AllEvents(its[..n])
      {
        assert its[n] in its;
        RunOnce(its[n]);
        assert its[..n + 1][..n] == its[..n];
        n := n + 1;
      }
      assert its[..n] == its;
    }
  }

  /** Every configured light, black. */
  method BlackLights(config: Lights) returns (colors: Colors)
    ensures colors == map i | i in config :: BLACK
  {
    colors := map[];
    var left := config.Keys;
    while left != {}
      invariant left <= config.Keys
      invariant colors == map i | i in config.Keys - left :: BLACK
      decreases |left|
    {
      var i :| i in left;
      colors := colors[i := BLACK];
      left := left - {i};
    }
  }

  lemma RunOk(config: Lights, events: seq<Event>)
    requires Numbered(config)
    ensures Numbered(Run(config, events).colors) && |Run(config, events).frame| == FRAME_SIZE
  {
    hide Run, Numbered;
  }

  /** `operator[]` of an unordered map: the value, and the map with it. */
  function Subscript(m: Colors, i: nat): (Color, Colors) {
    if i in m then (m[i], m) else (BLACK, m[i := BLACK])
  }

  lemma RunSnoc(config: Lights, events: seq<Event>, e: Event)
    requires Numbered(config)
    ensures Run(config, events + [e]) == Step(Run(config, events), e)
  {
    assert (events + [e])[..|events|] == events;
  }

  /** The loop that erases characters from the tag. */
  method WhitelistedTag(tag: seq<Byte>) returns (r: seq<Byte>)
    ensures r == FilterTag(tag)
  {
    hide Allowed;
    r := tag;
    var it := 0;
    while it < |r|
      invariant 0 <= it <= |r|
      invariant FilterTag(r[..it]) == r[..it] && FilterTag(r) == FilterTag(tag)
      decreases |r| - it
    {
      FilterTagConcat(r[..it], r[it..]);
      assert r == r[..it] + r[it..];
      if !Allowed(r[it]) {
        var erased := r[..it] + r[it + 1..];
        FilterTagConcat(r[..it], r[it + 1..]);
        assert r[it..][1..] == r[it + 1..];
        assert erased[..it] == r[..it];
        r := erased;
      } else {
        FilterTagConcat(r[..it], [r[it]]);
        assert r[..it + 1] == r[..it] + [r[it]];
        it := it + 1;
      }
    }
    assert r[..it] == r;
  }
}
