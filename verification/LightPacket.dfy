/** Light packets: the parser of LightPacket.cpp and the encoder of instanssiController.py. */
module LightPacket {
  import opened CArith

  type Byte = b: int | 0 <= b < 256

  datatype Color = Color(red: Byte, green: Byte, blue: Byte)

  /** The index is an `unsigned int`. */
  datatype LightColor = LightColor(index: nat, color: Color)

  datatype Packet = Packet(tag: seq<Byte>, lights: seq<LightColor>)

  const EMPTY := Packet([], [])

  /** Conversion of a (signed) `char` to `unsigned int`. */
  function CharToUnsigned(b: Byte): nat {
    U32(if b < 128 then b else b - 256)
  }

  // ----- What a packet means

  predicate HeaderOk(p: seq<Byte>) {
    |p| >= 3 && p[0] == 1 && p[1] == 0
  }

  /** Position of the first zero byte at or after `i`, or the length. */
  function FirstZero(p: seq<Byte>, i: nat): nat
    requires i <= |p|
    decreases |p| - i
  {
    if i == |p| || p[i] == 0 then i else FirstZero(p, i + 1)
  }

  /** The tag runs to the first zero byte; without one there is no tag and the records start at 3. */
  function TagOf(p: seq<Byte>): seq<Byte>
    requires HeaderOk(p)
  {
    var e := FirstZero(p, 2);
    if e < |p| then (FirstZeroBound(p, 2); p[2..e]) else []
  }

  function RecordsStart(p: seq<Byte>): nat
    requires HeaderOk(p)
  {
    var e := FirstZero(p, 2);
    if e < |p| then e + 1 else 3
  }

  /** The light a six-byte record sets, if it is of type 1. */
  function RecordAt(p: seq<Byte>, i: nat): seq<LightColor>
    requires i + 6 <= |p|
  {
    if p[i] == 1 then [LightColor(CharToUnsigned(p[i + 1]), Color(p[i + 3], p[i + 4], p[i + 5]))] else []
  }

  /** The lights of all complete records from `i` on, in order. */
  function Records(p: seq<Byte>, i: nat): seq<LightColor>
    decreases |p| - i
  {
    if i + 6 <= |p| then RecordAt(p, i) + Records(p, i + 6) else []
  }

  function Parse(p: seq<Byte>): Packet {
    if HeaderOk(p) then Packet(TagOf(p), Records(p, RecordsStart(p))) else EMPTY
  }

  /** Packets that are too short, of another version or without a tag record say nothing. */
  lemma RejectsOthers(p: seq<Byte>)
    ensures |p| < 3 || p[0] != 1 || p[1] != 0 ==> Parse(p).tag == [] && Parse(p).lights == []
  {
  }

  /** In all others the tag is what stands before the first zero byte after the header, and records
      follow it; if there is no zero byte, there is no tag and records start at the fourth byte. */
  lemma TagAndRecords(p: seq<Byte>)
    requires |p| >= 3 && p[0] == 1 && p[1] == 0
    ensures forall e :: 2 <= e < |p| && p[e] == 0 && 0 !in p[2..e] ==>
      Parse(p).tag == p[2..e] && Parse(p).lights == Records(p, e + 1)
    ensures 0 !in p[2..] ==> Parse(p).tag == [] && Parse(p).lights == Records(p, 3)
  {
    hide Records;
    forall e | 2 <= e < |p| && p[e] == 0 && 0 !in p[2..e]
      ensures FirstZero(p, 2) == e
    {
      assert forall k :: 2 <= k < e ==> p[k] == p[2..e][k - 2];
      FirstZeroIs(p, 2, e);
    }
    FirstZeroBound(p, 2);
    if 0 !in p[2..] {
      assert forall k :: 2 <= k < |p| ==> p[k] == p[2..][k - 2];
    }
  }

  lemma {:induction false} FirstZeroBound(p: seq<Byte>, i: nat)
    requires i <= |p|
    ensures i <= FirstZero(p, i) <= |p|
    ensures forall k :: i <= k < FirstZero(p, i) ==> p[k] != 0
    ensures FirstZero(p, i) < |p| ==> p[FirstZero(p, i)] == 0
    decreases |p| - i
  {
    if i < |p| && p[i] != 0 { FirstZeroBound(p, i + 1); }
  }

  lemma FirstZeroIs(p: seq<Byte>, i: nat, e: nat)
    requires i <= e < |p| && p[e] == 0 && forall k :: i <= k < e ==> p[k] != 0
    ensures FirstZero(p, i) == e
  {
    FirstZeroBound(p, i);
  }

  /** At `o` there is a record, counted in sixes from `i`, that is complete and of type 1. */
  predicate LightRecord(p: seq<Byte>, i: nat, o: nat) {
    i <= o && (o - i) % 6 == 0 && o + 6 <= |p| && p[o] == 1
  }

  ghost predicate Ascending(at: seq<nat>) {
    forall a, b :: 0 <= a < b < |at| ==> at[a] < at[b]
  }

  /** `at` are the places of the light records from `i` on, and `lights` what they set, in order. */
  ghost predicate FoundAt(p: seq<Byte>, i: nat, at: seq<nat>, lights: seq<LightColor>) {
    && Ascending(at) && (forall o: nat :: o in at <==> LightRecord(p, i, o))
    && |lights| == |at| && forall j :: 0 <= j < |at| ==> Sets(p, at[j], lights[j])
  }

  predicate Sets(p: seq<Byte>, o: nat, l: LightColor) {
    o + 6 <= |p| && RecordAt(p, o) == [l]
  }

  /** The lights found are those of the complete records of type 1, one for each and in their order. */
  lemma {:induction false} RecordsExactly(p: seq<Byte>, i: nat) returns (at: seq<nat>)
    ensures FoundAt(p, i, at, Records(p, i))
    decreases |p| - i
  {
    hide RecordAt, FoundAt;
    if i + 6 > |p| {
      at := [];
      NoRecord(p, i);
    } else {
      var later := RecordsExactly(p, i + 6);
      if p[i] == 1 {
        at := [i] + later;
        OneFound(p, i, later, Records(p, i + 6));
      } else {
        at := later;
        NoneFound(p, i, later, Records(p, i + 6));
      }
    }
  }

  lemma NoRecord(p: seq<Byte>, i: nat)
    requires i + 6 > |p|
    ensures FoundAt(p, i, [], [])
  {
  }

  lemma RecordFrom(p: seq<Byte>, i: nat, o: nat)
    requires i + 6 <= |p|
    ensures LightRecord(p, i, o) <==> (o == i && p[i] == 1) || LightRecord(p, i + 6, o)
  {
  }

  lemma NoneFound(p: seq<Byte>, i: nat, later: seq<nat>, lights: seq<LightColor>)
    requires i + 6 <= |p| && p[i] != 1 && FoundAt(p, i + 6, later, lights)
    ensures FoundAt(p, i, later, RecordAt(p, i) + lights)
  {
    hide Sets, LightRecord;
    forall o: nat
      ensures LightRecord(p, i, o) <==> LightRecord(p, i + 6, o)
    {
      RecordFrom(p, i, o);
    }
    assert RecordAt(p, i) + lights == lights;
  }

  lemma OneFound(p: seq<Byte>, i: nat, later: seq<nat>, lights: seq<LightColor>)
    requires i + 6 <= |p| && p[i] == 1 && FoundAt(p, i + 6, later, lights)
    ensures FoundAt(p, i, [i] + later, RecordAt(p, i) + lights)
  {
    hide Sets, LightRecord, CharToUnsigned;
    var at, all := [i] + later, RecordAt(p, i) + lights;
    forall o: nat
      ensures o in at <==> LightRecord(p, i, o)
    {
      RecordFrom(p, i, o);
    }
    assert Sets(p, i, all[0]) by { FirstSets(p, i); }
    forall j | 0 <= j < |later|
      ensures i < later[j]
    {
      assert later[j] in later;
      RecordLater(p, i, later[j]);
    }
    assert |RecordAt(p, i)| == 1 && |all| == |at|;
    assert forall j :: 1 <= j < |at| ==> at[j] == later[j - 1] && all[j] == lights[j - 1];
  }

  lemma FirstSets(p: seq<Byte>, i: nat)
    requires i + 6 <= |p| && p[i] == 1
    ensures |RecordAt(p, i)| == 1 && Sets(p, i, RecordAt(p, i)[0])
  {
  }

  lemma RecordLater(p: seq<Byte>, i: nat, o: nat)
    requires LightRecord(p, i + 6, o)
    ensures i < o
  {
  }

  /** Light numbers that a packet can name: the index is a signed byte made unsigned. */
  predicate Nameable(i: nat) {
    i < 128 || 0x1_0000_0000 - 128 <= i < 0x1_0000_0000
  }

  /** The byte that names a light. */
  function NamingByte(i: nat): (b: Byte)
    requires Nameable(i)
    ensures CharToUnsigned(b) == i
  {
    if i < 128 then i else i - 0x1_0000_0000 + 256
  }

  /** No packet names any other light. */
  lemma {:induction false} RecordsAreNameable(p: seq<Byte>, i: nat)
    ensures forall l :: l in Records(p, i) ==> Nameable(l.index)
    decreases |p| - i
  {
    if i + 6 <= |p| { RecordsAreNameable(p, i + 6); }
  }

  // ----- The parser

  /** `parseLightPacket`: every byte sequence is read within its bounds. */
  method ParseLightPacket(packet: seq<Byte>) returns (ret: Packet)
    ensures ret == Parse(packet)
  {
    ret := EMPTY;
    if |packet| < 3 { return; }
    if packet[0] != 1 { return; }
    if packet[1] != 0 { return; }
    var tag, baseOffset := ReadTag(packet);
    var lights := ReadRecords(packet, baseOffset);
    ret := Packet(tag, lights);
  }

  /** The search for the end of the tag. */
  method ReadTag(packet: seq<Byte>) returns (tag: seq<Byte>, baseOffset: nat)
    requires HeaderOk(packet)
    ensures tag == TagOf(packet) && baseOffset == RecordsStart(packet) <= |packet|
  {
    tag, baseOffset := [], 3;
    var i := 2;
    FirstZeroBound(packet, 2);
    while i < |packet|
      invariant 2 <= i <= |packet| && baseOffset == 3 && tag == []
      invariant FirstZero(packet, i) == FirstZero(packet, 2)
    {
      if packet[i] == 0 {
        tag := packet[2..i];
        baseOffset := i + 1;
        break;
      }
      i := i + 1;
    }
  }

  lemma RecordsStep(p: seq<Byte>, i: nat)
    ensures i + 6 <= |p| ==> Records(p, i) == RecordAt(p, i) + Records(p, i + 6)
    ensures i + 6 > |p| ==> Records(p, i) == []
  {
    hide RecordAt;
  }

  lemma Regroup(a: seq<LightColor>, b: seq<LightColor>, c: seq<LightColor>)
    ensures a + (b + c) == a + b + c
  {
  }

  lemma CountFits(n: nat, i: nat)
    ensures i < n / 6 ==> i * 6 + 6 <= n
    ensures i == n / 6 ==> i * 6 <= n < i * 6 + 6
    ensures (i + 1) * 6 == i * 6 + 6
  {
  }

  /** The loop over the records that fit. */
  method ReadRecords(packet: seq<Byte>, baseOffset: nat) returns (lights: seq<LightColor>)
    requires baseOffset <= |packet|
    ensures lights == Records(packet, baseOffset)
  {
    hide CharToUnsigned, Records;
    var maxCount := (|packet| - baseOffset) / 6;
    lights := [];
    var i := 0;
    while i < maxCount
      invariant 0 <= i <= maxCount
      invariant lights + Records(packet, baseOffset + i * 6) == Records(packet, baseOffset)
    {
      CountFits(|packet| - baseOffset, i);
      var offset := baseOffset + i * 6;
      RecordsStep(packet, offset);
      Regroup(lights, RecordAt(packet, offset), Records(packet, offset + 6));
      if packet[offset + 0] == 1 {
        var index := CharToUnsigned(packet[offset + 1]);
        lights := lights + [LightColor(index, Color(packet[offset + 3], packet[offset + 4], packet[offset + 5]))];
      } else {
        assert lights + [] == lights;
      }
      i := i + 1;
    }
    CountFits(|packet| - baseOffset, i);
    RecordsStep(packet, baseOffset + i * 6);
    assert lights + [] == lights;
  }

  // ----- The encoder

  /** The six bytes of `Instanssi.set`. */
  function EncodeLight(l: LightColor): seq<int> {
    [1, l.index, 0, l.color.red, l.color.green, l.color.blue]
  }

  function EncodeLights(lights: seq<LightColor>): seq<int> {
    if lights == [] then [] else EncodeLight(lights[0]) + EncodeLights(lights[1..])
  }

  function Encode(nick: seq<int>, lights: seq<LightColor>): seq<int> {
    [1, 0] + nick + [0] + EncodeLights(lights)
  }

  /** The layout of a packet: version, tag marker, nick, zero, and six bytes for each light. */
  lemma EncodeLayout(nick: seq<int>, lights: seq<LightColor>, k: nat)
    requires k < |lights|
    ensures var s, o, c := Encode(nick, lights), 3 + |nick| + 6 * k, lights[k].color;
      && |s| == 3 + |nick| + 6 * |lights| && s[..2] == [1, 0] && s[2..2 + |nick|] == nick && s[2 + |nick|] == 0
      && s[o..o + 6] == [1, lights[k].index, 0, c.red, c.green, c.blue]
  {
    hide EncodeLights;
    EncodeLightsLayout(lights, k);
    Within([1, 0] + nick + [0], EncodeLights(lights), 6 * k, 6 * k + 6);
  }

  lemma Within(p: seq<int>, t: seq<int>, a: nat, b: nat)
    requires a <= b <= |t|
    ensures (p + t)[|p| + a..|p| + b] == t[a..b]
  {
  }

  lemma {:induction false} EncodeLightsLayout(lights: seq<LightColor>, k: nat)
    requires k < |lights|
    ensures |EncodeLights(lights)| == 6 * |lights|
    ensures EncodeLights(lights)[6 * k..6 * k + 6] ==
      [1, lights[k].index, 0, lights[k].color.red, lights[k].color.green, lights[k].color.blue]
  {
    var t := EncodeLights(lights);
    EncodeLightsSize(lights);
    EncodeLightsSize(lights[1..]);
    if k > 0 {
      EncodeLightsLayout(lights[1..], k - 1);
      assert t[6 * k..6 * k + 6] == t[6..][6 * (k - 1)..6 * (k - 1) + 6];
    }
  }

  lemma {:induction false} EncodeLightsSize(lights: seq<LightColor>)
    ensures |EncodeLights(lights)| == 6 * |lights|
  {
    if lights != [] { EncodeLightsSize(lights[1..]); }
  }

  predicate AreBytes(s: seq<int>) {
    forall i :: 0 <= i < |s| ==> 0 <= s[i] < 256
  }

  function Bytes(s: seq<int>): (b: seq<Byte>)
    requires AreBytes(s)
    ensures |b| == |s| && forall i :: 0 <= i < |s| ==> b[i] == s[i]
  {
    if s == [] then [] else [s[0] as Byte] + Bytes(s[1..])
  }

  lemma {:induction false} EncodeLightsSnoc(lights: seq<LightColor>, l: LightColor)
    ensures EncodeLights(lights + [l]) == EncodeLights(lights) + EncodeLight(l)
  {
    if lights == [] {
      assert lights + [l] == [l];
      assert EncodeLights([l]) == EncodeLight(l) + EncodeLights([l][1..]);
    } else {
      assert (lights + [l])[1..] == lights[1..] + [l];
      EncodeLightsSnoc(lights[1..], l);
    }
  }

  /** `Instanssi`: builds a packet in place and hands it over for sending. */
  class Instanssi {
    var nick: seq<int>
    var packet: seq<int>
    ghost var lights: seq<LightColor>

    ghost predicate Valid()
      reads this
    {
      packet == Encode(nick, lights)
    }

    constructor (nick: seq<int>)
      ensures Valid() && this.nick == nick && lights == []
    {
      this.nick := nick;
      packet := [];
      lights := [];
      new;
      Reset();
    }

    method Reset()
      modifies this
      ensures Valid() && nick == old(nick) && lights == []
    {
      packet := [1];
      packet := packet + [0];
      var i := 0;
      while i < |nick|
        invariant 0 <= i <= |nick| && nick == old(nick)
        invariant packet == [1, 0] + nick[..i]
      {
        packet := packet + [nick[i]];
        i := i + 1;
      }
      packet := packet + [0];
      lights := [];
      assert nick[..|nick|] == nick;
    }

    method Set(i: nat, r: Byte, g: Byte, b: Byte)
      requires Valid()
      modifies this
      ensures Valid() && nick == old(nick) && lights == old(lights) + [LightColor(i, Color(r, g, b))]
    {
      packet := packet + [1, i, 0, r, g, b];
      EncodeLightsSnoc(lights, LightColor(i, Color(r, g, b)));
      lights := lights + [LightColor(i, Color(r, g, b))];
    }

    /** `bytearray` raises for a value that is not a byte, and then nothing is sent or reset. */
    method Send() returns (sent: bool, bytes: seq<Byte>)
      requires Valid()
      modifies this
      ensures sent == AreBytes(old(packet)) && nick == old(nick) && Valid()
      ensures sent ==> bytes == Bytes(old(Encode(nick, lights))) && lights == []
      ensures !sent ==> lights == old(lights) && packet == old(packet)
    {
      sent := AreBytes(packet);
      bytes := [];
      if sent {
        bytes := Bytes(packet);
        Reset();
      }
    }
  }

  // ----- Round trip

  predicate ZeroFree(nick: seq<int>) {
    0 !in nick
  }

  predicate SmallIndices(lights: seq<LightColor>) {
    forall l :: l in lights ==> l.index < 128
  }

  lemma {:induction false} EncodeLightsLength(lights: seq<LightColor>)
    ensures |EncodeLights(lights)| == 6 * |lights|
  {
    if lights != [] { EncodeLightsLength(lights[1..]); }
  }

  /** The lights as they arrive: an index of 128 or more comes back sign-extended. */
  function Received(lights: seq<LightColor>): seq<LightColor>
    requires forall l :: l in lights ==> l.index < 256
  {
    if lights == [] then []
    else [LightColor(CharToUnsigned(lights[0].index as Byte), lights[0].color)] + Received(lights[1..])
  }

  lemma {:induction false} RecordsOfEncoded(p: seq<Byte>, i: nat, lights: seq<LightColor>)
    requires forall l :: l in lights ==> l.index < 256
    requires i <= |p| && p[i..] == EncodeLights(lights)
    ensures Records(p, i) == Received(lights)
    decreases |lights|
  {
    EncodeLightsLength(lights);
    if lights != [] {
      var l, e := lights[0], p[i..];
      assert l in lights;
      assert e == EncodeLight(l) + EncodeLights(lights[1..]);
      assert forall k :: 0 <= k < 6 ==> p[i + k] == e[k] == EncodeLight(l)[k];
      assert p[i + 6..] == e[6..] == EncodeLights(lights[1..]);
      RecordsOfEncoded(p, i + 6, lights[1..]);
      assert p[i] == 1 && p[i + 1] == l.index && p[i + 3] == l.color.red && p[i + 4] == l.color.green
        && p[i + 5] == l.color.blue;
    }
  }

  lemma {:induction false} ReceivedIffSmall(lights: seq<LightColor>)
    requires forall l :: l in lights ==> l.index < 256
    ensures Received(lights) == lights <==> SmallIndices(lights)
  {
    if lights != [] {
      assert lights[0] in lights;
      ReceivedIffSmall(lights[1..]);
      assert Received(lights)[1..] == Received(lights[1..]);
      assert lights == [lights[0]] + lights[1..];
      assert SmallIndices(lights) <==> lights[0].index < 128 && SmallIndices(lights[1..]);
    }
  }

  lemma {:induction false} EncodedIndices(lights: seq<LightColor>)
    requires AreBytes(EncodeLights(lights))
    ensures forall l :: l in lights ==> l.index < 256
  {
    if lights != [] {
      var e := EncodeLights(lights);
      assert e[1] == lights[0].index;
      assert EncodeLights(lights[1..]) == e[6..];
      EncodedIndices(lights[1..]);
    }
  }

  /** Where the parts of an encoded packet are. */
  lemma EncodedShape(nick: seq<int>, lights: seq<LightColor>)
    requires AreBytes(Encode(nick, lights))
    ensures var p, n := Bytes(Encode(nick, lights)), 2 + |nick|;
      && HeaderOk(p) && n < |p| && p[2..n] == nick && p[n] == 0 && p[n + 1..] == EncodeLights(lights)
  {
    hide EncodeLights;
    var e := Encode(nick, lights);
    var p, n := Bytes(e), 2 + |nick|;
    assert e[2..n] == nick && e[n + 1..] == EncodeLights(lights);
    assert p[2..n] == e[2..n] && p[n + 1..] == e[n + 1..];
  }

  /** A packet encoded from bytes parses to the same nick and lights exactly when the nick has no
      zero byte and every index is below 128. */
  lemma ParseEncodeIff(nick: seq<int>, lights: seq<LightColor>)
    requires AreBytes(Encode(nick, lights))
    ensures var p := Parse(Bytes(Encode(nick, lights)));
      p.tag == nick && p.lights == lights <==> ZeroFree(nick) && SmallIndices(lights)
  {
    hide Records, Received, EncodeLights, FirstZero, Bytes, Encode;
    var p, n := Bytes(Encode(nick, lights)), 2 + |nick|;
    EncodedShape(nick, lights);
    assert AreBytes(p[n + 1..]);
    EncodedIndices(lights);
    ReceivedIffSmall(lights);
    FirstZeroBound(p, 2);
    assert forall k :: 2 <= k < n ==> p[k] == p[2..n][k - 2];
    if ZeroFree(nick) {
      FirstZeroIs(p, 2, n);
      RecordsOfEncoded(p, n + 1, lights);
    } else {
      var j :| 0 <= j < |nick| && nick[j] == 0;
      assert p[2 + j] == p[2..n][j];
      assert |Parse(p).tag| < |nick|;
    }
  }
}
