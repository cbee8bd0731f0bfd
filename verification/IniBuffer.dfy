/** The parsing loop of INIReader.h on its line buffer: pointers are positions, and strings end at
    a NUL the code itself may write. */
module IniBuffer {
  import opened Ini

  const NUL := '\0'

  /** The string at position `p` of the buffer is `t`. */
  predicate Holds(b: seq<char>, p: nat, t: string) {
    p + |t| < |b| && b[p..p + |t|] == t && b[p + |t|] == NUL && NUL !in t
  }

  lemma HoldsAt(b: seq<char>, p: nat, t: string, i: nat)
    requires Holds(b, p, t) && i <= |t|
    ensures p + i < |b| && (b[p + i] == NUL <==> i == |t|) && (i < |t| ==> b[p + i] == t[i])
  {
    if i < |t| { assert b[p..p + |t|][i] == t[i]; assert t[i] in t; }
  }

  /** A string further on in a string. */
  lemma HoldsFrom(b: seq<char>, p: nat, t: string, i: nat)
    requires Holds(b, p, t) && i <= |t|
    ensures Holds(b, p + i, t[i..])
  {
    assert b[p + i..p + |t|] == b[p..p + |t|][i..];
  }

  /** Writing NUL at a position cuts the string there; strings beyond it stay. */
  lemma HoldsCut(b: seq<char>, p: nat, t: string, i: nat)
    requires Holds(b, p, t) && i <= |t|
    ensures Holds(b[p + i := NUL], p, t[..i])
    ensures i < |t| ==> Holds(b[p + i := NUL], p + i + 1, t[i + 1..])
  {
    var c := b[p + i := NUL];
    assert c[p..p + i] == b[p..p + |t|][..i];
    if i < |t| {
      assert c[p + i + 1..p + |t|] == b[p..p + |t|][i + 1..];
    }
  }

  /** A string is kept by changes beyond its NUL or before it. */
  lemma HoldsElsewhere(b: seq<char>, c: seq<char>, p: nat, t: string)
    requires Holds(b, p, t) && |c| == |b| && forall k :: p <= k <= p + |t| ==> c[k] == b[k]
    ensures Holds(c, p, t)
  {
    assert c[p..p + |t|] == b[p..p + |t|];
  }

  method Rstrip(line: array<char>, s: nat, ghost t: string)
    requires Holds(line[..], s, t)
    modifies line
    ensures Holds(line[..], s, TrimRight(t))
    ensures forall k :: 0 <= k < line.Length && !(s <= k < s + |t|) ==> line[k] == old(line[k])
  {
    hide TrimRight;
    var p := Strlen(line, s, t);
    ghost var n := |t|;
    p := s + p;
    assert t[..n] == t;
    while p > s
      invariant s <= p == s + n <= s + |t| && Holds(line[..], s, t[..n]) && TrimRight(t[..n]) == TrimRight(t)
      invariant forall k :: 0 <= k < line.Length && !(s <= k < s + |t|) ==> line[k] == old(line[k])
    {
      p := p - 1;
      HoldsAt(line[..], s, t[..n], n - 1);
      TrimRightStep(t[..n]);
      if !IsSpace(line[p]) { break; }
      HoldsCut(line[..], s, t[..n], n - 1);
      assert t[..n][..n - 1] == t[..n - 1];
      line[p] := NUL;
      n := n - 1;
    }
    TrimRightStep(t[..n]);
  }

  method Strlen(line: array<char>, s: nat, ghost t: string) returns (n: nat)
    requires Holds(line[..], s, t)
    ensures n == |t|
  {
    n := 0;
    HoldsAt(line[..], s, t, 0);
    while line[s + n] != NUL
      invariant n <= |t| && s + n < line.Length && (line[s + n] == NUL <==> n == |t|)
      decreases |t| - n
    {
      HoldsAt(line[..], s, t, n + 1);
      n := n + 1;
    }
  }

  method Lskip(line: array<char>, s: nat, ghost t: string) returns (p: nat)
    requires Holds(line[..], s, t)
    ensures p == s + |t| - |TrimLeft(t)| && Holds(line[..], p, TrimLeft(t))
  {
    hide TrimLeft, Holds;
    p := s;
    ghost var u := t;
    HoldsAt(line[..], p, u, 0);
    TrimLeftStep(u);
    while line[p] != NUL && IsSpace(line[p])
      invariant Holds(line[..], p, u) && p == s + |t| - |u| && TrimLeft(u) == TrimLeft(t)
      invariant p < line.Length && (line[p] == NUL <==> u == []) && (u != [] ==> line[p] == u[0])
      decreases |u|
    {
      TrimLeftStep(u);
      HoldsFrom(line[..], p, u, 1);
      p := p + 1;
      u := u[1..];
      HoldsAt(line[..], p, u, 0);
    }
    TrimLeftStep(u);
  }

  lemma TrimLeftStep(u: string)
    ensures TrimLeft(u) == if u != [] && IsSpace(u[0]) then TrimLeft(u[1..]) else u
  {
  }

  lemma TrimRightStep(u: string)
    ensures TrimRight(u) == if u != [] && IsSpace(u[|u| - 1]) then TrimRight(u[..|u| - 1]) else u
  {
  }

  lemma FindStopStep(u: string, chars: string, wasSpace: bool)
    ensures FindStop(u, chars, wasSpace) ==
      if u == [] || u[0] in chars || (wasSpace && u[0] == ';') then 0
      else 1 + FindStop(u[1..], chars, IsSpace(u[0]))
  {
  }

  method FindCharsOrComment(line: array<char>, s: nat, ghost t: string, chars: string) returns (p: nat)
    requires Holds(line[..], s, t)
    ensures p == s + FindStop(t, chars, false)
  {
    hide FindStop, Holds;
    p := s;
    var wasSpace := false;
    ghost var u := t;
    HoldsAt(line[..], p, u, 0);
    while line[p] != NUL && line[p] !in chars && !(wasSpace && line[p] == ';')
      invariant Holds(line[..], p, u) && p == s + |t| - |u|
      invariant p < line.Length && (line[p] == NUL <==> u == []) && (u != [] ==> line[p] == u[0])
      invariant p - s + FindStop(u, chars, wasSpace) == FindStop(t, chars, false)
      decreases |u|
    {
      FindStopStep(u, chars, wasSpace);
      HoldsFrom(line[..], p, u, 1);
      wasSpace := IsSpace(line[p]);
      p := p + 1;
      u := u[1..];
      HoldsAt(line[..], p, u, 0);
    }
    FindStopStep(u, chars, wasSpace);
  }

  /** The string at a position, as the handler and `strncpy` read it. */
  method ReadString(line: array<char>, s: nat, ghost t: string) returns (r: string)
    requires Holds(line[..], s, t)
    ensures r == t
  {
    var n := Strlen(line, s, t);
    r := line[s..s + n];
  }

  /** Skips a byte order mark and the white space around a line. */
  method FindContent(line: array<char>, ghost t: string, lineno: nat) returns (start: nat)
    requires Holds(line[..], 0, t) && line.Length == MAX_LINE
    modifies line
    ensures Holds(line[..], start, Content(t, lineno == 1))
    ensures start > 0 <==> Indented(t, lineno == 1)
  {
    hide TrimRight, TrimLeft;
    start := 0;
    BomAt(line[..], t);
    ghost var u := AfterBom(t, lineno == 1);
    if lineno == 1 && line[0] == '\U{EF}' && line[1] == '\U{BB}' && line[2] == '\U{BF}' {
      HoldsFrom(line[..], 0, t, 3);
      start := 3;
    }
    Rstrip(line, start, u);
    start := Lskip(line, start, TrimRight(u));
  }

  /** Cuts a value at its inline comment and strips it. */
  method ValueAt(line: array<char>, s: nat, ghost t: string) returns (v: string)
    requires Holds(line[..], s, t)
    modifies line
    ensures v == ValueOf(t)
    ensures forall k :: 0 <= k < s ==> line[k] == old(line[k])
  {
    var end := FindCharsOrComment(line, s, t, "");
    ghost var n := FindStop(t, "", false);
    HoldsAt(line[..], s, t, n);
    HoldsCut(line[..], s, t, n);
    if line[end] != NUL {
      line[end] := NUL;
    }
    assert Holds(line[..], s, t[..n]) by { assert n == |t| ==> t[..n] == t; }
    Rstrip(line, s, t[..n]);
    v := ReadString(line, s, ValueOf(t));
  }

  /** `fgets` into the line buffer. */
  method Fgets(line: array<char>, stream: string, pos: nat) returns (n: nat)
    requires line.Length == MAX_LINE && pos < |stream|
    modifies line
    ensures n == ChunkLength(stream[pos..]) && Holds(line[..], 0, UpToNul(stream[pos..][..n]))
  {
    ghost var rest := stream[pos..];
    n := 0;
    while n < MAX_LINE - 1 && pos + n < |stream| && (n == 0 || stream[pos + n - 1] != '\n')
      invariant n <= MAX_LINE - 1 && pos + n <= |stream|
      invariant forall k :: 0 <= k < n ==> line[k] == rest[k]
      invariant forall k :: 0 <= k < n - 1 ==> rest[k] != '\n'
    {
      line[n] := stream[pos + n];
      n := n + 1;
    }
    line[n] := NUL;
    LineLengthIs(rest, n);
    ghost var t := UpToNul(rest[..n]);
    assert forall k :: 0 <= k < |t| ==> t[k] == rest[..n][k];
    assert line[..][0..|t|] == t;
  }

  /** The line ends at its first newline. */
  lemma {:induction false} LineLengthIs(s: string, n: nat)
    requires 0 < n <= |s| && forall k :: 0 <= k < n - 1 ==> s[k] != '\n'
    ensures n == |s| || s[n - 1] == '\n' ==> LineLength(s) == n
    ensures LineLength(s) >= n
    decreases n
  {
    if n > 1 { LineLengthIs(s[1..], n - 1); }
  }

  class INIReader {
    var error: int
    var values: Values
    var sections: set<string>

    /** `ValueHandler`. */
    method ValueHandler(section: string, name: string, value: string)
      modifies this`values, this`sections
      ensures values == Handle(old(values), section, name, value) && sections == old(sections) + {section}
    {
      var key := MakeKey(section, name);
      if key !in values { values := values[key := ""]; }
      if |values[key]| > 0 { values := values[key := values[key] + "\n"]; }
      values := values[key := values[key] + value];
      sections := sections + {section};
    }

    /** The parser's state, given its local variables. */
    ghost function View(section: string, prevName: string, error: nat): State
      reads this
    {
      State(section, prevName, error, values, sections)
    }

    /** A line that starts with a bracket. */
    method SectionLine(line: array<char>, start: nat, ghost s: string, section0: string, prevName0: string,
        error0: nat, lineno: nat)
      returns (section: string, prevName: string, error: nat)
      requires Holds(line[..], start, s) && s != [] && s[0] == '['
      modifies line
      ensures var n := FindStop(s[1..], "]", false);
        (section, prevName, error) ==
        if n < |s[1..]| && s[1..][n] == ']' then (Fit(s[1..][..n], MAX_SECTION), "", error0)
        else (section0, prevName0, if error0 == 0 then lineno else error0)
    {
      section, prevName, error := section0, prevName0, error0;
      HoldsFrom(line[..], start, s, 1);
      var end := FindCharsOrComment(line, start + 1, s[1..], "]");
      ghost var n := FindStop(s[1..], "]", false);
      HoldsAt(line[..], start + 1, s[1..], n);
      HoldsCut(line[..], start + 1, s[1..], n);
      if line[end] == ']' {
        line[end] := NUL;
        var name := ReadString(line, start + 1, s[1..][..n]);
        section := if |name| < MAX_SECTION then name else name[..MAX_SECTION - 1];
        prevName := "";
      } else if error == 0 {
        error := lineno;
      }
    }

    /** A line that must hold a name and a value. */
    method PairLine(line: array<char>, start: nat, ghost s: string, section: string, prevName0: string, error0: nat,
        lineno: nat)
      returns (prevName: string, error: nat)
      requires Holds(line[..], start, s)
      modifies line, this`values, this`sections
      ensures var n := FindStop(s, "=:", false);
        var before := State(section, prevName0, error0, old(values), old(sections));
        View(section, prevName, error) ==
        if n < |s| && (s[n] == '=' || s[n] == ':') then
          Accept(before.(prevName := Fit(TrimRight(s[..n]), MAX_NAME)), TrimRight(s[..n]),
            ValueOf(TrimLeft(s[n + 1..])))
        else before.(error := if error0 == 0 then lineno else error0)
    {
      hide Holds, FindStop, TrimRight, TrimLeft, ValueOf, Handle;
      prevName, error := prevName0, error0;
      var end := FindCharsOrComment(line, start, s, "=:");
      ghost var n := FindStop(s, "=:", false);
      HoldsAt(line[..], start, s, n);
      if line[end] == '=' || line[end] == ':' {
        var name, value := NameAndValue(line, start, end, s);
        prevName := if |name| < MAX_NAME then name else name[..MAX_NAME - 1];
        ValueHandler(section, name, value);
      } else if error == 0 {
        error := lineno;
      }
    }

    /** Cuts a line at its separator, and strips the name and the value. */
    method NameAndValue(line: array<char>, start: nat, end: nat, ghost s: string) returns (name: string, value: string)
      requires Holds(line[..], start, s) && start <= end < start + |s|
      modifies line
      ensures name == TrimRight(s[..end - start]) && value == ValueOf(TrimLeft(s[end - start + 1..]))
    {
      hide FindStop, TrimRight, TrimLeft, ValueOf;
      ghost var n := end - start;
      HoldsCut(line[..], start, s, n);
      line[end] := NUL;
      ghost var tail := s[n + 1..];
      ghost var cut := line[..];
      Rstrip(line, start, s[..n]);
      HoldsElsewhere(cut, line[..], end + 1, tail);
      name := ReadString(line, start, TrimRight(s[..n]));
      var v := Lskip(line, end + 1, tail);
      value := ValueAt(line, v, TrimLeft(tail));
    }

    /** The body of the loop of `ini_parse_stream`. */
    method ParseLine(line: array<char>, ghost t: string, section0: string, prevName0: string, error0: nat, lineno: nat)
      returns (section: string, prevName: string, error: nat)
      requires Holds(line[..], 0, t) && line.Length == MAX_LINE
      modifies line, this`values, this`sections
      ensures View(section, prevName, error) == Step(State(section0, prevName0, error0, old(values), old(sections)),
        t, lineno)
    {
      hide Holds, ClassifyContent, Content, Indented, Apply;
      var start := FindContent(line, t, lineno);
      section, prevName, error := ParseContent(line, start, Content(t, lineno == 1), section0, prevName0, error0,
        lineno);
    }

    /** The cases of the loop body, once the content of the line has been found. */
    method ParseContent(line: array<char>, start: nat, ghost s: string, section0: string, prevName0: string,
        error0: nat, lineno: nat)
      returns (section: string, prevName: string, error: nat)
      requires Holds(line[..], start, s)
      modifies line, this`values, this`sections
      ensures View(section, prevName, error) ==
        Apply(State(section0, prevName0, error0, old(values), old(sections)),
          ClassifyContent(s, prevName0 != "" && start > 0), lineno)
    {
      hide Holds, FindStop, TrimRight, TrimLeft, ValueOf, Handle;
      section, prevName, error := section0, prevName0, error0;
      HoldsAt(line[..], start, s, 0);
      if line[start] == ';' || line[start] == '#' {
      } else if prevName != "" && line[start] != NUL && start > 0 {
        var value := ValueAt(line, start, s);
        ValueHandler(section, prevName, value);
      } else if line[start] == '[' {
        section, prevName, error := SectionLine(line, start, s, section, prevName, error, lineno);
      } else if line[start] != NUL {
        prevName, error := PairLine(line, start, s, section, prevName, error, lineno);
      }
    }

    /** `ini_parse_stream` over the lines of a file. */
    method ParseStream(stream: string) returns (err: nat)
      requires values == map[] && sections == {}
      modifies this`values, this`sections
      ensures var s := ParseAll(Lines(stream)); err == s.error && values == s.values && sections == s.sections
    {
      hide Step, Lines, Holds, ChunkLength, UpToNul;
      var line := new char[MAX_LINE](_ => NUL);
      var section, prevName := "", "";
      var lineno := 0;
      err := 0;
      var pos := 0;
      ghost var seen := [];
      assert stream[0..] == stream;
      while pos < |stream|
        invariant pos <= |stream| && |seen| == lineno
        invariant seen + Lines(stream[pos..]) == Lines(stream)
        invariant View(section, prevName, err) == ParseAll(seen)
      {
        ghost var rest := stream[pos..];
        var n := Fgets(line, stream, pos);
        ghost var t := UpToNul(rest[..n]);
        LinesStep(rest);
        lineno := lineno + 1;
        section, prevName, err := ParseLine(line, t, section, prevName, err, lineno);
        ParseAllSnoc(seen, t);
        assert rest[n..] == stream[pos + n..];
        seen := seen + [t];
        pos := pos + n;
      }
      NoLines();
      assert stream[pos..] == [];
      assert seen + [] == seen;
    }

    constructor (stream: string)
      ensures var s := ParseAll(Lines(stream)); error == s.error && values == s.values && sections == s.sections
    {
      error := 0;
      values := map[];
      sections := {};
      new;
      error := ParseStream(stream);
    }
  }

  lemma BomAt(b: seq<char>, t: string)
    requires Holds(b, 0, t) && |b| == MAX_LINE
    ensures HasBom(t) <==> b[0] == '\U{EF}' && b[1] == '\U{BB}' && b[2] == '\U{BF}'
  {
    HoldsAt(b, 0, t, 0);
    if |t| >= 1 { HoldsAt(b, 0, t, 1); }
    if |t| >= 2 { HoldsAt(b, 0, t, 2); }
  }

  lemma ParseAllSnoc(lines: seq<string>, t: string)
    ensures ParseAll(lines + [t]) == Step(ParseAll(lines), t, |lines| + 1)
  {
    hide Step;
    assert (lines + [t])[..|lines|] == lines;
  }
}
