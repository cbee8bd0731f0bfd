/** INI files as inih reads them (INIReader.h): what each line means, and what a whole file means.
    A `char` stands for one byte of the file. */
module Ini {

  const MAX_LINE := 200
  const MAX_SECTION := 50
  const MAX_NAME := 50

  /** `isspace`. */
  predicate IsSpace(c: char) {
    c == ' ' || c == '\t' || c == '\n' || c == '\r' || c == '\U{0B}' || c == '\U{0C}'
  }

  /** In numbers: tab, newline, vertical tab, form feed, carriage return and blank. */
  lemma SpaceCodes(c: char)
    ensures IsSpace(c) <==> 9 <= c as int <= 13 || c as int == 32
  {
  }

  /** `rstrip`. */
  function TrimRight(t: string): (r: string)
    ensures |r| <= |t|
  {
    if t != [] && IsSpace(t[|t| - 1]) then TrimRight(t[..|t| - 1]) else t
  }

  /** `lskip`. */
  function TrimLeft(t: string): (r: string)
    ensures |r| <= |t|
  {
    if t != [] && IsSpace(t[0]) then TrimLeft(t[1..]) else t
  }

  /** `find_chars_or_comment`: the position of the first of `chars` or of an inline comment, which
      is a semicolon after white space; the length if there is neither. */
  function FindStop(t: string, chars: string, wasSpace: bool): (n: nat)
    ensures n <= |t|
  {
    if t == [] || t[0] in chars || (wasSpace && t[0] == ';') then 0
    else 1 + FindStop(t[1..], chars, IsSpace(t[0]))
  }

  /** `strncpy0`: as much as fits in `size` bytes with the terminator. */
  function Fit(t: string, size: nat): string
    requires size > 0
  {
    if |t| < size then t else t[..size - 1]
  }

  function ToLower(c: char): char {
    if 'A' <= c <= 'Z' then (c as int + 32) as char else c
  }

  function Lower(t: string): (r: string)
    ensures |r| == |t| && forall i :: 0 <= i < |t| ==> r[i] == ToLower(t[i])
  {
    seq(|t|, i requires 0 <= i < |t| => ToLower(t[i]))
  }

  /** `INIReader::MakeKey`. */
  function MakeKey(section: string, name: string): string {
    Lower(section + "=" + name)
  }

  type Values = map<string, string>

  /** The parser's variables and the reader's values. */
  datatype State = State(section: string, prevName: string, error: nat, values: Values, sections: set<string>)

  const START := State("", "", 0, map[], {})

  /** `INIReader::ValueHandler`: later values of a key are added on new lines. */
  function Handle(values: Values, section: string, name: string, value: string): Values {
    var key := MakeKey(section, name);
    var before := if key in values then values[key] else "";
    values[key := (if |before| > 0 then before + "\n" else before) + value]
  }

  function Accept(s: State, name: string, value: string): State {
    s.(values := Handle(s.values, s.section, name, value), sections := s.sections + {s.section})
  }

  /** `INIReader::Get`. */
  function Get(values: Values, section: string, name: string, default: string): string {
    var key := MakeKey(section, name);
    if key in values then values[key] else default
  }

  // ----- One line

  predicate HasBom(t: string) {
    |t| >= 3 && t[0] == '\U{EF}' && t[1] == '\U{BB}' && t[2] == '\U{BF}'
  }

  /** A value up to its inline comment, without trailing white space. */
  function ValueOf(t: string): string {
    TrimRight(t[..FindStop(t, "", false)])
  }

  datatype Line =
    | Nothing
    | More(value: string)
    | Section(section: string)
    | Pair(name: string, value: string)
    | Malformed

  /** A line after a byte order mark, which only the first line may have. */
  function AfterBom(line: string, first: bool): string {
    if first && HasBom(line) then line[3..] else line
  }

  /** A line without the white space around it. */
  function Content(line: string, first: bool): string {
    TrimLeft(TrimRight(AfterBom(line, first)))
  }

  /** The content does not begin where the line does. */
  predicate Indented(line: string, first: bool) {
    (first && HasBom(line)) || |Content(line, first)| < |TrimRight(AfterBom(line, first))|
  }

  /** What the content of a line says. */
  function ClassifyContent(s: string, continues: bool): Line {
    if s == [] || s[0] == ';' || s[0] == '#' then Nothing
    else if continues then More(ValueOf(s))
    else if s[0] == '[' then
      var n := FindStop(s[1..], "]", false);
      if n < |s[1..]| && s[1..][n] == ']' then Section(s[1..][..n]) else Malformed
    else
      var n := FindStop(s, "=:", false);
      if n < |s| && (s[n] == '=' || s[n] == ':')
        then Pair(TrimRight(s[..n]), ValueOf(TrimLeft(s[n + 1..]))) else Malformed
  }

  /** What a line says; an indented line continues a value if there is one to continue. */
  function Classify(line: string, first: bool, continues: bool): Line {
    ClassifyContent(Content(line, first), continues && Indented(line, first))
  }

  function LineAt(s: State, line: string, lineno: nat): Line {
    Classify(line, lineno == 1, s.prevName != "")
  }

  function Apply(s: State, what: Line, lineno: nat): State {
    match what
    case Nothing => s
    case More(value) => Accept(s, s.prevName, value)
    case Section(section) => s.(section := Fit(section, MAX_SECTION), prevName := "")
    case Pair(name, value) => Accept(s.(prevName := Fit(name, MAX_NAME)), name, value)
    case Malformed => if s.error == 0 then s.(error := lineno) else s
  }

  /** One pass through the loop of `ini_parse_stream`. */
  function Step(s: State, line: string, lineno: nat): State {
    Apply(s, LineAt(s, line, lineno), lineno)
  }

  /** The state after all lines. */
  function ParseAll(lines: seq<string>): State {
    if lines == [] then START else Step(ParseAll(lines[..|lines| - 1]), lines[|lines| - 1], |lines|)
  }

  // ----- Errors

  predicate MalformedAt(lines: seq<string>, k: nat)
    requires k < |lines|
  {
    LineAt(ParseAll(lines[..k]), lines[k], k + 1).Malformed?
  }

  /** The parser returns the number of the first malformed line, or 0 if there is none. */
  lemma {:induction false} ErrorIsFirstMalformed(lines: seq<string>)
    ensures var e := ParseAll(lines).error;
      && e <= |lines|
      && (e == 0 ==> forall k :: 0 <= k < |lines| ==> !MalformedAt(lines, k))
      && (e > 0 ==> MalformedAt(lines, e - 1) && forall k :: 0 <= k < e - 1 ==> !MalformedAt(lines, k))
  {
    hide LineAt, Step, ParseAll;
    if lines == [] {
      assert ParseAll(lines) == START by { ParseNone(); }
    } else {
      var n := |lines| - 1;
      ErrorIsFirstMalformed(lines[..n]);
      ParseLast(lines);
      StepError(ParseAll(lines[..n]), lines[n], n + 1);
      forall k | 0 <= k < n
        ensures MalformedAt(lines, k) <==> MalformedAt(lines[..n], k)
      {
        assert lines[..n][..k] == lines[..k];
      }
    }
  }

  lemma ParseNone()
    ensures ParseAll([]) == START
  {
  }

  lemma ParseLast(lines: seq<string>)
    requires lines != []
    ensures ParseAll(lines) == Step(ParseAll(lines[..|lines| - 1]), lines[|lines| - 1], |lines|)
  {
    hide Step;
  }

  /** Only a malformed line sets the error, and only if there is none yet. */
  lemma StepError(s: State, line: string, lineno: nat)
    ensures Step(s, line, lineno).error ==
      if LineAt(s, line, lineno).Malformed? && s.error == 0 then lineno else s.error
  {
    hide LineAt, Handle;
  }

  // ----- What stops a search, and what makes a line malformed

  /** A stop character, or a semicolon after white space. */
  predicate StopsAt(t: string, chars: string, k: nat)
    requires k < |t|
  {
    t[k] in chars || (t[k] == ';' && k > 0 && IsSpace(t[k - 1]))
  }

  /** The search ends at the first place that stops it. */
  lemma {:induction false} FindStopFirst(t: string, chars: string, wasSpace: bool)
    ensures var n := FindStop(t, chars, wasSpace);
      && (forall k :: 0 < k < n ==> !StopsAt(t, chars, k))
      && (0 < n < |t| ==> StopsAt(t, chars, n))
      && (n == 0 && t != [] <==> t != [] && (t[0] in chars || (wasSpace && t[0] == ';')))
  {
    hide IsSpace;
    var n := FindStop(t, chars, wasSpace);
    if n > 0 {
      FindStopFirst(t[1..], chars, IsSpace(t[0]));
      forall k | 0 < k <= n && k < |t|
        ensures StopsAt(t, chars, k) <==> t[1..][k - 1] in chars || (t[1..][k - 1] == ';' && IsSpace(t[k - 1]))
      {
      }
      forall k | 1 < k <= n && k < |t|
        ensures StopsAt(t, chars, k) <==> StopsAt(t[1..], chars, k - 1)
      {
        assert t[1..][k - 2] == t[k - 1];
      }
    }
  }

  /** No semicolon after white space. */
  predicate CommentFree(t: string) {
    forall i :: 0 < i < |t| && t[i] == ';' ==> !IsSpace(t[i - 1])
  }

  /** One of `chars` comes before any comment. */
  ghost predicate Reaches(t: string, chars: string) {
    exists n :: 0 <= n < |t| && t[n] in chars && CommentFree(t[..n])
  }

  lemma ReachesIff(t: string, chars: string)
    requires ';' !in chars
    ensures var n := FindStop(t, chars, false); Reaches(t, chars) <==> n < |t| && t[n] in chars
  {
    hide IsSpace, FindStop;
    var n := FindStop(t, chars, false);
    FindStopFirst(t, chars, false);
    if n < |t| && t[n] in chars {
      assert CommentFree(t[..n]) by {
        forall i | 0 < i < n && t[..n][i] == ';'
          ensures !IsSpace(t[..n][i - 1])
        {
          assert !StopsAt(t, chars, i);
        }
      }
    }
    if Reaches(t, chars) {
      var m :| 0 <= m < |t| && t[m] in chars && CommentFree(t[..m]);
      assert n <= m by { assert m > 0 ==> StopsAt(t, chars, m); }
      if n < m && n > 0 {
        assert t[..m][n] == t[n] && t[..m][n - 1] == t[n - 1];
      }
    }
  }

  /** A line is malformed exactly when it is neither blank nor a comment, continues nothing, and lacks
      the closing bracket of a section, or the separator of a name and a value, before any comment. */
  lemma MalformedIff(s: string, continues: bool)
    ensures ClassifyContent(s, continues).Malformed? <==>
      && s != [] && s[0] != ';' && s[0] != '#' && !continues
      && (if s[0] == '[' then !Reaches(s[1..], "]") else !Reaches(s, "=:"))
  {
    hide FindStop, Reaches, TrimLeft, TrimRight;
    if s != [] {
      ReachesIff(s[1..], "]");
      ReachesIff(s, "=:");
    }
  }

  // ----- A file as lines

  /** Length of the first line of a stream, with its newline. */
  function LineLength(stream: string): (n: nat)
    ensures n <= |stream| && (stream != [] ==> n > 0)
  {
    if stream == [] then 0 else if stream[0] == '\n' then 1 else 1 + LineLength(stream[1..])
  }

  /** `fgets`: a line, or as much of it as fits in the buffer. */
  function ChunkLength(stream: string): (n: nat)
    ensures n <= |stream| && n < MAX_LINE && (stream != [] ==> n > 0)
  {
    var n := LineLength(stream);
    if n < MAX_LINE then n else MAX_LINE - 1
  }

  /** A C string ends at the first NUL. */
  function UpToNul(t: string): (r: string)
    ensures r <= t && '\0' !in r && (|r| < |t| ==> t[|r|] == '\0')
  {
    if t == [] || t[0] == '\0' then [] else [t[0]] + UpToNul(t[1..])
  }

  /** The strings the parser sees, line by line. */
  function Lines(stream: string): seq<string> {
    if stream == [] then []
    else
      var n := ChunkLength(stream);
      [UpToNul(stream[..n])] + Lines(stream[n..])
  }

  lemma LinesStep(stream: string)
    requires stream != []
    ensures var n := ChunkLength(stream); Lines(stream) == [UpToNul(stream[..n])] + Lines(stream[n..])
  {
  }

  lemma NoLines()
    ensures Lines([]) == []
  {
  }
}
