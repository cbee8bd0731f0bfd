/** INI files as people write them: what they say, and what their lines mean to the parser. */
module IniFile {
  import opened Ini

  /** No newline or NUL, which end a line. */
  predicate OneLine(t: string) {
    '\n' !in t && '\0' !in t
  }

  predicate Spaces(t: string) {
    forall i :: 0 <= i < |t| ==> IsSpace(t[i])
  }

  predicate Trimmed(t: string) {
    t == [] || (!IsSpace(t[0]) && !IsSpace(t[|t| - 1]))
  }

  // ----- Files

  /** A line of a file: blank or a comment; a section header, with anything after it; a name with its
      value; or a further line of a value. White space may stand wherever it has no meaning, and an
      inline comment after a value. */
  datatype FileLine =
    | Filler(indent: string, comment: string)
    | Head(indent: string, section: string, rest: string)
    | Set(indent: string, name: string, before: string, sep: char, after: string, value: string,
          trailing: string, comment: string)
    | Further(indent: string, value: string, trailing: string, comment: string)

  function Text(l: FileLine): string {
    match l
    case Filler(indent, comment) => indent + comment
    case Head(indent, section, rest) => indent + "[" + section + "]" + rest
    case Set(indent, name, before, sep, after, value, trailing, comment) =>
      indent + name + before + [sep] + after + value + trailing + comment
    case Further(indent, value, trailing, comment) => indent + value + trailing + comment
  }

  /** A value before white space and a comment, which must be set off from it. */
  predicate ValueOk(value: string, trailing: string, comment: string) {
    && Trimmed(value) && CommentFree(value) && Spaces(trailing)
    && (comment != [] ==> comment[0] == ';' && trailing != [] && value != [])
  }

  predicate NameOk(name: string) {
    && name != [] && Trimmed(name) && CommentFree(name) && '=' !in name && ':' !in name
    && name[0] != '[' && name[0] != ';' && name[0] != '#'
  }

  predicate WellFormed(l: FileLine) {
    && OneLine(Text(l)) && |Text(l)| + 1 < MAX_LINE && Spaces(l.indent)
    && match l
       case Filler(_, comment) => comment == [] || comment[0] == ';' || comment[0] == '#'
       case Head(_, section, _) => CommentFree(section) && ']' !in section
       case Set(_, name, before, sep, after, value, trailing, comment) =>
         && NameOk(name) && Spaces(before) && (sep == '=' || sep == ':') && Spaces(after)
         && ValueOk(value, trailing, comment)
       case Further(indent, value, trailing, comment) =>
         && indent != [] && value != [] && value[0] != ';' && value[0] != '#' && ValueOk(value, trailing, comment)
  }

  /** Where a value may be continued, headers and names must not be indented. */
  predicate Fits(l: FileLine, open: bool) {
    match l
    case Filler(_, _) => true
    case Head(indent, _, _) => open ==> indent == []
    case Set(indent, _, _, _, _, _, _, _) => open ==> indent == []
    case Further(_, _, _, _) => open
  }

  /** After these lines a value may be continued. */
  function Open(f: seq<FileLine>): bool {
    if f == [] then false
    else
      match f[|f| - 1]
      case Filler(_, _) => Open(f[..|f| - 1])
      case Head(_, _, _) => false
      case Set(_, _, _, _, _, _, _, _) => true
      case Further(_, _, _, _) => true
  }

  predicate ValidFile(f: seq<FileLine>) {
    f == [] || (ValidFile(f[..|f| - 1]) && WellFormed(f[|f| - 1]) && Fits(f[|f| - 1], Open(f[..|f| - 1])))
  }

  // ----- What a file says

  /** A name with its value, of one or more lines. */
  datatype Entry = Entry(section: string, name: string, value: string, more: seq<string>)

  /** The section in force after these lines; of a long name, the first 49 characters. */
  function SectionAt(f: seq<FileLine>): string {
    if f == [] then ""
    else
      var last := f[|f| - 1];
      if !last.Head? then SectionAt(f[..|f| - 1])
      else if |last.section| < 50 then last.section
      else last.section[..49]
  }

  function Entries(f: seq<FileLine>): seq<Entry> {
    if f == [] then []
    else
      var before := Entries(f[..|f| - 1]);
      match f[|f| - 1]
      case Filler(_, _) => before
      case Head(_, _, _) => before
      case Set(_, name, _, _, _, value, _, _) => before + [Entry(SectionAt(f), name, value, [])]
      case Further(_, value, _, _) =>
        if before == [] then [] else before[..|before| - 1] + [Longer(before[|before| - 1], value)]
  }

  function Longer(e: Entry, line: string): Entry {
    e.(more := e.more + [line])
  }

  function KeyOf(e: Entry): string {
    MakeKey(e.section, e.name)
  }

  predicate DistinctKeys(entries: seq<Entry>) {
    forall i, j :: 0 <= i < j < |entries| ==> KeyOf(entries[i]) != KeyOf(entries[j])
  }

  // ----- A file as text

  const BOM := "\U{EF}\U{BB}\U{BF}"

  function LineText(l: FileLine, bom: bool): string {
    (if bom then BOM else "") + Text(l) + "\n"
  }

  function RenderedLines(f: seq<FileLine>, bom: bool): seq<string> {
    if f == [] then [] else RenderedLines(f[..|f| - 1], bom) + [LineText(f[|f| - 1], bom && |f| == 1)]
  }

  function Join(lines: seq<string>): string {
    if lines == [] then [] else lines[0] + Join(lines[1..])
  }

  /** The text of a file, with or without a byte order mark. */
  function Render(f: seq<FileLine>, bom: bool): string {
    Join(RenderedLines(f, bom))
  }

  /** The mark fits in the first line; without it, the first line does not begin like one. */
  predicate StartOk(f: seq<FileLine>, bom: bool) {
    f != [] ==> if bom then |Text(f[0])| + 4 < MAX_LINE else !HasBom(Text(f[0]))
  }

  // ----- Lines come back as lines

  lemma {:induction false} LineLengthOf(t: string, rest: string)
    requires '\n' !in t
    ensures LineLength(t + "\n" + rest) == |t| + 1
  {
    var s := t + "\n" + rest;
    if t != [] {
      assert s[0] == t[0] && t[0] in t;
      assert s[1..] == t[1..] + "\n" + rest;
      LineLengthOf(t[1..], rest);
    }
  }

  lemma {:induction false} UpToNulWhole(t: string)
    requires '\0' !in t
    ensures UpToNul(t) == t
  {
    if t != [] {
      assert t[0] in t;
      UpToNulWhole(t[1..]);
    }
  }

  lemma FirstLine(t: string, rest: string)
    requires OneLine(t) && |t| + 1 < MAX_LINE
    ensures Lines(t + "\n" + rest) == [t + "\n"] + Lines(rest)
  {
    var s := t + "\n" + rest;
    LineLengthOf(t, rest);
    assert s[..|t| + 1] == t + "\n" && s[|t| + 1..] == rest;
    UpToNulWhole(t + "\n");
  }

  /** A line that is read as it is. */
  predicate WholeLine(t: string) {
    0 < |t| < MAX_LINE && t[|t| - 1] == '\n' && OneLine(t[..|t| - 1])
  }

  lemma {:induction false} LinesOfJoin(lines: seq<string>)
    requires forall t :: t in lines ==> WholeLine(t)
    ensures Lines(Join(lines)) == lines
  {
    hide Lines, OneLine;
    if lines == [] {
      NoLines();
    } else {
      var t, rest := lines[0], Join(lines[1..]);
      assert t in lines;
      var body := t[..|t| - 1];
      assert t == body + "\n";
      FirstLine(body, rest);
      LinesOfJoin(lines[1..]);
    }
  }

  lemma LineTextWhole(l: FileLine, bom: bool)
    requires OneLine(Text(l)) && |Text(l)| + (if bom then 4 else 1) < MAX_LINE
    ensures WholeLine(LineText(l, bom))
  {
    hide Text;
    var t := LineText(l, bom);
    assert t[..|t| - 1] == (if bom then BOM else "") + Text(l);
  }

  lemma {:induction false} RenderedWhole(f: seq<FileLine>, bom: bool)
    requires ValidFile(f) && StartOk(f, bom)
    ensures forall t :: t in RenderedLines(f, bom) ==> WholeLine(t)
  {
    hide Text, WholeLine, LineText, Fits, HasBom;
    if f != [] {
      var n := |f| - 1;
      assert n > 0 ==> f[..n][0] == f[0];
      RenderedWhole(f[..n], bom);
      LineTextWhole(f[n], bom && n == 0);
    }
  }

  // ----- White space

  lemma {:induction false} TrimRightSpaces(t: string)
    requires Spaces(t)
    ensures TrimRight(t) == []
  {
    if t != [] { TrimRightSpaces(t[..|t| - 1]); }
  }

  /** White space is stripped up to the last character that is none. */
  lemma {:induction false} TrimRightAfter(t: string, u: string)
    requires t != [] && !IsSpace(t[|t| - 1])
    ensures TrimRight(t + u) == t + TrimRight(u)
  {
    var s := t + u;
    if u == [] {
      assert s == t && t + TrimRight(u) == t;
    } else {
      var n := |u| - 1;
      assert s[|s| - 1] == u[n] && s[..|s| - 1] == t + u[..n];
      if IsSpace(u[n]) { TrimRightAfter(t, u[..n]); }
    }
  }

  lemma TrimRightTo(t: string, u: string)
    requires t != [] && !IsSpace(t[|t| - 1]) && Spaces(u)
    ensures TrimRight(t + u) == t
  {
    TrimRightAfter(t, u);
    TrimRightSpaces(u);
    assert t + [] == t;
  }

  lemma {:induction false} TrimLeftSpaces(w: string, t: string)
    requires Spaces(w) && (t == [] || !IsSpace(t[0]))
    ensures TrimLeft(w + t) == t
  {
    var s := w + t;
    if w == [] {
      assert s == t;
    } else {
      assert s[0] == w[0] && s[1..] == w[1..] + t;
      TrimLeftSpaces(w[1..], t);
    }
  }

  lemma SpacesConcat(a: string, b: string)
    requires Spaces(a) && Spaces(b)
    ensures Spaces(a + b)
  {
  }

  // ----- Searching

  lemma CommentFreeTail(t: string)
    requires t != [] && CommentFree(t)
    ensures CommentFree(t[1..])
  {
    var u := t[1..];
    forall i | 0 < i < |u| && u[i] == ';'
      ensures !IsSpace(u[i - 1])
    {
      assert u[i] == t[i + 1] && u[i - 1] == t[i];
    }
  }

  /** Up to a stop character, with nothing before it that stops. */
  lemma {:induction false} FindStopAt(t: string, chars: string, c: char, rest: string, wasSpace: bool)
    requires c in chars && (forall x :: x in t ==> x !in chars) && CommentFree(t)
    requires !(wasSpace && t != [] && t[0] == ';')
    ensures FindStop(t + [c] + rest, chars, wasSpace) == |t|
  {
    var s := t + [c] + rest;
    if t != [] {
      assert s[0] == t[0] && t[0] in t;
      assert s[1..] == t[1..] + [c] + rest;
      assert |t| > 1 && t[1] == ';' ==> !IsSpace(t[0]);
      CommentFreeTail(t);
      FindStopAt(t[1..], chars, c, rest, IsSpace(t[0]));
    }
  }

  lemma {:induction false} FindNoStop(t: string, wasSpace: bool)
    requires CommentFree(t) && !(wasSpace && t != [] && t[0] == ';')
    ensures FindStop(t, "", wasSpace) == |t|
  {
    if t != [] {
      assert |t| > 1 && t[1] == ';' ==> !IsSpace(t[0]);
      CommentFreeTail(t);
      FindNoStop(t[1..], IsSpace(t[0]));
    }
  }

  /** Up to an inline comment. */
  lemma {:induction false} FindComment(t: string, rest: string, wasSpace: bool)
    requires CommentFree(t) && !(wasSpace && t != [] && t[0] == ';')
    requires if t == [] then wasSpace else IsSpace(t[|t| - 1])
    ensures FindStop(t + [';'] + rest, "", wasSpace) == |t|
  {
    var s := t + [';'] + rest;
    if t != [] {
      assert s[0] == t[0] && s[1..] == t[1..] + [';'] + rest;
      assert |t| > 1 && t[1] == ';' ==> !IsSpace(t[0]);
      CommentFreeTail(t);
      FindComment(t[1..], rest, IsSpace(t[0]));
    }
  }

  lemma SpacesCommentFree(t: string, w: string)
    requires CommentFree(t) && Spaces(w)
    ensures CommentFree(t + w)
  {
    var s := t + w;
    assert forall k :: |t| <= k < |s| ==> IsSpace(s[k]) && s[k] != ';';
    forall i | 0 < i < |s| && s[i] == ';'
      ensures !IsSpace(s[i - 1])
    {
      assert s[i] == t[i] && s[i - 1] == t[i - 1];
    }
  }

  // ----- What each line means

  /** What is left of the white space and the comment after a value. */
  function Remains(trailing: string, comment: string): string {
    if comment == [] then [] else trailing + [';'] + TrimRight(comment[1..] + "\n")
  }

  lemma ValueMeans(value: string, trailing: string, comment: string)
    requires ValueOk(value, trailing, comment)
    ensures ValueOf(value + Remains(trailing, comment)) == value
  {
    hide TrimRight, FindStop, IsSpace;
    if comment == [] {
      assert value + Remains(trailing, comment) == value;
      FindNoStop(value, false);
      assert value[..|value|] == value;
      if value != [] { TrimRightTo(value, ""); }
      assert value + "" == value;
      assert value == [] ==> TrimRight(value) == [] by { TrimRightSpaces(""); }
    } else {
      var kept, rest := value + trailing, TrimRight(comment[1..] + "\n");
      var s := value + Remains(trailing, comment);
      assert s == kept + [';'] + rest;
      SpacesCommentFree(value, trailing);
      FindComment(kept, rest, false);
      assert s[..|kept|] == kept;
      TrimRightTo(value, trailing);
    }
  }

  /** Stripping the end of a line whose last visible part is a value and a comment. */
  lemma StripEnd(front: string, value: string, trailing: string, comment: string)
    requires ValueOk(value, trailing, comment) && value != []
    ensures TrimRight(front + value + trailing + comment + "\n") == front + value + Remains(trailing, comment)
  {
    hide TrimRight;
    var line := front + value + trailing + comment + "\n";
    if comment == [] {
      SpacesConcat(trailing, "\n");
      TrimRightTo(front + value, trailing + "\n");
      assert line == front + value + (trailing + "\n");
      assert front + value + [] == front + value;
    } else {
      var visible := front + value + trailing + [';'];
      assert line == visible + (comment[1..] + "\n");
      TrimRightAfter(visible, comment[1..] + "\n");
      assert visible + TrimRight(comment[1..] + "\n") == front + value + Remains(trailing, comment);
    }
  }

  function Meaning(l: FileLine): Line {
    match l
    case Filler(_, _) => Nothing
    case Head(_, section, _) => Section(section)
    case Set(_, name, _, _, _, value, _, _) => Pair(name, value)
    case Further(_, value, _, _) => More(value)
  }

  /** The content of a line, and what it says. */
  ghost predicate Says(l: FileLine, content: string, continues: bool) {
    && TrimRight(Text(l) + "\n") == (if content == [] then [] else l.indent + content)
    && TrimLeft(TrimRight(Text(l) + "\n")) == content
    && ClassifyContent(content, continues) == Meaning(l)
  }

  lemma FillerSays(l: FileLine, continues: bool) returns (content: string)
    requires WellFormed(l) && l.Filler?
    ensures Says(l, content, continues)
  {
    hide TrimRight, TrimLeft, OneLine;
    var w, c := l.indent, l.comment;
    if c == [] {
      content := [];
      SpacesConcat(w, "\n");
      assert Text(l) + "\n" == w + "\n";
      TrimRightSpaces(w + "\n");
      TrimLeftSpaces("", "");
      assert "" + "" == "";
    } else {
      var rest := TrimRight(c[1..] + "\n");
      content := [c[0]] + rest;
      assert Text(l) + "\n" == (w + [c[0]]) + (c[1..] + "\n");
      TrimRightAfter(w + [c[0]], c[1..] + "\n");
      assert w + [c[0]] + rest == w + content;
      TrimLeftSpaces(w, content);
    }
  }

  lemma HeadSays(l: FileLine) returns (content: string)
    requires WellFormed(l) && l.Head?
    ensures Says(l, content, false)
  {
    hide TrimRight, TrimLeft, FindStop, OneLine;
    var w, s := l.indent, l.section;
    var rest := TrimRight(l.rest + "\n");
    content := "[" + s + "]" + rest;
    var visible := w + "[" + s + "]";
    assert Text(l) + "\n" == visible + (l.rest + "\n");
    TrimRightAfter(visible, l.rest + "\n");
    assert visible + rest == w + content;
    TrimLeftSpaces(w, content);
    assert content[1..] == s + [']'] + rest;
    FindStopAt(s, "]", ']', rest, false);
    assert content[1..][..|s|] == s;
  }

  lemma FurtherSays(l: FileLine) returns (content: string)
    requires WellFormed(l) && l.Further?
    ensures Says(l, content, true)
  {
    hide TrimRight, TrimLeft, FindStop, OneLine, ValueOf;
    content := l.value + Remains(l.trailing, l.comment);
    StripEnd(l.indent, l.value, l.trailing, l.comment);
    assert l.indent + l.value + Remains(l.trailing, l.comment) == l.indent + content;
    TrimLeftSpaces(l.indent, content);
    ValueMeans(l.value, l.trailing, l.comment);
  }

  lemma SetSays(l: FileLine) returns (content: string)
    requires WellFormed(l) && l.Set?
    ensures Says(l, content, false)
  {
    hide TrimRight, TrimLeft, FindStop, OneLine, ValueOf, ClassifyContent;
    var front := l.name + l.before + [l.sep];
    var body := if l.value == [] then [] else l.after + l.value + Remains(l.trailing, l.comment);
    content := front + body;
    SetStrips(l, front, body);
    TrimLeftSpaces(l.indent, content);
    BodyMeans(l, body);
    PairMeans(l.name, l.before, l.sep, body);
  }

  lemma SetStrips(l: FileLine, front: string, body: string)
    requires WellFormed(l) && l.Set? && front == l.name + l.before + [l.sep]
    requires body == if l.value == [] then [] else l.after + l.value + Remains(l.trailing, l.comment)
    ensures TrimRight(Text(l) + "\n") == l.indent + (front + body)
  {
    hide TrimRight, OneLine, Remains;
    var visible := l.indent + front;
    if l.value == [] {
      SpacesConcat(l.after, l.trailing);
      SpacesConcat(l.after + l.trailing, "\n");
      assert Text(l) + "\n" == visible + (l.after + l.trailing + "\n");
      TrimRightTo(visible, l.after + l.trailing + "\n");
      assert visible == l.indent + (front + []);
    } else {
      StripEnd(visible + l.after, l.value, l.trailing, l.comment);
      assert Text(l) + "\n" == visible + l.after + l.value + l.trailing + l.comment + "\n";
      assert visible + l.after + l.value + Remains(l.trailing, l.comment) == l.indent + (front + body);
    }
  }

  lemma BodyMeans(l: FileLine, body: string)
    requires WellFormed(l) && l.Set?
    requires body == if l.value == [] then [] else l.after + l.value + Remains(l.trailing, l.comment)
    ensures ValueOf(TrimLeft(body)) == l.value
  {
    hide TrimRight, FindStop, OneLine, ValueOf, Remains, TrimLeft;
    if l.value == [] {
      TrimLeftSpaces("", "");
      assert "" + "" == body;
      ValueMeans("", "", "");
      assert "" + Remains("", "") == "" by { NothingRemains(); }
    } else {
      var v := l.value + Remains(l.trailing, l.comment);
      assert body == l.after + v && v[0] == l.value[0];
      TrimLeftSpaces(l.after, v);
      ValueMeans(l.value, l.trailing, l.comment);
    }
  }

  lemma NothingRemains()
    ensures Remains("", "") == ""
  {
  }

  lemma PairMeans(name: string, before: string, sep: char, body: string)
    requires NameOk(name) && Spaces(before) && (sep == '=' || sep == ':')
    ensures ClassifyContent(name + before + [sep] + body, false) == Pair(name, ValueOf(TrimLeft(body)))
  {
    hide TrimRight, TrimLeft, FindStop, ValueOf;
    var kept := name + before;
    var s := kept + [sep] + body;
    SpacesCommentFree(name, before);
    forall x | x in kept
      ensures x !in "=:"
    {
      if x in before { var i :| 0 <= i < |before| && before[i] == x; }
    }
    FindStopAt(kept, "=:", sep, body, false);
    assert s[..|kept|] == kept && s[|kept|] == sep && s[|kept| + 1..] == body && s[0] == name[0];
    TrimRightTo(name, before);
  }

  /** A line of a file says what it means wherever it may stand, also after a byte order mark. */
  lemma LineMeans(l: FileLine, bom: bool, first: bool, open: bool)
    requires WellFormed(l) && Fits(l, open) && (bom ==> first && !open) && (first && !bom ==> !HasBom(Text(l)))
    ensures Classify(LineText(l, bom), first, open) == Meaning(l)
  {
    hide TrimRight, TrimLeft, ClassifyContent, Meaning, Text, OneLine;
    var content: string;
    match l {
      case Filler(_, _) => content := FillerSays(l, open && Indented(LineText(l, bom), first));
      case Head(_, _, _) => content := HeadSays(l);
      case Set(_, _, _, _, _, _, _, _) => content := SetSays(l);
      case Further(_, _, _, _) => content := FurtherSays(l);
    }
    AfterBomIs(Text(l), bom, first);
    if !l.Filler? { ContentThere(l, content); }
  }

  lemma ContentThere(l: FileLine, content: string)
    requires WellFormed(l) && !l.Filler? && Says(l, content, l.Further?)
    ensures content != []
  {
    hide FindStop, TrimLeft, TrimRight;
  }

  lemma AfterBomIs(t: string, bom: bool, first: bool)
    requires (bom ==> first) && (first && !bom ==> !HasBom(t))
    ensures AfterBom((if bom then BOM else "") + t + "\n", first) == t + "\n"
  {
    var line := (if bom then BOM else "") + t + "\n";
    if bom {
      assert line[3..] == t + "\n" && HasBom(line);
    } else {
      assert line == t + "\n";
      assert HasBom(line) ==> |t| >= 3 && HasBom(t);
    }
  }

  // ----- Any file as lines

  /** Lines are the pieces of a file without NULs, in order: each ends at its newline, or after 199
      characters, or with the file. */
  lemma {:induction false} LinesExactly(stream: string)
    requires '\0' !in stream
    ensures Join(Lines(stream)) == stream
    ensures forall i :: 0 <= i < |Lines(stream)| ==>
      var t := Lines(stream)[i];
      && 0 < |t| <= 199 && '\n' !in t[..|t| - 1]
      && (i < |Lines(stream)| - 1 ==> t[|t| - 1] == '\n' || |t| == 199)
  {
    hide ChunkLength, UpToNul, Lines;
    NoLines();
    if stream != [] {
      var n := ChunkLength(stream);
      var t, rest := stream[..n], stream[n..];
      ChunkIs(stream);
      UpToNulWhole(t);
      LinesStep(stream);
      LinesExactly(rest);
      var all, later := Lines(stream), Lines(rest);
      assert all == [t] + later && t + rest == stream;
      assert n == |stream| ==> later == [];
      assert forall i :: 1 <= i < |all| ==> all[i] == later[i - 1];
    }
  }

  lemma {:induction false} LineLengthFirst(stream: string)
    ensures var n := LineLength(stream);
      '\n' !in stream[..if n == 0 then 0 else n - 1] && (n < |stream| ==> n > 0 && stream[n - 1] == '\n')
  {
    if stream != [] && stream[0] != '\n' {
      var n := LineLength(stream[1..]);
      LineLengthFirst(stream[1..]);
      if n > 0 { assert stream[..n] == [stream[0]] + stream[1..][..n - 1]; }
    }
  }

  lemma ChunkIs(stream: string)
    requires stream != []
    ensures var n := ChunkLength(stream);
      && 0 < n <= 199 && n <= |stream| && '\n' !in stream[..n - 1]
      && (n == |stream| || stream[n - 1] == '\n' || n == 199)
  {
    hide LineLength;
    LineLengthFirst(stream);
    var n := LineLength(stream);
    if n >= MAX_LINE { assert stream[..MAX_LINE - 2] == stream[..n - 1][..MAX_LINE - 2]; }
  }

  /** A newline at the end of the last line, or of the file, changes nothing. */
  lemma NewlineMeansNothing(line: string, first: bool, continues: bool)
    ensures Classify(line + "\n", first, continues) == Classify(line, first, continues)
    ensures Classify("\n", first, continues) == Nothing
  {
    hide ClassifyContent;
    var u := AfterBom(line, first);
    assert AfterBom(line + "\n", first) == u + "\n";
    assert (u + "\n")[..|u|] == u;
    assert TrimRight("\n") == TrimRight([]);
    BlankIsNothing(false);
    BlankIsNothing(true);
  }

  lemma BlankIsNothing(continues: bool)
    ensures ClassifyContent([], continues) == Nothing
  {
  }

  lemma {:induction false} LineLengthNewline(u: string)
    ensures LineLength(u + "\n") == if '\n' in u then LineLength(u) else |u| + 1
    ensures '\n' !in u ==> LineLength(u) == |u|
  {
    if u != [] {
      assert (u + "\n")[1..] == u[1..] + "\n";
      LineLengthNewline(u[1..]);
    }
  }

  lemma {:induction false} UpToNulNewline(u: string)
    ensures UpToNul(u + "\n") == UpToNul(u) + if '\0' in u then "" else "\n"
  {
    if u == [] {
      assert UpToNul("\n") == "\n" + UpToNul([]);
    } else {
      assert (u + "\n")[1..] == u[1..] + "\n";
      UpToNulNewline(u[1..]);
    }
  }

  /** Whether a file ends with a newline makes no difference. */
  lemma {:induction false} FinalNewline(seen: seq<string>, u: string)
    ensures ParseAll(seen + Lines(u + "\n")) == ParseAll(seen + Lines(u))
    decreases |u|
  {
    hide ParseAll, Lines, ChunkLength, UpToNul, LineLength;
    var s := u + "\n";
    LineLengthNewline(u);
    if u == [] {
      assert s == "\n";
      LinesOne("\n");
      UpToNulNewline("");
      assert UpToNul("") == "" by { UpToNulWhole(""); }
      NoLines();
      assert seen + [] == seen;
      LastNewline(seen, "");
    } else if '\n' in u || |u| >= MAX_LINE - 1 {
      var n := ChunkLength(u);
      assert ChunkLength(s) == n by { SameChunk(u); }
      assert s[..n] == u[..n] && s[n..] == u[n..] + "\n";
      LinesStep(u);
      LinesStep(s);
      var t := UpToNul(u[..n]);
      FinalNewline(seen + [t], u[n..]);
      Regroup(seen, t, Lines(u[n..] + "\n"));
      Regroup(seen, t, Lines(u[n..]));
    } else {
      LinesOne(u);
      LinesOne(s);
      UpToNulNewline(u);
      LastNewline(seen, UpToNul(u));
      assert UpToNul(u) + "" == UpToNul(u);
    }
  }

  lemma OneLineLength(u: string)
    requires u != [] && '\n' !in u[..|u| - 1]
    ensures LineLength(u) == |u|
  {
    hide LineLength;
    var front := u[..|u| - 1];
    LineLengthNewline(front);
    LineLengthNewline(u);
    assert u == front + [u[|u| - 1]];
  }

  /** A file that fits in one line. */
  lemma LinesOne(u: string)
    requires 0 < |u| < MAX_LINE && '\n' !in u[..|u| - 1]
    ensures Lines(u) == [UpToNul(u)]
  {
    hide LineLength, UpToNul, Lines;
    OneLineLength(u);
    LinesStep(u);
    assert u[..|u|] == u && u[|u|..] == [];
    NoLines();
  }

  lemma SameChunk(u: string)
    requires '\n' in u || |u| >= MAX_LINE - 1
    ensures ChunkLength(u + "\n") == ChunkLength(u)
  {
    LineLengthNewline(u);
  }

  lemma LastNewline(seen: seq<string>, t: string)
    ensures ParseAll(seen + [t + "\n"]) == ParseAll(seen + [t])
    ensures ParseAll(seen + ["\n"]) == ParseAll(seen)
  {
    hide Classify;
    var s := ParseAll(seen);
    assert (seen + [t + "\n"])[..|seen|] == seen && (seen + [t])[..|seen|] == seen && (seen + ["\n"])[..|seen|] == seen;
    NewlineMeansNothing(t, |seen| + 1 == 1, s.prevName != "");
  }

  lemma Regroup(a: seq<string>, t: string, b: seq<string>)
    ensures a + ([t] + b) == a + [t] + b
  {
  }
}
