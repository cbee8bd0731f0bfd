/** Reading back what an INI file says. */
module IniRoundTrip {
  import opened Ini
  import opened IniFile

  // ----- What the parser hands over

  /** A call of the value handler. */
  datatype Setting = Setting(section: string, name: string, value: string)

  function SettingKey(s: Setting): string {
    MakeKey(s.section, s.name)
  }

  function MoreSettings(section: string, name: string, more: seq<string>): seq<Setting> {
    if more == [] then [] else [Setting(section, name, more[0])] + MoreSettings(section, name, more[1..])
  }

  /** Further lines come under the name as far as the parser remembers it. */
  function SettingsOf(e: Entry): seq<Setting> {
    [Setting(e.section, e.name, e.value)] + MoreSettings(e.section, Fit(e.name, MAX_NAME), e.more)
  }

  function AllSettings(entries: seq<Entry>): seq<Setting> {
    if entries == [] then [] else SettingsOf(entries[0]) + AllSettings(entries[1..])
  }

  function HandleAll(values: Values, settings: seq<Setting>): Values
    decreases settings
  {
    if settings == [] then values
    else HandleAll(Handle(values, settings[0].section, settings[0].name, settings[0].value), settings[1..])
  }

  lemma {:induction false} HandleAllConcat(values: Values, a: seq<Setting>, b: seq<Setting>)
    ensures HandleAll(values, a + b) == HandleAll(HandleAll(values, a), b)
    decreases a
  {
    hide Handle;
    if a == [] {
      assert a + b == b;
    } else {
      assert (a + b)[1..] == a[1..] + b;
      HandleAllConcat(Handle(values, a[0].section, a[0].name, a[0].value), a[1..], b);
    }
  }

  lemma FirstHandled(values: Values, s: Setting)
    ensures HandleAll(values, [s]) == Handle(values, s.section, s.name, s.value)
  {
    hide Handle;
    assert [s][1..] == [];
  }

  lemma {:induction false} AllSettingsConcat(a: seq<Entry>, b: seq<Entry>)
    ensures AllSettings(a + b) == AllSettings(a) + AllSettings(b)
  {
    hide SettingsOf;
    if a == [] {
      assert a + b == b;
    } else {
      assert (a + b)[1..] == a[1..] + b;
      AllSettingsConcat(a[1..], b);
      var x, y, z := SettingsOf(a[0]), AllSettings(a[1..]), AllSettings(b);
      assert x + y + z == x + (y + z);
    }
  }

  lemma OneEntry(e: Entry)
    ensures AllSettings([e]) == SettingsOf(e)
  {
    hide SettingsOf;
    assert SettingsOf(e) + [] == SettingsOf(e);
  }

  lemma {:induction false} MoreSettingsSnoc(section: string, name: string, more: seq<string>, m: string)
    ensures MoreSettings(section, name, more + [m]) == MoreSettings(section, name, more) + [Setting(section, name, m)]
  {
    if more == [] {
      assert more + [m] == [m] && [m][1..] == [];
    } else {
      assert (more + [m])[1..] == more[1..] + [m];
      MoreSettingsSnoc(section, name, more[1..], m);
    }
  }

  /** A further line is one more setting. */
  lemma LongerSettings(before: seq<Entry>, e: Entry, m: string)
    ensures AllSettings(before + [Longer(e, m)]) ==
      AllSettings(before + [e]) + [Setting(e.section, Fit(e.name, MAX_NAME), m)]
  {
    hide Fit;
    AllSettingsConcat(before, [e]);
    AllSettingsConcat(before, [Longer(e, m)]);
    OneEntry(e);
    OneEntry(Longer(e, m));
    MoreSettingsSnoc(e.section, Fit(e.name, MAX_NAME), e.more, m);
    assert SettingsOf(Longer(e, m)) == SettingsOf(e) + [Setting(e.section, Fit(e.name, MAX_NAME), m)];
  }

  function SectionsOf(entries: seq<Entry>): set<string> {
    set e | e in entries :: e.section
  }

  /** The parser's state after the lines of a file. */
  ghost predicate Reached(f: seq<FileLine>, s: State) {
    && s.error == 0 && s.section == SectionAt(f) && (Open(f) <==> s.prevName != "")
    && (Open(f) ==> Entries(f) != [] && Continues(s, Entries(f)[|Entries(f)| - 1]))
    && s.values == HandleAll(map[], AllSettings(Entries(f)))
    && s.sections == SectionsOf(Entries(f))
  }

  predicate Continues(s: State, e: Entry) {
    s.prevName == Fit(e.name, MAX_NAME) && s.section == e.section
  }

  /** One setting more. */
  lemma Handed(s: State, name: string, value: string, before: seq<Setting>)
    requires s.values == HandleAll(map[], before)
    ensures Accept(s, name, value).values == HandleAll(map[], before + [Setting(s.section, name, value)])
  {
    hide Handle, HandleAll;
    var setting := Setting(s.section, name, value);
    HandleAllConcat(map[], before, [setting]);
    FirstHandled(HandleAll(map[], before), setting);
  }

  lemma SetReaches(f: seq<FileLine>, l: FileLine, s: State, lineno: nat)
    requires Reached(f, s) && l.Set? && l.name != []
    ensures Reached(f + [l], Apply(s, Pair(l.name, l.value), lineno))
  {
    hide Handle, HandleAll, AllSettings, SectionsOf;
    var g, e := f + [l], Entry(s.section, l.name, l.value, []);
    SetAdds(f, l);
    AddedSettings(Entries(f), e);
    Handed(s.(prevName := Fit(l.name, MAX_NAME)), l.name, l.value, AllSettings(Entries(f)));
    SectionsSnoc(Entries(f), e);
  }

  lemma SetAdds(f: seq<FileLine>, l: FileLine)
    requires l.Set?
    ensures Entries(f + [l]) == Entries(f) + [Entry(SectionAt(f), l.name, l.value, [])]
    ensures SectionAt(f + [l]) == SectionAt(f) && Open(f + [l])
  {
    assert (f + [l])[..|f|] == f;
  }

  lemma AddedSettings(before: seq<Entry>, e: Entry)
    requires e.more == []
    ensures AllSettings(before + [e]) == AllSettings(before) + [Setting(e.section, e.name, e.value)]
  {
    hide AllSettings;
    AllSettingsConcat(before, [e]);
    OneEntry(e);
    assert SettingsOf(e) == [Setting(e.section, e.name, e.value)];
  }

  lemma FurtherReaches(f: seq<FileLine>, l: FileLine, s: State, lineno: nat)
    requires Reached(f, s) && l.Further? && Open(f)
    ensures Reached(f + [l], Apply(s, More(l.value), lineno))
  {
    hide Handle, HandleAll, AllSettings, Fit;
    var g, before := f + [l], Entries(f);
    var n := |before| - 1;
    var e := before[n];
    assert g[..|g| - 1] == f;
    assert Entries(g) == before[..n] + [Longer(e, l.value)] && before == before[..n] + [e];
    LongerSettings(before[..n], e, l.value);
    Handed(s, s.prevName, l.value, AllSettings(before));
    SameSections(before[..n], e, Longer(e, l.value));
    assert e in before && s.section in SectionsOf(before);
  }

  lemma SameSections(before: seq<Entry>, e: Entry, o: Entry)
    requires e.section == o.section
    ensures SectionsOf(before + [e]) == SectionsOf(before + [o])
  {
    var a, b := before + [e], before + [o];
    forall x
      ensures x in SectionsOf(a) <==> x in SectionsOf(b)
    {
      assert x in SectionsOf(a) <==> x in SectionsOf(before) || x == e.section by { SectionsSnoc(before, e); }
      assert x in SectionsOf(b) <==> x in SectionsOf(before) || x == o.section by { SectionsSnoc(before, o); }
    }
  }

  lemma SectionsSnoc(before: seq<Entry>, e: Entry)
    ensures SectionsOf(before + [e]) == SectionsOf(before) + {e.section}
  {
    var all := before + [e];
    assert forall o :: o in all <==> o in before || o == e;
  }

  lemma QuietReaches(f: seq<FileLine>, l: FileLine, s: State, lineno: nat)
    requires Reached(f, s) && (l.Filler? || l.Head?)
    ensures Reached(f + [l], Apply(s, Meaning(l), lineno))
  {
    hide HandleAll, AllSettings;
    var g := f + [l];
    assert g[..|g| - 1] == f;
  }

  lemma NextLine(f: seq<FileLine>, l: FileLine, bom: bool, lines: seq<string>)
    requires Reached(f, ParseAll(lines)) && |lines| == |f| && WellFormed(l) && Fits(l, Open(f))
    requires f == [] && !bom ==> !HasBom(Text(l))
    ensures Reached(f + [l], ParseAll(lines + [LineText(l, bom && f == [])]))
  {
    hide Reached, Classify, WellFormed, Apply, Fits, HasBom, Text, LineText, Open, Meaning;
    var mark, s := bom && f == [], ParseAll(lines);
    assert (lines + [LineText(l, mark)])[..|lines|] == lines;
    OpenOf(f, s);
    LineMeans(l, mark, f == [], Open(f));
    StepReaches(f, l, s, |f| + 1);
  }

  /** The parser reads a file line by line as it is meant. */
  lemma {:induction false} FileReached(f: seq<FileLine>, bom: bool)
    requires ValidFile(f) && StartOk(f, bom)
    ensures Reached(f, ParseAll(RenderedLines(f, bom)))
  {
    hide Reached, WellFormed, Fits, HasBom, Text, ParseAll, Open, LineText;
    if f == [] {
      NothingReached();
    } else {
      var n := |f| - 1;
      assert n > 0 ==> f[..n][0] == f[0];
      FileReached(f[..n], bom);
      RenderedCount(f[..n], bom);
      NextLine(f[..n], f[n], bom, RenderedLines(f[..n], bom));
      assert f == f[..n] + [f[n]];
    }
  }

  lemma OpenOf(f: seq<FileLine>, s: State)
    requires Reached(f, s)
    ensures Open(f) == (s.prevName != "") && (f == [] ==> !Open(f))
  {
  }

  lemma StepReaches(f: seq<FileLine>, l: FileLine, s: State, lineno: nat)
    requires Reached(f, s) && WellFormed(l) && Fits(l, Open(f))
    ensures Reached(f + [l], Apply(s, Meaning(l), lineno))
  {
    hide Reached, Apply, Text, Spaces, ValueOk;
    match l
    case Set(_, _, _, _, _, _, _, _) => SetReaches(f, l, s, lineno);
    case Further(_, _, _, _) => FurtherReaches(f, l, s, lineno);
    case _ => QuietReaches(f, l, s, lineno);
  }

  lemma NothingReached()
    ensures Reached([], ParseAll([]))
  {
  }

  lemma {:induction false} RenderedCount(f: seq<FileLine>, bom: bool)
    ensures |RenderedLines(f, bom)| == |f|
  {
    hide LineText;
    if f != [] { RenderedCount(f[..|f| - 1], bom); }
  }

  /** Names without separators, and no empty further lines. */
  predicate EntryOk(e: Entry) {
    '=' !in e.name && forall m :: m in e.more ==> m != []
  }

  lemma {:induction false} EntriesOk(f: seq<FileLine>)
    requires ValidFile(f)
    ensures forall e :: e in Entries(f) ==> EntryOk(e)
  {
    hide Text, OneLine, Spaces, Fits;
    if f != [] {
      var before := Entries(f[..|f| - 1]);
      EntriesOk(f[..|f| - 1]);
      if f[|f| - 1].Further? && before != [] {
        assert before[|before| - 1] in before;
      }
    }
  }

  // ----- What ends up under a key

  /** A further line of a value. */
  function Add(before: string, value: string): string {
    (if |before| > 0 then before + "\n" else before) + value
  }

  function AddAll(before: string, more: seq<string>): string
    decreases more
  {
    if more == [] then before else AddAll(Add(before, more[0]), more[1..])
  }

  /** Further lines, each after a newline. */
  function Tail(more: seq<string>): string {
    if more == [] then [] else "\n" + more[0] + Tail(more[1..])
  }

  /** The whole value of an entry: its lines with newlines between them, without an empty first line. */
  function TextOf(e: Entry): string {
    if e.value == [] && e.more != [] then e.more[0] + Tail(e.more[1..]) else e.value + Tail(e.more)
  }

  lemma {:induction false} AddAllTail(before: string, more: seq<string>)
    requires before != [] && forall m :: m in more ==> m != []
    ensures AddAll(before, more) == before + Tail(more)
    decreases more
  {
    if more == [] {
      assert before + [] == before;
    } else {
      assert more[0] in more && forall m :: m in more[1..] ==> m in more;
      AddAllTail(Add(before, more[0]), more[1..]);
      assert before + "\n" + more[0] + Tail(more[1..]) == before + ("\n" + more[0] + Tail(more[1..]));
    }
  }

  lemma AddAllIsText(e: Entry)
    requires EntryOk(e)
    ensures AddAll(e.value, e.more) == TextOf(e)
  {
    hide Tail;
    if e.value != [] {
      AddAllTail(e.value, e.more);
    } else if e.more != [] {
      var m := e.more[0];
      assert m in e.more && forall x :: x in e.more[1..] ==> x in e.more;
      assert Add(e.value, m) == m;
      AddAllTail(m, e.more[1..]);
    } else {
      assert Tail([]) == [] by { NoTail(); }
    }
  }

  lemma NoTail()
    ensures Tail([]) == []
  {
  }

  /** What handing over `settings` makes of the value of a key. */
  function Collect(before: string, settings: seq<Setting>, key: string): string
    decreases settings
  {
    if settings == [] then before
    else Collect(if SettingKey(settings[0]) == key then Add(before, settings[0].value) else before, settings[1..], key)
  }

  function Lookup(values: Values, key: string): string {
    if key in values then values[key] else ""
  }

  lemma {:induction false} HandleAllByKey(values: Values, settings: seq<Setting>, key: string)
    ensures Lookup(HandleAll(values, settings), key) == Collect(Lookup(values, key), settings, key)
    ensures key in HandleAll(values, settings) <==> key in values || exists s :: s in settings && SettingKey(s) == key
    decreases settings
  {
    hide MakeKey;
    if settings != [] {
      var s := settings[0];
      HandleAllByKey(Handle(values, s.section, s.name, s.value), settings[1..], key);
    }
  }

  predicate Without(settings: seq<Setting>, key: string) {
    forall s :: s in settings ==> SettingKey(s) != key
  }

  lemma {:induction false} CollectNothing(before: string, settings: seq<Setting>, key: string)
    requires Without(settings, key)
    ensures Collect(before, settings, key) == before
  {
    hide SettingKey;
    if settings != [] { CollectNothing(before, settings[1..], key); }
  }

  lemma {:induction false} CollectConcat(before: string, a: seq<Setting>, b: seq<Setting>, key: string)
    ensures Collect(before, a + b, key) == Collect(Collect(before, a, key), b, key)
    decreases a
  {
    hide SettingKey;
    if a == [] {
      assert a + b == b;
    } else {
      assert (a + b)[1..] == a[1..] + b;
      CollectConcat(if SettingKey(a[0]) == key then Add(before, a[0].value) else before, a[1..], b, key);
    }
  }

  lemma {:induction false} CollectMore(before: string, section: string, name: string, more: seq<string>)
    ensures Collect(before, MoreSettings(section, name, more), MakeKey(section, name)) == AddAll(before, more)
    decreases more
  {
    hide MakeKey;
    if more != [] { CollectMore(Add(before, more[0]), section, name, more[1..]); }
  }

  lemma {:induction false} MoreSettingsKey(section: string, name: string, more: seq<string>)
    ensures forall s :: s in MoreSettings(section, name, more) ==> SettingKey(s) == MakeKey(section, name)
  {
    hide MakeKey;
    if more != [] { MoreSettingsKey(section, name, more[1..]); }
  }

  lemma {:induction false} AddAllGrows(before: string, more: seq<string>)
    requires forall m :: m in more ==> m != []
    ensures |AddAll(before, more)| >= |before| && (more != [] ==> |AddAll(before, more)| > |before|)
    decreases more
  {
    if more != [] {
      assert more[0] in more && forall m :: m in more[1..] ==> m in more;
      AddAllGrows(Add(before, more[0]), more[1..]);
    }
  }

  /** The parser remembers the name of an entry for all its lines. */
  predicate Remembered(e: Entry) {
    e.more == [] || |e.name| < 50
  }

  /** An entry's own settings give its own value, or only the first line if its name is forgotten. */
  lemma CollectOwn(e: Entry)
    requires EntryOk(e)
    ensures Collect("", SettingsOf(e), KeyOf(e)) == if Remembered(e) then TextOf(e) else e.value
  {
    hide MakeKey, Collect, AddAll, TextOf;
    AddAllIsText(e);
    var first, name := Setting(e.section, e.name, e.value), Fit(e.name, MAX_NAME);
    var more := MoreSettings(e.section, name, e.more);
    CollectConcat("", [first], more, KeyOf(e));
    assert Collect("", [first], KeyOf(e)) == e.value by { CollectOne(first); }
    if Remembered(e) {
      if e.more == [] { CollectNone(e.value, KeyOf(e)); } else { CollectMore(e.value, e.section, e.name, e.more); }
    } else {
      MoreSettingsKey(e.section, name, e.more);
      CutKeyDiffers(e, e);
      CollectNothing(e.value, more, KeyOf(e));
    }
  }

  lemma CollectOne(s: Setting)
    ensures Collect("", [s], SettingKey(s)) == s.value
  {
    hide MakeKey;
    assert "" + s.value == s.value;
  }

  lemma CollectNone(before: string, key: string)
    ensures Collect(before, [], key) == before && AddAll(before, []) == before
  {
  }

  /** A name that was cut is not one that would be. */
  lemma CutKeyDiffers(e: Entry, o: Entry)
    requires '=' !in e.name && '=' !in o.name && |e.name| >= MAX_NAME
    ensures MakeKey(o.section, Fit(o.name, MAX_NAME)) != KeyOf(e)
  {
    hide MakeKey;
    var cut := o.(name := Fit(o.name, MAX_NAME));
    assert '=' !in cut.name;
    KeysAreCaseInsensitive(cut, e);
  }

  /** The settings of another entry leave a key alone. */
  lemma OthersWithout(e: Entry, o: Entry)
    requires EntryOk(e) && EntryOk(o) && KeyOf(e) != KeyOf(o) && (Remembered(o) || !Remembered(e))
    ensures Without(SettingsOf(o), KeyOf(e))
  {
    hide MakeKey;
    MoreSettingsKey(o.section, Fit(o.name, MAX_NAME), o.more);
    if !Remembered(e) { CutKeyDiffers(e, o); }
  }

  lemma {:induction false} AllWithout(entries: seq<Entry>, key: string)
    requires forall o :: o in entries ==> Without(SettingsOf(o), key)
    ensures Without(AllSettings(entries), key)
  {
    hide SettingsOf, SettingKey;
    if entries != [] {
      assert entries[0] in entries;
      AllWithout(entries[1..], key);
    }
  }

  lemma OthersLeaveAlone(entries: seq<Entry>, i: nat)
    requires i < |entries| && (forall e :: e in entries ==> EntryOk(e)) && DistinctKeys(entries)
    requires (forall e :: e in entries ==> Remembered(e)) || !Remembered(entries[i])
    ensures Without(AllSettings(entries[..i]), KeyOf(entries[i]))
    ensures Without(AllSettings(entries[i + 1..]), KeyOf(entries[i]))
  {
    hide SettingsOf, AllSettings, MakeKey, EntryOk, Remembered, Without;
    var e := entries[i];
    assert e in entries;
    forall j | 0 <= j < |entries| && j != i
      ensures Without(SettingsOf(entries[j]), KeyOf(e))
    {
      assert entries[j] in entries && KeyOf(entries[j]) != KeyOf(e);
      OthersWithout(e, entries[j]);
    }
    AllWithout(entries[..i], KeyOf(e));
    AllWithout(entries[i + 1..], KeyOf(e));
  }

  lemma SettingsAround(entries: seq<Entry>, i: nat)
    requires i < |entries|
    ensures AllSettings(entries) ==
      AllSettings(entries[..i]) + (SettingsOf(entries[i]) + AllSettings(entries[i + 1..]))
  {
    hide SettingsOf, AllSettings;
    var e, a, b := entries[i], entries[..i], entries[i + 1..];
    Parts(entries, i);
    var rest := [e] + b;
    AllSettingsConcat(a, rest);
    AllSettingsConcat([e], b);
    OneEntry(e);
  }

  lemma Parts(entries: seq<Entry>, i: nat)
    requires i < |entries|
    ensures entries[..i] + ([entries[i]] + entries[i + 1..]) == entries
  {
  }

  /** What is collected for an entry among others with other keys. */
  lemma CollectAmong(entries: seq<Entry>, i: nat)
    requires i < |entries| && (forall e :: e in entries ==> EntryOk(e)) && DistinctKeys(entries)
    requires (forall e :: e in entries ==> Remembered(e)) || !Remembered(entries[i])
    ensures Collect("", AllSettings(entries), KeyOf(entries[i])) ==
      if Remembered(entries[i]) then TextOf(entries[i]) else entries[i].value
  {
    hide SettingsOf, Collect, AllSettings, MakeKey, EntryOk, TextOf, Remembered, Without, DistinctKeys;
    var e := entries[i];
    var a, b, own := AllSettings(entries[..i]), AllSettings(entries[i + 1..]), SettingsOf(e);
    OthersLeaveAlone(entries, i);
    SettingsAround(entries, i);
    CollectConcat("", a, own + b, KeyOf(e));
    CollectConcat("", own, b, KeyOf(e));
    CollectNothing("", a, KeyOf(e));
    CollectNothing(Collect("", own, KeyOf(e)), b, KeyOf(e));
    assert e in entries;
    CollectOwn(e);
  }

  lemma {:induction false} KeyPresent(entries: seq<Entry>, i: nat)
    requires i < |entries|
    ensures exists s :: s in AllSettings(entries) && SettingKey(s) == KeyOf(entries[i])
  {
    hide MakeKey;
    if i == 0 {
      var e := entries[0];
      var s := Setting(e.section, e.name, e.value);
      assert AllSettings(entries)[0] == s;
      assert s in AllSettings(entries) && SettingKey(s) == KeyOf(e);
    } else {
      KeyPresent(entries[1..], i - 1);
      var s :| s in AllSettings(entries[1..]) && SettingKey(s) == KeyOf(entries[i]);
      assert s in AllSettings(entries);
    }
  }

  /** What is known after a file is read. */
  lemma FileRead(f: seq<FileLine>, bom: bool)
    requires ValidFile(f) && StartOk(f, bom)
    ensures var s := ParseAll(Lines(Render(f, bom)));
      && s.error == 0 && s.sections == SectionsOf(Entries(f))
      && s.values == HandleAll(map[], AllSettings(Entries(f)))
  {
    hide ValidFile, StartOk, Lines, RenderedLines, Join, HandleAll, AllSettings, Open, SectionAt;
    RenderedWhole(f, bom);
    LinesOfJoin(RenderedLines(f, bom));
    FileReached(f, bom);
  }

  /** Whatever is repeated in a file: under a key there are all lines set for it, one below the other. */
  lemma ValueUnderKey(f: seq<FileLine>, bom: bool, section: string, name: string, default: string)
    requires ValidFile(f) && StartOk(f, bom)
    ensures var settings, key := AllSettings(Entries(f)), MakeKey(section, name);
      Get(ParseAll(Lines(Render(f, bom))).values, section, name, default) ==
      if Without(settings, key) then default else Collect("", settings, key)
  {
    hide Lines, ParseAll, Render, ValidFile, StartOk, MakeKey, HandleAll, AllSettings, Collect, Entries;
    FileRead(f, bom);
    HandleAllByKey(map[], AllSettings(Entries(f)), MakeKey(section, name));
  }

  /** What `Get` returns for an entry after the file is read. */
  lemma ReadBack(f: seq<FileLine>, bom: bool, i: nat, section: string, name: string, default: string)
    requires ValidFile(f) && StartOk(f, bom) && DistinctKeys(Entries(f))
    requires i < |Entries(f)| && KeyOf(Entries(f)[i]) == MakeKey(section, name)
    requires AllRemembered(Entries(f)) || !Remembered(Entries(f)[i])
    ensures var e := Entries(f)[i];
      Get(ParseAll(Lines(Render(f, bom))).values, section, name, default) ==
      if Remembered(e) then TextOf(e) else e.value
  {
    hide Lines, ParseAll, Render, ValidFile, StartOk, MakeKey, TextOf, Remembered, AllSettings, Collect, Entries;
    hide EntryOk;
    EntriesOk(f);
    ValueUnderKey(f, bom, section, name, default);
    CollectAmong(Entries(f), i);
    KeyPresent(Entries(f), i);
  }

  predicate AllRemembered(entries: seq<Entry>) {
    forall e :: e in entries ==> Remembered(e)
  }

  /** Every entry of the file is read back whole, in any letter case. */
  ghost predicate AllReadBack(f: seq<FileLine>, bom: bool, default: string) {
    forall i, section, name :: 0 <= i < |Entries(f)| && KeyOf(Entries(f)[i]) == MakeKey(section, name) ==>
      Get(ParseAll(Lines(Render(f, bom))).values, section, name, default) == TextOf(Entries(f)[i])
  }

  /** A file, however it is laid out, is read without an error. Each entry is read back whole, with all
      its lines, exactly when no entry of several lines has a name longer than the parser remembers. */
  lemma RoundTrip(f: seq<FileLine>, bom: bool, default: string)
    requires ValidFile(f) && StartOk(f, bom) && DistinctKeys(Entries(f))
    ensures var s := ParseAll(Lines(Render(f, bom))); s.error == 0 && s.sections == SectionsOf(Entries(f))
    ensures AllReadBack(f, bom, default) <==> AllRemembered(Entries(f))
  {
    hide Lines, ParseAll, Render, ValidFile, StartOk, MakeKey, TextOf, Get, Entries, Remembered, EntryOk;
    FileRead(f, bom);
    EntriesOk(f);
    if AllRemembered(Entries(f)) {
      forall i, section, name | 0 <= i < |Entries(f)| && KeyOf(Entries(f)[i]) == MakeKey(section, name)
        ensures Get(ParseAll(Lines(Render(f, bom))).values, section, name, default) == TextOf(Entries(f)[i])
      {
        assert Entries(f)[i] in Entries(f);
        ReadBack(f, bom, i, section, name, default);
      }
    } else {
      var e :| e in Entries(f) && !Remembered(e);
      var i :| 0 <= i < |Entries(f)| && Entries(f)[i] == e;
      ReadBack(f, bom, i, e.section, e.name, default);
      TextIsLonger(e);
    }
  }

  lemma TextIsLonger(e: Entry)
    requires EntryOk(e) && !Remembered(e)
    ensures TextOf(e) != e.value
  {
    hide TextOf;
    AddAllIsText(e);
    AddAllGrows(e.value, e.more);
  }

  /** And every other key has its default, in any letter case. */
  lemma OtherKeysAreDefault(f: seq<FileLine>, bom: bool, section: string, name: string, default: string)
    requires ValidFile(f) && StartOk(f, bom) && AllRemembered(Entries(f))
    requires forall e :: e in Entries(f) ==> KeyOf(e) != MakeKey(section, name)
    ensures Get(ParseAll(Lines(Render(f, bom))).values, section, name, default) == default
  {
    hide Lines, ParseAll, Render, ValidFile, StartOk, MakeKey, AllSettings, Collect, SettingsOf, Entries, Remembered;
    var key := MakeKey(section, name);
    ValueUnderKey(f, bom, section, name, default);
    forall e | e in Entries(f)
      ensures Without(SettingsOf(e), key)
    {
      OwnKeyOnly(e, key);
    }
    AllWithout(Entries(f), key);
  }

  lemma OwnKeyOnly(e: Entry, key: string)
    requires Remembered(e) && KeyOf(e) != key
    ensures Without(SettingsOf(e), key)
  {
    hide MakeKey;
    MoreSettingsKey(e.section, Fit(e.name, MAX_NAME), e.more);
    if e.more == [] { assert MoreSettings(e.section, Fit(e.name, MAX_NAME), e.more) == []; }
  }

  /** A light of a configuration file: its type is read without the white space and the comment. */
  lemma SampleLight(head: FileLine, pair: FileLine)
    requires head == Head("", "light1", "") && pair == Set("", "type", " ", '=', " ", "uv", " ", ";dim")
    ensures Text(head) == "[light1]" && Text(pair) == "type = uv ;dim"
    ensures Get(ParseAll(Lines(Render([head, pair], false))).values, "Light1", "TYPE", "rgb") == "uv"
  {
    hide Lines, ParseAll, MakeKey, Get, WellFormed, Render;
    var f, e := [head, pair], Entry("light1", "type", "uv", []);
    HeadIsWellFormed(head);
    SetIsWellFormed(pair);
    assert f[..1] == [head] && f[..1][..0] == [];
    assert ValidFile([head]) && !Open([head]) && SectionAt([head]) == "light1" && Entries([head]) == [];
    assert ValidFile(f) && Entries(f) == [e];
    assert KeyOf(e) == MakeKey("Light1", "TYPE") by { KeysAreCaseInsensitive(e, Entry("Light1", "TYPE", "", [])); }
    ReadBack(f, false, 0, "Light1", "TYPE", "rgb");
    assert TextOf(e) == "uv" by { NoTail(); assert "uv" + "" == "uv"; }
  }

  lemma HeadIsWellFormed(head: FileLine)
    requires head == Head("", "light1", "")
    ensures WellFormed(head) && Text(head) == "[light1]" && !HasBom(Text(head))
  {
    assert Text(head) == "[light1]";
  }

  lemma SetIsWellFormed(pair: FileLine)
    requires pair == Set("", "type", " ", '=', " ", "uv", " ", ";dim")
    ensures WellFormed(pair) && Text(pair) == "type = uv ;dim"
  {
    assert Text(pair) == "type = uv ;dim";
    SampleNameAndValue();
    hide NameOk, ValueOk;
  }

  lemma SampleNameAndValue()
    ensures NameOk("type") && ValueOk("uv", " ", ";dim") && Spaces(" ") && Spaces("")
  {
  }

  /** The same letter in either case, or the same character. */
  predicate SameLetter(c: char, d: char) {
    || c == d
    || ('A' <= c <= 'Z' && d as int == c as int + 32)
    || ('A' <= d <= 'Z' && c as int == d as int + 32)
  }

  predicate SameText(a: string, b: string) {
    |a| == |b| && forall i :: 0 <= i < |a| ==> SameLetter(a[i], b[i])
  }

  lemma LowerSame(a: string, b: string)
    ensures Lower(a) == Lower(b) <==> SameText(a, b)
  {
    forall i | 0 <= i < |a| && i < |b|
      ensures Lower(a)[i] == Lower(b)[i] <==> SameLetter(a[i], b[i])
    {
      LetterSame(a[i], b[i]);
    }
    if Lower(a) == Lower(b) {
      assert |a| == |Lower(a)| == |Lower(b)| == |b|;
    }
  }

  lemma LetterSame(c: char, d: char)
    ensures ToLower(c) == ToLower(d) <==> SameLetter(c, d)
  {
  }

  /** Names without an equals sign: two entries have the same key exactly when section and name agree
      up to letter case. */
  lemma KeysAreCaseInsensitive(a: Entry, b: Entry)
    requires '=' !in a.name && '=' !in b.name
    ensures KeyOf(a) == KeyOf(b) <==> SameText(a.section, b.section) && SameText(a.name, b.name)
  {
    hide Lower, SameText;
    LowerSame(a.section, b.section);
    LowerSame(a.name, b.name);
    KeyParts(a);
    KeyParts(b);
    if KeyOf(a) == KeyOf(b) {
      var k, i, j := KeyOf(a), |a.section|, |b.section|;
      LowerSize(a.section);
      LowerSize(b.section);
      LastEquals(Lower(a.section), Lower(a.name), j);
      LastEquals(Lower(b.section), Lower(b.name), i);
      assert Lower(a.section) == k[..i] && Lower(b.section) == k[..j];
      assert Lower(a.name) == k[i + 1..] && Lower(b.name) == k[j + 1..];
    }
  }

  lemma LowerSize(t: string)
    ensures |Lower(t)| == |t|
  {
  }

  /** The separator is the last equals sign of a key. */
  lemma LastEquals(section: string, name: string, j: nat)
    requires '=' !in name
    ensures var k := section + "=" + name; j < |k| && k[j] == '=' ==> j <= |section|
  {
    var k := section + "=" + name;
    assert forall i :: |section| < i < |k| ==> k[i] == name[i - |section| - 1] && name[i - |section| - 1] in name;
  }

  lemma KeyParts(e: Entry)
    requires '=' !in e.name
    ensures KeyOf(e) == Lower(e.section) + "=" + Lower(e.name) && '=' !in Lower(e.name)
  {
    var t := e.section + "=" + e.name;
    assert forall i :: 0 <= i < |e.name| ==> e.name[i] in e.name;
  }
}
