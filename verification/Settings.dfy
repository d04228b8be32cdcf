/** The settings file: printing tables of entries and parsing them back (src/xcpc-settings.cc). */
module Settings {
  import opened Bits

  /** An entry without a value is None. */
  type Table = map<string, Option<string>>
  type Tables = map<string, Table>

  const BUFFER := 1024

  // ---------------------------------------------------------------- strings

  predicate IsSpace(c: char) {
    c in {' ', '\t', 11 as char, 12 as char, '\r', '\n'}
  }

  /** What a C string holds: the characters before the first NUL. */
  function CStr(s: string): string {
    if s == "" || s[0] == '\0' then "" else [s[0]] + CStr(s[1..])
  }

  function TrimFront(s: string): string {
    if s != "" && IsSpace(s[0]) then TrimFront(s[1..]) else s
  }

  function TrimBack(s: string): string {
    if s != "" && IsSpace(s[|s| - 1]) then TrimBack(s[..|s| - 1]) else s
  }

  /** SettingsTraits::trim. */
  function Trim(s: string): string {
    TrimBack(TrimFront(s))
  }

  /** The place of the first such character, or -1. */
  function Find(s: string, c: char): (n: int)
    ensures -1 <= n < |s|
  {
    if s == "" then -1
    else if s[0] == c then 0
    else
      var n := Find(s[1..], c);
      if n < 0 then -1 else n + 1
  }

  /** A string that trimming leaves alone. */
  predicate Trimmed(s: string) {
    s == "" || (!IsSpace(s[0]) && !IsSpace(s[|s| - 1]))
  }

  /** The length of the line fgets takes from a text, with room for max characters. */
  function LineLen(text: string, max: nat): (n: nat)
    ensures n <= |text| && n <= max && (text != "" && max > 0 ==> n > 0)
  {
    if text == "" || max == 0 then 0
    else if text[0] == '\n' then 1
    else 1 + LineLen(text[1..], max - 1)
  }

  // ---------------------------------------------------------------- parsing

  /** The tables read so far, and the current one. */
  datatype State = State(tables: Tables, current: Option<string>)

  predicate StartsKey(c: char) {
    c == '_' || 'a' <= c <= 'z' || 'A' <= c <= 'Z'
  }

  /** SettingsFile::table on names that may be new. */
  function WithTable(t: Tables, name: string): Tables {
    if name in t then t else t[name := map[]]
  }

  function SetEntry(t: Tables, name: string, key: string, val: string): Tables {
    t[name := (if name in t then t[name] else map[])[key := Some(val)]]
  }

  /** One line of the loop of SettingsFile::load. */
  function ParseLine(st: State, raw: string): State {
    var line := Trim(CStr(raw));
    if line == "" then st
    else if line[0] == '[' then
      var end := Find(line, ']');
      if end < 0 then st
      else
        var name := Trim(line[1..end]);
        if name == "" then st else State(WithTable(st.tables, name), Some(name))
    else if StartsKey(line[0]) && st.current.Some? then
      var sep := Find(line, '=');
      if sep < 0 then st
      else
        var key, val := Trim(line[..sep]), Trim(line[sep + 1..]);
        if key == "" then st else st.(tables := SetEntry(st.tables, st.current.value, key, val))
    else st
  }

  /** SettingsFile::load on a text. */
  function Parse(st: State, text: string): State
    decreases |text|
  {
    if text == "" then st
    else
      var n := LineLen(text, BUFFER - 1);
      Parse(ParseLine(st, text[..n]), text[n..])
  }

  // ---------------------------------------------------------------- printing

  function PrintEntry(key: string, val: Option<string>): string {
    match val
    case None => ""
    case Some(v) => CStr(key) + " = " + CStr(v) + "\n"
  }

  function PrintEntries(t: Table, keys: seq<string>): string
    requires forall k :: k in keys ==> k in t
  {
    if keys == [] then "" else PrintEntry(keys[0], t[keys[0]]) + PrintEntries(t, keys[1..])
  }

  function PrintTable(name: string, t: Table, keys: seq<string>): string
    requires forall k :: k in keys ==> k in t
  {
    "\n[" + CStr(name) + "]\n" + PrintEntries(t, keys)
  }

  /** An order in which tables and their entries are printed. */
  type Order = seq<(string, seq<string>)>

  predicate Covers(s: Tables, order: Order) {
    forall i :: 0 <= i < |order| ==> order[i].0 in s && forall k :: k in order[i].1 ==> k in s[order[i].0]
  }

  /** SettingsFile::save. */
  function Print(s: Tables, order: Order): string
    requires Covers(s, order)
  {
    if order == [] then ""
    else PrintTable(order[0].0, s[order[0].0], order[0].1) + Print(s, order[1..])
  }

  // ---------------------------------------------------------------- what can be printed and parsed back

  predicate Plain(s: string) {
    Trimmed(s) && '\n' !in s && '\0' !in s
  }

  predicate NameOk(name: string) {
    name != "" && Plain(name) && ']' !in name && |name| + 3 < BUFFER
  }

  predicate EntryOk(key: string, val: string) {
    key != "" && StartsKey(key[0]) && Plain(key) && '=' !in key && Plain(val) && |key| + |val| + 4 < BUFFER
  }

  ghost predicate TableOk(t: Table) {
    forall k :: k in t && t[k].Some? ==> EntryOk(k, t[k].value)
  }

  ghost predicate AllOk(s: Tables) {
    forall n :: n in s ==> NameOk(n) && TableOk(s[n])
  }

  // ---------------------------------------------------------------- lemmas on strings

  lemma {:induction false} CStrPlain(s: string)
    requires '\0' !in s
    ensures CStr(s) == s
  {
    if s != "" {
      CStrPlain(s[1..]);
    }
  }

  lemma TrimPlain(s: string)
    requires Trimmed(s)
    ensures Trim(s) == s
  {
  }

  lemma {:induction false} FindFirst(a: string, c: char, b: string)
    requires c !in a
    ensures Find(a + [c] + b, c) == |a|
  {
    var s := a + [c] + b;
    if a != "" {
      assert s[0] == a[0] && a[0] in a;
      assert s[1..] == a[1..] + [c] + b;
      FindFirst(a[1..], c, b);
    }
  }

  lemma {:induction false} LineEnds(a: string, rest: string, max: nat)
    requires '\n' !in a && |a| < max
    ensures LineLen(a + "\n" + rest, max) == |a| + 1
  {
    var s := a + "\n" + rest;
    if a != "" {
      assert s[0] == a[0] && a[0] in a;
      assert s[1..] == a[1..] + "\n" + rest;
      LineEnds(a[1..], rest, max - 1);
    }
  }

  lemma BackStep(s: string, c: char)
    requires IsSpace(c)
    ensures TrimBack(s + [c]) == TrimBack(s)
  {
    assert (s + [c])[..|s|] == s;
  }

  lemma FrontStep(s: string, c: char)
    requires IsSpace(c)
    ensures TrimFront([c] + s) == TrimFront(s)
  {
    assert ([c] + s)[1..] == s;
  }

  /** Trimming takes a space off either end of a trimmed string. */
  lemma TrimOneBack(s: string, c: char)
    requires Trimmed(s) && IsSpace(c)
    ensures Trim(s + [c]) == s
  {
    BackStep(s, c);
    FrontStep("", c);
    assert [c] + "" == "" + [c];
  }

  lemma TrimOneFront(s: string, c: char)
    requires Trimmed(s) && IsSpace(c)
    ensures Trim([c] + s) == s
  {
    FrontStep(s, c);
  }

  // ---------------------------------------------------------------- parsing what was printed

  /** A printed line is taken whole. */
  lemma LineTaken(st: State, a: string, rest: string)
    requires '\n' !in a && |a| + 1 < BUFFER
    ensures Parse(st, a + "\n" + rest) == Parse(ParseLine(st, a + "\n"), rest)
  {
    hide ParseLine, LineLen;
    LineEnds(a, rest, BUFFER - 1);
    var s := a + "\n" + rest;
    assert s[..|a| + 1] == a + "\n" && s[|a| + 1..] == rest;
  }

  lemma BlankLine(st: State, rest: string)
    ensures Parse(st, "\n" + rest) == Parse(st, rest)
  {
    LineTaken(st, "", rest);
    assert "" + "\n" + rest == "\n" + rest && "" + "\n" == "\n";
    CStrPlain("\n");
    TrimOneBack("", '\n');
    assert "" + ['\n'] == "\n";
  }

  lemma NameLine(st: State, name: string)
    requires NameOk(name)
    ensures ParseLine(st, "[" + name + "]" + "\n") == State(WithTable(st.tables, name), Some(name))
  {
    hide CStr, Trim, Find;
    var line := "[" + name + "]";
    CStrPlain(line + "\n");
    TrimOneBack(line, '\n');
    assert line + ['\n'] == line + "\n";
    FindFirst("[" + name, ']', "");
    assert "[" + name + [']'] + "" == line;
    assert line[1..|name| + 1] == name;
    TrimPlain(name);
  }

  lemma TableLine(st: State, name: string, rest: string)
    requires NameOk(name)
    ensures Parse(st, "\n[" + CStr(name) + "]\n" + rest) == Parse(State(WithTable(st.tables, name), Some(name)), rest)
  {
    hide Parse, ParseLine, Trimmed;
    CStrPlain(name);
    var line := "[" + name + "]";
    assert "\n[" + name + "]\n" + rest == "\n" + (line + "\n" + rest);
    BlankLine(st, line + "\n" + rest);
    LineTaken(st, line, rest);
    NameLine(st, name);
  }

  /** The printed line of an entry, without its end. */
  function EntryText(key: string, val: string): string {
    key + " = " + val
  }

  /** What is left of an entry line when it is trimmed. */
  function EntryCore(key: string, val: string): string {
    if val == "" then key + " =" else EntryText(key, val)
  }

  lemma EntryTrims(key: string, val: string)
    requires EntryOk(key, val)
    ensures Trim(EntryText(key, val) + "\n") == EntryCore(key, val)
  {
    var t := EntryText(key, val);
    assert t[0] == key[0];
    if val == "" {
      var core := key + " =";
      assert t + "\n" == core + [' '] + ['\n'];
      BackStep(core + [' '], '\n');
      BackStep(core, ' ');
      assert core[|core| - 1] == '=';
    } else {
      assert t[|t| - 1] == val[|val| - 1];
      TrimOneBack(t, '\n');
      assert t + ['\n'] == t + "\n";
    }
  }

  lemma EntrySplits(key: string, val: string)
    requires EntryOk(key, val)
    ensures var core := EntryCore(key, val); var sep := Find(core, '=');
      sep >= 0 && Trim(core[..sep]) == key && Trim(core[sep + 1..]) == val && core != "" && core[0] == key[0]
  {
    hide Find, Trim;
    var core := EntryCore(key, val);
    var tail := if val == "" then "" else " " + val;
    assert '=' !in key + " ";
    assert core == key + " " + ['='] + tail;
    FindFirst(key + " ", '=', tail);
    assert core[..|key| + 1] == key + [' '] && core[|key| + 2..] == tail;
    TrimOneBack(key, ' ');
    if val == "" {
      TrimPlain("");
    } else {
      TrimOneFront(val, ' ');
      assert [' '] + val == tail;
    }
  }

  lemma EntryLine(st: State, key: string, val: string)
    requires EntryOk(key, val) && st.current.Some?
    ensures ParseLine(st, EntryText(key, val) + "\n") == st.(tables := SetEntry(st.tables, st.current.value, key, val))
  {
    hide CStr, Trim, Find, EntryCore, EntryText;
    assert '\0' !in EntryText(key, val) + "\n" by {
      NoNul(key, val);
    }
    CStrPlain(EntryText(key, val) + "\n");
    EntryTrims(key, val);
    EntrySplits(key, val);
  }

  lemma NoNul(key: string, val: string)
    requires EntryOk(key, val)
    ensures '\0' !in EntryText(key, val) + "\n" && '\n' !in EntryText(key, val)
    ensures |EntryText(key, val)| == |key| + |val| + 3
  {
  }

  /** What parsing the printed entries of a table does to the table. */
  function AddEntries(into: Table, t: Table, keys: seq<string>): Table
    requires forall k :: k in keys ==> k in t
    decreases |keys|
  {
    if keys == [] then into
    else AddEntries(if t[keys[0]].Some? then into[keys[0] := t[keys[0]]] else into, t, keys[1..])
  }

  lemma {:induction false} EntriesParse(st: State, name: string, t: Table, keys: seq<string>, rest: string)
    requires TableOk(t) && (forall k :: k in keys ==> k in t) && st.current == Some(name) && name in st.tables
    ensures Parse(st, PrintEntries(t, keys) + rest) ==
      Parse(st.(tables := st.tables[name := AddEntries(st.tables[name], t, keys)]), rest)
    decreases |keys|
  {
    hide Parse, ParseLine, EntryOk, CStr, PrintEntry, EntryText;
    if keys == [] {
      assert "" + rest == rest;
      assert st.tables[name := st.tables[name]] == st.tables;
    } else {
      var k, tail := keys[0], PrintEntries(t, keys[1..]) + rest;
      Assoc(PrintEntry(k, t[k]), PrintEntries(t, keys[1..]), rest);
      var next := if t[k].Some? then st.(tables := SetEntry(st.tables, name, k, t[k].value)) else st;
      OneEntry(st, name, t, k, tail);
      EntriesParse(next, name, t, keys[1..], rest);
      assert next.tables[name := AddEntries(next.tables[name], t, keys[1..])] ==
        st.tables[name := AddEntries(st.tables[name], t, keys)];
    }
  }

  lemma OneEntry(st: State, name: string, t: Table, k: string, tail: string)
    requires TableOk(t) && k in t && st.current == Some(name)
    ensures Parse(st, PrintEntry(k, t[k]) + tail) ==
      Parse(if t[k].Some? then st.(tables := SetEntry(st.tables, name, k, t[k].value)) else st, tail)
  {
    hide Parse, ParseLine, EntryOk, CStr, EntryText;
    if t[k].None? {
      assert "" + tail == tail;
    } else {
      PrintedEntry(k, t[k].value);
      LineTaken(st, EntryText(k, t[k].value), tail);
      EntryLine(st, k, t[k].value);
    }
  }

  lemma PrintedEntry(key: string, val: string)
    requires EntryOk(key, val)
    ensures PrintEntry(key, Some(val)) == EntryText(key, val) + "\n"
    ensures '\n' !in EntryText(key, val) && |EntryText(key, val)| + 1 < BUFFER
  {
    CStrPlain(key);
    CStrPlain(val);
    NoNul(key, val);
  }

  /** What parsing the printed tables does to the tables. */
  function AddTables(into: Tables, s: Tables, order: Order): Tables
    requires Covers(s, order)
    decreases |order|
  {
    if order == [] then into
    else
      var (name, keys) := order[0];
      var t := WithTable(into, name);
      AddTables(t[name := AddEntries(t[name], s[name], keys)], s, order[1..])
  }

  lemma {:induction false} TablesParse(st: State, s: Tables, order: Order)
    requires AllOk(s) && Covers(s, order)
    ensures Parse(st, Print(s, order)).tables == AddTables(st.tables, s, order)
    decreases |order|
  {
    hide Parse, NameOk, TableOk, CStr, PrintEntries;
    if order == [] {
      NothingParses(st);
    } else {
      var (name, keys) := order[0];
      var t := WithTable(st.tables, name);
      var tail := Print(s, order[1..]);
      assert Print(s, order) == "\n[" + CStr(name) + "]\n" + (PrintEntries(s[name], keys) + tail);
      TableLine(st, name, PrintEntries(s[name], keys) + tail);
      EntriesParse(State(t, Some(name)), name, s[name], keys, tail);
      TablesParse(State(t[name := AddEntries(t[name], s[name], keys)], Some(name)), s, order[1..]);
    }
  }

  lemma NothingParses(st: State)
    ensures Parse(st, "") == st
  {
  }

  // ---------------------------------------------------------------- the round trip

  /** Every table, with the entries that have a value. */
  ghost function Valued(s: Tables): Tables {
    map n | n in s :: ValuedTable(s[n])
  }

  ghost function ValuedTable(t: Table): Table {
    map k | k in t && t[k].Some? :: t[k]
  }

  ghost predicate Distinct(keys: seq<string>) {
    forall i, j :: 0 <= i < j < |keys| ==> keys[i] != keys[j]
  }

  /** The keys of a table, each once. */
  ghost predicate Listing(t: Table, keys: seq<string>) {
    (forall k :: k in keys <==> k in t) && Distinct(keys)
  }

  /** No entry of a table is named twice. */
  ghost predicate Once(order: Order) {
    forall i :: 0 <= i < |order| ==> Distinct(order[i].1)
  }

  /** The order names every table once, and for each its entries. */
  ghost predicate Complete(s: Tables, order: Order) {
    && Covers(s, order)
    && (forall n :: n in s ==> exists i :: 0 <= i < |order| && order[i].0 == n)
    && (forall i, j :: 0 <= i < j < |order| ==> order[i].0 != order[j].0)
    && (forall i, k :: 0 <= i < |order| && k in s[order[i].0] ==> k in order[i].1)
  }

  lemma {:induction false} EntriesAdded(into: Table, t: Table, keys: seq<string>)
    requires forall k :: k in keys ==> k in t
    ensures forall k :: k in AddEntries(into, t, keys) <==> (k in into || (k in keys && t[k].Some?))
    ensures forall k :: k in AddEntries(into, t, keys) ==>
              AddEntries(into, t, keys)[k] == if k in keys && t[k].Some? then t[k] else into[k]
    decreases |keys|
  {
    if keys != [] {
      EntriesAdded(if t[keys[0]].Some? then into[keys[0] := t[keys[0]]] else into, t, keys[1..]);
    }
  }

  lemma {:induction false} TablesAdded(into: Tables, s: Tables, order: Order)
    requires Covers(s, order) && (forall i, j :: 0 <= i < j < |order| ==> order[i].0 != order[j].0)
    requires forall i :: 0 <= i < |order| ==> order[i].0 !in into
    requires forall i, k :: 0 <= i < |order| && k in s[order[i].0] ==> k in order[i].1
    ensures var r := AddTables(into, s, order);
      && (forall n :: n in into ==> n in r && r[n] == into[n])
      && (forall i :: 0 <= i < |order| ==> order[i].0 in r && r[order[i].0] == ValuedTable(s[order[i].0]))
      && (forall n :: n in r ==> n in into || exists i :: 0 <= i < |order| && order[i].0 == n)
    decreases |order|
  {
    if order != [] {
      var (name, keys) := order[0];
      var t := WithTable(into, name);
      EntriesAdded(map[], s[name], keys);
      var added := AddEntries(t[name], s[name], keys);
      assert added == ValuedTable(s[name]);
      var next := t[name := added];
      TablesAdded(next, s, order[1..]);
      var r := AddTables(next, s, order[1..]);
      assert name in next;
      forall i | 0 <= i < |order|
        ensures order[i].0 in r && r[order[i].0] == ValuedTable(s[order[i].0])
      {
        if i > 0 {
          assert order[i] == order[1..][i - 1];
        }
      }
      forall n | n in r
        ensures n in into || exists i :: 0 <= i < |order| && order[i].0 == n
      {
        if n !in next {
          var i :| 0 <= i < |order[1..]| && order[1..][i].0 == n;
          assert order[i + 1].0 == n;
        } else if n == name {
          assert order[0].0 == n;
        }
      }
    }
  }

  /** The round trip: loading what was saved into a fresh file restores every table and every entry with
      a value, in whatever order they are printed. */
  lemma SettingsRoundTrip(s: Tables, order: Order)
    requires AllOk(s) && Complete(s, order)
    ensures Parse(State(map[], None), Print(s, order)).tables == Valued(s)
  {
    hide Parse, ValuedTable, NameOk, TableOk, Print, AddTables;
    TablesParse(State(map[], None), s, order);
    TablesAdded(map[], s, order);
    var r := AddTables(map[], s, order);
    assert forall n :: n in s ==> n in r && r[n] == ValuedTable(s[n]);
    assert forall n :: n in r ==> n in s;
  }

  // ---------------------------------------------------------------- the file object

  lemma {:induction false} EntriesSnoc(t: Table, keys: seq<string>, k: string)
    requires (forall x :: x in keys ==> x in t) && k in t
    ensures forall x :: x in keys + [k] ==> x in t
    ensures PrintEntries(t, keys + [k]) == PrintEntries(t, keys) + PrintEntry(k, t[k])
    decreases |keys|
  {
    hide PrintEntry;
    if keys == [] {
      assert keys + [k] == [k] && [k][1..] == [];
      assert PrintEntry(k, t[k]) + "" == PrintEntry(k, t[k]) == "" + PrintEntry(k, t[k]);
    } else {
      assert (keys + [k])[1..] == keys[1..] + [k];
      EntriesSnoc(t, keys[1..], k);
    }
  }

  lemma {:induction false} TablesSnoc(s: Tables, order: Order, name: string, keys: seq<string>)
    requires Covers(s, order) && name in s && forall k :: k in keys ==> k in s[name]
    ensures Covers(s, order + [(name, keys)])
    ensures Print(s, order + [(name, keys)]) == Print(s, order) + PrintTable(name, s[name], keys)
    decreases |order|
  {
    hide PrintTable;
    var o := order + [(name, keys)];
    if order == [] {
      assert o == [(name, keys)] && o[1..] == [];
      assert PrintTable(name, s[name], keys) + "" == PrintTable(name, s[name], keys);
    } else {
      assert o[1..] == order[1..] + [(name, keys)];
      TablesSnoc(s, order[1..], name, keys);
      Assoc(PrintTable(order[0].0, s[order[0].0], order[0].1), Print(s, order[1..]), PrintTable(name, s[name], keys));
    }
  }

  class SettingsFile {
    var tables: Tables

    constructor ()
      ensures tables == map[]
    {
      tables := map[];
    }

    /** SettingsFile::table: the table is made when it is first asked for. */
    method UseTable(name: string)
      modifies this
      ensures tables == WithTable(old(tables), name)
    {
      if name !in tables {
        tables := tables[name := map[]];
      }
    }

    /** SettingsTable::entry on a table, and set_string on the entry. */
    method SetString(name: string, key: string, val: string)
      requires name in tables
      modifies this
      ensures tables == SetEntry(old(tables), name, key, val)
    {
      var table := tables[name];
      if key !in table {
        table := table[key := None];
      }
      table := table[key := Some(val)];
      tables := tables[name := table];
      assert table == old(tables)[name][key := Some(val)];
    }

    /** The switch of load on one line. */
    method LoadLine(current: Option<string>, raw: string) returns (now: Option<string>)
      requires current.Some? ==> current.value in tables
      modifies this
      ensures State(tables, now) == ParseLine(State(old(tables), current), raw)
      ensures now.Some? ==> now.value in tables
    {
      hide Trim, CStr, Find;
      now := current;
      var line := Trim(CStr(raw));
      if line == "" {
        return;
      }
      if line[0] == '[' {
        var end := Find(line, ']');
        FindAfter(line);
        if end >= 0 {
          var name := Trim(line[1..end]);
          if name != "" {
            UseTable(name);
            now := Some(name);
          }
        }
      } else if StartsKey(line[0]) && current.Some? {
        var sep := Find(line, '=');
        FindRange(line, '=');
        if sep >= 0 {
          var key, val := Trim(line[..sep]), Trim(line[sep + 1..]);
          if key != "" {
            SetString(current.value, key, val);
          }
        }
      }
    }

    /** SettingsFile::load, on the text of the file. */
    method Load(text: string)
      modifies this
      ensures tables == Parse(State(old(tables), None), text).tables
    {
      hide ParseLine, LineLen;
      var at, current := 0, None;
      assert text[0..] == text;
      while at < |text|
        invariant 0 <= at <= |text| && (current.Some? ==> current.value in tables)
        invariant Parse(State(tables, current), text[at..]) == Parse(State(old(tables), None), text)
        decreases |text| - at
      {
        var n := LineLen(text[at..], BUFFER - 1);
        LineProgress(text[at..]);
        assert text[at..][..n] == text[at..at + n] && text[at..][n..] == text[at + n..];
        current := LoadLine(current, text[at..at + n]);
        at := at + n;
      }
      assert text[at..] == "";
    }

    /** The entries of one table, in some order. */
    method SaveEntries(name: string) returns (text: string)
      requires name in tables
      ensures exists keys :: Listing(tables[name], keys) && text == PrintEntries(tables[name], keys)
    {
      hide PrintEntry;
      var table := tables[name];
      var left := table.Keys;
      ghost var keys: seq<string> := [];
      text := "";
      while left != {}
        invariant left <= table.Keys && (forall k :: k in keys <==> k in table && k !in left) && Distinct(keys)
        invariant text == PrintEntries(table, keys)
        decreases |left|
      {
        var k :| k in left;
        EntriesSnoc(table, keys, k);
        text := text + PrintEntry(k, table[k]);
        keys := keys + [k];
        left := left - {k};
      }
    }

    /** SettingsFile::save. The order of printing, which the program takes from its maps, is left open. */
    method Save() returns (text: string)
      ensures exists order :: Complete(tables, order) && Once(order) && text == Print(tables, order)
    {
      hide CStr, Printed, Print, Complete, Covers, PrintTable;
      var left := tables.Keys;
      ghost var order: Order := [];
      text := "";
      PrintedNone(tables);
      while left != {}
        invariant left <= tables.Keys && Covers(tables, order) && text == Print(tables, order)
        invariant Printed(tables, order, left) && Once(order)
        decreases |left|
      {
        var n :| n in left;
        var entries := SaveEntries(n);
        ghost var keys :| Listing(tables[n], keys) && entries == PrintEntries(tables[n], keys);
        TablesSnoc(tables, order, n, keys);
        TableText(n, tables[n], keys, entries);
        text := text + ("\n[" + CStr(n) + "]\n" + entries);
        GrownOrder(tables, order, n, keys, left);
        order := order + [(n, keys)];
        left := left - {n};
      }
      PrintedAll(tables, order);
    }
  }

  lemma TableText(name: string, t: Table, keys: seq<string>, entries: string)
    requires (forall k :: k in keys ==> k in t) && entries == PrintEntries(t, keys)
    ensures PrintTable(name, t, keys) == "\n[" + CStr(name) + "]\n" + entries
  {
  }

  /** The tables printed so far, in this order, are those not left, each once and with all its entries. */
  ghost predicate Printed(s: Tables, order: Order, left: set<string>)
    requires Covers(s, order)
  {
    && (forall i :: 0 <= i < |order| ==> order[i].0 !in left)
    && (forall n :: n in s && n !in left ==> exists i :: 0 <= i < |order| && order[i].0 == n)
    && (forall i, j :: 0 <= i < j < |order| ==> order[i].0 != order[j].0)
    && (forall i, k :: 0 <= i < |order| && k in s[order[i].0] ==> k in order[i].1)
  }

  lemma PrintedNone(s: Tables)
    ensures Covers(s, []) && Printed(s, [], s.Keys) && Print(s, []) == ""
  {
  }

  lemma PrintedAll(s: Tables, order: Order)
    requires Covers(s, order) && Printed(s, order, {})
    ensures Complete(s, order)
  {
  }

  /** Appending a table keeps what is known of the order. */
  lemma GrownOrder(s: Tables, order: Order, name: string, keys: seq<string>, left: set<string>)
    requires Covers(s, order) && Printed(s, order, left) && name in left && name in s
    requires forall k :: k in keys <==> k in s[name]
    ensures Covers(s, order + [(name, keys)]) && Printed(s, order + [(name, keys)], left - {name})
  {
    var o := order + [(name, keys)];
    forall n | n in s && n !in left - {name}
      ensures exists i :: 0 <= i < |o| && o[i].0 == n
    {
      if n == name {
        assert o[|order|].0 == n;
      } else {
        var i :| 0 <= i < |order| && order[i].0 == n;
        assert o[i].0 == n;
      }
    }
  }

  lemma FindRange(s: string, c: char)
    ensures -1 <= Find(s, c) < |s|
  {
  }

  lemma FindAfter(s: string)
    requires s != "" && s[0] == '['
    ensures Find(s, ']') != 0
  {
  }

  lemma LineProgress(text: string)
    requires text != ""
    ensures 0 < LineLen(text, BUFFER - 1) <= |text|
  {
  }

  /** Saving settings and loading them into a fresh file. */
  method SaveAndLoad(file: SettingsFile) returns (copy: SettingsFile)
    requires AllOk(file.tables)
    ensures copy.tables == Valued(file.tables)
  {
    hide AllOk, Parse, Print, Valued;
    var text := file.Save();
    ghost var order :| Complete(file.tables, order) && Once(order) && text == Print(file.tables, order);
    copy := new SettingsFile();
    SettingsRoundTrip(file.tables, order);
    copy.Load(text);
  }
}
