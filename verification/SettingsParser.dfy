/** The parser of the kernel configuration settings: lines of the form [name]:value. */
module SettingsParser {
  import opened Common

  const FIELD_SIZE := 32

  predicate IsBreak(c: char) { c == '\r' || c == '\n' }

  /** A character array up to its first NUL. */
  function CString(s: string): string {
    if s == [] || s[0] == '\0' then [] else [s[0]] + CString(s[1..])
  }

  /** The state of the parser: its number and the characters collected in the two buffers. */
  datatype Scan = Scan(state: nat, name: string, val: string)

  /** What one character does, except that a line end after a value also compares the name. */
  function Feed(s: Scan, c: char): Scan {
    match s.state
    case 0 => if c == '[' then Scan(1, [], s.val) else s
    case 1 => if c == ']' then s.(state := 2) else if IsBreak(c) then s.(state := 0) else s.(name := s.name + [c])
    case 2 => if c == ':' then Scan(3, s.name, []) else s.(state := 0)
    case 3 => if IsBreak(c) then s.(state := 0) else s.(val := s.val + [c])
    case _ => s
  }

  /** A value has just ended under the name searched for. */
  predicate Matches(s: Scan, c: char, name: string) {
    s.state == 3 && IsBreak(c) && CString(s.name) == name
  }

  /** The value found by scanning the rest of the text. */
  function Search(text: string, s: Scan, name: string): Option<string> {
    if text == [] then None
    else if Matches(s, text[0], name) then Some(CString(s.val))
    else Search(text[1..], Feed(s, text[0]), name)
  }

  /** The character the parser is about to store, or the terminator, is inside its buffer. */
  predicate InBounds(s: Scan, c: char) {
    && (s.state == 1 && !IsBreak(c) ==> |s.name| < FIELD_SIZE)
    && (s.state == 3 ==> |s.val| < FIELD_SIZE)
  }

  /** No name or value outgrows its buffer. */
  predicate Fits(text: string, s: Scan) {
    text == [] || (InBounds(s, text[0]) && Fits(text[1..], Feed(s, text[0])))
  }

  const INIT := Scan(0, [], [])

  /** What snprintf stores in a buffer of the given size. */
  function Truncated(value: string, size: nat): (r: string)
    ensures r <= value && |r| == if |value| < size then |value| else if size == 0 then 0 else size - 1
  {
    if size == 0 then [] else if |value| < size then value else value[..size - 1]
  }

  /** The parser's loop: a state, an index into the two fixed buffers, and the buffers themselves. */
  method ParseInfo(raw: string, name: string, size: nat) returns (ret: int, val: string)
    requires Fits(raw, INIT)
    ensures match Search(raw, INIT, name)
            case Some(v) => ret == 0 && val == Truncated(v, size)
            case None => ret == -1
  {
    var tmpName := new char[FIELD_SIZE];
    var tmpVal := new char[FIELD_SIZE];
    val := [];
    var state, j := 0, 0;
    ghost var s := INIT;
    for i := 0 to |raw|
      invariant Search(raw, INIT, name) == Search(raw[i..], s, name)
      invariant Fits(raw[i..], s)
      invariant state == s.state <= 3
      invariant state == 1 ==> j == |s.name| <= FIELD_SIZE && tmpName[..j] == s.name
      invariant state >= 2 ==> |s.name| < FIELD_SIZE && tmpName[..|s.name|] == s.name && tmpName[|s.name|] == '\0'
      invariant state == 2 ==> j == 0
      invariant state == 3 ==> j == |s.val| <= FIELD_SIZE && tmpVal[..j] == s.val
    {
      var c := raw[i];
      assert raw[i..][1..] == raw[i + 1..];
      if state == 0 {
        if c == '[' {
          j, state := 0, 1;
        }
      } else if state == 1 {
        if c == ']' {
          state := 2;
          tmpName[j] := '\0';
          j := 0;
        } else if IsBreak(c) {
          j, state := 0, 0;
        } else {
          tmpName[j] := c;
          j := j + 1;
        }
      } else if state == 2 {
        if c == ':' {
          state := 3;
          tmpVal[0] := '\0';
        } else {
          state := 0;
        }
      } else if IsBreak(c) {
        tmpVal[j] := '\0';
        CStringOfBuffer(tmpName[..], s.name);
        CStringOfBuffer(tmpVal[..], s.val);
        j := 0;
        if CString(tmpName[..]) == name {
          return 0, Truncated(CString(tmpVal[..]), size);
        }
        state := 0;
      } else {
        tmpVal[j] := c;
        j := j + 1;
      }
      s := Feed(s, c);
    }
    ret := -1;
  }

  /** A terminated buffer holds the C string of what was stored in front of the terminator. */
  lemma {:induction false} CStringOfBuffer(buffer: string, s: string)
    requires |s| < |buffer| && buffer[..|s|] == s && buffer[|s|] == '\0'
    ensures CString(buffer) == CString(s)
  {
    if s != [] && s[0] != '\0' {
      assert buffer[0] == s[0];
      assert buffer[1..][..|s| - 1] == s[1..];
      CStringOfBuffer(buffer[1..], s[1..]);
    }
  }

  // ---------------------------------------------------------------- the printer

  datatype Entry = Entry(name: string, value: string, terminator: string)

  predicate Printable(e: Entry) {
    && |e.name| < FIELD_SIZE && |e.value| < FIELD_SIZE
    && (forall i :: 0 <= i < |e.name| ==> !IsBreak(e.name[i]) && e.name[i] != ']' && e.name[i] != '\0')
    && (forall i :: 0 <= i < |e.value| ==> !IsBreak(e.value[i]) && e.value[i] != '\0')
    && (e.terminator == "\n" || e.terminator == "\r" || e.terminator == "\r\n")
  }

  function PrintEntry(e: Entry): string {
    "[" + e.name + "]:" + e.value + e.terminator
  }

  function Print(entries: seq<Entry>): string {
    if entries == [] then [] else PrintEntry(entries[0]) + Print(entries[1..])
  }

  /** The value of the first entry with a name. */
  function Lookup(entries: seq<Entry>, name: string): Option<string> {
    if entries == [] then None
    else if entries[0].name == name then Some(entries[0].value)
    else Lookup(entries[1..], name)
  }

  // ---------------------------------------------------------------- the parser undoes the printer

  lemma {:induction false} CStringOfPlain(s: string)
    requires forall i :: 0 <= i < |s| ==> s[i] != '\0'
    ensures CString(s) == s
  {
    if s != [] {
      CStringOfPlain(s[1..]);
    }
  }

  /** Scanning the rest of a name. */
  lemma {:induction false} ScanName(done: string, rest: string, tail: string, val: string, name: string)
    requires |done + rest| < FIELD_SIZE
    requires forall i :: 0 <= i < |rest| ==> !IsBreak(rest[i]) && rest[i] != ']'
    ensures Search(rest + tail, Scan(1, done, val), name) == Search(tail, Scan(1, done + rest, val), name)
    ensures Fits(rest + tail, Scan(1, done, val)) == Fits(tail, Scan(1, done + rest, val))
    decreases |rest|
  {
    if rest == [] {
      assert rest + tail == tail && done + rest == done;
    } else {
      assert (rest + tail)[1..] == rest[1..] + tail && (rest + tail)[0] == rest[0];
      assert (done + [rest[0]]) + rest[1..] == done + rest;
      ScanName(done + [rest[0]], rest[1..], tail, val, name);
    }
  }

  /** Scanning the rest of a value. */
  lemma {:induction false} ScanValue(title: string, done: string, rest: string, tail: string, name: string)
    requires |done + rest| < FIELD_SIZE
    requires forall i :: 0 <= i < |rest| ==> !IsBreak(rest[i])
    ensures Search(rest + tail, Scan(3, title, done), name) == Search(tail, Scan(3, title, done + rest), name)
    ensures Fits(rest + tail, Scan(3, title, done)) == Fits(tail, Scan(3, title, done + rest))
    decreases |rest|
  {
    if rest == [] {
      assert rest + tail == tail && done + rest == done;
    } else {
      assert (rest + tail)[1..] == rest[1..] + tail && (rest + tail)[0] == rest[0];
      assert (done + [rest[0]]) + rest[1..] == done + rest;
      ScanValue(title, done + [rest[0]], rest[1..], tail, name);
    }
  }

  /** Scanning one printed entry either finds its value or goes on behind it. */
  lemma ScanEntry(e: Entry, tail: string, s: Scan, name: string)
    requires Printable(e) && s.state == 0
    ensures var after := Scan(0, e.name, e.value);
            && Search(PrintEntry(e) + tail, s, name) == (if e.name == name then Some(e.value) else Search(tail, after, name))
            && (Fits(tail, after) ==> Fits(PrintEntry(e) + tail, s))
  {
    assert PrintEntry(e) + tail == "[" + (e.name + ("]:" + (e.value + (e.terminator + tail))));
    ScanHead(e.name, e.value + (e.terminator + tail), s, name);
    assert [] + e.value == e.value;
    ScanValue(e.name, [], e.value, e.terminator + tail, name);
    EndOfValue(e, tail, name);
  }

  /** Scanning a printed name brings the parser to the value. */
  lemma ScanHead(title: string, rest: string, s: Scan, name: string)
    requires |title| < FIELD_SIZE && s.state == 0
    requires forall i :: 0 <= i < |title| ==> !IsBreak(title[i]) && title[i] != ']'
    ensures Search("[" + (title + ("]:" + rest)), s, name) == Search(rest, Scan(3, title, []), name)
    ensures Fits("[" + (title + ("]:" + rest)), s) == Fits(rest, Scan(3, title, []))
  {
    assert "]:" + rest == "]" + (":" + rest) && [] + title == title;
    StepOne("[", title + ("]:" + rest), s, name);
    ScanName([], title, "]:" + rest, s.val, name);
    StepOne("]", ":" + rest, Scan(1, title, s.val), name);
    StepOne(":", rest, Scan(2, title, s.val), name);
  }

  /** One character of the text. */
  lemma StepOne(c: string, tail: string, s: Scan, name: string)
    requires |c| == 1 && s.state < 3
    ensures Search(c + tail, s, name) == Search(tail, Feed(s, c[0]), name)
    ensures Fits(c + tail, s) <==> InBounds(s, c[0]) && Fits(tail, Feed(s, c[0]))
  {
    assert (c + tail)[1..] == tail;
  }

  lemma EndOfValue(e: Entry, tail: string, name: string)
    requires Printable(e)
    ensures var after := Scan(0, e.name, e.value);
            && Search(e.terminator + tail, Scan(3, e.name, e.value), name)
               == (if e.name == name then Some(e.value) else Search(tail, after, name))
            && (Fits(tail, after) ==> Fits(e.terminator + tail, Scan(3, e.name, e.value)))
  {
    CStringOfPlain(e.name);
    CStringOfPlain(e.value);
    var after := Scan(0, e.name, e.value);
    if e.terminator == "\r\n" {
      assert (e.terminator + tail)[1..] == "\n" + tail;
      StepOne("\n", tail, after, name);
    } else {
      assert (e.terminator + tail)[1..] == tail;
    }
  }

  lemma {:induction false} ScanEntries(entries: seq<Entry>, s: Scan, name: string)
    requires forall i :: 0 <= i < |entries| ==> Printable(entries[i])
    requires s.state == 0
    ensures Search(Print(entries), s, name) == Lookup(entries, name)
    ensures Fits(Print(entries), s)
  {
    if entries != [] {
      ScanEntry(entries[0], Print(entries[1..]), s, name);
      ScanEntries(entries[1..], Scan(0, entries[0].name, entries[0].value), name);
    }
  }

  /** For every list of entries, the printed text can be parsed without outgrowing the buffers, and
      the parser finds the value of the first entry of the name, or nothing when there is none. */
  lemma ParserUndoesPrinter(entries: seq<Entry>, name: string)
    requires forall i :: 0 <= i < |entries| ==> Printable(entries[i])
    ensures Fits(Print(entries), INIT)
    ensures Search(Print(entries), INIT, name) == Lookup(entries, name)
  {
    ScanEntries(entries, INIT, name);
  }

  // ---------------------------------------------------------------- what is no setting

  /** A piece of a text: a setting, characters outside brackets, a name broken by a line end, or a name in
      brackets that no colon follows. */
  datatype Piece = Setting(entry: Entry) | Outside(text: string) | Broken(title: string, end: char) | Bare(title: string, next: char)

  predicate Title(s: string) {
    |s| < FIELD_SIZE && forall i :: 0 <= i < |s| ==> !IsBreak(s[i]) && s[i] != ']'
  }

  predicate GoodPiece(p: Piece) {
    match p
    case Setting(e) => Printable(e)
    case Outside(text) => '[' !in text
    case Broken(title, end) => Title(title) && IsBreak(end)
    case Bare(title, next) => Title(title) && next != ':'
  }

  function Text(pieces: seq<Piece>): string {
    if pieces == [] then []
    else
      (match pieces[0]
       case Setting(e) => PrintEntry(e)
       case Outside(text) => text
       case Broken(title, end) => "[" + title + [end]
       case Bare(title, next) => "[" + title + "]" + [next]) + Text(pieces[1..])
  }

  function Settings(pieces: seq<Piece>): seq<Entry> {
    if pieces == [] then []
    else (if pieces[0].Setting? then [pieces[0].entry] else []) + Settings(pieces[1..])
  }

  lemma {:induction false} SkipOutside(text: string, tail: string, s: Scan, name: string)
    requires '[' !in text && s.state == 0
    ensures Search(text + tail, s, name) == Search(tail, s, name)
    ensures Fits(text + tail, s) <==> Fits(tail, s)
  {
    if text == [] {
      assert text + tail == tail;
    } else {
      assert (text + tail)[1..] == text[1..] + tail;
      SkipOutside(text[1..], tail, s, name);
    }
  }

  lemma SkipBroken(title: string, end: char, tail: string, s: Scan, name: string)
    requires Title(title) && IsBreak(end) && s.state == 0
    ensures Search("[" + title + [end] + tail, s, name) == Search(tail, Scan(0, title, s.val), name)
    ensures Fits("[" + title + [end] + tail, s) <==> Fits(tail, Scan(0, title, s.val))
  {
    assert "[" + title + [end] + tail == "[" + (title + ([end] + tail)) && [] + title == title;
    StepOne("[", title + ([end] + tail), s, name);
    ScanName([], title, [end] + tail, s.val, name);
    StepOne([end], tail, Scan(1, title, s.val), name);
  }

  lemma SkipBare(title: string, next: char, tail: string, s: Scan, name: string)
    requires Title(title) && next != ':' && s.state == 0
    ensures Search("[" + title + "]" + [next] + tail, s, name) == Search(tail, Scan(0, title, s.val), name)
    ensures Fits("[" + title + "]" + [next] + tail, s) <==> Fits(tail, Scan(0, title, s.val))
  {
    assert "[" + title + "]" + [next] + tail == "[" + (title + ("]" + ([next] + tail))) && [] + title == title;
    StepOne("[", title + ("]" + ([next] + tail)), s, name);
    ScanName([], title, "]" + ([next] + tail), s.val, name);
    StepOne("]", [next] + tail, Scan(1, title, s.val), name);
    StepOne([next], tail, Scan(2, title, s.val), name);
  }

  /** Whatever stands between the settings, the parser finds the value of the first setting of the name, or
      nothing when there is none. */
  lemma {:induction false} OnlySettingsAreFound(pieces: seq<Piece>, s: Scan, name: string)
    requires (forall i :: 0 <= i < |pieces| ==> GoodPiece(pieces[i])) && s.state == 0
    ensures Search(Text(pieces), s, name) == Lookup(Settings(pieces), name)
    ensures Fits(Text(pieces), s)
  {
    if pieces != [] {
      var p, tail := pieces[0], Text(pieces[1..]);
      assert GoodPiece(p);
      hide Search, Fits, Printable, PrintEntry;
      assert !p.Setting? ==> Settings(pieces) == Settings(pieces[1..]);
      match p
      case Setting(e) =>
        ScanEntry(e, tail, s, name);
        OnlySettingsAreFound(pieces[1..], Scan(0, e.name, e.value), name);
        assert Settings(pieces)[1..] == Settings(pieces[1..]);
      case Outside(text) =>
        SkipOutside(text, tail, s, name);
        OnlySettingsAreFound(pieces[1..], s, name);
      case Broken(title, end) =>
        SkipBroken(title, end, tail, s, name);
        OnlySettingsAreFound(pieces[1..], Scan(0, title, s.val), name);
      case Bare(title, next) =>
        SkipBare(title, next, tail, s, name);
        OnlySettingsAreFound(pieces[1..], Scan(0, title, s.val), name);
    } else {
      assert Text(pieces) == [];
    }
  }

  /** The call on a printed text. */
  method ParsePrinted(entries: seq<Entry>, name: string, size: nat) returns (ret: int, val: string)
    requires forall i :: 0 <= i < |entries| ==> Printable(entries[i])
    ensures match Lookup(entries, name)
            case Some(v) => ret == 0 && val == Truncated(v, size)
            case None => ret == -1
  {
    ParserUndoesPrinter(entries, name);
    ret, val := ParseInfo(Print(entries), name, size);
  }
}
