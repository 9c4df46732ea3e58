/**
  The configuration file format of src/config/config.c: what saving prints, and what the line reader,
  the trimming, the comment rule and the type guessing of loading make of it.

  A double is represented by its text. Characters are those of the C locale.
*/
module ConfigSpec {

  datatype Value = Int(n: int) | Bool(b: bool) | Str(s: string) | Dbl(text: string)

  datatype Note = NoNote | Note(text: string)

  datatype Item = Item(key: string, value: Value, note: Note)

  datatype Parsed = NoSetting | Setting(key: string, text: string)

  /** A line buffer of 1024 characters holds one less. */
  const LINE_MAX: nat := 1023

  const INT_LIMIT: int := 0x8000_0000

  const LONG_LIMIT: int := 0x8000_0000_0000_0000

  // ---------- Trimming and splitting ----------

  predicate IsSpace(c: char) {
    c == ' ' || '\t' <= c <= '\r'
  }

  function TrimLeft(s: string): string {
    if s != "" && IsSpace(s[0]) then TrimLeft(s[1..]) else s
  }

  function TrimRight(s: string): string {
    if s != "" && IsSpace(s[|s| - 1]) then TrimRight(s[..|s| - 1]) else s
  }

  predicate Trimmed(s: string) {
    s == "" || (!IsSpace(s[0]) && !IsSpace(s[|s| - 1]))
  }

  function IndexOf(s: string, c: char): (i: nat)
    ensures i <= |s| && (i < |s| ==> s[i] == c) && c !in s[..i]
  {
    if s == "" then 0 else if s[0] == c then 0 else 1 + IndexOf(s[1..], c)
  }

  predicate IsComment(s: string) {
    s != "" && (s[0] == '#' || s[0] == ';')
  }

  /** `parse_config_line`. */
  function ParseLine(line: string): Parsed {
    var l := TrimLeft(line);
    var i := IndexOf(l, '=');
    if IsComment(l) || i == |l| then NoSetting else Setting(TrimRight(l[..i]), TrimRight(TrimLeft(l[i + 1..])))
  }

  // ---------- Numbers ----------

  predicate IsDigit(c: char) {
    '0' <= c <= '9'
  }

  predicate AllDigits(s: string) {
    forall i :: 0 <= i < |s| ==> IsDigit(s[i])
  }

  function Number(s: string): nat
    requires AllDigits(s)
  {
    if s == "" then 0 else 10 * Number(s[..|s| - 1]) + (s[|s| - 1] as int - '0' as int)
  }

  /** What `%d` prints for a number that is not negative. */
  function Decimal(n: nat): string {
    (if n < 10 then "" else Decimal(n / 10)) + [('0' as int + n % 10) as char]
  }

  function ShowInt(n: int): string {
    if n < 0 then "-" + Decimal(-n) else Decimal(n)
  }

  predicate Signed(s: string) {
    s != "" && (s[0] == '+' || s[0] == '-')
  }

  /** `strtol` consumes everything: nothing at all, or digits after at most one sign. */
  predicate IsInt(s: string) {
    s == "" || (AllDigits(s) && s != "") || (Signed(s) && |s| > 1 && AllDigits(s[1..]))
  }

  function Clamp(n: int): int {
    if n < -LONG_LIMIT then -LONG_LIMIT else if n >= LONG_LIMIT then LONG_LIMIT - 1 else n
  }

  function LongValue(s: string): int
    requires IsInt(s)
  {
    if AllDigits(s) then Number(s) as int
    else if s[0] == '-' then 0 - Number(s[1..])
    else Number(s[1..]) as int
  }

  /** The cast from 64 to 32 bits. */
  function ToInt32(n: int): int {
    (n + INT_LIMIT) % (2 * INT_LIMIT) - INT_LIMIT
  }

  /** `strtol` on a 64-bit long, then the cast. */
  function ReadInt(s: string): (n: int)
    requires IsInt(s)
    ensures -INT_LIMIT <= n < INT_LIMIT
  {
    ToInt32(Clamp(LongValue(s)))
  }

  // ---------- Values ----------

  /** What loading takes a value to be. */
  function Guess(text: string): Value {
    if text == "true" || text == "false" then Bool(text == "true")
    else if '.' in text then Dbl(text)
    else if IsInt(text) then Int(ReadInt(text))
    else Str(text)
  }

  function Show(v: Value): string {
    match v
    case Int(n) => ShowInt(n)
    case Bool(b) => if b then "true" else "false"
    case Str(s) => s
    case Dbl(text) => text
  }

  predicate KeyOk(key: string) {
    Trimmed(key) && '=' !in key && '\n' !in key && !IsComment(key)
  }

  /** The values that survive: the guards that loading tries, in turn, must all let them through. */
  predicate ValueOk(v: Value) {
    match v
    case Int(n) => -INT_LIMIT <= n < INT_LIMIT
    case Bool(b) => true
    case Str(s) => Trimmed(s) && '\n' !in s && '.' !in s && !IsInt(s) && s != "true" && s != "false"
    case Dbl(text) => Trimmed(text) && '\n' !in text && '.' in text
  }

  // ---------- Trimming lemmas ----------

  lemma {:induction false} TrimLeftSuffix(s: string)
    ensures |TrimLeft(s)| <= |s| && TrimLeft(s) == s[|s| - |TrimLeft(s)|..]
    ensures TrimLeft(s) != "" ==> !IsSpace(TrimLeft(s)[0])
  {
    if s != "" && IsSpace(s[0]) {
      TrimLeftSuffix(s[1..]);
    }
  }

  lemma {:induction false} TrimRightPrefix(s: string)
    ensures |TrimRight(s)| <= |s| && TrimRight(s) == s[..|TrimRight(s)|]
    ensures TrimRight(s) != "" ==> !IsSpace(TrimRight(s)[|TrimRight(s)| - 1])
  {
    if s != "" && IsSpace(s[|s| - 1]) {
      TrimRightPrefix(s[..|s| - 1]);
    }
  }

  lemma BothTrimmed(s: string)
    ensures Trimmed(TrimRight(TrimLeft(s)))
    ensures forall c: char :: c !in s ==> c !in TrimRight(TrimLeft(s))
    ensures '\n' !in s[..if s == "" then 0 else |s| - 1] ==> '\n' !in TrimRight(TrimLeft(s))
  {
    var l := TrimLeft(s);
    TrimLeftSuffix(s);
    TrimRightPrefix(l);
  }

  /** A trimmed text, with or without the newline that ends its line, is what trimming gives back. */
  lemma TrimUndoes(s: string)
    requires Trimmed(s)
    ensures TrimLeft(s) == s && TrimRight(s) == s
    ensures TrimRight(TrimLeft(s + "\n")) == s
  {
    if s == "" {
      assert TrimLeft(("\n")[1..]) == "";
      assert s + "\n" == "\n";
    } else {
      assert (s + "\n")[..|s|] == s;
    }
  }

  lemma IndexOfIs(s: string, c: char, i: nat)
    requires i <= |s| && c !in s[..i] && (i < |s| ==> s[i] == c)
    ensures IndexOf(s, c) == i
  {
  }

  // ---------- Number lemmas ----------

  lemma {:induction false} DecimalRoundTrip(n: nat)
    ensures Decimal(n) != "" && AllDigits(Decimal(n)) && Number(Decimal(n)) == n
  {
    var d := Decimal(n);
    var last := ('0' as int + n % 10) as char;
    if n < 10 {
      assert d == [last] && d[..0] == "";
      assert Number("") == 0;
    } else {
      DecimalRoundTrip(n / 10);
      assert d[..|d| - 1] == Decimal(n / 10);
    }
  }

  /** Printing a 32-bit number and reading it back. */
  lemma ShowIntRoundTrip(n: int)
    requires -INT_LIMIT <= n < INT_LIMIT
    ensures IsInt(ShowInt(n)) && ReadInt(ShowInt(n)) == n
    ensures ShowInt(n) != "" && forall c <- ShowInt(n) :: c == '-' || IsDigit(c)
  {
    hide Decimal, Number;
    DecimalRoundTrip(if n < 0 then -n else n);
    var s := ShowInt(n);
    if n < 0 {
      assert s[0] == '-' && s[1..] == Decimal(-n);
    }
    assert LongValue(s) == n;
  }

  // ---------- One line ----------

  lemma GuessShow(v: Value)
    requires ValueOk(v)
    ensures Guess(Show(v)) == v && Trimmed(Show(v)) && '\n' !in Show(v)
  {
    hide ShowInt, ReadInt, IsInt;
    if v.Int? {
      ShowIntRoundTrip(v.n);
      var s := Show(v);
      assert s[0] in s && s[|s| - 1] in s;
    }
  }

  lemma ParseSplit(key: string, rest: string)
    requires KeyOk(key)
    ensures ParseLine(key + "=" + rest) == Setting(key, TrimRight(TrimLeft(rest)))
  {
    hide TrimLeft, TrimRight, IndexOf, IsSpace;
    var line := key + "=" + rest;
    FirstIsNotSpace(key, line);
    NoLeftSpace(line);
    assert line[..|key|] == key && line[|key| + 1..] == rest;
    IndexOfIs(line, '=', |key|);
    TrimUndoes(key);
  }

  lemma FirstIsNotSpace(key: string, line: string)
    requires Trimmed(key) && |line| > |key| && line[..|key|] == key && line[|key|] == '='
    ensures !IsSpace(line[0])
  {
    if key != "" {
      assert line[0] == line[..|key|][0];
    }
  }

  lemma ParseKept(key: string, text: string, tail: string)
    requires KeyOk(key) && Trimmed(text) && (tail == "" || tail == "\n")
    ensures ParseLine(key + "=" + text + tail) == Setting(key, text)
  {
    hide ParseLine, TrimLeft, TrimRight, KeyOk, Trimmed;
    ParseSplit(key, text + tail);
    assert key + "=" + text + tail == key + "=" + (text + tail);
    TrimUndoes(text);
    assert text + "" == text;
  }

  lemma NoLeftSpace(s: string)
    requires s == "" || !IsSpace(s[0])
    ensures TrimLeft(s) == s
  {
  }

  /** A saved setting is read back as it was, whether or not the newline is within the buffer. */
  lemma LineRoundTrip(key: string, v: Value, tail: string)
    requires KeyOk(key) && ValueOk(v) && (tail == "" || tail == "\n")
    ensures var p := ParseLine(key + "=" + Show(v) + tail);
            p == Setting(key, Show(v)) && Guess(p.text) == v
  {
    GuessShow(v);
    ParseKept(key, Show(v), tail);
  }

  /** No newline, except perhaps at the end: what `fgets` returns. */
  predicate OneLine(s: string) {
    s == "" || '\n' !in s[..|s| - 1]
  }

  /** Conversely, whatever a line sets satisfies both conditions. */
  lemma ParsedIsOk(line: string)
    requires OneLine(line) && ParseLine(line).Setting?
    ensures KeyOk(ParseLine(line).key) && ValueOk(Guess(ParseLine(line).text))
  {
    hide TrimLeft, TrimRight, IndexOf, IsInt, ReadInt;
    var l := TrimLeft(line);
    var i := IndexOf(l, '=');
    TrimLeftSuffix(line);
    TrimRightPrefix(l[..i]);
    SuffixOneLine(line, |line| - |l|);
    SuffixOneLine(l, i + 1);
    BothTrimmed(l[i + 1..]);
    var key := TrimRight(l[..i]);
    if key != "" {
      assert key[0] == l[0];
    }
    forall k | 0 <= k < |key|
      ensures key[k] != '\n'
    {
      assert key[k] == l[..|l| - 1][k];
    }
  }

  lemma SuffixOneLine(s: string, n: nat)
    requires OneLine(s) && n <= |s|
    ensures OneLine(s[n..])
  {
    if n < |s| {
      assert s[n..][..|s| - n - 1] == s[..|s| - 1][n..];
    }
  }

  // ---------- The file ----------

  function Find(items: seq<Item>, key: string): (i: nat)
    ensures i <= |items| && (i < |items| ==> items[i].key == key)
  {
    if items == [] then 0 else if items[0].key == key then 0 else 1 + Find(items[1..], key)
  }

  /** The setters without a description: an existing item takes the new value and type, a new one goes last. */
  function Set(items: seq<Item>, key: string, v: Value): seq<Item> {
    var i := Find(items, key);
    if i < |items| then items[i := items[i].(value := v)] else items + [Item(key, v, NoNote)]
  }

  /** The setters in full: a description is taken only by an item that has none. */
  function SetNoted(items: seq<Item>, key: string, v: Value, note: Note): seq<Item> {
    var i := Find(items, key);
    if i < |items| then items[i := Item(items[i].key, v, if items[i].note.NoNote? then note else items[i].note)]
    else items + [Item(key, v, note)]
  }

  function Apply(items: seq<Item>, line: string): seq<Item> {
    match ParseLine(line)
    case NoSetting => items
    case Setting(key, text) => Set(items, key, Guess(text))
  }

  /** How far one `fgets` reads: through the first newline, or until the buffer is full. */
  function ChunkEnd(text: string): (n: nat)
    ensures n <= |text| && (text != "" ==> n > 0)
    ensures OneLine(text[..n])
  {
    var i := IndexOf(text, '\n');
    if i >= LINE_MAX then LINE_MAX else if i < |text| then i + 1 else i
  }

  /** `config_load`. */
  function Load(items: seq<Item>, text: string): seq<Item>
    decreases |text|
  {
    if text == "" then items else Load(Apply(items, text[..ChunkEnd(text)]), text[ChunkEnd(text)..])
  }

  function Title(): string {
    "MicroMeowDB Configuration File"
  }

  function Stamp(date: string): string {
    "Generated on " + date
  }

  function Comment(text: string): string {
    "# " + text + "\n"
  }

  function NoteText(note: Note): string {
    if note.NoNote? then "" else Comment(note.text)
  }

  /** The items in order, with an empty line between two of them. */
  function Body(items: seq<Item>): string {
    if items == [] then ""
    else
      var line := items[0].key + "=" + Show(items[0].value) + "\n";
      NoteText(items[0].note) + (line + ((if |items| > 1 then "\n" else "") + Body(items[1..])))
  }

  /** `config_save`. */
  function Save(items: seq<Item>, date: string): string {
    Comment(Title()) + (Comment(Stamp(date)) + ("\n" + Body(items)))
  }

  function SetAll(items: seq<Item>, more: seq<Item>): seq<Item>
    decreases |more|
  {
    if more == [] then items else SetAll(Set(items, more[0].key, more[0].value), more[1..])
  }

  /** A text that is printed on one line and read in one piece. */
  predicate Fits(line: string) {
    '\n' !in line && |line| <= LINE_MAX
  }

  predicate ItemFits(item: Item) {
    Fits(item.key + "=" + Show(item.value)) && (item.note.Note? ==> Fits("# " + item.note.text))
  }

  lemma {:induction false} TrimLeftNewline(s: string)
    ensures TrimLeft(s + "\n") == if TrimLeft(s) == "" then "" else TrimLeft(s) + "\n"
  {
    if s == "" {
      assert s + "\n" == "\n" && ("\n")[1..] == "";
    } else if IsSpace(s[0]) {
      TrimLeftNewline(s[1..]);
      assert (s + "\n")[1..] == s[1..] + "\n";
    }
  }

  lemma TrimRightNewline(s: string)
    ensures TrimRight(s + "\n") == TrimRight(s)
  {
    assert (s + "\n")[..|s|] == s;
  }

  /** The newline at the end of a line makes no difference. */
  lemma SameWithNewline(line: string)
    ensures ParseLine(line + "\n") == ParseLine(line)
  {
    hide TrimLeft, TrimRight, IndexOf;
    var l := TrimLeft(line);
    TrimLeftNewline(line);
    if l == "" {
    } else {
      var m := l + "\n";
      var i := IndexOf(l, '=');
      if i < |l| {
        assert m[..i] == l[..i] && m[i + 1..] == l[i + 1..] + "\n";
        IndexOfIs(m, '=', i);
        TrimLeftNewline(l[i + 1..]);
        TrimRightNewline(TrimLeft(l[i + 1..]));
      } else {
        assert m[..|m|] == l + "\n";
        IndexOfIs(m, '=', |m|);
      }
    }
  }

  lemma BlankLine()
    ensures ParseLine("") == NoSetting
  {
  }

  /** What is read in one piece from a text of two known parts. */
  lemma LoadChunk(items: seq<Item>, chunk: string, rest: string)
    requires chunk != "" && ChunkEnd(chunk + rest) == |chunk|
    ensures Load(items, chunk + rest) == Load(Apply(items, chunk), rest)
  {
    hide ChunkEnd, Apply;
    var text := chunk + rest;
    assert text[..|chunk|] == chunk && text[|chunk|..] == rest;
  }

  /** A line that fits is applied as a whole, wherever it stands. */
  lemma LoadLine(items: seq<Item>, line: string, rest: string)
    requires Fits(line)
    ensures Load(items, line + "\n" + rest) == Load(Apply(items, line), rest)
  {
    hide ParseLine, IndexOf, Set, Guess, Load;
    var text := line + "\n" + rest;
    assert text[..|line|] == line && text[|line|] == '\n';
    IndexOfIs(text, '\n', |line|);
    SameWithNewline(line);
    if |line| < LINE_MAX {
      LoadChunk(items, line + "\n", rest);
    } else {
      var tail := "\n" + rest;
      assert text == line + tail;
      LoadChunk(items, line, tail);
      IndexOfIs(tail, '\n', 0);
      LoadChunk(Apply(items, line), "\n", rest);
      SameWithNewline("");
      BlankLine();
      assert "" + "\n" == "\n";
    }
  }

  /** A line that starts with a number sign changes nothing. */
  lemma LoadComment(items: seq<Item>, text: string, rest: string)
    requires Fits("# " + text)
    ensures Load(items, Comment(text) + rest) == Load(items, rest)
  {
    hide Load, IndexOf, Set, Guess;
    LoadLine(items, "# " + text, rest);
    NoLeftSpace("# " + text);
  }

  lemma LoadBlank(items: seq<Item>, rest: string)
    ensures Load(items, "\n" + rest) == Load(items, rest)
  {
    hide Load, ParseLine;
    LoadLine(items, "", rest);
    BlankLine();
    assert "" + "\n" + rest == "\n" + rest;
  }

  ghost predicate AllOk(items: seq<Item>) {
    forall i :: 0 <= i < |items| ==> KeyOk(items[i].key) && ValueOk(items[i].value)
  }

  ghost predicate AllFit(items: seq<Item>) {
    forall i :: 0 <= i < |items| ==> ItemFits(items[i])
  }

  lemma LoadItem(items: seq<Item>, item: Item, rest: string)
    requires KeyOk(item.key) && ValueOk(item.value) && ItemFits(item)
    ensures Load(items, NoteText(item.note) + (item.key + "=" + Show(item.value) + "\n" + rest)) ==
            Load(Set(items, item.key, item.value), rest)
  {
    hide Load, Set, ParseLine, Guess, KeyOk, ValueOk, Show;
    var line := item.key + "=" + Show(item.value);
    LoadLine(items, line, rest);
    LineRoundTrip(item.key, item.value, "");
    assert line + "" == line;
    var text := line + "\n" + rest;
    if item.note.Note? {
      LoadComment(items, item.note.text, text);
    } else {
      assert "" + text == text;
    }
  }

  lemma {:induction false} LoadBody(items: seq<Item>, saved: seq<Item>)
    requires AllOk(saved) && AllFit(saved)
    ensures Load(items, Body(saved)) == SetAll(items, saved)
    decreases |saved|
  {
    hide Set, KeyOk, ValueOk, ItemFits, NoteText, Show, Apply, ChunkEnd;
    if saved != [] {
      var first, rest := saved[0], saved[1..];
      var tail := (if |saved| > 1 then "\n" else "") + Body(rest);
      LoadItem(items, first, tail);
      var next := Set(items, first.key, first.value);
      LoadBody(next, rest);
      if |saved| > 1 {
        LoadBlank(next, Body(rest));
      } else {
        assert "" + Body(rest) == Body(rest);
      }
    }
  }

  /** Loading what was saved sets every saved item, in order, to the value it had. */
  lemma LoadSave(items: seq<Item>, saved: seq<Item>, date: string)
    requires AllOk(saved) && AllFit(saved) && Fits("# " + Stamp(date))
    ensures Load(items, Save(saved, date)) == SetAll(items, saved)
  {
    hide Load, Body, AllOk, AllFit, Fits, Title, Stamp, Comment;
    TitleFits();
    LoadComment(items, Title(), Comment(Stamp(date)) + ("\n" + Body(saved)));
    LoadComment(items, Stamp(date), "\n" + Body(saved));
    LoadBlank(items, Body(saved));
    LoadBody(items, saved);
  }

  lemma TitleFits()
    ensures Fits("# " + Title())
  {
  }

  // ---------- What comes back ----------

  ghost predicate DistinctKeys(items: seq<Item>) {
    forall i, j :: 0 <= i < j < |items| ==> items[i].key != items[j].key
  }

  /** The setters never give a key a second item. */
  lemma SettersKeepKeysDistinct(items: seq<Item>, key: string, v: Value, note: Note)
    requires DistinctKeys(items)
    ensures DistinctKeys(SetNoted(items, key, v, note))
  {
    FindIsFirst(items, key);
  }

  /** What the getters see of a key, before they look at the type. */
  function Get(items: seq<Item>, key: string): (v: seq<Value>) {
    var i := Find(items, key);
    if i < |items| then [items[i].value] else []
  }

  lemma {:induction false} FindIsFirst(items: seq<Item>, key: string)
    ensures forall i :: 0 <= i < Find(items, key) ==> items[i].key != key
  {
    if items != [] && items[0].key != key {
      FindIsFirst(items[1..], key);
      assert forall i :: 0 < i < |items| ==> items[i] == items[1..][i - 1];
    }
  }

  lemma SetGets(items: seq<Item>, key: string, v: Value, other: string)
    ensures Get(Set(items, key, v), other) == if other == key then [v] else Get(items, other)
  {
    FindIsFirst(items, key);
    FindIsFirst(items, other);
    var i, j := Find(items, key), Find(items, other);
    FindIs(Set(items, key, v), other, if other == key then i else if j < |items| then j else |Set(items, key, v)|);
  }

  lemma FindIs(items: seq<Item>, key: string, i: nat)
    requires i <= |items| && (i < |items| ==> items[i].key == key) && forall j :: 0 <= j < i ==> items[j].key != key
    ensures Find(items, key) == i
  {
    FindIsFirst(items, key);
  }

  /** Every saved key reads as it was saved, and no other key changes. */
  lemma {:induction false} SetAllGets(items: seq<Item>, saved: seq<Item>, key: string)
    requires DistinctKeys(saved)
    ensures Get(SetAll(items, saved), key) == if Get(saved, key) != [] then Get(saved, key) else Get(items, key)
    decreases |saved|
  {
    if saved != [] {
      hide Set;
      SetAllGets(Set(items, saved[0].key, saved[0].value), saved[1..], key);
      SetGets(items, saved[0].key, saved[0].value, key);
      FindIsFirst(saved[1..], key);
    }
  }

  /** Whatever a file sets, its key and value are of the kind that survives. */
  lemma {:induction false} LoadKeepsOk(items: seq<Item>, text: string)
    requires AllOk(items)
    ensures AllOk(Load(items, text))
    decreases |text|
  {
    hide KeyOk, ValueOk, ParseLine, Guess, OneLine;
    if text != "" {
      var line := text[..ChunkEnd(text)];
      if ParseLine(line).Setting? {
        ParsedIsOk(line);
      }
      LoadKeepsOk(Apply(items, line), text[ChunkEnd(text)..]);
    }
  }

  /** The line of the item is read in one piece, and so is that of its description, which has no newline. */
  predicate ItemShort(item: Item) {
    |item.key| + 1 + |Show(item.value)| <= LINE_MAX && (item.note.Note? ==> Fits("# " + item.note.text))
  }

  ghost predicate AllShort(items: seq<Item>) {
    forall i :: 0 <= i < |items| ==> ItemShort(items[i])
  }

  lemma OkFits(items: seq<Item>)
    requires AllOk(items) && AllShort(items)
    ensures AllFit(items)
  {
    hide Show, ValueOk, Guess;
    forall i | 0 <= i < |items|
      ensures ItemFits(items[i])
    {
      assert KeyOk(items[i].key) && ItemShort(items[i]);
      GuessShow(items[i].value);
    }
  }

  /** The setting could stand on one line that is read in one piece. */
  predicate InPiece(item: Item) {
    !item.value.Int? ==> |item.key| + 1 + |Show(item.value)| <= LINE_MAX
  }

  ghost predicate AllInPiece(items: seq<Item>) {
    forall i :: 0 <= i < |items| ==> InPiece(items[i])
  }

  lemma ParsedIsShort(line: string)
    requires |line| <= LINE_MAX && ParseLine(line).Setting?
    ensures InPiece(Item(ParseLine(line).key, Guess(ParseLine(line).text), NoNote))
  {
    hide TrimLeft, TrimRight, IndexOf, Guess, Show;
    var l := TrimLeft(line);
    var i := IndexOf(l, '=');
    TrimLeftSuffix(line);
    TrimRightPrefix(l[..i]);
    TrimLeftSuffix(l[i + 1..]);
    TrimRightPrefix(TrimLeft(l[i + 1..]));
    ShownAsGuessed(ParseLine(line).text);
  }

  lemma ShownAsGuessed(text: string)
    ensures !Guess(text).Int? ==> Show(Guess(text)) == text
  {
    hide IsInt, ReadInt;
  }

  lemma SetInPiece(items: seq<Item>, key: string, v: Value)
    requires AllInPiece(items) && InPiece(Item(key, v, NoNote))
    ensures AllInPiece(Set(items, key, v))
  {
    hide Show;
  }

  /** Every string, double and boolean that a file sets comes from one piece of at most 1023 characters. */
  lemma {:induction false} LoadInPiece(items: seq<Item>, text: string)
    requires AllInPiece(items)
    ensures AllInPiece(Load(items, text))
    decreases |text|
  {
    hide ParseLine, Guess, Set, AllInPiece, InPiece;
    if text != "" {
      var line := text[..ChunkEnd(text)];
      var p := ParseLine(line);
      if p.Setting? {
        ParsedIsShort(line);
        SetInPiece(items, p.key, Guess(p.text));
      }
      LoadInPiece(Apply(items, line), text[ChunkEnd(text)..]);
    }
  }

  /** Descriptions are read as comments, and the numbers - whose text loading does not keep - have short lines. */
  predicate NoteAndNumberShort(item: Item) {
    (item.note.Note? ==> Fits("# " + item.note.text)) && (item.value.Int? ==> |item.key| + 1 + |Show(item.value)| <= LINE_MAX)
  }

  /**
    Saving and loading into an empty configuration gives every item back, under its key and with its
    value, exactly when all keys and values are of the kind that survives and no line is longer than the
    buffer.
  */
  lemma SavedSurvivesExactly(saved: seq<Item>, date: string)
    requires DistinctKeys(saved) && Fits("# " + Stamp(date))
    requires forall i :: 0 <= i < |saved| ==> NoteAndNumberShort(saved[i])
    ensures (forall i :: 0 <= i < |saved| ==> Get(Load([], Save(saved, date)), saved[i].key) == [saved[i].value])
            <==> AllOk(saved) && AllShort(saved)
  {
    hide Load, Save, KeyOk, ValueOk, AllFit, Show, Fits;
    var loaded := Load([], Save(saved, date));
    LoadKeepsOk([], Save(saved, date));
    LoadInPiece([], Save(saved, date));
    if AllOk(saved) && AllShort(saved) {
      OkFits(saved);
      LoadSave([], saved, date);
      forall i | 0 <= i < |saved|
        ensures Get(loaded, saved[i].key) == [saved[i].value]
      {
        SetAllGets([], saved, saved[i].key);
        FindIsFirst(saved, saved[i].key);
      }
    }
    if forall i :: 0 <= i < |saved| ==> Get(loaded, saved[i].key) == [saved[i].value] {
      forall i | 0 <= i < |saved|
        ensures KeyOk(saved[i].key) && ValueOk(saved[i].value) && ItemShort(saved[i])
      {
        var j := Find(loaded, saved[i].key);
        assert Get(loaded, saved[i].key) == [saved[i].value];
        assert loaded[j].key == saved[i].key && loaded[j].value == saved[i].value;
        assert InPiece(loaded[j]) && NoteAndNumberShort(saved[i]);
      }
    }
  }

  /** Three of the registered defaults do not come back: an address, a path, a number kept as text. Nor does "". */
  lemma DefaultsThatChange()
    ensures !ValueOk(Str("127.0.0.1")) && Guess(Show(Str("127.0.0.1"))) == Dbl("127.0.0.1")
    ensures !ValueOk(Str("./data")) && Guess(Show(Str("./data"))) == Dbl("./data")
    ensures !ValueOk(Str("6")) && Guess(Show(Str("6"))) == Int(6)
    ensures !ValueOk(Str("")) && Guess(Show(Str(""))) == Int(0)
  {
    assert '.' == "127.0.0.1"[3] && '.' == "./data"[0];
    assert "6"[..0] == "";
    assert Number("6") == 6;
  }
}
