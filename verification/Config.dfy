/**
  src/config/config.c as it runs: an array of items that is searched, overwritten and grown in place,
  the character loops of the line parser, and the loops that load and save. Printing and reading a
  number are the library's `ShowInt` and `ReadInt`; the file is its text.
*/
module Config {
  import opened ConfigSpec

  class ConfigItem {
    const key: string
    var value: Value
    var note: Note

    constructor (key: string, value: Value, note: Note)
      ensures this.key == key && this.value == value && this.note == note
    {
      this.key, this.value, this.note := key, value, note;
    }
  }

  /** The loop that skips white space forward. */
  method SkipSpaces(s: string) returns (i: nat)
    ensures i <= |s| && s[i..] == TrimLeft(s)
  {
    i := 0;
    while i < |s| && IsSpace(s[i])
      invariant i <= |s| && TrimLeft(s[i..]) == TrimLeft(s)
    {
      assert s[i..][1..] == s[i + 1..];
      i := i + 1;
    }
  }

  /** The loop that drops white space from the end. */
  method DropSpaces(s: string) returns (n: nat)
    ensures n <= |s| && s[..n] == TrimRight(s)
  {
    n := |s|;
    assert s[..n] == s;
    while n > 0 && IsSpace(s[n - 1])
      invariant n <= |s| && TrimRight(s[..n]) == TrimRight(s)
    {
      assert s[..n][..n - 1] == s[..n - 1];
      n := n - 1;
    }
  }

  /** `strchr` and the scan for the end of a line. */
  method FindChar(s: string, c: char) returns (i: nat)
    ensures i == IndexOf(s, c)
  {
    i := 0;
    while i < |s| && s[i] != c
      invariant i <= |s| && c !in s[..i]
    {
      i := i + 1;
    }
    IndexOfIs(s, c, i);
  }

  /** `parse_config_line`. */
  method ParseConfigLine(line: string) returns (r: Parsed)
    ensures r == ParseLine(line)
  {
    hide TrimLeft, TrimRight, IndexOf;
    var i := SkipSpaces(line);
    var l := line[i..];
    if l != "" && (l[0] == '#' || l[0] == ';') {
      return NoSetting;
    }
    var sep := FindChar(l, '=');
    if sep == |l| {
      return NoSetting;
    }
    var key := l[..sep];
    var keyLen := DropSpaces(key);
    var value := l[sep + 1..];
    var start := SkipSpaces(value);
    value := value[start..];
    var valueLen := DropSpaces(value);
    return Setting(key[..keyLen], value[..valueLen]);
  }

  class ConfigSystem {
    var items: array<ConfigItem?>
    var count: nat
    ghost var contents: seq<Item>
    ghost var repr: set<ConfigItem>

    /** The first `count` slots hold distinct items with the contents. */
    ghost predicate Valid()
      reads this, items, repr
      ensures Valid() ==> |contents| == count <= items.Length
    {
      && 0 < items.Length && |contents| == count <= items.Length
      && (forall i {:trigger items[i]} :: 0 <= i < count ==>
            var item := items[i];
            item != null && item in repr && contents[i] == Item(item.key, item.value, item.note))
      && (forall i, j :: 0 <= i < j < count ==> items[i] != items[j])
    }

    /** `config_init`, before the defaults are registered. */
    constructor ()
      ensures Valid() && fresh(items) && contents == [] && repr == {}
    {
      items, count, contents, repr := new ConfigItem?[64](_ => null), 0, [], {};
    }

    /** `find_config_item`. */
    method FindItem(key: string) returns (index: int)
      requires Valid()
      ensures index == if Find(contents, key) < |contents| then Find(contents, key) else -1
    {
      var i := 0;
      while i < count
        invariant i <= count && forall j :: 0 <= j < i ==> contents[j].key != key
      {
        assert contents[i].key == items[i].key;
        if items[i].key == key {
          FindIs(contents, key, i);
          return i;
        }
        i := i + 1;
      }
      FindIs(contents, key, count);
      return -1;
    }

    /** `expand_config_system`. */
    method Expand()
      requires Valid()
      modifies this`items
      ensures Valid() && fresh(items) && items.Length == 2 * old(items.Length)
    {
      var bigger := new ConfigItem?[2 * items.Length](_ => null);
      var i := 0;
      while i < count
        invariant i <= count && bigger[..i] == items[..i]
        modifies bigger
      {
        bigger[i] := items[i];
        i := i + 1;
      }
      assert forall j :: 0 <= j < count ==> bigger[j] == bigger[..count][j];
      items := bigger;
    }

    /** The four setters, from `config_set_int` to `config_set_double`, which differ only in the member of the union. */
    method Put(key: string, v: Value, note: Note)
      requires Valid()
      modifies this, items, repr
      ensures Valid() && fresh(repr - old(repr)) && (items == old(items) || fresh(items))
      ensures contents == SetNoted(old(contents), key, v, note)
    {
      hide Find;
      var index := FindItem(key);
      if index >= 0 {
        var item := items[index];
        item.value := v;
        if item.note.NoNote? {
          item.note := note;
        }
        contents := contents[index := Item(item.key, item.value, item.note)];
      } else {
        if count >= items.Length {
          Expand();
        }
        var item := new ConfigItem(key, v, note);
        items[count] := item;
        count, contents, repr := count + 1, contents + [Item(key, v, note)], repr + {item};
      }
    }

    /** `config_get_int`. */
    method GetInt(key: string, fallback: int) returns (r: int)
      requires Valid()
      ensures r == if Get(contents, key) != [] && Get(contents, key)[0].Int? then Get(contents, key)[0].n else fallback
    {
      hide Find;
      var index := FindItem(key);
      if index >= 0 && items[index].value.Int? {
        return items[index].value.n;
      }
      return fallback;
    }

    /** `config_get_bool`. */
    method GetBool(key: string, fallback: bool) returns (r: bool)
      requires Valid()
      ensures r == if Get(contents, key) != [] && Get(contents, key)[0].Bool? then Get(contents, key)[0].b else fallback
    {
      hide Find;
      var index := FindItem(key);
      if index >= 0 && items[index].value.Bool? {
        return items[index].value.b;
      }
      return fallback;
    }

    /** `config_get_string`. */
    method GetString(key: string, fallback: string) returns (r: string)
      requires Valid()
      ensures r == if Get(contents, key) != [] && Get(contents, key)[0].Str? then Get(contents, key)[0].s else fallback
    {
      hide Find;
      var index := FindItem(key);
      if index >= 0 && items[index].value.Str? {
        return items[index].value.s;
      }
      return fallback;
    }

    /** `config_load`, on the text of the file. */
    method LoadFrom(text: string)
      requires Valid()
      modifies this, items, repr
      ensures Valid() && fresh(repr - old(repr)) && (items == old(items) || fresh(items))
      ensures contents == Load(old(contents), text)
    {
      hide Valid, ChunkEnd, ParseLine, SetNoted, Set, IsInt, ReadInt;
      var rest := text;
      while rest != ""
        invariant Valid() && fresh(repr - old(repr)) && (items == old(items) || fresh(items))
        invariant Load(contents, rest) == Load(old(contents), text)
        decreases |rest|
      {
        var n := ReadLine(rest);
        var p := ParseConfigLine(rest[..n]);
        ghost var before := contents;
        match p {
          case NoSetting =>
          case Setting(key, value) =>
            SetWithoutNote(contents, key, Guess(value));
            if value == "true" || value == "false" {
              Put(key, Bool(value == "true"), NoNote);
            } else if '.' in value {
              Put(key, Dbl(value), NoNote);
            } else if IsInt(value) {
              Put(key, Int(ReadInt(value)), NoNote);
            } else {
              Put(key, Str(value), NoNote);
            }
        }
        assert contents == Apply(before, rest[..n]);
        rest := rest[n..];
      }
    }

    /** `config_save`, up to writing the text to the file. */
    method SaveTo(date: string) returns (text: string)
      requires Valid()
      ensures text == Save(contents, date)
    {
      hide Comment, Show;
      text := Comment(Title()) + (Comment(Stamp(date)) + "\n");
      ghost var header := text;
      var i := 0;
      while i < count
        invariant i <= count && text + Body(contents[i..]) == header + Body(contents)
      {
        var item := items[i];
        assert contents[i..][0] == contents[i] && contents[i..][1..] == contents[i + 1..];
        ghost var before := text;
        text := text + NoteText(item.note);
        text := text + (item.key + "=" + Show(item.value) + "\n");
        if i < count - 1 {
          text := text + "\n";
        }
        BodyStep(before, contents[i..]);
        i := i + 1;
      }
      assert text + Body(contents[i..]) == text;
      Associate(Comment(Stamp(date)), "\n", Body(contents));
      Associate(Comment(Title()), Comment(Stamp(date)) + "\n", Body(contents));
    }
  }

  /** One `fgets`. */
  method ReadLine(text: string) returns (n: nat)
    ensures n == ChunkEnd(text)
  {
    n := 0;
    while n < |text| && n < LINE_MAX
      invariant n <= |text| && n <= LINE_MAX && '\n' !in text[..n]
    {
      if text[n] == '\n' {
        IndexOfIs(text, '\n', n);
        return n + 1;
      }
      n := n + 1;
    }
    if n == |text| {
      IndexOfIs(text, '\n', n);
    }
    NotBefore(text, n);
  }

  lemma NotBefore(text: string, n: nat)
    requires n <= |text| && '\n' !in text[..n]
    ensures IndexOf(text, '\n') >= n
  {
  }

  lemma SetWithoutNote(items: seq<Item>, key: string, v: Value)
    ensures SetNoted(items, key, v, NoNote) == Set(items, key, v)
  {
  }

  lemma BodyStep(before: string, items: seq<Item>)
    requires items != []
    ensures before + Body(items) ==
            before + NoteText(items[0].note) + (items[0].key + "=" + Show(items[0].value) + "\n")
            + (if |items| > 1 then "\n" else "") + Body(items[1..])
  {
    hide Show, NoteText;
    var note, line := NoteText(items[0].note), items[0].key + "=" + Show(items[0].value) + "\n";
    var gap, rest := if |items| > 1 then "\n" else "", Body(items[1..]);
    Associate(before, note, line + (gap + rest));
    Associate(before + note, line, gap + rest);
    Associate(before + note + line, gap, rest);
  }

  lemma Associate(a: string, b: string, c: string)
    ensures a + (b + c) == a + b + c
  {
  }
}
