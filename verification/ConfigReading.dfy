/**
  What a line of a configuration file means to src/config/config.c, with the characters that are white
  space, the signs of a comment, the spellings of the values and the widths of numbers written out.
*/
module ConfigReading {

  import opened ConfigSpec

  // ---------- White space ----------

  /** Blank, tab, newline, vertical tab, form feed or carriage return. */
  predicate Blank(c: char) {
    c in [' ', '\t', '\n', '\U{000B}', '\U{000C}', '\r']
  }

  predicate Pad(s: string) {
    forall i :: 0 <= i < |s| ==> Blank(s[i])
  }

  /** Neither end is white space. */
  predicate Bare(s: string) {
    s != "" ==> !Blank(s[0]) && !Blank(s[|s| - 1])
  }

  lemma SpaceIsBlank(c: char)
    ensures IsSpace(c) <==> Blank(c)
  {
  }

  lemma {:induction false} TrimLeftPad(pad: string, s: string)
    requires Pad(pad) && (s == "" || !Blank(s[0]))
    ensures TrimLeft(pad + s) == s
  {
    if pad == "" {
      assert pad + s == s;
      if s != "" {
        SpaceIsBlank(s[0]);
      }
    } else {
      SpaceIsBlank(pad[0]);
      assert Pad(pad[1..]) by {
        assert forall i :: 0 <= i < |pad[1..]| ==> pad[1..][i] == pad[i + 1];
      }
      TrimLeftPad(pad[1..], s);
      assert (pad + s)[1..] == pad[1..] + s;
    }
  }

  lemma {:induction false} TrimRightPad(s: string, pad: string)
    requires Pad(pad) && (s == "" || !Blank(s[|s| - 1]))
    ensures TrimRight(s + pad) == s
  {
    if pad == "" {
      assert s + pad == s;
      if s != "" {
        SpaceIsBlank(s[|s| - 1]);
      }
    } else {
      SpaceIsBlank(pad[|pad| - 1]);
      TrimRightPad(s, pad[..|pad| - 1]);
      assert (s + pad)[..|s + pad| - 1] == s + pad[..|pad| - 1];
    }
  }

  lemma TrimPads(before: string, s: string, after: string)
    requires Pad(before) && Bare(s) && Pad(after)
    ensures TrimRight(TrimLeft(before + s + after)) == s
  {
    hide TrimLeft, TrimRight;
    if s == "" {
      var pads := before + after;
      assert before + s + after == pads && pads + "" == pads;
      TrimLeftPad(pads, "");
      TrimRightPad("", "");
      assert "" + "" == "";
    } else {
      assert before + s + after == before + (s + after);
      TrimLeftPad(before, s + after);
      TrimRightPad(s, after);
    }
  }

  // ---------- Lines ----------

  /** White space around key and value is no part of them. */
  lemma PaddedLine(p0: string, key: string, p1: string, p2: string, text: string, p3: string)
    requires Pad(p0) && Pad(p1) && Pad(p2) && Pad(p3) && Bare(key) && Bare(text)
    requires '=' !in key && (key != "" ==> key[0] != '#' && key[0] != ';')
    ensures ParseLine(p0 + key + p1 + "=" + p2 + text + p3) == Setting(key, text)
  {
    hide TrimLeft, TrimRight, IndexOf, Pad, Bare;
    var line, rest := p0 + key + p1 + "=" + p2 + text + p3, p2 + text + p3;
    var name := if key == "" then "" else key + p1;
    var l := name + "=" + rest;
    StripsTo(p0, key, p1, rest);
    assert line == p0 + key + p1 + "=" + rest;
    assert l[..|name|] == name && l[|name| + 1..] == rest && l[|name|] == '=';
    PadsHaveNoEquals(p1);
    IndexOfIs(l, '=', |name|);
    TrimPads(p2, text, p3);
    TrimsTo(key, p1);
    assert l[0] == if key == "" then '=' else key[0];
  }

  lemma StripsTo(p0: string, key: string, p1: string, rest: string)
    requires Pad(p0) && Pad(p1) && Bare(key)
    ensures TrimLeft(p0 + key + p1 + "=" + rest) == (if key == "" then "" else key + p1) + "=" + rest
  {
    hide TrimLeft;
    if key == "" {
      assert p0 + key + p1 + "=" + rest == (p0 + p1) + ("=" + rest) && "" + "=" + rest == "=" + rest;
      TrimLeftPad(p0 + p1, "=" + rest);
    } else {
      assert p0 + key + p1 + "=" + rest == p0 + (key + p1 + "=" + rest);
      TrimLeftPad(p0, key + p1 + "=" + rest);
    }
  }

  lemma TrimsTo(key: string, p1: string)
    requires Pad(p1) && Bare(key)
    ensures TrimRight(if key == "" then "" else key + p1) == key
  {
    hide TrimRight;
    if key == "" {
      TrimRightPad("", "");
      assert "" + "" == "";
    } else {
      TrimRightPad(key, p1);
    }
  }

  lemma PadsHaveNoEquals(pad: string)
    requires Pad(pad)
    ensures '=' !in pad
  {
  }

  /** A line whose first other character is one of the two comment signs sets nothing; nor does one without an equals sign. */
  lemma IdleLine(pad: string, sign: char, rest: string, plain: string)
    requires Pad(pad) && (sign == '#' || sign == ';') && '=' !in plain
    ensures ParseLine(pad + [sign] + rest) == NoSetting && ParseLine(plain) == NoSetting
  {
    hide TrimLeft;
    assert pad + [sign] + rest == pad + ([sign] + rest);
    TrimLeftPad(pad, [sign] + rest);
    TrimLeftSuffix(plain);
    var l := TrimLeft(plain);
    assert forall i :: 0 <= i < |l| ==> l[i] == plain[|plain| - |l| + i];
  }

  // ---------- Values ----------

  function Pow10(n: nat): nat {
    if n == 0 then 1 else 10 * Pow10(n - 1)
  }

  /** Each digit counts by the number of digits behind it. */
  function Positional(s: string): nat
    requires AllDigits(s)
  {
    if s == "" then 0 else (s[0] as int - 48) * Pow10(|s| - 1) + Positional(s[1..])
  }

  lemma {:induction false} PositionalAppend(s: string)
    requires AllDigits(s) && s != ""
    ensures Positional(s) == 10 * Positional(s[..|s| - 1]) + (s[|s| - 1] as int - 48)
  {
    var front, n := s[..|s| - 1], |s| - 1;
    if n == 0 {
      assert s[1..] == "" && Pow10(0) == 1;
    } else {
      PositionalAppend(s[1..]);
      assert front[1..] == s[1..][..|s[1..]| - 1];
      hide Positional, AllDigits;
      FirstDigit(s);
      FirstDigit(front);
      Shift(s[0] as int - 48, n);
    }
  }

  lemma FirstDigit(s: string)
    requires AllDigits(s) && s != ""
    ensures Positional(s) == (s[0] as int - 48) * Pow10(|s| - 1) + Positional(s[1..])
  {
  }

  lemma Shift(d: int, n: nat)
    requires n > 0
    ensures d * Pow10(n) == 10 * (d * Pow10(n - 1))
  {
    assert Pow10(n) == 10 * Pow10(n - 1);
  }

  lemma {:induction false} NumberIsPositional(s: string)
    requires AllDigits(s)
    ensures Number(s) == Positional(s)
  {
    hide Positional;
    if s == "" {
      NothingCounts();
    } else {
      NumberIsPositional(s[..|s| - 1]);
      PositionalAppend(s);
    }
  }

  lemma NothingCounts()
    ensures Positional("") == 0
  {
  }

  /**
    A run of decimal digits, with or without a sign, is the number it spells. From 2^31 on the lower 32
    bits count, and from 2^63 on it is -1, or 0 with a minus.
  */
  lemma DigitsAreNumbers(s: string)
    requires AllDigits(s) && s != ""
    ensures var n: int := Positional(s);
            && (n < 2147483648 ==> Guess(s) == Int(n) && Guess("+" + s) == Int(n) && Guess("-" + s) == Int(-n))
            && (2147483648 <= n < 4294967296 ==> Guess(s) == Int(n - 4294967296))
            && (n >= 9223372036854775808 ==> Guess(s) == Int(-1) && Guess("-" + s) == Int(0))
  {
    hide Positional, Number, AllDigits, IsInt, LongValue, Clamp, ToInt32;
    NumberIsPositional(s);
    DigitsAreNoWords(s);
    SignedDigits(s, '+');
    SignedDigits(s, '-');
    Narrowed(Positional(s));
  }

  lemma Narrowed(n: nat)
    ensures n < 2147483648 ==> ToInt32(Clamp(n)) == n && ToInt32(Clamp(0 - n)) == 0 - n
    ensures 2147483648 <= n < 4294967296 ==> ToInt32(Clamp(n)) == n - 4294967296
    ensures n >= 9223372036854775808 ==> ToInt32(Clamp(n)) == -1 && ToInt32(Clamp(0 - n)) == 0
  {
  }

  lemma DigitsAreNoWords(s: string)
    requires AllDigits(s) && s != ""
    ensures IsInt(s) && LongValue(s) == Number(s) && '.' !in s && s != "true" && s != "false"
  {
    assert IsDigit(s[0]);
  }

  lemma SignedDigits(s: string, sign: char)
    requires AllDigits(s) && s != "" && (sign == '+' || sign == '-')
    ensures var t := [sign] + s;
            && IsInt(t) && LongValue(t) == (if sign == '-' then 0 - Number(s) else Number(s))
            && '.' !in t && t != "true" && t != "false"
  {
    hide Number;
    var t := [sign] + s;
    assert t[1..] == s && t[0] == sign && !IsDigit(sign);
  }

  /** The words for truth are booleans, what has a point is a double, and other words are strings. */
  lemma WordsAreKept(word: string, i: nat)
    requires i < |word| && 'a' <= word[i] <= 'z'
    ensures Guess("true") == Bool(true) && Guess("false") == Bool(false)
    ensures word != "true" && word != "false" ==> Guess(word) == if '.' in word then Dbl(word) else Str(word)
  {
    hide Number, ReadInt;
    assert !IsDigit(word[i]);
    assert i > 0 ==> word[1..][i - 1] == word[i];
  }

  // ---------- Files ----------

  /** A file of one padded line sets that key to that value, and no other key. */
  lemma OneLineFile(p0: string, key: string, p1: string, p2: string, text: string, p3: string, other: string)
    requires Pad(p0) && Pad(p1) && Pad(p2) && Pad(p3) && Bare(key) && Bare(text)
    requires '=' !in key && (key != "" ==> key[0] != '#' && key[0] != ';')
    requires var line := p0 + key + p1 + "=" + p2 + text + p3; '\n' !in line && |line| <= 1023
    ensures Get(Load([], p0 + key + p1 + "=" + p2 + text + p3 + "\n"), other) == if other == key then [Guess(text)] else []
  {
    hide ParseLine, Load, Guess, Pad, Bare;
    var line := p0 + key + p1 + "=" + p2 + text + p3;
    PaddedLine(p0, key, p1, p2, text, p3);
    LoadLine([], line, "");
    assert line + "\n" + "" == line + "\n";
    NothingLeft(Apply([], line));
    SetGets([], key, Guess(text), other);
  }

  lemma NothingLeft(items: seq<Item>)
    ensures Load(items, "") == items
  {
  }

  /** Of a longer line each 1023 characters are taken for a line of their own. */
  lemma LongLineIsCut(items: seq<Item>, line: string, rest: string)
    requires '\n' !in line && |line| > 1023
    ensures Load(items, line + rest) == Load(Apply(items, line[..1023]), line[1023..] + rest)
  {
    hide Load, Apply;
    var text, chunk := line + rest, line[..1023];
    assert text == chunk + (line[1023..] + rest);
    NoNewlineYet(line, rest);
    LoadChunk(items, chunk, line[1023..] + rest);
  }

  lemma NoNewlineYet(line: string, rest: string)
    requires '\n' !in line && |line| > 1023
    ensures ChunkEnd(line + rest) == 1023
  {
    assert forall i :: 0 <= i < |line| ==> (line + rest)[i] == line[i];
  }

  /** A saved file, line by line: the two lines at the top, then descriptions and settings with an empty line between items. */
  lemma SavedText(key: string, n: int, note: string, other: string, b: bool, date: string)
    ensures Save([Item(key, Int(n), Note(note)), Item(other, Bool(b), NoNote)], date)
         == "# " + "MicroMeowDB Configuration File" + "\n"
            + ("# " + ("Generated on " + date) + "\n"
            + ("\n"
            + ("# " + note + "\n"
            + (key + "=" + ShowInt(n) + "\n"
            + ("\n"
            + (other + "=" + (if b then "true" else "false") + "\n"))))))
  {
    hide ShowInt;
    var first, second := Item(key, Int(n), Note(note)), Item(other, Bool(b), NoNote);
    assert [first, second][1..] == [second] && [second][1..] == [];
    LastText(second);
  }

  lemma LastText(item: Item)
    requires item.note.NoNote?
    ensures Body([item]) == item.key + "=" + Show(item.value) + "\n"
  {
    hide Show;
    var line := item.key + "=" + Show(item.value) + "\n";
    assert [item][1..] == [] && "" + (line + ("" + "")) == line;
  }
}
