/** The document format in plain terms: blanks, lines, tables and the forms of values. */
module TomlForms {
  import opened Decimals
  import opened Options
  import opened Strings
  import opened Toml
  import opened TomlLaws

  // ----- Blanks

  const BLANKS := " \t\r\n"

  ghost predicate IsAllBlank(s: string) {
    forall i :: 0 <= i < |s| ==> s[i] in BLANKS
  }

  lemma BlanksAreBlank(c: char)
    ensures c in BLANKS <==> IsBlank(c)
  {
    assert BLANKS == [' ', '\t', '\r', '\n'];
  }

  /** Spaces, tabs, carriage returns and line feeds come off at both ends, and nothing else does. */
  lemma TrimStrips(front: string, s: string, back: string)
    requires IsAllBlank(front) && IsAllBlank(back)
    requires s != "" ==> s[0] !in BLANKS && s[|s| - 1] !in BLANKS
    ensures Trim(front + s + back) == s
  {
    if s == "" {
      var blanks := front + back;
      assert front + s + back == blanks && blanks + "" == blanks;
      FrontStrips(blanks, "");
    } else {
      BlanksAreBlank(s[0]);
      BlanksAreBlank(s[|s| - 1]);
      FrontStrips(front, s + back);
      assert front + s + back == front + (s + back);
      BackStrips(s, back);
    }
  }

  lemma {:induction false} FrontStrips(front: string, s: string)
    requires IsAllBlank(front) && (s != "" ==> !IsBlank(s[0]))
    ensures TrimLeft(front + s) == s
  {
    if front == "" {
      assert front + s == s;
    } else {
      BlanksAreBlank(front[0]);
      assert (front + s)[0] == front[0] && (front + s)[1..] == front[1..] + s;
      FrontStrips(front[1..], s);
    }
  }

  lemma {:induction false} BackStrips(s: string, back: string)
    requires IsAllBlank(back) && (s != "" ==> !IsBlank(s[|s| - 1]))
    ensures TrimRight(s + back) == s
  {
    if back == "" {
      assert s + back == s;
    } else {
      var t, last := s + back, |back| - 1;
      BlanksAreBlank(back[last]);
      assert t[|t| - 1] == back[last] && t[..|t| - 1] == s + back[..last];
      BackStrips(s, back[..last]);
    }
  }

  // ----- Lines

  /** A line that starts with '#' after blanks changes nothing. */
  lemma CommentIsIgnored(stod: Stod, front: string, text: string, p: Parse)
    requires IsAllBlank(front)
    ensures ParseLine(stod, front + "#" + text, p) == p
  {
    hide ParseValue;
    FrontStrips(front, "#" + text);
    assert front + "#" + text == front + ("#" + text);
    TrimRightKeeps("#" + text);
  }

  /** A header names the table, whatever follows its first closing bracket. */
  lemma HeaderNamesTable(stod: Stod, t: string, tail: string, p: Parse)
    requires ']' !in t && IsTrimmed("[" + t + "]" + tail)
    ensures ParseLine(stod, "[" + t + "]" + tail, p) == p.(table := Trim(t))
  {
    hide Trim, ParseValue;
    var line := "[" + t + "]" + tail;
    TrimTrims(line);
    IndexIs(line, ']', |t| + 1);
    assert line[1..|t| + 1] == t;
  }

  predicate OpensTable(raw: string) {
    Trim(raw) != "" && Trim(raw)[0] == '['
  }

  lemma {:induction false} TableStays(stod: Stod, lines: seq<string>, m: nat, n: nat)
    requires m <= n <= |lines| && forall i :: m <= i < n ==> !OpensTable(lines[i])
    ensures ParseLines(stod, lines, n).table == ParseLines(stod, lines, m).table
  {
    hide Trim, ParseValue;
    if m < n {
      TableStays(stod, lines, m, n - 1);
      assert !OpensTable(lines[n - 1]);
    }
  }

  /** A table lasts until the next header: an entry below it gets its key, for every line in between. */
  lemma EntryBelongsToTable(stod: Stod, lines: seq<string>, m: nat, n: nat, t: string, k: string, text: string)
    requires m < n < |lines| && forall i :: m < i < n ==> !OpensTable(lines[i])
    requires lines[m] == "[" + t + "]" && IsTrimmed(t) && ']' !in t && t != ""
    requires lines[n] == k + " = " + text && IsGoodKey(k) && IsTrimmed(text)
    ensures ParseLines(stod, lines, n + 1).data ==
              ParseLines(stod, lines, n).data[t + "." + k := ParseValue(stod, text)]
  {
    hide Trim, ParseValue, ParseLine, IsGoodKey;
    var p := ParseLines(stod, lines, m);
    assert "[" + t + "]" + "" == "[" + t + "]";
    HeaderNamesTable(stod, t, "", p);
    TrimTrims(t);
    assert ParseLines(stod, lines, m + 1) == ParseLine(stod, lines[m], p);
    TableStays(stod, lines, m + 1, n);
    EntryIsAdded(stod, k, text, t, ParseLines(stod, lines, n).data);
  }

  // ----- A printed document below a header

  /** The entries read so far are those of the first keys, each under the table. */
  ghost predicate IsSection(t: string, d: Document, order: seq<string>, count: nat, data: Document)
    requires count <= |order| && forall k :: k in order ==> k in d
  {
    && (forall i :: 0 <= i < count ==> t + "." + order[i] in data && data[t + "." + order[i]] == d[order[i]])
    && (forall n :: n in data ==> exists i :: 0 <= i < count && n == t + "." + order[i])
  }

  lemma SectionGrows(t: string, d: Document, order: seq<string>, count: nat, data: Document)
    requires Enumerates(order, d) && count < |order| && IsSection(t, d, order, count, data)
    ensures IsSection(t, d, order, count + 1, data[t + "." + order[count] := d[order[count]]])
  {
    var k := order[count];
    forall i | 0 <= i < count
      ensures t + "." + order[i] != t + "." + k
    {
      KeysDiffer(t + ".", order[i], k);
    }
  }

  lemma {:induction false} SectionReadsBack(
      stod: Stod, t: string, d: Document, order: seq<string>, lines: seq<string>, count: nat)
    requires Enumerates(order, d) && IsPrintable(d) && count <= |order|
    requires IsTrimmed(t) && ']' !in t && t != ""
    requires lines == ["[" + t + "]"] + LinesOf(d, order)
    ensures ParseLines(stod, lines, count + 1).table == t
    ensures IsSection(t, d, order, count, ParseLines(stod, lines, count + 1).data)
  {
    hide ParseLines, LinesOf, IsSection, IsGoodKey, IsGoodValue;
    if count == 0 {
      SectionOpens(stod, t, lines);
      NothingRead(t, d, order);
    } else {
      var k := order[count - 1];
      SectionReadsBack(stod, t, d, order, lines, count - 1);
      LineStands(d, order, lines, count - 1);
      NextEntry(stod, t, k, d[k], lines, count);
      SectionGrows(t, d, order, count - 1, ParseLines(stod, lines, count).data);
    }
  }

  lemma LineStands(d: Document, order: seq<string>, lines: seq<string>, i: nat)
    requires i < |order| && (forall k :: k in order ==> k in d) && |lines| > 0 && lines[1..] == LinesOf(d, order)
    ensures |lines| == |order| + 1 && lines[i + 1] == Line(order[i], d[order[i]])
  {
    hide Line;
    assert lines[i + 1] == lines[1..][i];
  }

  lemma NextEntry(stod: Stod, t: string, k: string, v: Value, lines: seq<string>, n: nat)
    requires n < |lines| && lines[n] == Line(k, v) && IsGoodKey(k) && IsGoodValue(v) && t != ""
    requires ParseLines(stod, lines, n).table == t
    ensures ParseLines(stod, lines, n + 1) == Parse(t, ParseLines(stod, lines, n).data[t + "." + k := v])
  {
    hide ParseLine, Line, IsGoodKey, IsGoodValue;
    EntryComesBack(stod, t, k, v, ParseLines(stod, lines, n));
  }

  lemma NothingRead(t: string, d: Document, order: seq<string>)
    requires forall k :: k in order ==> k in d
    ensures IsSection(t, d, order, 0, map[])
  {
  }

  lemma SectionOpens(stod: Stod, t: string, lines: seq<string>)
    requires lines != [] && lines[0] == "[" + t + "]" && IsTrimmed(t) && ']' !in t
    ensures ParseLines(stod, lines, 1) == Parse(t, map[])
  {
    hide Trim, ParseLine;
    assert "[" + t + "]" + "" == lines[0];
    HeaderNamesTable(stod, t, "", Parse("", map[]));
    TrimTrims(t);
    assert ParseLines(stod, lines, 0) == Parse("", map[]);
  }

  lemma EntryComesBack(stod: Stod, t: string, k: string, v: Value, p: Parse)
    requires IsGoodKey(k) && IsGoodValue(v) && t != "" && p.table == t
    ensures ParseLine(stod, Line(k, v), p) == Parse(t, p.data[t + "." + k := v])
  {
    hide ParseLine, ParseValue, IsGoodKey, IsGoodValue, Printed;
    PrintedShape(v);
    ValueReadsBack(stod, v);
    EntryIsAdded(stod, k, Printed(v), t, p.data);
  }

  lemma KeysDiffer(front: string, a: string, b: string)
    requires a != b
    ensures front + a != front + b
  {
    assert (front + a)[|front|..] == a && (front + b)[|front|..] == b;
  }

  /** A printed document below the header of a table reads back with that table in front of every key. */
  lemma SectionComesBack(stod: Stod, t: string, d: Document, order: seq<string>)
    requires Enumerates(order, d) && IsPrintable(d)
    requires IsTrimmed(t) && ']' !in t && '\n' !in t && t != ""
    ensures var back := ParseContent(stod, "[" + t + "]\n" + PrintAll(d, order));
            && (forall k :: k in d ==> t + "." + k in back && back[t + "." + k] == d[k])
            && (forall n :: n in back ==> exists k :: k in d && n == t + "." + k)
  {
    hide ParseLines, Split, PrintAll, IsGoodKey, IsGoodValue, Printed;
    var header := "[" + t + "]";
    var text := PrintAll(d, order);
    assert header + ['\n'] + text == "[" + t + "]\n" + text;
    forall k | k in d
      ensures '\n' !in k && '\n' !in Printed(d[k])
    {
      KeyHasNoBreak(k);
      PrintedShape(d[k]);
    }
    PrintedSplits(d, order);
    SplitFirst(header, text, '\n');
    SectionReadsBack(stod, t, d, order, [header] + LinesOf(d, order), |order|);
  }

  lemma KeyHasNoBreak(k: string)
    requires IsGoodKey(k)
    ensures '\n' !in k
  {
  }

  // ----- Numbers

  const DIGITS := "0123456789"

  /** Decimal notation, without leading zeros and with '-' in front of negative numbers. */
  lemma NumeralsAreDecimal(n: int, d: nat)
    requires n >= 0 && d < 10
    ensures Numeral(d) == [DIGITS[d]]
    ensures n > 0 ==> Numeral(10 * n + d) == Numeral(n) + [DIGITS[d]]
    ensures n > 0 ==> Numeral(-n) == "-" + Numeral(n)
  {
    assert DIGITS == "0123456789";
    assert DigitChar(d) == DIGITS[d];
  }

  lemma LooksLikeNumber(t: string)
    requires t != "" && (IsDigit(t[0]) || t[0] == '-')
    ensures t != "true" && t != "false" && !IsQuoted(t) && t[0] != '['
  {
    assert "true"[0] == 't' && "false"[0] == 'f';
  }

  /**
    * A value that starts with an integer is that integer, whatever follows: "1.5" reads as 1. Only an integer
    * beyond 64 bits is left to std::stod.
    */
  lemma NumbersLoseTheirTail(stod: Stod, i: int, tail: string)
    requires IsTrimmed(Numeral(i) + tail) && (tail == "" || !IsDigit(tail[0]))
    ensures -0x8000_0000_0000_0000 <= i < 0x8000_0000_0000_0000 ==>
              ParseValue(stod, Numeral(i) + tail) == Integer(i)
    ensures !(-0x8000_0000_0000_0000 <= i < 0x8000_0000_0000_0000) ==>
              ParseValue(stod, Numeral(i) + tail) ==
                match stod(Numeral(i) + tail) case Some(x) => Float(x) case None => Text(Numeral(i) + tail)
  {
    var t := Numeral(i) + tail;
    hide Trim, Numeral, ScanInt;
    NumeralShape(i);
    TrimTrims(t);
    assert t[0] == Numeral(i)[0];
    LooksLikeNumber(t);
    NumeralScansBack(i, tail);
  }

  // ----- Texts and arrays

  /** Either kind of quotes makes a text, and the text is what stands between them. */
  lemma QuotesMakeTexts(stod: Stod, s: string)
    ensures ParseValue(stod, "\"" + s + "\"") == Text(s) && ParseValue(stod, "'" + s + "'") == Text(s)
  {
    hide Trim, ScanInt;
    var double, single := "\"" + s + "\"", "'" + s + "'";
    TrimTrims(double);
    TrimTrims(single);
    assert double[0] == double[|double| - 1] == '"' && single[0] == single[|single| - 1] == '\'';
    assert double[1..|double| - 1] == s && single[1..|single| - 1] == s;
  }

  /** The items of an array, as a person writes them. */
  function Listed(items: seq<string>): string {
    if items == [] then ""
    else if |items| == 1 then items[0]
    else items[0] + ", " + Listed(items[1..])
  }

  ghost predicate AreItems(items: seq<string>) {
    forall i :: 0 <= i < |items| ==> IsTrimmed(items[i]) && ',' !in items[i]
  }

  lemma SplitLast(s: string, c: char)
    requires s != "" && c !in s
    ensures Split(s, c) == [s]
  {
    IndexIs(s, c, |s|);
    assert s[..|s|] == s;
  }

  lemma {:induction false} ListedSplits(front: string, items: seq<string>)
    requires AreItems(items) && items != [] && front + Listed(items) != "" && (front == "" || front == " ")
    ensures TrimEach(Split(front + Listed(items), ',')) == items
    decreases |items|
  {
    hide Split, Trim, IsTrimmed, TrimEach, Listed;
    ItemTrims(front, items[0]);
    if |items| == 1 {
      OneListed(front, items);
    } else {
      ManyListed(front, items);
      ListedSplits(" ", items[1..]);
    }
  }

  lemma OneListed(front: string, items: seq<string>)
    requires |items| == 1 && ',' !in items[0] && front + Listed(items) != "" && (front == "" || front == " ")
    requires Trim(front + items[0]) == items[0]
    ensures TrimEach(Split(front + Listed(items), ',')) == items
  {
    hide Split, Trim;
    SplitLast(front + items[0], ',');
  }

  lemma ManyListed(front: string, items: seq<string>)
    requires |items| > 1 && ',' !in items[0] && (front == "" || front == " ")
    requires Trim(front + items[0]) == items[0]
    ensures TrimEach(Split(front + Listed(items), ',')) == [items[0]] + TrimEach(Split(" " + Listed(items[1..]), ','))
    ensures items == [items[0]] + items[1..]
  {
    hide Split, Trim;
    var first, rest := front + items[0], " " + Listed(items[1..]);
    assert front + Listed(items) == first + [','] + rest;
    SplitFirst(first, rest, ',');
    TrimEachJoins(first, Split(rest, ','));
  }

  lemma TrimEachJoins(first: string, rest: seq<string>)
    ensures TrimEach([first] + rest) == [Trim(first)] + TrimEach(rest)
  {
    hide Trim;
  }

  lemma ItemTrims(front: string, item: string)
    requires IsTrimmed(item) && (front == "" || front == " ")
    ensures Trim(front + item) == item
  {
    hide Trim;
    TrimTrims(item);
    TrimBlanks(item);
    assert front == "" ==> front + item == item;
  }

  /** An array is the list of its trimmed items; they stay texts. */
  lemma ArraysListTheirItems(stod: Stod, items: seq<string>)
    requires AreItems(items) && items != [""]
    ensures ParseValue(stod, "[" + Listed(items) + "]") == Texts(items)
  {
    hide Trim, ScanInt, Split, TrimEach, IsTrimmed, AreItems;
    var t := "[" + Listed(items) + "]";
    Bracketed(Listed(items));
    assert "true"[0] == 't' && "false"[0] == 'f';
    if items == [] {
      SplitNothing(',');
      NothingTrims();
    } else {
      ListedIsNotEmpty(items);
      assert "" + Listed(items) == Listed(items);
      ListedSplits("", items);
    }
  }

  lemma NothingTrims()
    ensures TrimEach([]) == []
  {
  }

  lemma ListedIsNotEmpty(items: seq<string>)
    requires items != [] && items != [""]
    ensures Listed(items) != ""
  {
    if |items| == 1 {
      assert items == [items[0]];
    }
  }

  lemma Bracketed(inner: string)
    ensures var t := "[" + inner + "]"; Trim(t) == t && !IsQuoted(t) && Inner(t) == inner && t[0] == '['
  {
    var t := "[" + inner + "]";
    assert t[0] == '[' && t[|t| - 1] == ']';
    TrimTrims(t);
    assert t[1..|t| - 1] == inner;
  }
}
