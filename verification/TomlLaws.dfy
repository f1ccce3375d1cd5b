/** Exactly which documents survive being printed and parsed. */
module TomlLaws {
  import opened Decimals
  import opened Options
  import opened Strings
  import opened Toml

  /** A key that is its own trimming, has no '=' and no line break, and does not open a comment or a table. */
  predicate IsGoodKey(k: string) {
    IsTrimmed(k) && '=' !in k && '\n' !in k && (k == "" || (k[0] != '#' && k[0] != '['))
  }

  predicate IsGoodValue(v: Value) {
    v.Bool? || v.Integer? || (v.Text? && '\n' !in v.s)
  }

  ghost predicate IsPrintable(d: Document) {
    forall k :: k in d ==> IsGoodKey(k) && IsGoodValue(d[k])
  }

  // ----- One entry read back

  lemma DigitsAreNotBlank(n: nat)
    ensures IsTrimmed(Digits(n)) && Digits(n) != ""
    ensures '\n' !in Digits(n)
    ensures IsDigit(Digits(n)[0])
  {
    assert IsDigit(Digits(n)[0]) && IsDigit(Digits(n)[|Digits(n)| - 1]);
  }

  lemma NumeralShape(i: int)
    ensures Numeral(i) != "" && IsTrimmed(Numeral(i)) && '\n' !in Numeral(i)
    ensures IsDigit(Numeral(i)[0]) || Numeral(i)[0] == '-'
  {
    var n: nat := if i < 0 then -i else i;
    DigitsAreNotBlank(n);
    assert IsDigit(Digits(n)[|Digits(n)| - 1]);
  }

  /** A printed value has no line break unless a text brings one, and reads back as itself. */
  lemma PrintedShape(v: Value)
    requires IsGoodValue(v)
    ensures Printed(v) != "" && IsTrimmed(Printed(v)) && '\n' !in Printed(v)
  {
    if v.Integer? {
      NumeralShape(v.i);
    }
  }

  lemma ValueReadsBack(stod: Stod, v: Value)
    requires IsGoodValue(v)
    ensures ParseValue(stod, Printed(v)) == v
  {
    hide Numeral, ScanInt, Trim;
    PrintedShape(v);
    TrimTrims(Printed(v));
    match v
    case Text(s) =>
      var t := Printed(v);
      assert t[0] == '"' && t[|t| - 1] == '"' && |t| == |s| + 2;
      assert t[1..|t| - 1] == s;
    case Integer(i) =>
      NumeralShape(i);
      NumeralScansBack(i, "");
      assert Numeral(i) + "" == Numeral(i);
    case Bool(b) =>
    case _ =>
  }

  /** What stands left and right of the '=' once the line is trimmed. */
  function LeftPart(k: string): string {
    if k == "" then "" else k + " "
  }

  function RightPart(p: string): string {
    if p == "" then "" else " " + p
  }

  lemma TrimFront(s: string)
    ensures Trim(" " + s) == Trim(s)
  {
    assert (" " + s)[1..] == s;
  }

  lemma TrimBack(s: string)
    requires s != "" && !IsBlank(s[0])
    ensures Trim(s + " ") == Trim(s)
  {
    assert (s + " ")[..|s|] == s;
    assert TrimLeft(s + " ") == s + " " && TrimLeft(s) == s;
  }

  lemma PartsTrim(k: string, p: string)
    requires IsTrimmed(k) && IsTrimmed(p)
    ensures Trim(LeftPart(k)) == k && Trim(RightPart(p)) == p
  {
    TrimBlanks(k);
    TrimBlanks(p);
    TrimTrims("");
  }

  lemma NoKeyTrims(p: string)
    requires IsTrimmed(p) && p != ""
    ensures Trim("" + " = " + p) == "=" + RightPart(p)
  {
    var core := "=" + RightPart(p);
    TrimTrims(core);
    hide Trim;
    assert "" + " = " + p == " " + core;
    TrimFront(core);
  }

  lemma BothTrim(k: string, p: string)
    requires IsTrimmed(k) && IsTrimmed(p) && k != "" && p != ""
    ensures Trim(k + " = " + p) == LeftPart(k) + "=" + RightPart(p)
  {
    var core := LeftPart(k) + "=" + RightPart(p);
    assert core[0] == k[0] && core[|core| - 1] == p[|p| - 1];
    hide Trim;
    assert k + " = " + p == core;
    TrimTrims(core);
  }

  lemma LineTrims(k: string, p: string)
    requires IsTrimmed(k) && IsTrimmed(p)
    ensures Trim(k + " = " + p) == LeftPart(k) + "=" + RightPart(p)
  {
    hide Trim, IsTrimmed;
    if p == "" {
      NoValueTrims(k);
    } else if k == "" {
      NoKeyTrims(p);
    } else {
      BothTrim(k, p);
    }
  }

  lemma NoValueTrims(k: string)
    requires IsTrimmed(k)
    ensures Trim(k + " = " + "") == LeftPart(k) + "=" + ""
  {
    hide Trim;
    if k == "" {
      TrimTrims("=");
      TrimBack("=");
      TrimFront("=" + " ");
      assert k + " = " + "" == " " + ("=" + " ");
      assert LeftPart(k) + "=" + "" == "=";
    } else {
      var core := k + " " + "=";
      TrimTrims(core);
      TrimBack(core);
      assert k + " = " + "" == core + " ";
      assert LeftPart(k) + "=" + "" == core;
    }
  }

  /** Parsing `k = text` in a table adds exactly the key of that table, at what the text reads as. */
  lemma EntryIsAdded(stod: Stod, k: string, text: string, table: string, data: Document)
    requires IsGoodKey(k) && IsTrimmed(text)
    ensures var key := if table == "" then k else table + "." + k;
            ParseLine(stod, k + " = " + text, Parse(table, data)) ==
              Parse(table, data[key := ParseValue(stod, text)])
  {
    hide Trim, ParseValue;
    var left, right := LeftPart(k), RightPart(text);
    var line := left + "=" + right;
    LineTrims(k, text);
    PartsTrim(k, text);
    assert '=' !in left;
    IndexIs(line, '=', |left|);
    assert line[..|left|] == left && line[|left| + 1..] == right;
  }

  /** Parsing the line of a good key adds exactly that key, at what its printed value reads as. */
  lemma EntryReadsBack(stod: Stod, k: string, v: Value, data: Document)
    requires IsGoodKey(k) && IsTrimmed(Printed(v))
    ensures ParseLine(stod, Line(k, v), Parse("", data)) == Parse("", data[k := ParseValue(stod, Printed(v))])
  {
    hide ParseLine, ParseValue, Printed;
    EntryIsAdded(stod, k, Printed(v), "", data);
  }

  // ----- A printed document, line by line

  function LinesOf(d: Document, order: seq<string>): seq<string>
    requires forall k :: k in order ==> k in d
  {
    seq(|order|, i requires 0 <= i < |order| && order[i] in d => Line(order[i], d[order[i]]))
  }

  /** Keys and printed values are free of line breaks. */
  ghost predicate IsOneLineEach(d: Document) {
    forall k :: k in d ==> '\n' !in k && '\n' !in Printed(d[k])
  }

  lemma {:induction false} PrintedSplits(d: Document, order: seq<string>)
    requires IsOneLineEach(d) && forall k :: k in order ==> k in d
    ensures Split(PrintAll(d, order), '\n') == LinesOf(d, order)
  {
    hide Printed, Split;
    if order == [] {
      SplitNothing('\n');
    } else {
      var k := order[0];
      PrintedSplits(d, order[1..]);
      assert '\n' !in Line(k, d[k]);
      SplitFirst(Line(k, d[k]), PrintAll(d, order[1..]), '\n');
      assert LinesOf(d, order) == [Line(k, d[k])] + LinesOf(d, order[1..]);
    }
  }

  lemma SplitNothing(c: char)
    ensures Split("", c) == []
  {
  }

  // ----- Printable documents come back

  /** The entries of the first `count` keys, as their printed values read. */
  function ReadBack(stod: Stod, d: Document, order: seq<string>, count: nat): Document
    requires count <= |order| && forall k :: k in order ==> k in d
  {
    if count == 0 then map[]
    else ReadBack(stod, d, order, count - 1)[order[count - 1] := ParseValue(stod, Printed(d[order[count - 1]]))]
  }

  lemma {:induction false} GoodKeysReadBack(stod: Stod, d: Document, order: seq<string>, count: nat)
    requires count <= |order| && forall k :: k in order ==> k in d && IsGoodKey(k) && IsTrimmed(Printed(d[k]))
    ensures ParseLines(stod, LinesOf(d, order), count) == Parse("", ReadBack(stod, d, order, count))
  {
    hide ParseLine, ParseValue, Printed, IsGoodKey, Line;
    if count > 0 {
      GoodKeysReadBack(stod, d, order, count - 1);
      var k := order[count - 1];
      EntryReadsBack(stod, k, d[k], ReadBack(stod, d, order, count - 1));
    }
  }

  lemma {:induction false} ReadBackExactly(stod: Stod, d: Document, order: seq<string>, count: nat)
    requires count <= |order| && forall k :: k in order ==> k in d
    ensures forall k :: k in ReadBack(stod, d, order, count) <==> k in order[..count]
    ensures forall k :: k in order[..count] ==>
              ReadBack(stod, d, order, count)[k] == ParseValue(stod, Printed(d[k]))
  {
    hide ParseValue, Printed;
    if count > 0 {
      ReadBackExactly(stod, d, order, count - 1);
      assert order[..count] == order[..count - 1] + [order[count - 1]];
    }
  }

  /** A document whose keys are good reads back with every value replaced by what its printed form reads as. */
  lemma GoodDocumentReads(stod: Stod, d: Document, order: seq<string>, k: string)
    requires Enumerates(order, d) && IsOneLineEach(d)
    requires forall n :: n in d ==> IsGoodKey(n) && IsTrimmed(Printed(d[n]))
    ensures ParseContent(stod, PrintAll(d, order)).Keys == d.Keys
    ensures k in d ==> ParseContent(stod, PrintAll(d, order))[k] == ParseValue(stod, Printed(d[k]))
  {
    hide ParseValue, Printed, IsGoodKey, ParseLines;
    PrintedSplits(d, order);
    GoodKeysReadBack(stod, d, order, |order|);
    ReadBackExactly(stod, d, order, |order|);
    assert order[..|order|] == order;
  }

  lemma PrintableComesBack(stod: Stod, d: Document, order: seq<string>)
    requires Enumerates(order, d) && IsPrintable(d)
    ensures ParseContent(stod, PrintAll(d, order)) == d
  {
    hide ParseContent, PrintAll, Printed, ParseValue;
    forall k | k in d
      ensures IsTrimmed(Printed(d[k])) && '\n' !in Printed(d[k]) && ParseValue(stod, Printed(d[k])) == d[k]
    {
      PrintedShape(d[k]);
      ValueReadsBack(stod, d[k]);
    }
    var back := ParseContent(stod, PrintAll(d, order));
    forall k | k in d
      ensures k in back && back[k] == d[k]
    {
      GoodDocumentReads(stod, d, order, k);
    }
    GoodDocumentReads(stod, d, order, "");
    assert back.Keys == d.Keys;
  }

  // ----- Nothing else comes back

  ghost predicate IsCleanValue(v: Value) {
    v.Text? ==> '\n' !in v.s
  }

  ghost predicate IsClean(p: Parse) {
    '\n' !in p.table && forall k :: k in p.data ==> '\n' !in k && IsCleanValue(p.data[k])
  }

  lemma ParsedValueIsClean(stod: Stod, s: string)
    requires '\n' !in s
    ensures IsCleanValue(ParseValue(stod, s))
  {
    hide Trim, ScanInt, Split;
    TrimTrims(s);
  }

  lemma LineStaysClean(stod: Stod, raw: string, p: Parse)
    requires '\n' !in raw && IsClean(p)
    ensures IsClean(ParseLine(stod, raw, p))
  {
    hide Trim, ParseValue, IsCleanValue;
    var line := Trim(raw);
    TrimTrims(raw);
    if line != "" && line[0] == '[' {
      var end := IndexOf(line, ']');
      if end < |line| {
        TrimTrims(line[1..end]);
      }
    } else if line != "" {
      var eq := IndexOf(line, '=');
      if eq < |line| {
        TrimTrims(line[..eq]);
        TrimTrims(line[eq + 1..]);
        ParsedValueIsClean(stod, Trim(line[eq + 1..]));
      }
    }
  }

  /** No key and no text that has been parsed holds a line break. */
  lemma {:induction false} ParsedIsClean(stod: Stod, lines: seq<string>, count: nat)
    requires count <= |lines| && forall i :: 0 <= i < |lines| ==> '\n' !in lines[i]
    ensures IsClean(ParseLines(stod, lines, count))
  {
    hide ParseLine, IsCleanValue;
    if count > 0 {
      ParsedIsClean(stod, lines, count - 1);
      LineStaysClean(stod, lines[count - 1], ParseLines(stod, lines, count - 1));
    }
  }

  /** A line that opens a comment or a table: it adds no entry. */
  predicate IsSilent(raw: string) {
    var line := Trim(raw);
    line != "" && (line[0] == '#' || line[0] == '[')
  }

  lemma OneMoreEntry(d: Document, k: string, v: Value)
    ensures |d[k := v]| <= |d| + 1
  {
    assert d[k := v].Keys == d.Keys + {k};
    assert |d[k := v]| == |d[k := v].Keys| && |d| == |d.Keys|;
  }

  lemma LineAddsOne(stod: Stod, raw: string, p: Parse)
    ensures |ParseLine(stod, raw, p).data| <= |p.data| + 1
    ensures IsSilent(raw) ==> ParseLine(stod, raw, p).data == p.data
  {
    hide Trim, ParseValue;
    var line := Trim(raw);
    var eq := IndexOf(line, '=');
    if eq < |line| {
      var key := Trim(line[..eq]);
      OneMoreEntry(p.data, if p.table == "" then key else p.table + "." + key, ParseValue(stod, Trim(line[eq + 1..])));
    }
  }

  lemma {:induction false} SilentLinesCost(stod: Stod, lines: seq<string>, count: nat, silent: nat)
    requires count <= |lines| && silent < |lines| && IsSilent(lines[silent])
    ensures |ParseLines(stod, lines, count).data| <= if silent < count then count - 1 else count
  {
    hide ParseLine, IsSilent;
    if count > 0 {
      SilentLinesCost(stod, lines, count - 1, silent);
      LineAddsOne(stod, lines[count - 1], ParseLines(stod, lines, count - 1));
    }
  }

  /** Without comments and tables every parsed key is a good one. */
  ghost predicate IsGoodSoFar(p: Parse) {
    p.table == "" && forall k :: k in p.data ==> IsGoodKey(k)
  }

  lemma LineStaysGood(stod: Stod, raw: string, p: Parse)
    requires '\n' !in raw && !IsSilent(raw) && IsGoodSoFar(p)
    ensures IsGoodSoFar(ParseLine(stod, raw, p))
  {
    hide Trim, ParseValue;
    var line := Trim(raw);
    TrimTrims(raw);
    if line != "" {
      var eq := IndexOf(line, '=');
      if eq < |line| {
        var key := Trim(line[..eq]);
        TrimTrims(line[..eq]);
        if eq > 0 {
          assert line[..eq][0] == line[0];
        }
        assert IsGoodKey(key);
      }
    }
  }

  lemma {:induction false} LoudLinesStayGood(stod: Stod, lines: seq<string>, count: nat)
    requires count <= |lines| && forall i :: 0 <= i < |lines| ==> '\n' !in lines[i] && !IsSilent(lines[i])
    ensures IsGoodSoFar(ParseLines(stod, lines, count))
  {
    hide ParseLine, IsSilent, IsGoodKey;
    if count > 0 {
      LoudLinesStayGood(stod, lines, count - 1);
      LineStaysGood(stod, lines[count - 1], ParseLines(stod, lines, count - 1));
    }
  }

  lemma {:induction false} KeysAreCounted(order: seq<string>, d: Document)
    requires Enumerates(order, d)
    ensures |order| == |d|
  {
    var keys := set k | k in order;
    assert keys == d.Keys;
    DistinctCount(order);
  }

  lemma {:induction false} DistinctCount(order: seq<string>)
    requires forall i, j :: 0 <= i < j < |order| ==> order[i] != order[j]
    ensures |set k | k in order| == |order|
  {
    if order != [] {
      var rest := order[..|order| - 1];
      DistinctCount(rest);
      assert (set k | k in order) == (set k | k in rest) + {order[|order| - 1]};
      assert order[|order| - 1] !in rest;
    }
  }

  lemma CleanDocumentIsOneLineEach(d: Document)
    requires forall k :: k in d ==> '\n' !in k && IsCleanValue(d[k])
    ensures IsOneLineEach(d)
  {
    forall k | k in d
      ensures '\n' !in Printed(d[k])
    {
      if d[k].Integer? {
        NumeralShape(d[k].i);
      }
    }
  }

  /** A document that comes back has only good keys. */
  lemma KeysComeBackGood(stod: Stod, d: Document, order: seq<string>)
    requires Enumerates(order, d) && ParseContent(stod, PrintAll(d, order)) == d
    ensures IsOneLineEach(d) && forall k :: k in d ==> IsGoodKey(k) && IsCleanValue(d[k])
  {
    hide ParseLines, PrintAll, Split, IsSilent, IsGoodKey, IsCleanValue, Printed;
    var lines := Split(PrintAll(d, order), '\n');
    PiecesAreClean(PrintAll(d, order), '\n');
    ParsedIsClean(stod, lines, |lines|);
    CleanDocumentIsOneLineEach(d);
    PrintedSplits(d, order);
    KeysAreCounted(order, d);
    if silent: nat :| silent < |lines| && IsSilent(lines[silent]) {
      SilentLinesCost(stod, lines, |lines|, silent);
      assert false;
    }
    LoudLinesStayGood(stod, lines, |lines|);
  }

  lemma PrintedIsTrimmed(v: Value)
    requires IsCleanValue(v)
    ensures IsTrimmed(Printed(v))
    ensures !IsGoodValue(v) ==> Printed(v) == ""
  {
    if v.Integer? {
      NumeralShape(v.i);
    }
  }

  /**
    * For every document and every order of its keys: parsing what was printed gives the document back exactly when
    * its keys are good and its values are booleans, integers or texts without line breaks.
    */
  lemma ComesBackExactly(stod: Stod, d: Document, order: seq<string>)
    requires Enumerates(order, d) && stod("") == None
    ensures ParseContent(stod, PrintAll(d, order)) == d <==> IsPrintable(d)
  {
    hide ParseContent, PrintAll, ParseValue, Printed, IsGoodKey, IsCleanValue;
    if IsPrintable(d) {
      PrintableComesBack(stod, d, order);
    } else if ParseContent(stod, PrintAll(d, order)) == d {
      KeysComeBackGood(stod, d, order);
      forall k | k in d
        ensures IsTrimmed(Printed(d[k]))
      {
        PrintedIsTrimmed(d[k]);
      }
      var k :| k in d && !IsGoodValue(d[k]);
      PrintedIsTrimmed(d[k]);
      GoodDocumentReads(stod, d, order, k);
      EmptyReadsAsText(stod);
      assert false;
    }
  }

  lemma EmptyReadsAsText(stod: Stod)
    requires stod("") == None
    ensures ParseValue(stod, "") == Text("") && IsGoodValue(Text(""))
  {
    assert ScanInt("") == None;
  }
}
