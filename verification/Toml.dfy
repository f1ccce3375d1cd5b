/** The document printer and parser. */
module Toml {
  import opened Decimals
  import opened Options
  import opened Strings

  type Int64 = i: int | -0x8000_0000_0000_0000 <= i < 0x8000_0000_0000_0000

  datatype Value = Unset | Bool(b: bool) | Integer(i: Int64) | Float(x: real) | Text(s: string) | Texts(items: seq<string>)

  type Document = map<string, Value>

  /** What std::stod makes of a string; it is a parameter of the parser. */
  type Stod = string -> Option<real>

  // ----- Parsing

  predicate IsQuoted(t: string) {
    t != "" && ((t[0] == '"' && t[|t| - 1] == '"') || (t[0] == '\'' && t[|t| - 1] == '\''))
  }

  /** substr(1, length - 2), which for a single character is empty. */
  function Inner(t: string): string
    requires t != ""
  {
    if |t| == 1 then "" else t[1..|t| - 1]
  }

  function TrimEach(items: seq<string>): seq<string> {
    seq(|items|, i requires 0 <= i < |items| => Trim(items[i]))
  }

  function ParseValue(stod: Stod, value: string): Value {
    var t := Trim(value);
    if t == "true" then Bool(true)
    else if t == "false" then Bool(false)
    else if IsQuoted(t) then Text(Inner(t))
    else if t != "" && t[0] == '[' then Texts(TrimEach(Split(Inner(t), ',')))
    else
      match ScanInt(t)
      case Some((i, _)) =>
        if -0x8000_0000_0000_0000 <= i < 0x8000_0000_0000_0000 then Integer(i) else ParseDouble(stod, t)
      case None => ParseDouble(stod, t)
  }

  function ParseDouble(stod: Stod, t: string): Value {
    match stod(t) case Some(x) => Float(x) case None => Text(t)
  }

  /** What a line leaves behind: the current table and the entries so far. */
  datatype Parse = Parse(table: string, data: Document)

  function ParseLine(stod: Stod, raw: string, p: Parse): Parse {
    var line := Trim(raw);
    if line == "" || line[0] == '#' then p
    else if line[0] == '[' then
      var end := IndexOf(line, ']');
      if end < |line| then p.(table := Trim(line[1..end])) else p
    else
      var eq := IndexOf(line, '=');
      if eq == |line| then p
      else
        var key := Trim(line[..eq]);
        var value := ParseValue(stod, Trim(line[eq + 1..]));
        p.(data := p.data[(if p.table == "" then key else p.table + "." + key) := value])
  }

  function ParseLines(stod: Stod, lines: seq<string>, count: nat): Parse
    requires count <= |lines|
  {
    if count == 0 then Parse("", map[]) else ParseLine(stod, lines[count - 1], ParseLines(stod, lines, count - 1))
  }

  function ParseContent(stod: Stod, content: string): Document {
    var lines := Split(content, '\n');
    ParseLines(stod, lines, |lines|).data
  }

  // ----- Printing

  function Printed(v: Value): string {
    match v
    case Text(s) => "\"" + s + "\""
    case Integer(i) => Numeral(i)
    case Bool(b) => if b then "true" else "false"
    case _ => ""
  }

  function Line(key: string, v: Value): string {
    key + " = " + Printed(v)
  }

  /** The keys of a document, each once; the ordered map prints them in ascending order. */
  ghost predicate Enumerates(order: seq<string>, d: Document) {
    && (forall k :: k in order <==> k in d)
    && (forall i, j :: 0 <= i < j < |order| ==> order[i] != order[j])
  }

  function PrintAll(d: Document, order: seq<string>): string
    requires forall k :: k in order ==> k in d
  {
    if order == [] then "" else (Line(order[0], d[order[0]]) + "\n") + PrintAll(d, order[1..])
  }

  // ----- The class

  class TomlDocument {
    var data: Document

    constructor ()
      ensures data == map[]
    {
      data := map[];
    }

    method Load(stod: Stod, content: string)
      requires data == map[]
      modifies this
      ensures data == ParseContent(stod, content)
    {
      hide ParseLine, Split;
      var lines := Split(content, '\n');
      var currentTable := "";
      for n := 0 to |lines|
        invariant Parse(currentTable, data) == ParseLines(stod, lines, n)
      {
        currentTable := LoadLine(stod, lines[n], currentTable);
      }
    }

    /** One line of the parsing loop. */
    method LoadLine(stod: Stod, raw: string, currentTable: string) returns (table: string)
      modifies this
      ensures Parse(table, data) == ParseLine(stod, raw, Parse(currentTable, old(data)))
    {
      hide Trim, ParseValue, IndexOf;
      table := currentTable;
      var line := Trim(raw);
      if line == "" || line[0] == '#' {
        return;
      }
      if line[0] == '[' {
        var end := IndexOf(line, ']');
        if end < |line| {
          table := Trim(line[1..end]);
        }
        return;
      }
      var eqPos := IndexOf(line, '=');
      if eqPos < |line| {
        var key := Trim(line[..eqPos]);
        var value := Trim(line[eqPos + 1..]);
        var parsed := ParseValue(stod, value);
        if table != "" {
          key := table + "." + key;
        }
        data := data[key := parsed];
      }
    }

    /** `order` is the order of the map's keys. */
    method ToString(order: seq<string>) returns (text: string)
      requires Enumerates(order, data)
      ensures text == PrintAll(data, order)
    {
      text := "";
      var n := 0;
      while n < |order|
        invariant 0 <= n <= |order|
        invariant text + PrintAll(data, order[n..]) == PrintAll(data, order)
      {
        var key := order[n];
        var line := PrintEntry(key, data[key]);
        assert order[n..][1..] == order[n + 1..];
        Associates(text, line + "\n", PrintAll(data, order[n + 1..]));
        text := text + (line + "\n");
        n := n + 1;
      }
    }

    method PrintEntry(key: string, v: Value) returns (line: string)
      ensures line == Line(key, v)
    {
      line := key + " = ";
      match v
      case Text(s) => line := line + ("\"" + s + "\"");
      case Integer(i) => line := line + Numeral(i);
      case Bool(b) => line := line + (if b then "true" else "false");
      case _ =>
    }
  }

  lemma Associates(a: string, b: string, c: string)
    ensures (a + b) + c == a + (b + c)
  {
  }
}
