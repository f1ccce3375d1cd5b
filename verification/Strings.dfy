/** Searching, splitting and trimming strings. */
module Strings {

  /** The position of the first `c`, or the length when there is none. */
  function IndexOf(s: string, c: char): (i: nat)
    ensures i <= |s| && (i < |s| ==> s[i] == c) && forall j :: 0 <= j < i ==> s[j] != c
  {
    if s == [] || s[0] == c then 0 else 1 + IndexOf(s[1..], c)
  }

  lemma IndexIs(s: string, c: char, i: nat)
    requires i <= |s| && (i < |s| ==> s[i] == c) && forall j :: 0 <= j < i ==> s[j] != c
    ensures IndexOf(s, c) == i
  {
  }

  /** The pieces std::getline reads: a piece ends at the separator, and nothing follows a final one. */
  function Split(s: string, c: char): seq<string>
    decreases |s|
  {
    if s == "" then []
    else
      var i := IndexOf(s, c);
      [s[..i]] + if i < |s| then Split(s[i + 1..], c) else []
  }

  lemma {:induction false} PiecesAreClean(s: string, c: char)
    ensures forall k :: 0 <= k < |Split(s, c)| ==> c !in Split(s, c)[k]
    decreases |s|
  {
    if s != "" {
      var i := IndexOf(s, c);
      if i < |s| {
        PiecesAreClean(s[i + 1..], c);
      }
    }
  }

  lemma SplitFirst(line: string, rest: string, c: char)
    requires c !in line
    ensures Split(line + [c] + rest, c) == [line] + Split(rest, c)
  {
    var s := line + [c] + rest;
    IndexIs(s, c, |line|);
    assert s[..|line|] == line && s[|line| + 1..] == rest;
  }

  predicate IsBlank(c: char) {
    c == ' ' || c == '\t' || c == '\r' || c == '\n'
  }

  function TrimLeft(s: string): string {
    if s != "" && IsBlank(s[0]) then TrimLeft(s[1..]) else s
  }

  function TrimRight(s: string): string {
    if s != "" && IsBlank(s[|s| - 1]) then TrimRight(s[..|s| - 1]) else s
  }

  function Trim(s: string): string {
    TrimRight(TrimLeft(s))
  }

  predicate IsTrimmed(s: string) {
    s != "" ==> !IsBlank(s[0]) && !IsBlank(s[|s| - 1])
  }

  lemma {:induction false} TrimLeftKeeps(s: string)
    ensures TrimLeft(s) != "" ==> !IsBlank(TrimLeft(s)[0])
    ensures forall c :: c in TrimLeft(s) ==> c in s
    ensures s != "" && !IsBlank(s[|s| - 1]) ==> TrimLeft(s) != "" && TrimLeft(s)[|TrimLeft(s)| - 1] == s[|s| - 1]
  {
    if s != "" && IsBlank(s[0]) {
      TrimLeftKeeps(s[1..]);
    }
  }

  lemma {:induction false} TrimRightKeeps(s: string)
    ensures TrimRight(s) != "" ==> !IsBlank(TrimRight(s)[|TrimRight(s)| - 1])
    ensures forall c :: c in TrimRight(s) ==> c in s
    ensures s != "" && !IsBlank(s[0]) ==> TrimRight(s) != "" && TrimRight(s)[0] == s[0]
    ensures TrimRight(s) <= s
  {
    if s != "" && IsBlank(s[|s| - 1]) {
      TrimRightKeeps(s[..|s| - 1]);
    }
  }

  /** Trimming trims, adds nothing, and leaves a trimmed string alone. */
  lemma TrimTrims(s: string)
    ensures IsTrimmed(Trim(s))
    ensures forall c :: c in Trim(s) ==> c in s
    ensures IsTrimmed(s) ==> Trim(s) == s
    ensures s != "" && !IsBlank(s[0]) ==> Trim(s) != "" && Trim(s)[0] == s[0]
  {
    TrimLeftKeeps(s);
    TrimRightKeeps(TrimLeft(s));
  }

  /** Blanks around a trimmed string come off. */
  lemma TrimBlanks(s: string)
    requires IsTrimmed(s)
    ensures Trim(" " + s) == s && Trim(s + " ") == s
  {
    var l, r := " " + s, s + " ";
    assert l[1..] == s && r[..|s|] == s;
    assert IsBlank(l[0]) && IsBlank(r[|r| - 1]);
    assert TrimLeft(l) == TrimLeft(s) == s;
    assert TrimRight(s) == s;
    if s == "" {
      assert r == l;
    } else {
      assert TrimLeft(r) == r;
      assert TrimRight(r) == TrimRight(s);
    }
  }
}
