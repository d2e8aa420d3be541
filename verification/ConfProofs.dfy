/** The parser accepts exactly the grammar, and recovers what was written. */
module ConfProofs {
  import opened Options
  import opened ConfGrammar

  // ---- Scanning between known positions

  lemma EatSpaceTo(line: string, i: nat, j: nat)
    requires i <= j <= |line| && SpacesIn(line, i, j) && (j < |line| ==> !Space(line[j]))
    ensures EatSpace(line, i) == j
  {
    var r := EatSpace(line, i);
    assert SpacesIn(line, i, r);
  }

  lemma NameEndTo(line: string, i: nat, j: nat)
    requires i <= j <= |line| && NameCharsIn(line, i, j) && (j < |line| ==> !NameChar(line[j]))
    ensures NameEnd(line, i) == j
  {
    var r := NameEnd(line, i);
    assert NameCharsIn(line, i, r);
  }

  lemma {:induction false} QuoteEndTo(line: string, i: nat, j: nat)
    requires i <= j < |line| && IsQuotedBody(line[i..j]) && line[j] == '"'
    ensures QuoteEnd(line, i) == Some(j + 1)
    decreases j - i
  {
    if i < j {
      var n := if line[i] == '\\' then 2 else 1;
      assert line[i..j][n..] == line[i + n..j];
      QuoteEndTo(line, i + n, j);
    }
  }

  lemma {:induction false} QuoteEndBody(line: string, i: nat)
    requires i <= |line| && QuoteEnd(line, i).Some?
    ensures var j := QuoteEnd(line, i).value;
            i < j <= |line| && line[j - 1] == '"' && IsQuotedBody(line[i..j - 1])
    decreases |line| - i
  {
    if line[i] != '"' {
      var n, j := if line[i] == '\\' then 2 else 1, QuoteEnd(line, i).value;
      QuoteEndBody(line, i + n);
      assert line[i..j - 1][n..] == line[i + n..j - 1];
    }
  }

  // ---- An assignment line by the positions at which its pieces begin

  datatype Marks = Marks(a: nat, b: nat, c: nat, d: nat, e: nat, f: nat)

  ghost predicate MarkedHead(line: string, m: Marks) {
    && m.a < m.b <= m.c < m.d < |line|
    && SpacesIn(line, 0, m.a) && Letter(line[m.a]) && NameCharsIn(line, m.a, m.b)
    && SpacesIn(line, m.b, m.c) && line[m.c] == '=' && SpacesIn(line, m.c + 1, m.d)
    && (Letter(line[m.d]) || Digit(line[m.d]) || line[m.d] == '"')
  }

  ghost predicate BareAt(line: string, d: nat, e: nat) {
    d < e <= |line| && line[d] != '"' && NameCharsIn(line, d, e)
  }

  ghost predicate QuotedAt(line: string, d: nat, e: nat) {
    d + 1 < e <= |line| && line[d] == '"' && IsQuotedBody(line[d + 1..e - 1]) && line[e - 1] == '"'
  }

  ghost predicate EndsAt(line: string, e: nat, f: nat) {
    e <= f <= |line| && SpacesIn(line, e, f) && (f < |line| ==> line[f] == '#')
  }

  lemma ParseHead(line: string, m: Marks, beyond: char)
    requires MarkedHead(line, m)
    ensures ParseLine(line, beyond) == VariableValue(line, m.d, line[m.a..m.b])
  {
    ParseToName(line, m, beyond);
    ParseToValue(line, m, line[m.a..m.b]);
  }

  lemma ParseToName(line: string, m: Marks, beyond: char)
    requires MarkedHead(line, m)
    ensures ParseLine(line, beyond) == WhiteSpace2(line, m.b, line[m.a..m.b])
  {
    EatSpaceTo(line, 0, m.a);
    NameEndTo(line, m.a, m.b);
  }

  lemma ParseToValue(line: string, m: Marks, name: string)
    requires MarkedHead(line, m)
    ensures WhiteSpace2(line, m.b, name) == VariableValue(line, m.d, name)
  {
    EatSpaceTo(line, m.b, m.c);
    EatSpaceTo(line, m.c + 1, m.d);
  }

  lemma ParseBare(line: string, m: Marks, name: string)
    requires BareAt(line, m.d, m.e) && EndsAt(line, m.e, m.f)
    ensures VariableValue(line, m.d, name) == Assignment(name, line[m.d..m.e])
  {
    EatSpaceTo(line, m.e, m.f);
    assert m.e < m.f ==> Space(line[m.e]);
    NameEndTo(line, m.d, m.e);
  }

  lemma ParseQuoted(line: string, m: Marks, name: string)
    requires QuotedAt(line, m.d, m.e) && EndsAt(line, m.e, m.f)
    ensures VariableValue(line, m.d, name) == Assignment(name, RemoveBackslashes(line[m.d..m.e]))
  {
    EatSpaceTo(line, m.e, m.f);
    QuoteEndTo(line, m.d + 1, m.e - 1);
  }

  /** Every accepted assignment line has such positions. */
  lemma AcceptedMarks(line: string, beyond: char) returns (m: Marks)
    requires ParseLine(line, beyond).Assignment?
    ensures MarkedHead(line, m) && (BareAt(line, m.d, m.e) || QuotedAt(line, m.d, m.e)) && EndsAt(line, m.e, m.f)
  {
    var a, b := AcceptedName(line, beyond);
    var c, d := AcceptedSign(line, b, line[a..b]);
    var e, f := AcceptedValue(line, d, line[a..b]);
    m := Marks(a, b, c, d, e, f);
  }

  lemma AcceptedName(line: string, beyond: char) returns (a: nat, b: nat)
    requires ParseLine(line, beyond).Assignment?
    ensures a < b <= |line| && SpacesIn(line, 0, a) && Letter(line[a]) && NameCharsIn(line, a, b)
    ensures WhiteSpace2(line, b, line[a..b]).Assignment?
  {
    a := EatSpace(line, 0);
    b := NameEnd(line, a);
  }

  lemma AcceptedSign(line: string, b: nat, name: string) returns (c: nat, d: nat)
    requires b <= |line| && WhiteSpace2(line, b, name).Assignment?
    ensures b <= c < d < |line| && SpacesIn(line, b, c) && line[c] == '=' && SpacesIn(line, c + 1, d)
    ensures Letter(line[d]) || Digit(line[d]) || line[d] == '"'
    ensures VariableValue(line, d, name).Assignment?
  {
    c := EatSpace(line, b);
    d := EatSpace(line, c + 1);
  }

  lemma AcceptedValue(line: string, d: nat, name: string) returns (e: nat, f: nat)
    requires d < |line| && (Letter(line[d]) || Digit(line[d]) || line[d] == '"')
    requires VariableValue(line, d, name).Assignment?
    ensures (BareAt(line, d, e) || QuotedAt(line, d, e)) && EndsAt(line, e, f)
  {
    if line[d] == '"' {
      QuoteEndBody(line, d + 1);
      e := QuoteEnd(line, d + 1).value;
    } else {
      e := NameEnd(line, d);
    }
    f := EatSpace(line, e);
  }

  // ---- Printed lines

  /** The line is cut at `cuts` into the strings `ps`. */
  ghost predicate CutInto(line: string, ps: seq<string>, cuts: seq<nat>) {
    && |cuts| == |ps| + 1 && cuts[0] == 0 && cuts[|ps|] == |line|
    && forall i | 0 <= i < |ps| :: CutAt(line, ps, cuts, i)
  }

  ghost predicate CutAt(line: string, ps: seq<string>, cuts: seq<nat>, i: nat)
    requires i < |ps| && |cuts| == |ps| + 1
  {
    cuts[i] <= cuts[i + 1] <= |line| && line[cuts[i]..cuts[i + 1]] == ps[i]
  }

  lemma {:induction false} CutFlatten(ps: seq<string>) returns (cuts: seq<nat>)
    ensures CutInto(Flatten(ps), ps, cuts)
  {
    if ps == [] {
      cuts := [0];
    } else {
      var tail := CutFlatten(ps[1..]);
      var n, rest := |ps[0]|, Flatten(ps[1..]);
      cuts := [0] + seq(|tail|, i requires 0 <= i < |tail| => n + tail[i]);
      var line := Flatten(ps);
      assert line == ps[0] + rest;
      forall i | 0 <= i < |ps| ensures CutAt(line, ps, cuts, i) {
        if i == 0 {
          assert line[0..n] == ps[0];
        } else {
          assert CutAt(rest, ps[1..], tail, i - 1);
          assert line[n + tail[i - 1]..n + tail[i]] == rest[tail[i - 1]..tail[i]];
        }
      }
    }
  }

  lemma {:induction false} JoinCuts(line: string, ps: seq<string>, cuts: seq<nat>, i: nat)
    requires CutInto(line, ps, cuts) && i <= |ps|
    ensures cuts[i] <= |line| && Flatten(ps[i..]) == line[cuts[i]..]
    decreases |ps| - i
  {
    if i < |ps| {
      JoinCuts(line, ps, cuts, i + 1);
      assert CutAt(line, ps, cuts, i);
      assert ps[i..][1..] == ps[i + 1..];
      assert line[cuts[i]..] == line[cuts[i]..cuts[i + 1]] + line[cuts[i + 1]..];
    }
  }

  /** A part lies character by character in the line. */
  lemma PartChars(line: string, i: nat, j: nat, s: string)
    requires i <= j <= |line| && line[i..j] == s
    ensures forall k | i <= k < j :: line[k] == s[k - i]
    ensures Spaces(s) ==> SpacesIn(line, i, j)
    ensures NameCharsIn(s, 0, |s|) ==> NameCharsIn(line, i, j)
    ensures Spaces(s) <== SpacesIn(line, i, j)
    ensures NameCharsIn(s, 0, |s|) <== NameCharsIn(line, i, j)
  {
    assert forall k | i <= k < j :: line[k] == line[i..j][k - i];
    assert forall k | 0 <= k < |s| :: s[k] == line[i + k];
  }

  /** The line is cut at these positions into the parts of `p`. */
  ghost predicate Cut(line: string, m: Marks, p: Pieces) {
    && m.a <= m.b <= m.c < m.d <= m.e <= m.f <= |line|
    && line[0..m.a] == p.s1 && line[m.a..m.b] == p.name && line[m.b..m.c] == p.s2 && line[m.c..m.c + 1] == "="
    && line[m.c + 1..m.d] == p.s3 && line[m.d..m.e] == Written(p.value) && line[m.e..m.f] == p.s4
    && line[m.f..|line|] == p.comment
  }

  lemma SpacesPart(line: string, i: nat, j: nat, s: string)
    requires i <= j <= |line| && line[i..j] == s && Spaces(s)
    ensures SpacesIn(line, i, j)
  {
    PartChars(line, i, j, s);
  }

  lemma NamePart(line: string, i: nat, j: nat, s: string)
    requires i <= j <= |line| && line[i..j] == s && IsName(s)
    ensures i < j && Letter(line[i]) && NameCharsIn(line, i, j)
  {
    PartChars(line, i, j, s);
  }

  lemma CutHead(line: string, m: Marks, p: Pieces)
    requires Cut(line, m, p) && WellFormed(p)
    ensures MarkedHead(line, m)
  {
    SpacesPart(line, 0, m.a, p.s1);
    NamePart(line, m.a, m.b, p.name);
    SpacesPart(line, m.b, m.c, p.s2);
    assert line[m.c] == line[m.c..m.c + 1][0];
    SpacesPart(line, m.c + 1, m.d, p.s3);
    WrittenAt(line, m.d, m.e, p.value);
  }

  lemma CutTail(line: string, m: Marks, p: Pieces)
    requires Cut(line, m, p) && WellFormed(p)
    ensures EndsAt(line, m.e, m.f)
    ensures if p.value.Bare? then BareAt(line, m.d, m.e) else QuotedAt(line, m.d, m.e)
  {
    PartChars(line, m.e, m.f, p.s4);
    PartChars(line, m.f, |line|, p.comment);
    WrittenAt(line, m.d, m.e, p.value);
  }

  /** The cuts of a printed line, as marks. */
  lemma PrintCut(p: Pieces) returns (m: Marks)
    ensures Cut(Print(p), m, p)
  {
    var cuts := CutFlatten(Parts(p));
    m := CutMarks(Print(p), Parts(p), cuts, p);
  }

  lemma CutMarks(line: string, ps: seq<string>, cuts: seq<nat>, p: Pieces) returns (m: Marks)
    requires ps == Parts(p) && CutInto(line, ps, cuts)
    ensures Cut(line, m, p)
  {
    m := Marks(cuts[1], cuts[2], cuts[3], cuts[5], cuts[6], cuts[7]);
    assert CutAt(line, ps, cuts, 0) && CutAt(line, ps, cuts, 1) && CutAt(line, ps, cuts, 2) && CutAt(line, ps, cuts, 3);
    assert CutAt(line, ps, cuts, 4) && CutAt(line, ps, cuts, 5) && CutAt(line, ps, cuts, 6) && CutAt(line, ps, cuts, 7);
    assert |line[cuts[3]..cuts[4]]| == 1;
  }

  lemma WrittenAt(line: string, d: nat, e: nat, v: Raw)
    requires d <= e <= |line| && line[d..e] == Written(v) && IsValue(v)
    ensures if v.Bare? then BareAt(line, d, e) else QuotedAt(line, d, e)
    ensures d < |line| && (Letter(line[d]) || Digit(line[d]) || line[d] == '"')
  {
    PartChars(line, d, e, Written(v));
    if v.Quoted? {
      assert line[d + 1..e - 1] == line[d..e][1..|v.body| + 1] == v.body;
    }
  }

  /** get_assignment undoes printing, for every name, value, amount of blanks and comment. */
  lemma ParsePrinted(p: Pieces, beyond: char)
    requires WellFormed(p)
    ensures ParseLine(Print(p), beyond) == Assignment(p.name, Stored(p.value))
  {
    var m := PrintCut(p);
    CutHead(Print(p), m, p);
    CutTail(Print(p), m, p);
    ParseHead(Print(p), m, beyond);
    if p.value.Bare? {
      ParseBare(Print(p), m, p.name);
    } else {
      ParseQuoted(Print(p), m, p.name);
    }
  }

  /** And every accepted assignment line is a printed one: the parser accepts nothing outside the grammar. */
  lemma ParsedIsPrinted(line: string, beyond: char) returns (p: Pieces)
    requires ParseLine(line, beyond).Assignment?
    ensures WellFormed(p) && Print(p) == line
    ensures ParseLine(line, beyond) == Assignment(p.name, Stored(p.value))
  {
    var m := AcceptedMarks(line, beyond);
    p := PiecesAt(line, m);
    ParsePrinted(p, beyond);
  }

  /** The two directions together. */
  lemma AcceptsExactly(line: string, beyond: char, name: string, value: string)
    ensures ParseLine(line, beyond) == Assignment(name, value)
       <==> exists p :: WellFormed(p) && Print(p) == line && p.name == name && Stored(p.value) == value
  {
    if ParseLine(line, beyond) == Assignment(name, value) {
      var p := ParsedIsPrinted(line, beyond);
    }
    forall p | WellFormed(p) && Print(p) == line
      ensures ParseLine(line, beyond) == Assignment(p.name, Stored(p.value))
    {
      ParsePrinted(p, beyond);
    }
  }

  lemma PiecesAt(line: string, m: Marks) returns (p: Pieces)
    requires MarkedHead(line, m) && (BareAt(line, m.d, m.e) || QuotedAt(line, m.d, m.e)) && EndsAt(line, m.e, m.f)
    ensures WellFormed(p) && Print(p) == line
  {
    var v := ValueAt(line, m.d, m.e);
    p := Pieces(line[0..m.a], line[m.a..m.b], line[m.b..m.c], line[m.c + 1..m.d], v, line[m.e..m.f], line[m.f..|line|]);
    PartChars(line, 0, m.a, p.s1);
    PartChars(line, m.a, m.b, p.name);
    PartChars(line, m.b, m.c, p.s2);
    PartChars(line, m.c + 1, m.d, p.s3);
    PartChars(line, m.e, m.f, p.s4);
    PartChars(line, m.f, |line|, p.comment);
    Reassemble(line, m, p);
  }

  lemma ValueAt(line: string, d: nat, e: nat) returns (v: Raw)
    requires BareAt(line, d, e) || QuotedAt(line, d, e)
    requires Letter(line[d]) || Digit(line[d]) || line[d] == '"'
    ensures IsValue(v) && Written(v) == line[d..e]
  {
    PartChars(line, d, e, line[d..e]);
    if BareAt(line, d, e) {
      v := Bare(line[d..e]);
    } else {
      v := Quoted(line[d + 1..e - 1]);
    }
  }

  lemma Reassemble(line: string, m: Marks, p: Pieces)
    requires m.a <= m.b <= m.c < m.d <= m.e <= m.f <= |line| && line[m.c] == '=' && Written(p.value) == line[m.d..m.e]
    requires p.s1 == line[0..m.a] && p.name == line[m.a..m.b] && p.s2 == line[m.b..m.c] && p.s3 == line[m.c + 1..m.d]
    requires p.s4 == line[m.e..m.f] && p.comment == line[m.f..|line|]
    ensures Print(p) == line
  {
    var ps, cuts: seq<nat> := Parts(p), [0, m.a, m.b, m.c, m.c + 1, m.d, m.e, m.f, |line|];
    assert line[m.c..m.c + 1] == "=";
    forall i | 0 <= i < |ps| ensures CutAt(line, ps, cuts, i) {
      if i == 0 {} else if i == 1 {} else if i == 2 {} else if i == 3 {} else if i == 4 {} else if i == 5 {} else {}
    }
    JoinCuts(line, ps, cuts, 0);
    assert ps[0..] == ps && line[0..] == line;
  }

  // ---- Other lines

  /** The byte behind the line matters for lines of blanks only: there a letter makes a syntax error of an empty
      line. */
  lemma BlankLines(line: string, beyond: char, beyond': char)
    ensures line != "" && Spaces(line) ==> ParseLine(line, beyond) == if Letter(beyond) then SyntaxError else Nothing
    ensures line == "" || !Spaces(line) ==> ParseLine(line, beyond) == ParseLine(line, beyond')
  {
    var j := EatSpace(line, 0);
    assert j == |line| <==> Spaces(line);
  }

  /** A remark line, by where its blanks end. */
  lemma RemarkAt(line: string)
    ensures IsRemark(line) <==> (var j := EatSpace(line, 0); j == |line| || line[j] == '#')
  {
    var j := EatSpace(line, 0);
    if j == |line| || line[j] == '#' {
      PartChars(line, 0, j, line[..j]);
      assert RemarkCut(line, j);
    }
    if k :| 0 <= k <= |line| && RemarkCut(line, k) {
      PartChars(line, 0, k, line[..k]);
      EatSpaceTo(line, 0, k);
    }
  }

  /** The other half of the grammar: a line is taken for no assignment exactly when it holds blanks and possibly a
      comment, except that a non-empty line of blanks must not stand before a letter. */
  lemma NothingExactly(line: string, beyond: char)
    ensures ParseLine(line, beyond) == Nothing <==> IsRemark(line) && !(line != "" && Spaces(line) && Letter(beyond))
  {
    RemarkAt(line);
    BlankLines(line, beyond, beyond);
  }

  /** So a syntax error is thrown exactly for what is not in the grammar, and for blanks before a letter. */
  lemma RejectsExactly(line: string, beyond: char)
    ensures ParseLine(line, beyond) == SyntaxError
       <==> || !((exists p :: WellFormed(p) && Print(p) == line) || IsRemark(line))
            || (line != "" && Spaces(line) && Letter(beyond))
  {
    NothingExactly(line, beyond);
    BlankLines(line, beyond, beyond);
    if ParseLine(line, beyond).Assignment? {
      var p := ParsedIsPrinted(line, beyond);
    }
    forall p | WellFormed(p) && Print(p) == line ensures ParseLine(line, beyond).Assignment? {
      ParsePrinted(p, beyond);
    }
  }

  // ---- Quoted text

  lemma {:induction false} RemoveConcat(s: string, t: string)
    ensures RemoveBackslashes(s + t) == RemoveBackslashes(s) + RemoveBackslashes(t)
  {
    if s == "" {
      assert s + t == t;
    } else {
      assert (s + t)[0] == s[0] && (s + t)[1..] == s[1..] + t;
      RemoveConcat(s[1..], t);
    }
  }

  /** What is left holds no backslash, and a text without any is left as it is. */
  lemma {:induction false} NoBackslashes(s: string)
    ensures '\\' !in RemoveBackslashes(s) && ('\\' !in s ==> RemoveBackslashes(s) == s)
    ensures RemoveBackslashes("\\") == ""
  {
    assert "\\"[1..] == "";
    if s != "" {
      NoBackslashes(s[1..]);
      assert s == [s[0]] + s[1..];
    }
  }

  /** A text as it can be written between quotes. */
  function Escape(t: string): string {
    if t == "" then ""
    else (if t[0] == '"' || t[0] == '\\' then ['\\', t[0]] else [t[0]]) + Escape(t[1..])
  }

  lemma {:induction false} EscapedBody(t: string)
    ensures IsQuotedBody(Escape(t))
  {
    if t != "" {
      EscapedBody(t[1..]);
      var e, rest := Escape(t), Escape(t[1..]);
      if t[0] == '"' || t[0] == '\\' {
        assert e[2..] == rest;
      } else {
        assert e[1..] == rest;
      }
    }
  }

  lemma {:induction false} EscapedText(t: string)
    ensures RemoveBackslashes(Escape(t)) == RemoveBackslashes(t)
  {
    if t != "" {
      EscapedText(t[1..]);
      var rest := Escape(t[1..]);
      if t[0] == '"' || t[0] == '\\' {
        RemoveConcat(['\\', t[0]], rest);
        RemoveConcat(['\\'], [t[0]]);
        assert ['\\', t[0]] == ['\\'] + [t[0]];
      } else {
        RemoveConcat([t[0]], rest);
      }
      RemoveConcat([t[0]], t[1..]);
      assert t == [t[0]] + t[1..];
    }
  }

  /** Any text can be a value: it is stored between its quotes, without its backslashes. */
  lemma TextRoundTrip(name: string, t: string, beyond: char)
    requires IsName(name)
    ensures ParseLine(name + "=" + "\"" + Escape(t) + "\"", beyond)
         == Assignment(name, "\"" + RemoveBackslashes(t) + "\"")
    ensures '\\' !in t ==> RemoveBackslashes(t) == t
  {
    NoBackslashes(t);
    var p, line := Pieces("", name, "", "", Quoted(Escape(t)), "", ""), name + "=" + "\"" + Escape(t) + "\"";
    EscapedBody(t);
    assert line == name + "=" + Written(p.value);
    PrintShort(line, p);
    ParsePrinted(p, beyond);
    StoredText(t);
  }

  lemma StoredText(t: string)
    ensures Stored(Quoted(Escape(t))) == "\"" + RemoveBackslashes(t) + "\""
  {
    EscapedText(t);
    RemoveConcat("\"", Escape(t));
    RemoveConcat("\"" + Escape(t), "\"");
  }

  /** A bare value is stored as it is written. */
  lemma BareRoundTrip(name: string, s: string, beyond: char)
    requires IsName(name) && IsBare(s)
    ensures ParseLine(name + "=" + s, beyond) == Assignment(name, s)
  {
    var p := Pieces("", name, "", "", Bare(s), "", "");
    PrintShort(name + "=" + s, p);
    ParsePrinted(p, beyond);
  }

  lemma PrintShort(line: string, p: Pieces)
    requires p.s1 == p.s2 == p.s3 == p.s4 == p.comment == "" && line == p.name + "=" + Written(p.value)
    ensures Print(p) == line
  {
    var n := |p.name|;
    assert Written(p.value) == line[n + 1..|line|];
    Reassemble(line, Marks(0, n, n, n + 1, |line|, |line|), p);
  }

  const UPPER: string := "ABCDEFGHIJKLMNOPQRSTUVWXYZ"
  const LOWER: string := "abcdefghijklmnopqrstuvwxyz"

  lemma Upper(c: char)
    ensures 'A' <= c <= 'Z' <==> c in UPPER
  {
    if 'A' <= c <= 'Z' { assert UPPER[c as int - 'A' as int] == c; }
  }

  lemma Lower(c: char)
    ensures 'a' <= c <= 'z' <==> c in LOWER
  {
    if 'a' <= c <= 'z' { assert LOWER[c as int - 'a' as int] == c; }
  }

  /** The character classes, as sets. */
  lemma Classes(c: char)
    ensures Letter(c) <==> c in UPPER || c in LOWER
    ensures Digit(c) <==> c in "-0123456789"
    ensures Space(c) <==> c in " \t"
    ensures NameChar(c) <==> Letter(c) || Digit(c) || c in "_."
  {
    Upper(c);
    Lower(c);
  }
}
