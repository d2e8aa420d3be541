/** The loader's configuration grammar, the parser as a function of the line, and their agreement. */
module ConfGrammar {
  import opened Options

  // ---- Character classes

  predicate Letter(c: char) { 'A' <= c <= 'Z' || 'a' <= c <= 'z' }
  predicate Digit(c: char) { c == '-' || '0' <= c <= '9' }
  predicate Space(c: char) { c == ' ' || c == '\t' }
  predicate NameChar(c: char) { Letter(c) || Digit(c) || c == '_' || c == '.' }

  predicate SpacesIn(s: string, i: nat, j: nat)
    requires i <= j <= |s|
  {
    forall k | i <= k < j :: Space(s[k])
  }

  predicate Spaces(s: string) { SpacesIn(s, 0, |s|) }

  predicate NameCharsIn(s: string, i: nat, j: nat)
    requires i <= j <= |s|
  {
    forall k | i <= k < j :: NameChar(s[k])
  }

  // ---- Scanning

  /** The first position from `i` on that is no space. */
  function EatSpace(line: string, i: nat): (r: nat)
    requires i <= |line|
    ensures i <= r <= |line| && SpacesIn(line, i, r) && (r < |line| ==> !Space(line[r]))
    decreases |line| - i
  {
    if i < |line| && Space(line[i]) then EatSpace(line, i + 1) else i
  }

  /** The first position from `i` on that holds no name character. */
  function NameEnd(line: string, i: nat): (r: nat)
    requires i <= |line|
    ensures i <= r <= |line| && NameCharsIn(line, i, r) && (r < |line| ==> !NameChar(line[r]))
    decreases |line| - i
  {
    if i < |line| && NameChar(line[i]) then NameEnd(line, i + 1) else i
  }

  /** The position behind the closing quote, from `i` inside the quotes. */
  function QuoteEnd(line: string, i: nat): (r: Option<nat>)
    requires i <= |line|
    ensures r.Some? ==> i < r.value <= |line|
    decreases |line| - i
  {
    if i == |line| then None
    else if line[i] == '"' then Some(i + 1)
    else if line[i] == '\\' then (if i + 1 == |line| then None else QuoteEnd(line, i + 2))
    else QuoteEnd(line, i + 1)
  }

  function RemoveBackslashes(s: string): string {
    if s == "" then "" else (if s[0] == '\\' then "" else [s[0]]) + RemoveBackslashes(s[1..])
  }

  // ---- The parser, one function per state. `beyond` is the byte behind the line, which the classifiers read
  // when blanks run up to the end.

  datatype Parsed = SyntaxError | Nothing | Assignment(name: string, value: string)

  function At(line: string, i: nat, beyond: char): char {
    if i < |line| then line[i] else beyond
  }

  function WhiteSpace1(line: string, i: nat, beyond: char): Parsed
    requires i <= |line|
  {
    if i == |line| then Nothing
    else
      var j := EatSpace(line, i);
      if Letter(At(line, j, beyond)) then (if j == |line| then SyntaxError else VariableName(line, j))
      else if At(line, j, beyond) == '#' || j == |line| then Nothing
      else SyntaxError
  }

  function VariableName(line: string, i: nat): Parsed
    requires i <= |line|
  {
    WhiteSpace2(line, NameEnd(line, i), line[i..NameEnd(line, i)])
  }

  function WhiteSpace2(line: string, i: nat, name: string): Parsed
    requires i <= |line|
  {
    var j := EatSpace(line, i);
    if j < |line| && line[j] == '=' then WhiteSpace3(line, j + 1, name) else SyntaxError
  }

  function WhiteSpace3(line: string, i: nat, name: string): Parsed
    requires i <= |line|
  {
    var j := EatSpace(line, i);
    if j < |line| && (Letter(line[j]) || Digit(line[j]) || line[j] == '"') then VariableValue(line, j, name)
    else SyntaxError
  }

  function VariableValue(line: string, i: nat, name: string): Parsed
    requires i < |line|
  {
    if line[i] == '"' then
      match QuoteEnd(line, i + 1)
      case None => SyntaxError
      case Some(j) => WhiteSpace4(line, j, name, RemoveBackslashes(line[i..j]))
    else
      WhiteSpace4(line, NameEnd(line, i), name, line[i..NameEnd(line, i)])
  }

  function WhiteSpace4(line: string, i: nat, name: string, value: string): Parsed
    requires i <= |line|
  {
    var j := EatSpace(line, i);
    if j == |line| || line[j] == '#' then Assignment(name, value) else SyntaxError
  }

  function ParseLine(line: string, beyond: char): Parsed { WhiteSpace1(line, 0, beyond) }

  // ---- The grammar

  predicate IsName(s: string) { s != "" && Letter(s[0]) && NameCharsIn(s, 0, |s|) }

  predicate IsBare(s: string) { s != "" && (Letter(s[0]) || Digit(s[0])) && NameCharsIn(s, 0, |s|) }

  /** Characters other than quote and backslash, and backslashes with any character behind. */
  predicate IsQuotedBody(s: string) {
    if s == "" then true
    else if s[0] == '"' then false
    else if s[0] == '\\' then |s| >= 2 && IsQuotedBody(s[2..])
    else IsQuotedBody(s[1..])
  }

  /** A value as written: bare, or between quotes. */
  datatype Raw = Bare(text: string) | Quoted(body: string)

  predicate IsValue(v: Raw) {
    match v
    case Bare(s) => IsBare(s)
    case Quoted(s) => IsQuotedBody(s)
  }

  function Written(v: Raw): string {
    match v
    case Bare(s) => s
    case Quoted(s) => ['"'] + s + ['"']
  }

  /** What the loader stores: the text as written, quotes included, backslashes dropped. */
  function Stored(v: Raw): string {
    match v
    case Bare(s) => s
    case Quoted(s) => RemoveBackslashes(['"'] + s + ['"'])
  }

  predicate IsComment(s: string) { s == "" || s[0] == '#' }

  /** A line without an assignment: blanks, and possibly a comment. */
  ghost predicate IsRemark(line: string) { exists k | 0 <= k <= |line| :: RemarkCut(line, k) }

  predicate RemarkCut(line: string, k: nat)
    requires k <= |line|
  {
    Spaces(line[..k]) && IsComment(line[k..])
  }

  /** The pieces of an assignment line. */
  datatype Pieces = Pieces(s1: string, name: string, s2: string, s3: string, value: Raw, s4: string, comment: string)

  predicate WellFormed(p: Pieces) {
    && Spaces(p.s1) && IsName(p.name) && Spaces(p.s2) && Spaces(p.s3) && IsValue(p.value) && Spaces(p.s4)
    && IsComment(p.comment)
  }

  function Parts(p: Pieces): (ps: seq<string>)
    ensures |ps| == 8
  {
    [p.s1, p.name, p.s2, "=", p.s3, Written(p.value), p.s4, p.comment]
  }

  function Print(p: Pieces): string { Flatten(Parts(p)) }

  function Flatten(ps: seq<string>): string {
    if ps == [] then "" else ps[0] + Flatten(ps[1..])
  }
}
