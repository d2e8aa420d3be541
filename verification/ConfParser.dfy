/** The loader's configuration reader as it runs: a state machine over one line, and the loop over a file. */
module ConfParser {
  import opened Options
  import opened ConfGrammar
  import opened ConfProofs
  import opened ConfLines
  import opened LineReader

  /** The words that `parsing_function` can hold. */
  datatype Fn =
    | FWhiteSpace1 | FVariableName | FWhiteSpace2 | FAssignmentSign
    | FWhiteSpace3 | FVariableValue | FWhiteSpace4 | FComment

  function Rank(f: Fn): nat {
    match f
    case FWhiteSpace1 => 8
    case FVariableName => 7
    case FWhiteSpace2 => 6
    case FAssignmentSign => 5
    case FWhiteSpace3 => 4
    case FVariableValue => 3
    case FWhiteSpace4 => 2
    case FComment => 1
  }

  class Parser {
    const line: string
    const beyond: char   // the byte behind the line
    var linePointer: nat
    var parsingFunction: Fn
    var nameBuffer: string
    var valueBuffer: string

    constructor (line: string, beyond: char)
      ensures this.line == line && this.beyond == beyond && Valid() && Outcome() == ParseLine(line, beyond)
    {
      this.line, this.beyond := line, beyond;
      linePointer, parsingFunction, nameBuffer, valueBuffer := 0, FWhiteSpace1, "", "";
    }

    ghost predicate Valid()
      reads this
    {
      && linePointer <= |line|
      && (parsingFunction == FWhiteSpace1 || parsingFunction == FVariableName ==> nameBuffer == "")
      && (parsingFunction == FVariableName && linePointer < |line| ==> Letter(line[linePointer]))
      && (2 <= Rank(parsingFunction) <= 6 ==> nameBuffer != "")
    }

    function Assigned(): Parsed
      reads this
    {
      if nameBuffer == "" then Nothing else Assignment(nameBuffer, valueBuffer)
    }

    /** What the rest of the run will come to. */
    ghost function Outcome(): Parsed
      requires Valid()
      reads this
    {
      match parsingFunction
      case FComment => Assigned()
      case FWhiteSpace1 => WhiteSpace1(line, linePointer, beyond)
      case FVariableName => if linePointer == |line| then SyntaxError else VariableName(line, linePointer)
      case FWhiteSpace2 => WhiteSpace2(line, linePointer, nameBuffer)
      case FAssignmentSign =>
        if linePointer == |line| then SyntaxError else WhiteSpace3(line, linePointer + 1, nameBuffer)
      case FWhiteSpace3 => WhiteSpace3(line, linePointer, nameBuffer)
      case FVariableValue => if linePointer == |line| then SyntaxError else VariableValue(line, linePointer, nameBuffer)
      case FWhiteSpace4 => WhiteSpace4(line, linePointer, nameBuffer, valueBuffer)
    }

    method EatSpaces()
      requires linePointer <= |line|
      modifies `linePointer
      ensures linePointer == EatSpace(line, old(linePointer))
    {
      while linePointer < |line| && Space(line[linePointer])
        invariant linePointer <= |line| && EatSpace(line, linePointer) == EatSpace(line, old(linePointer))
        decreases |line| - linePointer
      {
        linePointer := linePointer + 1;
      }
    }

    method ParseName() returns (s: string)
      requires linePointer <= |line|
      modifies `linePointer
      ensures linePointer == NameEnd(line, old(linePointer)) && s == line[old(linePointer)..linePointer]
    {
      var start := linePointer;
      while linePointer < |line| && NameChar(line[linePointer])
        invariant start <= linePointer <= |line| && NameEnd(line, linePointer) == NameEnd(line, old(linePointer))
        decreases |line| - linePointer
      {
        linePointer := linePointer + 1;
      }
      s := line[start..linePointer];
    }

    /** The quoted text without its backslashes, or nothing if the line ends inside it. */
    method ParseQuote() returns (s: Option<string>)
      requires linePointer < |line|
      modifies `linePointer
      ensures old(linePointer) <= linePointer <= |line|
      ensures s.Some? <==> QuoteEnd(line, old(linePointer) + 1).Some?
      ensures s.Some? ==> linePointer == QuoteEnd(line, old(linePointer) + 1).value
      ensures s.Some? ==> s.value == RemoveBackslashes(line[old(linePointer)..linePointer])
    {
      var start := linePointer;
      linePointer := linePointer + 1;
      if linePointer == |line| { return None; }
      while line[linePointer] != '"'
        invariant start < linePointer < |line| && QuoteEnd(line, linePointer) == QuoteEnd(line, start + 1)
        decreases |line| - linePointer
      {
        if line[linePointer] == '\\' {
          linePointer := linePointer + 1;
          if linePointer == |line| { return None; }
        }
        linePointer := linePointer + 1;
        if linePointer == |line| { return None; }
      }
      linePointer := linePointer + 1;
      var text := DropBackslashes(line[start..linePointer]);
      s := Some(text);
    }

    /** One word has run: the outcome stands, and pointer or rank has advanced; not `ok` is a thrown ESYNTAX. */
    twostate predicate Stepped(ok: bool)
      requires old(Valid())
      reads this
    {
      && Valid() && old(linePointer) <= linePointer
      && (if ok then Outcome() == old(Outcome()) else old(Outcome()) == SyntaxError)
      && (ok && old(linePointer) == linePointer ==> Rank(parsingFunction) < old(Rank(parsingFunction)))
    }

    method RunWhiteSpace1() returns (ok: bool)
      requires Valid() && linePointer < |line| && parsingFunction == FWhiteSpace1
      modifies this
      ensures Stepped(ok)
    {
      ok := true;
      EatSpaces();
      var c := At(line, linePointer, beyond);
      if Letter(c) {
        parsingFunction := FVariableName;
      } else if c == '#' {
        parsingFunction := FComment;
      } else {
        ok := linePointer == |line|;
      }
    }

    method RunWhiteSpace2() returns (ok: bool)
      requires Valid() && linePointer < |line| && parsingFunction == FWhiteSpace2
      modifies this
      ensures Stepped(ok)
    {
      EatSpaces();
      ok := At(line, linePointer, beyond) == '=';
      if ok {
        parsingFunction := FAssignmentSign;
      }
    }

    method RunWhiteSpace3() returns (ok: bool)
      requires Valid() && linePointer < |line| && parsingFunction == FWhiteSpace3
      modifies this
      ensures Stepped(ok)
    {
      EatSpaces();
      var c := At(line, linePointer, beyond);
      ok := Letter(c) || Digit(c) || c == '"';
      if ok {
        parsingFunction := FVariableValue;
      }
    }

    method RunVariableValue() returns (ok: bool)
      requires Valid() && linePointer < |line| && parsingFunction == FVariableValue
      modifies this
      ensures Stepped(ok)
    {
      ok := true;
      if line[linePointer] == '"' {
        var s := ParseQuote();
        if s.None? {
          ok := false;
          return;
        }
        valueBuffer := s.value;
      } else {
        valueBuffer := ParseName();
      }
      parsingFunction := FWhiteSpace4;
    }

    method RunWhiteSpace4() returns (ok: bool)
      requires Valid() && linePointer < |line| && parsingFunction == FWhiteSpace4
      modifies this
      ensures Stepped(ok)
    {
      ok := true;
      EatSpaces();
      if At(line, linePointer, beyond) == '#' {
        parsingFunction := FComment;
      } else {
        ok := linePointer == |line|;
      }
    }

    /** Runs the word in `parsing_function`. */
    method Execute() returns (ok: bool)
      requires Valid() && linePointer < |line|
      modifies this
      ensures Valid() && old(linePointer) <= linePointer
      ensures if ok then Outcome() == old(Outcome()) else old(Outcome()) == SyntaxError
      ensures ok && old(linePointer) == linePointer ==> Rank(parsingFunction) < old(Rank(parsingFunction))
    {
      ok := true;
      match parsingFunction {
        case FWhiteSpace1 => ok := RunWhiteSpace1();
        case FVariableName =>
          nameBuffer := ParseName();
          parsingFunction := FWhiteSpace2;
        case FWhiteSpace2 => ok := RunWhiteSpace2();
        case FAssignmentSign =>
          linePointer := linePointer + 1;
          parsingFunction := FWhiteSpace3;
        case FWhiteSpace3 => ok := RunWhiteSpace3();
        case FVariableValue => ok := RunVariableValue();
        case FWhiteSpace4 => ok := RunWhiteSpace4();
        case FComment => linePointer := |line|;
      }
    }
  }

  /** remove_backslashes, over the copied text */
  method DropBackslashes(s: string) returns (r: string)
    ensures r == RemoveBackslashes(s) && '\\' !in r && ('\\' !in s ==> r == s)
  {
    r := "";
    var i := 0;
    while i < |s|
      invariant 0 <= i <= |s| && r + RemoveBackslashes(s[i..]) == RemoveBackslashes(s)
    {
      assert s[i..][1..] == s[i + 1..];
      if s[i] != '\\' {
        r := r + [s[i]];
      }
      i := i + 1;
    }
    assert r == RemoveBackslashes(s);
    NoBackslashes(s);
  }

  /** get_assignment: the state loop ends on every line, and comes to what the line says. */
  method GetAssignment(line: string, beyond: char) returns (r: Parsed)
    ensures r == ParseLine(line, beyond)
  {
    var p := new Parser(line, beyond);
    while p.linePointer != |line|
      invariant p.Valid() && p.line == line && p.beyond == beyond && p.Outcome() == ParseLine(line, beyond)
      decreases |line| - p.linePointer, Rank(p.parsingFunction)
    {
      var ok := p.Execute();
      if !ok { return SyntaxError; }
    }
    if p.parsingFunction == FComment || p.parsingFunction == FWhiteSpace1 || p.parsingFunction == FWhiteSpace4 {
      r := p.Assigned();
    } else {
      r := SyntaxError;
    }
  }

  // ---- Files

  /** What processing lines in order comes to: the assignments before the first line in error, if any. */
  datatype Loaded = Loaded(settings: seq<(string, string)>, ok: bool)

  /** `behind(j)` is the byte in memory behind the line that is the `j`-th to hold anything. */
  function Process(lines: seq<string>, behind: nat -> char, j: nat): Loaded
    decreases |lines|
  {
    if lines == [] then Loaded([], true)
    else
      match ParseLine(lines[0], behind(j))
      case SyntaxError => Loaded([], false)
      case Nothing => Process(lines[1..], behind, j + 1)
      case Assignment(n, v) =>
        var r := Process(lines[1..], behind, j + 1);
        r.(settings := [(n, v)] + r.settings)
  }

  /** Unless there are lines of blanks, it does not depend on those bytes. */
  lemma {:induction false} BytesBehind(lines: seq<string>, b: nat -> char, j: nat, b': nat -> char, j': nat)
    requires forall line | line in lines :: !Spaces(line)
    ensures Process(lines, b, j) == Process(lines, b', j')
    decreases |lines|
  {
    if lines != [] {
      BlankLines(lines[0], b(j), b'(j'));
      BytesBehind(lines[1..], b, j + 1, b', j' + 1);
    }
  }

  function After(done: seq<(string, string)>, r: Loaded): Loaded { r.(settings := done + r.settings) }

  function Counted(line: string, j: nat): nat { if line == "" then j else j + 1 }

  /** A line that was read and parsed, seen from the file. */
  lemma ProcessLine(line: string, rest: seq<string>, done: seq<(string, string)>, behind: nat -> char, j: nat)
    ensures var all := After(done, Process(NonEmpty([line]) + rest, behind, j));
            match ParseLine(line, behind(j))
            case SyntaxError => all == Loaded(done, false)
            case Nothing => all == After(done, Process(rest, behind, Counted(line, j)))
            case Assignment(n, v) => all == After(done + [(n, v)], Process(rest, behind, Counted(line, j)))
  {
    if line == "" {
      assert NonEmpty([line]) + rest == rest;
    } else {
      assert NonEmpty([line]) == [line] + NonEmpty([]) == [line];
      var lines := NonEmpty([line]) + rest;
      assert lines[0] == line && lines[1..] == rest;
      var r := ParseLine(line, behind(j));
      if r.Assignment? {
        var x := [(r.name, r.value)];
        assert done + (x + Process(rest, behind, j + 1).settings) == (done + x) + Process(rest, behind, j + 1).settings;
      }
    }
  }

  /** process_conf: whatever chunks the file arrives in, its assignments are those of its lines, in order,
      up to the first line in error. */
  method ProcessConf(reader: Reader, behind: nat -> char) returns (r: Loaded)
    requires reader.Valid() && !reader.endOfFile
    modifies reader
    ensures r == Process(Lines(old(reader.Pending())), behind, 0)
  {
    var done: seq<(string, string)>, j: nat := [], 0;
    ghost var all := Process(Lines(reader.Pending()), behind, 0);
    while !reader.endOfFile
      invariant reader.Valid() && After(done, Process(Lines(reader.Pending()), behind, j)) == all
      invariant reader.endOfFile ==> reader.Pending() == ""
      decreases !reader.endOfFile, |reader.unread|, |reader.readBuffer| - reader.readBufferPtr
    {
      reader.ReadLine();
      var line := reader.lineBuffer;
      ProcessLine(line, Lines(reader.Pending()), done, behind, j);
      var p := GetAssignment(line, behind(j));
      match p {
        case SyntaxError => return Loaded(done, false);
        case Nothing =>
        case Assignment(n, v) => done := done + [(n, v)];
      }
      j := Counted(line, j);
    }
    LastLine("");
    r := Loaded(done, true);
  }

  predicate Rejected(line: string, behind: nat -> char, j: nat) { ParseLine(line, behind(j)) == SyntaxError }

  /** Every line is taken if and only if none of them is in error. */
  lemma {:induction false} LoadsExactly(lines: seq<string>, behind: nat -> char, j: nat)
    ensures Process(lines, behind, j).ok <==> forall k | 0 <= k < |lines| :: !Rejected(lines[k], behind, j + k)
    decreases |lines|
  {
    if lines != [] {
      LoadsExactly(lines[1..], behind, j + 1);
      assert Rejected(lines[0], behind, j + 0) <==> ParseLine(lines[0], behind(j)) == SyntaxError;
      LaterLines(lines, behind, j);
    }
  }

  lemma LaterLines(lines: seq<string>, behind: nat -> char, j: nat)
    requires lines != []
    ensures (forall k | 0 <= k < |lines| - 1 :: !Rejected(lines[1..][k], behind, j + 1 + k))
       <==> (forall k | 1 <= k < |lines| :: !Rejected(lines[k], behind, j + k))
  {
    forall k | 1 <= k < |lines|
      ensures Rejected(lines[k], behind, j + k) == Rejected(lines[1..][k - 1], behind, j + 1 + (k - 1))
    {
    }
    forall k | 0 <= k < |lines| - 1
      ensures Rejected(lines[1..][k], behind, j + 1 + k) == Rejected(lines[k + 1], behind, j + (k + 1))
    {
    }
  }

  /** The first line in error ends the load: what was assigned before it stays, and the rest does not matter. */
  lemma {:induction false} StopsAtError(good: seq<string>, bad: string, rest: seq<string>, behind: nat -> char, j: nat)
    requires Process(good, behind, j).ok && ParseLine(bad, behind(j + |good|)) == SyntaxError
    ensures Process(good + [bad] + rest, behind, j) == Loaded(Process(good, behind, j).settings, false)
    decreases |good|
  {
    var lines := good + [bad] + rest;
    if good == [] {
      assert lines[0] == bad;
    } else {
      StopsAtError(good[1..], bad, rest, behind, j + 1);
      assert lines[0] == good[0] && lines[1..] == good[1..] + [bad] + rest;
    }
  }

  // ---- A printed file

  /** A line of a file: an assignment, or blanks and possibly a comment. */
  datatype Line = Setting(pieces: Pieces) | Remark(blanks: string, comment: string)

  predicate IsLine(l: Line) {
    match l
    case Setting(p) => WellFormed(p)
    case Remark(blanks, comment) => Spaces(blanks) && IsComment(comment)
  }

  function PrintLine(l: Line): string {
    match l
    case Setting(p) => Print(p)
    case Remark(blanks, comment) => blanks + comment
  }

  function PrintFile(ls: seq<Line>): string {
    if ls == [] then "" else PrintLine(ls[0]) + ([LF] + PrintFile(ls[1..]))
  }

  function Settings(ls: seq<Line>): seq<(string, string)> {
    if ls == [] then []
    else
      match ls[0]
      case Setting(p) => [(p.name, Stored(p.value))] + Settings(ls[1..])
      case Remark(_, _) => Settings(ls[1..])
  }

  /** A line of blanks is read right whatever the byte behind it. */
  ghost predicate Readable(l: Line, behind: nat -> char) {
    l.Remark? && l.comment == "" && l.blanks != "" ==> forall n :: !Letter(behind(n))
  }

  lemma LineParsed(l: Line, beyond: char)
    requires IsLine(l) && (l.Remark? && l.comment == "" && l.blanks != "" ==> !Letter(beyond))
    ensures ParseLine(PrintLine(l), beyond)
         == match l case Setting(p) => Assignment(p.name, Stored(p.value)) case Remark(_, _) => Nothing
  {
    match l
    case Setting(p) => ParsePrinted(p, beyond);
    case Remark(blanks, comment) =>
      var line := PrintLine(l);
      assert line[..|blanks|] == blanks && line[|blanks|..] == comment;
      assert RemarkCut(line, |blanks|);
      NothingExactly(line, beyond);
      assert comment != "" ==> line[|blanks|] == '#';
  }

  /** Together with ProcessConf: loading a printed file, in whatever chunks, gives back what was printed. */
  lemma {:induction false} FileRoundTrip(ls: seq<Line>, behind: nat -> char, j: nat)
    requires forall k | 0 <= k < |ls| :: IsLine(ls[k]) && LF !in PrintLine(ls[k]) && Readable(ls[k], behind)
    ensures Process(Lines(PrintFile(ls)), behind, j) == Loaded(Settings(ls), true)
    decreases |ls|
  {
    if ls == [] {
      LastLine("");
    } else {
      var line, rest := PrintLine(ls[0]), PrintFile(ls[1..]);
      FileRoundTrip(ls[1..], behind, Counted(line, j));
      LinesAfterLine(line, [LF] + rest);
      LinesAfterLF([LF] + rest);
      assert ([LF] + rest)[1..] == rest;
      LineParsed(ls[0], behind(j));
      ProcessLine(line, Lines(rest), [], behind, j);
    }
  }
}
