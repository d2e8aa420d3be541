/** Text files as lines. */
module ConfLines {
  const LF: char := '\n'

  /** The length of the first line of `s`. */
  function LineEnd(s: string): (k: nat)
    ensures k <= |s| && LF !in s[..k] && (k < |s| ==> s[k] == LF)
  {
    if s == [] || s[0] == LF then 0
    else
      assert s[..1 + LineEnd(s[1..])] == [s[0]] + s[1..][..LineEnd(s[1..])];
      1 + LineEnd(s[1..])
  }

  /** The file split at every LF. */
  function Split(s: string): seq<string>
    decreases |s|
  {
    var k := LineEnd(s);
    if k == |s| then [s] else [s[..k]] + Split(s[k + 1..])
  }

  function Join(lines: seq<string>): string
    requires lines != []
  {
    if |lines| == 1 then lines[0] else lines[0] + [LF] + Join(lines[1..])
  }

  /** Splitting is undone by joining the lines with LFs, and leaves no LF in them. */
  lemma {:induction false} SplitJoin(s: string)
    ensures Split(s) != [] && Join(Split(s)) == s && forall line | line in Split(s) :: LF !in line
    decreases |s|
  {
    var k := LineEnd(s);
    if k < |s| {
      SplitJoin(s[k + 1..]);
      assert s == s[..k] + [LF] + s[k + 1..];
    }
  }

  function Kept(line: string): seq<string> { if line == "" then [] else [line] }

  function NonEmpty(lines: seq<string>): seq<string> {
    if lines == [] then [] else Kept(lines[0]) + NonEmpty(lines[1..])
  }

  /** The lines of a file that hold anything. */
  function Lines(s: string): seq<string> { NonEmpty(Split(s)) }

  /** The lines that hold anything are those that are not empty, in order. */
  lemma {:induction false} NonEmptyLines(lines: seq<string>)
    ensures "" !in NonEmpty(lines) && ("" !in lines ==> NonEmpty(lines) == lines)
  {
    if lines != [] {
      NonEmptyLines(lines[1..]);
      assert lines == [lines[0]] + lines[1..];
    }
  }

  lemma Assoc<T>(x: seq<T>, y: seq<T>, z: seq<T>)
    ensures x + (y + z) == (x + y) + z
  {
  }

  lemma {:induction false} NonEmptyConcat(a: seq<string>, b: seq<string>)
    ensures NonEmpty(a + b) == NonEmpty(a) + NonEmpty(b)
  {
    if a == [] {
      assert a + b == b;
    } else {
      calc {
        NonEmpty(a + b);
        { assert (a + b)[0] == a[0] && (a + b)[1..] == a[1..] + b; }
        Kept(a[0]) + NonEmpty(a[1..] + b);
        { NonEmptyConcat(a[1..], b); }
        Kept(a[0]) + (NonEmpty(a[1..]) + NonEmpty(b));
        { Assoc(Kept(a[0]), NonEmpty(a[1..]), NonEmpty(b)); }
        NonEmpty(a) + NonEmpty(b);
      }
    }
  }

  /** Delivering one more line. */
  lemma OneMoreLine(lines: seq<string>, line: string, rest: seq<string>)
    ensures NonEmpty(lines + [line]) + rest == NonEmpty(lines) + (NonEmpty([line]) + rest)
  {
    NonEmptyConcat(lines, [line]);
    Assoc(NonEmpty(lines), NonEmpty([line]), rest);
  }

  /** A line without LF, followed by an LF and more text. */
  lemma {:induction false} LinesAfterLine(line: string, s: string)
    requires LF !in line && s != [] && s[0] == LF
    ensures Lines(line + s) == NonEmpty([line]) + Lines(s)
  {
    FirstLine(line, s);
    FirstLine("", s);
    assert (line + s)[..|line|] == line && (line + s)[|line| + 1..] == s[1..];
    assert "" + s == s;
    NonEmptyConcat([line], Split(s[1..]));
    NonEmptyConcat([""], Split(s[1..]));
  }

  lemma {:induction false} FirstLine(line: string, s: string)
    requires LF !in line && s != [] && s[0] == LF
    ensures LineEnd(line + s) == |line|
  {
    if line != [] {
      FirstLine(line[1..], s);
      assert (line + s)[1..] == line[1..] + s;
    } else {
      assert line + s == s;
    }
  }

  lemma LastLine(line: string)
    requires LF !in line
    ensures Lines(line) == NonEmpty([line])
  {
    assert LineEnd(line) == |line|;
  }

  /** A leading LF adds no line that holds anything. */
  lemma LinesAfterLF(s: string)
    requires s != [] && s[0] == LF
    ensures Lines(s) == Lines(s[1..])
  {
    FirstLine("", s);
    assert "" + s == s;
    NonEmptyConcat([""], Split(s[1..]));
  }
}
