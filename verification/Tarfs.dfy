/** The ustar archive in memory ("ustar Interchange Format" of the pax utility in IEEE Std 1003.1),
    and the kernel's three readers of it. */
module Tarfs {
  import opened Options
  import opened Numerals

  const NUL: char := '\0'
  const BLOCK: nat := 512
  const SIZE_FIELD: nat := 124

  // ---- The archive

  datatype Member = Member(name: string, content: string)

  /** The size of `n` bytes in whole blocks. */
  function Padded(n: nat): (r: nat)
    ensures n <= r < n + BLOCK && r % BLOCK == 0
  {
    (n + 511) / 512 * 512
  }

  /** A header block for `m` at `at`: its name, terminated, and its size in octal digits. */
  ghost predicate IsHeader(mem: string, at: nat, m: Member) {
    && at + BLOCK <= |mem|
    && 0 < |m.name| < 100 && NUL !in m.name && mem[at..at + |m.name|] == m.name && mem[at + |m.name|] == NUL
    && IsOctal(Field(mem, at + SIZE_FIELD)) && Value(Field(mem, at + SIZE_FIELD), 8) == |m.content|
  }

  ghost predicate Holds(mem: string, at: nat, text: string) {
    at + |text| <= |mem| && mem[at..at + |text|] == text
  }

  /** The member `m`, header and content, is stored at `at`. */
  ghost predicate IsMember(mem: string, at: nat, m: Member) {
    IsHeader(mem, at, m) && Holds(mem, at + BLOCK, m.content)
  }

  /** Where the header of the `k`-th member is: each content is padded to whole blocks. */
  function Offset(ms: seq<Member>, k: nat): (r: nat)
    requires k <= |ms|
    ensures r % BLOCK == 0 && r >= k * BLOCK
  {
    if k == 0 then 0 else Offset(ms, k - 1) + BLOCK + Padded(|ms[k - 1].content|)
  }

  /** `mem` holds the members one behind the other, and then an empty block. */
  ghost predicate IsArchive(mem: string, ms: seq<Member>) {
    && Offset(ms, |ms|) + BLOCK <= |mem| && mem[Offset(ms, |ms|)] == NUL
    && forall k | 0 <= k < |ms| :: IsMember(mem, Offset(ms, k), ms[k])
  }

  // ---- Strings in memory

  /** Every string that starts in `mem` ends in it. */
  predicate Terminated(mem: string) { BLOCK <= |mem| < 0x8000_0000 && mem[|mem| - 1] == NUL }

  function StrEnd(mem: string, at: nat): (e: nat)
    requires Terminated(mem) && at < |mem|
    ensures at <= e < |mem| && mem[e] == NUL && forall k | at <= k < e :: mem[k] != NUL
    decreases |mem| - at
  {
    if mem[at] == NUL then at else StrEnd(mem, at + 1)
  }

  function Str(mem: string, at: nat): string
    requires Terminated(mem) && at < |mem|
  {
    mem[at..StrEnd(mem, at)]
  }

  /** kstrlen counts the terminator of every string but the empty one. */
  method Kstrlen(mem: string, at: nat) returns (n: nat)
    requires Terminated(mem) && at < |mem|
    ensures n == if Str(mem, at) == "" then 0 else |Str(mem, at)| + 1
  {
    var i := 0;
    if mem[at + i] == NUL {
      return i;
    }
    while mem[at + i] != NUL
      invariant 0 <= i && at + i <= StrEnd(mem, at)
      decreases |mem| - i
    {
      i := i + 1;
    }
    n := i + 1;
  }

  /** kstrcmp is zero exactly for equal strings. */
  method Kstrcmp(mem: string, at: nat, file: string) returns (r: int)
    requires Terminated(mem) && at < |mem| && NUL !in file
    ensures r == 0 <==> Str(mem, at) == file
  {
    var str2 := file + [NUL];
    var i := 0;
    ghost var e := StrEnd(mem, at);
    while mem[at + i] == str2[i]
      invariant 0 <= i <= |file| && at + i <= e && forall k | 0 <= k < i :: mem[at + k] == file[k]
      decreases |file| - i
    {
      if mem[at + i] == NUL {
        assert i == |file| && at + i == e && Str(mem, at) == file;
        return 0;
      }
      i := i + 1;
    }
    r := mem[at + i] as int - str2[i] as int;
    assert forall k | 0 <= k < e - at :: Str(mem, at)[k] == mem[at + k];
  }

  // ---- Walking

  /** The size in a header, as the code computes it. */
  function SizeAt(mem: string, at: nat): nat
    requires at + BLOCK <= |mem|
  {
    OctOf(Value(Field(mem, at + SIZE_FIELD), 10))
  }

  method ReadSize(mem: string, at: nat) returns (size: nat)
    requires at + BLOCK <= |mem|
    ensures size == SizeAt(mem, at)
  {
    var digits := Stoi(mem, at + SIZE_FIELD);
    size := Oct2Dec(digits);
  }

  /** How far the walk moves past a member of `size` bytes. */
  function Step(size: nat): nat {
    if size == 0 then 512 else if size % 512 == 0 then size + 512 else size + (512 - size % 512) + 512
  }

  lemma StepPads(size: nat)
    ensures Step(size) == BLOCK + Padded(size)
  {
  }

  lemma HeaderSize(mem: string, at: nat, m: Member)
    requires IsHeader(mem, at, m)
    ensures SizeAt(mem, at) == |m.content|
  {
    OctalField(Field(mem, at + SIZE_FIELD));
  }

  lemma HeaderName(mem: string, at: nat, m: Member)
    requires Terminated(mem) && IsHeader(mem, at, m)
    ensures Str(mem, at) == m.name && mem[at] != NUL
  {
    assert forall k | at <= k < at + |m.name| :: mem[k] == m.name[k - at];
    assert StrEnd(mem, at) == at + |m.name|;
  }

  datatype Entry = Entry(size: nat, addrHdr: nat)

  /** What the walk sees at a member's header, and where it goes from there. */
  ghost predicate Seen(mem: string, at: nat, next: nat, m: Member)
    requires Terminated(mem)
  {
    && at + BLOCK <= |mem| && Str(mem, at) == m.name != ""
    && SizeAt(mem, at) == |m.content| && at + Step(|m.content|) == next
  }

  /** What the walk sees of an archive whose headers are at `offs`. */
  ghost predicate Walkable(mem: string, ms: seq<Member>, offs: seq<nat>)
    requires Terminated(mem)
  {
    && |offs| == |ms| + 1 && offs[0] == 0 && offs[|ms|] + BLOCK <= |mem| && mem[offs[|ms|]] == NUL
    && forall k | 0 <= k < |ms| :: SeenAt(mem, ms, offs, k)
  }

  ghost predicate SeenAt(mem: string, ms: seq<Member>, offs: seq<nat>, k: nat)
    requires Terminated(mem) && |offs| == |ms| + 1 && k < |ms|
  {
    Seen(mem, offs[k], offs[k + 1], ms[k])
  }

  function Offsets(ms: seq<Member>): (offs: seq<nat>)
    ensures |offs| == |ms| + 1 && forall k | 0 <= k <= |ms| :: offs[k] == Offset(ms, k)
  {
    seq(|ms| + 1, k requires 0 <= k <= |ms| => Offset(ms, k))
  }

  lemma ArchiveWalkable(mem: string, ms: seq<Member>)
    requires Terminated(mem) && IsArchive(mem, ms)
    ensures Walkable(mem, ms, Offsets(ms))
  {
    forall k | 0 <= k < |ms| ensures SeenAt(mem, ms, Offsets(ms), k) {
      var at := Offset(ms, k);
      assert IsMember(mem, at, ms[k]);
      HeaderName(mem, at, ms[k]);
      HeaderSize(mem, at, ms[k]);
      StepPads(|ms[k].content|);
    }
  }

  const TABLE_LENGTH: nat := 100  // of the array tarfs_fs

  /** init_tarfs inverts the layout: it records every member's size and header address, in order. It does not check the
      length of the table; `inside` says whether every write was inside it, which is so for at most 100 members. */
  method InitTarfs(mem: string, table: array<Entry>, ghost ms: seq<Member>) returns (n: nat, inside: bool)
    requires Terminated(mem) && IsArchive(mem, ms) && table.Length == TABLE_LENGTH
    modifies table
    ensures n == |ms| && (inside <==> |ms| <= TABLE_LENGTH)
    ensures forall k | 0 <= k < TABLE_LENGTH ::
              table[k] == if k < |ms| then Entry(|ms[k].content|, Offset(ms, k)) else old(table[k])
  {
    ArchiveWalkable(mem, ms);
    n, inside := WalkHeaders(mem, table, ms, Offsets(ms));
  }

  /** Whether there is a header, and its size. */
  method ReadHeader(mem: string, at: nat, ghost ms: seq<Member>, ghost offs: seq<nat>, ghost i: nat)
    returns (named: bool, size: nat)
    requires Terminated(mem) && Walkable(mem, ms, offs) && i <= |ms| && at == offs[i]
    ensures at < |mem| && (named <==> i < |ms|)
    ensures named ==> size == |ms[i].content| && at + Step(size) == offs[i + 1]
  {
    assert i < |ms| ==> SeenAt(mem, ms, offs, i);
    var len := Kstrlen(mem, at);
    if len == 0 {
      return false, 0;
    }
    size := ReadSize(mem, at);
    named := true;
  }

  method WalkHeaders(mem: string, table: array<Entry>, ghost ms: seq<Member>, ghost offs: seq<nat>)
    returns (i: nat, inside: bool)
    requires Terminated(mem) && Walkable(mem, ms, offs)
    modifies table
    ensures i == |ms| && (inside <==> |ms| <= table.Length)
    ensures forall k | 0 <= k < table.Length ::
              table[k] == if k < |ms| then Entry(|ms[k].content|, offs[k]) else old(table[k])
  {
    i, inside := 0, true;
    var tarVar, tmp := 0, 0;
    while tarVar < |mem|
      invariant 0 <= tarVar < |mem| && i <= |ms| && tmp == offs[i] && (inside <==> i <= table.Length)
      invariant forall k | 0 <= k < table.Length ::
                  table[k] == if k < i then Entry(|ms[k].content|, offs[k]) else old(table[k])
      decreases |ms| - i
    {
      tarVar := tmp;
      var named, fsz := ReadHeader(mem, tarVar, ms, offs, i);
      if !named {
        break;
      }
      if i < table.Length {
        table[i] := Entry(fsz, tmp);
      } else {
        inside := false;
      }
      tmp := tmp + Step(fsz);
      i := i + 1;
    }
  }

  // ---- Finding a file

  /** `skips` lists how much the walk skips behind a header, wherever a header fits. */
  ghost predicate IsSkips(mem: string, skips: seq<nat>) {
    |skips| == |mem| && forall at | 0 <= at < |mem| :: IsSkip(mem, skips, at)
  }

  ghost predicate IsSkip(mem: string, skips: seq<nat>, at: nat)
    requires |skips| == |mem| && at < |mem|
  {
    at + BLOCK <= |mem| ==> BLOCK + skips[at] == Step(SizeAt(mem, at))
  }

  function Skips(mem: string): (skips: seq<nat>)
    ensures IsSkips(mem, skips)
  {
    seq(|mem|, at requires 0 <= at < |mem| => if at + BLOCK <= |mem| then Step(SizeAt(mem, at)) - BLOCK else 0)
  }

  /** What file_exists comes to from the header at `tmp` on; nothing if it would leave the archive. */
  function Probe(mem: string, skips: seq<nat>, tmp: nat, file: string): Option<nat>
    requires Terminated(mem) && |skips| == |mem|
    decreases |mem| - tmp
  {
    if tmp + BLOCK > |mem| then None
    else if mem[tmp] == NUL then Some(999)
    else if Str(mem, tmp) == file then Some(tmp + BLOCK)
    else Probe(mem, skips, tmp + BLOCK + skips[tmp], file)
  }

  /** file_exists: the first header is not compared, and the second is looked for right behind it. */
  method FileExists(mem: string, file: string) returns (r: nat)
    requires Terminated(mem) && NUL !in file && (mem[0] != NUL ==> Probe(mem, Skips(mem), BLOCK, file).Some?)
    ensures r == if mem[0] == NUL then 0 else Probe(mem, Skips(mem), BLOCK, file).value
    ensures mem[0] != NUL ==> ClearAnswer(mem, file, r)
  {
    r := Hunt(mem, Skips(mem), file);
    if mem[0] != NUL { AnswerIsClear(mem, Skips(mem), BLOCK, file); }
  }

  method NextHeader(mem: string, at: nat, ghost skips: seq<nat>) returns (next: nat)
    requires IsSkips(mem, skips) && at + BLOCK <= |mem|
    ensures next == at + BLOCK + skips[at]
  {
    var size := ReadSize(mem, at);
    next := at + Step(size);
    assert IsSkip(mem, skips, at);
  }

  method Hunt(mem: string, ghost skips: seq<nat>, file: string) returns (r: nat)
    requires Terminated(mem) && NUL !in file && IsSkips(mem, skips)
    requires mem[0] != NUL ==> Probe(mem, skips, BLOCK, file).Some?
    ensures r == if mem[0] == NUL then 0 else Probe(mem, skips, BLOCK, file).value
  {
    ghost var found := Probe(mem, skips, BLOCK, file);
    var testFs, tmp := 0, BLOCK;
    var len := Kstrlen(mem, testFs);
    while len != 0
      invariant 0 <= testFs < |mem| && (len != 0 <==> mem[testFs] != NUL)
      invariant if mem[0] == NUL then testFs == 0 else mem[testFs] != NUL && Probe(mem, skips, tmp, file) == found
      decreases |mem| - tmp
    {
      testFs := tmp;
      var next := NextHeader(mem, testFs, skips);
      len := Kstrlen(mem, testFs);
      if len == 0 {
        return 999;
      }
      var cmp := Kstrcmp(mem, testFs, file);
      if cmp == 0 {
        return tmp + 512;
      }
      tmp := next;
    }
    r := 0;
  }

  /** The data offset of the first member from `k` on that is called `file`, or 999; the headers are at `offs`. */
  function Search(ms: seq<Member>, offs: seq<nat>, k: nat, file: string): (r: nat)
    requires |offs| == |ms| + 1 && k <= |ms|
    ensures || (r == 999 && forall i | k <= i < |ms| :: ms[i].name != file)
            || (exists i | k <= i < |ms| :: IsFirst(ms, k, file, i) && r == offs[i] + BLOCK)
    decreases |ms| - k
  {
    if k == |ms| then 999
    else if ms[k].name == file then assert IsFirst(ms, k, file, k); offs[k] + BLOCK
    else
      var r := Search(ms, offs, k + 1, file);
      assert forall i | k < i < |ms| :: IsFirst(ms, k + 1, file, i) ==> IsFirst(ms, k, file, i);
      r
  }

  /** The first member from `k` on that is called `file` is the `i`-th. */
  ghost predicate IsFirst(ms: seq<Member>, k: nat, file: string, i: nat) {
    k <= i < |ms| && ms[i].name == file && forall j | k <= j < i :: ms[j].name != file
  }

  /** What a probe meets at the headers of an archive. */
  ghost predicate Readable(mem: string, skips: seq<nat>, ms: seq<Member>, offs: seq<nat>) {
    && Terminated(mem) && |skips| == |mem|
    && |offs| == |ms| + 1 && offs[|ms|] + BLOCK <= |mem| && mem[offs[|ms|]] == NUL
    && forall k | 0 <= k < |ms| :: ReadableAt(mem, skips, ms, offs, k)
  }

  ghost predicate ReadableAt(mem: string, skips: seq<nat>, ms: seq<Member>, offs: seq<nat>, k: nat)
    requires Terminated(mem) && |skips| == |mem| && |offs| == |ms| + 1 && k < |ms|
  {
    var at := offs[k];
    at + BLOCK <= |mem| && mem[at] != NUL && Str(mem, at) == ms[k].name && offs[k + 1] == at + BLOCK + skips[at]
  }

  lemma ArchiveReadable(mem: string, skips: seq<nat>, ms: seq<Member>)
    requires Terminated(mem) && IsArchive(mem, ms) && IsSkips(mem, skips)
    ensures Readable(mem, skips, ms, Offsets(ms))
  {
    forall k | 0 <= k < |ms| ensures ReadableAt(mem, skips, ms, Offsets(ms), k) {
      var at := Offset(ms, k);
      assert IsMember(mem, at, ms[k]) && IsSkip(mem, skips, at);
      HeaderName(mem, at, ms[k]);
      HeaderSize(mem, at, ms[k]);
      StepPads(|ms[k].content|);
    }
  }

  /** If the first member is empty, file_exists is a search of the other members. */
  lemma FindsMembers(mem: string, ms: seq<Member>, file: string)
    requires Terminated(mem) && IsArchive(mem, ms) && ms != [] && ms[0].content == ""
    ensures mem[0] != NUL && Probe(mem, Skips(mem), BLOCK, file) == Some(Search(ms, Offsets(ms), 1, file))
  {
    ArchiveReadable(mem, Skips(mem), ms);
    assert ReadableAt(mem, Skips(mem), ms, Offsets(ms), 0);
    assert Offsets(ms)[1] == BLOCK by { assert Offset(ms, 0) == 0; }
    ProbeSearch(mem, Skips(mem), ms, Offsets(ms), file, 1);
  }

  lemma {:induction false} ProbeSearch(mem: string, skips: seq<nat>, ms: seq<Member>, offs: seq<nat>, file: string,
                                       k: nat)
    requires Readable(mem, skips, ms, offs) && k <= |ms|
    ensures Probe(mem, skips, offs[k], file) == Some(Search(ms, offs, k, file))
    decreases |ms| - k
  {
    if k < |ms| {
      assert ReadableAt(mem, skips, ms, offs, k);
      ProbeSearch(mem, skips, ms, offs, file, k + 1);
    }
  }

  /** 999, or the place behind a header called `file`, which is neither of the answers that mean "not there". */
  predicate ClearAnswer(mem: string, file: string, r: nat)
    requires Terminated(mem)
  {
    r == 999 || (IsHit(r) && r <= |mem| && mem[r - BLOCK] != NUL && Str(mem, r - BLOCK) == file)
  }

  /** In any memory, file_exists gives a clear answer if it gives one. */
  lemma {:induction false} AnswerIsClear(mem: string, skips: seq<nat>, tmp: nat, file: string)
    requires Terminated(mem) && IsSkips(mem, skips) && IsHit(tmp + BLOCK)
    ensures Probe(mem, skips, tmp, file).Some? ==> ClearAnswer(mem, file, Probe(mem, skips, tmp, file).value)
    decreases |mem| - tmp
  {
    if tmp + BLOCK <= |mem| && mem[tmp] != NUL && Str(mem, tmp) != file {
      NextBlock(mem, skips, tmp);
      AnswerIsClear(mem, skips, tmp + BLOCK + skips[tmp], file);
    }
  }

  lemma NextBlock(mem: string, skips: seq<nat>, tmp: nat)
    requires IsSkips(mem, skips) && IsHit(tmp + BLOCK) && tmp + BLOCK <= |mem|
    ensures IsHit(tmp + BLOCK + skips[tmp] + BLOCK)
  {
    assert IsSkip(mem, skips, tmp);
    BlockStep(tmp, skips[tmp], SizeAt(mem, tmp));
  }

  lemma BlockStep(tmp: nat, skip: nat, size: nat)
    requires IsHit(tmp + BLOCK) && BLOCK + skip == Step(size)
    ensures IsHit(tmp + BLOCK + skip + BLOCK)
  {
  }

  /** In an archive, a member that is there is never taken for one that is not. */
  lemma HitIsNoSentinel(ms: seq<Member>, file: string)
    requires ms != []
    ensures var r := Search(ms, Offsets(ms), 1, file);
            if forall i | 1 <= i < |ms| :: ms[i].name != file then r == 999 else r % BLOCK == 0 && r >= 1024
  {
    forall i | 1 <= i <= |ms| ensures IsHit(Offsets(ms)[i] + BLOCK) {
      HitArithmetic(Offset(ms, i), i);
    }
    Hits(ms, Offsets(ms), file);
  }

  predicate IsHit(r: nat) { r % BLOCK == 0 && r >= 1024 }

  lemma HitArithmetic(at: nat, i: nat)
    requires at % BLOCK == 0 && at >= i * BLOCK && i >= 1
    ensures IsHit(at + BLOCK)
  {
  }

  lemma Hits(ms: seq<Member>, offs: seq<nat>, file: string)
    requires ms != [] && |offs| == |ms| + 1 && forall i | 1 <= i <= |ms| :: IsHit(offs[i] + BLOCK)
    ensures var r := Search(ms, offs, 1, file);
            if forall i | 1 <= i < |ms| :: ms[i].name != file then r == 999 else IsHit(r)
  {
  }

  /** If the first member is not empty and its content begins with a zero byte, nothing is ever found. */
  lemma BlindArchive(mem: string, ms: seq<Member>, file: string)
    requires Terminated(mem) && IsArchive(mem, ms) && ms != [] && ms[0].content != "" && ms[0].content[0] == NUL
    ensures mem[0] != NUL && Probe(mem, Skips(mem), BLOCK, file) == Some(999)
  {
    ArchiveReadable(mem, Skips(mem), ms);
    assert ReadableAt(mem, Skips(mem), ms, Offsets(ms), 0);
    assert IsMember(mem, Offset(ms, 0), ms[0]) && Offset(ms, 0) == 0;
    assert Offset(ms, |ms|) >= |ms| * BLOCK;
    FirstByte(mem, BLOCK, ms[0].content);
  }

  lemma FirstByte(mem: string, at: nat, text: string)
    requires Holds(mem, at, text) && text != ""
    ensures mem[at] == text[0]
  {
    assert mem[at] == mem[at..at + |text|][0];
  }

  /** If it begins with any other byte, what stands there is taken for a header and its name is found. */
  lemma FoundInContent(mem: string, ms: seq<Member>)
    requires Terminated(mem) && IsArchive(mem, ms) && ms != [] && ms[0].content != "" && ms[0].content[0] != NUL
    ensures var file := Str(mem, BLOCK);
            Probe(mem, Skips(mem), BLOCK, file) == Some(1024) && Search(ms, Offsets(ms), 1, file) != 1024
  {
    assert IsMember(mem, Offset(ms, 0), ms[0]) && Offset(ms, 0) == 0;
    assert Offset(ms, |ms|) >= |ms| * BLOCK;
    FirstByte(mem, BLOCK, ms[0].content);
    forall i | 1 <= i < |ms| ensures Offsets(ms)[i] != BLOCK {
      SecondOffset(ms);
      OffsetGrows(ms, 1, i);
    }
  }

  lemma SecondOffset(ms: seq<Member>)
    requires ms != [] && ms[0].content != ""
    ensures Offset(ms, 1) >= 2 * BLOCK
  {
    assert Offset(ms, 0) == 0;
  }

  lemma {:induction false} OffsetGrows(ms: seq<Member>, j: nat, k: nat)
    requires j <= k <= |ms|
    ensures Offset(ms, j) <= Offset(ms, k)
    decreases k
  {
    if j < k { OffsetGrows(ms, j, k - 1); }
  }

  /** file_exists searches the members behind the first if and only if the first is empty, or is the only one and begins
      with a zero byte. */
  lemma FindsExactly(mem: string, ms: seq<Member>)
    requires Terminated(mem) && IsArchive(mem, ms) && ms != []
    ensures (forall file :: Probe(mem, Skips(mem), BLOCK, file) == Some(Search(ms, Offsets(ms), 1, file)))
            <==> ms[0].content == "" || (|ms| == 1 && ms[0].content[0] == NUL)
  {
    if ms[0].content == "" {
      forall file ensures Probe(mem, Skips(mem), BLOCK, file) == Some(Search(ms, Offsets(ms), 1, file)) {
        FindsMembers(mem, ms, file);
      }
    } else if ms[0].content[0] == NUL {
      forall file ensures Probe(mem, Skips(mem), BLOCK, file) == Some(999) {
        BlindArchive(mem, ms, file);
      }
      if |ms| > 1 { HitIsNoSentinel(ms, ms[1].name); }
    } else {
      FoundInContent(mem, ms);
    }
  }

  // ---- Reading a file

  /** readfile on a member's header: the first bytes of its content, as many as asked for and present,
      and a terminator. */
  method Readfile(mem: string, addr: nat, size: int, buf: array<char>, ghost m: Member) returns (bytes: nat)
    requires IsMember(mem, addr, m)
    requires size >= 0 ==> Min(size, |m.content|) < buf.Length
    modifies buf
    ensures bytes == if size < 0 then 0 else Min(size, |m.content|)
    ensures buf[..] == if size < 0 then old(buf[..]) else m.content[..bytes] + [NUL] + old(buf[bytes + 1..])
  {
    if size < 0 {
      return 0;
    }
    HeaderSize(mem, addr, m);
    var fileSize := ReadSize(mem, addr);
    bytes := ReadBytes(mem, addr + 512, size, fileSize, buf, m.content);
  }

  method ReadBytes(mem: string, from: nat, size: nat, fileSize: nat, buf: array<char>, ghost content: string)
    returns (bytes: nat)
    requires Holds(mem, from, content) && fileSize == |content| && Min(size, |content|) < buf.Length
    modifies buf
    ensures bytes == Min(size, |content|) && buf[..] == content[..bytes] + [NUL] + old(buf[bytes + 1..])
  {
    bytes := size;
    if fileSize < size {
      bytes := fileSize;
    }
    Copy(mem, from, bytes, buf);
    assert content[..bytes] == mem[from..from + bytes];
  }

  method Copy(mem: string, from: nat, size: nat, buf: array<char>)
    requires from + size <= |mem| && size < buf.Length
    modifies buf
    ensures buf[..] == mem[from..from + size] + [NUL] + old(buf[size + 1..])
  {
    var left, start, i := size, from, 0;
    while left > 0
      invariant 0 <= i && 0 <= left && i + left == size && start == from + i
      invariant forall k | 0 <= k < i :: buf[k] == mem[from + k]
      invariant forall k | i <= k < buf.Length :: buf[k] == old(buf[k])
    {
      left := left - 1;
      buf[i] := mem[start];
      i, start := i + 1, start + 1;
    }
    buf[i] := NUL;
  }

  function Min(a: int, b: int): int { if a < b then a else b }
}
