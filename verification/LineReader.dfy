/** The loader's line reader: a file arrives in chunks of at most 80 bytes, however fread chops it. */
module LineReader {
  import opened ConfLines

  const READ_BUFFER_SIZE: nat := 80

  class Reader {
    var readBuffer: string
    var readBufferPtr: nat
    var lineBuffer: string
    var endOfFile: bool
    var unread: string  // what the file still holds

    ghost predicate Valid()
      reads this
    {
      readBufferPtr <= |readBuffer| && (endOfFile ==> readBuffer == "" && unread == "")
    }

    /** Everything not yet delivered. */
    ghost function Pending(): string
      requires Valid()
      reads this
    {
      readBuffer[readBufferPtr..] + unread
    }

    constructor ()
      ensures Valid() && readBuffer == "" && !endOfFile
    {
      readBuffer, readBufferPtr, lineBuffer, endOfFile, unread := "", 0, "", false, "";
    }

    method SkipNewlines()
      requires Valid()
      modifies `readBufferPtr
      ensures Valid() && Lines(Pending()) == Lines(old(Pending()))
      ensures old(readBufferPtr) <= readBufferPtr
      ensures old(readBufferPtr) == readBufferPtr < |readBuffer| ==> readBuffer[readBufferPtr] != LF
    {
      while |readBuffer| > readBufferPtr
        invariant Valid() && old(readBufferPtr) <= readBufferPtr && Lines(Pending()) == Lines(old(Pending()))
        decreases |readBuffer| - readBufferPtr
      {
        if readBuffer[readBufferPtr] == LF {
          LinesAfterLF(Pending());
          assert Pending()[1..] == readBuffer[readBufferPtr + 1..] + unread;
          readBufferPtr := readBufferPtr + 1;
        } else {
          return;
        }
      }
    }

    /** Takes what the buffer holds of the current line. */
    method ScanBuffer() returns (s: string)
      requires Valid()
      modifies `readBufferPtr
      ensures Valid() && LF !in s && old(Pending()) == s + Pending()
      ensures readBufferPtr < |readBuffer| ==> readBuffer[readBufferPtr] == LF
      ensures readBufferPtr == old(readBufferPtr) + |s|
    {
      var r := readBufferPtr;
      while |readBuffer| > r
        invariant readBufferPtr <= r <= |readBuffer| && LF !in readBuffer[readBufferPtr..r]
      {
        if readBuffer[r] == LF {
          break;
        }
        r := r + 1;
      }
      s := readBuffer[readBufferPtr..r];
      readBufferPtr := r;
    }

    method ReadFromBuffer()
      requires Valid()
      modifies `readBufferPtr, `lineBuffer
      ensures Valid() && old(lineBuffer + Pending()) == lineBuffer + Pending()
      ensures LF !in old(lineBuffer) ==> LF !in lineBuffer
      ensures readBufferPtr < |readBuffer| ==> readBuffer[readBufferPtr] == LF
      ensures old(readBufferPtr) <= readBufferPtr
      ensures old(readBufferPtr) == readBufferPtr < |readBuffer| ==> old(readBuffer[readBufferPtr]) == LF
    {
      var s := ScanBuffer();
      lineBuffer := lineBuffer + s;
    }

    /** fread returns between 1 and 80 bytes while there are any, and 0 at the end of the file. */
    method RefillBuffer()
      requires Valid() && readBufferPtr == |readBuffer| && !endOfFile
      modifies `readBuffer, `readBufferPtr, `endOfFile, `unread
      ensures Valid() && Pending() == old(Pending())
      ensures endOfFile <==> old(unread) == ""
      ensures !endOfFile ==> |unread| < old(|unread|)
    {
      readBufferPtr := 0;
      var n: nat := 0;
      if unread != "" {
        assert 1 <= READ_BUFFER_SIZE && 1 <= |unread|;
        n :| 1 <= n <= READ_BUFFER_SIZE && n <= |unread|;
      }
      readBuffer, unread := unread[..n], unread[n..];
      if n == 0 {
        endOfFile := true;
      }
    }

    /** Delivers one line in `lineBuffer`; what holds anything is neither lost nor made up. */
    method ReadLine()
      requires Valid()
      modifies this
      ensures Valid() && LF !in lineBuffer
      ensures NonEmpty([lineBuffer]) + Lines(Pending()) == Lines(old(Pending()))
      ensures endOfFile ==> Pending() == ""
      ensures !endOfFile && !old(endOfFile) ==>
                || |unread| < old(|unread|)
                || (|unread| == old(|unread|) && |readBuffer| - readBufferPtr < old(|readBuffer| - readBufferPtr))
    {
      lineBuffer := "";
      SkipNewlines();
      ghost var p0 := Pending();
      ReadFromBuffer();
      while |readBuffer| == readBufferPtr && !endOfFile
        invariant Valid() && LF !in lineBuffer && lineBuffer + Pending() == p0
        invariant readBufferPtr < |readBuffer| ==> readBuffer[readBufferPtr] == LF
        invariant
          || |unread| < old(|unread|)
          || (endOfFile && !old(endOfFile))
          || (|unread| == old(|unread|) && readBuffer == old(readBuffer) && endOfFile == old(endOfFile)
              && (readBufferPtr < |readBuffer| ==> old(readBufferPtr) < readBufferPtr))
        decreases |unread|, !endOfFile
      {
        RefillBuffer();
        ReadFromBuffer();
      }
      if endOfFile {
        assert lineBuffer + Pending() == lineBuffer;
        LastLine(lineBuffer);
      } else {
        LinesAfterLine(lineBuffer, Pending());
      }
    }

    /** process_conf's loop, recording the lines it is given: the lines that hold anything are exactly the file's. */
    method AllLines() returns (lines: seq<string>)
      requires Valid() && !endOfFile
      modifies this
      ensures Valid() && endOfFile && NonEmpty(lines) == Lines(old(Pending()))
      ensures forall k | 0 <= k < |lines| :: LF !in lines[k]
    {
      lines := [];
      while !endOfFile
        invariant Valid() && NonEmpty(lines) + Lines(Pending()) == Lines(old(Pending()))
        invariant endOfFile ==> Pending() == ""
        invariant forall k | 0 <= k < |lines| :: LF !in lines[k]
        decreases !endOfFile, |unread|, |readBuffer| - readBufferPtr
      {
        ReadLine();
        OneMoreLine(lines, lineBuffer, Lines(Pending()));
        lines := lines + [lineBuffer];
      }
      LastLine("");
    }

    /** load_conf on a file that holds `file`, recording its lines. The read buffer is rewound, not emptied: what an
        aborted load left in it is read again before the file. A completed load leaves it empty. */
    method LoadConf(file: string) returns (lines: seq<string>)
      requires Valid()
      modifies this
      ensures Valid() && NonEmpty(lines) == Lines(old(readBuffer) + file)
      ensures endOfFile && readBuffer == ""
    {
      endOfFile := false;
      readBufferPtr := 0;
      unread := file;
      assert readBuffer[0..] == readBuffer;
      lines := AllLines();
    }
  }
}
