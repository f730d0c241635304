/** RapidJSON's buffered reader: a window that is refilled from a file and behaves like the file itself. */
module FileReadStreams {
  import opened Chars

  function Min(a: nat, b: nat): nat {
    if a < b then a else b
  }

  class FileReadStream {
    /** The bytes of the file, and how many of them were handed out by `fread`. */
    const file: string
    var filePos: nat

    const buffer: array<char>
    var bufferLast: int
    var current: int
    var readCount: nat
    var count: nat
    var eof: bool

    /** How often `Take` was called. */
    ghost var taken: nat

    /** The state the constructor starts from: nothing read yet. */
    ghost predicate Initial()
      reads this
    {
      && buffer.Length >= 4 && filePos == 0 && readCount == 0 && count == 0 && !eof
      && bufferLast < 0 && current == 0
    }

    /** The buffer shows the file bytes from `count` on; only at the end of the file it is not full, and then a
        NUL stands behind them. */
    ghost predicate Window()
      reads this, buffer
    {
      && buffer.Length >= 4 && filePos == count + readCount <= |file|
      && buffer[..if readCount <= buffer.Length then readCount else 0] == file[count..filePos]
      && (if eof then readCount < buffer.Length && bufferLast == readCount && buffer[readCount] == NUL
          && filePos == |file|
          else readCount == buffer.Length && bufferLast == readCount - 1)
      && 0 <= current <= bufferLast
    }

    ghost predicate Valid()
      reads this, buffer
    {
      Window() && count + current == Min(taken, |file|)
    }

    /** Reads into the buffer; short only at the end of the file. */
    method Fread() returns (n: nat)
      requires filePos <= |file|
      modifies this`filePos, buffer
      ensures n == Min(buffer.Length, |file| - old(filePos)) && filePos == old(filePos) + n
      ensures buffer[..n] == file[old(filePos)..filePos]
    {
      n := Min(buffer.Length, |file| - filePos);
      forall i | 0 <= i < n {
        buffer[i] := file[filePos + i];
      }
      filePos := filePos + n;
    }

    constructor (file: string, buffer: array<char>)
      requires buffer.Length >= 4
      modifies buffer
      ensures Valid() && taken == 0 && this.file == file && this.buffer == buffer
    {
      this.file, this.buffer := file, buffer;
      filePos, readCount, count, eof := 0, 0, 0, false;
      bufferLast, current := -1, 0;
      taken := 0;
      new;
      Read();
    }

    /** One byte on, with a refill at the end of the buffer; at the end of the file it stays. */
    method Read()
      requires Initial() || Window()
      modifies this`filePos, this`bufferLast, this`current, this`readCount, this`count, this`eof, buffer
      ensures Window()
      ensures old(Initial()) ==> count + current == 0
      ensures old(!Initial()) ==> count + current == Min(old(count + current) + 1, |file|)
    {
      if current < bufferLast {
        current := current + 1;
      } else if !eof {
        count := count + readCount;
        readCount := Fread();
        bufferLast := readCount - 1;
        current := 0;
        if readCount < buffer.Length {
          buffer[readCount] := NUL;
          bufferLast := bufferLast + 1;
          eof := true;
        }
      }
    }

    /** The next byte of the file, or NUL at its end. */
    method Peek() returns (c: char)
      requires Valid()
      ensures c == ByteAt(file, taken)
    {
      PeekIs();
      c := buffer[current];
    }

    lemma WindowAt(i: nat)
      requires Window() && i < readCount
      ensures i < buffer.Length && buffer[i] == file[count + i]
    {
      assert buffer[..readCount][i] == file[count..filePos][i];
    }

    lemma PeekIs()
      requires Valid()
      ensures buffer[current] == ByteAt(file, taken)
    {
      if current < readCount {
        WindowAt(current);
      }
    }

    method Take() returns (c: char)
      requires Valid()
      modifies this, buffer
      ensures Valid() && taken == old(taken) + 1 && c == ByteAt(file, old(taken))
    {
      PeekIs();
      c := buffer[current];
      Read();
      taken := taken + 1;
    }

    method Tell() returns (n: nat)
      requires Valid()
      ensures n == Min(taken, |file|)
    {
      n := count + current;
    }

    /** Where the next four bytes are, if the buffer shows them all and one more: the byte behind them, or the
        NUL at the end of the file. */
    method Peek4() returns (p: Option<nat>)
      requires Valid()
      ensures p.Some? <==> if eof then taken + 4 <= |file| else taken + 4 < filePos
      ensures p.Some? ==>
                && p.value + 4 <= buffer.Length && taken + 4 <= |file|
                && buffer[p.value..p.value + 4] == file[taken..taken + 4]
    {
      if current + 4 <= bufferLast {
        assert taken == count + current && current + 4 <= readCount;
        ghost var shown, next := buffer[current..current + 4], file[taken..taken + 4];
        forall j | 0 <= j < 4 ensures shown[j] == next[j] {
          WindowAt(current + j);
        }
        p := Some(current);
      } else {
        p := None;
      }
    }
  }
}
