/** file.go: the File state machine over one backing file. The file's
    bytes (disk), the handle's cursor (pos), the bufio.Writer's pending
    bytes (buf) and the closed flag are fields that the operations update;
    the seek buffer is a fixed 32-byte array reused by every scan. */
module LineFile {
  import opened Types
  import opened Helpers
  import opened Lines
  import opened Navigation

  /** The errors the core produces. Invalid is what every method of a nil
      *os.File returns (os.ErrInvalid): a closed File has no handle. */
  datatype Error = EOF | LineNotFound | IsClosed | IsOpen | InvalidOptions | Invalid

  datatype Whence = SeekStart | SeekCurrent | SeekEnd

  /** The file location: Path joined with Name + "." + Ext. */
  function Location(o: Opts): (loc: string)
    ensures |loc| == |o.path| + |o.name| + |o.ext| + 2
    ensures loc[..|o.path|] == o.path && loc[|o.path|] == '/'
    ensures loc[|o.path| + 1..|loc| - |o.ext| - 1] == o.name && loc[|loc| - |o.ext| - 1] == '.'
    ensures loc[|loc| - |o.ext|..] == o.ext
  {
    o.path + "/" + o.name + "." + o.ext
  }

  /** One readLine from cursor p over data d: when a newline remains, the
      bytes up to the first one are delivered and the cursor ends just past
      it; otherwise nothing is delivered, the cursor is at end of data and
      the result is EOF. */
  ghost predicate LineDelivered(d: seq<Byte>, p: nat, line: Option<seq<Byte>>, p': nat, err: Option<Error>)
    requires p <= |d|
  {
    match FirstNewline(d, p)
    case Some(q) => line == Some(d[p..q]) && p' == q + 1 && err == None
    case None => line == None && p' == |d| && err == Some(EOF)
  }

  lemma LineDeliveredFound(d: seq<Byte>, p: nat, q: nat)
    requires p <= |d| && FirstNewline(d, p) == Some(q)
    ensures LineDelivered(d, p, Some(d[p..q]), q + 1, None)
  {
  }

  lemma LineDeliveredEnd(d: seq<Byte>, p: nat)
    requires p <= |d| && FirstNewline(d, p) == None
    ensures LineDelivered(d, p, None, |d|, Some(EOF))
  {
  }

  /** readLine's last window: the bytes accumulated before it plus the
      window's bytes up to its first newline are the record delivered, and
      the cursor lands just past that newline. */
  lemma WindowDeliversLine(d: seq<Byte>, p0: nat, p: nat, s: seq<Byte>, idx: nat, acc: seq<Byte>)
    requires p0 <= p && p + |s| <= |d| && s == d[p..p + |s|]
    requires acc == d[p0..p] && Newline !in acc
    requires idx < |s| && s[idx] == Newline && Newline !in s[..idx]
    ensures LineDelivered(d, p0, Some(acc + s[..idx]), p + idx + 1, None)
  {
    ScanWindowNewline(d, p0, p, s, idx);
    LineDeliveredFound(d, p0, p + idx);
  }

  /** One readLine inside ReadLines: a delivered record is the first one
      ReadAll takes, and the rest of ReadAll continues from the new cursor;
      nothing delivered means ReadAll takes nothing and ends at end of data. */
  lemma ReadAllStep(d: seq<Byte>, p: nat, stop: seq<Byte> -> bool, line: Option<seq<Byte>>, p': nat, err: Option<Error>)
    requires p <= |d| && LineDelivered(d, p, line, p', err)
    ensures p' <= |d|
    ensures line.Some? ==>
              ReadAll(d, p, stop) == (if stop(line.value) then ([line.value], p')
                                      else ([line.value] + ReadAll(d, p', stop).0, ReadAll(d, p', stop).1))
    ensures line.None? ==> ReadAll(d, p, stop) == ([], |d|) && err == Some(EOF)
  {
  }

  /** ReadLines' loop after a delivered record: the records collected so
      far plus what ReadAll still takes from the new cursor are all of
      ReadAll's records, unless the callback accepted the record, which
      then ends them. */
  lemma ReadLinesProgress(d: seq<Byte>, p: nat, stop: seq<Byte> -> bool, line: Option<seq<Byte>>, p': nat, err: Option<Error>,
                          lines: seq<seq<Byte>>, all: (seq<seq<Byte>>, nat))
    requires p <= |d| && LineDelivered(d, p, line, p', err) && line.Some?
    requires lines + ReadAll(d, p, stop).0 == all.0 && ReadAll(d, p, stop).1 == all.1
    ensures p' <= |d| && err == None
    ensures stop(line.value) ==> lines + [line.value] == all.0 && p' == all.1
    ensures !stop(line.value) ==>
              (lines + [line.value]) + ReadAll(d, p', stop).0 == all.0 && ReadAll(d, p', stop).1 == all.1
  {
    ReadAllStep(d, p, stop, line, p', err);
    if !stop(line.value) {
      assert (lines + [line.value]) + ReadAll(d, p', stop).0 == lines + ([line.value] + ReadAll(d, p', stop).0);
    }
  }

  /** ReadLines' loop at end of data: the records collected are all of
      ReadAll's and the cursor is where ReadAll ends. */
  lemma ReadLinesEnd(d: seq<Byte>, p: nat, stop: seq<Byte> -> bool, line: Option<seq<Byte>>, p': nat, err: Option<Error>,
                     lines: seq<seq<Byte>>, all: (seq<seq<Byte>>, nat))
    requires p <= |d| && LineDelivered(d, p, line, p', err) && line.None?
    requires lines + ReadAll(d, p, stop).0 == all.0 && ReadAll(d, p, stop).1 == all.1
    ensures lines == all.0 && p' == all.1 && err == Some(EOF)
  {
    ReadAllStep(d, p, stop, line, p', err);
  }

  class File {
    const fLoc: string
    /** seekBuf: the scan window shared by every scan. */
    const seekBuf: array<Byte>
    /** The bytes stored at fLoc; they outlive the handle. */
    var disk: seq<Byte>
    /** The bytes the last Sync made durable. */
    var durable: seq<Byte>
    /** The handle's cursor. */
    var pos: nat
    /** The bytes buffered by WriteLine and not yet flushed. */
    var buf: seq<Byte>
    var closed: bool

    ghost predicate Valid()
      reads this
    {
      && seekBuf.Length == SeekerBufSize
      && pos <= |disk|
      && (closed ==> buf == [])
    }

    /** The File New builds before opening it: closed, over the bytes
        already stored at the location. */
    constructor (loc: string, stored: seq<Byte>)
      ensures Valid() && fresh(seekBuf)
      ensures fLoc == loc && closed && disk == stored && durable == stored && pos == 0 && buf == []
    {
      fLoc := loc;
      seekBuf := new Byte[SeekerBufSize];
      disk := stored;
      durable := stored;
      pos := 0;
      buf := [];
      closed := true;
    }

    // -------------------------------------------------------------------
    // The handle's capability surface (FileInt: Seek, Read, Write, Sync)

    function SeekTarget(offset: int, whence: Whence): int
      reads this
    {
      match whence
      case SeekStart => offset
      case SeekCurrent => pos + offset
      case SeekEnd => |disk| + offset
    }

    /** Seek on the handle; the core only ever seeks within the data. */
    method SeekHandle(offset: int, whence: Whence) returns (ret: int, err: Option<Error>)
      requires Valid()
      requires !closed ==> 0 <= SeekTarget(offset, whence) <= |disk|
      modifies this`pos
      ensures Valid()
      ensures closed ==> ret == 0 && err == Some(Invalid) && pos == old(pos)
      ensures !closed ==> pos == old(SeekTarget(offset, whence)) && ret == pos && err == None
    {
      if closed {
        return 0, Some(Invalid);
      }
      pos := SeekTarget(offset, whence);
      return pos, None;
    }

    /** Read into seekBuf[:k]: up to k bytes from the cursor; a read of a
        non-empty slice at end of data returns nothing and EOF. */
    method ReadHandle(k: nat) returns (n: nat, err: Option<Error>)
      requires Valid() && k <= seekBuf.Length
      modifies this`pos, seekBuf
      ensures Valid()
      ensures closed ==> n == 0 && err == Some(Invalid) && pos == old(pos)
      ensures !closed ==> && n == Min(k, |disk| - old(pos))
                          && pos == old(pos) + n
                          && seekBuf[..n] == disk[old(pos)..pos]
                          && err == (if n == 0 && k > 0 then Some(EOF) else None)
    {
      if closed {
        return 0, Some(Invalid);
      }
      n := Min(k, |disk| - pos);
      forall i | 0 <= i < n {
        seekBuf[i] := disk[pos + i];
      }
      pos := pos + n;
      err := if n == 0 && k > 0 then Some(EOF) else None;
    }

    /** Write at the cursor (the file is opened without O_APPEND). */
    method WriteHandle(x: seq<Byte>) returns (err: Option<Error>)
      requires Valid()
      modifies this`disk, this`pos
      ensures Valid()
      ensures closed ==> err == Some(Invalid) && disk == old(disk) && pos == old(pos)
      ensures !closed ==> err == None && disk == Overwrite(old(disk), old(pos), x) && pos == old(pos) + |x|
    {
      if closed {
        return Some(Invalid);
      }
      disk := Overwrite(disk, pos, x);
      pos := pos + |x|;
      err := None;
    }

    /** Sync: what is on disk becomes durable. */
    method SyncHandle() returns (err: Option<Error>)
      requires Valid()
      modifies this`durable
      ensures closed ==> err == Some(Invalid) && durable == old(durable)
      ensures !closed ==> err == None && durable == disk
    {
      if closed {
        return Some(Invalid);
      }
      durable := disk;
      err := None;
    }

    /** bufio.Writer.Flush: hand the pending bytes to the handle. */
    method FlushWriter() returns (err: Option<Error>)
      requires Valid() && !closed
      modifies this`disk, this`pos, this`buf
      ensures Valid()
      ensures err == None && buf == [] && disk == Overwrite(old(disk), old(pos), old(buf)) && pos == old(pos) + |old(buf)|
    {
      err := WriteHandle(buf);
      buf := [];
    }

    // -------------------------------------------------------------------
    // Chunk scanner

    /** getPosition: Seek(0, SEEK_CUR), error ignored. */
    method GetPosition() returns (p: int)
      requires Valid()
      modifies this`pos
      ensures Valid() && pos == old(pos)
      ensures p == if closed then 0 else pos
    {
      var err;
      p, err := SeekHandle(0, SeekCurrent);
    }

    /** seekBackwards: seek back by cc, clamped to 32. */
    method SeekBackwards(cc: int) returns (nc: int, err: Option<Error>)
      requires Valid()
      requires !closed ==> 0 <= pos - Min(cc, SeekerBufSize) <= |disk|
      modifies this`pos
      ensures Valid()
      ensures closed ==> nc == 0 && err == Some(Invalid) && pos == old(pos)
      ensures !closed ==> pos == old(pos) - Min(cc, SeekerBufSize) && nc == pos && err == None
    {
      var c := cc;
      if c > SeekerBufSize {
        c := SeekerBufSize;
      }
      nc, err := SeekHandle(-c, SeekCurrent);
    }

    /** Runs the scan callback v on seekBuf[:n] (the closures of nextLine
        and prevLine; prevLine's reverses the window in place first). */
    method Visit(v: Visitor, n: nat) returns (v': Visitor, end: bool)
      requires Valid() && n <= seekBuf.Length
      modifies seekBuf
      ensures (v', end) == VisitWindow(v, old(seekBuf[..n]))
    {
      match v
      case NextLineFn(nlf0, offset) =>
        var nlf := nlf0;
        var i := 0;
        while i < n
          invariant 0 <= i <= n
          invariant seekBuf[..] == old(seekBuf[..])
          invariant NextLineScan(nlf, offset, seekBuf[..n], i) == NextLineScan(nlf0, offset, seekBuf[..n], 0)
        {
          if seekBuf[i] == Newline {
            nlf := true;
          } else if nlf {
            return NextLineFn(nlf, n - i), true;
          }
          i := i + 1;
        }
        return NextLineFn(nlf, offset), false;
      case PrevLineFn(nlc0, offset) =>
        ReverseByteSlice(seekBuf, n);
        ghost var s := seekBuf[..n];
        var nlc := nlc0;
        var i := 0;
        while i < n
          invariant 0 <= i <= n
          invariant seekBuf[..n] == s
          invariant PrevLineScan(nlc, offset, s, i) == PrevLineScan(nlc0, offset, s, 0)
        {
          if seekBuf[i] == Newline {
            nlc := nlc + 1;
            if nlc == 2 {
              return PrevLineFn(nlc, i), true;
            }
          }
          i := i + 1;
        }
        return PrevLineFn(nlc, offset), false;
    }

    /** readChunks: read 32-byte windows forward from the cursor and pass
        each to the callback, until it asks to stop or a read at end of
        data returns nothing (which is not an error). */
    method ReadChunks(v: Visitor) returns (v': Visitor, err: Option<Error>)
      requires Valid()
      modifies this`pos, seekBuf
      ensures Valid()
      ensures closed ==> err == Some(Invalid) && v' == v && pos == old(pos)
      ensures !closed ==> err == None && (v', pos) == Forward(v, disk, old(pos))
    {
      v' := v;
      err := None;
      while true
        invariant Valid()
        invariant closed ==> v' == v && pos == old(pos)
        invariant !closed ==> Forward(v', disk, pos) == Forward(v, disk, old(pos))
        decreases |disk| - pos
      {
        var n;
        ghost var p, v0 := pos, v';
        n, err := ReadHandle(SeekerBufSize);
        if err == Some(EOF) && n == 0 {
          ForwardAtEnd(v', disk);
          err := None;
          break;
        } else if err.Some? {
          break;
        }
        ghost var w := seekBuf[..n];
        assert w == disk[p..p + n];
        var end;
        v', end := Visit(v', n);
        if end {
          ForwardEnds(v0, disk, p, n);
          break;
        }
        ForwardContinues(v0, disk, p, n);
      }
    }

    /** readReverseChunks: from the cursor, repeatedly seek back by
        min(curr, 32), read that window and pass it to the callback; unless
        the window began at the start of the file, seek back again by
        seekBackwards(curr) (the new absolute offset, not the window size). */
    method ReadReverseChunks(v: Visitor) returns (v': Visitor, err: Option<Error>)
      requires Valid()
      modifies this`pos, seekBuf
      ensures Valid()
      ensures closed ==> err == Some(Invalid) && v' == v && pos == old(pos)
      ensures !closed ==> err == None && (v', pos) == Backward(v, disk, old(pos))
    {
      var curr := GetPosition();
      var done := false;
      v' := v;
      err := None;
      while !done
        invariant Valid()
        invariant closed ==> v' == v && pos == old(pos) && curr == 0
        invariant !done
        invariant !closed ==> curr == pos && Backward(v', disk, curr) == Backward(v, disk, old(pos))
        decreases curr
      {
        ghost var c0, v0 := curr, v';
        var cc;
        if curr > SeekerBufSize {
          cc := SeekerBufSize;
        } else {
          cc := curr;
          done := true;
        }
        curr, err := SeekBackwards(curr);
        if err.Some? {
          return;
        }
        var n;
        n, err := ReadHandle(cc);
        if err == Some(EOF) && n == 0 {
          err := None;
          break;
        } else if err.Some? {
          break;
        }
        assert pos == c0 && n == cc;
        assert seekBuf[..n] == disk[WindowStart(c0)..c0];
        var end;
        v', end := Visit(v', n);
        if end {
          BackwardEnds(v0, disk, c0);
          break;
        }
        if done {
          BackwardEnds(v0, disk, c0);
          break;
        }
        BackwardContinues(v0, disk, c0);
        curr, err := SeekBackwards(curr);
        if err.Some? {
          break;
        }
      }
    }

    // -------------------------------------------------------------------
    // Line navigator

    /** nextLine: move the cursor to the start of the first record that
        follows a newline at or after it. */
    method NextLine() returns (err: Option<Error>)
      requires Valid()
      modifies this`pos, seekBuf
      ensures Valid()
      ensures closed ==> err == Some(Invalid) && pos == old(pos)
      ensures !closed ==> match NextLineTarget(disk, old(pos))
        case Some(j) => pos == j && err == None
        case None => pos == |disk| && err == Some(LineNotFound)
    {
      ForwardNextLine(disk, pos, false);
      var v;
      v, err := ReadChunks(NextLineFn(false, -1));
      if err.Some? {
        return;
      }
      if v.offset == -1 {
        return Some(LineNotFound);
      }
      var ret;
      ret, err := SeekHandle(-v.offset, SeekCurrent);
    }

    /** prevLine: move the cursor just after the second newline met while
        scanning backward, or to the start of the file if fewer than two
        are met. */
    method PrevLine() returns (err: Option<Error>)
      requires Valid()
      modifies this`pos, seekBuf
      ensures Valid()
      ensures closed ==> err == Some(Invalid) && pos == old(pos)
      ensures !closed ==> pos == PrevLineTarget(disk, old(pos)) && err == None
    {
      BackwardPrevLine(disk, pos, 0);
      var v;
      v, err := ReadReverseChunks(PrevLineFn(0, -1));
      if err.Some? {
        return;
      }
      var ret;
      if v.offset == -1 {
        ret, err := SeekHandle(0, SeekStart);
      } else {
        ret, err := SeekHandle(-v.offset, SeekCurrent);
      }
    }

    // -------------------------------------------------------------------
    // Line reader

    /** readLine (and ReadLine, which only adds the lock): accumulate bytes
        until a window holds a newline, seek back by what was read past it,
        and deliver the record (delimiter excluded) to the callback; line is
        what the callback receives. At end of data the callback is not
        called and EOF is returned. */
    method ReadLine() returns (line: Option<seq<Byte>>, err: Option<Error>)
      requires Valid()
      modifies this`pos, seekBuf
      ensures Valid()
      ensures closed ==> line == None && err == Some(Invalid) && pos == old(pos)
      ensures !closed ==> LineDelivered(disk, old(pos), line, pos, err)
    {
      ghost var p0 := pos;
      var acc: seq<Byte> := [];
      line := None;
      err := None;
      while err == None
        invariant Valid()
        invariant line == None
        invariant closed ==> pos == p0 && (err == None || err == Some(Invalid))
        invariant !closed ==> p0 <= pos <= |disk| && acc == disk[p0..pos] && Newline !in acc
        invariant !closed && err.Some? ==> err == Some(EOF) && pos == |disk|
        decreases |disk| - pos + (if err == None then 1 else 0)
      {
        var n;
        ghost var p := pos;
        n, err := ReadHandle(SeekerBufSize);
        if err.Some? && err != Some(EOF) {
          break;
        }
        var s := seekBuf[..n];
        var idx := GetNewlineIndex(s);
        if idx == -1 {
          ScanWindowNoNewline(disk, p0, p, s);
          acc := acc + s;
          continue;
        }
        WindowDeliversLine(disk, p0, p, s, idx, acc);
        acc := acc + s[..idx];
        var ret, e := SeekHandle(-(n - idx - 1), SeekCurrent);
        err := None;
        line := Some(acc);
        break;
      }
      if !closed && line.None? {
        assert disk[p0..] == acc;
        NoNewlineFromHere(disk, p0);
        LineDeliveredEnd(disk, p0);
      }
    }

    /** ReadLines: call readLine until the callback stop returns true or
        end of data; the final EOF is not reported. lines is what the
        callback receives, in order. */
    method ReadLines(stop: seq<Byte> -> bool) returns (lines: seq<seq<Byte>>, err: Option<Error>)
      requires Valid()
      modifies this`pos, seekBuf
      ensures Valid()
      ensures closed ==> lines == [] && err == Some(Invalid) && pos == old(pos)
      ensures !closed ==> err == None && (lines, pos) == ReadAll(disk, old(pos), stop)
    {
      ghost var p0 := pos;
      ghost var all := ReadAll(disk, p0, stop);
      var end := false;
      lines := [];
      err := None;
      while err == None && !end
        invariant Valid()
        invariant closed ==> lines == [] && pos == p0 && (err == None || err == Some(Invalid)) && !end
        invariant !closed && err == None && !end ==>
          lines + ReadAll(disk, pos, stop).0 == all.0 && ReadAll(disk, pos, stop).1 == all.1
        invariant !closed && (err.Some? || end) ==> lines == all.0 && pos == all.1 && (err == None || err == Some(EOF))
        decreases |disk| - pos + (if err == None && !end then 1 else 0)
      {
        var line;
        ghost var p := pos;
        line, err := ReadLine();
        if line.Some? {
          ReadLinesProgress(disk, p, stop, line, pos, err, lines, all);
          lines := lines + [line.value];
          end := stop(line.value);
        } else if !closed {
          ReadLinesEnd(disk, p, stop, line, pos, err, lines, all);
        }
      }
      if err == Some(EOF) {
        err := None;
      }
    }

    // -------------------------------------------------------------------
    // State machine

    /** Open: re-open a closed File at offset 0 with an empty write buffer. */
    method Open() returns (err: Option<Error>)
      requires Valid()
      modifies this`pos, this`buf, this`closed
      ensures Valid()
      ensures !old(closed) ==> err == Some(IsOpen) && !closed && pos == old(pos) && buf == old(buf)
      ensures old(closed) ==> err == None && !closed && pos == 0 && buf == []
    {
      if !closed {
        return Some(IsOpen);
      }
      pos := 0;
      buf := [];
      closed := false;
      err := None;
    }

    /** SeekToStart: its guard is inverted, so an open File answers IsOpen
        and a closed one seeks a nil handle. It never moves the cursor. */
    method SeekToStart() returns (err: Option<Error>)
      requires Valid()
      modifies this`pos
      ensures Valid() && pos == old(pos)
      ensures err.Some?
      ensures err == Some(if closed then Invalid else IsOpen)
    {
      if !closed {
        return Some(IsOpen);
      }
      var ret;
      ret, err := SeekHandle(0, SeekStart);
    }

    /** SeekToEnd: the same inverted guard as SeekToStart. */
    method SeekToEnd() returns (err: Option<Error>)
      requires Valid()
      modifies this`pos
      ensures Valid() && pos == old(pos)
      ensures err.Some?
      ensures err == Some(if closed then Invalid else IsOpen)
    {
      if !closed {
        return Some(IsOpen);
      }
      var ret;
      ret, err := SeekHandle(0, SeekEnd);
    }

    /** WriteLine: buffer b and one newline; nothing reaches the disk. */
    method WriteLine(b: seq<Byte>) returns (err: Option<Error>)
      requires Valid()
      modifies this`buf
      ensures Valid()
      ensures closed ==> err == Some(IsClosed) && buf == old(buf)
      ensures !closed ==> err == None && buf == old(buf) + b + [Newline]
    {
      if closed {
        return Some(IsClosed);
      }
      buf := buf + b;
      buf := buf + [Newline];
      err := None;
    }

    /** Flush: write the pending bytes at the cursor, then sync. */
    method Flush() returns (err: Option<Error>)
      requires Valid()
      modifies this`disk, this`pos, this`buf, this`durable
      ensures Valid()
      ensures closed ==> err == Some(IsClosed) && unchanged(this)
      ensures !closed ==> && err == None && buf == []
                          && disk == Overwrite(old(disk), old(pos), old(buf))
                          && pos == old(pos) + |old(buf)|
                          && durable == disk
    {
      if closed {
        return Some(IsClosed);
      }
      err := FlushWriter();
      if err.Some? {
        return;
      }
      err := SyncHandle();
    }

    /** Close: write the pending bytes at the cursor (no sync), release the
        handle and the writer, and mark the File closed. */
    method Close() returns (err: Option<Error>)
      requires Valid()
      modifies this`disk, this`pos, this`buf, this`closed
      ensures Valid()
      ensures old(closed) ==> err == Some(IsClosed) && unchanged(this)
      ensures !old(closed) ==> && err == None && closed && buf == []
                               && disk == Overwrite(old(disk), old(pos), old(buf))
    {
      if closed {
        return Some(IsClosed);
      }
      err := FlushWriter();
      if err.Some? {
        return;
      }
      buf := [];
      closed := true;
    }
  }

  /** New: reject options with an empty part, otherwise build a closed File
      over the bytes stored at the location and open it unless NoSet. */
  method New(o: Opts, stored: seq<Byte>) returns (f: File?, err: Option<Error>)
    ensures !o.IsValid() ==> f == null && err == Some(InvalidOptions)
    ensures o.IsValid() ==> && f != null && fresh(f) && fresh(f.seekBuf) && f.Valid()
                            && f.fLoc == Location(o) && f.disk == stored && f.durable == stored
                            && f.pos == 0 && f.buf == []
                            && f.closed == o.noSet && err == None
  {
    if !o.IsValid() {
      return null, Some(InvalidOptions);
    }
    f := new File(Location(o), stored);
    err := None;
    if o.noSet {
      return;
    }
    err := f.Open();
  }
}
