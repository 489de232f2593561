/** The on-disk record format: records are byte strings terminated by one
    newline. These functions say which records a byte sequence holds from a
    given offset and what the file looks like after buffered bytes are
    written at the cursor. */
module Lines {
  import opened Types

  /** The least index q >= p with d[q] a newline, if there is one. */
  function FirstNewline(d: seq<Byte>, p: nat): (r: Option<nat>)
    requires p <= |d|
    ensures r.Some? ==> p <= r.value < |d| && d[r.value] == Newline
    decreases |d| - p
  {
    if p == |d| then None
    else if d[p] == Newline then Some(p)
    else FirstNewline(d, p + 1)
  }

  /** What FirstNewline finds is the first newline from p: none lies
      between p and it, and None means none lies after p. */
  lemma {:induction false} FirstNewlineIsFirst(d: seq<Byte>, p: nat)
    requires p <= |d|
    ensures FirstNewline(d, p).Some? ==> Newline !in d[p..FirstNewline(d, p).value]
    ensures FirstNewline(d, p).None? ==> Newline !in d[p..]
    decreases |d| - p
  {
    if p < |d| && d[p] != Newline {
      FirstNewlineIsFirst(d, p + 1);
      var r := FirstNewline(d, p + 1);
      assert d[p..] == [d[p]] + d[p + 1..];
      if r.Some? {
        assert d[p..r.value] == [d[p]] + d[p + 1..r.value];
      }
    }
  }

  /** The newline-terminated records from offset p, delimiters excluded. An
      unterminated tail is not a record. */
  function Records(d: seq<Byte>, p: nat): (rs: seq<seq<Byte>>)
    requires p <= |d|
    ensures forall i :: 0 <= i < |rs| ==> Newline !in rs[i]
    decreases |d| - p
  {
    match FirstNewline(d, p)
    case None => []
    case Some(q) => FirstNewlineIsFirst(d, p); [d[p..q]] + Records(d, q + 1)
  }

  /** The bytes WriteLine produces for the payloads ls: each payload
      followed by one newline. */
  function Joined(ls: seq<seq<Byte>>): (r: seq<Byte>)
    ensures r == [] <==> ls == []
    ensures ls != [] ==> r[|r| - 1] == Newline
  {
    if ls == [] then [] else ls[0] + [Newline] + Joined(ls[1..])
  }

  /** The records ReadLines delivers from offset p when the callback is
      stop, with the offset the cursor is left at: records are taken in
      file order up to and including the first one stop accepts; when no
      newline remains the cursor is at end of data. */
  function ReadAll(d: seq<Byte>, p: nat, stop: seq<Byte> -> bool): (r: (seq<seq<Byte>>, nat))
    requires p <= |d|
    ensures p <= r.1 <= |d|
    decreases |d| - p
  {
    match FirstNewline(d, p)
    case None => ([], |d|)
    case Some(q) =>
      if stop(d[p..q]) then ([d[p..q]], q + 1)
      else
        var rest := ReadAll(d, q + 1, stop);
        ([d[p..q]] + rest.0, rest.1)
  }

  /** The bytes of d after writing x at offset p (write without O_APPEND):
      the prefix before p is kept, x replaces what was there, and the file
      grows when x reaches past its end. */
  function Overwrite(d: seq<Byte>, p: nat, x: seq<Byte>): (r: seq<Byte>)
    requires p <= |d|
    ensures |r| == if p + |x| < |d| then |d| else p + |x|
    ensures r[..p] == d[..p] && r[p..p + |x|] == x
    ensures forall k :: p + |x| <= k < |d| ==> r[k] == d[k]
  {
    d[..p] + x + (if p + |x| < |d| then d[p + |x|..] else [])
  }

  /** Writing at the end of the data appends. */
  lemma OverwriteAtEnd(d: seq<Byte>, x: seq<Byte>)
    ensures Overwrite(d, |d|, x) == d + x
  {
  }

  /** FirstNewline does not look past the newline it finds. */
  lemma {:induction false} FirstNewlineExtend(d: seq<Byte>, x: seq<Byte>, p: nat)
    requires p <= |d| && FirstNewline(d, p).Some?
    ensures FirstNewline(d + x, p) == FirstNewline(d, p)
    decreases |d| - p
  {
    if d[p] != Newline {
      FirstNewlineExtend(d, x, p + 1);
    }
  }

  /** FirstNewline is unaffected by bytes before the offset. */
  lemma {:induction false} FirstNewlineShift(a: seq<Byte>, b: seq<Byte>, p: nat)
    requires p <= |b|
    ensures FirstNewline(b, p).None? ==> FirstNewline(a + b, |a| + p).None?
    ensures FirstNewline(b, p).Some? ==> FirstNewline(a + b, |a| + p) == Some(|a| + FirstNewline(b, p).value)
    decreases |b| - p
  {
    if p < |b| && b[p] != Newline {
      FirstNewlineShift(a, b, p + 1);
    }
  }

  /** Records are unaffected by bytes before the offset. */
  lemma {:induction false} RecordsShift(a: seq<Byte>, b: seq<Byte>, p: nat)
    requires p <= |b|
    ensures Records(a + b, |a| + p) == Records(b, p)
    decreases |b| - p
  {
    FirstNewlineShift(a, b, p);
    if FirstNewline(b, p).None? {
      RecordsEnd(b, p);
      RecordsEnd(a + b, |a| + p);
    } else {
      var q := FirstNewline(b, p).value;
      RecordsShift(a, b, q + 1);
      RecordsFound(b, p, q);
      RecordsFound(a + b, |a| + p, |a| + q);
      assert (a + b)[|a| + p..|a| + q] == b[p..q];
    }
  }

  /** One record, then the records after its newline. */
  lemma RecordsFound(d: seq<Byte>, p: nat, q: nat)
    requires p <= |d| && FirstNewline(d, p) == Some(q)
    ensures Records(d, p) == [d[p..q]] + Records(d, q + 1)
  {
  }

  /** No newline left: no records. */
  lemma RecordsEnd(d: seq<Byte>, p: nat)
    requires p <= |d| && FirstNewline(d, p).None?
    ensures Records(d, p) == []
  {
  }

  /** A byte sequence that ends in a newline has one at or after every
      offset before its end. */
  lemma {:induction false} LastNewlineFound(d: seq<Byte>, p: nat)
    requires p < |d| && d[|d| - 1] == Newline
    ensures FirstNewline(d, p).Some?
    decreases |d| - p
  {
    if d[p] != Newline {
      LastNewlineFound(d, p + 1);
    }
  }

  /** When d[p..] ends in a newline, appending x adds x's records after
      those of d. */
  lemma {:induction false} RecordsAppend(d: seq<Byte>, x: seq<Byte>, p: nat)
    requires p <= |d|
    requires p == |d| || d[|d| - 1] == Newline
    ensures Records(d + x, p) == Records(d, p) + Records(x, 0)
    decreases |d| - p
  {
    if p == |d| {
      RecordsShift(d, x, 0);
    } else {
      LastNewlineFound(d, p);
      FirstNewlineExtend(d, x, p);
      var q := FirstNewline(d, p).value;
      assert (d + x)[p..q] == d[p..q];
      RecordsAppend(d, x, q + 1);
    }
  }

  /** Reading back what WriteLine wrote yields exactly the payloads, when no
      payload holds a newline. */
  lemma {:induction false} RecordsOfJoined(ls: seq<seq<Byte>>)
    requires forall i :: 0 <= i < |ls| ==> Newline !in ls[i]
    ensures Records(Joined(ls), 0) == ls
  {
    if ls != [] {
      var head := ls[0] + [Newline];
      var j := Joined(ls);
      assert j == head + Joined(ls[1..]);
      assert FirstNewline(j, 0) == Some(|ls[0]|) by {
        assert head[..|ls[0]|] == ls[0];
        FirstNewlineFound(head, 0, |ls[0]|);
        FirstNewlineExtend(head, Joined(ls[1..]), 0);
      }
      assert j[0..|ls[0]|] == ls[0];
      RecordsShift(head, Joined(ls[1..]), 0);
      RecordsOfJoined(ls[1..]);
    }
  }

  /** readLine's step over a window s = d[p..p+|s|] without a newline: the
      bytes accumulated from p0 still hold none. */
  lemma ScanWindowNoNewline(d: seq<Byte>, p0: nat, p: nat, s: seq<Byte>)
    requires p0 <= p && p + |s| <= |d| && s == d[p..p + |s|]
    requires Newline !in d[p0..p] && Newline !in s
    ensures d[p0..p] + s == d[p0..p + |s|] && Newline !in d[p0..p + |s|]
  {
    assert d[p0..p + |s|] == d[p0..p] + s;
  }

  /** readLine's step over a window s = d[p..p+|s|] whose first newline is
      at idx: the record from p0 ends at p + idx. */
  lemma ScanWindowNewline(d: seq<Byte>, p0: nat, p: nat, s: seq<Byte>, idx: nat)
    requires p0 <= p && p + |s| <= |d| && s == d[p..p + |s|]
    requires Newline !in d[p0..p]
    requires idx < |s| && s[idx] == Newline && Newline !in s[..idx]
    ensures d[p0..p] + s[..idx] == d[p0..p + idx]
    ensures FirstNewline(d, p0) == Some(p + idx)
  {
    assert d[p0..p + idx] == d[p0..p] + s[..idx];
    assert d[p + idx] == s[idx];
    FirstNewlineFound(d, p0, p + idx);
  }

  /** With no newline from p on there is nothing to find. */
  lemma {:induction false} NoNewlineFromHere(d: seq<Byte>, p: nat)
    requires p <= |d| && Newline !in d[p..]
    ensures FirstNewline(d, p) == None
    decreases |d| - p
  {
    if p < |d| {
      assert d[p] == d[p..][0];
      assert d[p + 1..] == d[p..][1..];
      NoNewlineFromHere(d, p + 1);
    }
  }

  /** FirstNewline finds exactly the least newline at or after p. */
  lemma FirstNewlineFound(d: seq<Byte>, p: nat, q: nat)
    requires p <= q < |d| && d[q] == Newline && Newline !in d[p..q]
    ensures FirstNewline(d, p) == Some(q)
  {
    FirstNewlineIsFirst(d, p);
    var r := FirstNewline(d, p);
    assert d[p..][q - p] == d[q];
  }

  /** Flushing WriteLine's output at the end of a file whose data ends in a
      newline (or is empty) adds exactly the written payloads to the
      records read from the start. */
  lemma FlushedLinesReadBack(d: seq<Byte>, ls: seq<seq<Byte>>)
    requires d == [] || d[|d| - 1] == Newline
    requires forall i :: 0 <= i < |ls| ==> Newline !in ls[i]
    ensures Records(Overwrite(d, |d|, Joined(ls)), 0) == Records(d, 0) + ls
  {
    OverwriteAtEnd(d, Joined(ls));
    RecordsAppend(d, Joined(ls), 0);
    RecordsOfJoined(ls);
  }

  /** ReadAll delivers a prefix of the records from p, in file order. */
  lemma {:induction false} ReadAllIsPrefixOfRecords(d: seq<Byte>, p: nat, stop: seq<Byte> -> bool)
    requires p <= |d|
    ensures |ReadAll(d, p, stop).0| <= |Records(d, p)|
    ensures ReadAll(d, p, stop).0 == Records(d, p)[..|ReadAll(d, p, stop).0|]
    decreases |d| - p
  {
    match FirstNewline(d, p)
    case None =>
    case Some(q) =>
      if !stop(d[p..q]) {
        ReadAllIsPrefixOfRecords(d, q + 1, stop);
      }
  }

  /** Every record ReadAll delivers before its last one was refused by
      stop. */
  lemma {:induction false} ReadAllRefusedBeforeLast(d: seq<Byte>, p: nat, stop: seq<Byte> -> bool)
    requires p <= |d|
    ensures forall i :: 0 <= i < |ReadAll(d, p, stop).0| - 1 ==> !stop(ReadAll(d, p, stop).0[i])
    decreases |d| - p
  {
    match FirstNewline(d, p)
    case None =>
    case Some(q) =>
      if !stop(d[p..q]) {
        ReadAllRefusedBeforeLast(d, q + 1, stop);
        var rest := ReadAll(d, q + 1, stop).0;
        var ls := ReadAll(d, p, stop).0;
        assert ls == [d[p..q]] + rest;
        forall i | 0 <= i < |ls| - 1
          ensures !stop(ls[i])
        {
          if i == 0 {
            assert ls[0] == d[p..q];
          } else {
            assert ls[i] == rest[i - 1];
          }
        }
      }
  }

  /** When stop accepted the last record ReadAll delivers, the cursor is
      just after that record: the bytes read are exactly the delivered
      records with their newlines. */
  lemma {:induction false} ReadAllAcceptedCursor(d: seq<Byte>, p: nat, stop: seq<Byte> -> bool)
    requires p <= |d|
    requires LastAccepted(ReadAll(d, p, stop).0, stop)
    ensures ReadAll(d, p, stop).1 == p + |Joined(ReadAll(d, p, stop).0)|
    ensures d[p..ReadAll(d, p, stop).1] == Joined(ReadAll(d, p, stop).0)
    decreases |d| - p
  {
    var q := FirstNewline(d, p).value;
    var line := d[p..q];
    var r := ReadAll(d, p, stop);
    if !stop(line) {
      var rest := ReadAll(d, q + 1, stop);
      assert r == ([line] + rest.0, rest.1);
      assert rest.0[|rest.0| - 1] == r.0[|r.0| - 1];
      ReadAllAcceptedCursor(d, q + 1, stop);
      JoinedCons(line, rest.0);
      SliceSplit(d, p, q, rest.1);
    } else {
      assert r == ([line], q + 1);
      JoinedCons(line, []);
      SliceSplit(d, p, q, q + 1);
    }
  }

  /** The bytes from p to e split at the newline q into the record, the
      newline and the rest. */
  lemma SliceSplit(d: seq<Byte>, p: nat, q: nat, e: nat)
    requires p <= q < e <= |d| && d[q] == Newline
    ensures d[p..e] == d[p..q] + [Newline] + d[q + 1..e]
  {
    assert d[p..e] == d[p..q] + d[q..q + 1] + d[q + 1..e];
  }

  /** ReadAll stopped because stop accepted its last record. */
  predicate LastAccepted(ls: seq<seq<Byte>>, stop: seq<Byte> -> bool)
  {
    |ls| > 0 && stop(ls[|ls| - 1])
  }

  /** When stop accepted no record, ReadAll delivers every record from p
      and leaves the cursor at end of data. */
  lemma {:induction false} ReadAllExhausted(d: seq<Byte>, p: nat, stop: seq<Byte> -> bool)
    requires p <= |d|
    requires !LastAccepted(ReadAll(d, p, stop).0, stop)
    ensures ReadAll(d, p, stop).1 == |d|
    ensures |ReadAll(d, p, stop).0| == |Records(d, p)|
    decreases |d| - p
  {
    match FirstNewline(d, p)
    case None =>
    case Some(q) =>
      var r := ReadAll(d, p, stop);
      var rest := ReadAll(d, q + 1, stop);
      assert r == ([d[p..q]] + rest.0, rest.1);
      assert !LastAccepted(rest.0, stop) by {
        if |rest.0| > 0 {
          assert rest.0[|rest.0| - 1] == r.0[|r.0| - 1];
        }
      }
      ReadAllExhausted(d, q + 1, stop);
      assert Records(d, p) == [d[p..q]] + Records(d, q + 1);
  }

  lemma JoinedCons(line: seq<Byte>, rest: seq<seq<Byte>>)
    ensures Joined([line] + rest) == line + [Newline] + Joined(rest)
  {
    assert ([line] + rest)[1..] == rest;
  }
}
