/** The line navigator's specification: what the callbacks that nextLine
    and prevLine hand to the chunk scanners compute, how the scanners walk
    the file in 32-byte windows, and where the cursor lands. */
module Navigation {
  import opened Types
  import opened Helpers
  import opened Lines

  /** seekerBufSize: the scan window. */
  const SeekerBufSize: nat := 32

  /** A scan callback together with the variables it captures: nextLine's
      closure keeps nlf (a newline was seen) and offset; prevLine's keeps
      nlc (newlines counted) and offset. An offset of -1 means "not found". */
  datatype Visitor =
    | NextLineFn(nlf: bool, offset: int)
    | PrevLineFn(nlc: nat, offset: int)

  /** nextLine's callback on window w, resumed at index i: a newline sets
      nlf; the first other byte after it records offset |w| - i and stops
      the scan. */
  function NextLineScan(nlf: bool, offset: int, w: seq<Byte>, i: nat): (r: (Visitor, bool))
    requires i <= |w|
    decreases |w| - i
  {
    if i == |w| then (NextLineFn(nlf, offset), false)
    else if w[i] == Newline then NextLineScan(true, offset, w, i + 1)
    else if nlf then (NextLineFn(nlf, |w| - i), true)
    else NextLineScan(nlf, offset, w, i + 1)
  }

  /** prevLine's callback on the reversed window s, resumed at index i:
      each newline increments nlc; the second one records its index as
      offset and stops the scan. */
  function PrevLineScan(nlc: nat, offset: int, s: seq<Byte>, i: nat): (r: (Visitor, bool))
    requires i <= |s|
    decreases |s| - i
  {
    if i == |s| then (PrevLineFn(nlc, offset), false)
    else if s[i] != Newline then PrevLineScan(nlc, offset, s, i + 1)
    else if nlc + 1 == 2 then (PrevLineFn(nlc + 1, i), true)
    else PrevLineScan(nlc + 1, offset, s, i + 1)
  }

  /** One call of the callback on the window w (the first n bytes of the
      seek buffer): the new captured state and whether the scan ends. */
  function VisitWindow(v: Visitor, w: seq<Byte>): (r: (Visitor, bool))
  {
    match v
    case NextLineFn(nlf, offset) => NextLineScan(nlf, offset, w, 0)
    case PrevLineFn(nlc, offset) => PrevLineScan(nlc, offset, Reversed(w), 0)
  }

  /** nextLine's callback stops only on a byte that is not a newline,
      after a newline, with an offset leading back to that byte; when it
      does not stop, the offset is unchanged and nlf records whether a
      newline has been seen. */
  lemma {:induction false} NextLineScanOutcome(nlf: bool, offset: int, w: seq<Byte>, i: nat)
    requires i <= |w|
    ensures var r := NextLineScan(nlf, offset, w, i);
      && r.0.NextLineFn?
      && (r.1 ==> r.0.nlf && 0 < r.0.offset <= |w| - i && w[|w| - r.0.offset] != Newline)
      && (!r.1 ==> r.0.offset == offset && (r.0.nlf <==> nlf || Newline in w[i..]))
    decreases |w| - i
  {
    if i < |w| {
      if w[i] == Newline {
        NextLineScanOutcome(true, offset, w, i + 1);
      } else if !nlf {
        NextLineScanOutcome(nlf, offset, w, i + 1);
        assert w[i..] == [w[i]] + w[i + 1..];
      }
    }
  }

  /** prevLine's callback stops exactly on the newline that brings its
      count to two, recording that newline's index; otherwise the count
      only grows and the offset is unchanged. */
  lemma {:induction false} PrevLineScanOutcome(nlc: nat, offset: int, s: seq<Byte>, i: nat)
    requires i <= |s|
    ensures var r := PrevLineScan(nlc, offset, s, i);
      && r.0.PrevLineFn? && nlc <= r.0.nlc
      && (r.1 ==> r.0.nlc == 2 && i <= r.0.offset < |s| && s[r.0.offset] == Newline)
      && (!r.1 ==> r.0.offset == offset)
    decreases |s| - i
  {
    if i < |s| {
      if s[i] != Newline {
        PrevLineScanOutcome(nlc, offset, s, i + 1);
      } else if nlc + 1 != 2 {
        PrevLineScanOutcome(nlc + 1, offset, s, i + 1);
      }
    }
  }

  /** One call of either callback keeps its kind and leaves the offset
      alone unless it stops; nextLine's stops with an offset leading back
      to a byte that is not a newline, prevLine's after its second newline,
      with the index of that newline in the reversed window. */
  lemma VisitWindowOutcome(v: Visitor, w: seq<Byte>)
    ensures var r := VisitWindow(v, w);
      && (r.0.NextLineFn? <==> v.NextLineFn?)
      && (!r.1 ==> r.0.offset == v.offset)
      && (r.1 && v.NextLineFn? ==> 0 < r.0.offset <= |w| && w[|w| - r.0.offset] != Newline)
      && (r.1 && v.PrevLineFn? ==> r.0.nlc == 2 && 0 <= r.0.offset < |w| && Reversed(w)[r.0.offset] == Newline)
  {
    match v
    case NextLineFn(nlf, offset) => NextLineScanOutcome(nlf, offset, w, 0);
    case PrevLineFn(nlc, offset) => PrevLineScanOutcome(nlc, offset, Reversed(w), 0);
  }

  /** readChunks from offset p: read windows of up to 32 bytes until the
      callback stops the scan or a read at end of data returns nothing.
      Gives the callback's final state and the cursor. */
  function Forward(v: Visitor, d: seq<Byte>, p: nat): (r: (Visitor, nat))
    requires p <= |d|
    ensures p <= r.1 <= |d|
    decreases |d| - p
  {
    if p == |d| then (v, p)
    else
      var n := Min(SeekerBufSize, |d| - p);
      var step := VisitWindow(v, d[p..p + n]);
      if step.1 then (step.0, p + n) else Forward(step.0, d, p + n)
  }

  /** Forward at end of data: the read returns nothing and the scan ends
      where it is. */
  lemma ForwardAtEnd(v: Visitor, d: seq<Byte>)
    ensures Forward(v, d, |d|) == (v, |d|)
  {
  }

  /** Forward over a window the callback did not stop on: it goes on
      from the window's end. */
  lemma ForwardContinues(v: Visitor, d: seq<Byte>, p: nat, n: nat)
    requires p < |d| && n == Min(SeekerBufSize, |d| - p)
    requires !VisitWindow(v, d[p..p + n]).1
    ensures Forward(v, d, p) == Forward(VisitWindow(v, d[p..p + n]).0, d, p + n)
  {
  }

  /** Forward over a window the callback stopped on: it ends with the
      cursor at the window's end. */
  lemma ForwardEnds(v: Visitor, d: seq<Byte>, p: nat, n: nat)
    requires p < |d| && n == Min(SeekerBufSize, |d| - p)
    requires VisitWindow(v, d[p..p + n]).1
    ensures Forward(v, d, p) == (VisitWindow(v, d[p..p + n]).0, p + n)
  {
  }

  /** readReverseChunks from offset curr: seek back min(curr, 32), read
      that window, call back, and unless this was the window at the start
      of the file seek back by min(start, 32) from the window's end (the
      new absolute offset is what gets passed, not the window size). Gives
      the callback's final state and the cursor, which is the end of the
      last window read. */
  function Backward(v: Visitor, d: seq<Byte>, curr: nat): (r: (Visitor, nat))
    requires curr <= |d|
    ensures r.1 <= curr
    decreases curr
  {
    var step := VisitWindow(v, d[WindowStart(curr)..curr]);
    if step.1 || curr <= SeekerBufSize then (step.0, curr)
    else Backward(step.0, d, Rewound(curr))
  }

  /** Backward after a window the callback did not stop on, when the
      window did not start at offset 0: it goes on from the rewound
      cursor. */
  lemma BackwardContinues(v: Visitor, d: seq<Byte>, curr: nat)
    requires curr <= |d| && SeekerBufSize < curr
    requires !VisitWindow(v, d[WindowStart(curr)..curr]).1
    ensures Backward(v, d, curr) == Backward(VisitWindow(v, d[WindowStart(curr)..curr]).0, d, Rewound(curr))
  {
  }

  /** Backward after a window the callback stopped on, or that started at
      offset 0: it ends with the cursor at the window's end. */
  lemma BackwardEnds(v: Visitor, d: seq<Byte>, curr: nat)
    requires curr <= |d|
    requires VisitWindow(v, d[WindowStart(curr)..curr]).1 || curr <= SeekerBufSize
    ensures Backward(v, d, curr) == (VisitWindow(v, d[WindowStart(curr)..curr]).0, curr)
  {
  }

  /** Where the window below cursor curr starts. */
  function WindowStart(curr: nat): (s: nat)
    ensures s <= curr
  {
    curr - Min(curr, SeekerBufSize)
  }

  /** Where readReverseChunks puts the cursor after the window below curr:
      back from curr by min(start, 32), start being the window's start. */
  function Rewound(curr: nat): (c: nat)
    ensures curr > SeekerBufSize ==> c < curr
  {
    curr - Min(WindowStart(curr), SeekerBufSize)
  }

  // ---------------------------------------------------------------------
  // nextLine

  /** The byte-by-byte view of nextLine's scan from offset k, where nlf
      says whether a newline has been seen: the offset of the first
      non-newline byte met after a newline. */
  function ScanTransition(d: seq<Byte>, k: nat, nlf: bool): (r: Option<nat>)
    requires k <= |d|
    ensures r.Some? ==> k <= r.value < |d| && (nlf || k < r.value)
    decreases |d| - k
  {
    if k == |d| then None
    else if d[k] == Newline then ScanTransition(d, k + 1, true)
    else if nlf then Some(k)
    else ScanTransition(d, k + 1, false)
  }

  /** Where nextLine puts a cursor that is at p, if it succeeds. */
  function NextLineTarget(d: seq<Byte>, p: nat): (r: Option<nat>)
    requires p <= |d|
    ensures r.Some? ==> p < r.value < |d|
  {
    ScanTransition(d, p, false)
  }

  /** j starts a record that directly follows a newline at or after p. */
  ghost predicate LineStart(d: seq<Byte>, p: nat, j: int)
  {
    p < j < |d| && d[j - 1] == Newline && d[j] != Newline
  }

  lemma {:induction false} ScanTransitionIsFirstLineStart(d: seq<Byte>, p: nat, k: nat, nlf: bool)
    requires p <= k <= |d|
    requires nlf == (k > p && d[k - 1] == Newline)
    ensures var r := ScanTransition(d, k, nlf);
      && (r.Some? ==> k <= r.value && LineStart(d, p, r.value)
                      && forall j :: k <= j < r.value ==> !LineStart(d, p, j))
      && (r.None? ==> forall j :: k <= j ==> !LineStart(d, p, j))
    decreases |d| - k
  {
    if k < |d| {
      if d[k] == Newline {
        ScanTransitionIsFirstLineStart(d, p, k + 1, true);
      } else if !nlf {
        ScanTransitionIsFirstLineStart(d, p, k + 1, false);
      }
    }
  }

  /** nextLine's target is the first byte of the first record that follows
      a newline at or after the cursor: runs of newlines (empty records)
      are skipped, and there is no target when no newline is followed by
      another byte. */
  lemma NextLineTargetIsFirstLineStart(d: seq<Byte>, p: nat)
    requires p <= |d|
    ensures var r := NextLineTarget(d, p);
      && (r.Some? ==> LineStart(d, p, r.value) && forall j :: p < j < r.value ==> !LineStart(d, p, j))
      && (r.None? ==> forall j :: !LineStart(d, p, j))
  {
    ScanTransitionIsFirstLineStart(d, p, p, false);
  }

  /** One window of nextLine's callback agrees with the byte-by-byte scan:
      it stops exactly when the transition falls inside the window, with an
      offset measured back from the window's end. */
  lemma {:induction false} NextLineScanWindow(d: seq<Byte>, a: nat, b: nat, i: nat, nlf: bool, offset: int)
    requires a + i <= b <= |d|
    ensures var r := NextLineScan(nlf, offset, d[a..b], i);
      var t := ScanTransition(d, a + i, nlf);
      && r.0.NextLineFn?
      && (if t.Some? && t.value < b
          then r.1 && r.0.offset == b - t.value
          else !r.1 && r.0.offset == offset && t == ScanTransition(d, b, r.0.nlf))
    decreases b - a - i
  {
    if a + i < b {
      assert d[a..b][i] == d[a + i];
      if d[a + i] == Newline {
        NextLineScanWindow(d, a, b, i + 1, true, offset);
      } else if !nlf {
        NextLineScanWindow(d, a, b, i + 1, false, offset);
      }
    }
  }

  /** readChunks with nextLine's callback stops at the end of the window
      holding the transition, and the recorded offset leads back to it; with
      no transition it reads to end of data and the offset stays -1. */
  lemma {:induction false} ForwardNextLine(d: seq<Byte>, p: nat, nlf: bool)
    requires p <= |d|
    ensures var r := Forward(NextLineFn(nlf, -1), d, p);
      var t := ScanTransition(d, p, nlf);
      && r.0.NextLineFn?
      && (t.Some? ==> 1 <= r.0.offset && r.1 - r.0.offset == t.value)
      && (t.None? ==> r.0.offset == -1 && r.1 == |d|)
    decreases |d| - p
  {
    if p < |d| {
      var n := Min(SeekerBufSize, |d| - p);
      NextLineScanWindow(d, p, p + n, 0, nlf, -1);
      var step := VisitWindow(NextLineFn(nlf, -1), d[p..p + n]);
      if !step.1 {
        ForwardNextLine(d, p + n, step.0.nlf);
      }
    }
  }

  // ---------------------------------------------------------------------
  // prevLine

  /** The offsets e-1, e-2, ..., s: one window read backwards. */
  function Down(s: nat, e: nat): (r: seq<nat>)
    ensures |r| == if e <= s then 0 else e - s
    ensures forall k :: 0 <= k < |r| ==> r[k] == e - 1 - k
    decreases e
  {
    if e <= s then [] else [e - 1] + Down(s, e - 1)
  }

  /** The offsets prevLine's backward scan inspects, in the order it
      inspects them, starting from cursor curr. When 32 < curr and curr is
      not a multiple of 32, the last window is [0, 32) and it overlaps the
      one before it, so some offsets appear twice. */
  function BackOrder(curr: nat): (r: seq<nat>)
    ensures forall k :: 0 <= k < |r| ==> r[k] < curr
    decreases curr
  {
    Down(WindowStart(curr), curr) + (if curr <= SeekerBufSize then [] else BackOrder(Rewound(curr)))
  }

  /** The offsets in order that hold a newline (an offset past the end of
      d holds none). */
  function NewlinesIn(d: seq<Byte>, order: seq<nat>): (r: seq<nat>)
    ensures |r| <= |order|
  {
    if order == [] then []
    else (if order[0] < |d| && d[order[0]] == Newline then [order[0]] else []) + NewlinesIn(d, order[1..])
  }

  /** The newline offsets in d[s..e), from the top down: what a scan of
      that range read backwards meets. */
  function NewlinesBelow(d: seq<Byte>, s: nat, e: nat): seq<nat>
    requires e <= |d|
    decreases e
  {
    if e <= s then [] else (if d[e - 1] == Newline then [e - 1] else []) + NewlinesBelow(d, s, e - 1)
  }

  /** Where prevLine puts a cursor that is at p: just after the second
      newline its scan meets, or the start of the file when it meets fewer
      than two. */
  function PrevLineTarget(d: seq<Byte>, p: nat): (t: nat)
    requires p <= |d|
    ensures t <= p
  {
    var nls := NewlinesIn(d, BackOrder(p));
    NewlinesInBelow(d, BackOrder(p), p);
    if |nls| >= 2 then nls[1] + 1 else 0
  }

  /** NewlinesIn picks its offsets from order. */
  lemma {:induction false} NewlinesInBelow(d: seq<Byte>, order: seq<nat>, b: nat)
    requires forall k :: 0 <= k < |order| ==> order[k] < b
    ensures forall k :: 0 <= k < |NewlinesIn(d, order)| ==> NewlinesIn(d, order)[k] < b
  {
    if order != [] {
      NewlinesInBelow(d, order[1..], b);
    }
  }

  lemma {:induction false} NewlinesInAppend(d: seq<Byte>, a: seq<nat>, b: seq<nat>)
    ensures NewlinesIn(d, a + b) == NewlinesIn(d, a) + NewlinesIn(d, b)
  {
    if a == [] {
      assert a + b == b;
    } else {
      assert (a + b)[0] == a[0];
      assert (a + b)[1..] == a[1..] + b;
      NewlinesInAppend(d, a[1..], b);
    }
  }

  /** What prevLine's callback achieves, with nlc newlines counted before,
      over a stretch that ends at e and meets the newlines nls: it stops
      at the newline that makes two, its offset leading back to just after
      that newline; otherwise it goes on with the count raised. */
  predicate PrevLineOutcome(r: (Visitor, bool), nls: seq<nat>, nlc: nat, e: nat, offset: int)
    requires nlc <= 1
  {
    if nlc + |nls| >= 2
    then r.1 && r.0.PrevLineFn? && 0 <= r.0.offset && e - r.0.offset == nls[1 - nlc] + 1
    else !r.1 && r.0 == PrevLineFn(nlc + |nls|, offset)
  }

  /** One window of prevLine's callback: it stops at the newline that
      brings the count to two, and the recorded offset leads back to just
      after it. w is the window d[s..e) reversed; having inspected i of its
      bytes, the rest of the scan meets the newlines below e - i. */
  lemma {:induction false} PrevLineScanWindow(d: seq<Byte>, w: seq<Byte>, s: nat, e: nat, i: nat, nlc: nat, offset: int)
    requires s + i <= e <= |d| && nlc <= 1
    requires |w| == e - s && forall j :: 0 <= j < |w| ==> w[j] == d[e - 1 - j]
    ensures PrevLineOutcome(PrevLineScan(nlc, offset, w, i), NewlinesBelow(d, s, e - i), nlc, e, offset)
    decreases e - s - i
  {
    if s + i < e {
      if w[i] != Newline {
        PrevLineScanWindow(d, w, s, e, i + 1, nlc, offset);
        PrevLineSkip(d, w, s, e, i, nlc, offset);
      } else if nlc == 0 {
        PrevLineScanWindow(d, w, s, e, i + 1, 1, offset);
        PrevLineFirstNewline(d, w, s, e, i, offset);
      } else {
        PrevLineSecondNewline(d, w, s, e, i, offset);
      }
    } else {
      assert NewlinesBelow(d, s, e - i) == [];
    }
  }

  /** A byte that is not a newline leaves prevLine's callback as it was. */
  lemma PrevLineSkip(d: seq<Byte>, w: seq<Byte>, s: nat, e: nat, i: nat, nlc: nat, offset: int)
    requires s + i < e <= |d| && nlc <= 1
    requires |w| == e - s && w[i] == d[e - 1 - i] && w[i] != Newline
    requires PrevLineOutcome(PrevLineScan(nlc, offset, w, i + 1), NewlinesBelow(d, s, e - (i + 1)), nlc, e, offset)
    ensures PrevLineOutcome(PrevLineScan(nlc, offset, w, i), NewlinesBelow(d, s, e - i), nlc, e, offset)
  {
    assert NewlinesBelow(d, s, e - i) == NewlinesBelow(d, s, e - (i + 1));
    assert PrevLineScan(nlc, offset, w, i) == PrevLineScan(nlc, offset, w, i + 1);
  }

  /** The first newline met raises the count to one and the scan goes on. */
  lemma PrevLineFirstNewline(d: seq<Byte>, w: seq<Byte>, s: nat, e: nat, i: nat, offset: int)
    requires s + i < e <= |d|
    requires |w| == e - s && w[i] == d[e - 1 - i] && w[i] == Newline
    requires PrevLineOutcome(PrevLineScan(1, offset, w, i + 1), NewlinesBelow(d, s, e - (i + 1)), 1, e, offset)
    ensures PrevLineOutcome(PrevLineScan(0, offset, w, i), NewlinesBelow(d, s, e - i), 0, e, offset)
  {
    assert NewlinesBelow(d, s, e - i) == [e - 1 - i] + NewlinesBelow(d, s, e - (i + 1));
    assert PrevLineScan(0, offset, w, i) == PrevLineScan(1, offset, w, i + 1);
  }

  /** The second newline met stops the scan, recording its index in the
      reversed window. */
  lemma PrevLineSecondNewline(d: seq<Byte>, w: seq<Byte>, s: nat, e: nat, i: nat, offset: int)
    requires s + i < e <= |d|
    requires |w| == e - s && w[i] == d[e - 1 - i] && w[i] == Newline
    ensures PrevLineOutcome(PrevLineScan(1, offset, w, i), NewlinesBelow(d, s, e - i), 1, e, offset)
  {
    assert NewlinesBelow(d, s, e - i)[0] == e - 1 - i;
    assert PrevLineScan(1, offset, w, i) == (PrevLineFn(2, i), true);
  }

  /** What readReverseChunks with prevLine's callback achieves, with nlc
      newlines counted before, when the scan meets the newlines nls: with
      two or more it stops, and the callback's offset, taken back from the
      cursor r.1, leads to just after the newline that makes two; otherwise
      the offset stays -1. */
  predicate BackwardOutcome(r: (Visitor, nat), nls: seq<nat>, nlc: nat)
    requires nlc <= 1
  {
    if nlc + |nls| >= 2
    then 0 <= r.0.offset && r.1 - r.0.offset == nls[1 - nlc] + 1
    else r.0.offset == -1
  }

  /** readReverseChunks with prevLine's callback: with nlc newlines already
      counted, it stops right after the newline that makes two, in the
      inspection order BackOrder, and the offset leads back to just after
      it; with fewer than two the offset stays -1. */
  lemma {:induction false} BackwardPrevLine(d: seq<Byte>, curr: nat, nlc: nat)
    requires curr <= |d| && nlc <= 1
    ensures BackwardOutcome(Backward(PrevLineFn(nlc, -1), d, curr), NewlinesIn(d, BackOrder(curr)), nlc)
    decreases curr
  {
    var s := WindowStart(curr);
    var w := d[s..curr];
    ReversedWindow(d, s, curr);
    PrevLineScanWindow(d, Reversed(w), s, curr, 0, nlc, -1);
    var step := VisitWindow(PrevLineFn(nlc, -1), w);
    assert step == PrevLineScan(nlc, -1, Reversed(w), 0);
    var wn := NewlinesBelow(d, s, curr);
    assert PrevLineOutcome(step, wn, nlc, curr, -1);
    if curr > SeekerBufSize && !step.1 {
      var nlc' := nlc + |wn|;
      assert nlc' <= 1 && step == (PrevLineFn(nlc', -1), false);
      BackwardPrevLine(d, Rewound(curr), nlc');
      BackwardGoesOn(d, curr, nlc, nlc');
    } else {
      BackwardStops(d, curr, nlc);
    }
  }

  /** The window d[s..e) read backwards. */
  lemma ReversedWindow(d: seq<Byte>, s: nat, e: nat)
    requires s <= e <= |d|
    ensures |Reversed(d[s..e])| == e - s
    ensures forall j :: 0 <= j < e - s ==> Reversed(d[s..e])[j] == d[e - 1 - j]
  {
    forall j | 0 <= j < e - s
      ensures Reversed(d[s..e])[j] == d[e - 1 - j]
    {
      ReversedAt(d[s..e], j);
    }
  }

  /** The scan ends in the window below curr: the callback stopped there,
      or it is the window that starts at offset 0. */
  lemma BackwardStops(d: seq<Byte>, curr: nat, nlc: nat)
    requires curr <= |d| && nlc <= 1
    requires PrevLineOutcome(VisitWindow(PrevLineFn(nlc, -1), d[WindowStart(curr)..curr]),
                             NewlinesBelow(d, WindowStart(curr), curr), nlc, curr, -1)
    requires VisitWindow(PrevLineFn(nlc, -1), d[WindowStart(curr)..curr]).1 || curr <= SeekerBufSize
    ensures BackwardOutcome(Backward(PrevLineFn(nlc, -1), d, curr), NewlinesIn(d, BackOrder(curr)), nlc)
  {
    var s := WindowStart(curr);
    var step := VisitWindow(PrevLineFn(nlc, -1), d[s..curr]);
    var wn := NewlinesBelow(d, s, curr);
    NewlinesDownBelow(d, s, curr);
    assert Backward(PrevLineFn(nlc, -1), d, curr) == (step.0, curr);
    var rest := if curr <= SeekerBufSize then [] else BackOrder(Rewound(curr));
    assert BackOrder(curr) == Down(s, curr) + rest;
    NewlinesInAppend(d, Down(s, curr), rest);
    var nls := NewlinesIn(d, BackOrder(curr));
    assert nls == wn + NewlinesIn(d, rest);
    if step.1 {
      assert nls[1 - nlc] == wn[1 - nlc];
    } else {
      assert rest == [];
      assert nls == wn;
    }
  }

  /** The callback did not stop in the window below curr, having counted
      nlc' newlines by its end, and the scan goes on from the rewound
      cursor. */
  lemma BackwardGoesOn(d: seq<Byte>, curr: nat, nlc: nat, nlc': nat)
    requires SeekerBufSize < curr <= |d| && nlc <= 1 && nlc' <= 1
    requires nlc' == nlc + |NewlinesBelow(d, WindowStart(curr), curr)|
    requires VisitWindow(PrevLineFn(nlc, -1), d[WindowStart(curr)..curr]) == (PrevLineFn(nlc', -1), false)
    requires BackwardOutcome(Backward(PrevLineFn(nlc', -1), d, Rewound(curr)), NewlinesIn(d, BackOrder(Rewound(curr))), nlc')
    ensures BackwardOutcome(Backward(PrevLineFn(nlc, -1), d, curr), NewlinesIn(d, BackOrder(curr)), nlc)
  {
    var s := WindowStart(curr);
    var next := Rewound(curr);
    var wn := NewlinesBelow(d, s, curr);
    NewlinesDownBelow(d, s, curr);
    var rn := NewlinesIn(d, BackOrder(next));
    assert Backward(PrevLineFn(nlc, -1), d, curr) == Backward(PrevLineFn(nlc', -1), d, next);
    assert BackOrder(curr) == Down(s, curr) + BackOrder(next);
    NewlinesInAppend(d, Down(s, curr), BackOrder(next));
    var nls := NewlinesIn(d, BackOrder(curr));
    assert nls == wn + rn;
    if nlc + |nls| >= 2 {
      assert nls[1 - nlc] == rn[1 - nlc'];
    }
  }

  // ---------------------------------------------------------------------
  // What prevLine means where its windows' overlap does not matter

  /** Where prevLine would put the cursor if its scan met every newline
      below p once, from the top down: just after the second of them, or
      the start of the file when fewer than two precede p. */
  function SecondNewlineTarget(d: seq<Byte>, p: nat): nat
    requires p <= |d|
  {
    var nls := NewlinesBelow(d, 0, p);
    if |nls| >= 2 then nls[1] + 1 else 0
  }

  lemma {:induction false} DownSplit(s: nat, m: nat, e: nat)
    requires s <= m <= e
    ensures Down(m, e) + Down(s, m) == Down(s, e)
  {
  }

  /** When the start offset is at most 32 or a multiple of 32 the windows
      tile [0, curr) without overlap, and the scan inspects every offset
      below curr once, from the top down. */
  lemma {:induction false} BackOrderDisjoint(curr: nat)
    requires curr <= SeekerBufSize || curr % SeekerBufSize == 0
    ensures BackOrder(curr) == Down(0, curr)
    decreases curr
  {
    if curr > SeekerBufSize {
      var s := curr - SeekerBufSize;
      RewindMultiple(curr);
      BackOrderDisjoint(s);
      DownSplit(0, s, curr);
      assert BackOrder(curr) == Down(s, curr) + BackOrder(s);
    }
  }

  /** From a multiple of 32 above 32, the window is a full one and the
      rewind lands on its start, again a multiple of 32. */
  lemma RewindMultiple(curr: nat)
    requires SeekerBufSize < curr && curr % SeekerBufSize == 0
    ensures 2 * SeekerBufSize <= curr && (curr - SeekerBufSize) % SeekerBufSize == 0
    ensures WindowStart(curr) == curr - SeekerBufSize && Rewound(curr) == curr - SeekerBufSize
  {
  }

  /** Otherwise, above 32, the scan inspects [curr % 32, curr) from the top
      down and then the whole of [0, 32) again: the overlap is
      [curr % 32, 32). */
  lemma {:induction false} BackOrderTail(curr: nat)
    requires SeekerBufSize < curr && curr % SeekerBufSize != 0
    ensures BackOrder(curr) == Down(curr % SeekerBufSize, curr) + Down(0, SeekerBufSize)
    decreases curr
  {
    var s := curr - SeekerBufSize;
    RewindPartial(curr);
    BackOrderStep(curr);
    var r := curr % SeekerBufSize;
    if curr < 2 * SeekerBufSize {
      BackOrderDisjoint(SeekerBufSize);
      assert r == s;
    } else {
      var top, mid, last := Down(s, curr), Down(r, s), Down(0, SeekerBufSize);
      BackOrderTail(s);
      DownSplit(r, s, curr);
      assert BackOrder(curr) == top + (mid + last);
      assert top + (mid + last) == (top + mid) + last;
    }
  }

  /** Above 32 the scan reads one window and goes on from the rewound
      cursor. */
  lemma BackOrderStep(curr: nat)
    requires SeekerBufSize < curr
    ensures BackOrder(curr) == Down(WindowStart(curr), curr) + BackOrder(Rewound(curr))
  {
  }

  /** From above 32 and off a multiple of 32, the window is a full one;
      the rewind lands on 32 from below 64 and on the window's start from
      above, which keeps the remainder. */
  lemma RewindPartial(curr: nat)
    requires SeekerBufSize < curr && curr % SeekerBufSize != 0
    ensures WindowStart(curr) == curr - SeekerBufSize
    ensures curr < 2 * SeekerBufSize ==> Rewound(curr) == SeekerBufSize && curr % SeekerBufSize == curr - SeekerBufSize
    ensures curr >= 2 * SeekerBufSize ==>
      && Rewound(curr) == curr - SeekerBufSize
      && SeekerBufSize < curr - SeekerBufSize
      && (curr - SeekerBufSize) % SeekerBufSize == curr % SeekerBufSize
  {
  }

  /** Scanning the offsets of d[s..e) from the top meets the newlines
      below e. */
  lemma {:induction false} NewlinesDownBelow(d: seq<Byte>, s: nat, e: nat)
    requires e <= |d|
    ensures NewlinesIn(d, Down(s, e)) == NewlinesBelow(d, s, e)
    decreases e
  {
    if s < e {
      NewlinesDownStep(d, s, e);
      NewlinesDownBelow(d, s, e - 1);
      assert NewlinesBelow(d, s, e) == (if d[e - 1] == Newline then [e - 1] else []) + NewlinesBelow(d, s, e - 1);
    } else {
      assert Down(s, e) == [] && NewlinesBelow(d, s, e) == [];
    }
  }

  /** The newlines of d[s..e) are those of d[m..e) followed by those of
      d[s..m). */
  lemma {:induction false} NewlinesBelowSplit(d: seq<Byte>, s: nat, m: nat, e: nat)
    requires s <= m <= e <= |d|
    ensures NewlinesBelow(d, s, e) == NewlinesBelow(d, m, e) + NewlinesBelow(d, s, m)
    decreases e
  {
    if m < e {
      NewlinesBelowSplit(d, s, m, e - 1);
      NewlinesBelowTop(d, s, e);
      NewlinesBelowTop(d, m, e);
      var above, below := NewlinesBelow(d, m, e - 1), NewlinesBelow(d, s, m);
      if d[e - 1] == Newline {
        assert [e - 1] + (above + below) == ([e - 1] + above) + below;
      }
    } else {
      assert NewlinesBelow(d, m, e) == [];
    }
  }

  /** A range with a newline at its top meets it first. */
  lemma NewlinesBelowTop(d: seq<Byte>, s: nat, e: nat)
    requires s < e <= |d|
    ensures d[e - 1] == Newline ==> NewlinesBelow(d, s, e) == [e - 1] + NewlinesBelow(d, s, e - 1)
    ensures d[e - 1] != Newline ==> NewlinesBelow(d, s, e) == NewlinesBelow(d, s, e - 1)
  {
  }

  /** A range meets no newline exactly when it holds none. */
  lemma {:induction false} NewlinesBelowNone(d: seq<Byte>, s: nat, e: nat)
    requires e <= |d|
    ensures NewlinesBelow(d, s, e) == [] <==> forall k :: s <= k < e ==> d[k] != Newline
    decreases e
  {
    if s < e {
      NewlinesBelowNone(d, s, e - 1);
      NewlinesBelowTop(d, s, e);
    }
  }

  /** The m-th newline a backward scan of d[s..e) meets (counting from 0)
      lies in the range and is a newline. */
  lemma {:induction false} NewlinesBelowAt(d: seq<Byte>, s: nat, e: nat, m: nat)
    requires e <= |d| && m < |NewlinesBelow(d, s, e)|
    ensures s <= NewlinesBelow(d, s, e)[m] < e
    ensures d[NewlinesBelow(d, s, e)[m]] == Newline
    decreases e
  {
    var rest := NewlinesBelow(d, s, e - 1);
    if d[e - 1] == Newline {
      if m > 0 {
        NewlinesBelowAt(d, s, e - 1, m - 1);
      }
    } else {
      NewlinesBelowAt(d, s, e - 1, m);
    }
  }

  /** The m-th newline q a backward scan of d[s..e) meets (counting from
      0) has exactly m newlines above it. */
  lemma {:induction false} NewlinesBelowAbove(d: seq<Byte>, s: nat, e: nat, m: nat, q: nat)
    requires e <= |d| && m < |NewlinesBelow(d, s, e)| && q == NewlinesBelow(d, s, e)[m]
    ensures q < e && |NewlinesBelow(d, q + 1, e)| == m
    decreases e
  {
    var all, rest := NewlinesBelow(d, s, e), NewlinesBelow(d, s, e - 1);
    NewlinesBelowTop(d, s, e);
    if d[e - 1] == Newline && m == 0 {
      assert q == e - 1;
      assert NewlinesBelow(d, e, e) == [];
    } else {
      var m' := if d[e - 1] == Newline then m - 1 else m;
      assert m' < |rest| && q == rest[m'];
      NewlinesBelowAbove(d, s, e - 1, m', q);
      NewlinesBelowTop(d, q + 1, e);
    }
  }

  /** The overlap of the windows cannot change prevLine's target when the
      cursor is at most 32, a multiple of 32, or just after a newline: in
      the last case either the top part of the scan already meets two
      newlines, or the overlapped offsets hold none and the last window
      meets exactly the newlines the top part missed. */
  lemma PrevLineTargetNoOverlap(d: seq<Byte>, p: nat)
    requires p <= |d|
    requires p <= SeekerBufSize || p % SeekerBufSize == 0 || (0 < p && d[p - 1] == Newline)
    ensures PrevLineTarget(d, p) == SecondNewlineTarget(d, p)
  {
    if p <= SeekerBufSize || p % SeekerBufSize == 0 {
      BackOrderDisjoint(p);
      NewlinesDownBelow(d, 0, p);
    } else {
      var r := p % SeekerBufSize;
      BackOrderTail(p);
      NewlinesInAppend(d, Down(r, p), Down(0, SeekerBufSize));
      NewlinesDownBelow(d, r, p);
      NewlinesDownBelow(d, 0, SeekerBufSize);
      NewlinesBelowSplit(d, 0, r, p);
      NewlinesBelowTop(d, r, p);
      var top := NewlinesBelow(d, r, p - 1);
      if top == [] {
        NewlinesBelowSplit(d, r, SeekerBufSize, p - 1);
        NewlinesBelowSplit(d, 0, r, SeekerBufSize);
        assert NewlinesBelow(d, r, SeekerBufSize) == [];
      }
    }
  }

  /** Where the overlap does not matter, prevLine lands just after the
      second newline below the cursor, so exactly one newline lies between
      the target and the cursor; when fewer than two newlines precede the
      cursor it lands at the start of the file. */
  lemma PrevLineAfterSecondNewline(d: seq<Byte>, p: nat)
    requires p <= |d|
    requires p <= SeekerBufSize || p % SeekerBufSize == 0 || (0 < p && d[p - 1] == Newline)
    ensures var t := PrevLineTarget(d, p);
      && (|NewlinesBelow(d, 0, p)| >= 2 ==> 0 < t <= p && d[t - 1] == Newline && |NewlinesBelow(d, t, p)| == 1)
      && (|NewlinesBelow(d, 0, p)| < 2 ==> t == 0)
  {
    PrevLineTargetNoOverlap(d, p);
    if |NewlinesBelow(d, 0, p)| >= 2 {
      NewlinesBelowAt(d, 0, p, 1);
      NewlinesBelowAbove(d, 0, p, 1, NewlinesBelow(d, 0, p)[1]);
    }
  }

  /** From the first byte of a non-empty record that follows another
      record, prevLine followed by nextLine comes back to it. */
  lemma PrevThenNextReturns(d: seq<Byte>, p: nat)
    requires 0 < p < |d| && d[p - 1] == Newline && d[p] != Newline
    ensures NextLineTarget(d, PrevLineTarget(d, p)) == Some(p)
  {
    var t := PrevLineTarget(d, p);
    PrevLineAfterSecondNewline(d, p);
    NewlinesBelowTop(d, 0, p);
    if |NewlinesBelow(d, 0, p)| >= 2 {
      NewlinesBelowAt(d, 0, p - 1, 0);
      NewlinesBelowTop(d, t, p);
    }
    NewlinesBelowNone(d, t, p - 1);
    NextLineTargetIsFirstLineStart(d, t);
    assert LineStart(d, t, p);
    forall j | t < j < p
      ensures !LineStart(d, t, j)
    {
      assert d[j - 1] != Newline;
    }
  }

  /** nextLine never lands on an empty record: its target is never a
      newline byte. So from the start of an empty record (a newline right
      after a newline), prevLine followed by nextLine cannot come back. */
  lemma NextLineSkipsEmptyRecord(d: seq<Byte>, t: nat, p: nat)
    requires t <= |d| && p < |d| && d[p] == Newline
    ensures NextLineTarget(d, t) != Some(p)
  {
    NextLineTargetIsFirstLineStart(d, t);
  }

  /** The rewind quirk: from cursor 40, in the middle of a record, the scan
      inspects [8, 40) and then [0, 32), so a single newline at offset 20
      is counted twice and prevLine lands at 21 although only one newline
      precedes the cursor. */
  lemma RewindOverlapCountsTwice(d: seq<Byte>)
    requires |d| >= 40
    requires forall k :: 0 <= k < 40 ==> (d[k] == Newline <==> k == 20)
    ensures NewlinesBelow(d, 0, 40) == [20]
    ensures PrevLineTarget(d, 40) == 21
  {
    OnlyNewlineAtTwenty(d, 0, 40);
    NewlinesFromForty(d);
    var nls := NewlinesIn(d, BackOrder(40));
    assert |nls| == 2 && nls[1] == 20;
  }

  /** From cursor 40 the scan meets the newline at 20 twice. */
  lemma NewlinesFromForty(d: seq<Byte>)
    requires |d| >= 40
    requires forall k :: 0 <= k < 40 ==> (d[k] == Newline <==> k == 20)
    ensures NewlinesIn(d, BackOrder(40)) == [20, 20]
  {
    BackOrderFromForty();
    OnlyNewlineAtTwenty(d, 8, 40);
    OnlyNewlineAtTwenty(d, 0, 32);
    NewlinesDownBelow(d, 8, 40);
    NewlinesDownBelow(d, 0, 32);
    NewlinesTwice(d, Down(8, 40), Down(0, 32));
  }

  lemma NewlinesTwice(d: seq<Byte>, a: seq<nat>, b: seq<nat>)
    requires NewlinesIn(d, a) == [20] && NewlinesIn(d, b) == [20]
    ensures NewlinesIn(d, a + b) == [20, 20]
  {
    NewlinesInAppend(d, a, b);
  }

  lemma BackOrderFromForty()
    ensures BackOrder(40) == Down(8, 40) + Down(0, 32)
  {
    assert BackOrder(32) == Down(0, 32) + [];
  }

  lemma OnlyNewlineAtTwenty(d: seq<Byte>, s: nat, e: nat)
    requires s <= 20 < e <= 40 <= |d|
    requires forall k :: 0 <= k < 40 ==> (d[k] == Newline <==> k == 20)
    ensures NewlinesBelow(d, s, e) == [20]
  {
    NewlinesBelowSplit(d, s, 21, e);
    NewlinesBelowNone(d, 21, e);
    NewlinesBelowTop(d, s, 21);
    NewlinesBelowNone(d, s, 20);
  }

  /** The records "1", "2", "3" written and flushed: from the end, three
      prevLine calls walk back to the start of "1" (4, then 2, then 0),
      and nextLine from the start of "2" lands on "3". */
  lemma ThreeRecordsWalk(d: seq<Byte>)
    requires d == Joined([[49], [50], [51]])
    ensures PrevLineTarget(d, 6) == 4 && PrevLineTarget(d, 4) == 2 && PrevLineTarget(d, 2) == 0
    ensures NextLineTarget(d, 2) == Some(4)
  {
    ThreeRecordsBytes();
    ThreeRecordsNewlines(d);
    BackOrderDisjoint(6);
    BackOrderDisjoint(4);
    BackOrderDisjoint(2);
    assert d[3] == Newline && d[4] != Newline;
    PrevThenNextReturns(d, 4);
  }

  /** WriteLine of "1", "2" and "3" lays down the six bytes 1 \n 2 \n 3 \n. */
  lemma ThreeRecordsBytes()
    ensures Joined([[49], [50], [51]]) == [49, 10, 50, 10, 51, 10]
  {
    var ls: seq<seq<Byte>> := [[49], [50], [51]];
    assert ls[1..][1..][1..] == [];
    assert Joined(ls[1..][1..]) == [51] + [Newline] + [];
  }

  lemma ThreeRecordsNewlines(d: seq<Byte>)
    requires d == [49, 10, 50, 10, 51, 10]
    ensures NewlinesIn(d, Down(0, 2)) == [1]
    ensures NewlinesIn(d, Down(0, 4)) == [3, 1]
    ensures NewlinesIn(d, Down(0, 6)) == [5, 3, 1]
  {
    assert d[0] != Newline && d[1] == Newline && d[2] != Newline;
    assert d[3] == Newline && d[4] != Newline && d[5] == Newline;
    NewlinesDownBelow(d, 0, 2);
    NewlinesDownBelow(d, 0, 4);
    NewlinesDownBelow(d, 0, 6);
    assert NewlinesBelow(d, 0, 2) == [1];
    assert NewlinesBelow(d, 0, 4) == [3] + NewlinesBelow(d, 0, 2);
    assert NewlinesBelow(d, 0, 6) == [5] + NewlinesBelow(d, 0, 4);
  }

  /** Scanning down from e, the first offset inspected is e - 1. */
  lemma NewlinesDownStep(d: seq<Byte>, s: nat, e: nat)
    requires s < e <= |d|
    ensures NewlinesIn(d, Down(s, e)) == (if d[e - 1] == Newline then [e - 1] else []) + NewlinesIn(d, Down(s, e - 1))
  {
    assert Down(s, e) == [e - 1] + Down(s, e - 1);
    NewlinesInAppend(d, [e - 1], Down(s, e - 1));
  }
}
