/** middleware.go: an ordered list of middlewares becomes a stack of
    writers (to encode) or of readers (to decode), held in a slice whose
    slot 0 is the outermost layer; closing the slice closes every layer
    in slot order and gathers the errors. */
module Middlewares {
  import opened Types

  /** A middleware as the core sees it through its interface: its name,
      the whole-stream transformation its writer applies (enc) and the one
      its reader applies (dec), and the failures that its Writer and
      Reader constructors and its layers' Close report. A Reader
      constructor may look at the stream it wraps (a gzip reader reads the
      header), so that failure depends on the bytes it would read. */
  datatype Middleware = Middleware(
    name: string,
    enc: seq<Byte> -> seq<Byte>,
    dec: seq<Byte> -> seq<Byte>,
    writerErr: Option<string>,
    readerErr: seq<Byte> -> Option<string>,
    writerCloseErr: Option<string>,
    readerCloseErr: Option<string>)

  /** A constructor's error is returned as it is; Close errors are
      gathered into an error list. */
  datatype MWError = BuildFailed(msg: string) | CloseFailed(msgs: seq<string>)

  datatype Side = Writing | Reading

  function CloseErr(m: Middleware, side: Side): Option<string>
  {
    match side
    case Writing => m.writerCloseErr
    case Reading => m.readerCloseErr
  }

  /** What a layer wraps: the underlying buffer, or the layer stored in
      slot k of the same slice (a layer is referred to by its slot). */
  datatype Inner = Base | Slot(k: nat)

  /** A writer layer: the bytes written to it wait in pending until Close
      encodes them into the layer it wraps. */
  datatype Encoder = Encoder(mw: Middleware, into: Inner, pending: seq<Byte>, closed: bool)

  /** A reader layer: out is what reading it to the end yields. */
  datatype Decoder = Decoder(mw: Middleware, from: Inner, out: seq<Byte>, closed: bool)

  /** bytes.Buffer */
  class Buffer {
    var data: seq<Byte>

    constructor ()
      ensures data == []
    {
      data := [];
    }
  }

  // ---------------------------------------------------------------------
  // The chains

  /** What the writer stack built from mws emits for x: enc_0(enc_1(...enc_k(x))). */
  function EncodeChain(mws: seq<Middleware>, x: seq<Byte>): seq<Byte>
  {
    if mws == [] then x else mws[0].enc(EncodeChain(mws[1..], x))
  }

  /** What the reader stack built from mws yields for x: dec_0 first, dec_k last. */
  function DecodeChain(mws: seq<Middleware>, x: seq<Byte>): seq<Byte>
  {
    if mws == [] then x else DecodeChain(mws[1..], mws[0].dec(x))
  }

  /** Adding a middleware at the end of the list adds the innermost
      writer: it encodes first, and its output goes through the others. */
  lemma {:induction false} EncodeChainSnoc(mws: seq<Middleware>, m: Middleware, x: seq<Byte>)
    ensures EncodeChain(mws + [m], x) == EncodeChain(mws, m.enc(x))
  {
    if mws == [] {
      assert [m][1..] == [];
    } else {
      assert (mws + [m])[1..] == mws[1..] + [m];
      EncodeChainSnoc(mws[1..], m, x);
    }
  }

  /** Adding a middleware at the end of the list adds the outermost reader. */
  lemma {:induction false} DecodeChainSnoc(mws: seq<Middleware>, m: Middleware, x: seq<Byte>)
    ensures DecodeChain(mws + [m], x) == m.dec(DecodeChain(mws, x))
  {
    if mws == [] {
      assert [m][1..] == [];
    } else {
      assert (mws + [m])[1..] == mws[1..] + [m];
      DecodeChainSnoc(mws[1..], m, mws[0].dec(x));
    }
  }

  /** The layer's reader undoes its writer. */
  ghost predicate Inverts(m: Middleware)
  {
    forall y :: m.dec(m.enc(y)) == y
  }

  /** Decoding with the same list undoes encoding when every layer's
      reader undoes its writer. */
  lemma {:induction false} RoundTrip(mws: seq<Middleware>, x: seq<Byte>)
    requires forall m :: m in mws ==> Inverts(m)
    ensures DecodeChain(mws, EncodeChain(mws, x)) == x
  {
    if mws != [] {
      assert mws[0] in mws;
      assert forall m :: m in mws[1..] ==> m in mws;
      RoundTrip(mws[1..], x);
    }
  }

  // ---------------------------------------------------------------------
  // Building the stacks

  /** The index of the first middleware whose Writer fails, or |mws|. */
  function FirstWriterFailure(mws: seq<Middleware>): (i: nat)
    ensures i <= |mws|
    ensures forall j :: 0 <= j < i ==> mws[j].writerErr.None?
    ensures i < |mws| ==> mws[i].writerErr.Some?
  {
    if mws == [] || mws[0].writerErr.Some? then 0 else 1 + FirstWriterFailure(mws[1..])
  }

  /** Every Writer constructor succeeds exactly when none of the list fails. */
  lemma WritersAllBuild(mws: seq<Middleware>)
    ensures FirstWriterFailure(mws) == |mws| <==> forall m :: m in mws ==> m.writerErr.None?
  {
    var i := FirstWriterFailure(mws);
    if i < |mws| {
      assert mws[i] in mws;
    } else {
      forall m | m in mws
        ensures m.writerErr.None?
      {
        var t :| 0 <= t < |mws| && mws[t] == m;
      }
    }
  }

  lemma DecodeChainTail(mws: seq<Middleware>, x: seq<Byte>, j: nat)
    requires 1 <= j <= |mws|
    ensures DecodeChain(mws[..j], x) == DecodeChain(mws[1..][..j - 1], mws[0].dec(x))
  {
    assert mws[..j][1..] == mws[1..][..j - 1];
  }

  /** The index of the first middleware whose Reader fails on the bytes
      it wraps, or |mws|. */
  function FirstReaderFailure(mws: seq<Middleware>, x: seq<Byte>): (i: nat)
    ensures i <= |mws|
    ensures i < |mws| ==> mws[i].readerErr(DecodeChain(mws[..i], x)).Some?
  {
    if mws == [] || mws[0].readerErr(x).Some? then
      assert mws != [] ==> mws[..0] == [];
      0
    else
      var r := FirstReaderFailure(mws[1..], mws[0].dec(x));
      if r < |mws| - 1 then DecodeChainTail(mws, x, r + 1); 1 + r else 1 + r
  }

  /** Every Reader before the first failing one succeeds on what it wraps. */
  lemma {:induction false} ReadersBeforeFailureSucceed(mws: seq<Middleware>, x: seq<Byte>, j: nat)
    requires j < FirstReaderFailure(mws, x)
    ensures mws[j].readerErr(DecodeChain(mws[..j], x)).None?
  {
    if j == 0 {
      assert mws[..0] == [];
    } else {
      ReadersBeforeFailureSucceed(mws[1..], mws[0].dec(x), j - 1);
      DecodeChainTail(mws, x, j);
    }
  }

  /** What the layer built from mws[t] wraps: the buffer for t = 0, the
      layer built from mws[t-1] (slot n-t) otherwise. */
  function WrapsOf(t: nat, n: nat): Inner
    requires t < n
  {
    if t == 0 then Base else Slot(n - t)
  }

  /** The slice getWriteClosers has filled after building the first i
      layers: the layer built from mws[t] is in slot n-1-t. */
  ghost function BuiltWriters(mws: seq<Middleware>, i: nat): seq<Option<Encoder>>
    requires i <= |mws|
  {
    var n := |mws|;
    seq(n, j requires 0 <= j < n =>
      if n - 1 - j < i then Some(Encoder(mws[n - 1 - j], WrapsOf(n - 1 - j, n), [], false)) else None)
  }

  /** The slice getReadClosers has filled after building the first i
      layers over input x: the layer built from mws[t] is in slot n-1-t
      and yields what the first t+1 decoders make of x. */
  ghost function BuiltReaders(mws: seq<Middleware>, x: seq<Byte>, i: nat): seq<Option<Decoder>>
    requires i <= |mws|
  {
    seq(|mws|, j requires 0 <= j < |mws| => ReaderSlot(mws, x, i, j))
  }

  /** Slot j of BuiltReaders(mws, x, i). */
  ghost function ReaderSlot(mws: seq<Middleware>, x: seq<Byte>, i: nat, j: nat): Option<Decoder>
    requires i <= |mws| && j < |mws|
  {
    var n := |mws|;
    if n - 1 - j < i then Some(Decoder(mws[n - 1 - j], WrapsOf(n - 1 - j, n), DecodeChain(mws[..n - j], x), false)) else None
  }

  /** Which middleware each slot of a slice holding the first i layers
      comes from. */
  function StackLayers(mws: seq<Middleware>, i: nat): seq<Option<Middleware>>
    requires i <= |mws|
  {
    var n := |mws|;
    seq(n, j requires 0 <= j < n => if n - 1 - j < i then Some(mws[n - 1 - j]) else None)
  }

  ghost function WriterLayers(s: seq<Option<Encoder>>): seq<Option<Middleware>>
  {
    seq(|s|, j requires 0 <= j < |s| => if s[j].Some? then Some(s[j].value.mw) else None)
  }

  ghost function ReaderLayers(s: seq<Option<Decoder>>): seq<Option<Middleware>>
  {
    seq(|s|, j requires 0 <= j < |s| => if s[j].Some? then Some(s[j].value.mw) else None)
  }

  lemma BuiltWritersStep(mws: seq<Middleware>, i: nat)
    requires i < |mws|
    ensures var n := |mws|;
      BuiltWriters(mws, i + 1) == BuiltWriters(mws, i)[n - 1 - i := Some(Encoder(mws[i], WrapsOf(i, n), [], false))]
  {
    var n := |mws|;
    var a := BuiltWriters(mws, i + 1);
    var b := BuiltWriters(mws, i)[n - 1 - i := Some(Encoder(mws[i], WrapsOf(i, n), [], false))];
    forall j | 0 <= j < n
      ensures a[j] == b[j]
    {
      if j == n - 1 - i {
        assert n - 1 - j == i;
      }
    }
  }

  lemma BuiltReadersStep(mws: seq<Middleware>, x: seq<Byte>, i: nat)
    requires i < |mws|
    ensures var n := |mws|;
      BuiltReaders(mws, x, i + 1) ==
      BuiltReaders(mws, x, i)[n - 1 - i := Some(Decoder(mws[i], WrapsOf(i, n), DecodeChain(mws[..i + 1], x), false))]
  {
    var n := |mws|;
    var a := BuiltReaders(mws, x, i + 1);
    var b := BuiltReaders(mws, x, i)[n - 1 - i := Some(Decoder(mws[i], WrapsOf(i, n), DecodeChain(mws[..i + 1], x), false))];
    forall j | 0 <= j < n
      ensures a[j] == b[j]
    {
      if j == n - 1 - i {
        assert n - 1 - j == i && n - j == i + 1;
      }
    }
  }

  /** The reader built from mws[i] over what the first i readers yield
      yields what the first i+1 decoders make of the input. */
  lemma NextReaderDecodes(mws: seq<Middleware>, x: seq<Byte>, i: nat, data: seq<Byte>)
    requires i < |mws| && data == DecodeChain(mws[..i], x)
    ensures mws[i].dec(data) == DecodeChain(mws[..i + 1], x)
  {
    assert mws[..i + 1] == mws[..i] + [mws[i]];
    DecodeChainSnoc(mws[..i], mws[i], x);
  }

  /** In every slice built from mws, slot 0 is outermost: each stored
      layer other than the first wraps the slot holding the layer built
      from the previous middleware, and a reader yields what its own
      decoder makes of what that inner reader yields. */
  lemma ReaderWrapsPrevious(mws: seq<Middleware>, x: seq<Byte>, i: nat, t: nat)
    requires 0 < t < i <= |mws|
    ensures var n := |mws|; var s := BuiltReaders(mws, x, i);
      && s[n - 1 - t].Some? && s[n - t].Some?
      && s[n - 1 - t].value.from == Slot(n - t)
      && s[n - t].value.mw == mws[t - 1]
      && s[n - 1 - t].value.out == mws[t].dec(s[n - t].value.out)
  {
    var n := |mws|;
    var s := BuiltReaders(mws, x, i);
    assert n - 1 - (n - 1 - t) == t && n - (n - 1 - t) == t + 1;
    assert s[n - 1 - t] == Some(Decoder(mws[t], WrapsOf(t, n), DecodeChain(mws[..t + 1], x), false));
    assert n - 1 - (n - t) == t - 1 && n - (n - t) == t;
    assert s[n - t] == Some(Decoder(mws[t - 1], WrapsOf(t - 1, n), DecodeChain(mws[..t], x), false));
    assert mws[..t + 1] == mws[..t] + [mws[t]];
    DecodeChainSnoc(mws[..t], mws[t], x);
  }

  /** The layer at slot 0 of a complete reader stack yields the whole chain. */
  lemma OutermostYieldsChain(mws: seq<Middleware>, x: seq<Byte>)
    requires |mws| > 0
    ensures var s := BuiltReaders(mws, x, |mws|);
      s[0].Some? && s[0].value.mw == mws[|mws| - 1] && s[0].value.out == DecodeChain(mws, x)
  {
    assert mws[..|mws|] == mws;
  }

  // ---------------------------------------------------------------------
  // Closing

  function ErrorsOf(o: Option<Middleware>, side: Side): seq<string>
  {
    if o.Some? && CloseErr(o.value, side).Some? then [CloseErr(o.value, side).value] else []
  }

  /** The errors closing the slots yields, in slot order; nil slots are
      skipped and nil errors are not recorded. */
  function CloseErrors(ls: seq<Option<Middleware>>, side: Side): seq<string>
  {
    if ls == [] then [] else CloseErrors(ls[..|ls| - 1], side) + ErrorsOf(ls[|ls| - 1], side)
  }

  lemma CloseErrorsSnoc(ls: seq<Option<Middleware>>, i: nat, side: Side)
    requires i < |ls|
    ensures CloseErrors(ls[..i + 1], side) == CloseErrors(ls[..i], side) + ErrorsOf(ls[i], side)
  {
    assert ls[..i + 1][..i] == ls[..i];
  }

  /** ErrorList.Err: nil when empty. */
  function ErrOf(errs: seq<string>): (r: Option<MWError>)
    ensures r.None? <==> errs == []
  {
    if errs == [] then None else Some(CloseFailed(errs))
  }

  lemma {:induction false} CloseErrorsNone(ls: seq<Option<Middleware>>, side: Side)
    ensures CloseErrors(ls, side) == [] <==>
            forall j :: 0 <= j < |ls| && ls[j].Some? ==> CloseErr(ls[j].value, side).None?
  {
    if ls != [] {
      var init := ls[..|ls| - 1];
      CloseErrorsNone(init, side);
      assert forall j :: 0 <= j < |init| ==> init[j] == ls[j];
    }
  }

  /** Closing a complete stack reports nothing exactly when no layer of
      the list fails to close. */
  lemma StackCloseErrorsNone(mws: seq<Middleware>, side: Side)
    ensures CloseErrors(StackLayers(mws, |mws|), side) == [] <==>
            forall m :: m in mws ==> CloseErr(m, side).None?
  {
    var n := |mws|;
    var ls := StackLayers(mws, n);
    CloseErrorsNone(ls, side);
    if CloseErrors(ls, side) == [] {
      forall m | m in mws
        ensures CloseErr(m, side).None?
      {
        var t :| 0 <= t < n && mws[t] == m;
        assert n - 1 - (n - 1 - t) == t;
        assert ls[n - 1 - t] == Some(m);
      }
    } else {
      var j :| 0 <= j < n && ls[j].Some? && CloseErr(ls[j].value, side).Some?;
      assert ls[j].value == mws[n - 1 - j];
      assert mws[n - 1 - j] in mws;
    }
  }

  /** Closing slot j of a writer slice: its pending bytes are encoded into
      the layer it wraps (or the buffer) and it is marked closed. */
  function CloseStep(s: seq<Option<Encoder>>, sink: seq<Byte>, j: nat): (r: (seq<Option<Encoder>>, seq<Byte>))
    requires j < |s|
    ensures |r.0| == |s|
    ensures WriterLayers(r.0) == WriterLayers(s)
    ensures sink <= r.1
  {
    match s[j]
    case None => (s, sink)
    case Some(e) =>
      var out := e.mw.enc(e.pending);
      var s' := s[j := Some(e.(pending := [], closed := true))];
      assert WriterLayers(s') == WriterLayers(s);
      match e.into
      case Base => (s', sink + out)
      case Slot(k) =>
        if k < |s'| && s'[k].Some? then
          var s'' := s'[k := Some(s'[k].value.(pending := s'[k].value.pending + out))];
          assert WriterLayers(s'') == WriterLayers(s');
          (s'', sink)
        else (s', sink)
  }

  /** Closing slots j, j+1, ... in order. */
  function CloseAll(s: seq<Option<Encoder>>, sink: seq<Byte>, j: nat): (r: (seq<Option<Encoder>>, seq<Byte>))
    ensures |r.0| == |s|
    ensures WriterLayers(r.0) == WriterLayers(s)
    ensures sink <= r.1
    decreases |s| - j
  {
    if j >= |s| then (s, sink)
    else
      var r := CloseStep(s, sink, j);
      CloseAll(r.0, r.1, j + 1)
  }

  lemma CloseAllUnfold(s: seq<Option<Encoder>>, sink: seq<Byte>, j: nat)
    requires j < |s|
    ensures CloseAll(s, sink, j) == CloseAll(CloseStep(s, sink, j).0, CloseStep(s, sink, j).1, j + 1)
    ensures s[j].None? ==> CloseStep(s, sink, j) == (s, sink)
  {
  }

  /** Reader slots after closing: every stored layer marked closed. */
  ghost function ReadersClosed(s: seq<Option<Decoder>>): seq<Option<Decoder>>
  {
    seq(|s|, j requires 0 <= j < |s| => if s[j].Some? then Some(s[j].value.(closed := true)) else None)
  }

  /** A complete writer stack over x while it is being closed: slots
      before j are closed and empty, slot j holds what the outer layers
      made of x, the inner slots are still empty. */
  ghost function StackState(mws: seq<Middleware>, x: seq<Byte>, j: nat): seq<Option<Encoder>>
    requires j <= |mws|
  {
    seq(|mws|, i requires 0 <= i < |mws| => StackSlot(mws, x, j, i))
  }

  /** Slot i of StackState(mws, x, j). */
  ghost function StackSlot(mws: seq<Middleware>, x: seq<Byte>, j: nat, i: nat): Option<Encoder>
    requires j <= |mws| && i < |mws|
  {
    var n := |mws|;
    Some(Encoder(mws[n - 1 - i], WrapsOf(n - 1 - i, n), if i == j then EncodeChain(mws[n - j..], x) else [], i < j))
  }

  lemma CloseStepStack(mws: seq<Middleware>, x: seq<Byte>, j: nat)
    requires j < |mws|
    ensures CloseStep(StackState(mws, x, j), [], j) ==
            (StackState(mws, x, j + 1), if j == |mws| - 1 then EncodeChain(mws, x) else [])
  {
    var n := |mws|;
    var s := StackState(mws, x, j);
    StackStateAt(mws, x, j, j);
    var e := s[j].value;
    OuterLayerEncodes(mws, x, n - 1 - j);
    var out := e.mw.enc(e.pending);
    var s' := s[j := Some(e.(pending := [], closed := true))];
    if j == n - 1 {
      assert e.into == Base;
      assert CloseStep(s, [], j) == (s', [] + out);
      StackStateClosed(mws, x, j);
      assert [] + out == EncodeChain(mws, x);
    } else {
      assert e.into == Slot(j + 1);
      StackStateAt(mws, x, j, j + 1);
      var s'' := s'[j + 1 := Some(s'[j + 1].value.(pending := s'[j + 1].value.pending + out))];
      assert CloseStep(s, [], j) == (s'', []);
      StackStateHandOver(mws, x, j);
    }
  }

  /** Slot i of the stack being closed at j. */
  lemma StackStateAt(mws: seq<Middleware>, x: seq<Byte>, j: nat, i: nat)
    requires j <= |mws| && i < |mws|
    ensures StackState(mws, x, j)[i] == StackSlot(mws, x, j, i)
  {
  }

  /** The layer built from mws[t], given what the layers outside it made
      of x, makes what the chain from mws[t] on makes of x. */
  lemma OuterLayerEncodes(mws: seq<Middleware>, x: seq<Byte>, t: nat)
    requires t < |mws|
    ensures mws[t].enc(EncodeChain(mws[t + 1..], x)) == EncodeChain(mws[t..], x)
  {
    assert mws[t..][0] == mws[t];
    assert mws[t..][1..] == mws[t + 1..];
  }

  /** Closing the last slot (the innermost layer) leaves every slot closed
      and empty. */
  lemma StackStateClosed(mws: seq<Middleware>, x: seq<Byte>, j: nat)
    requires j == |mws| - 1
    ensures var s := StackState(mws, x, j);
      s[j := Some(s[j].value.(pending := [], closed := true))] == StackState(mws, x, j + 1)
  {
    var s := StackState(mws, x, j);
    var t := StackState(mws, x, j + 1);
    var s' := s[j := Some(s[j].value.(pending := [], closed := true))];
    forall i | 0 <= i < |mws|
      ensures s'[i] == t[i]
    {
      StackStateAt(mws, x, j, i);
      StackStateAt(mws, x, j + 1, i);
    }
  }

  /** Closing slot j of a stack with an inner slot hands its output to slot
      j+1, which then holds what the outer layers made of x. */
  lemma StackStateHandOver(mws: seq<Middleware>, x: seq<Byte>, j: nat)
    requires j + 1 < |mws|
    ensures var n := |mws|;
      var s := StackState(mws, x, j);
      var out := mws[n - 1 - j].enc(EncodeChain(mws[n - j..], x));
      var s' := s[j := Some(s[j].value.(pending := [], closed := true))];
      s'[j + 1 := Some(s'[j + 1].value.(pending := s'[j + 1].value.pending + out))] == StackState(mws, x, j + 1)
  {
    var n := |mws|;
    var s := StackState(mws, x, j);
    var t := StackState(mws, x, j + 1);
    var out := mws[n - 1 - j].enc(EncodeChain(mws[n - j..], x));
    OuterLayerEncodes(mws, x, n - 1 - j);
    assert n - (j + 1) == n - 1 - j;
    var s' := s[j := Some(s[j].value.(pending := [], closed := true))];
    var s'' := s'[j + 1 := Some(s'[j + 1].value.(pending := s'[j + 1].value.pending + out))];
    forall i | 0 <= i < n
      ensures s''[i] == t[i]
    {
      StackStateAt(mws, x, j, i);
      StackStateAt(mws, x, j + 1, i);
      if i == j + 1 {
        assert s''[i] == Some(s[i].value.(pending := [] + out));
        assert [] + out == EncodeChain(mws[n - (j + 1)..], x);
        assert StackSlot(mws, x, j + 1, i) == Some(s[i].value.(pending := EncodeChain(mws[n - (j + 1)..], x)));
      } else if i == j {
        assert s''[i] == Some(s[i].value.(pending := [], closed := true));
        assert StackSlot(mws, x, j + 1, i) == Some(s[i].value.(pending := [], closed := true));
      } else {
        assert s''[i] == s[i];
        assert StackSlot(mws, x, j + 1, i) == StackSlot(mws, x, j, i);
      }
    }
  }

  lemma {:induction false} StackCloses(mws: seq<Middleware>, x: seq<Byte>, j: nat)
    requires j < |mws|
    ensures CloseAll(StackState(mws, x, j), [], j).1 == EncodeChain(mws, x)
    decreases |mws| - j
  {
    CloseStepStack(mws, x, j);
    if j < |mws| - 1 {
      StackCloses(mws, x, j + 1);
    }
  }

  /** Writing x into slot 0 of a complete writer stack and closing every
      slot in order leaves exactly enc_0(...enc_k(x)) in the buffer. */
  lemma WriteThenCloseEmitsChain(mws: seq<Middleware>, x: seq<Byte>)
    requires |mws| > 0
    ensures var n := |mws|; var s := BuiltWriters(mws, n);
      && s[0].Some?
      && s[0 := Some(s[0].value.(pending := s[0].value.pending + x))] == StackState(mws, x, 0)
      && CloseAll(StackState(mws, x, 0), [], 0).1 == EncodeChain(mws, x)
      && WriterLayers(StackState(mws, x, 0)) == StackLayers(mws, n)
  {
    WrittenStackIsStackState(mws, x);
    assert [] + x == x;
    StackCloses(mws, x, 0);
    StackStateLayers(mws, x, 0);
  }

  /** Writing x into slot 0 of a complete writer stack gives the stack
      state before any slot is closed. */
  lemma WrittenStackIsStackState(mws: seq<Middleware>, x: seq<Byte>)
    requires |mws| > 0
    ensures BuiltWriters(mws, |mws|)[0] == Some(Encoder(mws[|mws| - 1], WrapsOf(|mws| - 1, |mws|), [], false))
    ensures BuiltWriters(mws, |mws|)[0 := Some(Encoder(mws[|mws| - 1], WrapsOf(|mws| - 1, |mws|), x, false))] == StackState(mws, x, 0)
  {
    var n := |mws|;
    var s := BuiltWriters(mws, n);
    var t := StackState(mws, x, 0);
    var s' := s[0 := Some(Encoder(mws[n - 1], WrapsOf(n - 1, n), x, false))];
    forall i | 0 <= i < n
      ensures s'[i] == t[i]
    {
      StackStateAt(mws, x, 0, i);
      if i == 0 {
        assert mws[n - 0..] == [];
      } else {
        assert s[i] == Some(Encoder(mws[n - 1 - i], WrapsOf(n - 1 - i, n), [], false));
      }
    }
  }

  /** Closing a stack never changes which middleware a slot comes from. */
  lemma StackStateLayers(mws: seq<Middleware>, x: seq<Byte>, j: nat)
    requires j <= |mws|
    ensures WriterLayers(StackState(mws, x, j)) == StackLayers(mws, |mws|)
  {
    forall i | 0 <= i < |mws|
      ensures WriterLayers(StackState(mws, x, j))[i] == StackLayers(mws, |mws|)[i]
    {
      StackStateAt(mws, x, j, i);
    }
  }

  // ---------------------------------------------------------------------
  // The methods of middleware.go

  /** io.WriteCloser.Write on the layer in slot j. */
  method WriteLayer(wcs: array<Option<Encoder>>, j: nat, x: seq<Byte>)
    requires j < wcs.Length && wcs[j].Some?
    modifies wcs
    ensures wcs[..] == old(wcs[..])[j := Some(old(wcs[j]).value.(pending := old(wcs[j]).value.pending + x))]
  {
    var e := wcs[j].value;
    wcs[j] := Some(e.(pending := e.pending + x));
  }

  /** io.WriteCloser.Close on the layer in slot j. */
  method CloseWriter(wcs: array<Option<Encoder>>, j: nat, sink: Buffer) returns (err: Option<string>)
    requires j < wcs.Length && wcs[j].Some?
    modifies wcs, sink
    ensures (wcs[..], sink.data) == CloseStep(old(wcs[..]), old(sink.data), j)
    ensures err == old(wcs[j]).value.mw.writerCloseErr
  {
    var e := wcs[j].value;
    var out := e.mw.enc(e.pending);
    err := e.mw.writerCloseErr;
    wcs[j] := Some(e.(pending := [], closed := true));
    match e.into
    case Base =>
      sink.data := sink.data + out;
    case Slot(k) =>
      if k < wcs.Length && wcs[k].Some? {
        var inner := wcs[k].value;
        wcs[k] := Some(inner.(pending := inner.pending + out));
      }
  }

  /** writeClosers.Close: closes every non-nil slot in order, going on
      after failures, and returns the gathered errors. sink is the buffer
      the stack was built over. */
  method CloseWriters(wcs: array<Option<Encoder>>, sink: Buffer) returns (err: Option<MWError>)
    modifies wcs, sink
    ensures (wcs[..], sink.data) == CloseAll(old(wcs[..]), old(sink.data), 0)
    ensures err == ErrOf(CloseErrors(WriterLayers(old(wcs[..])), Writing))
  {
    ghost var s0 := wcs[..];
    var errs: seq<string> := [];
    for i := 0 to wcs.Length
      invariant CloseAll(wcs[..], sink.data, i) == CloseAll(s0, old(sink.data), 0)
      invariant WriterLayers(wcs[..]) == WriterLayers(s0)
      invariant errs == CloseErrors(WriterLayers(s0)[..i], Writing)
    {
      CloseErrorsSnoc(WriterLayers(s0), i, Writing);
      CloseAllUnfold(wcs[..], sink.data, i);
      assert WriterLayers(wcs[..])[i] == WriterLayers(s0)[i];
      if wcs[i].None? {
        continue;
      }
      var e := CloseWriter(wcs, i, sink);
      if e.Some? {
        errs := errs + [e.value];
      }
    }
    assert WriterLayers(s0)[..wcs.Length] == WriterLayers(s0);
    err := ErrOf(errs);
  }

  /** io.ReadCloser.Close on the layer in slot j. */
  method CloseReader(rcs: array<Option<Decoder>>, j: nat) returns (err: Option<string>)
    requires j < rcs.Length && rcs[j].Some?
    modifies rcs
    ensures rcs[..] == old(rcs[..])[j := Some(old(rcs[j]).value.(closed := true))]
    ensures err == old(rcs[j]).value.mw.readerCloseErr
  {
    var d := rcs[j].value;
    rcs[j] := Some(d.(closed := true));
    err := d.mw.readerCloseErr;
  }

  /** readClosers.Close: closes every non-nil slot in order, going on
      after failures, and returns the gathered errors. */
  method CloseReaders(rcs: array<Option<Decoder>>) returns (err: Option<MWError>)
    modifies rcs
    ensures rcs[..] == ReadersClosed(old(rcs[..]))
    ensures err == ErrOf(CloseErrors(ReaderLayers(old(rcs[..])), Reading))
  {
    ghost var s0 := rcs[..];
    var errs: seq<string> := [];
    for i := 0 to rcs.Length
      invariant forall j :: 0 <= j < i ==> rcs[j] == ReadersClosed(s0)[j]
      invariant forall j :: i <= j < rcs.Length ==> rcs[j] == s0[j]
      invariant errs == CloseErrors(ReaderLayers(s0)[..i], Reading)
    {
      CloseErrorsSnoc(ReaderLayers(s0), i, Reading);
      if rcs[i].None? {
        continue;
      }
      var e := CloseReader(rcs, i);
      if e.Some? {
        errs := errs + [e.value];
      }
    }
    assert ReaderLayers(s0)[..rcs.Length] == ReaderLayers(s0);
    err := ErrOf(errs);
  }

  /** getWriteClosers: builds one writer per middleware, mws[0] over the
      buffer and each next one over the previous, storing the layer built
      from mws[i] in slot len-1-i. When a Writer fails, the layers built
      so far are closed (their errors dropped) and that error returned. */
  method GetWriteClosers(sink: Buffer, mws: seq<Middleware>) returns (wcs: array<Option<Encoder>>, err: Option<MWError>)
    modifies sink
    ensures fresh(wcs) && wcs.Length == |mws|
    ensures var i := FirstWriterFailure(mws);
      if i == |mws| then
        err == None && wcs[..] == BuiltWriters(mws, i) && sink.data == old(sink.data)
      else
        && err == Some(BuildFailed(mws[i].writerErr.value))
        && (wcs[..], sink.data) == CloseAll(BuiltWriters(mws, i), old(sink.data), 0)
  {
    var n := |mws|;
    wcs := new Option<Encoder>[n](_ => None);
    var wtr: Inner := Base;
    err := None;
    var i := 0;
    while i < n
      invariant 0 <= i <= FirstWriterFailure(mws)
      invariant err == None
      invariant wcs[..] == BuiltWriters(mws, i)
      invariant sink.data == old(sink.data)
      invariant 0 < i ==> wtr == Slot(n - i)
    {
      var mw := mws[i];
      var inner := if i == 0 then Base else wtr;
      if mw.writerErr.Some? {
        err := Some(BuildFailed(mw.writerErr.value));
        break;
      }
      BuiltWritersStep(mws, i);
      wcs[n - 1 - i] := Some(Encoder(mw, inner, [], false));
      wtr := Slot(n - 1 - i);
      i := i + 1;
    }
    if err.Some? {
      var cerr := CloseWriters(wcs, sink);
    }
  }

  /** getReadClosers: builds one reader per middleware, mws[0] over the
      input and each next one over the previous, storing the layer built
      from mws[i] in slot len-1-i. When a Reader fails, the layers built
      so far are closed (their errors dropped) and that error returned. */
  method GetReadClosers(x: seq<Byte>, mws: seq<Middleware>) returns (rcs: array<Option<Decoder>>, err: Option<MWError>)
    ensures fresh(rcs) && rcs.Length == |mws|
    ensures FirstReaderFailure(mws, x) == |mws| ==>
      err == None && rcs[..] == BuiltReaders(mws, x, |mws|)
    ensures FirstReaderFailure(mws, x) < |mws| ==>
      && err == Some(BuildFailed(mws[FirstReaderFailure(mws, x)].readerErr(DecodeChain(mws[..FirstReaderFailure(mws, x)], x)).value))
      && rcs[..] == ReadersClosed(BuiltReaders(mws, x, FirstReaderFailure(mws, x)))
  {
    var n := |mws|;
    rcs := new Option<Decoder>[n](_ => None);
    var rdr: Option<Decoder> := None;
    err := None;
    var i := 0;
    ghost var k := FirstReaderFailure(mws, x);
    assert mws[..0] == [];
    while i < n
      invariant 0 <= i <= k
      invariant err == None
      invariant rcs[..] == BuiltReaders(mws, x, i)
      invariant 0 < i ==> rdr == Some(Decoder(mws[i - 1], WrapsOf(i - 1, n), DecodeChain(mws[..i], x), false))
    {
      var mw := mws[i];
      var from: Inner, data: seq<Byte>;
      if i == 0 {
        from, data := Base, x;
      } else {
        from, data := Slot(n - i), rdr.value.out;
      }
      assert data == DecodeChain(mws[..i], x);
      var e := mw.readerErr(data);
      if e.Some? {
        if i < k {
          ReadersBeforeFailureSucceed(mws, x, i);
        }
        assert i == k && e == mws[k].readerErr(DecodeChain(mws[..k], x));
        err := Some(BuildFailed(e.value));
        break;
      }
      NextReaderDecodes(mws, x, i, data);
      BuiltReadersStep(mws, x, i);
      rdr := Some(Decoder(mw, from, mw.dec(data), false));
      assert rdr == Some(Decoder(mws[i], WrapsOf(i, n), DecodeChain(mws[..i + 1], x), false));
      ghost var before := rcs[..];
      rcs[n - 1 - i] := rdr;
      assert rcs[..] == before[n - 1 - i := rdr];
      i := i + 1;
    }
    if err.Some? {
      assert rcs[..] == BuiltReaders(mws, x, k);
      var cerr := CloseReaders(rcs);
    }
  }

  /** writeMWBytes: encodes in through the writer stack built from mws.
      The source indexes slot 0 unconditionally, so an empty list is not
      accepted; the Write error is discarded. */
  method WriteMWBytes(x: seq<Byte>, mws: seq<Middleware>) returns (out: seq<Byte>, err: Option<MWError>)
    requires |mws| > 0
    ensures err == (var i := FirstWriterFailure(mws);
                    if i < |mws| then Some(BuildFailed(mws[i].writerErr.value))
                    else ErrOf(CloseErrors(StackLayers(mws, |mws|), Writing)))
    ensures err.None? <==> forall m :: m in mws ==> m.writerErr.None? && m.writerCloseErr.None?
    ensures err.None? ==> out == EncodeChain(mws, x)
    ensures err.Some? ==> out == []
  {
    var n := |mws|;
    var oBuf := new Buffer();
    var wcs;
    wcs, err := GetWriteClosers(oBuf, mws);
    WritersAllBuild(mws);
    StackCloseErrorsNone(mws, Writing);
    if err.Some? {
      return [], err;
    }
    WriteThenCloseEmitsChain(mws, x);
    WriteLayer(wcs, 0, x);
    assert wcs[..] == StackState(mws, x, 0);
    err := CloseWriters(wcs, oBuf);
    if err.Some? {
      return [], err;
    }
    out := oBuf.data;
  }

  /** readMWBytes: decodes in through the reader stack built from mws and
      copies the outermost reader to a buffer. The source indexes slot 0
      unconditionally, so an empty list is not accepted; the Copy error is
      discarded. */
  method ReadMWBytes(x: seq<Byte>, mws: seq<Middleware>) returns (out: seq<Byte>, err: Option<MWError>)
    requires |mws| > 0
    ensures err == (var i := FirstReaderFailure(mws, x);
                    if i < |mws| then Some(BuildFailed(mws[i].readerErr(DecodeChain(mws[..i], x)).value))
                    else ErrOf(CloseErrors(StackLayers(mws, |mws|), Reading)))
    ensures err.None? <==> FirstReaderFailure(mws, x) == |mws| && forall m :: m in mws ==> m.readerCloseErr.None?
    ensures err.None? ==> out == DecodeChain(mws, x)
    ensures err.Some? ==> out == []
  {
    var n := |mws|;
    var oBuf := new Buffer();
    var rcs;
    rcs, err := GetReadClosers(x, mws);
    StackCloseErrorsNone(mws, Reading);
    if err.Some? {
      return [], err;
    }
    OutermostYieldsChain(mws, x);
    oBuf.data := oBuf.data + rcs[0].value.out;
    assert ReaderLayers(rcs[..]) == StackLayers(mws, n);
    err := CloseReaders(rcs);
    if err.Some? {
      return [], err;
    }
    out := oBuf.data;
  }
}
