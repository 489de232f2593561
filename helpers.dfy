/** helpers.go: construction options, in-place slice reversal and the
    first-newline search. */
module Helpers {
  import opened Types

  /** Construction options (Opts). Backend is carried but, as in the
      source, never consulted. */
  datatype Opts = Opts(path: string, name: string, ext: string, backend: nat, noSet: bool)
  {
    /** Opts.isValid: every part of the location is non-empty. */
    predicate IsValid()
    {
      |path| > 0 && |name| > 0 && |ext| > 0
    }
  }

  /** The bytes of s in reverse order. */
  function Reversed(s: seq<Byte>): (r: seq<Byte>)
    ensures |r| == |s|
  {
    if s == [] then [] else Reversed(s[1..]) + [s[0]]
  }

  lemma {:induction false} ReversedAt(s: seq<Byte>, k: nat)
    requires k < |s|
    ensures Reversed(s)[k] == s[|s| - 1 - k]
  {
    if k < |s| - 1 {
      ReversedAt(s[1..], k);
    }
  }

  /** Reversing twice gives back the original bytes. */
  lemma ReversedTwice(s: seq<Byte>)
    ensures Reversed(Reversed(s)) == s
  {
    var r := Reversed(s);
    forall k | 0 <= k < |s|
      ensures Reversed(r)[k] == s[k]
    {
      ReversedAt(r, k);
      ReversedAt(s, |s| - 1 - k);
    }
  }

  /** A slice of length 0 or 1 is its own reversal, and the middle byte of
      an odd-length slice does not move. */
  lemma ReversedKeepsMiddle(s: seq<Byte>)
    ensures |s| <= 1 ==> Reversed(s) == s
    ensures |s| % 2 == 1 ==> Reversed(s)[|s| / 2] == s[|s| / 2]
  {
    if |s| == 1 {
      ReversedAt(s, 0);
    }
    if |s| % 2 == 1 {
      ReversedAt(s, |s| / 2);
    }
  }

  /** reverseByteSlice applied to the slice bs[:n] of an array: it swaps
      bs[i] with bs[c-i] (c = n-1) while c-i lies strictly above i. */
  method ReverseByteSlice(bs: array<Byte>, n: nat)
    requires n <= bs.Length
    modifies bs
    ensures bs[..n] == Reversed(old(bs[..n]))
    ensures bs[n..] == old(bs[n..])
  {
    ghost var was := bs[..n];
    var c := n - 1;
    var i := 0;
    while i < n
      invariant 0 <= i <= n
      invariant i <= n - i
      invariant forall k :: 0 <= k < i ==> bs[k] == was[n - 1 - k] && bs[n - 1 - k] == was[k]
      invariant forall k :: i <= k < n - i ==> bs[k] == was[k]
      invariant bs[n..] == old(bs[n..])
    {
      var m := c - i;
      if m == i || m < i {
        break;
      }
      bs[i], bs[m] := bs[m], bs[i];
      i := i + 1;
    }
    forall k | 0 <= k < n
      ensures bs[..n][k] == Reversed(was)[k]
    {
      ReversedAt(was, k);
    }
  }

  /** getNewlineIndex: the least index holding a newline, or -1 when there
      is none. */
  method GetNewlineIndex(s: seq<Byte>) returns (idx: int)
    ensures -1 <= idx < |s|
    ensures idx == -1 <==> Newline !in s
    ensures idx >= 0 ==> s[idx] == Newline && Newline !in s[..idx]
  {
    var i := 0;
    while i < |s|
      invariant 0 <= i <= |s|
      invariant Newline !in s[..i]
    {
      if s[i] == Newline {
        return i;
      }
      i := i + 1;
    }
    return -1;
  }
}
