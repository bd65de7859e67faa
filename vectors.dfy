/** A growable buffer owned by a caller, with the handful of `Vec` operations
    the codecs use to append to it, reserve room in it, write into its tail
    and cut it back. */
module Vectors {

  /** A sequence is its prefix followed by its suffix. */
  lemma SplitAt<T>(s: seq<T>, i: nat)
    requires i <= |s|
    ensures s == s[..i] + s[i..]
  {
  }

  /** The two parts of a concatenation are found again by slicing. */
  lemma ConcatParts<T>(a: seq<T>, b: seq<T>)
    ensures (a + b)[..|a|] == a && (a + b)[|a|..] == b
  {
  }

  lemma HeadTail<T>(s: seq<T>)
    requires |s| > 0
    ensures s == [s[0]] + s[1..]
  {
  }

  /** `n` copies of `x`: what `Vec::resize` fills new room with. */
  function Repeat<T>(x: T, n: nat): (s: seq<T>)
    ensures |s| == n
    ensures forall i :: 0 <= i < n ==> s[i] == x
  {
    seq(n, _ => x)
  }

  /** `Vec::truncate` as a value: keeps the first `n` entries, and does nothing
      when there are no more than `n`. */
  function Truncated<T>(s: seq<T>, n: nat): (t: seq<T>)
    ensures |t| == if n < |s| then n else |s|
    ensures t == s[..|t|]
  {
    if n < |s| then s[..n] else s
  }

  /** `base` with its first `|w|` entries overwritten by `w`: what a writer
      that produced `w` leaves in a buffer that held `base`. */
  function Overlay<T>(w: seq<T>, base: seq<T>): (s: seq<T>)
    requires |w| <= |base|
    ensures |s| == |base|
  {
    w + base[|w|..]
  }

  class Vec<T> {
    var elems: seq<T>

    constructor (init: seq<T>)
      ensures elems == init
    {
      elems := init;
    }

    function Len(): nat
      reads this
    {
      |elems|
    }

    /** `Vec::resize(n, fill)`. */
    method Resize(n: nat, fill: T)
      modifies this
      ensures elems == if n <= |old(elems)| then old(elems)[..n]
                       else old(elems) + Repeat(fill, n - |old(elems)|)
    {
      if n <= |elems| {
        elems := elems[..n];
      } else {
        elems := elems + Repeat(fill, n - |elems|);
      }
    }

    /** `Vec::truncate(n)`. */
    method Truncate(n: nat)
      modifies this
      ensures elems == Truncated(old(elems), n)
    {
      if n < |elems| {
        elems := elems[..n];
      }
    }

    /** `Vec::push(x)`. */
    method Push(x: T)
      modifies this
      ensures elems == old(elems) + [x]
    {
      elems := elems + [x];
    }

    /** `Vec::append` / `extend_from_slice`. */
    method Extend(s: seq<T>)
      modifies this
      ensures elems == old(elems) + s
    {
      elems := elems + s;
    }

    /** `self[at..at + s.len()].copy_from_slice(s)`: overwrites entries in place. */
    method CopyFrom(at: nat, s: seq<T>)
      requires at + |s| <= |elems|
      modifies this
      ensures |elems| == |old(elems)|
      ensures elems == old(elems)[..at] + s + old(elems)[at + |s|..]
    {
      elems := elems[..at] + s + elems[at + |s|..];
    }
  }
}
