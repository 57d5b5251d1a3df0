/** Searching for delimiters: `windows(n).position(..)`, `find(char)` and what they do when the
    buffer later grows. */
module Scan {
  import opened Prelude

  predicate PairAt<T(==)>(s: seq<T>, a: T, b: T, k: int) {
    0 <= k && k + 2 <= |s| && s[k] == a && s[k + 1] == b
  }

  /** First position at or after `from` where `a` is directly followed by `b`. */
  function FindPair<T(==)>(s: seq<T>, a: T, b: T, from: nat): (r: Option<nat>)
    requires from <= |s|
    ensures r.Some? ==> from <= r.value && PairAt(s, a, b, r.value)
    decreases |s| - from
  {
    if from + 2 > |s| then None
    else if PairAt(s, a, b, from) then Some(from)
    else FindPair(s, a, b, from + 1)
  }

  /** First position of `c` at or after `from`. */
  function IndexOf<T(==)>(s: seq<T>, c: T, from: nat): (r: Option<nat>)
    requires from <= |s|
    ensures r.Some? ==> from <= r.value < |s| && s[r.value] == c && c !in s[from..r.value]
    ensures r.None? ==> c !in s[from..]
    decreases |s| - from
  {
    if from == |s| then None
    else if s[from] == c then Some(from)
    else IndexOf(s, c, from + 1)
  }

  function FindCrlf(b: bytes, from: nat): (r: Option<nat>)
    requires from <= |b|
    ensures r.Some? ==> from <= r.value && r.value + 2 <= |b| && b[r.value..r.value + 2] == CRLF
  {
    FindPair(b, CR, LF, from)
  }

  predicate NoCrlf(b: bytes) {
    FindCrlf(b, 0).None?
  }

  predicate TerminatorAt(b: bytes, k: int) {
    PairAt(b, CR, LF, k) && PairAt(b, CR, LF, k + 2)
  }

  /** First position at or after `from` of the blank line that ends a response head. */
  function FindTerminatorFrom(b: bytes, from: nat): (r: Option<nat>)
    requires from <= |b|
    ensures r.Some? ==> from <= r.value && TerminatorAt(b, r.value)
    decreases |b| - from
  {
    if from + 4 > |b| then None
    else if TerminatorAt(b, from) then Some(from)
    else FindTerminatorFrom(b, from + 1)
  }

  function FindTerminator(b: bytes): (r: Option<nat>)
    ensures r.Some? ==> r.value + 4 <= |b| && b[r.value..r.value + 4] == CRLF + CRLF
  {
    FindTerminatorFrom(b, 0)
  }

  /** The search returns the first match: exactly the position with a match and none before it. */
  lemma {:induction false} FindPairExactly<T>(s: seq<T>, a: T, b: T, from: nat, r: Option<nat>)
    requires from <= |s|
    ensures FindPair(s, a, b, from) == r <==>
      match r
      case Some(p) => from <= p && PairAt(s, a, b, p) && forall k :: from <= k < p ==> !PairAt(s, a, b, k)
      case None => forall k :: from <= k ==> !PairAt(s, a, b, k)
    decreases |s| - from
  {
    if from + 2 <= |s| && !PairAt(s, a, b, from) {
      FindPairExactly(s, a, b, from + 1, r);
    }
  }

  /** A delimiter once found stays the first one however the input grows. */
  lemma {:induction false} FindPairStable<T>(s: seq<T>, a: T, b: T, from: nat, more: seq<T>)
    requires from <= |s|
    requires FindPair(s, a, b, from).Some?
    ensures FindPair(s + more, a, b, from) == FindPair(s, a, b, from)
    decreases |s| - from
  {
    if !PairAt(s, a, b, from) {
      FindPairStable(s, a, b, from + 1, more);
    }
  }

  /** Cutting the input behind the delimiter does not change where it is found. */
  lemma {:induction false} FindPairCut<T>(s: seq<T>, a: T, b: T, from: nat, n: nat)
    requires from <= |s|
    requires FindPair(s, a, b, from).Some?
    requires FindPair(s, a, b, from).value + 2 <= n <= |s|
    ensures FindPair(s[..n], a, b, from) == FindPair(s, a, b, from)
    decreases |s| - from
  {
    if !PairAt(s, a, b, from) {
      FindPairCut(s, a, b, from + 1, n);
    }
  }

  lemma {:induction false} FindTerminatorStable(b: bytes, more: bytes, from: nat)
    requires from <= |b|
    requires FindTerminatorFrom(b, from).Some?
    ensures FindTerminatorFrom(b + more, from) == FindTerminatorFrom(b, from)
    decreases |b| - from
  {
    if !TerminatorAt(b, from) {
      FindTerminatorStable(b, more, from + 1);
    }
  }

  lemma {:induction false} FindTerminatorCut(b: bytes, n: nat, from: nat)
    requires from <= |b|
    requires FindTerminatorFrom(b, from).Some?
    requires FindTerminatorFrom(b, from).value + 4 <= n <= |b|
    ensures FindTerminatorFrom(b[..n], from) == FindTerminatorFrom(b, from)
    decreases |b| - from
  {
    if !TerminatorAt(b, from) {
      FindTerminatorCut(b, n, from + 1);
    }
  }

  lemma {:induction false} FindTerminatorFirst(b: bytes, from: nat, p: nat)
    requires from <= p && TerminatorAt(b, p)
    requires forall k :: from <= k < p ==> !TerminatorAt(b, k)
    ensures FindTerminatorFrom(b, from) == Some(p)
    decreases p - from
  {
    if from < p {
      FindTerminatorFirst(b, from + 1, p);
    }
  }

  lemma {:induction false} NoTerminator(b: bytes, from: nat)
    requires from <= |b|
    requires forall k :: from <= k ==> !TerminatorAt(b, k)
    ensures FindTerminatorFrom(b, from) == None
    decreases |b| - from
  {
    if from + 4 <= |b| {
      NoTerminator(b, from + 1);
    }
  }

  /** `piece` stands in `s` at `from`. */
  predicate At<T(==)>(s: seq<T>, from: int, piece: seq<T>) {
    0 <= from && from + |piece| <= |s| && s[from..from + |piece|] == piece
  }

  lemma AtConcat<T>(s: seq<T>, from: int, left: seq<T>, right: seq<T>)
    ensures At(s, from, left + right) <==> At(s, from, left) && At(s, from + |left|, right)
  {
    if 0 <= from && from + |left + right| <= |s| {
      var whole := s[from..from + |left + right|];
      assert whole[..|left|] == s[from..from + |left|];
      assert whole[|left|..] == s[from + |left|..from + |left| + |right|];
      assert whole == whole[..|left|] + whole[|left|..];
    }
  }

  /** A pair-free piece followed by the pair: the search stops exactly at the end of the piece. */
  lemma FindPairAfter<T>(s: seq<T>, from: nat, piece: seq<T>, a: T, b: T)
    requires a != b
    requires FindPair(piece, a, b, 0).None?
    requires At(s, from, piece) && PairAt(s, a, b, from + |piece|)
    ensures FindPair(s, a, b, from) == Some(from + |piece|)
  {
    FindPairExactly(piece, a, b, 0, None);
    forall k | from <= k < from + |piece|
      ensures !PairAt(s, a, b, k)
    {
      assert !PairAt(piece, a, b, k - from);
      assert s[k] == s[from..from + |piece|][k - from];
    }
    FindPairExactly(s, a, b, from, Some(from + |piece|));
  }
}
