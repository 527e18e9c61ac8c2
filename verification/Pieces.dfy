/** Pieces of a sequence: what stands where, and where it still stands after concatenation. */
module Pieces {

  predicate HasAt<T(==)>(s: seq<T>, piece: seq<T>, at: nat) {
    at + |piece| <= |s| && s[at..at + |piece|] == piece
  }

  /** What stands at a place inside a piece stands at the shifted place in the whole. */
  lemma HasInside<T>(s: seq<T>, whole: seq<T>, at: nat, piece: seq<T>, inner: nat)
    requires HasAt(s, whole, at) && HasAt(whole, piece, inner)
    ensures HasAt(s, piece, at + inner)
  {
    forall k | 0 <= k < |piece| ensures s[at + inner..at + inner + |piece|][k] == piece[k]
    {
      assert s[at..at + |whole|][inner + k] == whole[inner..inner + |piece|][k];
    }
    assert s[at + inner..at + inner + |piece|] == piece;
  }

  lemma HasMiddle<T>(a: seq<T>, b: seq<T>, c: seq<T>)
    ensures HasAt(a + b + c, b, |a|)
  {
  }

  /** Two pieces side by side. */
  lemma HasBoth<T>(s: seq<T>, first: seq<T>, rest: seq<T>, at: nat)
    requires HasAt(s, first + rest, at)
    ensures HasAt(s, first, at) && HasAt(s, rest, at + |first|)
  {
    HasMiddle([], first, rest);
    HasMiddle(first, rest, []);
    assert [] + first + rest == first + rest && first + rest + [] == first + rest;
    HasInside(s, first + rest, at, first, 0);
    HasInside(s, first + rest, at, rest, |first|);
  }

  // ---------------------------------------------------------------- concatenation

  /** `Buffer.concat(pieces)`, or what `+=` over the pieces builds. */
  function Flatten<T>(pieces: seq<seq<T>>): seq<T> {
    if pieces == [] then [] else Flatten(pieces[..|pieces| - 1]) + pieces[|pieces| - 1]
  }

  lemma FlattenAppend<T>(pieces: seq<seq<T>>, piece: seq<T>)
    ensures Flatten(pieces + [piece]) == Flatten(pieces) + piece
  {
    assert (pieces + [piece])[..|pieces|] == pieces;
  }

  lemma FlattenGrows<T>(pieces: seq<seq<T>>, k: nat)
    requires k < |pieces|
    ensures Flatten(pieces[..k + 1]) == Flatten(pieces[..k]) + pieces[k]
  {
    assert pieces[..k + 1] == pieces[..k] + [pieces[k]];
    FlattenAppend(pieces[..k], pieces[k]);
  }

  /** The k-th piece stands after the first k pieces. */
  lemma {:induction false} PieceStands<T>(pieces: seq<seq<T>>, k: nat)
    requires k < |pieces|
    ensures HasAt(Flatten(pieces), pieces[k], |Flatten(pieces[..k])|)
  {
    var n := |pieces| - 1;
    if k < n {
      assert pieces[..n][..k] == pieces[..k];
      PieceStands(pieces[..n], k);
    } else {
      HasMiddle(Flatten(pieces[..n]), pieces[n], []);
    }
  }

  /** Pieces of one width stand at multiples of it. */
  lemma {:induction false} EqualPieces<T>(pieces: seq<seq<T>>, width: nat, k: nat)
    requires k <= |pieces| && forall i | 0 <= i < |pieces| :: |pieces[i]| == width
    ensures |Flatten(pieces[..k])| == width * k
  {
    if k > 0 {
      EqualPieces(pieces, width, k - 1);
      FlattenGrows(pieces, k - 1);
    }
  }

  lemma {:induction false} FlattenBound<T>(pieces: seq<seq<T>>, bound: nat, k: nat)
    requires k <= |pieces| && forall i | 0 <= i < |pieces| :: |pieces[i]| <= bound
    ensures |Flatten(pieces[..k])| <= bound * k
  {
    if k > 0 {
      FlattenBound(pieces, bound, k - 1);
      FlattenGrows(pieces, k - 1);
    }
  }

  /** `xs.map(f)`. */
  function Each<S, T>(f: S -> T, xs: seq<S>): (r: seq<T>)
    ensures |r| == |xs| && forall i | 0 <= i < |xs| :: r[i] == f(xs[i])
  {
    seq(|xs|, i requires 0 <= i < |xs| => f(xs[i]))
  }

  lemma EachStep<S, T>(f: S -> T, first: S, rest: seq<S>)
    ensures Each(f, [first] + rest) == [f(first)] + Each(f, rest)
  {
  }

  lemma EachGrows<S, T>(f: S -> seq<T>, xs: seq<S>, k: nat)
    requires k < |xs|
    ensures Flatten(Each(f, xs)[..k + 1]) == Flatten(Each(f, xs)[..k]) + f(xs[k])
  {
    FlattenGrows(Each(f, xs), k);
  }

  /** Records of one width stand at multiples of it. */
  lemma EqualEach<S, T>(f: S -> seq<T>, xs: seq<S>, width: nat, k: nat, place: nat)
    requires k < |xs| && place == width * k
    requires forall x <- xs :: |f(x)| == width
    ensures HasAt(Flatten(Each(f, xs)), f(xs[k]), place)
  {
    EqualPieces(Each(f, xs), width, k);
    PieceStands(Each(f, xs), k);
  }

  // ---------------------------------------------------------------- filtering and counting

  ghost predicate NoDuplicates<T>(s: seq<T>) {
    s == [] || (s[|s| - 1] !in s[..|s| - 1] && NoDuplicates(s[..|s| - 1]))
  }

  lemma {:induction false} NoDuplicatesIff<T>(s: seq<T>)
    ensures NoDuplicates(s) <==> forall i, j | 0 <= i < j < |s| :: s[i] != s[j]
  {
    if s != [] {
      var n := |s| - 1;
      NoDuplicatesIff(s[..n]);
      if NoDuplicates(s) {
        forall i, j | 0 <= i < j < |s| ensures s[i] != s[j] {
          if j == n { assert s[i] in s[..n]; } else { assert s[..n][i] == s[i] && s[..n][j] == s[j]; }
        }
      }
    }
  }

  /** `s.filter(p)`. */
  function Filter<T>(p: T -> bool, s: seq<T>): (r: seq<T>)
    ensures |r| <= |s|
  {
    if s == [] then []
    else
      var last := s[|s| - 1];
      Filter(p, s[..|s| - 1]) + if p(last) then [last] else []
  }

  lemma {:induction false} FilterIn<T>(p: T -> bool, s: seq<T>, x: T)
    ensures x in Filter(p, s) <==> x in s && p(x)
  {
    if s != [] {
      var n := |s| - 1;
      FilterIn(p, s[..n], x);
      assert s == s[..n] + [s[n]];
    }
  }

  lemma {:induction false} FilterAppend<T>(p: T -> bool, a: seq<T>, b: seq<T>)
    ensures Filter(p, a + b) == Filter(p, a) + Filter(p, b)
    decreases |b|
  {
    if b == [] {
      assert a + b == a;
    } else {
      assert (a + b)[..|a + b| - 1] == a + b[..|b| - 1];
      FilterAppend(p, a, b[..|b| - 1]);
    }
  }

  lemma {:induction false} FilterSame<T>(a: T -> bool, b: T -> bool, s: seq<T>)
    requires forall x <- s :: a(x) == b(x)
    ensures Filter(a, s) == Filter(b, s)
  {
    if s != [] {
      assert s[|s| - 1] in s;
      FilterSame(a, b, s[..|s| - 1]);
    }
  }

  lemma {:induction false} FilterNoneIff<T>(p: T -> bool, s: seq<T>)
    ensures Filter(p, s) == [] <==> forall x <- s :: !p(x)
  {
    if s != [] {
      FilterNoneIff(p, s[..|s| - 1]);
      assert s == s[..|s| - 1] + [s[|s| - 1]];
      if Filter(p, s) == [] {
        assert !p(s[|s| - 1]);
      } else if !p(s[|s| - 1]) {
        assert Filter(p, s) == Filter(p, s[..|s| - 1]);
      }
    }
  }

  lemma {:induction false} FilterPrefix<T>(p: T -> bool, s: seq<T>, i: nat)
    requires i <= |s|
    ensures Filter(p, s[..i]) <= Filter(p, s)
    decreases |s|
  {
    if i < |s| {
      assert s[..|s| - 1][..i] == s[..i];
      FilterPrefix(p, s[..|s| - 1], i);
    } else {
      assert s[..i] == s;
    }
  }

  lemma FilterGrows<T>(p: T -> bool, s: seq<T>, i: nat)
    requires i < |s|
    ensures Filter(p, s[..i + 1]) == Filter(p, s[..i]) + if p(s[i]) then [s[i]] else []
  {
    assert s[..i + 1][..i] == s[..i];
  }

  function Occurrences<T(==)>(s: seq<T>, x: T): nat {
    if s == [] then 0 else (if s[0] == x then 1 else 0) + Occurrences(s[1..], x)
  }

  lemma {:induction false} OccurrencesAppend<T>(a: seq<T>, b: seq<T>, x: T)
    ensures Occurrences(a + b, x) == Occurrences(a, x) + Occurrences(b, x)
  {
    if a == [] {
      assert a + b == b;
    } else {
      assert (a + b)[1..] == a[1..] + b;
      OccurrencesAppend(a[1..], b, x);
    }
  }

  lemma {:induction false} OccurrencesInMultiset<T>(s: seq<T>, x: T)
    ensures Occurrences(s, x) == multiset(s)[x]
  {
    if s != [] {
      assert s == [s[0]] + s[1..];
      OccurrencesInMultiset(s[1..], x);
    }
  }

  lemma {:induction false} FilterOnce<T>(p: T -> bool, s: seq<T>, x: T)
    requires NoDuplicates(s)
    ensures Occurrences(Filter(p, s), x) == if x in s && p(x) then 1 else 0
  {
    if s != [] {
      var n := |s| - 1;
      var front := Filter(p, s[..n]);
      assert s == s[..n] + [s[n]];
      FilterOnce(p, s[..n], x);
      OccurrencesAppend(front, [s[n]], x);
      assert front + [] == front;
    }
  }

  /** A filter keeps everything exactly when it keeps the length. */
  lemma {:induction false} FilterAllIff<T>(p: T -> bool, s: seq<T>)
    ensures |Filter(p, s)| == |s| <==> forall x <- s :: p(x)
    ensures |Filter(p, s)| == |s| ==> Filter(p, s) == s
  {
    if s != [] {
      var n := |s| - 1;
      FilterAllIff(p, s[..n]);
      assert s == s[..n] + [s[n]];
      if forall x <- s :: p(x) { assert s[n] in s; }
    }
  }

  function Sum<T>(f: T -> nat, s: seq<T>): nat {
    if s == [] then 0 else f(s[0]) + Sum(f, s[1..])
  }

  lemma {:induction false} SumSplit<T>(f: T -> nat, a: seq<T>, b: seq<T>)
    ensures Sum(f, a + b) == Sum(f, a) + Sum(f, b)
  {
    if a == [] {
      assert a + b == b;
    } else {
      assert (a + b)[1..] == a[1..] + b;
      SumSplit(f, a[1..], b);
    }
  }

  /** Taking one element out of the middle. */
  lemma TakenOut<T>(f: T -> nat, s: seq<T>, i: nat)
    requires i < |s|
    ensures multiset(s[..i] + s[i + 1..]) == multiset(s) - multiset{s[i]}
    ensures |s[..i] + s[i + 1..]| == |s| - 1
    ensures Sum(f, s) == f(s[i]) + Sum(f, s[..i] + s[i + 1..])
  {
    assert s == s[..i] + ([s[i]] + s[i + 1..]);
    SumSplit(f, s[..i], [s[i]] + s[i + 1..]);
    SumSplit(f, s[..i], s[i + 1..]);
  }

  lemma FirstTakenOut<T>(s: seq<T>)
    requires s != []
    ensures multiset(s[1..]) == multiset(s) - multiset{s[0]}
  {
    assert s == [s[0]] + s[1..];
  }

  /** A sum does not depend on the order. */
  lemma {:induction false} SumPermuted<T>(f: T -> nat, a: seq<T>, b: seq<T>)
    requires multiset(a) == multiset(b)
    ensures Sum(f, a) == Sum(f, b) && |a| == |b|
  {
    if a == [] {
    } else {
      assert a[0] in multiset(b);
      var i :| 0 <= i < |b| && b[i] == a[0];
      FirstTakenOut(a);
      TakenOut(f, b, i);
      SumPermuted(f, a[1..], b[..i] + b[i + 1..]);
    }
  }
}
