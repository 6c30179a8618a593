/** The seven-piece bag: the Fisher-Yates `shuffle` and `getNextTetromino` of tetris.js.
    The random index of each shuffle step is an argument instead of a call to Math.random. */
module Sequencer {
  import opened Shapes
  import opened Seqs

  /** Exchanges the elements at `i` and `j`, as the destructuring assignment does. */
  function Swap<A>(a: seq<A>, i: nat, j: nat): (r: seq<A>)
    requires i < |a| && j < |a|
    ensures |r| == |a| && r[i] == a[j] && r[j] == a[i]
    ensures forall k :: 0 <= k < |a| && k != i && k != j ==> r[k] == a[k]
    ensures multiset(r) == multiset(a)
  {
    a[i := a[j]][j := a[i]]
  }

  /** `picks` are the random indices of the shuffle steps for i, i-1, ..., 1:
      the step for `i` swaps position `i` with a position in [0, i]. */
  predicate PicksFor(i: nat, picks: seq<int>) {
    |picks| == i && forall k :: 0 <= k < i ==> 0 <= picks[k] <= i - k
  }

  /** The random indices a shuffle of an `n`-element array consumes. */
  predicate ValidPicks(n: nat, picks: seq<int>) {
    PicksFor(if n == 0 then 0 else n - 1, picks)
  }

  /** The shuffle loop from index i = |picks| down to 1, one pick per step. Positions
      above i are already final. */
  function ShuffleDown<A>(a: seq<A>, picks: seq<int>): (r: seq<A>)
    requires |picks| < |a| && PicksFor(|picks|, picks)
    ensures |r| == |a| && multiset(r) == multiset(a)
    ensures forall k :: |picks| < k < |a| ==> r[k] == a[k]
    decreases |picks|
  {
    if |picks| == 0 then a
    else ShuffleDown(Swap(a, |picks|, picks[0]), picks[1..])
  }

  /** Fisher-Yates: a rearrangement of `a` chosen by the random indices `picks`. */
  function Shuffle<A>(a: seq<A>, picks: seq<int>): (r: seq<A>)
    requires ValidPicks(|a|, picks)
    ensures |r| == |a| && multiset(r) == multiset(a)
  {
    if |a| == 0 then a else ShuffleDown(a, picks)
  }

  /** Every arrangement of the prefix a[..i+1] can come out of the loop from `i` down. */
  lemma {:induction false} ShuffleDownReaches<A>(a: seq<A>, b: seq<A>, i: nat)
    requires i < |a| && |a| == |b|
    requires multiset(a[..i + 1]) == multiset(b[..i + 1])
    requires forall k :: i < k < |a| ==> a[k] == b[k]
    ensures exists picks :: PicksFor(i, picks) && ShuffleDown(a, picks) == b
    decreases i
  {
    if i == 0 {
      assert a[..1] == [a[0]] && b[..1] == [b[0]];
      assert multiset{a[0]}[b[0]] > 0;
      assert a == b;
      assert PicksFor(0, []) && ShuffleDown(a, []) == b;
    } else {
      var j := PickFor(a, b, i);
      var a' := Swap(a, i, j);
      ShuffleDownReaches(a', b, i - 1);
      var rest :| PicksFor(i - 1, rest) && ShuffleDown(a', rest) == b;
      var picks := ConsPick(i, j, rest);
      assert ShuffleDown(a, picks) == ShuffleDown(a', rest);
    }
  }

  /** The index the step for `i` must pick so that position `i` ends up as in `b`;
      after that swap the prefix a[..i] holds the elements of b[..i]. */
  lemma PickFor<A>(a: seq<A>, b: seq<A>, i: nat) returns (j: nat)
    requires 0 < i < |a| && |a| == |b|
    requires multiset(a[..i + 1]) == multiset(b[..i + 1])
    requires forall k :: i < k < |a| ==> a[k] == b[k]
    ensures j <= i
    ensures multiset(Swap(a, i, j)[..i]) == multiset(b[..i])
    ensures forall k :: i - 1 < k < |a| ==> Swap(a, i, j)[k] == b[k]
  {
    PrefixSnoc(b, i);
    var p := a[..i + 1];
    assert b[i] in multiset(p);
    j :| 0 <= j <= i && p[j] == b[i];
    var a' := Swap(a, i, j);
    SwapInPrefix(a, i, j);
    PrefixSnoc(a', i);
    Cancel(multiset(a'[..i]), multiset(b[..i]), b[i]);
  }

  /** The picks for the loop from `i` are the pick for `i` followed by those from i - 1. */
  lemma ConsPick(i: nat, j: nat, rest: seq<int>) returns (picks: seq<int>)
    requires 0 < i && j <= i && PicksFor(i - 1, rest)
    ensures picks == [j] + rest
    ensures PicksFor(i, picks) && |picks| == i && picks[0] == j && picks[1..] == rest
  {
    picks := [j] + rest;
    assert picks[1..] == rest;
  }

  lemma PrefixSnoc<A>(s: seq<A>, i: nat)
    requires i < |s|
    ensures multiset(s[..i + 1]) == multiset(s[..i]) + multiset{s[i]}
  {
    assert s[..i + 1] == s[..i] + [s[i]];
  }

  lemma SwapInPrefix<A>(a: seq<A>, i: nat, j: nat)
    requires j <= i < |a|
    ensures multiset(Swap(a, i, j)[..i + 1]) == multiset(a[..i + 1])
  {
    var p := a[..i + 1];
    assert Swap(a, i, j)[..i + 1] == Swap(p, i, j);
  }

  lemma Cancel<A>(x: multiset<A>, y: multiset<A>, v: A)
    requires x + multiset{v} == y + multiset{v}
    ensures x == y
  {
    assert x == (x + multiset{v}) - multiset{v};
    assert y == (y + multiset{v}) - multiset{v};
  }

  /** Every rearrangement of `a` is the outcome of some choice of random indices. */
  lemma ShuffleReachesEveryOrder<A>(a: seq<A>, b: seq<A>)
    requires multiset(a) == multiset(b)
    ensures exists picks :: ValidPicks(|a|, picks) && Shuffle(a, picks) == b
  {
    assert |a| == |multiset(a)| == |multiset(b)| == |b|;
    if |a| == 0 {
      assert ValidPicks(0, []) && Shuffle(a, []) == b;
    } else {
      assert a[..|a|] == a && b[..|b|] == b;
      ShuffleDownReaches(a, b, |a| - 1);
      var picks :| PicksFor(|a| - 1, picks) && ShuffleDown(a, picks) == b;
      assert ValidPicks(|a|, picks) && Shuffle(a, picks) == b;
    }
  }

  // ---------------------------------------------------------------------------
  // The bag
  // ---------------------------------------------------------------------------

  /** The result of `getNextTetromino`: the kind, its base matrix, and the bag left over. */
  datatype Draw = Draw(kind: PieceKind, matrix: Matrix, bag: seq<PieceKind>)

  /** `getNextTetromino` over the list `keys` of the table's kinds: an empty bag is
      refilled with `keys` and shuffled with `picks`; then the last kind of the bag is
      popped and paired with its base matrix. A non-empty bag ignores `picks`. */
  function NextPiece(keys: seq<PieceKind>, bag: seq<PieceKind>, picks: seq<int>): (d: Draw)
    requires |keys| > 0 && ValidPicks(|keys|, picks)
  {
    var full := if |bag| == 0 then Shuffle(keys, picks) else bag;
    var kind := full[|full| - 1];
    Draw(kind, BaseMatrix(kind), full[..|full| - 1])
  }

  /** A draw hands out the base matrix of its kind; it pops the last kind of a non-empty
      bag, and from an empty bag it deals one kind of a fresh copy of `keys`, leaving
      the others in the bag. */
  lemma NextPieceDraws(keys: seq<PieceKind>, bag: seq<PieceKind>, picks: seq<int>)
    requires |keys| > 0 && ValidPicks(|keys|, picks)
    ensures var d := NextPiece(keys, bag, picks);
      && d.matrix == BaseMatrix(d.kind)
      && (|bag| > 0 ==> d.kind == bag[|bag| - 1] && d.bag == bag[..|bag| - 1])
      && (|bag| == 0 ==> multiset(d.bag + [d.kind]) == multiset(keys) && |d.bag| == |keys| - 1)
  {
    var d := NextPiece(keys, bag, picks);
    if |bag| == 0 {
      var full := Shuffle(keys, picks);
      assert d.bag + [d.kind] == full;
    }
  }

  /** Every entry of `rounds` is randomness a refill of `n` kinds could consume. */
  predicate AllValid(n: nat, rounds: seq<seq<int>>) {
    |rounds| == 0 || (ValidPicks(n, rounds[0]) && AllValid(n, rounds[1..]))
  }

  /** The kinds drawn, in order, by one draw per entry of `rounds`, each entry being the
      randomness available to that draw. */
  function Drawn(keys: seq<PieceKind>, bag: seq<PieceKind>, rounds: seq<seq<int>>): (kinds: seq<PieceKind>)
    requires |keys| > 0 && AllValid(|keys|, rounds)
    ensures |kinds| == |rounds|
    decreases |rounds|
  {
    if |rounds| == 0 then []
    else
      var d := NextPiece(keys, bag, rounds[0]);
      [d.kind] + Drawn(keys, d.bag, rounds[1..])
  }

  /** The bag left over after one draw per entry of `rounds`. */
  function Left(keys: seq<PieceKind>, bag: seq<PieceKind>, rounds: seq<seq<int>>): (rest: seq<PieceKind>)
    requires |keys| > 0 && AllValid(|keys|, rounds)
    decreases |rounds|
  {
    if |rounds| == 0 then bag
    else Left(keys, NextPiece(keys, bag, rounds[0]).bag, rounds[1..])
  }

  /** While the bag lasts, draws take its kinds from the end. */
  lemma {:induction false} DrawFromBag(keys: seq<PieceKind>, bag: seq<PieceKind>, rounds: seq<seq<int>>)
    requires |keys| > 0 && AllValid(|keys|, rounds) && |rounds| <= |bag|
    ensures forall k :: 0 <= k < |rounds| ==> Drawn(keys, bag, rounds)[k] == bag[|bag| - 1 - k]
    ensures Left(keys, bag, rounds) == bag[..|bag| - |rounds|]
    decreases |rounds|
  {
    if |rounds| > 0 {
      var d := NextPiece(keys, bag, rounds[0]);
      NextPieceDraws(keys, bag, rounds[0]);
      DrawFromBag(keys, d.bag, rounds[1..]);
    }
  }

  lemma {:induction false} AllValidConcat(n: nat, r1: seq<seq<int>>, r2: seq<seq<int>>)
    ensures AllValid(n, r1 + r2) <==> AllValid(n, r1) && AllValid(n, r2)
    decreases |r1|
  {
    if |r1| > 0 {
      assert (r1 + r2)[0] == r1[0];
      assert (r1 + r2)[1..] == r1[1..] + r2;
      AllValidConcat(n, r1[1..], r2);
    } else {
      assert r1 + r2 == r2;
    }
  }

  /** Drawing for `r1 + r2` is drawing for `r1` and then for `r2` from what is left. */
  lemma {:induction false} DrawSplit(keys: seq<PieceKind>, bag: seq<PieceKind>, r1: seq<seq<int>>, r2: seq<seq<int>>)
    requires |keys| > 0 && AllValid(|keys|, r1) && AllValid(|keys|, r2)
    ensures AllValid(|keys|, r1 + r2)
    ensures Left(keys, bag, r1 + r2) == Left(keys, Left(keys, bag, r1), r2)
    ensures Drawn(keys, bag, r1 + r2) == Drawn(keys, bag, r1) + Drawn(keys, Left(keys, bag, r1), r2)
    decreases |r1|
  {
    AllValidConcat(|keys|, r1, r2);
    if |r1| > 0 {
      var d := NextPiece(keys, bag, r1[0]);
      var r := r1 + r2;
      assert r[0] == r1[0];
      assert r[1..] == r1[1..] + r2;
      DrawSplit(keys, d.bag, r1[1..], r2);
      assert Drawn(keys, bag, r) == [d.kind] + Drawn(keys, d.bag, r[1..]);
      assert Drawn(keys, bag, r1) == [d.kind] + Drawn(keys, d.bag, r1[1..]);
    } else {
      assert r1 + r2 == r2;
    }
  }

  /** From an empty bag, |keys| draws hand out a rearrangement of `keys` and empty the
      bag again. */
  lemma OneRound(keys: seq<PieceKind>, rounds: seq<seq<int>>)
    requires |keys| > 0 && AllValid(|keys|, rounds) && |rounds| == |keys|
    ensures multiset(Drawn(keys, [], rounds)) == multiset(keys)
    ensures Left(keys, [], rounds) == []
  {
    var d := NextPiece(keys, [], rounds[0]);
    FirstDraw(keys, rounds);
    RestOfRound(keys, rounds);
    NextPieceDraws(keys, [], rounds[0]);
    var tail := Drawn(keys, d.bag, rounds[1..]);
    ReverseMultiset(d.bag);
    assert multiset(d.bag + [d.kind]) == multiset(d.bag) + multiset{d.kind};
    assert multiset([d.kind] + tail) == multiset{d.kind} + multiset(tail);
  }

  /** After the refill, the other draws of the round empty the bag from its end. */
  lemma RestOfRound(keys: seq<PieceKind>, rounds: seq<seq<int>>)
    requires |keys| > 0 && AllValid(|keys|, rounds) && |rounds| == |keys|
    ensures var d := NextPiece(keys, [], rounds[0]);
      && Drawn(keys, d.bag, rounds[1..]) == Reverse(d.bag)
      && Left(keys, d.bag, rounds[1..]) == []
  {
    var d := NextPiece(keys, [], rounds[0]);
    NextPieceDraws(keys, [], rounds[0]);
    DrawFromBag(keys, d.bag, rounds[1..]);
  }

  /** The first draw from an empty bag refills it with a shuffled copy of `keys` and
      takes the last kind of that copy; later draws come from the rest of the copy. */
  lemma FirstDraw(keys: seq<PieceKind>, rounds: seq<seq<int>>)
    requires |keys| > 0 && AllValid(|keys|, rounds) && |rounds| > 0
    ensures var d := NextPiece(keys, [], rounds[0]);
      && Drawn(keys, [], rounds) == [d.kind] + Drawn(keys, d.bag, rounds[1..])
      && Left(keys, [], rounds) == Left(keys, d.bag, rounds[1..])
    ensures var full := Shuffle(keys, rounds[0]);
      && Drawn(keys, [], rounds)[0] == full[|keys| - 1]
      && Drawn(keys, [], rounds)[1..] == Drawn(keys, full[..|keys| - 1], rounds[1..])
      && Left(keys, [], rounds) == Left(keys, full[..|keys| - 1], rounds[1..])
  {
    var d := NextPiece(keys, [], rounds[0]);
    var full := Shuffle(keys, rounds[0]);
    assert d.kind == full[|keys| - 1] && d.bag == full[..|keys| - 1];
  }

  /** A full bag holds one of each of the seven kinds. */
  const BagSize := 7

  /** The `w`-th run of `BagSize` consecutive draws. */
  function Window(s: seq<PieceKind>, w: nat): (round: seq<PieceKind>)
    requires BagSize * w + BagSize <= |s|
  {
    s[BagSize * w..BagSize * w + BagSize]
  }

  /** Windows of `first + later` past the first are windows of `later`. */
  lemma WindowShift(first: seq<PieceKind>, later: seq<PieceKind>, w: nat)
    requires |first| == BagSize && BagSize * w + BagSize <= |first| + |later|
    ensures w == 0 ==> Window(first + later, w) == first
    ensures w > 0 ==> Window(first + later, w) == Window(later, w - 1)
  {
  }

  /** Starting from an empty bag of seven keys, every run of seven draws that begins at
      a multiple of seven is a rearrangement of the keys, and the bag is empty after
      each such run. */
  lemma {:induction false} EveryRoundIsAPermutation(keys: seq<PieceKind>, rounds: seq<seq<int>>, m: nat)
    requires |keys| == BagSize && AllValid(BagSize, rounds) && |rounds| == BagSize * m
    ensures Left(keys, [], rounds) == []
    ensures forall w :: 0 <= w < m ==> multiset(Window(Drawn(keys, [], rounds), w)) == multiset(keys)
    decreases m
  {
    if m == 0 {
      assert rounds == [];
    } else {
      var r1 := rounds[..BagSize];
      var r2 := rounds[BagSize..];
      assert rounds == r1 + r2;
      AllValidConcat(BagSize, r1, r2);
      DrawSplit(keys, [], r1, r2);
      OneRound(keys, r1);
      EveryRoundIsAPermutation(keys, r2, m - 1);
      var all := Drawn(keys, [], rounds);
      var first := Drawn(keys, [], r1);
      var later := Drawn(keys, [], r2);
      assert all == first + later;
      forall w | 0 <= w < m
        ensures multiset(Window(all, w)) == multiset(keys)
      {
        WindowShift(first, later, w);
      }
    }
  }

  /** The game's bag: starting empty, every seven consecutive pieces (counted from the
      first) are the seven kinds, each exactly once. */
  lemma BagDealsEachKindOncePerRound(rounds: seq<seq<int>>, m: nat)
    requires AllValid(BagSize, rounds) && |rounds| == BagSize * m
    ensures forall w, k: PieceKind :: 0 <= w < m ==>
      multiset(Window(Drawn(AllKinds, [], rounds), w))[k] == 1
  {
    EveryRoundIsAPermutation(AllKinds, rounds, m);
    AllKindsOnce();
  }

  /** Draws for a longer list of randomness begin with the draws for a prefix of it. */
  lemma DrawnPrefix(keys: seq<PieceKind>, bag: seq<PieceKind>, rounds: seq<seq<int>>, n: nat)
    requires |keys| > 0 && AllValid(|keys|, rounds) && n <= |rounds|
    ensures AllValid(|keys|, rounds[..n])
    ensures Drawn(keys, bag, rounds)[..n] == Drawn(keys, bag, rounds[..n])
  {
    var head := rounds[..n];
    var tail := rounds[n..];
    assert rounds == head + tail;
    AllValidConcat(|keys|, head, tail);
    DrawSplit(keys, bag, head, tail);
  }

  /** Any number of draws from an empty bag, not necessarily whole rounds: every complete
      aligned window of seven is a rearrangement of the keys. */
  lemma EveryCompleteRoundIsAPermutation(keys: seq<PieceKind>, rounds: seq<seq<int>>)
    requires |keys| == BagSize && AllValid(BagSize, rounds)
    ensures var dealt := Drawn(keys, [], rounds);
      forall w :: 0 <= w && BagSize * w + BagSize <= |dealt| ==>
        multiset(Window(dealt, w)) == multiset(keys)
  {
    var m := |rounds| / BagSize;
    DrawnPrefix(keys, [], rounds, BagSize * m);
    var whole := rounds[..BagSize * m];
    EveryRoundIsAPermutation(keys, whole, m);
    var dealt := Drawn(keys, [], rounds);
    var first := Drawn(keys, [], whole);
    forall w | 0 <= w && BagSize * w + BagSize <= |dealt|
      ensures multiset(Window(dealt, w)) == multiset(keys)
    {
      assert w < m;
      assert Window(dealt, w) == Window(first, w);
    }
  }

  /** The game's bag after any number of draws: every complete aligned window of seven
      holds each kind exactly once. */
  lemma EveryCompleteRoundDealsEachKindOnce(rounds: seq<seq<int>>)
    requires AllValid(BagSize, rounds)
    ensures var dealt := Drawn(AllKinds, [], rounds);
      forall w, k: PieceKind :: 0 <= w && BagSize * w + BagSize <= |dealt| ==>
        multiset(Window(dealt, w))[k] == 1
  {
    AllKindsOnce();
    EveryCompleteRoundIsAPermutation(AllKinds, rounds);
  }
}
