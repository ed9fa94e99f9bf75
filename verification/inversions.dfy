/** The inversion-parity invariant of sliding-tile boards: on a board of
    odd width, no click changes the parity of the number of out-of-order
    pairs among the non-blank tiles.  Boards of different parity can
    therefore never be clicked into one another. */
module Inversions {
  import opened Tiles

  /** The tiles other than the blank, in board order. */
  function NonZero(s: seq<int>): seq<int> {
    if s == [] then [] else (if s[0] == 0 then [] else [s[0]]) + NonZero(s[1..])
  }

  /** How many entries of `t` are smaller than `x`. */
  function CountLess(t: seq<int>, x: int): nat {
    if t == [] then 0 else (if t[0] < x then 1 else 0) + CountLess(t[1..], x)
  }

  /** How many entries of `t` are larger than `x`. */
  function CountGreater(t: seq<int>, x: int): nat {
    if t == [] then 0 else (if t[0] > x then 1 else 0) + CountGreater(t[1..], x)
  }

  /** Pairs of positions i < j with t[i] > t[j]. */
  function Inv(t: seq<int>): nat {
    if t == [] then 0 else CountLess(t[1..], t[0]) + Inv(t[1..])
  }

  /** Pairs with the larger entry in `a` and the smaller in `c`. */
  function Cross(a: seq<int>, c: seq<int>): nat {
    if a == [] then 0 else CountLess(c, a[0]) + Cross(a[1..], c)
  }

  /** The parity the clicks preserve. */
  function Parity(s: seq<int>): (p: int)
    ensures p == 0 || p == 1
  {
    Inv(NonZero(s)) % 2
  }

  lemma {:induction false} NonZeroConcat(a: seq<int>, b: seq<int>)
    ensures NonZero(a + b) == NonZero(a) + NonZero(b)
  {
    if a == [] {
      assert a + b == b;
    } else {
      assert (a + b)[1..] == a[1..] + b;
      NonZeroConcat(a[1..], b);
    }
  }

  lemma {:induction false} NonZeroOfNonZero(m: seq<int>)
    requires forall k :: 0 <= k < |m| ==> m[k] != 0
    ensures NonZero(m) == m
  {
    if m != [] {
      NonZeroOfNonZero(m[1..]);
    }
  }

  lemma {:induction false} CountLessConcat(a: seq<int>, b: seq<int>, x: int)
    ensures CountLess(a + b, x) == CountLess(a, x) + CountLess(b, x)
  {
    if a == [] {
      assert a + b == b;
    } else {
      assert (a + b)[1..] == a[1..] + b;
      CountLessConcat(a[1..], b, x);
    }
  }

  lemma {:induction false} CountGreaterConcat(a: seq<int>, b: seq<int>, x: int)
    ensures CountGreater(a + b, x) == CountGreater(a, x) + CountGreater(b, x)
  {
    if a == [] {
      assert a + b == b;
    } else {
      assert (a + b)[1..] == a[1..] + b;
      CountGreaterConcat(a[1..], b, x);
    }
  }

  /** Every entry other than `x` itself is either smaller or larger. */
  lemma {:induction false} LessPlusGreater(m: seq<int>, x: int)
    requires x !in m
    ensures CountLess(m, x) + CountGreater(m, x) == |m|
  {
    if m != [] {
      LessPlusGreater(m[1..], x);
    }
  }

  lemma {:induction false} CrossConcatLeft(a: seq<int>, b: seq<int>, c: seq<int>)
    ensures Cross(a + b, c) == Cross(a, c) + Cross(b, c)
  {
    if a == [] {
      assert a + b == b;
    } else {
      assert (a + b)[1..] == a[1..] + b;
      CrossConcatLeft(a[1..], b, c);
    }
  }

  lemma {:induction false} CrossConcatRight(a: seq<int>, b: seq<int>, c: seq<int>)
    ensures Cross(a, b + c) == Cross(a, b) + Cross(a, c)
  {
    if a != [] {
      CountLessConcat(b, c, a[0]);
      CrossConcatRight(a[1..], b, c);
    }
  }

  lemma {:induction false} InvConcat(a: seq<int>, c: seq<int>)
    ensures Inv(a + c) == Inv(a) + Inv(c) + Cross(a, c)
  {
    if a == [] {
      assert a + c == c;
    } else {
      assert (a + c)[1..] == a[1..] + c;
      CountLessConcat(a[1..], c, a[0]);
      InvConcat(a[1..], c);
    }
  }

  /** Appending `x` adds one inversion per larger entry before it. */
  lemma {:induction false} InvAppend(m: seq<int>, x: int)
    ensures Inv(m + [x]) == Inv(m) + CountGreater(m, x)
  {
    if m != [] {
      assert (m + [x])[1..] == m[1..] + [x];
      CountLessConcat(m[1..], [x], m[0]);
      InvAppend(m[1..], x);
    }
  }

  /** The inversions of `a + l + b`, counted block by block. */
  lemma BlockInv(a: seq<int>, l: seq<int>, b: seq<int>)
    ensures Inv(a + l + b) == Inv(a) + Inv(l) + Inv(b) + Cross(a, l) + Cross(a, b) + Cross(l, b)
  {
    assert a + l + b == a + (l + b);
    InvConcat(a, l + b);
    InvConcat(l, b);
    CrossConcatRight(a, l, b);
  }

  /** Entries before or after a block do not see the order inside it. */
  lemma CrossSame(a: seq<int>, x: int, m: seq<int>, b: seq<int>)
    ensures Cross(a, [x] + m) == Cross(a, m + [x])
    ensures Cross([x] + m, b) == Cross(m + [x], b)
  {
    CrossConcatRight(a, [x], m);
    CrossConcatRight(a, m, [x]);
    CrossConcatLeft([x], m, b);
    CrossConcatLeft(m, [x], b);
  }

  /** Moving `x` from the front of `m` to its back trades the entries
      smaller than `x` for the larger ones. */
  lemma FrontToBack(x: int, m: seq<int>)
    requires x !in m
    ensures Inv(m + [x]) == Inv([x] + m) + |m| - 2 * CountLess(m, x)
  {
    assert ([x] + m)[1..] == m;
    InvAppend(m, x);
    LessPlusGreater(m, x);
  }

  lemma ParityShift(before: int, after: int, n: int, c: int)
    requires after == before + n - 2 * c
    ensures (before + n) % 2 == after % 2
  {
    assert after == (before + n) + 2 * (-c);
  }

  /** Moving one entry `x` across a block `m` of other entries changes the
      inversion count by a number of the same parity as `|m|`. */
  lemma MoveAcross(a: seq<int>, x: int, m: seq<int>, b: seq<int>)
    requires x !in m
    ensures (Inv(a + [x] + m + b) + |m|) % 2 == Inv(a + m + [x] + b) % 2
  {
    var front, back := [x] + m, m + [x];
    assert a + [x] + m + b == a + front + b;
    assert a + m + [x] + b == a + back + b;
    CrossSame(a, x, m, b);
    BlockInv(a, front, b);
    BlockInv(a, back, b);
    FrontToBack(x, m);
    ParityShift(Inv(a + front + b), Inv(a + back + b), |m|, CountLess(m, x));
  }

  lemma Cut(s: seq<int>, lo: int, hi: int)
    requires 0 <= lo < hi < |s|
    ensures s == s[..lo] + [s[lo]] + s[lo + 1..hi] + [s[hi]] + s[hi + 1..]
  {
    assert s == s[..hi + 1] + s[hi + 1..];
    assert s[..hi + 1] == s[..hi] + [s[hi]];
    assert s[..hi] == s[..lo + 1] + s[lo + 1..hi];
    assert s[..lo + 1] == s[..lo] + [s[lo]];
  }

  /** Cutting a board around two cells `lo < hi` cuts its tile list too. */
  lemma NonZeroSplit(s: seq<int>, lo: int, hi: int)
    requires 0 <= lo < hi < |s|
    ensures NonZero(s) == NonZero(s[..lo]) + NonZero([s[lo]]) + NonZero(s[lo + 1..hi])
                          + NonZero([s[hi]]) + NonZero(s[hi + 1..])
  {
    Cut(s, lo, hi);
    var p, a, m, b, q := s[..lo], [s[lo]], s[lo + 1..hi], [s[hi]], s[hi + 1..];
    NonZeroConcat(p + a + m + b, q);
    NonZeroConcat(p + a + m, b);
    NonZeroConcat(p + a, m);
    NonZeroConcat(p, a);
  }

  /** The cells strictly between two cells of a permutation hold neither
      of their values. */
  lemma MiddleTiles(s: seq<int>, n: nat, lo: int, hi: int)
    requires IsPerm(s, n) && 0 <= lo < hi < |s|
    ensures forall k :: lo < k < hi ==> s[k] != s[lo] && s[k] != s[hi]
  {
    forall k | lo < k < hi
      ensures s[k] != s[lo] && s[k] != s[hi]
    {
      if s[k] == s[lo] {
        PermDistinct(s, n, k, lo);
      }
      if s[k] == s[hi] {
        PermDistinct(s, n, k, hi);
      }
    }
  }

  /** The stretch strictly between the blank and a tile holds neither. */
  lemma MiddleBlock(s: seq<int>, n: nat, lo: int, hi: int, x: int)
    requires IsPerm(s, n) && 0 <= lo < hi < |s|
    requires (s[lo] == 0 && s[hi] == x) || (s[hi] == 0 && s[lo] == x)
    ensures x !in s[lo + 1..hi]
    ensures NonZero(s[lo + 1..hi]) == s[lo + 1..hi]
  {
    var m := s[lo + 1..hi];
    MiddleTiles(s, n, lo, hi);
    assert forall k :: 0 <= k < |m| ==> m[k] != 0 && m[k] != x by {
      forall k | 0 <= k < |m|
        ensures m[k] != 0 && m[k] != x
      {
        assert m[k] == s[lo + 1 + k];
      }
    }
    NonZeroOfNonZero(m);
  }

  /** The tile list of a board whose cells `lo` and `hi` hold `a` and `b`. */
  lemma NonZeroAround(s: seq<int>, lo: int, hi: int, a: int, b: int)
    requires 0 <= lo < hi < |s| && s[lo] == a && s[hi] == b
    ensures NonZero(s) == NonZero(s[..lo]) + NonZero([a]) + NonZero(s[lo + 1..hi])
                          + NonZero([b]) + NonZero(s[hi + 1..])
  {
    NonZeroSplit(s, lo, hi);
  }

  /** Swapping the blank at one end of a stretch with the tile `x` at the
      other end moves `x` across the tiles in between. */
  lemma SwapShape(s: seq<int>, lo: int, hi: int, x: int)
    returns (p: seq<int>, mid: seq<int>, q: seq<int>)
    requires 0 <= lo < hi < |s| && x != 0
    requires (s[lo] == 0 && s[hi] == x) || (s[hi] == 0 && s[lo] == x)
    requires x !in s[lo + 1..hi] && NonZero(s[lo + 1..hi]) == s[lo + 1..hi]
    ensures x !in mid && |mid| == hi - lo - 1
    ensures s[lo] == 0 ==> NonZero(s) == p + mid + [x] + q && NonZero(Swap(s, lo, hi)) == p + [x] + mid + q
    ensures s[hi] == 0 ==> NonZero(s) == p + [x] + mid + q && NonZero(Swap(s, lo, hi)) == p + mid + [x] + q
  {
    var t := Swap(s, lo, hi);
    p, mid, q := NonZero(s[..lo]), s[lo + 1..hi], NonZero(s[hi + 1..]);
    if s[lo] == 0 {
      assert NonZero(s) == p + mid + [x] + q by {
        NonZeroAround(s, lo, hi, 0, x);
        assert NonZero([0]) == [] && NonZero([x]) == [x];
        assert p + [] == p;
      }
      assert NonZero(t) == p + [x] + mid + q by {
        SwapSlices(s, lo, hi);
        NonZeroAround(t, lo, hi, x, 0);
        assert NonZero([0]) == [] && NonZero([x]) == [x];
        assert p + [x] + mid + [] == p + [x] + mid;
      }
    } else {
      assert NonZero(s) == p + [x] + mid + q by {
        NonZeroAround(s, lo, hi, x, 0);
        assert NonZero([0]) == [] && NonZero([x]) == [x];
        assert p + [x] + mid + [] == p + [x] + mid;
      }
      assert NonZero(t) == p + mid + [x] + q by {
        SwapSlices(s, lo, hi);
        NonZeroAround(t, lo, hi, 0, x);
        assert NonZero([0]) == [] && NonZero([x]) == [x];
        assert p + [] == p;
      }
    }
  }

  lemma SwapSlices(s: seq<int>, lo: int, hi: int)
    requires 0 <= lo < hi < |s|
    ensures var t := Swap(s, lo, hi);
      t[..lo] == s[..lo] && t[lo + 1..hi] == s[lo + 1..hi] && t[hi + 1..] == s[hi + 1..]
  {
  }

  /** A click moves one tile across either no tiles (a move within a row)
      or the `w - 1` tiles between it and the blank (a move between rows). */
  lemma SlideShape(s: seq<int>, w: nat, i: int)
    returns (p: seq<int>, x: int, mid: seq<int>, q: seq<int>)
    requires w > 0 && IsPerm(s, w * w) && 0 <= i < w * w
    requires Adjacent(i, Blank(s, w), w)
    ensures x !in mid
    ensures |mid| == 0 || |mid| == w - 1
    ensures (NonZero(s) == p + [x] + mid + q && NonZero(Slide(s, w, i)) == p + mid + [x] + q)
         || (NonZero(s) == p + mid + [x] + q && NonZero(Slide(s, w, i)) == p + [x] + mid + q)
  {
    PermFacts(s, w * w);
    var e := Blank(s, w);
    AdjacentOffsets(e, i, w);
    assert Slide(s, w, i) == Swap(s, i, e);
    x := s[i];
    if x == 0 {
      PermDistinct(s, w * w, i, e);
    }
    assert Swap(s, i, e) == Swap(s, e, i);
    if i < e {
      MiddleBlock(s, w * w, i, e, x);
      p, mid, q := SwapShape(s, i, e, x);
    } else {
      MiddleBlock(s, w * w, e, i, x);
      p, mid, q := SwapShape(s, e, i, x);
    }
  }

  /** On a board of odd width, a click never changes the parity. */
  lemma SlideKeepsParity(s: seq<int>, w: nat, i: int)
    requires w > 0 && w % 2 == 1 && IsPerm(s, w * w) && 0 <= i < w * w
    ensures Parity(Slide(s, w, i)) == Parity(s)
  {
    if Adjacent(i, Blank(s, w), w) {
      var p, x, mid, q := SlideShape(s, w, i);
      ShapeKeepsParity(NonZero(s), NonZero(Slide(s, w, i)), p, x, mid, q, w);
    } else {
      assert Slide(s, w, i) == s;
    }
  }

  /** Tile lists of the shape `SlideShape` describes have equal parity. */
  lemma ShapeKeepsParity(u: seq<int>, v: seq<int>, p: seq<int>, x: int, mid: seq<int>, q: seq<int>, w: int)
    requires w % 2 == 1 && x !in mid && (|mid| == 0 || |mid| == w - 1)
    requires (u == p + [x] + mid + q && v == p + mid + [x] + q)
          || (u == p + mid + [x] + q && v == p + [x] + mid + q)
    ensures Inv(v) % 2 == Inv(u) % 2
  {
    MoveAcross(p, x, mid, q);
    EvenGap(|mid|, w);
    SameParity(Inv(u), Inv(v), |mid|);
  }

  /** The number of tiles a click moves across is even on an odd width. */
  lemma EvenGap(n: int, w: int)
    requires w % 2 == 1 && (n == 0 || n == w - 1)
    ensures n % 2 == 0
  {
  }

  /** Changing by an even amount, either way round, keeps the parity. */
  lemma SameParity(a: int, b: int, n: int)
    requires n % 2 == 0
    requires (a + n) % 2 == b % 2 || (b + n) % 2 == a % 2
    ensures a % 2 == b % 2
  {
  }

  lemma {:induction false} PlayKeepsParity(s: seq<int>, w: nat, clicks: seq<int>)
    requires w > 0 && w % 2 == 1 && IsPerm(s, w * w) && InGrid(clicks, w)
    ensures Parity(Play(s, w, clicks)) == Parity(s)
    decreases |clicks|
  {
    if clicks != [] {
      SlideKeepsParity(s, w, clicks[0]);
      PlayKeepsParity(Slide(s, w, clicks[0]), w, clicks[1..]);
    }
  }

  /** Boards of different parity cannot be clicked into one another. */
  lemma ParityBlocksSolving(s: seq<int>, w: nat, goal: seq<int>)
    requires w > 0 && w % 2 == 1 && IsPerm(s, w * w)
    requires Parity(s) != Parity(goal)
    ensures !Solvable(s, w, goal)
  {
    if Solvable(s, w, goal) {
      var clicks :| InGrid(clicks, w) && Play(s, w, clicks) == goal;
      PlayKeepsParity(s, w, clicks);
    }
  }

  /** Nothing in `t` is smaller than `x`. */
  lemma {:induction false} NoneLess(t: seq<int>, x: int)
    requires forall k :: 0 <= k < |t| ==> x <= t[k]
    ensures CountLess(t, x) == 0
  {
    if t != [] {
      NoneLess(t[1..], x);
    }
  }

  /** An increasing run has no out-of-order pair. */
  lemma {:induction false} IncreasingHasNoInversions(t: seq<int>)
    requires forall i, j :: 0 <= i < j < |t| ==> t[i] < t[j]
    ensures Inv(t) == 0
  {
    if t != [] {
      NoneLess(t[1..], t[0]);
      IncreasingHasNoInversions(t[1..]);
    }
  }

  /** No pair crosses from `a` to `c` when every entry of `a` lies below
      every entry of `c`. */
  lemma {:induction false} NoCross(a: seq<int>, c: seq<int>)
    requires forall i, j :: 0 <= i < |a| && 0 <= j < |c| ==> a[i] <= c[j]
    ensures Cross(a, c) == 0
  {
    if a != [] {
      NoneLess(c, a[0]);
      NoCross(a[1..], c);
    }
  }
}
