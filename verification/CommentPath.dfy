/** The materialised comment path of database-assessment/schema.sql (section 4) and the scans over it in
    sections 5 and 5b of database-assessment/queries.sql. Strings compare by character code, shorter first. */
module CommentPath {

  /** Sibling positions from the top-level comment down; each is written with four digits. */
  type Path = seq<int>

  predicate ValidPath(p: Path) {
    forall i | 0 <= i < |p| :: 1 <= p[i] <= 9999
  }

  function Digit(d: int): char
    requires 0 <= d <= 9
  {
    '0' + d as char
  }

  function Pad4(n: int): string
    requires 0 <= n <= 9999
  {
    [Digit(n / 1000), Digit(n / 100 % 10), Digit(n / 10 % 10), Digit(n % 10)]
  }

  function Tail(p: Path): string
    requires ValidPath(p)
  {
    if p == [] then "" else "." + Pad4(p[0]) + Tail(p[1..])
  }

  /** '0001', '0001.0003', '0001.0003.0002'. */
  function Encode(p: Path): string
    requires ValidPath(p) && p != []
  {
    Pad4(p[0]) + Tail(p[1..])
  }

  predicate StrLess(a: string, b: string) {
    if b == "" then false
    else if a == "" then true
    else a[0] < b[0] || (a[0] == b[0] && StrLess(a[1..], b[1..]))
  }

  /** Reading order: a comment comes before its replies, and siblings in position order with all their replies. */
  predicate PreOrder(p: Path, q: Path) {
    if q == [] then false
    else if p == [] then true
    else p[0] < q[0] || (p[0] == q[0] && PreOrder(p[1..], q[1..]))
  }

  predicate Descendant(q: Path, p: Path) {
    |p| < |q| && q[..|p|] == p
  }

  // ---- Comparing segment by segment ----

  lemma StrLessCons(c: char, d: char, x: string, y: string)
    ensures StrLess([c] + x, [d] + y) <==> c < d || (c == d && StrLess(x, y))
  {
    assert ([c] + x)[1..] == x && ([d] + y)[1..] == y;
  }

  lemma StrLessTwo(a: char, b: char, c: char, d: char, x: string, y: string)
    ensures StrLess([a, b] + x, [c, d] + y) <==> a < c || (a == c && (b < d || (b == d && StrLess(x, y))))
  {
    StrLessCons(a, c, [b] + x, [d] + y);
    StrLessCons(b, d, x, y);
    assert [a, b] + x == [a] + ([b] + x) && [c, d] + y == [c] + ([d] + y);
  }

  lemma StrLessFour(a: string, b: string, x: string, y: string)
    requires |a| == |b| == 4
    ensures StrLess(a + x, b + y) <==>
      || a[0] < b[0]
      || (a[0] == b[0] && a[1] < b[1])
      || (a[0] == b[0] && a[1] == b[1] && a[2] < b[2])
      || (a[0] == b[0] && a[1] == b[1] && a[2] == b[2] && a[3] < b[3])
      || (a == b && StrLess(x, y))
  {
    StrLessTwo(a[0], a[1], b[0], b[1], [a[2], a[3]] + x, [b[2], b[3]] + y);
    StrLessTwo(a[2], a[3], b[2], b[3], x, y);
    FourIsTwoAndTwo(a, x);
    FourIsTwoAndTwo(b, y);
    assert a == b <==> a[0] == b[0] && a[1] == b[1] && a[2] == b[2] && a[3] == b[3];
  }

  lemma FourIsTwoAndTwo(a: string, x: string)
    requires |a| == 4
    ensures a + x == [a[0], a[1]] + ([a[2], a[3]] + x)
  {
  }

  lemma DigitsSpell(n: int)
    requires 0 <= n <= 9999
    ensures n == 1000 * (n / 1000) + 100 * (n / 100 % 10) + 10 * (n / 10 % 10) + n % 10
  {
    assert n / 100 == 10 * (n / 1000) + n / 100 % 10;
    assert n / 10 == 10 * (n / 100) + n / 10 % 10;
  }

  lemma DigitsCompare(a: int, b: int, c: int, d: int, a': int, b': int, c': int, d': int)
    requires 0 <= a <= 9 && 0 <= b <= 9 && 0 <= c <= 9 && 0 <= d <= 9
    requires 0 <= a' <= 9 && 0 <= b' <= 9 && 0 <= c' <= 9 && 0 <= d' <= 9
    ensures 1000 * a + 100 * b + 10 * c + d < 1000 * a' + 100 * b' + 10 * c' + d' <==>
      a < a' || (a == a' && (b < b' || (b == b' && (c < c' || (c == c' && d < d')))))
    ensures 1000 * a + 100 * b + 10 * c + d == 1000 * a' + 100 * b' + 10 * c' + d' <==>
      a == a' && b == b' && c == c' && d == d'
  {
  }

  lemma DigitOrder(x: int, y: int)
    requires 0 <= x <= 9 && 0 <= y <= 9
    ensures Digit(x) < Digit(y) <==> x < y
    ensures Digit(x) == Digit(y) <==> x == y
  {
  }

  lemma PadsCompare(n: int, m: int)
    requires 0 <= n <= 9999 && 0 <= m <= 9999
    ensures var a, b := Pad4(n), Pad4(m);
      n < m <==>
        a[0] < b[0] || (a[0] == b[0] &&
          (a[1] < b[1] || (a[1] == b[1] && (a[2] < b[2] || (a[2] == b[2] && a[3] < b[3])))))
    ensures n == m <==> Pad4(n) == Pad4(m)
  {
    DigitsSpell(n);
    DigitsSpell(m);
    DigitsCompare(n / 1000, n / 100 % 10, n / 10 % 10, n % 10, m / 1000, m / 100 % 10, m / 10 % 10, m % 10);
    DigitOrder(n / 1000, m / 1000);
    DigitOrder(n / 100 % 10, m / 100 % 10);
    DigitOrder(n / 10 % 10, m / 10 % 10);
    DigitOrder(n % 10, m % 10);
    assert Pad4(n) == Pad4(m) ==>
      Pad4(n)[0] == Pad4(m)[0] && Pad4(n)[1] == Pad4(m)[1] && Pad4(n)[2] == Pad4(m)[2] && Pad4(n)[3] == Pad4(m)[3];
  }

  /** Four-digit segments compare as the numbers they spell, and only then what follows them. */
  lemma SegmentsCompare(n: int, m: int, x: string, y: string)
    requires 0 <= n <= 9999 && 0 <= m <= 9999
    ensures StrLess(Pad4(n) + x, Pad4(m) + y) <==> n < m || (n == m && StrLess(x, y))
  {
    StrLessFour(Pad4(n), Pad4(m), x, y);
    PadsCompare(n, m);
  }

  lemma DigitSpells(d: int)
    requires 0 <= d <= 9
    ensures '0' <= Digit(d) <= '9' && (Digit(d) - '0') as int == d
  {
  }

  lemma DecimalPlaces(n: int)
    requires 0 <= n <= 9999
    ensures n == 1000 * (n / 1000) + 100 * (n / 100 % 10) + 10 * (n / 10 % 10) + n % 10
  {
    assert n / 10 == 10 * (n / 100) + n / 10 % 10;
    assert n / 100 == 10 * (n / 1000) + n / 100 % 10;
  }

  /** A segment is four decimal digits that spell its number. */
  lemma SegmentSpells(n: int)
    requires 0 <= n <= 9999
    ensures var s := Pad4(n);
      && |s| == 4 && (forall k | 0 <= k < 4 :: '0' <= s[k] <= '9')
      && n == 1000 * (s[0] - '0') as int + 100 * (s[1] - '0') as int + 10 * (s[2] - '0') as int + (s[3] - '0') as int
  {
    DigitSpells(n / 1000);
    DigitSpells(n / 100 % 10);
    DigitSpells(n / 10 % 10);
    DigitSpells(n % 10);
    DecimalPlaces(n);
  }

  lemma DotThenSegment(n: int, m: int, x: string, y: string)
    requires 0 <= n <= 9999 && 0 <= m <= 9999
    ensures StrLess("." + Pad4(n) + x, "." + Pad4(m) + y) <==> n < m || (n == m && StrLess(x, y))
  {
    assert "." + Pad4(n) + x == ['.'] + (Pad4(n) + x) && "." + Pad4(m) + y == ['.'] + (Pad4(m) + y);
    StrLessCons('.', '.', Pad4(n) + x, Pad4(m) + y);
    SegmentsCompare(n, m, x, y);
  }

  lemma {:induction false} TailsCompare(p: Path, q: Path)
    requires ValidPath(p) && ValidPath(q)
    ensures StrLess(Tail(p), Tail(q)) <==> PreOrder(p, q)
  {
    if p != [] && q != [] {
      DotThenSegment(p[0], q[0], Tail(p[1..]), Tail(q[1..]));
      TailsCompare(p[1..], q[1..]);
    }
  }

  /** ORDER BY path is reading order. */
  lemma ByteOrderIsReadingOrder(p: Path, q: Path)
    requires ValidPath(p) && ValidPath(q) && p != [] && q != []
    ensures StrLess(Encode(p), Encode(q)) <==> PreOrder(p, q)
  {
    SegmentsCompare(p[0], q[0], Tail(p[1..]), Tail(q[1..]));
    TailsCompare(p[1..], q[1..]);
  }

  // ---- The subtree range ----

  lemma {:induction false} TailRange(p: Path, q: Path)
    requires ValidPath(p) && ValidPath(q)
    ensures StrLess(Tail(p), Tail(q)) && StrLess(Tail(q), Tail(p) + "/") <==> Descendant(q, p)
  {
    if p == [] {
      if q != [] {
        assert Tail(q) == ['.'] + (Pad4(q[0]) + Tail(q[1..]));
        StrLessCons('.', '/', Pad4(q[0]) + Tail(q[1..]), "");
        assert ['/'] + "" == "/" == Tail(p) + "/";
      }
    } else if q != [] {
      var x, y := Tail(p[1..]), Tail(q[1..]);
      assert Tail(p) + "/" == "." + Pad4(p[0]) + (x + "/");
      DotThenSegment(p[0], q[0], x, y);
      DotThenSegment(q[0], p[0], y, x + "/");
      TailRange(p[1..], q[1..]);
      DescendantStep(p, q);
    }
  }

  lemma DescendantStep(p: Path, q: Path)
    requires p != [] && q != []
    ensures Descendant(q, p) <==> p[0] == q[0] && Descendant(q[1..], p[1..])
  {
    if |p| < |q| {
      assert q[..|p|] == [q[0]] + q[1..][..|p| - 1] && p == [p[0]] + p[1..];
    }
  }

  /** path > p AND path < p || '/' selects exactly the strict descendants of p. */
  lemma SubtreeRangeIsDescendants(p: Path, q: Path)
    requires ValidPath(p) && ValidPath(q) && p != [] && q != []
    ensures StrLess(Encode(p), Encode(q)) && StrLess(Encode(q), Encode(p) + "/") <==> Descendant(q, p)
  {
    var x, y := Tail(p[1..]), Tail(q[1..]);
    assert Encode(p) + "/" == Pad4(p[0]) + (x + "/");
    SegmentsCompare(p[0], q[0], x, y);
    SegmentsCompare(q[0], p[0], y, x + "/");
    TailRange(p[1..], q[1..]);
    DescendantStep(p, q);
  }

  // ---- Against an actual tree walk ----

  /** A thread: the replies of a comment in sibling order. */
  datatype Tree = Tree(replies: seq<Tree>)

  predicate Fits(t: Tree) {
    |t.replies| <= 9999 && forall r | r in t.replies :: Fits(r)
  }

  /** The walk that prints each comment and then its replies, from reply number i of t on. */
  function Walk(t: Tree, at: Path, i: nat): seq<Path>
    requires i <= |t.replies|
    decreases t, |t.replies| - i
  {
    if i == |t.replies| then []
    else [at + [i + 1]] + Walk(t.replies[i], at + [i + 1], 0) + Walk(t, at, i + 1)
  }

  predicate Under(q: Path, at: Path, i: nat) {
    |at| < |q| && q[..|at|] == at && q[|at|] > i
  }

  lemma {:induction false} WalkStaysUnder(t: Tree, at: Path, i: nat)
    requires i <= |t.replies| && Fits(t) && ValidPath(at)
    ensures forall q | q in Walk(t, at, i) :: ValidPath(q) && Under(q, at, i)
    decreases t, |t.replies| - i
  {
    if i < |t.replies| {
      var here := at + [i + 1];
      WalkStaysUnder(t.replies[i], here, 0);
      WalkStaysUnder(t, at, i + 1);
      forall q | q in Walk(t.replies[i], here, 0) ensures Under(q, at, i) {
        assert q[..|here|] == here;
        assert q[..|at|] == q[..|here|][..|at|] && q[|at|] == q[..|here|][|at|];
      }
    }
  }

  lemma {:induction false} PreOrderAfterPrefix(prefix: Path, p: Path, q: Path)
    ensures PreOrder(prefix + p, prefix + q) <==> PreOrder(p, q)
  {
    if prefix == [] {
      assert prefix + p == p && prefix + q == q;
    } else {
      assert (prefix + p)[1..] == prefix[1..] + p && (prefix + q)[1..] == prefix[1..] + q;
      PreOrderAfterPrefix(prefix[1..], p, q);
    }
  }

  predicate Ascending(paths: seq<Path>) {
    forall i, j | 0 <= i < j < |paths| :: PreOrder(paths[i], paths[j])
  }

  lemma EarlierBranchFirst(at: Path, i: nat, p: Path, q: Path)
    requires |at| < |p| && p[..|at|] == at && p[|at|] == i + 1
    requires Under(q, at, i + 1)
    ensures PreOrder(p, q)
  {
    assert p == at + p[|at|..] && q == at + q[|at|..];
    PreOrderAfterPrefix(at, p[|at|..], q[|at|..]);
  }

  lemma BelowComesAfter(here: Path, q: Path)
    requires Under(q, here, 0)
    ensures PreOrder(here, q)
  {
    assert here == here + [] && q == here + q[|here|..];
    PreOrderAfterPrefix(here, [], q[|here|..]);
  }

  /** Printing the tree top down lists the paths in strictly ascending reading order. */
  lemma {:induction false} WalkAscends(t: Tree, at: Path, i: nat)
    requires i <= |t.replies| && Fits(t) && ValidPath(at)
    ensures Ascending(Walk(t, at, i))
    decreases t, |t.replies| - i
  {
    if i < |t.replies| {
      var here := at + [i + 1];
      var inner, later := Walk(t.replies[i], here, 0), Walk(t, at, i + 1);
      WalkStaysUnder(t.replies[i], here, 0);
      WalkStaysUnder(t, at, i + 1);
      WalkAscends(t.replies[i], here, 0);
      WalkAscends(t, at, i + 1);
      forall q | q in inner ensures PreOrder(here, q) {
        BelowComesAfter(here, q);
      }
      forall p, q | p in [here] + inner && q in later ensures PreOrder(p, q) {
        assert p == here || p[..|here|] == here;
        assert p[..|at|] == p[..|here|][..|at|] && p[|at|] == p[..|here|][|at|];
        EarlierBranchFirst(at, i, p, q);
      }
      AscendingJoin([here], inner);
      AscendingJoin([here] + inner, later);
    }
  }

  lemma AscendingJoin(a: seq<Path>, b: seq<Path>)
    requires Ascending(a) && Ascending(b)
    requires forall p, q | p in a && q in b :: PreOrder(p, q)
    ensures Ascending(a + b)
  {
  }

  /** So sorting the stored strings by bytes reproduces the walk over the thread. */
  lemma StoredOrderIsTheWalk(thread: Tree, i: nat, j: nat)
    requires Fits(thread) && i < j < |Walk(thread, [], 0)|
    ensures var w := Walk(thread, [], 0);
      && ValidPath(w[i]) && w[i] != [] && ValidPath(w[j]) && w[j] != []
      && StrLess(Encode(w[i]), Encode(w[j]))
  {
    var w := Walk(thread, [], 0);
    WalkStaysUnder(thread, [], 0);
    WalkAscends(thread, [], 0);
    assert w[i] in w && w[j] in w;
    ByteOrderIsReadingOrder(w[i], w[j]);
  }

  /** Whether the path leads to a comment of the thread. */
  predicate Located(t: Tree, p: Path)
    decreases |p|
  {
    p == [] || (1 <= p[0] <= |t.replies| && Located(t.replies[p[0] - 1], p[1..]))
  }

  lemma InnerWalkKeepsHead(t: Tree, at: Path, n: int, q: Path)
    requires Fits(t) && ValidPath(at + [n]) && q in Walk(t, at + [n], 0)
    ensures |q| > |at| + 1 && q[|at|] == n
  {
    WalkStaysUnder(t, at + [n], 0);
    assert q[|at|] == q[..|at| + 1][|at|];
  }

  lemma {:induction false} WalkHolds(t: Tree, at: Path, i: nat, rest: Path)
    requires i <= |t.replies| && Fits(t) && ValidPath(at) && rest != []
    ensures at + rest in Walk(t, at, i) <==> rest[0] > i && Located(t, rest)
    decreases t, |t.replies| - i
  {
    if i < |t.replies| {
      var here, q := at + [i + 1], at + rest;
      var inner, later := Walk(t.replies[i], here, 0), Walk(t, at, i + 1);
      assert q in Walk(t, at, i) <==> q == here || q in inner || q in later;
      WalkHolds(t, at, i + 1, rest);
      if rest == [i + 1] {
        assert q == here;
      } else if rest[0] == i + 1 {
        assert q == here + rest[1..] && |q| > |here|;
        WalkHolds(t.replies[i], here, 0, rest[1..]);
      } else {
        assert q[|at|] == rest[0] && here[|at|] == i + 1;
        if q in inner {
          InnerWalkKeepsHead(t.replies[i], at, i + 1, q);
        }
      }
    }
  }

  /** The walk holds exactly the comments of the thread. */
  lemma WalkIsTheThread(thread: Tree, q: Path)
    requires Fits(thread) && q != []
    ensures q in Walk(thread, [], 0) <==> Located(thread, q)
  {
    assert [] + q == q;
    WalkHolds(thread, [], 0, q);
  }
}
