/** The cursor-paginated home feed of section 7 of database-assessment/queries.sql: two branches, each ordered and
    limited on its own, merged with UNION, filtered by blocks and limited again. */
module Feed {

  datatype Row = Row(created: int, post: int, author: int)

  /** Strictly earlier in ORDER BY created_at DESC, post_id DESC. */
  predicate Before(a: Row, b: Row) {
    a.created > b.created || (a.created == b.created && a.post > b.post)
  }

  /** The sort key identifies the row: a post has one author and one creation time, copied into feed_entries. */
  ghost predicate Keyed(rows: set<Row>) {
    forall a, b | a in rows && b in rows && a.created == b.created && a.post == b.post :: a == b
  }

  datatype Cursor = Start | After(created: int, post: int)

  predicate Below(r: Row, cursor: Cursor) {
    cursor.Start? || r.created < cursor.created || (r.created == cursor.created && r.post < cursor.post)
  }

  function RowsBelow(rows: set<Row>, cursor: Cursor): set<Row> {
    set r | r in rows && Below(r, cursor)
  }

  lemma {:induction false} HasFirst(rows: set<Row>)
    requires rows != {} && Keyed(rows)
    ensures exists f :: IsFirst(f, rows)
    decreases |rows|
  {
    var r :| r in rows;
    if rows == {r} {
      assert IsFirst(r, rows);
    } else {
      var rest := rows - {r};
      assert rest != {};
      HasFirst(rest);
      var f :| IsFirst(f, rest);
      assert f in rows && f != r && (Before(f, r) || Before(r, f));
      var g := if Before(f, r) then f else r;
      assert IsFirst(g, rows) by {
        forall x | x in rows && x != g ensures Before(g, x) {
          assert x == r || x == f || Before(f, x);
        }
      }
    }
  }

  predicate IsFirst(f: Row, rows: set<Row>) {
    f in rows && forall x | x in rows && x != f :: Before(f, x)
  }

  ghost function First(rows: set<Row>): (f: Row)
    requires rows != {} && Keyed(rows)
    ensures IsFirst(f, rows)
  {
    HasFirst(rows);
    var f :| IsFirst(f, rows);
    f
  }

  /** ORDER BY created_at DESC, post_id DESC. */
  ghost function Ordered(rows: set<Row>): seq<Row>
    requires Keyed(rows)
    decreases |rows|
  {
    if rows == {} then [] else [First(rows)] + Ordered(rows - {First(rows)})
  }

  function Limit<T>(s: seq<T>, k: nat): seq<T> {
    if |s| <= k then s else s[..k]
  }

  function Rows(s: seq<Row>): set<Row> {
    set r | r in s
  }

  predicate StrictlySorted(s: seq<Row>) {
    forall i, j | 0 <= i < j < |s| :: Before(s[i], s[j])
  }

  lemma {:induction false} OrderedSorts(rows: set<Row>)
    requires Keyed(rows)
    ensures StrictlySorted(Ordered(rows)) && Rows(Ordered(rows)) == rows && |Ordered(rows)| == |rows|
    decreases |rows|
  {
    if rows != {} {
      var f := First(rows);
      var rest := rows - {f};
      OrderedSorts(rest);
      assert rows == {f} + rest;
      forall j | 0 <= j < |Ordered(rest)| ensures Before(f, Ordered(rest)[j]) {
        assert Ordered(rest)[j] in Rows(Ordered(rest));
      }
    }
  }

  /** A set of rows has one strictly sorted listing. */
  lemma {:induction false} SortedListingUnique(s: seq<Row>)
    requires StrictlySorted(s)
    ensures Keyed(Rows(s)) && Ordered(Rows(s)) == s
  {
    assert Keyed(Rows(s));
    if s != [] {
      assert s[0] in Rows(s);
      var f := First(Rows(s));
      assert f == s[0];
      assert Rows(s) - {f} == Rows(s[1..]) by {
        forall i | 1 <= i < |s| ensures s[i] != f && s[i] in s[1..] {
          assert s[i] == s[1..][i - 1];
        }
      }
      SortedListingUnique(s[1..]);
    }
  }

  // ---- LIMIT as a condition on rank ----

  function Above(rows: set<Row>, r: Row): set<Row> {
    set x | x in rows && Before(x, r)
  }

  /** The rows that fewer than k others precede. */
  function Top(rows: set<Row>, k: nat): set<Row> {
    set r | r in rows && |Above(rows, r)| < k
  }

  lemma SubsetSize<T>(a: set<T>, b: set<T>)
    requires a <= b
    ensures |a| <= |b|
    ensures |a| == |b| ==> a == b
  {
    var rest := b - a;
    assert b == a + rest;
    if |a| == |b| {
      assert |rest| == 0;
    }
  }

  lemma {:induction false} SortedSize(s: seq<Row>)
    requires StrictlySorted(s)
    ensures |Rows(s)| == |s|
  {
    if s != [] {
      SortedSize(s[1..]);
      assert Rows(s) == {s[0]} + Rows(s[1..]);
    }
  }

  lemma RankIsIndex(rows: set<Row>, i: nat)
    requires Keyed(rows) && i < |Ordered(rows)|
    ensures |Above(rows, Ordered(rows)[i])| == i
  {
    OrderedSorts(rows);
    var s := Ordered(rows);
    assert Above(rows, s[i]) == Rows(s[..i]) by {
      forall x | x in Above(rows, s[i]) ensures x in s[..i] {
        var j :| 0 <= j < |s| && s[j] == x;
        assert j < i;
      }
    }
    SortedSize(s[..i]);
  }

  lemma LimitHoldsTop(rows: set<Row>, k: nat)
    requires Keyed(rows)
    ensures Rows(Limit(Ordered(rows), k)) == Top(rows, k)
  {
    OrderedSorts(rows);
    var s := Ordered(rows);
    forall i | 0 <= i < |s| ensures |Above(rows, s[i])| == i {
      RankIsIndex(rows, i);
    }
    forall r | r in Top(rows, k) ensures r in Limit(s, k) {
      var i :| 0 <= i < |s| && s[i] == r;
      assert Limit(s, k)[i] == r;
    }
    forall r | r in Limit(s, k) ensures r in Top(rows, k) {
      var i :| 0 <= i < |Limit(s, k)| && Limit(s, k)[i] == r;
      assert s[i] == r && s[i] in Rows(s);
    }
  }

  lemma LimitIsTop(rows: set<Row>, k: nat)
    requires Keyed(rows)
    ensures Rows(Limit(Ordered(rows), k)) == Top(rows, k)
    ensures Keyed(Top(rows, k)) && Ordered(Top(rows, k)) == Limit(Ordered(rows), k)
    ensures |Top(rows, k)| == if |rows| < k then |rows| else k
  {
    OrderedSorts(rows);
    LimitHoldsTop(rows, k);
    SortedListingUnique(Limit(Ordered(rows), k));
    SortedSize(Limit(Ordered(rows), k));
  }

  // ---- The query ----

  function Unblocked(rows: set<Row>, blocked: set<int>): set<Row> {
    set r | r in rows && r.author !in blocked
  }

  /** materialised and celebrity are the two sources; blocked the authors with a block relation to the viewer. */
  ghost function Page(materialised: set<Row>, celebrity: set<Row>, blocked: set<int>, cursor: Cursor, k: nat): seq<Row>
    requires Keyed(materialised + celebrity)
  {
    var branchA := Limit(Ordered(RowsBelow(materialised, cursor)), k);
    var branchB := Limit(Ordered(RowsBelow(celebrity, cursor)), k);
    LimitIsTop(RowsBelow(materialised, cursor), k);
    LimitIsTop(RowsBelow(celebrity, cursor), k);
    Limit(Ordered(Unblocked(Rows(branchA) + Rows(branchB), blocked)), k)
  }

  /** What the page stands for: everything in either source that the viewer may see, in order. */
  ghost function Everything(materialised: set<Row>, celebrity: set<Row>, blocked: set<int>, cursor: Cursor): seq<Row>
    requires Keyed(materialised + celebrity)
  {
    Ordered(Unblocked(RowsBelow(materialised + celebrity, cursor), blocked))
  }

  lemma RowOutsideTop(rows: set<Row>, k: nat, x: Row)
    requires Keyed(rows) && x in rows && x !in Top(rows, k)
    ensures Top(rows, k) <= Above(rows, x) && |Top(rows, k)| == k
  {
    LimitIsTop(rows, k);
    SubsetSize(Above(rows, x), rows);
    forall t | t in Top(rows, k) ensures Before(t, x) {
      if !Before(t, x) {
        assert Before(x, t);
        SubsetSize(Above(rows, x), Above(rows, t));
      }
    }
  }

  /** Limiting a part instead of the whole gives the same rows exactly when each row left out has k rows of the part
      above it. */
  lemma TopOfPartIff(part: set<Row>, whole: set<Row>, k: nat)
    requires part <= whole && Keyed(whole)
    ensures Top(part, k) == Top(whole, k) <==> forall x | x in whole - part :: |Above(part, x)| >= k
  {
    if Top(part, k) == Top(whole, k) {
      forall x | x in whole - part ensures |Above(part, x)| >= k {
        RowOutsideTop(whole, k, x);
        SubsetSize(Top(whole, k), Above(part, x));
      }
    }
    if forall x | x in whole - part :: |Above(part, x)| >= k {
      forall r | r in whole ensures r in Top(whole, k) <==> r in Top(part, k) {
        SubsetSize(Above(part, r), Above(whole, r));
        if r in Top(part, k) && Above(whole, r) != Above(part, r) {
          var x :| x in Above(whole, r) && x !in Above(part, r);
          SubsetSize(Above(part, x), Above(part, r));
        }
      }
    }
  }

  /** What the two limited branches bring in for the viewer. */
  function Fetched(
      materialised: set<Row>, celebrity: set<Row>, blocked: set<int>, cursor: Cursor, k: nat): set<Row>
  {
    Unblocked(Top(RowsBelow(materialised, cursor), k) + Top(RowsBelow(celebrity, cursor), k), blocked)
  }

  /** The rows the two branch limits left out although the viewer may see them. */
  function CutOff(materialised: set<Row>, celebrity: set<Row>, blocked: set<int>, cursor: Cursor, k: nat): set<Row> {
    Unblocked(RowsBelow(materialised + celebrity, cursor), blocked)
      - Fetched(materialised, celebrity, blocked, cursor, k)
  }

  /** The page is the first k visible rows of the full feed exactly when every visible row the branch limits cut off
      has k visible fetched rows above it. */
  lemma PageExactIff(materialised: set<Row>, celebrity: set<Row>, blocked: set<int>, cursor: Cursor, k: nat)
    requires Keyed(materialised + celebrity)
    ensures Page(materialised, celebrity, blocked, cursor, k)
      == Limit(Everything(materialised, celebrity, blocked, cursor), k)
      <==> forall x | x in CutOff(materialised, celebrity, blocked, cursor, k) ::
             |Above(Fetched(materialised, celebrity, blocked, cursor, k), x)| >= k
  {
    var a, b := RowsBelow(materialised, cursor), RowsBelow(celebrity, cursor);
    LimitHoldsTop(a, k);
    LimitHoldsTop(b, k);
    var part := Fetched(materialised, celebrity, blocked, cursor, k);
    var whole := Unblocked(RowsBelow(materialised + celebrity, cursor), blocked);
    assert part <= whole;
    LimitsEqualIffTopsEqual(part, whole, k);
    TopOfPartIff(part, whole, k);
  }

  lemma LimitsEqualIffTopsEqual(part: set<Row>, whole: set<Row>, k: nat)
    requires Keyed(part) && Keyed(whole)
    ensures Limit(Ordered(part), k) == Limit(Ordered(whole), k) <==> Top(part, k) == Top(whole, k)
  {
    LimitIsTop(part, k);
    LimitIsTop(whole, k);
  }

  /** With no block relation to any author in the sources, the hybrid page is always the first k rows of the full
      feed. */
  lemma PageExactWithoutBlocks(materialised: set<Row>, celebrity: set<Row>, blocked: set<int>, cursor: Cursor, k: nat)
    requires Keyed(materialised + celebrity)
    requires forall r | r in materialised + celebrity :: r.author !in blocked
    ensures Page(materialised, celebrity, blocked, cursor, k)
      == Limit(Everything(materialised, celebrity, blocked, cursor), k)
  {
    var a, b := RowsBelow(materialised, cursor), RowsBelow(celebrity, cursor);
    var part := Fetched(materialised, celebrity, blocked, cursor, k);
    forall x | x in CutOff(materialised, celebrity, blocked, cursor, k) ensures |Above(part, x)| >= k {
      var branch := if x in a then a else b;
      RowOutsideTop(branch, k, x);
      SubsetSize(Top(branch, k), Above(part, x));
    }
    PageExactIff(materialised, celebrity, blocked, cursor, k);
  }

  /** A blocked author at the top of one branch can push a visible row off the page. */
  lemma BlockedAuthorHidesRow(hidden: Row, shown: Row)
    requires Before(hidden, shown) && hidden.author != shown.author
    ensures Keyed({hidden, shown} + {})
    ensures Page({hidden, shown}, {}, {hidden.author}, Start, 1)
      != Limit(Everything({hidden, shown}, {}, {hidden.author}, Start), 1)
  {
    var a, none, blocked := {hidden, shown}, {}, {hidden.author};
    assert RowsBelow(a, Start) == a && RowsBelow(a + none, Start) == a && RowsBelow(none, Start) == {};
    assert Above(a, hidden) == {} && Above(a, shown) == {hidden};
    assert Unblocked(Top(a, 1) + Top({}, 1), blocked) == {};
    assert shown in CutOff(a, none, blocked, Start, 1);
    assert Above({}, shown) == {};
    PageExactIff(a, none, blocked, Start, 1);
  }

  /** A page shows at most k posts, newest first and by descending id at equal times. */
  lemma PageNewestFirst(materialised: set<Row>, celebrity: set<Row>, blocked: set<int>, cursor: Cursor, k: nat)
    requires Keyed(materialised + celebrity)
    ensures var page := Page(materialised, celebrity, blocked, cursor, k);
      && |page| <= k
      && (forall i, j | 0 <= i < j < |page| ::
            page[i].created > page[j].created || (page[i].created == page[j].created && page[i].post > page[j].post))
  {
    PageIsOrdered(materialised, celebrity, blocked, cursor, k);
    OrderedSorts(Fetched(materialised, celebrity, blocked, cursor, k));
  }

  lemma FetchedIsKeyed(materialised: set<Row>, celebrity: set<Row>, blocked: set<int>, cursor: Cursor, k: nat)
    requires Keyed(materialised + celebrity)
    ensures Keyed(Fetched(materialised, celebrity, blocked, cursor, k))
  {
    forall r | r in Fetched(materialised, celebrity, blocked, cursor, k) ensures r in materialised + celebrity {
    }
  }

  lemma PageIsOrdered(materialised: set<Row>, celebrity: set<Row>, blocked: set<int>, cursor: Cursor, k: nat)
    requires Keyed(materialised + celebrity)
    ensures var fetched := Fetched(materialised, celebrity, blocked, cursor, k);
      Keyed(fetched) && Page(materialised, celebrity, blocked, cursor, k) == Limit(Ordered(fetched), k)
  {
    var a, b := RowsBelow(materialised, cursor), RowsBelow(celebrity, cursor);
    assert Keyed(a) && Keyed(b);
    LimitIsTop(a, k);
    LimitIsTop(b, k);
    FetchedIsKeyed(materialised, celebrity, blocked, cursor, k);
  }

  /** All of them come from the two sources, are older than the cursor, and none is by a blocked author. */
  lemma PageIsBelowCursor(
      materialised: set<Row>, celebrity: set<Row>, blocked: set<int>, cursor: Cursor, k: nat, r: Row)
    requires Keyed(materialised + celebrity) && r in Page(materialised, celebrity, blocked, cursor, k)
    ensures (r in materialised || r in celebrity) && r.author !in blocked
    ensures cursor.After? ==> r.created < cursor.created || (r.created == cursor.created && r.post < cursor.post)
  {
    PageIsOrdered(materialised, celebrity, blocked, cursor, k);
    var fetched := Fetched(materialised, celebrity, blocked, cursor, k);
    OrderedSorts(fetched);
    assert r in Rows(Ordered(fetched));
  }

  // ---- Following the cursor ----

  function CursorAt(r: Row): Cursor {
    After(r.created, r.post)
  }

  /** The reader that asks for the next page below the last row it got, until a page comes back empty. */
  ghost function Walk(materialised: set<Row>, celebrity: set<Row>, cursor: Cursor, k: nat): seq<Row>
    requires Keyed(materialised + celebrity) && k >= 1
    decreases |RowsBelow(materialised + celebrity, cursor)|
  {
    var page := Page(materialised, celebrity, {}, cursor, k);
    PageExactWithoutBlocks(materialised, celebrity, {}, cursor, k);
    PageAdvances(materialised, celebrity, cursor, k);
    if page == [] then [] else page + Walk(materialised, celebrity, CursorAt(page[|page| - 1]), k)
  }

  /** What lies below the n-th row of a listing is the rest of the listing. */
  lemma BelowNthIsRest(s: seq<Row>, n: nat)
    requires StrictlySorted(s) && 1 <= n <= |s|
    ensures RowsBelow(Rows(s), CursorAt(s[n - 1])) == Rows(s[n..])
  {
    forall i | 0 <= i < |s| ensures Below(s[i], CursorAt(s[n - 1])) <==> i >= n {
    }
    forall r | r in RowsBelow(Rows(s), CursorAt(s[n - 1])) ensures r in s[n..] {
      var i :| 0 <= i < |s| && s[i] == r;
      assert s[i] == s[n..][i - n];
    }
    forall r | r in s[n..] ensures r in RowsBelow(Rows(s), CursorAt(s[n - 1])) {
      var i :| 0 <= i < |s| - n && s[n..][i] == r;
      assert s[n + i] == r;
    }
  }

  lemma NarrowerCursor(rows: set<Row>, cursor: Cursor, last: Row)
    requires last in RowsBelow(rows, cursor)
    ensures RowsBelow(rows, CursorAt(last)) == RowsBelow(RowsBelow(rows, cursor), CursorAt(last))
  {
  }

  lemma PageIsPrefix(materialised: set<Row>, celebrity: set<Row>, cursor: Cursor, k: nat)
    requires Keyed(materialised + celebrity) && k >= 1
    ensures var page := Page(materialised, celebrity, {}, cursor, k);
      var all := Ordered(RowsBelow(materialised + celebrity, cursor));
      all == Everything(materialised, celebrity, {}, cursor) && |page| <= |all| && page == all[..|page|]
        && (page == [] ==> all == [])
  {
    PageExactWithoutBlocks(materialised, celebrity, {}, cursor, k);
    var rows := RowsBelow(materialised + celebrity, cursor);
    assert Unblocked(rows, {}) == rows;
  }

  lemma RestBelowNth(rows: set<Row>, cursor: Cursor, n: nat)
    requires Keyed(rows) && 1 <= n <= |Ordered(RowsBelow(rows, cursor))|
    ensures var all := Ordered(RowsBelow(rows, cursor)); var rest := RowsBelow(rows, CursorAt(all[n - 1]));
      Ordered(rest) == all[n..] && |rest| < |RowsBelow(rows, cursor)|
  {
    var below := RowsBelow(rows, cursor);
    OrderedSorts(below);
    var all := Ordered(below);
    assert all[n - 1] in Rows(all);
    NarrowerCursor(rows, cursor, all[n - 1]);
    BelowNthIsRest(all, n);
    SortedListingUnique(all[n..]);
    SortedSize(all[n..]);
  }

  /** A page is the next stretch of the feed, and the next cursor leaves exactly what follows it. */
  lemma PageAdvances(materialised: set<Row>, celebrity: set<Row>, cursor: Cursor, k: nat)
    requires Keyed(materialised + celebrity) && k >= 1
    ensures var rows := materialised + celebrity;
      var page, all := Page(materialised, celebrity, {}, cursor, k), Ordered(RowsBelow(rows, cursor));
      && |page| <= |all| && page == all[..|page|] && (page == [] ==> all == [])
      && (page != [] ==> var next := RowsBelow(rows, CursorAt(page[|page| - 1]));
            |next| < |RowsBelow(rows, cursor)| && Ordered(next) == all[|page|..])
  {
    PageIsPrefix(materialised, celebrity, cursor, k);
    var page := Page(materialised, celebrity, {}, cursor, k);
    if page != [] {
      RestBelowNth(materialised + celebrity, cursor, |page|);
    }
  }

  lemma WalkUnfolds(materialised: set<Row>, celebrity: set<Row>, cursor: Cursor, k: nat) returns (n: nat)
    requires Keyed(materialised + celebrity) && k >= 1
    ensures var all := Ordered(RowsBelow(materialised + celebrity, cursor));
      && n <= |all| && (n == 0 ==> all == [])
      && Walk(materialised, celebrity, cursor, k) == if n == 0 then [] else
        all[..n] + Walk(materialised, celebrity, CursorAt(all[n - 1]), k)
  {
    PageAdvances(materialised, celebrity, cursor, k);
    n := |Page(materialised, celebrity, {}, cursor, k)|;
  }

  /** Following the cursor over a fixed snapshot ends, and lists what is below it in either source, in order. */
  lemma {:induction false} WalkListsEverything(materialised: set<Row>, celebrity: set<Row>, cursor: Cursor, k: nat)
    requires Keyed(materialised + celebrity) && k >= 1
    ensures Walk(materialised, celebrity, cursor, k) == Ordered(RowsBelow(materialised + celebrity, cursor))
    decreases |RowsBelow(materialised + celebrity, cursor)|
  {
    var all := Ordered(RowsBelow(materialised + celebrity, cursor));
    var n := WalkUnfolds(materialised, celebrity, cursor, k);
    if n > 0 {
      RestBelowNth(materialised + celebrity, cursor, n);
      WalkListsEverything(materialised, celebrity, CursorAt(all[n - 1]), k);
      Rejoined(all, n);
    }
  }

  lemma Rejoined<T>(s: seq<T>, n: nat)
    requires n <= |s|
    ensures s[..n] + s[n..] == s
  {
  }

  /** From the start: every row of both sources exactly once, in order. */
  lemma WalkListsEachRowOnce(materialised: set<Row>, celebrity: set<Row>, k: nat)
    requires Keyed(materialised + celebrity) && k >= 1
    ensures var walk := Walk(materialised, celebrity, Start, k);
      && Rows(walk) == materialised + celebrity && |walk| == |materialised + celebrity| && StrictlySorted(walk)
  {
    WalkListsEverything(materialised, celebrity, Start, k);
    var all := RowsBelow(materialised + celebrity, Start);
    assert all == materialised + celebrity;
    OrderedSorts(all);
  }

  // ---- Hydration: the final join drops posts deleted since they were fanned out ----

  function ShownOne(r: Row, deleted: set<int>): seq<Row> {
    if r.post in deleted then [] else [r]
  }

  function Shown(s: seq<Row>, deleted: set<int>): seq<Row> {
    if s == [] then [] else ShownOne(s[0], deleted) + Shown(s[1..], deleted)
  }

  /** One more than the place of the last row shown, 0 when none is. */
  function UpToLastShown(s: seq<Row>, deleted: set<int>): (n: nat)
    ensures n <= |s|
    ensures n > 0 ==> s[n - 1].post !in deleted
    ensures forall i | n <= i < |s| :: s[i].post in deleted
  {
    if s == [] then 0
    else if s[|s| - 1].post !in deleted then |s|
    else UpToLastShown(s[..|s| - 1], deleted)
  }

  lemma {:induction false} ShownConcat(a: seq<Row>, b: seq<Row>, deleted: set<int>)
    ensures Shown(a + b, deleted) == Shown(a, deleted) + Shown(b, deleted)
  {
    if a == [] {
      assert a + b == b;
    } else {
      ShownConcat(a[1..], b, deleted);
      assert (a + b)[0] == a[0] && (a + b)[1..] == a[1..] + b;
      var h, x, y := ShownOne(a[0], deleted), Shown(a[1..], deleted), Shown(b, deleted);
      assert h + (x + y) == h + x + y;
    }
  }

  lemma {:induction false} ShownEmptyIff(s: seq<Row>, deleted: set<int>)
    ensures Shown(s, deleted) == [] <==> forall i | 0 <= i < |s| :: s[i].post in deleted
  {
    if s != [] {
      ShownEmptyIff(s[1..], deleted);
      assert forall i | 1 <= i < |s| :: s[i] == s[1..][i - 1];
    }
  }

  /** The reader of hydrated pages: it continues below the last post it was shown, and stops at an empty page. */
  ghost function HydratedWalk(
      materialised: set<Row>, celebrity: set<Row>, deleted: set<int>, cursor: Cursor, k: nat): seq<Row>
    requires Keyed(materialised + celebrity) && k >= 1
    decreases |RowsBelow(materialised + celebrity, cursor)|
  {
    var page := Page(materialised, celebrity, {}, cursor, k);
    var n := UpToLastShown(page, deleted);
    PageIsPrefix(materialised, celebrity, cursor, k);
    if n == 0 then []
    else
      RestBelowNth(materialised + celebrity, cursor, n);
      Shown(page, deleted) + HydratedWalk(materialised, celebrity, deleted, CursorAt(page[n - 1]), k)
  }

  /** The same reader over a plain listing. */
  function SeqWalk(s: seq<Row>, deleted: set<int>, k: nat): seq<Row>
    decreases |s|
  {
    var n := UpToLastShown(Limit(s, k), deleted);
    if n == 0 then [] else Shown(s[..n], deleted) + SeqWalk(s[n..], deleted, k)
  }

  lemma ShownUpToLast(page: seq<Row>, deleted: set<int>)
    ensures Shown(page, deleted) == Shown(page[..UpToLastShown(page, deleted)], deleted)
  {
    var n := UpToLastShown(page, deleted);
    assert page == page[..n] + page[n..];
    ShownConcat(page[..n], page[n..], deleted);
    ShownEmptyIff(page[n..], deleted);
  }

  lemma PageIsLimit(materialised: set<Row>, celebrity: set<Row>, cursor: Cursor, k: nat)
    requires Keyed(materialised + celebrity) && k >= 1
    ensures Page(materialised, celebrity, {}, cursor, k)
      == Limit(Ordered(RowsBelow(materialised + celebrity, cursor)), k)
  {
    PageIsPrefix(materialised, celebrity, cursor, k);
    PageExactWithoutBlocks(materialised, celebrity, {}, cursor, k);
  }

  lemma LimitKeepsFront<T>(s: seq<T>, k: nat, n: nat)
    requires n <= |Limit(s, k)|
    ensures n <= |s| && Limit(s, k)[..n] == s[..n] && (n > 0 ==> Limit(s, k)[n - 1] == s[n - 1])
  {
  }

  lemma HydratedWalkUnfolds(materialised: set<Row>, celebrity: set<Row>, deleted: set<int>, cursor: Cursor, k: nat)
    requires Keyed(materialised + celebrity) && k >= 1
    ensures var all := Ordered(RowsBelow(materialised + celebrity, cursor));
      var n := UpToLastShown(Limit(all, k), deleted);
      HydratedWalk(materialised, celebrity, deleted, cursor, k) == if n == 0 then [] else
        Shown(all[..n], deleted) + HydratedWalk(materialised, celebrity, deleted, CursorAt(all[n - 1]), k)
  {
    var page, all := Page(materialised, celebrity, {}, cursor, k), Ordered(RowsBelow(materialised + celebrity, cursor));
    PageIsLimit(materialised, celebrity, cursor, k);
    assert page == Limit(all, k);
    var n := UpToLastShown(page, deleted);
    LimitKeepsFront(all, k, n);
    ShownUpToLast(page, deleted);
  }

  lemma SeqWalkUnfolds(s: seq<Row>, deleted: set<int>, k: nat)
    ensures var n := UpToLastShown(Limit(s, k), deleted);
      SeqWalk(s, deleted, k) == if n == 0 then [] else Shown(s[..n], deleted) + SeqWalk(s[n..], deleted, k)
  {
  }

  lemma {:induction false} HydratedWalkIsSeqWalk(
      materialised: set<Row>, celebrity: set<Row>, deleted: set<int>, cursor: Cursor, k: nat)
    requires Keyed(materialised + celebrity) && k >= 1
    ensures HydratedWalk(materialised, celebrity, deleted, cursor, k)
         == SeqWalk(Ordered(RowsBelow(materialised + celebrity, cursor)), deleted, k)
    decreases |RowsBelow(materialised + celebrity, cursor)|
  {
    var all := Ordered(RowsBelow(materialised + celebrity, cursor));
    var n := UpToLastShown(Limit(all, k), deleted);
    HydratedWalkUnfolds(materialised, celebrity, deleted, cursor, k);
    SeqWalkUnfolds(all, deleted, k);
    if n > 0 {
      RestBelowNth(materialised + celebrity, cursor, n);
      HydratedWalkIsSeqWalk(materialised, celebrity, deleted, CursorAt(all[n - 1]), k);
    }
  }

  predicate RunOfDeleted(s: seq<Row>, deleted: set<int>, i: nat, k: nat) {
    i + k <= |s| && forall m | i <= m < i + k :: s[m].post in deleted
  }

  predicate NothingLiveAfter(s: seq<Row>, deleted: set<int>, i: nat, k: nat) {
    forall m | i + k <= m < |s| :: s[m].post in deleted
  }

  /** No page-sized run of deleted posts has a live post after it. */
  ghost predicate GapFree(s: seq<Row>, deleted: set<int>, k: nat) {
    forall i: nat | RunOfDeleted(s, deleted, i, k) :: NothingLiveAfter(s, deleted, i, k)
  }

  lemma RunsShift(s: seq<Row>, deleted: set<int>, k: nat, n: nat, i: nat)
    requires n <= |s|
    ensures RunOfDeleted(s[n..], deleted, i, k) <==> RunOfDeleted(s, deleted, n + i, k)
    ensures i + k <= |s| - n ==> (NothingLiveAfter(s[n..], deleted, i, k) <==> NothingLiveAfter(s, deleted, n + i, k))
  {
    forall m | 0 <= m < |s| - n ensures s[n..][m] == s[n + m] {
    }
    forall m | n <= m < |s| ensures s[m] == s[n..][m - n] {
    }
  }

  lemma GapFreeRest(s: seq<Row>, deleted: set<int>, k: nat, n: nat)
    requires 1 <= n <= k && n <= |s| && s[n - 1].post !in deleted
    ensures GapFree(s, deleted, k) <==> GapFree(s[n..], deleted, k)
  {
    if GapFree(s, deleted, k) {
      forall i: nat | RunOfDeleted(s[n..], deleted, i, k) ensures NothingLiveAfter(s[n..], deleted, i, k) {
        RunsShift(s, deleted, k, n, i);
      }
    }
    if GapFree(s[n..], deleted, k) {
      forall i: nat | RunOfDeleted(s, deleted, i, k) ensures NothingLiveAfter(s, deleted, i, k) {
        assert i >= n;
        RunsShift(s, deleted, k, n, i - n);
      }
    }
  }

  /** A first page without a live post ends the reading: right exactly when nothing live follows. */
  lemma DeadPageEndsIt(s: seq<Row>, deleted: set<int>, k: nat)
    requires k >= 1 && UpToLastShown(Limit(s, k), deleted) == 0
    ensures Shown(s, deleted) == [] <==> GapFree(s, deleted, k)
  {
    ShownEmptyIff(s, deleted);
    if |s| >= k {
      assert forall m | 0 <= m < k :: Limit(s, k)[m] == s[m];
      assert RunOfDeleted(s, deleted, 0, k);
    }
    if forall i | 0 <= i < |s| :: s[i].post in deleted {
      assert GapFree(s, deleted, k);
    }
  }

  lemma ConcatSameIff<T>(head: seq<T>, a: seq<T>, b: seq<T>)
    ensures head + a == head + b <==> a == b
  {
    assert (head + a)[|head|..] == a && (head + b)[|head|..] == b;
  }

  lemma {:induction false} SeqWalkCompleteIff(s: seq<Row>, deleted: set<int>, k: nat)
    requires k >= 1
    ensures SeqWalk(s, deleted, k) == Shown(s, deleted) <==> GapFree(s, deleted, k)
    decreases |s|
  {
    var n := UpToLastShown(Limit(s, k), deleted);
    if n == 0 {
      DeadPageEndsIt(s, deleted, k);
    } else {
      LimitKeepsFront(s, k, n);
      SeqWalkCompleteIff(s[n..], deleted, k);
      GapFreeRest(s, deleted, k, n);
      Rejoined(s, n);
      ShownConcat(s[..n], s[n..], deleted);
      ConcatSameIff(Shown(s[..n], deleted), SeqWalk(s[n..], deleted, k), Shown(s[n..], deleted));
    }
  }

  /** Reading hydrated pages lists every live post of the feed exactly when no run of deleted posts as long as a page
      stands before a live one; a longer run ends the reading early. */
  lemma HydratedWalkCompleteIff(materialised: set<Row>, celebrity: set<Row>, deleted: set<int>, k: nat)
    requires Keyed(materialised + celebrity) && k >= 1
    ensures var all := Ordered(materialised + celebrity);
      HydratedWalk(materialised, celebrity, deleted, Start, k) == Shown(all, deleted) <==> GapFree(all, deleted, k)
  {
    var all := materialised + celebrity;
    assert RowsBelow(all, Start) == all;
    HydratedWalkIsSeqWalk(materialised, celebrity, deleted, Start, k);
    SeqWalkCompleteIff(Ordered(all), deleted, k);
  }
}
