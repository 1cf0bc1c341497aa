/** The reader of whole feed pages: blocked authors are dropped inside the query and posts deleted since they were
    fanned out by its final join, and the next cursor is the last row the reader was shown. */
module FeedReader {
  import opened Feed

  datatype Sources = Sources(materialised: set<Row>, celebrity: set<Row>, blocked: set<int>, deleted: set<int>)

  function All(src: Sources): set<Row> {
    src.materialised + src.celebrity
  }

  /** Everything below the cursor that the viewer may see and that still exists. */
  function Visible(src: Sources, cursor: Cursor): set<Row> {
    set r | r in All(src) && Below(r, cursor) && r.author !in src.blocked && r.post !in src.deleted
  }

  /** What the reader is shown. */
  ghost function Screen(src: Sources, cursor: Cursor, k: nat): seq<Row>
    requires Keyed(All(src))
  {
    Shown(Page(src.materialised, src.celebrity, src.blocked, cursor, k), src.deleted)
  }

  lemma {:induction false} ShownHolds(s: seq<Row>, deleted: set<int>, r: Row)
    ensures r in Shown(s, deleted) <==> r in s && r.post !in deleted
  {
    if s != [] {
      ShownHolds(s[1..], deleted, r);
      assert r in s <==> r == s[0] || r in s[1..];
    }
  }

  lemma {:induction false} ShownSorted(s: seq<Row>, deleted: set<int>)
    requires StrictlySorted(s)
    ensures StrictlySorted(Shown(s, deleted))
  {
    if s != [] {
      var rest := Shown(s[1..], deleted);
      ShownSorted(s[1..], deleted);
      forall j | 0 <= j < |rest| ensures Before(s[0], rest[j]) {
        ShownHolds(s[1..], deleted, rest[j]);
        var i :| 0 <= i < |s| - 1 && s[1..][i] == rest[j];
        assert s[i + 1] == rest[j];
      }
    }
  }

  lemma PageIsSorted(src: Sources, cursor: Cursor, k: nat)
    requires Keyed(All(src))
    ensures StrictlySorted(Page(src.materialised, src.celebrity, src.blocked, cursor, k))
  {
    var a, b := RowsBelow(src.materialised, cursor), RowsBelow(src.celebrity, cursor);
    LimitHoldsTop(a, k);
    LimitHoldsTop(b, k);
    OrderedSorts(Fetched(src.materialised, src.celebrity, src.blocked, cursor, k));
  }

  lemma PageRowIsVisible(src: Sources, cursor: Cursor, k: nat, r: Row)
    requires Keyed(All(src)) && r in Page(src.materialised, src.celebrity, src.blocked, cursor, k)
    ensures r in All(src) && Below(r, cursor) && r.author !in src.blocked
  {
    var a, b := RowsBelow(src.materialised, cursor), RowsBelow(src.celebrity, cursor);
    LimitHoldsTop(a, k);
    LimitHoldsTop(b, k);
    var fetched := Fetched(src.materialised, src.celebrity, src.blocked, cursor, k);
    InLimit(Ordered(fetched), k, r);
    OrderedSorts(fetched);
    assert r in Rows(Ordered(fetched));
  }

  lemma InLimit<T>(s: seq<T>, k: nat, r: T)
    requires r in Limit(s, k)
    ensures r in s
  {
  }

  lemma ScreenRowIsVisible(src: Sources, cursor: Cursor, k: nat, r: Row)
    requires Keyed(All(src)) && r in Screen(src, cursor, k)
    ensures r in Visible(src, cursor)
  {
    ShownHolds(Page(src.materialised, src.celebrity, src.blocked, cursor, k), src.deleted, r);
    PageRowIsVisible(src, cursor, k, r);
  }

  lemma ScreenIsSorted(src: Sources, cursor: Cursor, k: nat)
    requires Keyed(All(src))
    ensures StrictlySorted(Screen(src, cursor, k))
  {
    PageIsSorted(src, cursor, k);
    ShownSorted(Page(src.materialised, src.celebrity, src.blocked, cursor, k), src.deleted);
  }

  // ---- The reader ----

  function Last(screen: seq<Row>): Row
    requires screen != []
  {
    screen[|screen| - 1]
  }

  /** The next cursor leaves less to ask for, and what is visible below it is what was visible and comes later. */
  lemma NextIsNarrower(src: Sources, cursor: Cursor, k: nat)
    requires Keyed(All(src)) && Screen(src, cursor, k) != []
    ensures var next := CursorAt(Last(Screen(src, cursor, k)));
      && |RowsBelow(All(src), next)| < |RowsBelow(All(src), cursor)|
      && Visible(src, next) == RowsBelow(Visible(src, cursor), next)
  {
    var last := Last(Screen(src, cursor, k));
    ScreenRowIsVisible(src, cursor, k, last);
    NarrowerCursor(All(src), cursor, last);
    assert last in RowsBelow(All(src), cursor) && !Below(last, CursorAt(last));
    SubsetSize(RowsBelow(All(src), CursorAt(last)), RowsBelow(All(src), cursor));
    forall r | Below(r, CursorAt(last)) ensures Below(r, cursor) {
      BelowIsTransitive(r, last, cursor);
    }
  }

  lemma BelowIsTransitive(r: Row, last: Row, cursor: Cursor)
    requires Below(last, cursor) && Below(r, CursorAt(last))
    ensures Below(r, cursor)
  {
  }

  /** Page after page, until one shows nothing. */
  ghost function ReaderWalk(src: Sources, cursor: Cursor, k: nat): seq<Row>
    requires Keyed(All(src))
    decreases |RowsBelow(All(src), cursor)|
  {
    var screen := Screen(src, cursor, k);
    if screen == [] then []
    else
      NextIsNarrower(src, cursor, k);
      screen + ReaderWalk(src, CursorAt(Last(screen)), k)
  }

  /** The cursors the reader asks with. */
  ghost function Asked(src: Sources, cursor: Cursor, k: nat): seq<Cursor>
    requires Keyed(All(src))
    decreases |RowsBelow(All(src), cursor)|
  {
    var screen := Screen(src, cursor, k);
    if screen == [] then [cursor]
    else
      NextIsNarrower(src, cursor, k);
      [cursor] + Asked(src, CursorAt(Last(screen)), k)
  }

  /** The page shows x, or something that comes before it. */
  predicate ShownOrLater(screen: seq<Row>, x: Row) {
    x in screen || (screen != [] && Before(Last(screen), x))
  }

  ghost predicate SkipsNothing(src: Sources, cursor: Cursor, k: nat)
    requires Keyed(All(src))
  {
    forall x | x in Visible(src, cursor) :: ShownOrLater(Screen(src, cursor, k), x)
  }

  // ---- A page that skips nothing ----

  lemma JoinSorted(a: seq<Row>, b: seq<Row>)
    requires StrictlySorted(a) && StrictlySorted(b) && a != []
    requires forall r | r in Rows(b) :: Below(r, CursorAt(Last(a)))
    ensures StrictlySorted(a + b) && Rows(a + b) == Rows(a) + Rows(b)
  {
    forall j | 0 <= j < |b| ensures Before(Last(a), b[j]) {
      assert b[j] in Rows(b);
    }
  }

  lemma RejoinsBelow(screen: seq<Row>, visible: set<Row>)
    requires Keyed(visible) && screen != [] && StrictlySorted(screen) && Rows(screen) <= visible
    requires forall x | x in visible :: ShownOrLater(screen, x)
    ensures Ordered(visible) == screen + Ordered(RowsBelow(visible, CursorAt(Last(screen))))
  {
    var rest := RowsBelow(visible, CursorAt(Last(screen)));
    OrderedSorts(rest);
    JoinSorted(screen, Ordered(rest));
    forall r | r in visible ensures r in Rows(screen) + rest {
      assert ShownOrLater(screen, r);
    }
    assert Rows(screen) + rest == visible;
    SortedListingUnique(screen + Ordered(rest));
  }

  lemma SkiplessPage(src: Sources, cursor: Cursor, k: nat)
    requires Keyed(All(src)) && SkipsNothing(src, cursor, k)
    ensures var screen := Screen(src, cursor, k);
      Ordered(Visible(src, cursor)) ==
        if screen == [] then [] else screen + Ordered(Visible(src, CursorAt(Last(screen))))
  {
    var screen, visible := Screen(src, cursor, k), Visible(src, cursor);
    if screen == [] {
      assert forall x :: !ShownOrLater(screen, x);
      assert visible == {};
    } else {
      ScreenIsSorted(src, cursor, k);
      forall r | r in Rows(screen) ensures r in visible {
        ScreenRowIsVisible(src, cursor, k, r);
      }
      NextIsNarrower(src, cursor, k);
      RejoinsBelow(screen, visible);
    }
  }

  // ---- What is skipped stays skipped ----

  lemma {:induction false} WalkStaysBelow(src: Sources, cursor: Cursor, k: nat, r: Row)
    requires Keyed(All(src)) && r in ReaderWalk(src, cursor, k)
    ensures Below(r, cursor)
    decreases |RowsBelow(All(src), cursor)|
  {
    var screen := Screen(src, cursor, k);
    if r in screen {
      ScreenRowIsVisible(src, cursor, k, r);
    } else {
      NextIsNarrower(src, cursor, k);
      ScreenRowIsVisible(src, cursor, k, Last(screen));
      WalkStaysBelow(src, CursorAt(Last(screen)), k, r);
      BelowIsTransitive(r, Last(screen), cursor);
    }
  }

  lemma SkippedIsNeverShown(src: Sources, cursor: Cursor, k: nat, x: Row)
    requires Keyed(All(src)) && !ShownOrLater(Screen(src, cursor, k), x)
    ensures x !in ReaderWalk(src, cursor, k)
  {
    var screen := Screen(src, cursor, k);
    if screen != [] && x in ReaderWalk(src, CursorAt(Last(screen)), k) {
      WalkStaysBelow(src, CursorAt(Last(screen)), k, x);
    }
  }

  lemma SkippingIsIncomplete(src: Sources, cursor: Cursor, k: nat)
    requires Keyed(All(src)) && !SkipsNothing(src, cursor, k)
    ensures ReaderWalk(src, cursor, k) != Ordered(Visible(src, cursor))
  {
    var x :| x in Visible(src, cursor) && !ShownOrLater(Screen(src, cursor, k), x);
    SkippedIsNeverShown(src, cursor, k, x);
    OrderedSorts(Visible(src, cursor));
    assert x in Rows(Ordered(Visible(src, cursor)));
  }

  // ---- When the reader sees everything ----

  ghost predicate ListsEverything(src: Sources, cursor: Cursor, k: nat)
    requires Keyed(All(src))
  {
    ReaderWalk(src, cursor, k) == Ordered(Visible(src, cursor))
  }

  /** No page on the reader's way skips a row. */
  ghost predicate NeverSkips(src: Sources, cursors: seq<Cursor>, k: nat)
    requires Keyed(All(src))
  {
    forall c | c in cursors :: SkipsNothing(src, c, k)
  }

  lemma NeverSkipsFirst(src: Sources, cursor: Cursor, rest: seq<Cursor>, k: nat)
    requires Keyed(All(src))
    ensures NeverSkips(src, [cursor] + rest, k) <==> SkipsNothing(src, cursor, k) && NeverSkips(src, rest, k)
  {
    assert forall c :: c in [cursor] + rest <==> c == cursor || c in rest;
  }

  lemma NextListsIff(src: Sources, cursor: Cursor, k: nat)
    requires Keyed(All(src)) && SkipsNothing(src, cursor, k) && Screen(src, cursor, k) != []
    ensures ListsEverything(src, cursor, k) <==> ListsEverything(src, CursorAt(Last(Screen(src, cursor, k))), k)
  {
    var screen := Screen(src, cursor, k);
    var next := CursorAt(Last(screen));
    SkiplessPage(src, cursor, k);
    ConcatSameIff(screen, ReaderWalk(src, next, k), Ordered(Visible(src, next)));
  }

  lemma NextSkipsIff(src: Sources, cursor: Cursor, k: nat)
    requires Keyed(All(src)) && SkipsNothing(src, cursor, k) && Screen(src, cursor, k) != []
    ensures var next := CursorAt(Last(Screen(src, cursor, k)));
      NeverSkips(src, Asked(src, cursor, k), k) <==> NeverSkips(src, Asked(src, next, k), k)
  {
    NeverSkipsFirst(src, cursor, Asked(src, CursorAt(Last(Screen(src, cursor, k))), k), k);
  }

  /** With blocked authors and deleted posts, following the cursor lists every visible row, in order, exactly when no
      page on the way skips one: each row still to come is shown there or comes after the last row shown. */
  lemma {:induction false} ReaderCompleteIff(src: Sources, cursor: Cursor, k: nat)
    requires Keyed(All(src))
    ensures ListsEverything(src, cursor, k) <==> NeverSkips(src, Asked(src, cursor, k), k)
    decreases |RowsBelow(All(src), cursor)|
  {
    if !SkipsNothing(src, cursor, k) {
      SkippingIsIncomplete(src, cursor, k);
      assert Asked(src, cursor, k)[0] == cursor;
    } else if Screen(src, cursor, k) == [] {
      SkiplessPage(src, cursor, k);
    } else {
      NextIsNarrower(src, cursor, k);
      NextListsIff(src, cursor, k);
      NextSkipsIff(src, cursor, k);
      ReaderCompleteIff(src, CursorAt(Last(Screen(src, cursor, k))), k);
    }
  }

  /** A reader that gets everything gets exactly the rows of the two sources that are neither by a blocked author nor of
      a deleted post, each once. */
  lemma CompleteReaderShows(src: Sources, k: nat)
    requires Keyed(All(src)) && ListsEverything(src, Start, k)
    ensures var walk := ReaderWalk(src, Start, k);
      && (forall r :: r in walk <==>
            (r in src.materialised || r in src.celebrity) && r.author !in src.blocked && r.post !in src.deleted)
      && forall i, j | 0 <= i < j < |walk| :: walk[i] != walk[j]
  {
    var walk, visible := ReaderWalk(src, Start, k), Visible(src, Start);
    OrderedSorts(visible);
    forall r ensures r in walk <==> r in visible {
      assert r in walk <==> r in Rows(walk);
    }
  }

  // ---- Without blocked authors it is the reader of the hydrated pages ----

  lemma ShownEndsWith(s: seq<Row>, r: Row, deleted: set<int>)
    requires r.post !in deleted
    ensures Shown(s + [r], deleted) == Shown(s, deleted) + [r]
  {
    ShownConcat(s, [r], deleted);
    assert [r][1..] == [];
    assert Shown([r], deleted) == [r];
  }

  lemma LastShown(page: seq<Row>, deleted: set<int>)
    ensures var n := UpToLastShown(page, deleted);
      && (n == 0 <==> Shown(page, deleted) == [])
      && (n > 0 ==> Last(Shown(page, deleted)) == page[n - 1])
  {
    var n := UpToLastShown(page, deleted);
    ShownUpToLast(page, deleted);
    if n > 0 {
      ShownEndsWith(page[..n - 1], page[n - 1], deleted);
      assert page[..n] == page[..n - 1] + [page[n - 1]];
    }
  }

  lemma {:induction false} HydratedWalkIsReader(m: set<Row>, c: set<Row>, deleted: set<int>, cursor: Cursor, k: nat)
    requires Keyed(m + c) && k >= 1
    ensures HydratedWalk(m, c, deleted, cursor, k) == ReaderWalk(Sources(m, c, {}, deleted), cursor, k)
    decreases |RowsBelow(m + c, cursor)|
  {
    var src, page := Sources(m, c, {}, deleted), Page(m, c, {}, cursor, k);
    LastShown(page, deleted);
    if Screen(src, cursor, k) != [] {
      NextIsNarrower(src, cursor, k);
      HydratedWalkIsReader(m, c, deleted, CursorAt(Last(Screen(src, cursor, k))), k);
    }
  }
}
