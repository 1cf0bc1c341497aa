/** The post listing: the visibility rewrite of internal/post/service.go, the query of internal/post/repository.go
    and the page arithmetic of internal/platform/httpx/pagination.go. */
module PostList {
  import P = Posts

  datatype Entry = Entry(id: P.Uuid, post: P.Post, createdAt: int)

  /** search is trimmed; an empty one is none. */
  datatype Filter = Filter(author: P.Option<P.Uuid>, status: P.Option<P.Status>, search: string)

  /** What full-text search answers, for a search text and a post. */
  datatype Text = Text(matches: (string, Entry) -> bool, rank: (string, Entry) -> real)

  // ---- Visibility ----

  predicate CanView(actor: P.Option<P.Actor>, p: P.Post) {
    p.status == P.Published || (actor.Some? && P.CanModify(actor.value, p.author))
  }

  predicate Privileged(actor: P.Option<P.Actor>, f: Filter) {
    actor.Some? && (actor.value.admin || (f.author.Some? && f.author.value == actor.value.user))
  }

  datatype Rewritten = Allowed(filter: Filter) | Forbidden

  function Rewrite(actor: P.Option<P.Actor>, f: Filter): Rewritten {
    if Privileged(actor, f) then Allowed(f)
    else if f.status.Some? && f.status.value != P.Published then Forbidden
    else Allowed(f.(status := P.Some(P.Published)))
  }

  predicate Wanted(x: Text, f: Filter, e: Entry) {
    && !e.post.deleted
    && (f.author.Some? ==> e.post.author == f.author.value)
    && (f.status.Some? ==> e.post.status == f.status.value)
    && (f.search != "" ==> x.matches(f.search, e))
  }

  function Selection(x: Text, table: set<Entry>, f: Filter): set<Entry> {
    set e | e in table && Wanted(x, f, e)
  }

  /** Every live post that meets the request and that ByID would show the caller. */
  function Viewable(x: Text, table: set<Entry>, actor: P.Option<P.Actor>, f: Filter): set<Entry> {
    set e | e in table && Wanted(x, f, e) && CanView(actor, e.post)
  }

  function OwnDrafts(x: Text, table: set<Entry>, actor: P.Option<P.Actor>, f: Filter): set<Entry> {
    set e | e in table && Wanted(x, f, e) && e.post.status == P.Draft && actor.Some?
      && e.post.author == actor.value.user
  }

  /** A listing shows only what its caller may see, and all of it but the caller's own drafts; those too exactly when
      the caller is an administrator or asks for their own posts (or has no such draft). */
  lemma ListingIsWhatTheCallerMaySee(x: Text, table: set<Entry>, actor: P.Option<P.Actor>, f: Filter)
    requires Rewrite(actor, f).Allowed?
    ensures var shown := Selection(x, table, Rewrite(actor, f).filter);
      && shown <= Viewable(x, table, actor, f)
      && Viewable(x, table, actor, f) == shown + OwnDrafts(x, table, actor, f)
      && (shown == Viewable(x, table, actor, f) <==> Privileged(actor, f) || OwnDrafts(x, table, actor, f) == {})
  {
    var shown := Selection(x, table, Rewrite(actor, f).filter);
    var drafts := OwnDrafts(x, table, actor, f);
    if !Privileged(actor, f) {
      forall e | e in drafts ensures e !in shown {
      }
      if drafts != {} {
        var e :| e in drafts;
        assert e in Viewable(x, table, actor, f) && e !in shown;
      }
    } else {
      assert drafts <= shown;
    }
  }

  /** What is refused could have shown no one else's draft: only the caller's own, which they can ask for by author. */
  lemma RefusedHidesOwnDraftsOnly(x: Text, table: set<Entry>, actor: P.Option<P.Actor>, f: Filter)
    requires Rewrite(actor, f).Forbidden?
    ensures Viewable(x, table, actor, f) == OwnDrafts(x, table, actor, f)
    ensures actor.Some? && f.author.None? ==>
      var own := f.(author := P.Some(actor.value.user));
      Rewrite(actor, own) == Allowed(own) && Selection(x, table, own) == Viewable(x, table, actor, f)
  {
  }

  // ---- The query, built by appending ----

  datatype Arg = AuthorArg(id: P.Uuid) | StatusArg(status: P.Status) | SearchArg(text: string) | NumberArg(n: int)

  /** Conditions name their value by its 1-based placeholder. */
  datatype Clause = NotDeleted | AuthorIs(ph: nat) | StatusIs(ph: nat) | SearchMatches(ph: nat)

  datatype Query = Query(args: seq<Arg>, conditions: seq<Clause>, rankBy: P.Option<nat>, limit: nat, offset: nat)

  predicate Bound(args: seq<Arg>, c: Clause) {
    match c
    case NotDeleted => true
    case AuthorIs(ph) => 0 < ph <= |args| && args[ph - 1].AuthorArg?
    case StatusIs(ph) => 0 < ph <= |args| && args[ph - 1].StatusArg?
    case SearchMatches(ph) => 0 < ph <= |args| && args[ph - 1].SearchArg?
  }

  predicate Holds(x: Text, args: seq<Arg>, c: Clause, e: Entry)
    requires Bound(args, c)
  {
    match c
    case NotDeleted => !e.post.deleted
    case AuthorIs(ph) => e.post.author == args[ph - 1].id
    case StatusIs(ph) => e.post.status == args[ph - 1].status
    case SearchMatches(ph) => x.matches(args[ph - 1].text, e)
  }

  ghost predicate AllBound(args: seq<Arg>, conditions: seq<Clause>) {
    forall k | 0 <= k < |conditions| :: Bound(args, conditions[k])
  }

  ghost predicate AllHold(x: Text, args: seq<Arg>, conditions: seq<Clause>, e: Entry)
    requires AllBound(args, conditions)
  {
    forall k | 0 <= k < |conditions| :: Holds(x, args, conditions[k], e)
  }

  predicate NumberAt(args: seq<Arg>, ph: nat, n: int) {
    0 < ph <= |args| && args[ph - 1] == NumberArg(n)
  }

  lemma MoreArgs(x: Text, args: seq<Arg>, more: seq<Arg>, conditions: seq<Clause>, e: Entry)
    requires AllBound(args, conditions)
    ensures AllBound(args + more, conditions)
    ensures AllHold(x, args + more, conditions, e) <==> AllHold(x, args, conditions, e)
  {
    forall k | 0 <= k < |conditions|
      ensures Bound(args + more, conditions[k])
      ensures Holds(x, args + more, conditions[k], e) == Holds(x, args, conditions[k], e)
    {
      assert Bound(args, conditions[k]);
    }
  }

  lemma ConditionAppends(x: Text, args: seq<Arg>, conditions: seq<Clause>, a: Arg, c: Clause, e: Entry)
    requires AllBound(args, conditions) && Bound(args + [a], c)
    ensures AllBound(args + [a], conditions + [c])
    ensures AllHold(x, args + [a], conditions + [c], e) <==>
      AllHold(x, args, conditions, e) && Holds(x, args + [a], c, e)
  {
    MoreArgs(x, args, [a], conditions, e);
    var longer := conditions + [c];
    assert longer[|conditions|] == c;
    assert forall k | 0 <= k < |conditions| :: longer[k] == conditions[k];
    if AllHold(x, args + [a], longer, e) {
      forall k | 0 <= k < |conditions| ensures Holds(x, args + [a], conditions[k], e) {
        assert Holds(x, args + [a], longer[k], e);
      }
    }
  }

  /** Placeholders and all, the conditions ask for what the filter asks for. */
  ghost predicate Means(args: seq<Arg>, conditions: seq<Clause>, f: Filter) {
    AllBound(args, conditions) && forall x, e :: AllHold(x, args, conditions, e) <==> Wanted(x, f, e)
  }

  lemma AppendMeans(args: seq<Arg>, conditions: seq<Clause>, f: Filter, a: Arg, c: Clause, f': Filter)
    requires Means(args, conditions, f) && Bound(args + [a], c)
    requires forall x, e :: Wanted(x, f', e) <==> Wanted(x, f, e) && Holds(x, args + [a], c, e)
    ensures Means(args + [a], conditions + [c], f')
  {
    forall x, e
      ensures AllBound(args + [a], conditions + [c])
      ensures AllHold(x, args + [a], conditions + [c], e) <==> Wanted(x, f', e)
    {
      ConditionAppends(x, args, conditions, a, c, e);
    }
  }

  lemma NotDeletedMeans()
    ensures Means([], [NotDeleted], Filter(P.None, P.None, ""))
  {
    assert [NotDeleted][0] == NotDeleted;
  }

  /** Whatever is filtered on, each placeholder names its own value. */
  method BuildQuery(f: Filter, limit: int, offset: int) returns (q: Query)
    ensures Means(q.args, q.conditions, f)
    ensures NumberAt(q.args, q.limit, limit) && NumberAt(q.args, q.offset, offset)
    ensures if f.search == "" then q.rankBy == P.None
      else q.rankBy.Some? && 0 < q.rankBy.value <= |q.args| && q.args[q.rankBy.value - 1] == SearchArg(f.search)
  {
    var args: seq<Arg>, conditions, rankBy := [], [NotDeleted], P.None;
    ghost var none := Filter(P.None, P.None, "");
    NotDeletedMeans();
    if f.author.Some? {
      var a, c := AuthorArg(f.author.value), AuthorIs(|args| + 1);
      AppendMeans(args, conditions, none, a, c, none.(author := f.author));
      args, conditions := args + [a], conditions + [c];
    }
    if f.status.Some? {
      var a, c := StatusArg(f.status.value), StatusIs(|args| + 1);
      AppendMeans(args, conditions, none.(author := f.author), a, c, f.(search := ""));
      args, conditions := args + [a], conditions + [c];
    }
    if f.search != "" {
      var a, c := SearchArg(f.search), SearchMatches(|args| + 1);
      AppendMeans(args, conditions, f.(search := ""), a, c, f);
      args, conditions, rankBy := args + [a], conditions + [c], P.Some(|args| + 1);
    }
    var bounds := [NumberArg(limit), NumberArg(offset)];
    forall x, e { MoreArgs(x, args, bounds, conditions, e); }
    q := Query(args + bounds, conditions, rankBy, |args| + 1, |args| + 2);
  }

  // ---- The order ----

  /** created_at DESC, id DESC. */
  predicate Newer(a: Entry, b: Entry) {
    a.createdAt > b.createdAt || (a.createdAt == b.createdAt && a.id.bits > b.id.bits)
  }

  /** With a search the rank comes first. */
  predicate Before(x: Text, f: Filter, a: Entry, b: Entry) {
    if f.search != "" && x.rank(f.search, a) != x.rank(f.search, b) then x.rank(f.search, a) > x.rank(f.search, b)
    else Newer(a, b)
  }

  /** id is the primary key. */
  ghost predicate Keyed(table: set<Entry>) {
    forall a, b | a in table && b in table && a.id == b.id :: a == b
  }

  ghost predicate Sorted(x: Text, f: Filter, s: seq<Entry>) {
    forall i, j | 0 <= i < j < |s| :: Before(x, f, s[i], s[j])
  }

  ghost predicate Lists(x: Text, f: Filter, s: seq<Entry>, es: set<Entry>) {
    Sorted(x, f, s) && forall e :: e in s <==> e in es
  }

  lemma InsertSorted(x: Text, f: Filter, s: seq<Entry>, e: Entry) returns (t: seq<Entry>)
    requires Sorted(x, f, s) && forall k | 0 <= k < |s| :: s[k].id != e.id
    ensures Sorted(x, f, t) && forall d :: d in t <==> d in s || d == e
  {
    var k := 0;
    while k < |s| && Before(x, f, s[k], e)
      invariant 0 <= k <= |s| && forall j | 0 <= j < k :: Before(x, f, s[j], e)
    {
      k := k + 1;
    }
    t := s[..k] + [e] + s[k..];
    forall j | k <= j < |s| ensures Before(x, f, e, s[j]) {
      if k < j {
        assert Before(x, f, s[k], s[j]);
      }
    }
    Spliced(s, k, e);
  }

  lemma Spliced(s: seq<Entry>, k: nat, e: Entry)
    requires k <= |s|
    ensures forall d :: d in s[..k] + [e] + s[k..] <==> d in s || d == e
  {
    assert s == s[..k] + s[k..];
  }

  lemma {:induction false} ListingExists(x: Text, f: Filter, es: set<Entry>)
    requires Keyed(es)
    ensures exists s :: Lists(x, f, s, es)
    decreases |es|
  {
    if es == {} {
      assert Lists(x, f, [], es);
    } else {
      var e :| e in es;
      ListingExists(x, f, es - {e});
      var s: seq<Entry> :| Lists(x, f, s, es - {e});
      forall k | 0 <= k < |s| ensures s[k].id != e.id {
        assert s[k] in es - {e};
      }
      var t := InsertSorted(x, f, s, e);
      assert Lists(x, f, t, es);
    }
  }

  lemma {:induction false} ListingUnique(x: Text, f: Filter, s: seq<Entry>, t: seq<Entry>, es: set<Entry>)
    requires Lists(x, f, s, es) && Lists(x, f, t, es)
    ensures s == t
    decreases |s|
  {
    assert s != [] ==> s[0] in es;
    assert t != [] ==> t[0] in es;
    if s != [] && t != [] {
      var a, b := s[0], t[0];
      assert a in t && b in s;
      var i :| 0 <= i < |t| && t[i] == a;
      var j :| 0 <= j < |s| && s[j] == b;
      assert i > 0 ==> Before(x, f, b, a);
      assert j > 0 ==> Before(x, f, a, b);
      RestLists(x, f, s, es);
      RestLists(x, f, t, es);
      ListingUnique(x, f, s[1..], t[1..], es - {a});
    }
  }

  lemma RestLists(x: Text, f: Filter, s: seq<Entry>, es: set<Entry>)
    requires Lists(x, f, s, es) && s != []
    ensures Lists(x, f, s[1..], es - {s[0]})
  {
    assert s == [s[0]] + s[1..];
    assert forall k | 0 < k < |s| :: Before(x, f, s[0], s[k]);
  }

  ghost function Ordered(x: Text, f: Filter, es: set<Entry>): (s: seq<Entry>)
    requires Keyed(es)
    ensures Lists(x, f, s, es)
  {
    ListingExists(x, f, es);
    var s :| Lists(x, f, s, es);
    s
  }

  /** Without a search the newest come first, with one the best ranked, then the newest; what is level in both comes by
      descending id. */
  lemma ListingOrder(x: Text, f: Filter, es: set<Entry>, i: nat, j: nat)
    requires Keyed(es) && i < j < |Ordered(x, f, es)|
    ensures var a, b := Ordered(x, f, es)[i], Ordered(x, f, es)[j];
      && (f.search == "" ==> a.createdAt >= b.createdAt)
      && (f.search == "" && a.createdAt == b.createdAt ==> a.id.bits > b.id.bits)
      && (f.search != "" ==> x.rank(f.search, a) >= x.rank(f.search, b))
      && (f.search != "" && x.rank(f.search, a) == x.rank(f.search, b) ==> a.createdAt >= b.createdAt)
      && (f.search != "" && x.rank(f.search, a) == x.rank(f.search, b) && a.createdAt == b.createdAt ==>
            a.id.bits > b.id.bits)
  {
    var s := Ordered(x, f, es);
    assert Before(x, f, s[i], s[j]);
  }

  // ---- 64-bit page arithmetic ----

  const MAX64: int := 0x7FFF_FFFF_FFFF_FFFF

  function Wrap64(n: int): int {
    (n + 0x8000_0000_0000_0000) % 0x1_0000_0000_0000_0000 - 0x8000_0000_0000_0000
  }

  /** Go's integer division. */
  function Quot(a: int, b: int): int
    requires b > 0
  {
    if a >= 0 then a / b else -(-a / b)
  }

  datatype PageRequest = PageRequest(page: int, limit: int)

  const MAX_PAGE_SIZE: int := 100

  /** What ParsePageRequest lets through. */
  predicate ValidRequest(r: PageRequest) {
    1 <= r.page <= MAX64 && 1 <= r.limit <= MAX_PAGE_SIZE
  }

  function Offset(r: PageRequest): int {
    Wrap64(Wrap64(r.page - 1) * r.limit)
  }

  datatype Pagination = Pagination(page: int, limit: int, totalItems: int, totalPages: int, hasNext: bool,
    hasPrev: bool)

  function NewPagination(r: PageRequest, total: int): Pagination
    requires r.limit > 0
  {
    var totalPages := if total > 0 then Quot(Wrap64(Wrap64(total + r.limit) - 1), r.limit) else 0;
    Pagination(r.page, r.limit, total, totalPages, r.page < totalPages, r.page > 1 && total > 0)
  }

  lemma OffsetExactIff(r: PageRequest)
    requires ValidRequest(r)
    ensures Offset(r) == (r.page - 1) * r.limit <==> (r.page - 1) * r.limit <= MAX64
  {
    assert Wrap64(r.page - 1) == r.page - 1;
    assert (r.page - 1) * r.limit >= 0;
  }

  lemma RoundsUp(total: int, limit: int)
    requires total > 0 && limit > 0
    ensures var n := (total + limit - 1) / limit; (n - 1) * limit < total <= n * limit
  {
    var n := (total + limit - 1) / limit;
    assert n * limit + (total + limit - 1) % limit == total + limit - 1;
    assert (n - 1) * limit == n * limit - limit;
  }

  lemma NotPositive(n: int, limit: int)
    requires n <= 0 < limit
    ensures n * limit <= 0
  {
  }

  lemma WrappedSum(total: int, limit: int)
    requires 0 <= total <= MAX64 && 1 <= limit <= MAX_PAGE_SIZE
    ensures var sum := total + limit - 1;
      Wrap64(Wrap64(total + limit) - 1) == if sum <= MAX64 then sum else sum - 0x1_0000_0000_0000_0000
  {
  }

  /** Division rounds towards zero: the remainder has the sign of the dividend and is smaller than the divisor. */
  lemma QuotTruncates(a: int, b: int)
    requires b > 0
    ensures -b < a - b * Quot(a, b) < b
    ensures a >= 0 ==> a - b * Quot(a, b) >= 0
    ensures a <= 0 ==> a - b * Quot(a, b) <= 0
  {
  }

  lemma NegativeQuot(a: int, b: int)
    requires a < 0 < b
    ensures Quot(a, b) <= 0
  {
  }

  /** total_pages is the least number of pages that holds every item, exactly while the sum stays in 64 bits. */
  lemma TotalPagesExactIff(r: PageRequest, total: int)
    requires ValidRequest(r) && 0 <= total <= MAX64
    ensures LeastPages(NewPagination(r, total).totalPages, r.limit, total) <==> total + r.limit - 1 <= MAX64
  {
    WrappedSum(total, r.limit);
    var sum := total + r.limit - 1;
    if total > 0 && sum <= MAX64 {
      RoundsUp(total, r.limit);
    } else if total > 0 {
      NegativeQuot(sum - 0x1_0000_0000_0000_0000, r.limit);
      NotPositive(NewPagination(r, total).totalPages, r.limit);
    }
  }

  /** n pages hold the items and one page fewer would not. */
  predicate LeastPages(n: int, limit: int, total: int) {
    if total == 0 then n == 0 else (n - 1) * limit < total <= n * limit
  }

  // ---- Pages ----

  /** A row of the page with its COUNT(*) OVER (). */
  datatype Scanned = Scanned(entry: Entry, count: int)

  datatype Answer = Rows(rows: seq<Scanned>) | Refused

  function Min(a: int, b: int): int {
    if a <= b then a else b
  }

  /** LIMIT and OFFSET on the ordered selection; a negative offset is an error of the database. */
  function Window(s: seq<Entry>, limit: int, offset: int): Answer
    requires limit >= 0
  {
    if offset < 0 then Refused
    else
      var from := Min(offset, |s|);
      Rows(seq(Min(limit, |s| - from), k requires 0 <= k < Min(limit, |s| - from) => Scanned(s[from + k], |s|)))
  }

  datatype Response = Page(posts: seq<Entry>, total: int) | Failed

  function Posts(rows: seq<Scanned>): seq<Entry> {
    seq(|rows|, k requires 0 <= k < |rows| => rows[k].entry)
  }

  /** The total is what the rows carry, so no row means zero. */
  method Scan(rows: seq<Scanned>) returns (posts: seq<Entry>, total: int)
    ensures posts == Posts(rows)
    ensures total == if rows == [] then 0 else rows[|rows| - 1].count
  {
    posts, total := [], 0;
    var k := 0;
    while k < |rows|
      invariant 0 <= k <= |rows| && posts == Posts(rows[..k])
      invariant total == if k == 0 then 0 else rows[k - 1].count
    {
      posts, total := posts + [rows[k].entry], rows[k].count;
      k := k + 1;
      assert Posts(rows[..k]) == Posts(rows[..k - 1]) + [rows[k - 1].entry];
    }
    assert rows[..k] == rows;
  }

  /** What List returns when s is the ordered selection. */
  function Listed(s: seq<Entry>, r: PageRequest): Response
    requires r.limit >= 0
  {
    match Window(s, r.limit, Offset(r))
    case Refused => Failed
    case Rows(rows) => Page(Posts(rows), if rows == [] then 0 else rows[|rows| - 1].count)
  }

  /** The page of the ordered selection, in unbounded arithmetic. */
  function PageOf(s: seq<Entry>, page: int, limit: int): seq<Entry>
    requires page >= 1 && limit >= 1
  {
    s[FirstOf(s, page - 1, limit)..FirstOf(s, page, limit)]
  }

  function FirstOf(s: seq<Entry>, pages: int, limit: int): (n: nat)
    requires pages >= 0 && limit >= 1
    ensures n <= |s|
  {
    if pages == 0 then 0 else Min(FirstOf(s, pages - 1, limit) + limit, |s|)
  }

  lemma FirstOfIsProduct(s: seq<Entry>, pages: nat, limit: int)
    requires limit >= 1
    ensures FirstOf(s, pages, limit) == Min(pages * limit, |s|)
  {
    if pages > 0 {
      FirstOfIsProduct(s, pages - 1, limit);
      assert pages * limit == (pages - 1) * limit + limit;
    }
  }

  function Ideal(s: seq<Entry>, r: PageRequest): Response
    requires ValidRequest(r)
  {
    var page := PageOf(s, r.page, r.limit);
    Page(page, if page == [] then 0 else |s|)
  }

  lemma WindowIsSlice(s: seq<Entry>, limit: int, offset: int)
    requires limit >= 1 && offset >= 0
    ensures Window(s, limit, offset).Rows?
    ensures var from := Min(offset, |s|);
      Posts(Window(s, limit, offset).rows) == s[from..Min(from + limit, |s|)]
  {
  }

  /** A page is right exactly while its offset fits in 64 bits, or wraps to beyond the end. */
  lemma ListedExactIff(s: seq<Entry>, r: PageRequest)
    requires ValidRequest(r) && |s| <= MAX64
    ensures Listed(s, r) == Ideal(s, r) <==> (r.page - 1) * r.limit <= MAX64 || Offset(r) >= |s|
  {
    OffsetExactIff(r);
    FirstOfIsProduct(s, r.page - 1, r.limit);
    if Offset(r) >= 0 {
      WindowIsSlice(s, r.limit, Offset(r));
    }
  }

  /** A page number that passes validation, far beyond the end, that shows the first page again. */
  lemma WrappedOffsetShowsFirstPage(s: seq<Entry>)
    requires s != []
    ensures var r := PageRequest(0x400_0000_0000_0001, 64);
      ValidRequest(r) && Listed(s, r) == Listed(s, PageRequest(1, 64)) && Listed(s, r).posts != []
  {
    assert Offset(PageRequest(0x400_0000_0000_0001, 64)) == 0;
    WindowIsSlice(s, 64, 0);
  }

  function Pages(s: seq<Entry>, limit: int, n: nat): seq<Entry>
    requires limit >= 1
  {
    if n == 0 then [] else Pages(s, limit, n - 1) + PageOf(s, n, limit)
  }

  lemma SlicesJoin(s: seq<Entry>, a: nat, b: nat)
    requires a <= b <= |s|
    ensures s[..a] + s[a..b] == s[..b]
  {
  }

  lemma {:induction false} PagesArePrefix(s: seq<Entry>, limit: int, n: nat)
    requires limit >= 1
    ensures Pages(s, limit, n) == s[..FirstOf(s, n, limit)]
  {
    if n > 0 {
      PagesArePrefix(s, limit, n - 1);
      SlicesJoin(s, FirstOf(s, n - 1, limit), FirstOf(s, n, limit));
    }
  }

  lemma Scaled(a: int, b: int, limit: int)
    requires a <= b && limit >= 0
    ensures a * limit <= b * limit
  {
    assert b * limit - a * limit == (b - a) * limit;
  }

  lemma AtLeastItself(a: int, limit: int)
    requires a >= 0 && limit >= 1
    ensures a <= a * limit
  {
  }

  lemma LastPageStarts(total: int, limit: int)
    requires 1 <= limit <= MAX_PAGE_SIZE && 0 < total && total + limit - 1 <= MAX64
    ensures (NewPagination(PageRequest(1, limit), total).totalPages - 1) * limit < total
  {
    TotalPagesExactIff(PageRequest(1, limit), total);
  }

  lemma EarlierPagesStart(total: int, limit: int, k: int, n: int)
    requires 1 <= limit && 1 <= k <= n && (n - 1) * limit < total
    ensures k <= total && (k - 1) * limit < total && (k < n ==> (k - 1) * limit + limit < total)
  {
    Scaled(k - 1, n - 1, limit);
    AtLeastItself(k - 1, limit);
    if k < n {
      Scaled(k, n - 1, limit);
      assert (k - 1) * limit + limit == k * limit;
    }
  }

  lemma PageLength(s: seq<Entry>, page: int, limit: int, start: int)
    requires page >= 1 && limit >= 1 && start == (page - 1) * limit < |s|
    ensures 0 < |PageOf(s, page, limit)| <= limit
    ensures start + limit < |s| ==> |PageOf(s, page, limit)| == limit
  {
    FirstOfIsProduct(s, page - 1, limit);
  }

  lemma StartedPageIsExact(s: seq<Entry>, r: PageRequest)
    requires ValidRequest(r) && (r.page - 1) * r.limit < |s| <= MAX64
    ensures Offset(r) == (r.page - 1) * r.limit
    ensures Listed(s, r) == Page(PageOf(s, r.page, r.limit), |s|)
  {
    ListedExactIff(s, r);
    OffsetExactIff(r);
    PageLength(s, r.page, r.limit, (r.page - 1) * r.limit);
  }

  /** Within the pages announced: every page is exact, full unless last, and has_next is true on all but the last. */
  lemma AnnouncedPagesAreExact(s: seq<Entry>, limit: int, k: int)
    requires 1 <= limit <= MAX_PAGE_SIZE && |s| + limit - 1 <= MAX64
    requires 1 <= k <= NewPagination(PageRequest(1, limit), |s|).totalPages
    ensures var n, r := NewPagination(PageRequest(1, limit), |s|).totalPages, PageRequest(k, limit);
      && ValidRequest(r) && Offset(r) == (k - 1) * limit
      && Listed(s, r) == Page(PageOf(s, k, limit), |s|)
      && 0 < |PageOf(s, k, limit)| && (k < n ==> |PageOf(s, k, limit)| == limit)
      && var p := NewPagination(r, |s|);
         && p.page == k && p.limit == limit && p.totalItems == |s| && p.totalPages == n
         && (p.hasNext <==> k < n) && (p.hasPrev <==> k > 1)
  {
    LastPageStarts(|s|, limit);
    EarlierPagesStart(|s|, limit, k, NewPagination(PageRequest(1, limit), |s|).totalPages);
    PageLength(s, k, limit, (k - 1) * limit);
    StartedPageIsExact(s, PageRequest(k, limit));
  }

  /** A page after the last is empty and, having no row to read it from, reports a total of zero. */
  lemma PastTheEndTotalIsZero(s: seq<Entry>, r: PageRequest)
    requires ValidRequest(r) && |s| <= (r.page - 1) * r.limit <= MAX64
    ensures Listed(s, r) == Page([], 0)
    ensures !NewPagination(r, Listed(s, r).total).hasNext && !NewPagination(r, Listed(s, r).total).hasPrev
  {
    ListedExactIff(s, r);
    FirstOfIsProduct(s, r.page - 1, r.limit);
  }

  /** Following the pages from the first to the announced last lists the caller's selection in order, each post once. */
  lemma PagesListSelectionOnce(x: Text, table: set<Entry>, actor: P.Option<P.Actor>, f: Filter, limit: int)
    requires Keyed(table) && Rewrite(actor, f).Allowed?
    requires 1 <= limit <= MAX_PAGE_SIZE
    ensures Keyed(Selection(x, table, Rewrite(actor, f).filter))
    ensures var f' := Rewrite(actor, f).filter;
      var s := Ordered(x, f', Selection(x, table, f'));
      |s| + limit - 1 <= MAX64 ==>
        var n := NewPagination(PageRequest(1, limit), |s|).totalPages;
        n >= 0 && Pages(s, limit, n) == s
        && (forall i, j | 0 <= i < j < |s| :: s[i] != s[j])
        && (forall e | e in s :: CanView(actor, e.post))
  {
    var f' := Rewrite(actor, f).filter;
    var es := Selection(x, table, f');
    assert Keyed(es);
    var s := Ordered(x, f', es);
    if |s| + limit - 1 <= MAX64 {
      var n := NewPagination(PageRequest(1, limit), |s|).totalPages;
      TotalPagesExactIff(PageRequest(1, limit), |s|);
      if n < 0 {
        NotPositive(n, limit);
        assert false;
      }
      PagesArePrefix(s, limit, n);
      FirstOfIsProduct(s, n, limit);
      assert s[..|s|] == s;
      forall e | e in s ensures CanView(actor, e.post) {
        assert e in es;
      }
      forall i, j | 0 <= i < j < |s| ensures s[i] != s[j] {
        assert Before(x, f', s[i], s[j]);
      }
    }
  }
}
