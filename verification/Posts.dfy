/** Posts as internal/post/service.go and internal/post/repository.go write them: slugs allocated by retrying, and edits
    whose status was read in an earlier statement. Any number of calls interleave between statements. */
module Posts {
  import opened Runs
  import Slug

  datatype Option<T> = None | Some(value: T)

  datatype Uuid = Uuid(bits: int)

  datatype Status = Draft | Published

  datatype Post = Post(author: Uuid, title: string, slug: string, status: Status, publishedAt: Option<int>,
    deleted: bool)

  type Table = map<Uuid, Post>

  datatype Actor = Actor(user: Uuid, admin: bool)

  predicate CanModify(actor: Actor, owner: Uuid) {
    actor.admin || actor.user == owner
  }

  datatype Error = SlugTaken | Conflict | NotFound | Forbidden | Unauthorized | CheckViolation

  datatype Reply = Reply(table: Table, error: Option<Error>)

  /** How slugs are made and checked: of a title, of a slug already taken, and by posts_slug_format. */
  datatype Naming = Naming(
    slug: (string, Slug.Octets) -> string,
    retried: (string, Slug.Octets) -> string,
    accepts: string -> bool)

  ghost predicate Sound(n: Naming) {
    forall title, buf, again :: SoundFor(n, title, buf, again)
  }

  ghost predicate SoundFor(n: Naming, title: string, buf: Slug.Octets, again: Slug.Octets) {
    n.accepts(n.slug(title, buf)) && n.accepts(n.retried(n.slug(title, buf), again))
  }

  /** The slugs of slug.go; SlugOf is what its Slugify is proved to compute. */
  function Slugs(lower: string -> string): Naming {
    Naming(
      (title: string, buf: Slug.Octets) => Slug.SlugOf(lower(title), buf),
      (slug: string, buf: Slug.Octets) => Slug.WithSuffix(slug, buf),
      (slug: string) => Slug.Checked(slug))
  }

  lemma SlugsAreSound(lower: string -> string)
    ensures Sound(Slugs(lower))
  {
    forall title: string, buf: Slug.Octets, again: Slug.Octets
      ensures SoundFor(Slugs(lower), title, buf, again)
    {
      var slug := Slug.SlugOf(lower(title), buf);
      Slug.SlugOfIsLongest(lower(title), buf);
      Slug.SlugPassesCheck(slug, lower(title), buf);
      Slug.RetrySlugPassesCheck(slug, again, slug, again);
    }
  }

  const SLUG_ATTEMPTS: nat := 3

  // ---- The statements ----

  predicate Live(table: Table, id: Uuid) {
    id in table && !table[id].deleted
  }

  /** posts_slug_active_unique would refuse this slug for row id. */
  predicate Taken(table: Table, id: Uuid, slug: string) {
    exists other | other in table :: other != id && !table[other].deleted && table[other].slug == slug
  }

  /** posts_slug_format and posts_published_at_consistent. */
  predicate Checks(n: Naming, p: Post) {
    n.accepts(p.slug) && (p.status.Published? <==> p.publishedAt.Some?)
  }

  function Insert(n: Naming, table: Table, id: Uuid, p: Post, authorExists: bool): Reply
    requires id !in table
  {
    if !Checks(n, p) then Reply(table, Some(CheckViolation))
    else if Taken(table, id, p.slug) then Reply(table, Some(SlugTaken))
    else if !authorExists then Reply(table, Some(Unauthorized))
    else Reply(table[id := p], None)
  }

  /** What one PATCH asks for, with the status AuthorOf read before it. */
  datatype Edit = Edit(id: Uuid, read: Status, title: Option<string>, status: Option<Status>, now: int)

  function Edited(p: Post, e: Edit, slug: Option<string>): Post {
    p.(
      title := if e.title.Some? then e.title.value else p.title,
      slug := if slug.Some? then slug.value else p.slug,
      status := if e.status.Some? then e.status.value else p.status,
      publishedAt :=
        if e.status == Some(Draft) then None
        else if e.status == Some(Published) && e.read != Published then Some(e.now)
        else p.publishedAt)
  }

  function Update(n: Naming, table: Table, e: Edit, slug: Option<string>): Reply {
    if !Live(table, e.id) then Reply(table, Some(NotFound))
    else
      var p := Edited(table[e.id], e, slug);
      if !Checks(n, p) then Reply(table, Some(CheckViolation))
      else if Taken(table, e.id, p.slug) then Reply(table, Some(SlugTaken))
      else Reply(table[e.id := p], None)
  }

  function Delete(table: Table, id: Uuid): Table {
    if Live(table, id) then table[id := table[id].(deleted := true)] else table
  }

  /** authorize, after AuthorOf. */
  function Authorize(table: Table, actor: Actor, id: Uuid): Option<Error> {
    if !Live(table, id) then Some(NotFound)
    else if CanModify(actor, table[id].author) then None
    else if table[id].status != Published then Some(NotFound)
    else Some(Forbidden)
  }

  // ---- Calls in flight ----

  datatype Draught = Draught(author: Uuid, title: string, status: Status, now: int)

  function Fresh(d: Draught, slug: string): Post {
    Post(d.author, d.title, slug, d.status, if d.status.Published? then Some(d.now) else None, false)
  }

  datatype Call =
    | Creating(draught: Draught, base: string, attempt: nat)
    | Editing(actor: Actor, edit: Edit, renamed: Option<string>, attempt: nat)
    | Finished(error: Option<Error>)

  datatype Sys = Sys(table: Table, calls: seq<Call>)

  function Candidate(n: Naming, base: string, attempt: nat, buf: Slug.Octets): string {
    if attempt == 0 then base else n.retried(base, buf)
  }

  /** After one statement of a call: a taken slug is tried again with a suffix, three attempts in all. */
  function After(c: Call, error: Option<Error>): Call
    requires !c.Finished?
  {
    if error != Some(SlugTaken) || (c.Editing? && c.renamed.None?) then Finished(error)
    else if c.attempt + 1 < SLUG_ATTEMPTS then c.(attempt := c.attempt + 1)
    else Finished(Some(Conflict))
  }

  /** One attempt of call c: its statement's reply. */
  function Try(n: Naming, table: Table, c: Call, id: Uuid, buf: Slug.Octets, authorExists: bool): Reply
    requires !c.Finished? && id !in table
  {
    match c
    case Creating(d, base, attempt) => Insert(n, table, id, Fresh(d, Candidate(n, base, attempt, buf)), authorExists)
    case Editing(_, e, renamed, attempt) =>
      Update(n, table, e, if renamed.Some? then Some(Candidate(n, renamed.value, attempt, buf)) else None)
  }

  datatype Action =
    | BeginCreate(draught: Draught, buf: Slug.Octets)
    | BeginUpdate(actor: Actor, edit: Edit, buf: Slug.Octets)
    | Attempt(i: nat, id: Uuid, buf: Slug.Octets, authorExists: bool)
    | Remove(id: Uuid)

  function Started(n: Naming, table: Table, a: Action): Call
    requires a.BeginCreate? || a.BeginUpdate?
  {
    if a.BeginCreate? then Creating(a.draught, n.slug(a.draught.title, a.buf), 0)
    else
      var e, refused := a.edit, Authorize(table, a.actor, a.edit.id);
      if refused.Some? then Finished(refused)
      else
        var renamed := if e.title.Some? then Some(n.slug(e.title.value, a.buf)) else None;
        Editing(a.actor, e.(read := table[e.id].status), renamed, 0)
  }

  /** An attempt is one statement, and inserts under an id never used before. */
  function Step(n: Naming, s: Sys, a: Action): Sys {
    match a
    case BeginCreate(_, _) => s.(calls := s.calls + [Started(n, s.table, a)])
    case BeginUpdate(_, _, _) => s.(calls := s.calls + [Started(n, s.table, a)])
    case Attempt(i, id, buf, authorExists) =>
      if i < |s.calls| && !s.calls[i].Finished? && id !in s.table then
        var r := Try(n, s.table, s.calls[i], id, buf, authorExists);
        Sys(r.table, s.calls[i := After(s.calls[i], r.error)])
      else s
    case Remove(id) => s.(table := Delete(s.table, id))
  }

  // ---- What every run keeps ----

  ghost predicate BaseOf(n: Naming, title: string, base: string) {
    exists buf: Slug.Octets :: base == n.slug(title, buf)
  }

  ghost predicate RetryOf(n: Naming, base: string, slug: string) {
    exists buf: Slug.Octets :: slug == n.retried(base, buf)
  }

  ghost predicate SlugOfTitle(n: Naming, title: string, slug: string) {
    exists base :: BaseOf(n, title, base) && (slug == base || RetryOf(n, base, slug))
  }

  ghost predicate RowOk(n: Naming, p: Post) {
    Checks(n, p) && SlugOfTitle(n, p.title, p.slug)
  }

  ghost predicate LiveSlugsDiffer(table: Table) {
    forall a, b | a in table && b in table && a != b && !table[a].deleted && !table[b].deleted ::
      table[a].slug != table[b].slug
  }

  ghost predicate Good(n: Naming, table: Table) {
    LiveSlugsDiffer(table) && forall id | id in table :: RowOk(n, table[id])
  }

  ghost predicate CallOk(n: Naming, table: Table, c: Call) {
    match c
    case Creating(d, base, _) => BaseOf(n, d.title, base)
    case Editing(actor, e, renamed, _) =>
      && e.id in table && CanModify(actor, table[e.id].author)
      && (renamed.Some? <==> e.title.Some?)
      && (renamed.Some? ==> BaseOf(n, e.title.value, renamed.value))
    case Finished(_) => true
  }

  ghost predicate Inv(n: Naming, s: Sys) {
    Good(n, s.table) && forall i | 0 <= i < |s.calls| :: CallOk(n, s.table, s.calls[i])
  }

  lemma CandidateOk(n: Naming, title: string, base: string, attempt: nat, buf: Slug.Octets)
    requires Sound(n) && BaseOf(n, title, base)
    ensures n.accepts(Candidate(n, base, attempt, buf))
    ensures SlugOfTitle(n, title, Candidate(n, base, attempt, buf))
  {
    var slug := Candidate(n, base, attempt, buf);
    var first :| base == n.slug(title, first);
    assert SoundFor(n, title, first, buf);
    assert slug == base || RetryOf(n, base, slug);
  }

  /** The stale read: the caller saw a published post and asks for published, so sends no time, and it is a draft by
      now. */
  predicate StalePublish(table: Table, c: Call) {
    && c.Editing? && c.edit.status == Some(Published) && c.edit.read == Published
    && Live(table, c.edit.id) && table[c.edit.id].status == Draft
  }

  /** A CHECK constraint refuses an attempt exactly on a stale read; the slug's never does. */
  lemma CheckFiresIffStale(n: Naming, table: Table, c: Call, id: Uuid, buf: Slug.Octets, authorExists: bool)
    requires Sound(n) && Good(n, table) && CallOk(n, table, c) && !c.Finished? && id !in table
    ensures Try(n, table, c, id, buf, authorExists).error == Some(CheckViolation) <==> StalePublish(table, c)
  {
    match c
    case Creating(d, base, attempt) => CandidateOk(n, d.title, base, attempt, buf);
    case Editing(_, e, renamed, attempt) =>
      if renamed.Some? {
        CandidateOk(n, e.title.value, renamed.value, attempt, buf);
      }
      assert RowOk(n, table[e.id]);
  }

  /** The other stale read: a successful edit of a published post that stays published moves its publication time
      exactly when the caller saw a draft and asks for published, at another instant than the one on record. */
  lemma PublicationMovesIffStale(n: Naming, table: Table, c: Call, id: Uuid, buf: Slug.Octets, authorExists: bool)
    requires c.Editing? && id !in table && Try(n, table, c, id, buf, authorExists).error.None?
    requires table[c.edit.id].status == Published
    requires Try(n, table, c, id, buf, authorExists).table[c.edit.id].status == Published
    ensures Try(n, table, c, id, buf, authorExists).table[c.edit.id].publishedAt != table[c.edit.id].publishedAt
      <==> c.edit.read == Draft && c.edit.status == Some(Published) && table[c.edit.id].publishedAt != Some(c.edit.now)
  {
  }

  /** Two requests that both read a draft and publish it: the second moves the time the first has set. Every live draft
      allows it. */
  lemma PublicationMoves(n: Naming, table: Table, id: Uuid, other: Uuid, buf: Slug.Octets, first: int, second: int)
    requires Good(n, table) && Live(table, id) && table[id].status == Draft && other !in table
    ensures
      var owner := Actor(table[id].author, false);
      var s1 := Step(n, Sys(table, []), BeginUpdate(owner, Edit(id, Draft, None, Some(Published), first), buf));
      var s2 := Step(n, s1, BeginUpdate(owner, Edit(id, Draft, None, Some(Published), second), buf));
      var s3 := Step(n, s2, Attempt(0, other, buf, true));
      var s4 := Step(n, s3, Attempt(1, other, buf, true));
      && s4.calls == [Finished(None), Finished(None)]
      && id in s3.table && s3.table[id].status == Published && s3.table[id].publishedAt == Some(first)
      && id in s4.table && s4.table[id].status == Published && s4.table[id].publishedAt == Some(second)
  {
    assert RowOk(n, table[id]);
    assert !Taken(table, id, table[id].slug);
    var publish, again := Edit(id, Draft, None, Some(Published), first), Edit(id, Draft, None, Some(Published), second);
    var mid := table[id := Edited(table[id], publish, None)];
    assert Update(n, table, publish, None) == Reply(mid, None);
    assert !Taken(mid, id, mid[id].slug);
    assert Update(n, mid, again, None) == Reply(mid[id := Edited(mid[id], again, None)], None);
  }

  lemma PutKeepsGood(n: Naming, table: Table, id: Uuid, p: Post)
    requires Good(n, table) && RowOk(n, p)
    requires p.deleted || !Taken(table, id, p.slug)
    ensures Good(n, table[id := p])
  {
  }

  lemma EditedRowOk(n: Naming, table: Table, e: Edit, slug: Option<string>)
    requires Good(n, table) && e.id in table && Checks(n, Edited(table[e.id], e, slug))
    requires slug.Some? <==> e.title.Some?
    requires slug.Some? ==> SlugOfTitle(n, e.title.value, slug.value)
    ensures RowOk(n, Edited(table[e.id], e, slug))
  {
    assert RowOk(n, table[e.id]);
  }

  lemma TryKeepsGood(n: Naming, table: Table, c: Call, id: Uuid, buf: Slug.Octets, authorExists: bool)
    requires Sound(n) && Good(n, table) && CallOk(n, table, c) && !c.Finished? && id !in table
    ensures Good(n, Try(n, table, c, id, buf, authorExists).table)
  {
    if Try(n, table, c, id, buf, authorExists).error.None? {
      match c
      case Creating(d, base, attempt) =>
        CandidateOk(n, d.title, base, attempt, buf);
        PutKeepsGood(n, table, id, Fresh(d, Candidate(n, base, attempt, buf)));
      case Editing(_, e, renamed, attempt) =>
        var slug := if renamed.Some? then Some(Candidate(n, renamed.value, attempt, buf)) else None;
        if renamed.Some? {
          CandidateOk(n, e.title.value, renamed.value, attempt, buf);
        }
        EditedRowOk(n, table, e, slug);
        PutKeepsGood(n, table, e.id, Edited(table[e.id], e, slug));
    }
  }

  /** Rows stay and keep their author, so an authorisation decided on an earlier read is still right. */
  ghost predicate Grows(table: Table, table': Table) {
    forall id | id in table :: id in table' && table'[id].author == table[id].author
  }

  lemma CallStaysOk(n: Naming, table: Table, table': Table, c: Call)
    requires Grows(table, table') && CallOk(n, table, c)
    ensures CallOk(n, table', c)
  {
  }

  lemma AfterStaysOk(n: Naming, table: Table, c: Call, error: Option<Error>)
    requires CallOk(n, table, c) && !c.Finished?
    ensures CallOk(n, table, After(c, error))
  {
  }

  lemma TryGrows(n: Naming, table: Table, c: Call, id: Uuid, buf: Slug.Octets, authorExists: bool)
    requires !c.Finished? && id !in table
    ensures Grows(table, Try(n, table, c, id, buf, authorExists).table)
  {
  }

  lemma AttemptKeepsInv(n: Naming, s: Sys, i: nat, id: Uuid, buf: Slug.Octets, authorExists: bool)
    requires Sound(n) && Inv(n, s) && i < |s.calls| && !s.calls[i].Finished? && id !in s.table
    ensures Inv(n, Step(n, s, Attempt(i, id, buf, authorExists)))
  {
    var c := s.calls[i];
    var r := Try(n, s.table, c, id, buf, authorExists);
    assert CallOk(n, s.table, c);
    TryKeepsGood(n, s.table, c, id, buf, authorExists);
    TryGrows(n, s.table, c, id, buf, authorExists);
    AfterStaysOk(n, s.table, c, r.error);
    var calls := s.calls[i := After(c, r.error)];
    forall j | 0 <= j < |calls| ensures CallOk(n, r.table, calls[j]) {
      assert CallOk(n, s.table, calls[j]);
      CallStaysOk(n, s.table, r.table, calls[j]);
    }
  }

  lemma StartedIsOk(n: Naming, table: Table, a: Action)
    requires a.BeginCreate? || a.BeginUpdate?
    ensures CallOk(n, table, Started(n, table, a))
  {
  }

  lemma RemoveKeepsInv(n: Naming, s: Sys, id: Uuid)
    requires Inv(n, s)
    ensures Inv(n, Step(n, s, Remove(id)))
  {
    var table' := Delete(s.table, id);
    if Live(s.table, id) {
      assert RowOk(n, s.table[id]);
      PutKeepsGood(n, s.table, id, s.table[id].(deleted := true));
    }
    forall j | 0 <= j < |s.calls| ensures CallOk(n, table', s.calls[j]) {
      CallStaysOk(n, s.table, table', s.calls[j]);
    }
  }

  lemma StepKeepsInv(n: Naming, s: Sys, a: Action)
    requires Sound(n) && Inv(n, s)
    ensures Inv(n, Step(n, s, a))
  {
    match a
    case BeginCreate(_, _) => StartedIsOk(n, s.table, a);
    case BeginUpdate(_, _, _) => StartedIsOk(n, s.table, a);
    case Attempt(i, id, buf, authorExists) =>
      if i < |s.calls| && !s.calls[i].Finished? && id !in s.table {
        AttemptKeepsInv(n, s, i, id, buf, authorExists);
      }
    case Remove(id) => RemoveKeepsInv(n, s, id);
  }

  // ---- Whose row it is, and what an edit leaves alone ----

  /** The row a create stores is the one it was asked for, under one of its candidate slugs. */
  lemma InsertedRow(n: Naming, s: Sys, i: nat, id: Uuid, buf: Slug.Octets, authorExists: bool)
    requires i < |s.calls| && s.calls[i].Creating? && id !in s.table
    ensures var d, t := s.calls[i].draught, Step(n, s, Attempt(i, id, buf, authorExists));
      if t.calls[i] == Finished(None) then
        && t.table.Keys == s.table.Keys + {id} && t.table - {id} == s.table
        && t.table[id].author == d.author && t.table[id].title == d.title && t.table[id].status == d.status
        && t.table[id].publishedAt == (if d.status == Published then Some(d.now) else None) && !t.table[id].deleted
      else t.table == s.table
  {
  }

  lemma StepGrows(n: Naming, s: Sys, a: Action)
    ensures Grows(s.table, Step(n, s, a).table)
  {
    if a.Attempt? && a.i < |s.calls| && !s.calls[a.i].Finished? && a.id !in s.table {
      TryGrows(n, s.table, s.calls[a.i], a.id, a.buf, a.authorExists);
    }
  }

  /** Over every run a row stays, and belongs to the author of the call that inserted it. */
  lemma AuthorIsTheInserter(
      n: Naming, s: Sys, i: nat, id: Uuid, buf: Slug.Octets, authorExists: bool, later: seq<Action>)
    requires i < |s.calls| && s.calls[i].Creating? && id !in s.table
    requires Step(n, s, Attempt(i, id, buf, authorExists)).calls[i] == Finished(None)
    ensures var t := Run((x, a) => Step(n, x, a), Step(n, s, Attempt(i, id, buf, authorExists)), later);
      id in t.table && t.table[id].author == s.calls[i].draught.author
  {
    var step := (x: Sys, a: Action) => Step(n, x, a);
    var author := s.calls[i].draught.author;
    var owned := (x: Sys) => id in x.table && x.table[id].author == author;
    InsertedRow(n, s, i, id, buf, authorExists);
    forall x: Sys, a: Action | owned(x) ensures owned(step(x, a)) {
      StepGrows(n, x, a);
    }
    RunKeeps(step, owned, step(s, Attempt(i, id, buf, authorExists)), later);
  }

  /** An edit that goes through changes what was asked for: the author and the deletion mark stay, and so do a title and
      its slug, a status and its time that nothing was asked about. */
  lemma EditLeavesTheRest(n: Naming, table: Table, e: Edit, slug: Option<string>)
    requires Update(n, table, e, slug).error.None?
    ensures e.id in table && !table[e.id].deleted
    ensures var p, q := table[e.id], Update(n, table, e, slug).table[e.id];
      && Update(n, table, e, slug).table == table[e.id := q]
      && q.author == p.author && !q.deleted
      && q.title == (if e.title.Some? then e.title.value else p.title)
      && q.slug == (if slug.Some? then slug.value else p.slug)
      && q.status == (if e.status.Some? then e.status.value else p.status)
      && (e.status.None? ==> q.publishedAt == p.publishedAt)
      && (e.status == Some(Draft) ==> q.publishedAt.None?)
      && (e.status == Some(Published) && e.read == Draft ==> q.publishedAt == Some(e.now))
      && (e.status == Some(Published) && e.read == Published ==> q.publishedAt == p.publishedAt)
  {
  }

  /** Who may not modify a post is told what they could see anyway: a draft is answered like no post at all, and only a
      published one is forbidden. */
  lemma RefusalsDiscloseNothing(table: Table, actor: Actor, id: Uuid)
    ensures Authorize(table, actor, id) ==
      if id !in table || table[id].deleted then Some(NotFound)
      else if actor.admin || actor.user == table[id].author then None
      else if table[id].status == Published then Some(Forbidden)
      else Authorize(map[], actor, id)
  {
  }

  /** A removed post keeps its row, marked, and nothing that is called later brings it back or changes it. */
  lemma RemovedForGood(n: Naming, s: Sys, id: Uuid, later: seq<Action>)
    requires Live(s.table, id)
    ensures Step(n, s, Remove(id)).table - {id} == s.table - {id}
    ensures var t, p := Run((x, a) => Step(n, x, a), Step(n, s, Remove(id)), later), s.table[id];
      id in t.table && t.table[id] == Post(p.author, p.title, p.slug, p.status, p.publishedAt, true)
  {
    var step := (x: Sys, a: Action) => Step(n, x, a);
    var gone := s.table[id].(deleted := true);
    var kept := (x: Sys) => id in x.table && x.table[id] == gone;
    forall x: Sys, a: Action | kept(x) ensures kept(step(x, a)) {
      GoneStays(n, x, a, id);
    }
    RunKeeps(step, kept, step(s, Remove(id)), later);
  }

  lemma GoneStays(n: Naming, s: Sys, a: Action, id: Uuid)
    requires id in s.table && s.table[id].deleted
    ensures id in Step(n, s, a).table && Step(n, s, a).table[id] == s.table[id]
  {
  }

  const EMPTY: Sys := Sys(map[], [])

  /** Over every interleaving: live slugs are unique, every slug passes its CHECK and is the slug of its own row's
      title, a post is published exactly when it has a publication time, and whoever is editing it may. */
  lemma PostsAlwaysConsistent(lower: string -> string, actions: seq<Action>)
    ensures var n := Slugs(lower);
      Inv(n, Run((s, a) => Step(n, s, a), EMPTY, actions))
  {
    var n := Slugs(lower);
    SlugsAreSound(lower);
    var step := (s: Sys, a: Action) => Step(n, s, a);
    var inv := (s: Sys) => Inv(n, s);
    forall s: Sys, a: Action | inv(s) ensures inv(step(s, a)) {
      StepKeepsInv(n, s, a);
    }
    RunKeeps(step, inv, EMPTY, actions);
  }

  /** One request unpublishes a post between another's read and its write: the other, asking only for what it read, is
      refused as an internal error. Every live published post allows it. */
  lemma StalePublishArises(n: Naming, table: Table, id: Uuid, other: Uuid, buf: Slug.Octets)
    requires Good(n, table) && Live(table, id) && table[id].status == Published && other !in table
    ensures
      var owner := Actor(table[id].author, false);
      var s1 := Step(n, Sys(table, []), BeginUpdate(owner, Edit(id, Draft, None, Some(Published), 0), buf));
      var s2 := Step(n, s1, BeginUpdate(owner, Edit(id, Draft, None, Some(Draft), 0), buf));
      var s3 := Step(n, s2, Attempt(1, other, buf, true));
      Step(n, s3, Attempt(0, other, buf, true)).calls == [Finished(Some(CheckViolation)), Finished(None)]
  {
    assert RowOk(n, table[id]);
    assert !Taken(table, id, table[id].slug);
    var unpublish := Edit(id, Published, None, Some(Draft), 0);
    assert Update(n, table, unpublish, None) == Reply(table[id := Edited(table[id], unpublish, None)], None);
  }

  // ---- One call on its own ----

  /** The position of the first candidate no other live row holds. */
  function FirstFree(table: Table, id: Uuid, candidates: seq<string>): (k: nat)
    ensures k <= |candidates|
    ensures k < |candidates| ==> !Taken(table, id, candidates[k])
    ensures forall j | 0 <= j < k :: Taken(table, id, candidates[j])
  {
    if candidates == [] || !Taken(table, id, candidates[0]) then 0 else 1 + FirstFree(table, id, candidates[1..])
  }

  /** bufs[0] serves Slugify, bufs[k] the k-th retry. */
  function Candidates(n: Naming, title: string, bufs: seq<Slug.Octets>): seq<string>
    requires |bufs| == SLUG_ATTEMPTS
  {
    var base := n.slug(title, bufs[0]);
    [base, n.retried(base, bufs[1]), n.retried(base, bufs[2])]
  }

  function AttemptsFrom(i: nat, ids: seq<Uuid>, bufs: seq<Slug.Octets>, authorExists: bool, k: nat): seq<Action>
    requires |ids| == |bufs| == SLUG_ATTEMPTS && k <= SLUG_ATTEMPTS
    decreases SLUG_ATTEMPTS - k
  {
    if k == SLUG_ATTEMPTS then []
    else [Attempt(i, ids[k], bufs[k], authorExists)] + AttemptsFrom(i, ids, bufs, authorExists, k + 1)
  }

  ghost predicate CreatedAlone(
      n: Naming, before: Table, d: Draught, ids: seq<Uuid>, bufs: seq<Slug.Octets>, authorExists: bool,
      after: Table, error: Option<Error>)
    requires |ids| == |bufs| == SLUG_ATTEMPTS
  {
    var candidates := Candidates(n, d.title, bufs);
    var k := FirstFree(before, ids[0], candidates);
    if k == SLUG_ATTEMPTS then error == Some(Conflict) && after == before
    else if !authorExists then error == Some(Unauthorized) && after == before
    else error == None && after == before[ids[k] := Fresh(d, candidates[k])]
  }

  ghost predicate EditedAlone(
      n: Naming, before: Table, e: Edit, bufs: seq<Slug.Octets>, after: Table, error: Option<Error>)
    requires e.id in before && |bufs| == SLUG_ATTEMPTS
  {
    if e.title.None? then error == None && after == before[e.id := Edited(before[e.id], e, None)]
    else
      var candidates := Candidates(n, e.title.value, bufs);
      var k := FirstFree(before, e.id, candidates);
      if k == SLUG_ATTEMPTS then error == Some(Conflict) && after == before
      else error == None && after == before[e.id := Edited(before[e.id], e, Some(candidates[k]))]
  }

  predicate AllTaken(table: Table, id: Uuid, candidates: seq<string>, k: nat)
    requires k <= |candidates|
  {
    forall j | 0 <= j < k :: Taken(table, id, candidates[j])
  }

  lemma FinishedStands(
      n: Naming, s: Sys, i: nat, ids: seq<Uuid>, bufs: seq<Slug.Octets>, authorExists: bool, k: nat)
    requires |ids| == |bufs| == SLUG_ATTEMPTS && k <= SLUG_ATTEMPTS
    requires i < |s.calls| && s.calls[i].Finished?
    ensures Run((x, a) => Step(n, x, a), s, AttemptsFrom(i, ids, bufs, authorExists, k)) == s
    decreases SLUG_ATTEMPTS - k
  {
    if k < SLUG_ATTEMPTS {
      FinishedStands(n, s, i, ids, bufs, authorExists, k + 1);
    }
  }

  lemma CreateTakesFreeSlug(
      n: Naming, table: Table, d: Draught, buf: Slug.Octets, k: nat, again: Slug.Octets, id: Uuid, authorExists: bool)
    requires Sound(n) && id !in table
    ensures var slug := Candidate(n, n.slug(d.title, buf), k, again);
      Insert(n, table, id, Fresh(d, slug), authorExists) ==
        if Taken(table, id, slug) then Reply(table, Some(SlugTaken))
        else if !authorExists then Reply(table, Some(Unauthorized))
        else Reply(table[id := Fresh(d, slug)], None)
  {
    CandidateOk(n, d.title, n.slug(d.title, buf), k, again);
  }

  lemma CreateStep(
      n: Naming, s: Sys, i: nat, d: Draught, ids: seq<Uuid>, bufs: seq<Slug.Octets>, authorExists: bool, k: nat)
    requires Sound(n) && |ids| == |bufs| == SLUG_ATTEMPTS && k < SLUG_ATTEMPTS
    requires ids[0] !in s.table && ids[k] !in s.table
    requires i < |s.calls| && s.calls[i] == Creating(d, n.slug(d.title, bufs[0]), k)
    ensures var slug := Candidates(n, d.title, bufs)[k];
      Step(n, s, Attempt(i, ids[k], bufs[k], authorExists)) ==
        if !Taken(s.table, ids[0], slug) then
          if authorExists then Sys(s.table[ids[k] := Fresh(d, slug)], s.calls[i := Finished(None)])
          else Sys(s.table, s.calls[i := Finished(Some(Unauthorized))])
        else if k + 1 == SLUG_ATTEMPTS then Sys(s.table, s.calls[i := Finished(Some(Conflict))])
        else Sys(s.table, s.calls[i := Creating(d, n.slug(d.title, bufs[0]), k + 1)])
  {
    CreateTakesFreeSlug(n, s.table, d, bufs[0], k, bufs[k], ids[k], authorExists);
    var slug := Candidates(n, d.title, bufs)[k];
    assert Candidate(n, n.slug(d.title, bufs[0]), k, bufs[k]) == slug;
    assert Taken(s.table, ids[k], slug) == Taken(s.table, ids[0], slug);
  }

  lemma CreateFromAttempt(
      n: Naming, s: Sys, i: nat, d: Draught, ids: seq<Uuid>, bufs: seq<Slug.Octets>, authorExists: bool, k: nat)
    requires Sound(n) && |ids| == |bufs| == SLUG_ATTEMPTS && k < SLUG_ATTEMPTS
    requires forall j | 0 <= j < SLUG_ATTEMPTS :: ids[j] !in s.table
    requires i < |s.calls| && s.calls[i] == Creating(d, n.slug(d.title, bufs[0]), k)
    requires AllTaken(s.table, ids[0], Candidates(n, d.title, bufs), k)
    ensures var t := Run((x, a) => Step(n, x, a), s, AttemptsFrom(i, ids, bufs, authorExists, k));
      && i < |t.calls| && t.calls[i].Finished? && t.calls == s.calls[i := t.calls[i]]
      && CreatedAlone(n, s.table, d, ids, bufs, authorExists, t.table, t.calls[i].error)
    decreases SLUG_ATTEMPTS - k
  {
    var candidates := Candidates(n, d.title, bufs);
    CreateStep(n, s, i, d, ids, bufs, authorExists, k);
    var next := Step(n, s, Attempt(i, ids[k], bufs[k], authorExists));
    if Taken(s.table, ids[0], candidates[k]) && k + 1 < SLUG_ATTEMPTS {
      CreateFromAttempt(n, next, i, d, ids, bufs, authorExists, k + 1);
    } else {
      assert Taken(s.table, ids[0], candidates[k]) || FirstFree(s.table, ids[0], candidates) == k;
      FinishedStands(n, next, i, ids, bufs, authorExists, k + 1);
    }
  }

  /** The statements of a create that nothing interrupts take the first free candidate, or end in a conflict after
      three. */
  lemma CreateIsItsAttempts(
      n: Naming, s: Sys, d: Draught, ids: seq<Uuid>, bufs: seq<Slug.Octets>, authorExists: bool)
    requires Sound(n) && |ids| == |bufs| == SLUG_ATTEMPTS
    requires forall j | 0 <= j < SLUG_ATTEMPTS :: ids[j] !in s.table
    ensures var i := |s.calls|;
      var t := Run((x, a) => Step(n, x, a), s,
                   [BeginCreate(d, bufs[0])] + AttemptsFrom(i, ids, bufs, authorExists, 0));
      exists error :: t.calls == s.calls + [Finished(error)]
        && CreatedAlone(n, s.table, d, ids, bufs, authorExists, t.table, error)
  {
    var i, step := |s.calls|, (x: Sys, a: Action) => Step(n, x, a);
    var s1, actions := Step(n, s, BeginCreate(d, bufs[0])), AttemptsFrom(i, ids, bufs, authorExists, 0);
    CreateFromAttempt(n, s1, i, d, ids, bufs, authorExists, 0);
    assert ([BeginCreate(d, bufs[0])] + actions)[1..] == actions;
    var t := Run(step, s1, actions);
    assert t.calls == s.calls + [Finished(t.calls[i].error)];
  }

  lemma UntitledEditGoesThrough(n: Naming, table: Table, e: Edit)
    requires Good(n, table) && Live(table, e.id) && e.read == table[e.id].status && e.title.None?
    ensures Update(n, table, e, None) == Reply(table[e.id := Edited(table[e.id], e, None)], None)
  {
    assert RowOk(n, table[e.id]);
    assert !Taken(table, e.id, table[e.id].slug);
  }

  lemma TitledEditTakesFreeSlug(
      n: Naming, table: Table, e: Edit, buf: Slug.Octets, k: nat, again: Slug.Octets)
    requires Sound(n) && Good(n, table) && Live(table, e.id) && e.read == table[e.id].status && e.title.Some?
    ensures var slug := Candidate(n, n.slug(e.title.value, buf), k, again);
      Update(n, table, e, Some(slug)) ==
        if Taken(table, e.id, slug) then Reply(table, Some(SlugTaken))
        else Reply(table[e.id := Edited(table[e.id], e, Some(slug))], None)
  {
    assert RowOk(n, table[e.id]);
    CandidateOk(n, e.title.value, n.slug(e.title.value, buf), k, again);
  }

  lemma TitledEditStep(
      n: Naming, s: Sys, i: nat, actor: Actor, e: Edit, ids: seq<Uuid>, bufs: seq<Slug.Octets>, authorExists: bool,
      k: nat)
    requires Sound(n) && Good(n, s.table) && |ids| == |bufs| == SLUG_ATTEMPTS && k < SLUG_ATTEMPTS
    requires ids[k] !in s.table && Live(s.table, e.id) && e.read == s.table[e.id].status && e.title.Some?
    requires i < |s.calls| && s.calls[i] == Editing(actor, e, Some(n.slug(e.title.value, bufs[0])), k)
    ensures var slug := Candidates(n, e.title.value, bufs)[k];
      Step(n, s, Attempt(i, ids[k], bufs[k], authorExists)) ==
        if !Taken(s.table, e.id, slug) then
          Sys(s.table[e.id := Edited(s.table[e.id], e, Some(slug))], s.calls[i := Finished(None)])
        else if k + 1 == SLUG_ATTEMPTS then Sys(s.table, s.calls[i := Finished(Some(Conflict))])
        else Sys(s.table, s.calls[i := Editing(actor, e, Some(n.slug(e.title.value, bufs[0])), k + 1)])
  {
    TitledEditTakesFreeSlug(n, s.table, e, bufs[0], k, bufs[k]);
    assert Candidate(n, n.slug(e.title.value, bufs[0]), k, bufs[k]) == Candidates(n, e.title.value, bufs)[k];
  }

  lemma LastTryEdits(n: Naming, table: Table, e: Edit, bufs: seq<Slug.Octets>, k: nat)
    requires |bufs| == SLUG_ATTEMPTS && k < SLUG_ATTEMPTS && e.id in table && e.title.Some?
    requires AllTaken(table, e.id, Candidates(n, e.title.value, bufs), k)
    ensures var slug := Candidates(n, e.title.value, bufs)[k];
      if !Taken(table, e.id, slug) then
        EditedAlone(n, table, e, bufs, table[e.id := Edited(table[e.id], e, Some(slug))], None)
      else k + 1 == SLUG_ATTEMPTS ==> EditedAlone(n, table, e, bufs, table, Some(Conflict))
  {
    var candidates := Candidates(n, e.title.value, bufs);
    assert Taken(table, e.id, candidates[k]) || FirstFree(table, e.id, candidates) == k;
  }

  lemma FirstAttemptFirst(
      n: Naming, s: Sys, i: nat, ids: seq<Uuid>, bufs: seq<Slug.Octets>, authorExists: bool, k: nat)
    requires |ids| == |bufs| == SLUG_ATTEMPTS && k < SLUG_ATTEMPTS
    ensures Run((x, a) => Step(n, x, a), s, AttemptsFrom(i, ids, bufs, authorExists, k)) ==
      Run((x, a) => Step(n, x, a), Step(n, s, Attempt(i, ids[k], bufs[k], authorExists)),
          AttemptsFrom(i, ids, bufs, authorExists, k + 1))
  {
  }

  lemma LastEditAttempt(
      n: Naming, s: Sys, i: nat, actor: Actor, e: Edit, ids: seq<Uuid>, bufs: seq<Slug.Octets>, authorExists: bool,
      k: nat)
    requires Sound(n) && Good(n, s.table) && |ids| == |bufs| == SLUG_ATTEMPTS && k < SLUG_ATTEMPTS
    requires forall j | 0 <= j < SLUG_ATTEMPTS :: ids[j] !in s.table
    requires Live(s.table, e.id) && e.read == s.table[e.id].status && e.title.Some?
    requires i < |s.calls| && s.calls[i] == Editing(actor, e, Some(n.slug(e.title.value, bufs[0])), k)
    requires AllTaken(s.table, e.id, Candidates(n, e.title.value, bufs), k)
    requires k + 1 < SLUG_ATTEMPTS ==> !Taken(s.table, e.id, Candidates(n, e.title.value, bufs)[k])
    ensures var t := Run((x, a) => Step(n, x, a), s, AttemptsFrom(i, ids, bufs, authorExists, k));
      && i < |t.calls| && t.calls[i].Finished? && t.calls == s.calls[i := t.calls[i]]
      && EditedAlone(n, s.table, e, bufs, t.table, t.calls[i].error)
  {
    TitledEditStep(n, s, i, actor, e, ids, bufs, authorExists, k);
    FirstAttemptFirst(n, s, i, ids, bufs, authorExists, k);
    LastTryEdits(n, s.table, e, bufs, k);
    FinishedStands(n, Step(n, s, Attempt(i, ids[k], bufs[k], authorExists)), i, ids, bufs, authorExists, k + 1);
  }

  lemma EditFromAttempt(
      n: Naming, s: Sys, i: nat, actor: Actor, e: Edit, ids: seq<Uuid>, bufs: seq<Slug.Octets>, authorExists: bool,
      k: nat)
    requires Sound(n) && Good(n, s.table) && |ids| == |bufs| == SLUG_ATTEMPTS && k < SLUG_ATTEMPTS
    requires forall j | 0 <= j < SLUG_ATTEMPTS :: ids[j] !in s.table
    requires Live(s.table, e.id) && e.read == s.table[e.id].status && e.title.Some?
    requires i < |s.calls| && s.calls[i] == Editing(actor, e, Some(n.slug(e.title.value, bufs[0])), k)
    requires AllTaken(s.table, e.id, Candidates(n, e.title.value, bufs), k)
    ensures var t := Run((x, a) => Step(n, x, a), s, AttemptsFrom(i, ids, bufs, authorExists, k));
      && i < |t.calls| && t.calls[i].Finished? && t.calls == s.calls[i := t.calls[i]]
      && EditedAlone(n, s.table, e, bufs, t.table, t.calls[i].error)
    decreases SLUG_ATTEMPTS - k
  {
    if k + 1 < SLUG_ATTEMPTS && Taken(s.table, e.id, Candidates(n, e.title.value, bufs)[k]) {
      var next := Step(n, s, Attempt(i, ids[k], bufs[k], authorExists));
      TitledEditStep(n, s, i, actor, e, ids, bufs, authorExists, k);
      FirstAttemptFirst(n, s, i, ids, bufs, authorExists, k);
      EditFromAttempt(n, next, i, actor, e, ids, bufs, authorExists, k + 1);
    } else {
      LastEditAttempt(n, s, i, actor, e, ids, bufs, authorExists, k);
    }
  }

  lemma UntitledEditStands(
      n: Naming, s: Sys, i: nat, e: Edit, ids: seq<Uuid>, bufs: seq<Slug.Octets>, authorExists: bool)
    requires Sound(n) && Good(n, s.table) && |ids| == |bufs| == SLUG_ATTEMPTS && ids[0] !in s.table
    requires Live(s.table, e.id) && e.read == s.table[e.id].status && e.title.None?
    requires i < |s.calls| && s.calls[i].Editing? && s.calls[i] == Editing(s.calls[i].actor, e, None, 0)
    ensures Run((x, a) => Step(n, x, a), s, AttemptsFrom(i, ids, bufs, authorExists, 0)) ==
      Sys(s.table[e.id := Edited(s.table[e.id], e, None)], s.calls[i := Finished(None)])
  {
    UntitledEditGoesThrough(n, s.table, e);
    var next := Step(n, s, Attempt(i, ids[0], bufs[0], authorExists));
    FinishedStands(n, next, i, ids, bufs, authorExists, 1);
  }

  /** So do those of an edit, once authorize has let it through; refused, it leaves everything as it was. */
  lemma EditIsItsAttempts(
      n: Naming, s: Sys, actor: Actor, edit: Edit, ids: seq<Uuid>, bufs: seq<Slug.Octets>, authorExists: bool)
    requires Sound(n) && Good(n, s.table) && |ids| == |bufs| == SLUG_ATTEMPTS
    requires forall j | 0 <= j < SLUG_ATTEMPTS :: ids[j] !in s.table
    ensures var i, refused := |s.calls|, Authorize(s.table, actor, edit.id);
      var t := Run((x, a) => Step(n, x, a), s,
                   [BeginUpdate(actor, edit, bufs[0])] + AttemptsFrom(i, ids, bufs, authorExists, 0));
      exists error :: t.calls == s.calls + [Finished(error)]
        && (if refused.Some? then error == refused && t.table == s.table
            else EditedAlone(n, s.table, edit.(read := s.table[edit.id].status), bufs, t.table, error))
  {
    var i, step := |s.calls|, (x: Sys, a: Action) => Step(n, x, a);
    var s1, actions := Step(n, s, BeginUpdate(actor, edit, bufs[0])), AttemptsFrom(i, ids, bufs, authorExists, 0);
    if Authorize(s.table, actor, edit.id).Some? {
      FinishedStands(n, s1, i, ids, bufs, authorExists, 0);
    } else if edit.title.Some? {
      EditFromAttempt(n, s1, i, actor, edit.(read := s.table[edit.id].status), ids, bufs, authorExists, 0);
    } else {
      UntitledEditStands(n, s1, i, edit.(read := s.table[edit.id].status), ids, bufs, authorExists);
    }
    assert ([BeginUpdate(actor, edit, bufs[0])] + actions)[1..] == actions;
    var t := Run(step, s1, actions);
    assert t.calls == s.calls + [Finished(t.calls[i].error)];
  }

  class Service {
    var posts: Table
    const naming: Naming

    constructor (lower: string -> string)
      ensures posts == map[] && naming == Slugs(lower) && Good(naming, posts)
    {
      this.posts := map[];
      this.naming := Slugs(lower);
    }

    /** A conflict means three taken slugs and an untouched table; otherwise the first free one is stored. */
    method Create(
        d: Draught, ids: seq<Uuid>, bufs: seq<Slug.Octets>, authorExists: bool)
        returns (error: Option<Error>, post: Post)
      requires Sound(naming) && Good(naming, posts)
      requires |ids| == |bufs| == SLUG_ATTEMPTS && forall k | 0 <= k < SLUG_ATTEMPTS :: ids[k] !in posts
      modifies this
      ensures Good(naming, posts)
      ensures CreatedAlone(naming, old(posts), d, ids, bufs, authorExists, posts, error)
      ensures error == None ==>
        && post.author == d.author && post.title == d.title && post.status == d.status && !post.deleted
        && post.publishedAt == (if d.status == Published then Some(d.now) else None)
        && exists k :: 0 <= k < SLUG_ATTEMPTS && posts == old(posts)[ids[k] := post]
    {
      var base := naming.slug(d.title, bufs[0]);
      post := Fresh(d, base);
      ghost var candidates := Candidates(naming, d.title, bufs);
      var attempt := 0;
      while attempt < SLUG_ATTEMPTS
        invariant 0 <= attempt <= SLUG_ATTEMPTS && posts == old(posts)
        invariant forall j | 0 <= j < attempt :: Taken(posts, ids[0], candidates[j])
      {
        var slug := if attempt > 0 then naming.retried(base, bufs[attempt]) else base;
        assert slug == candidates[attempt] == Candidate(naming, base, attempt, bufs[attempt]);
        assert Taken(posts, ids[attempt], slug) == Taken(posts, ids[0], slug);
        post := Fresh(d, slug);
        CandidateOk(naming, d.title, base, attempt, bufs[attempt]);
        var reply := Insert(naming, posts, ids[attempt], post, authorExists);
        posts, error := reply.table, reply.error;
        if error != Some(SlugTaken) {
          if error == None {
            PutKeepsGood(naming, old(posts), ids[attempt], post);
          }
          return;
        }
        attempt := attempt + 1;
      }
      error := Some(Conflict);
    }

    /** With nothing between read and write no CHECK can refuse. */
    method Edit(actor: Actor, edit: Edit, bufs: seq<Slug.Octets>) returns (error: Option<Error>)
      requires Sound(naming) && Good(naming, posts) && |bufs| == SLUG_ATTEMPTS
      modifies this
      ensures Good(naming, posts)
      ensures Authorize(old(posts), actor, edit.id).Some? ==>
        error == Authorize(old(posts), actor, edit.id) && posts == old(posts)
      ensures Authorize(old(posts), actor, edit.id).None? ==>
        EditedAlone(naming, old(posts), edit.(read := old(posts)[edit.id].status), bufs, posts, error)
    {
      error := Authorize(posts, actor, edit.id);
      if error.None? {
        var e := edit.(read := posts[edit.id].status);
        if e.title.None? {
          assert RowOk(naming, posts[e.id]);
          var reply := Update(naming, posts, e, None);
          posts, error := reply.table, reply.error;
          PutKeepsGood(naming, old(posts), e.id, Edited(old(posts)[e.id], e, None));
        } else {
          error := UpdateWithSlugRetry(e, bufs);
        }
      }
    }

    method UpdateWithSlugRetry(e: Edit, bufs: seq<Slug.Octets>) returns (error: Option<Error>)
      requires Sound(naming) && Good(naming, posts) && |bufs| == SLUG_ATTEMPTS
      requires Live(posts, e.id) && e.read == posts[e.id].status && e.title.Some?
      modifies this
      ensures Good(naming, posts)
      ensures EditedAlone(naming, old(posts), e, bufs, posts, error)
    {
      var base := naming.slug(e.title.value, bufs[0]);
      ghost var candidates := Candidates(naming, e.title.value, bufs);
      assert RowOk(naming, posts[e.id]);
      var attempt := 0;
      while attempt < SLUG_ATTEMPTS
        invariant 0 <= attempt <= SLUG_ATTEMPTS && posts == old(posts)
        invariant forall j | 0 <= j < attempt :: Taken(posts, e.id, candidates[j])
      {
        var candidate := if attempt > 0 then naming.retried(base, bufs[attempt]) else base;
        assert candidate == candidates[attempt] == Candidate(naming, base, attempt, bufs[attempt]);
        CandidateOk(naming, e.title.value, base, attempt, bufs[attempt]);
        var reply := Update(naming, posts, e, Some(candidate));
        posts, error := reply.table, reply.error;
        if error != Some(SlugTaken) {
          EditedRowOk(naming, old(posts), e, Some(candidate));
          PutKeepsGood(naming, old(posts), e.id, Edited(old(posts)[e.id], e, Some(candidate)));
          return;
        }
        attempt := attempt + 1;
      }
      error := Some(Conflict);
    }
  }
}
