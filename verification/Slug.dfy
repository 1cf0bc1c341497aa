/** Slugs of internal/post/slug.go and the posts_slug_format CHECK of migrations/0001_init.up.sql. */
module Slug {

  const MAX_SLUG_LEN: nat := 200

  /** What randomSuffix reads from the random source. */
  type Octets = b: seq<bv8> | |b| == 4 witness [0, 0, 0, 0]

  predicate Alnum(c: char) {
    'a' <= c <= 'z' || '0' <= c <= '9'
  }

  // ---- The CHECK's language: ^[a-z0-9]+(-[a-z0-9]+)*$ ----

  predicate Group(w: string) {
    w != "" && forall k | 0 <= k < |w| :: Alnum(w[k])
  }

  predicate Groups(ws: seq<string>) {
    forall k | 0 <= k < |ws| :: Group(ws[k])
  }

  function Joined(ws: seq<string>): string {
    if ws == [] then ""
    else if |ws| == 1 then ws[0]
    else Joined(ws[..|ws| - 1]) + "-" + ws[|ws| - 1]
  }

  ghost predicate Matches(s: string) {
    exists ws :: ws != [] && Groups(ws) && s == Joined(ws)
  }

  /** The same language read off the characters: no hyphen at either end and no two in a row. */
  predicate Tidy(s: string) {
    && (forall k | 0 <= k < |s| :: Alnum(s[k]) || s[k] == '-')
    && (s != "" ==> s[0] != '-' && s[|s| - 1] != '-')
    && (forall k | 0 < k < |s| :: s[k - 1] == '-' ==> s[k] != '-')
  }

  /** posts_slug_format, the regular expression in its other form (MatchesIffTidy). */
  predicate Checked(s: string) {
    Tidy(s) && 3 <= |s| <= 220
  }

  lemma {:induction false} JoinedIsTidy(ws: seq<string>)
    requires Groups(ws)
    ensures Tidy(Joined(ws))
    ensures Joined(ws) == "" <==> ws == []
  {
    if |ws| == 1 {
      var w := ws[0];
      assert Group(w);
    } else if |ws| > 1 {
      var head, w := Joined(ws[..|ws| - 1]), ws[|ws| - 1];
      JoinedIsTidy(ws[..|ws| - 1]);
      assert Group(w);
      var s := head + "-" + w;
      forall k | 0 < k < |s| && s[k - 1] == '-' ensures s[k] != '-' {
        if k < |head| {
          assert s[k - 1] == head[k - 1];
        } else if k > |head| {
          assert s[k] == w[k - |head| - 1];
        }
      }
    }
  }

  // ---- The alphanumeric runs of a text ----

  predicate EndsInWord(s: string) {
    s != "" && Alnum(s[|s| - 1])
  }

  /** One more character either lengthens the last run, starts a new one, or belongs to none. */
  function Extended(ws: seq<string>, inWord: bool, c: char): seq<string> {
    if !Alnum(c) then ws
    else if inWord && ws != [] then ws[..|ws| - 1] + [ws[|ws| - 1] + [c]]
    else ws + [[c]]
  }

  /** The maximal alphanumeric runs of s, in order. */
  function Words(s: string): seq<string> {
    if s == "" then []
    else
      var before := s[..|s| - 1];
      Extended(Words(before), EndsInWord(before), s[|s| - 1])
  }

  lemma ExtendedIsGroups(ws: seq<string>, inWord: bool, c: char)
    requires Groups(ws)
    ensures Groups(Extended(ws, inWord, c))
  {
    var next := Extended(ws, inWord, c);
    forall k | 0 <= k < |next| ensures Group(next[k]) {
      if k < |ws| {
        assert Group(ws[k]);
      }
    }
  }

  lemma {:induction false} WordsAreGroups(s: string)
    ensures Groups(Words(s))
    ensures EndsInWord(s) ==> Words(s) != []
    decreases |s|
  {
    if s != "" {
      var before := s[..|s| - 1];
      WordsAreGroups(before);
      ExtendedIsGroups(Words(before), EndsInWord(before), s[|s| - 1]);
    }
  }

  lemma AddWord(ws: seq<string>, w: string)
    ensures Joined(ws + [w]) == if ws == [] then w else Joined(ws) + "-" + w
  {
    assert (ws + [w])[..|ws|] == ws;
  }

  lemma GrowAfter(head: seq<string>, w: string, c: char)
    ensures Joined(head + [w + [c]]) == Joined(head + [w]) + [c]
  {
    AddWord(head, w);
    AddWord(head, w + [c]);
    if head != [] {
      assert Joined(head) + "-" + (w + [c]) == Joined(head) + "-" + w + [c];
    }
  }

  lemma GrowLast(ws: seq<string>, c: char)
    requires ws != []
    ensures Joined(Extended(ws, true, c)) == if Alnum(c) then Joined(ws) + [c] else Joined(ws)
  {
    var head, w := ws[..|ws| - 1], ws[|ws| - 1];
    GrowAfter(head, w, c);
    assert ws == head + [w];
  }

  lemma ExtendedAfter(wa: seq<string>, wb: seq<string>, inWord: bool, c: char)
    requires inWord ==> wb != []
    ensures Extended(wa + wb, inWord, c) == wa + Extended(wb, inWord, c)
  {
    var ws := wa + wb;
    if wb != [] {
      assert ws[..|ws| - 1] == wa + wb[..|wb| - 1];
    }
  }

  lemma EndsAfter(a: string, c: char, b: string)
    requires !Alnum(c)
    ensures EndsInWord(a + [c] + b) == EndsInWord(b)
  {
    var s := a + [c] + b;
    if b == "" {
      assert s[|s| - 1] == c;
    } else {
      assert s[|s| - 1] == b[|b| - 1];
    }
  }

  /** Words splits at every character that is not alphanumeric; with WordsOfGroup this determines it. */
  lemma {:induction false} WordsSplit(a: string, c: char, b: string)
    requires !Alnum(c)
    ensures Words(a + [c] + b) == Words(a) + Words(b)
    decreases |b|
  {
    var s := a + [c] + b;
    if b == "" {
      assert s[..|s| - 1] == a;
    } else {
      var n := |b| - 1;
      var before := a + [c] + b[..n];
      WordsSplit(a, c, b[..n]);
      WordsAreGroups(b[..n]);
      assert s[..|s| - 1] == before && s[|s| - 1] == b[n];
      EndsAfter(a, c, b[..n]);
      ExtendedAfter(Words(a), Words(b[..n]), EndsInWord(b[..n]), b[n]);
    }
  }

  lemma {:induction false} WordsOfGroup(w: string)
    ensures Group(w) ==> Words(w) == [w]
    ensures w == "" ==> Words(w) == []
    decreases |w|
  {
    if Group(w) {
      var n := |w| - 1;
      WordsOfGroup(w[..n]);
      assert Alnum(w[n]);
      if n > 0 {
        assert Group(w[..n]);
        assert Alnum(w[n - 1]);
        assert w[..n] + [w[n]] == w;
      } else {
        assert w == [w[n]];
      }
    }
  }

  /** Like Words (WordsSplit, WordsOfGroup), f parts a text at every other character, keeps a group whole and finds
      nothing in an empty text. */
  ghost predicate PartsText(f: string -> seq<string>) {
    && f("") == []
    && (forall w :: Group(w) ==> f(w) == [w])
    && (forall a, c, b :: Parts(f, a, c, b))
  }

  ghost predicate Parts(f: string -> seq<string>, a: string, c: char, b: string) {
    !Alnum(c) ==> f(a + [c] + b) == f(a) + f(b)
  }

  lemma PartedAt(f: string -> seq<string>, a: string, c: char, b: string)
    requires PartsText(f) && !Alnum(c)
    ensures f(a + [c] + b) == f(a) + f(b)
  {
    assert Parts(f, a, c, b);
  }

  lemma KeptWhole(f: string -> seq<string>, w: string)
    requires PartsText(f)
    ensures Group(w) ==> f(w) == [w]
    ensures w == "" ==> f(w) == []
  {
  }

  /** Words is the only function that parts a text like this. */
  lemma {:induction false} WordsAreTheParts(f: string -> seq<string>, s: string)
    requires PartsText(f)
    ensures f(s) == Words(s)
    decreases |s|
  {
    if k :| 0 <= k < |s| && !Alnum(s[k]) {
      var a, c, b := s[..k], s[k], s[k + 1..];
      assert s == a + [c] + b;
      PartedAt(f, a, c, b);
      WordsSplit(a, c, b);
      WordsAreTheParts(f, a);
      WordsAreTheParts(f, b);
    } else {
      KeptWhole(f, s);
      WordsOfGroup(s);
      assert s == "" || Group(s);
    }
  }

  /** What the loop has written after a text: its words joined, and a hyphen once the last word is over. */
  function Built(s: string): string {
    Joined(Words(s)) + if !EndsInWord(s) && Words(s) != [] then "-" else ""
  }

  lemma BuiltStep(s: string, c: char)
    ensures Built(s + [c]) ==
      if Alnum(c) then Built(s) + [c]
      else if EndsInWord(s) then Built(s) + "-"
      else Built(s)
  {
    WordsAreGroups(s);
    assert (s + [c])[..|s|] == s;
    if Alnum(c) {
      if EndsInWord(s) {
        GrowLast(Words(s), c);
      } else {
        AddWord(Words(s), [c]);
      }
    }
  }

  /** A text without a leading or doubled hyphen is written as it stands: its hyphens are exactly where its words
      part. */
  lemma {:induction false} BuiltOfTidy(s: string)
    requires forall k | 0 <= k < |s| :: Alnum(s[k]) || s[k] == '-'
    requires s != "" ==> s[0] != '-'
    requires forall k | 0 < k < |s| :: s[k - 1] == '-' ==> s[k] != '-'
    ensures Built(s) == s
    decreases |s|
  {
    if s != "" {
      var before, c := s[..|s| - 1], s[|s| - 1];
      BuiltOfTidy(before);
      BuiltStep(before, c);
      assert s == before + [c];
      assert !Alnum(c) ==> EndsInWord(before);
    }
  }

  lemma TidyIsJoinedWords(s: string)
    requires Tidy(s)
    ensures s == Joined(Words(s))
  {
    BuiltOfTidy(s);
    assert s != "" ==> EndsInWord(s);
  }

  // ---- Which characters are kept ----

  /** The characters of s from a to z and from 0 to 9. */
  function Kept(s: string): string {
    if s == "" then ""
    else
      var c := s[|s| - 1];
      Kept(s[..|s| - 1]) + (if 'a' <= c <= 'z' || '0' <= c <= '9' then [c] else "")
  }

  lemma {:induction false} KeptConcat(a: string, b: string)
    ensures Kept(a + b) == Kept(a) + Kept(b)
    decreases |b|
  {
    if b == "" {
      assert a + b == a;
    } else {
      var n := |b| - 1;
      assert (a + b)[..|a + b| - 1] == a + b[..n] && (a + b)[|a + b| - 1] == b[n];
      KeptConcat(a, b[..n]);
    }
  }

  lemma KeptOne(c: char)
    ensures Kept([c]) == if 'a' <= c <= 'z' || '0' <= c <= '9' then [c] else ""
  {
    assert [c][..0] == "";
  }

  /** Without its hyphens, what the loop writes is the text's letters and digits, all of them and in order. */
  lemma {:induction false} BuiltKeepsAll(s: string)
    ensures Kept(Built(s)) == Kept(s)
    decreases |s|
  {
    if s != "" {
      var before, c := s[..|s| - 1], s[|s| - 1];
      BuiltKeepsAll(before);
      BuiltStep(before, c);
      assert s == before + [c];
      KeptConcat(before, [c]);
      KeptConcat(Built(before), [c]);
      KeptConcat(Built(before), "-");
      KeptOne(c);
      KeptOne('-');
    }
  }

  lemma JoinedKeepsAll(s: string)
    ensures Kept(Joined(Words(s))) == Kept(s)
  {
    BuiltKeepsAll(s);
    KeptConcat(Joined(Words(s)), "-");
    KeptOne('-');
    assert Joined(Words(s)) + "" == Joined(Words(s));
  }

  /** Without its hyphens a slug that is not random is the title's letters and digits from the start on: all of them,
      unless it was cut. */
  lemma SlugKeepsLettersAndDigits(slug: string, lowered: string, suffix: string)
    requires IsSlugOf(slug, lowered, suffix) && |Joined(Words(lowered))| >= 3
    ensures Kept(slug) <= Kept(lowered)
    ensures |Joined(Words(lowered))| <= MAX_SLUG_LEN ==> Kept(slug) == Kept(lowered)
  {
    var joined := Joined(Words(lowered));
    JoinedKeepsAll(lowered);
    WordsAreGroups(lowered);
    JoinedIsTidy(Words(lowered));
    assert joined == slug + joined[|slug|..];
    KeptConcat(slug, joined[|slug|..]);
    if |joined| <= MAX_SLUG_LEN {
      assert PrefixSlug(joined, joined, MAX_SLUG_LEN);
    }
  }

  /** A title without any letter or digit of the alphabet gets a random slug, as does any that leaves less than three
      characters. */
  lemma NothingLeftIsRandom(slug: string, lowered: string, suffix: string)
    requires IsSlugOf(slug, lowered, suffix)
    ensures |Joined(Words(lowered))| < 3 ==> slug == "post-" + suffix
    ensures Kept(lowered) == "" ==> slug == "post-" + suffix
  {
    var joined := Joined(Words(lowered));
    JoinedKeepsAll(lowered);
    WordsAreGroups(lowered);
    JoinedIsTidy(Words(lowered));
    assert joined != "" ==> Alnum(joined[|joined| - 1]) && Kept(joined) != "";
  }

  /** The regular expression accepts exactly the non-empty texts of lower-case letters, digits and single inner
      hyphens. */
  lemma MatchesIffTidy(s: string)
    ensures Matches(s) <==> s != "" && Tidy(s)
  {
    if Matches(s) {
      var ws :| ws != [] && Groups(ws) && s == Joined(ws);
      JoinedIsTidy(ws);
    }
    if s != "" && Tidy(s) {
      TidyIsJoinedWords(s);
      WordsAreGroups(s);
      var ws := Words(s);
      assert ws != [] && Groups(ws) && s == Joined(ws);
    }
  }

  /** The CHECK: that regular expression, and 3 to 220 characters. */
  lemma CheckedIff(s: string)
    ensures Checked(s) <==> Matches(s) && 3 <= |s| <= 220
  {
    MatchesIffTidy(s);
  }

  // ---- strings.Trim(s, "-") ----

  function TrimLeft(s: string): string {
    if s != "" && s[0] == '-' then TrimLeft(s[1..]) else s
  }

  function TrimRight(s: string): string {
    if s != "" && s[|s| - 1] == '-' then TrimRight(s[..|s| - 1]) else s
  }

  function Trim(s: string): string {
    TrimRight(TrimLeft(s))
  }

  // ---- What Slugify is for ----

  ghost predicate PrefixSlug(p: string, s: string, n: nat) {
    p <= s && |p| <= n && Tidy(p)
  }

  /** The longest prefix of s of at most n characters that is still tidy. */
  ghost predicate LongestSlug(p: string, s: string, n: nat) {
    PrefixSlug(p, s, n) && forall q | PrefixSlug(q, s, n) :: |q| <= |p|
  }

  lemma CutIsLongest(s: string)
    requires Tidy(s) && |s| > MAX_SLUG_LEN
    ensures var p := Trim(s[..MAX_SLUG_LEN]);
      LongestSlug(p, s, MAX_SLUG_LEN) && |p| >= MAX_SLUG_LEN - 1
  {
    var cut := s[..MAX_SLUG_LEN];
    assert cut[0] == s[0] && TrimLeft(cut) == cut;
    if s[MAX_SLUG_LEN - 1] == '-' {
      assert s[MAX_SLUG_LEN - 2] != '-';
      assert cut[..MAX_SLUG_LEN - 1][MAX_SLUG_LEN - 2] == s[MAX_SLUG_LEN - 2];
      assert TrimRight(cut) == cut[..MAX_SLUG_LEN - 1];
      forall q | PrefixSlug(q, s, MAX_SLUG_LEN) ensures |q| <= MAX_SLUG_LEN - 1 {
        assert !Tidy(cut);
        assert q == s[..|q|];
      }
    }
  }

  /** The slug of a lower-cased title, given the random suffix used when too little is left. */
  ghost predicate IsSlugOf(slug: string, lowered: string, suffix: string) {
    var joined := Joined(Words(lowered));
    if |joined| < 3 then slug == "post-" + suffix else LongestSlug(slug, joined, MAX_SLUG_LEN)
  }

  function SlugOf(lowered: string, buf: Octets): string {
    var joined := Joined(Words(lowered));
    var cut := if |joined| > MAX_SLUG_LEN then Trim(joined[..MAX_SLUG_LEN]) else joined;
    if |cut| < 3 then "post-" + Suffix(buf) else cut
  }

  lemma SlugOfIsLongest(lowered: string, buf: Octets)
    ensures IsSlugOf(SlugOf(lowered, buf), lowered, Suffix(buf))
  {
    var joined := Joined(Words(lowered));
    WordsAreGroups(lowered);
    JoinedIsTidy(Words(lowered));
    if |joined| > MAX_SLUG_LEN {
      CutIsLongest(joined);
    } else {
      assert PrefixSlug(joined, joined, MAX_SLUG_LEN);
    }
  }

  lemma TrimmedBuilt(s: string)
    ensures Tidy(Joined(Words(s)))
    ensures Trim(Built(s)) == Joined(Words(s))
  {
    WordsAreGroups(s);
    JoinedIsTidy(Words(s));
    TrimsBack(Joined(Words(s)), Built(s));
  }

  /** What lower-casing does is a parameter, and so are the random bytes. */
  method Slugify(lower: string -> string, title: string, buf: Octets) returns (slug: string)
    ensures slug == SlugOf(lower(title), buf) && IsSlugOf(slug, lower(title), Suffix(buf))
  {
    var b := "";
    var lastWasHyphen := true;
    var lowered := lower(title);
    var k := 0;
    while k < |lowered|
      invariant 0 <= k <= |lowered|
      invariant lastWasHyphen <==> !EndsInWord(lowered[..k])
      invariant b == Built(lowered[..k])
    {
      var r := lowered[k];
      BuiltStep(lowered[..k], r);
      assert lowered[..k + 1] == lowered[..k] + [r];
      if Alnum(r) {
        b := b + [r];
        lastWasHyphen := false;
      } else if !lastWasHyphen {
        b := b + "-";
        lastWasHyphen := true;
      }
      k := k + 1;
    }
    assert lowered[..k] == lowered;
    TrimmedBuilt(lowered);
    SlugOfIsLongest(lowered, buf);

    slug := Trim(b);
    if |slug| > MAX_SLUG_LEN {
      slug := Trim(slug[..MAX_SLUG_LEN]);
    }
    if |slug| < 3 {
      slug := "post-" + Suffix(buf);
    }
  }

  lemma TrimsBack(joined: string, b: string)
    requires Tidy(joined) && (b == joined || (joined != "" && b == joined + "-"))
    ensures Trim(b) == joined
  {
    assert TrimLeft(joined) == joined && TrimRight(joined) == joined;
    if b != joined {
      assert b[0] == joined[0] && TrimLeft(b) == b;
      assert b[..|b| - 1] == joined;
    }
  }

  /** Whatever the title and the lower-casing, the result passes the slug CHECK with room for a suffix. */
  lemma SlugPassesCheck(slug: string, lowered: string, buf: Octets)
    requires IsSlugOf(slug, lowered, Suffix(buf))
    ensures Matches(slug) && 3 <= |slug| <= 200 && Checked(slug)
  {
    var joined := Joined(Words(lowered));
    WordsAreGroups(lowered);
    JoinedIsTidy(Words(lowered));
    SuffixIsGroup(buf);
    if |joined| < 3 {
      assert Group("post") && Groups(["post"]) && Joined(["post"]) == "post";
      SuffixedMatches("post", buf);
    } else {
      if |joined| > MAX_SLUG_LEN {
        CutIsLongest(joined);
      } else {
        assert PrefixSlug(joined, joined, MAX_SLUG_LEN);
      }
    }
    MatchesIffTidy(slug);
  }

  /** On texts lower-casing leaves alone, Slugify changes nothing exactly when they are slugs already. */
  lemma SlugFixedIff(slug: string, title: string, buf: Octets)
    requires IsSlugOf(slug, title, Suffix(buf))
    ensures slug == title <==> Matches(title) && 3 <= |title| <= 200
  {
    SlugPassesCheck(slug, title, buf);
    if Matches(title) && 3 <= |title| <= MAX_SLUG_LEN {
      MatchesIffTidy(title);
      TidyIsJoinedWords(title);
      assert PrefixSlug(title, title, MAX_SLUG_LEN);
    }
  }

  // ---- Suffixes ----

  function WithSuffix(slug: string, buf: Octets): string
  {
    slug + "-" + Suffix(buf)
  }

  lemma SuffixedMatches(slug: string, buf: Octets)
    requires Matches(slug)
    ensures Matches(WithSuffix(slug, buf))
    ensures |WithSuffix(slug, buf)| == |slug| + 7
  {
    var ws :| ws != [] && Groups(ws) && slug == Joined(ws);
    SuffixIsGroup(buf);
    AddWord(ws, Suffix(buf));
    assert Groups(ws + [Suffix(buf)]);
  }

  /** A retry's slug passes the CHECK too, and is never the base slug nor the retry slug of another base. */
  lemma RetrySlugPassesCheck(slug: string, buf: Octets, slug': string, buf': Octets)
    requires Matches(slug) && 3 <= |slug| <= MAX_SLUG_LEN
    ensures Checked(WithSuffix(slug, buf)) && |WithSuffix(slug, buf)| <= 207
    ensures WithSuffix(slug, buf) != slug
    ensures WithSuffix(slug, buf) == WithSuffix(slug', buf') <==> slug == slug' && TopBits(buf) == TopBits(buf')
  {
    SuffixedMatches(slug, buf);
    MatchesIffTidy(WithSuffix(slug, buf));
    SuffixIsGroup(buf);
    SuffixIsGroup(buf');
    SuffixOneToOne(buf, buf');
    var s, s' := WithSuffix(slug, buf), WithSuffix(slug', buf');
    assert s[|s| - 6..] == Suffix(buf) && s[..|s| - 7] == slug;
    assert s'[|s'| - 6..] == Suffix(buf') && s'[..|s'| - 7] == slug';
  }

  // ---- Base 32, section 6 of RFC 4648, without padding ----

  const ALPHABET: string := "abcdefghijklmnopqrstuvwxyz234567"

  function ByteBits(b: bv8): seq<bool> {
    [b & 128 != 0, b & 64 != 0, b & 32 != 0, b & 16 != 0, b & 8 != 0, b & 4 != 0, b & 2 != 0, b & 1 != 0]
  }

  /** The octets as one bit string, most significant bit first. */
  function Bits(buf: seq<bv8>): seq<bool> {
    if buf == [] then [] else ByteBits(buf[0]) + Bits(buf[1..])
  }

  function Bit(b: bool): nat {
    if b then 1 else 0
  }

  function Quintet(bits: seq<bool>): (v: nat)
    requires |bits| == 5
    ensures v < 32
  {
    16 * Bit(bits[0]) + 8 * Bit(bits[1]) + 4 * Bit(bits[2]) + 2 * Bit(bits[3]) + Bit(bits[4])
  }

  /** Five bits a character; a last short group is filled up with zero bits. */
  function Encode(bits: seq<bool>): string {
    if bits == [] then ""
    else if |bits| < 5 then [ALPHABET[Quintet(bits + seq(5 - |bits|, _ => false))]]
    else [ALPHABET[Quintet(bits[..5])]] + Encode(bits[5..])
  }

  /** Six characters of the encoding of four octets. */
  function Suffix(buf: Octets): (s: string)
    ensures |s| == 6
  {
    EncodeLength(Bits(buf));
    BitsLength(buf);
    Encode(Bits(buf))[..6]
  }

  function TopBits(buf: Octets): (bits: seq<bool>)
    ensures |bits| == 30
  {
    BitsLength(buf);
    Bits(buf)[..30]
  }

  lemma BitsLength(buf: seq<bv8>)
    ensures |Bits(buf)| == 8 * |buf|
  {
  }

  lemma EncodeLength(bits: seq<bool>)
    ensures |Encode(bits)| == (|bits| + 4) / 5
  {
  }

  lemma {:induction false} EncodePrefix(bits: seq<bool>, n: nat)
    requires 5 * n <= |bits|
    ensures n <= |Encode(bits)| && Encode(bits)[..n] == Encode(bits[..5 * n])
    decreases n
  {
    EncodeLength(bits);
    if n > 0 {
      var top := bits[..5 * n];
      EncodePrefix(bits[5..], n - 1);
      assert top[..5] == bits[..5];
      assert top[5..] == bits[5..][..5 * (n - 1)];
      assert Encode(bits)[..n] == [Encode(bits)[0]] + Encode(bits)[1..][..n - 1];
    }
  }

  lemma SuffixEncodesTopBits(buf: Octets)
    ensures Suffix(buf) == Encode(TopBits(buf))
  {
    BitsLength(buf);
    EncodePrefix(Bits(buf), 6);
  }

  lemma {:induction false} EncodedIsAlnum(bits: seq<bool>)
    ensures forall k | 0 <= k < |Encode(bits)| :: Alnum(Encode(bits)[k])
    decreases |bits|
  {
    if |bits| >= 5 {
      EncodedIsAlnum(bits[5..]);
    }
  }

  lemma SuffixIsGroup(buf: Octets)
    ensures Group(Suffix(buf))
  {
    SuffixEncodesTopBits(buf);
    EncodedIsAlnum(TopBits(buf));
  }

  function Index(c: char): nat {
    if 'a' <= c <= 'z' then c as nat - 'a' as nat
    else if '2' <= c <= '7' then c as nat - '2' as nat + 26
    else 0
  }

  lemma IndexInvertsAlphabet(v: nat)
    requires v < 32
    ensures Index(ALPHABET[v]) == v
  {
  }

  function QuintetBits(v: nat): seq<bool> {
    [v / 16 % 2 == 1, v / 8 % 2 == 1, v / 4 % 2 == 1, v / 2 % 2 == 1, v % 2 == 1]
  }

  lemma QuintetBitsInverts(bits: seq<bool>)
    requires |bits| == 5
    ensures QuintetBits(Quintet(bits)) == bits
  {
  }

  lemma QuintetInverts(v: nat)
    requires v < 32
    ensures Quintet(QuintetBits(v)) == v
  {
  }

  function Decode(s: string): seq<bool> {
    if s == "" then [] else QuintetBits(Index(s[0])) + Decode(s[1..])
  }

  lemma {:induction false} DecodeInvertsEncode(bits: seq<bool>)
    requires |bits| % 5 == 0
    ensures Decode(Encode(bits)) == bits
    decreases |bits|
  {
    if bits != [] {
      DecodeInvertsEncode(bits[5..]);
      QuintetBitsInverts(bits[..5]);
      IndexInvertsAlphabet(Quintet(bits[..5]));
      assert bits == bits[..5] + bits[5..];
    }
  }

  predicate Base32(s: string) {
    forall k | 0 <= k < |s| :: s[k] in ALPHABET
  }

  lemma {:induction false} EncodeInvertsDecode(s: string)
    requires Base32(s)
    ensures Encode(Decode(s)) == s && |Decode(s)| == 5 * |s|
    decreases |s|
  {
    if s != "" {
      EncodeInvertsDecode(s[1..]);
      var v :| 0 <= v < |ALPHABET| && ALPHABET[v] == s[0];
      IndexInvertsAlphabet(v);
      QuintetInverts(v);
      assert Decode(s)[..5] == QuintetBits(v);
      assert Decode(s)[5..] == Decode(s[1..]);
    }
  }

  /** Equal suffixes come from equal top thirty bits and from nothing else. */
  lemma SuffixOneToOne(a: Octets, b: Octets)
    ensures Suffix(a) == Suffix(b) <==> TopBits(a) == TopBits(b)
  {
    SuffixEncodesTopBits(a);
    SuffixEncodesTopBits(b);
    DecodeInvertsEncode(TopBits(a));
    DecodeInvertsEncode(TopBits(b));
  }

  function ByteOf(bits: seq<bool>): bv8
    requires |bits| == 8
  {
      (if bits[0] then 128 else 0) | (if bits[1] then 64 else 0)
    | (if bits[2] then 32 else 0) | (if bits[3] then 16 else 0)
    | (if bits[4] then 8 else 0) | (if bits[5] then 4 else 0) | (if bits[6] then 2 else 0) | (if bits[7] then 1 else 0)
  }

  lemma ByteBitsInverts(bits: seq<bool>)
    requires |bits| == 8
    ensures ByteBits(ByteOf(bits)) == bits
  {
  }

  function Bytes(bits: seq<bool>): seq<bv8>
    requires |bits| % 8 == 0
  {
    if bits == [] then [] else [ByteOf(bits[..8])] + Bytes(bits[8..])
  }

  lemma {:induction false} BytesInvertsBits(bits: seq<bool>)
    requires |bits| % 8 == 0
    ensures Bits(Bytes(bits)) == bits
    ensures 8 * |Bytes(bits)| == |bits|
    decreases |bits|
  {
    if bits != [] {
      var rest := Bytes(bits[8..]);
      BytesInvertsBits(bits[8..]);
      ByteBitsInverts(bits[..8]);
      assert Bytes(bits)[1..] == rest;
      assert bits == bits[..8] + bits[8..];
    }
  }

  /** Every six characters of the alphabet are the suffix of some four octets. */
  lemma EverySuffixArises(s: string)
    requires |s| == 6 && Base32(s)
    ensures exists buf: Octets :: Suffix(buf) == s
  {
    EncodeInvertsDecode(s);
    var bits := Decode(s) + [false, false];
    var buf := Bytes(bits);
    BytesInvertsBits(bits);
    assert TopBits(buf) == Decode(s);
    SuffixEncodesTopBits(buf);
  }

  // ---- The same characters by shifts and masks of the octets ----

  lemma SlicesShift<T>(s: seq<T>, n: nat, i: nat, j: nat)
    requires i <= j && n + j <= |s|
    ensures s[n..][i..j] == s[n + i..n + j]
  {
  }

  lemma {:induction false} EncodeAt(bits: seq<bool>, k: nat)
    requires 5 * k + 5 <= |bits|
    ensures k < |Encode(bits)| && Encode(bits)[k] == ALPHABET[Quintet(bits[5 * k..5 * k + 5])]
    decreases k
  {
    if k > 0 {
      var rest := bits[5..];
      EncodeAt(rest, k - 1);
      SlicesShift(bits, 5, 5 * k - 5, 5 * k);
      assert Encode(bits) == [ALPHABET[Quintet(bits[..5])]] + Encode(rest);
    }
  }

  lemma {:induction false} BitsAt(buf: seq<bv8>, i: nat, j: nat)
    requires i < |buf| && j < 8
    ensures 8 * i + j < |Bits(buf)| && Bits(buf)[8 * i + j] == ByteBits(buf[i])[j]
    decreases i
  {
    BitsLength(buf);
    if i > 0 {
      BitsAt(buf[1..], i - 1, j);
      assert Bits(buf)[8 * i + j] == Bits(buf[1..])[8 * (i - 1) + j];
    }
  }

  lemma SuffixQuintet(buf: Octets, k: nat)
    requires k < 6
    ensures |Bits(buf)| == 32 && Suffix(buf)[k] == ALPHABET[Quintet(Bits(buf)[5 * k..5 * k + 5])]
  {
    BitsLength(buf);
    EncodeAt(Bits(buf), k);
  }

  lemma QuintetAt(bits: seq<bool>, m: nat)
    requires m + 5 <= |bits|
    ensures Quintet(bits[m..m + 5]) ==
      16 * Bit(bits[m]) + 8 * Bit(bits[m + 1]) + 4 * Bit(bits[m + 2]) + 2 * Bit(bits[m + 3]) + Bit(bits[m + 4])
  {
    var q := bits[m..m + 5];
    assert q[0] == bits[m] && q[1] == bits[m + 1] && q[2] == bits[m + 2] && q[3] == bits[m + 3] && q[4] == bits[m + 4];
  }

  /** The five bits from bit j of octet i on, which may run over into the next octet. */
  function Digit(buf: Octets, i: nat, j: nat): nat
    requires j < 8 && 8 * i + j + 5 <= 32
  {
    16 * BitAt(buf, i, j) + 8 * BitAt(buf, i, j + 1) + 4 * BitAt(buf, i, j + 2) + 2 * BitAt(buf, i, j + 3)
      + BitAt(buf, i, j + 4)
  }

  lemma QuintetSpans(buf: Octets, i: nat, j: nat)
    requires j < 8 && 8 * i + j + 5 <= 32 && |Bits(buf)| == 32
    ensures Quintet(Bits(buf)[8 * i + j..8 * i + j + 5]) == Digit(buf, i, j)
  {
    QuintetAt(Bits(buf), 8 * i + j);
    BitIsAt(buf, i, j);
    BitIsAt(buf, i, j + 1);
    BitIsAt(buf, i, j + 2);
    BitIsAt(buf, i, j + 3);
    BitIsAt(buf, i, j + 4);
  }

  function BitAt(buf: Octets, i: nat, j: nat): nat
    requires j < 16 && 8 * i + j < 32
  {
    Bit(if j < 8 then ByteBits(buf[i])[j] else ByteBits(buf[i + 1])[j - 8])
  }

  lemma BitIsAt(buf: Octets, i: nat, j: nat)
    requires j < 16 && 8 * i + j < 32
    ensures 8 * i + j < |Bits(buf)| && Bit(Bits(buf)[8 * i + j]) == BitAt(buf, i, j)
  {
    if j < 8 {
      BitsAt(buf, i, j);
    } else {
      BitsAt(buf, i + 1, j - 8);
    }
  }

  /** Digit k of the octets in base 32, by shifts and masks. */
  function Shifted(buf: Octets, k: nat): bv8 {
    match k
    case 0 => buf[0] >> 3
    case 1 => ((buf[0] & 7) << 2) | (buf[1] >> 6)
    case 2 => (buf[1] >> 1) & 31
    case 3 => ((buf[1] & 1) << 4) | (buf[2] >> 4)
    case 4 => ((buf[2] & 15) << 1) | (buf[3] >> 7)
    case _ => (buf[3] >> 2) & 31
  }

  lemma WithinOctet(buf: Octets, i: nat)
    requires i < 4
    ensures (buf[i] >> 3) as nat == Digit(buf, i, 0)
    ensures ((buf[i] >> 2) & 31) as nat == Digit(buf, i, 1)
    ensures ((buf[i] >> 1) & 31) as nat == Digit(buf, i, 2)
  {
  }

  lemma AcrossOctets(buf: Octets, i: nat)
    requires i < 3
    ensures (((buf[i] & 7) << 2) | (buf[i + 1] >> 6)) as nat == Digit(buf, i, 5)
    ensures (((buf[i] & 1) << 4) | (buf[i + 1] >> 4)) as nat == Digit(buf, i, 7)
    ensures (((buf[i] & 15) << 1) | (buf[i + 1] >> 7)) as nat == Digit(buf, i, 4)
  {
  }

  lemma ShiftedWithin(buf: Octets, k: nat)
    requires k == 0 || k == 2 || k == 5
    ensures Shifted(buf, k) as nat == Digit(buf, 5 * k / 8, 5 * k % 8)
  {
    WithinOctet(buf, 5 * k / 8);
  }

  lemma ShiftedAcross(buf: Octets, k: nat)
    requires k == 1 || k == 3 || k == 4
    ensures Shifted(buf, k) as nat == Digit(buf, 5 * k / 8, 5 * k % 8)
  {
    AcrossOctets(buf, 5 * k / 8);
  }

  lemma QuintetIsShifted(buf: Octets, k: nat)
    requires k < 6 && |Bits(buf)| == 32
    ensures Quintet(Bits(buf)[5 * k..5 * k + 5]) == Shifted(buf, k) as nat
  {
    QuintetSpans(buf, 5 * k / 8, 5 * k % 8);
    if k == 0 || k == 2 || k == 5 {
      ShiftedWithin(buf, k);
    } else {
      ShiftedAcross(buf, k);
    }
  }

  /** The suffix, character by character: the top thirty bits of the four octets in five-bit digits, most significant
      first, zero to twenty-five written a to z and the rest 2 to 7. */
  lemma SuffixCharacters(buf: Octets, k: nat)
    requires k < 6
    ensures Shifted(buf, k) < 32
    ensures Suffix(buf)[k] == "abcdefghijklmnopqrstuvwxyz234567"[Shifted(buf, k) as nat]
  {
    SuffixQuintet(buf, k);
    QuintetIsShifted(buf, k);
  }
}
