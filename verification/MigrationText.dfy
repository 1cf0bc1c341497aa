/** The texts of migration files: what checksum in internal/platform/postgres/migrate.go tells apart, and which texts
    count as no script. */
module MigrationText {
  import opened Migrations

  // ---- Line endings ----

  const CRLF: string := "\r\n"

  predicate HasCRLF(s: string) {
    exists i | 0 <= i < |s| - 1 :: s[i] == '\r' && s[i + 1] == '\n'
  }

  /** f changes each CRLF into LF and nothing else. */
  ghost predicate NormalisesEndings(f: string -> string) {
    && (forall s | !HasCRLF(s) :: f(s) == s)
    && (forall a, b :: f(a + CRLF + b) == f(a) + "\n" + f(b))
  }

  lemma {:induction false} WithoutCRLF(s: string)
    requires !HasCRLF(s)
    ensures Normalised(s) == s
    decreases |s|
  {
    if s != "" {
      assert |s| >= 2 ==> !(s[0] == '\r' && s[0 + 1] == '\n');
      forall i | 0 <= i < |s[1..]| - 1 ensures !(s[1..][i] == '\r' && s[1..][i + 1] == '\n') {
        assert s[1..][i] == s[i + 1] && s[1..][i + 1] == s[i + 2];
      }
      WithoutCRLF(s[1..]);
      assert s == [s[0]] + s[1..];
    }
  }

  lemma OtherStays(c: char, s: string)
    requires !(c == '\r' && s != "" && s[0] == '\n')
    ensures Normalised([c] + s) == [c] + Normalised(s)
  {
    assert ([c] + s)[1..] == s;
  }

  lemma PairShrinks(s: string)
    ensures Normalised(CRLF + s) == "\n" + Normalised(s)
  {
    assert (CRLF + s)[2..] == s;
  }

  lemma Regroup(x: string, y: string, z: string, w: string)
    ensures x + (y + z + w) == x + y + z + w
  {
  }

  lemma AfterPair(rest: string, mid: string, tail: string)
    requires Normalised(mid) == Normalised(rest) + "\n" + tail
    ensures Normalised(CRLF + mid) == Normalised(CRLF + rest) + "\n" + tail
  {
    PairShrinks(rest);
    PairShrinks(mid);
    Regroup("\n", Normalised(rest), "\n", tail);
  }

  lemma AfterOther(c: char, rest: string, mid: string, tail: string)
    requires Normalised(mid) == Normalised(rest) + "\n" + tail
    requires mid != "" && (c == '\r' ==> mid[0] != '\n' && (rest != "" ==> rest[0] != '\n'))
    ensures Normalised([c] + mid) == Normalised([c] + rest) + "\n" + tail
  {
    OtherStays(c, rest);
    OtherStays(c, mid);
    Regroup([c], Normalised(rest), "\n", tail);
  }

  ghost predicate SplitsAt(a: string, b: string) {
    Normalised(a + CRLF + b) == Normalised(a) + "\n" + Normalised(b)
  }

  lemma SplitsAfterPair(a: string, rest: string, b: string)
    requires a == CRLF + rest && SplitsAt(rest, b)
    ensures SplitsAt(a, b)
  {
    AfterPair(rest, rest + CRLF + b, Normalised(b));
    Regroup(CRLF, rest, CRLF, b);
  }

  lemma SplitsAfterOther(a: string, c: char, rest: string, b: string)
    requires a == [c] + rest && SplitsAt(rest, b) && (c == '\r' ==> rest == "" || rest[0] != '\n')
    ensures SplitsAt(a, b)
  {
    StartsWith(rest, b);
    AfterOther(c, rest, rest + CRLF + b, Normalised(b));
    Regroup([c], rest, CRLF, b);
  }

  ghost predicate Front(a: string, rest: string) {
    |rest| < |a| &&
    (a == CRLF + rest || (a == [a[0]] + rest && (a[0] == '\r' ==> rest == "" || rest[0] != '\n')))
  }

  lemma FrontOf(a: string) returns (rest: string)
    requires a != ""
    ensures Front(a, rest)
  {
    rest := if |a| >= 2 && a[0] == '\r' && a[1] == '\n' then a[2..] else a[1..];
  }

  lemma SplitsAfterFront(a: string, rest: string, b: string)
    requires Front(a, rest) && SplitsAt(rest, b)
    ensures SplitsAt(a, b)
  {
    if a == CRLF + rest {
      SplitsAfterPair(a, rest, b);
    } else {
      SplitsAfterOther(a, a[0], rest, b);
    }
  }

  lemma SplitsAtStart(b: string)
    ensures SplitsAt("", b)
  {
    PairShrinks(b);
    assert "" + CRLF + b == CRLF + b;
  }

  lemma {:induction false} SplitsEverywhere(a: string, b: string)
    ensures SplitsAt(a, b)
    decreases |a|
  {
    if a == "" {
      SplitsAtStart(b);
    } else {
      var rest := FrontOf(a);
      SplitsEverywhere(rest, b);
      SplitsAfterFront(a, rest, b);
    }
  }

  lemma AtCRLF(a: string, b: string)
    ensures Normalised(a + CRLF + b) == Normalised(a) + "\n" + Normalised(b)
  {
    SplitsEverywhere(a, b);
  }

  lemma StartsWith(rest: string, b: string)
    ensures (rest + CRLF + b)[0] == if rest == "" then '\r' else rest[0]
  {
  }

  lemma FirstCRLF(s: string, i: nat)
    requires i + 1 < |s| && s[i] == '\r' && s[i + 1] == '\n'
    ensures s == s[..i] + CRLF + s[i + 2..]
  {
  }

  /** What the checksum sees of a text is the text with each CRLF turned into LF: no other function does that. */
  lemma {:induction false} NormalisedIsTheOnly(f: string -> string, s: string)
    requires NormalisesEndings(f)
    ensures f(s) == Normalised(s)
    decreases |s|
  {
    if i :| 0 <= i < |s| - 1 && s[i] == '\r' && s[i + 1] == '\n' {
      FirstCRLF(s, i);
      AtCRLF(s[..i], s[i + 2..]);
      NormalisedIsTheOnly(f, s[..i]);
      NormalisedIsTheOnly(f, s[i + 2..]);
    } else {
      WithoutCRLF(s);
    }
  }

  lemma NormalisedNormalises()
    ensures NormalisesEndings(Normalised)
  {
    forall s | !HasCRLF(s) ensures Normalised(s) == s {
      WithoutCRLF(s);
    }
    forall a, b ensures Normalised(a + CRLF + b) == Normalised(a) + "\n" + Normalised(b) {
      AtCRLF(a, b);
    }
  }

  // ---- What an edit of a recorded file leads to ----

  ghost predicate CollisionFree(digest: string -> string) {
    forall x, y :: digest(x) == digest(y) ==> x == y
  }

  /** With a hash without collisions, two texts have one checksum exactly when they differ in line endings only. */
  lemma ChecksumsEqualIff(digest: string -> string, a: string, b: string)
    requires CollisionFree(digest)
    ensures Checksum(digest, a) == Checksum(digest, b) <==> Normalised(a) == Normalised(b)
  {
  }

  /** After a migration has been recorded, the next Up over an edited file is refused with a checksum mismatch, and over
      any other has nothing to do. */
  lemma UpRefusesEditIff<T>(
      digest: string -> string, exec: (string, T) -> Option<T>, m: Migration, text: string, db: Db<T>)
    requires CollisionFree(digest) && ApplyUp(digest, exec, db, m).1.None?
    ensures var recorded := ApplyUp(digest, exec, db, m).0;
      Up(digest, exec, [m.(up := text)], recorded) ==
        if Normalised(text) == Normalised(m.up) then Result(recorded, [], None)
        else Result(recorded, [], Some(ChecksumMismatch(m.version)))
  {
    var recorded := ApplyUp(digest, exec, db, m).0;
    ChecksumsEqualIff(digest, text, m.up);
    var migs := [m.(up := text)];
    assert migs[1..] == [];
    assert recorded.recorded[m.version] == RowOf(digest, m);
    assert UpFrom(digest, exec, migs[1..], recorded.recorded, recorded) == Result(recorded, [], None);
  }

  /** Of any number of files: the recorded ones count as unedited exactly when each differs from the text it was
      recorded with in line endings only. */
  lemma FilesUneditedIff(digest: string -> string, migs: seq<Migration>, applied: map<int, Row>, texts: int -> string)
    requires CollisionFree(digest)
    requires forall m | m in migs && m.version in applied ::
      applied[m.version].checksum == Checksum(digest, texts(m.version))
    ensures FilesUnedited(digest, migs, applied) <==>
      forall m | m in migs && m.version in applied :: Normalised(m.up) == Normalised(texts(m.version))
  {
    forall m | m in migs && m.version in applied
      ensures Checksum(digest, m.up) == applied[m.version].checksum <==>
        Normalised(m.up) == Normalised(texts(m.version))
    {
      ChecksumsEqualIff(digest, m.up, texts(m.version));
    }
  }

  // ---- Blank texts ----

  lemma {:induction false} TrimLeftEmptyIff(s: string)
    ensures TrimLeft(s) == "" <==> Blank(s)
    ensures TrimLeft(s) != "" ==> !IsSpace(TrimLeft(s)[0])
  {
    if s != "" {
      assert forall c :: c in s <==> c == s[0] || c in s[1..];
      TrimLeftEmptyIff(s[1..]);
    }
  }

  lemma {:induction false} TrimRightKeepsFirst(s: string)
    requires s != "" && !IsSpace(s[0])
    ensures TrimRight(s) != ""
  {
    if IsSpace(s[|s| - 1]) {
      TrimRightKeepsFirst(s[..|s| - 1]);
    }
  }

  /** A script counts as missing exactly when nothing is left of it after trimming. */
  lemma BlankIff(s: string)
    ensures Blank(s) <==> TrimSpace(s) == ""
  {
    TrimLeftEmptyIff(s);
    if TrimLeft(s) != "" {
      TrimRightKeepsFirst(TrimLeft(s));
    }
  }

  /** The characters that Unicode calls white space. */
  const SPACES: string :=
    "\t\n\U{B}\U{C}\r \U{85}\U{A0}\U{1680}\U{2000}\U{2001}\U{2002}\U{2003}\U{2004}\U{2005}\U{2006}\U{2007}\U{2008}"
    + "\U{2009}\U{200A}\U{2028}\U{2029}\U{202F}\U{205F}\U{3000}"

  /** So a script counts as missing exactly when it consists of these. */
  lemma BlankMeansSpaces(s: string)
    ensures Blank(s) <==> forall c | c in s :: c in SPACES
  {
    forall c: char ensures IsSpace(c) <==> c in SPACES {
      SpaceIsListed(c);
    }
  }

  lemma SpaceIsListed(c: char)
    ensures IsSpace(c) <==> c in SPACES
  {
    if IsSpace(c) {
      var u := c as int;
      var k := if u <= 0x0D then u - 9 else if u == 0x20 then 5 else if u == 0x85 then 6 else if u == 0xA0 then 7
        else if u == 0x1680 then 8 else if u <= 0x200A then u - 0x2000 + 9 else if u == 0x2028 then 20
        else if u == 0x2029 then 21 else if u == 0x202F then 22 else if u == 0x205F then 23 else 24;
      assert SPACES[k] == c;
    }
  }
}
