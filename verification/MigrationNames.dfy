/** The file names load accepts: internal/platform/postgres/migrate.go, migrationFilePattern and strconv.ParseInt. */
module MigrationNames {
  import opened M = Migrations

  datatype Parts = Parts(digits: string, name: string, isUp: bool)

  predicate Digit(c: char) {
    '0' <= c <= '9'
  }

  predicate NameChar(c: char) {
    'a' <= c <= 'z' || Digit(c) || c == '_' || c == '-'
  }

  predicate Digits(s: string) {
    s != "" && forall k | 0 <= k < |s| :: Digit(s[k])
  }

  predicate Name(s: string) {
    s != "" && forall k | 0 <= k < |s| :: NameChar(s[k])
  }

  function Extension(isUp: bool): string {
    if isUp then ".up.sql" else ".down.sql"
  }

  function FileName(p: Parts): string {
    p.digits + "_" + p.name + Extension(p.isUp)
  }

  /** The regular expression, read as what it generates. */
  predicate Matches(file: string, p: Parts) {
    Digits(p.digits) && Name(p.name) && file == FileName(p)
  }

  function LeadingDigits(s: string): (n: nat)
    ensures n <= |s|
  {
    if s != "" && Digit(s[0]) then 1 + LeadingDigits(s[1..]) else 0
  }

  predicate EndsWith(s: string, end: string) {
    |end| <= |s| && s[|s| - |end|..] == end
  }

  /** What follows the underscore: the name and the direction. */
  function MatchRest(rest: string): Option<(string, bool)> {
    var isUp := EndsWith(rest, ".up.sql");
    if !isUp && !EndsWith(rest, ".down.sql") then None
    else
      var name := rest[..|rest| - |Extension(isUp)|];
      if Name(name) then Some((name, isUp)) else None
  }

  /** FindStringSubmatch: the digits as far as they go, an underscore, the name, the extension. */
  function Match(file: string): Option<Parts> {
    var n := LeadingDigits(file);
    if n == 0 || n == |file| || file[n] != '_' then None
    else match MatchRest(file[n + 1..])
      case None => None
      case Some((name, isUp)) => Some(Parts(file[..n], name, isUp))
  }

  lemma {:induction false} LeadingDigitsAre(digits: string, rest: string)
    requires forall k | 0 <= k < |digits| :: Digit(digits[k])
    requires rest == "" || !Digit(rest[0])
    ensures LeadingDigits(digits + rest) == |digits|
  {
    if digits == "" {
      assert digits + rest == rest;
    } else {
      assert (digits + rest)[1..] == digits[1..] + rest;
      LeadingDigitsAre(digits[1..], rest);
    }
  }

  lemma {:induction false} LeadingAreDigits(s: string)
    ensures forall k | 0 <= k < LeadingDigits(s) :: Digit(s[k])
  {
    if s != "" && Digit(s[0]) {
      LeadingAreDigits(s[1..]);
      forall k | 0 < k < LeadingDigits(s) ensures Digit(s[k]) {
        assert s[k] == s[1..][k - 1];
      }
    }
  }

  lemma ExtensionIsLast(name: string, isUp: bool)
    ensures var s := name + Extension(isUp);
      && EndsWith(s, Extension(isUp)) && s[..|s| - |Extension(isUp)|] == name
      && (EndsWith(s, ".up.sql") <==> isUp)
  {
    var s := name + Extension(isUp);
    if !isUp {
      assert s[|s| - 7] == 'o';
      assert ".up.sql"[0] == '.';
      assert s[|s| - 7..][0] == 'o';
    }
  }

  /** A name is taken apart exactly when it is one the pattern generates, and into the parts it was made of. */
  lemma MatchIff(file: string, p: Parts)
    ensures Match(file) == Some(p) <==> Matches(file, p)
  {
    if Matches(file, p) {
      MatchFinds(file, p);
    }
    if Match(file).Some? {
      MatchIsRight(file);
    }
  }

  lemma RestFinds(name: string, isUp: bool)
    requires Name(name)
    ensures MatchRest(name + Extension(isUp)) == Some((name, isUp))
  {
    ExtensionIsLast(name, isUp);
  }

  lemma RestIsRight(rest: string)
    requires MatchRest(rest).Some?
    ensures var (name, isUp) := MatchRest(rest).value; Name(name) && rest == name + Extension(isUp)
  {
    var isUp := EndsWith(rest, ".up.sql");
    assert EndsWith(rest, Extension(isUp));
    Rejoined(rest, |rest| - |Extension(isUp)|);
  }

  lemma Rejoined(s: string, n: nat)
    requires n <= |s|
    ensures s == s[..n] + s[n..]
  {
  }

  lemma TakesApart(digits: string, tail: string)
    requires Digits(digits)
    ensures var file := digits + "_" + tail; var n := |digits|;
      LeadingDigits(file) == n < |file| && file[n] == '_' && file[..n] == digits && file[n + 1..] == tail
  {
    LeadingDigitsAre(digits, "_" + tail);
    assert digits + "_" + tail == digits + ("_" + tail);
  }

  lemma PartsMatch(file: string, n: nat, name: string, isUp: bool)
    requires 0 < n < |file| && file[n] == '_' && (forall k | 0 <= k < n :: Digit(file[k]))
    requires Name(name) && file[n + 1..] == name + Extension(isUp)
    ensures Matches(file, Parts(file[..n], name, isUp))
  {
    var extension := Extension(isUp);
    assert file == file[..n] + "_" + (name + extension);
    assert file[..n] + "_" + (name + extension) == file[..n] + "_" + name + extension;
  }

  /** The places Match takes a name apart at. */
  predicate ApartAt(file: string, n: nat, p: Parts) {
    0 < n < |file| && n == LeadingDigits(file) && file[n] == '_' && p.digits == file[..n]
      && MatchRest(file[n + 1..]) == Some((p.name, p.isUp))
  }

  lemma MatchTakesApart(file: string)
    requires Match(file).Some?
    ensures ApartAt(file, LeadingDigits(file), Match(file).value)
  {
  }

  lemma ApartIsRight(file: string, n: nat, p: Parts)
    requires ApartAt(file, n, p)
    ensures Matches(file, p)
  {
    LeadingAreDigits(file);
    RestIsRight(file[n + 1..]);
    PartsMatch(file, n, p.name, p.isUp);
  }

  lemma ApartIsMatch(file: string, n: nat, p: Parts)
    requires ApartAt(file, n, p)
    ensures Match(file) == Some(p)
  {
  }

  lemma MatchFinds(file: string, p: Parts)
    requires Matches(file, p)
    ensures Match(file) == Some(p)
  {
    var tail := p.name + Extension(p.isUp);
    TakesApart(p.digits, tail);
    assert FileName(p) == p.digits + "_" + tail;
    RestFinds(p.name, p.isUp);
    ApartIsMatch(file, |p.digits|, p);
  }

  lemma MatchIsRight(file: string)
    requires Match(file).Some?
    ensures Matches(file, Match(file).value)
  {
    MatchTakesApart(file);
    ApartIsRight(file, LeadingDigits(file), Match(file).value);
  }

  function Number(digits: string): nat
    requires forall k | 0 <= k < |digits| :: Digit(digits[k])
  {
    if digits == "" then 0
    else
      assert Digit(digits[|digits| - 1]);
      10 * Number(digits[..|digits| - 1]) + (digits[|digits| - 1] as int - '0' as int)
  }

  // ---- Versions are decimal ----

  /** n printed in base ten, most significant digit first. */
  function Decimal(n: nat): string {
    if n < 10 then [DigitChar(n)] else Decimal(n / 10) + [DigitChar(n % 10)]
  }

  function DigitChar(d: nat): char
    requires d < 10
  {
    "0123456789"[d]
  }

  lemma DigitCharIsDigit(d: nat)
    requires d < 10
    ensures Digit(DigitChar(d)) && DigitChar(d) as int - '0' as int == d
  {
  }

  /** Reading back a printed number gives the number. */
  lemma {:induction false} DecimalRoundTrip(n: nat)
    ensures Digits(Decimal(n)) && Number(Decimal(n)) == n
  {
    DigitCharIsDigit(n % 10);
    if n < 10 {
      assert Decimal(n)[..0] == "";
    } else {
      DecimalRoundTrip(n / 10);
      var s := Decimal(n);
      assert s[..|s| - 1] == Decimal(n / 10) && s[|s| - 1] == DigitChar(n % 10);
    }
  }

  /** Strings of one length compare by their first difference. */
  predicate Less(a: string, b: string)
    requires |a| == |b|
  {
    a != "" && (a[0] < b[0] || (a[0] == b[0] && Less(a[1..], b[1..])))
  }

  function Power10(n: nat): nat {
    if n == 0 then 1 else 10 * Power10(n - 1)
  }

  lemma {:induction false} NumberFirst(digits: string)
    requires Digits(digits)
    ensures Number(digits) == (digits[0] as int - '0' as int) * Power10(|digits| - 1) + Number(digits[1..])
    ensures Number(digits[1..]) < Power10(|digits| - 1)
    decreases |digits|
  {
    var n := |digits| - 1;
    assert Digit(digits[n]) && Digit(digits[0]);
    if n == 0 {
      assert digits[..0] == "";
    } else {
      NumberFirst(digits[..n]);
      var rest := digits[1..];
      assert digits[..n][1..] == rest[..n - 1] && rest[n - 1] == digits[n] && digits[..n][0] == digits[0];
      TenfoldPlus(digits[0] as int - '0' as int, Power10(n - 1), Number(rest[..n - 1]), digits[n] as int - '0' as int);
    }
  }

  lemma TenfoldPlus(x: int, p: int, u: int, d: int)
    requires u < p && 0 <= d < 10
    ensures 10 * (x * p + u) + d == x * (10 * p) + (10 * u + d)
    ensures 10 * u + d < 10 * p
  {
  }

  /** Names with equally many digits order their versions as the digits are ordered, and tell all versions apart. */
  lemma {:induction false} NumberOrderIsTextOrder(a: string, b: string)
    requires |a| == |b| && (a == "" || (Digits(a) && Digits(b)))
    ensures Number(a) < Number(b) <==> Less(a, b)
    ensures Number(a) == Number(b) <==> a == b
    decreases |a|
  {
    if a != "" {
      NumberFirst(a);
      NumberFirst(b);
      assert Digit(a[0]) && Digit(b[0]);
      if |a| > 1 {
        assert Digits(a[1..]) && Digits(b[1..]);
      }
      NumberOrderIsTextOrder(a[1..], b[1..]);
      FirstDigitDecides(a[0] as int - '0' as int, b[0] as int - '0' as int, Power10(|a| - 1),
                        Number(a[1..]), Number(b[1..]));
      assert a == [a[0]] + a[1..] && b == [b[0]] + b[1..];
    }
  }

  lemma FirstDigitDecides(x: int, y: int, p: int, u: int, v: int)
    requires 0 <= u < p && 0 <= v < p
    ensures x < y ==> x * p + u < y * p + v
    ensures x > y ==> x * p + u > y * p + v
  {
    if x < y {
      assert y * p >= (x + 1) * p == x * p + p;
    } else if x > y {
      assert x * p >= (y + 1) * p == y * p + p;
    }
  }

  function WithoutZeros(digits: string): string {
    if digits != "" && digits[0] == '0' then WithoutZeros(digits[1..]) else digits
  }

  function Zeros(n: nat): string {
    seq(n, _ => '0')
  }

  lemma Padded(n: nat, a: string)
    requires Digits(a)
    ensures Digits(Zeros(n) + a) && |Zeros(n) + a| == n + |a|
    ensures Number(Zeros(n) + a) == Number(a) && WithoutZeros(Zeros(n) + a) == WithoutZeros(a)
  {
    LeadingZeros(Zeros(n), a);
    ZerosAddNothing(n, a);
  }

  /** Two files are of one version exactly when their digits differ in leading zeros only. */
  lemma SameVersionIff(a: string, b: string)
    requires Digits(a) && Digits(b)
    ensures Number(a) == Number(b) <==> WithoutZeros(a) == WithoutZeros(b)
  {
    var n := if |a| > |b| then |a| else |b|;
    Padded(n - |a|, a);
    Padded(n - |b|, b);
    NumberOrderIsTextOrder(Zeros(n - |a|) + a, Zeros(n - |b|) + b);
    PaddedEqualIff(Zeros(n - |a|) + a, Zeros(n - |b|) + b);
  }

  lemma {:induction false} ZerosAddNothing(n: nat, s: string)
    ensures WithoutZeros(Zeros(n) + s) == WithoutZeros(s)
  {
    if n == 0 {
      assert Zeros(0) + s == s;
    } else {
      assert (Zeros(n) + s)[1..] == Zeros(n - 1) + s;
      ZerosAddNothing(n - 1, s);
    }
  }

  lemma {:induction false} PaddedEqualIff(a: string, b: string)
    requires |a| == |b|
    ensures a == b <==> WithoutZeros(a) == WithoutZeros(b)
    decreases |a|
  {
    WithoutZerosLength(a);
    WithoutZerosLength(b);
    if a != "" && a[0] == '0' && b[0] == '0' {
      PaddedEqualIff(a[1..], b[1..]);
      assert a == [a[0]] + a[1..] && b == [b[0]] + b[1..];
    } else if a != "" && a[0] == '0' {
      WithoutZerosLength(a[1..]);
    } else if a != "" && b[0] == '0' {
      WithoutZerosLength(b[1..]);
    }
  }

  lemma WithoutZerosLength(s: string)
    ensures |WithoutZeros(s)| <= |s|
  {
  }

  const MAX64: nat := 0x7FFF_FFFF_FFFF_FFFF

  /** Leading zeros do not make another version. */
  lemma {:induction false} LeadingZeros(zeros: string, digits: string)
    requires (forall k | 0 <= k < |zeros| :: zeros[k] == '0') && forall k | 0 <= k < |digits| :: Digit(digits[k])
    ensures Number(zeros + digits) == Number(digits)
    decreases |zeros| + |digits|
  {
    var s := zeros + digits;
    if digits != "" {
      assert s[..|s| - 1] == zeros + digits[..|digits| - 1];
      LeadingZeros(zeros, digits[..|digits| - 1]);
    } else if zeros != "" {
      assert s[..|s| - 1] == zeros[..|zeros| - 1] + digits;
      LeadingZeros(zeros[..|zeros| - 1], digits);
    }
  }

  /** The characters of the pattern: decimal digits, then lower-case letters, digits, underscores and hyphens. */
  lemma PatternCharacters(s: string)
    ensures Digits(s) <==> s != "" && forall k | 0 <= k < |s| :: s[k] in "0123456789"
    ensures Name(s) <==> s != "" && forall k | 0 <= k < |s| :: 'a' <= s[k] <= 'z' || s[k] in "0123456789_-"
  {
    forall c: char ensures (Digit(c) <==> c in "0123456789") && (c in "0123456789_-" <==> Digit(c) || c in "_-") {
      DigitIsListed(c);
    }
  }

  lemma DigitIsListed(c: char)
    ensures Digit(c) <==> c in "0123456789"
    ensures c in "0123456789_-" <==> Digit(c) || c in "_-"
  {
    if Digit(c) {
      assert "0123456789"[c as int - '0' as int] == c;
    }
    assert "0123456789_-" == "0123456789" + "_-";
  }

  // ---- Directory entries ----

  datatype DirEntry = DirEntry(name: string, isDir: bool, body: string)

  datatype Entry = Skipped | Refused(file: string) | Script(version: int, name: string, isUp: bool, body: string)

  /** Directories and foreign files are passed over; an .sql file that does not match, or whose version does not fit in
      64 bits, ends the loading. */
  function Classify(e: DirEntry): Entry {
    if e.isDir then Skipped
    else match Match(e.name)
      case None => if EndsWith(e.name, ".sql") then Refused(e.name) else Skipped
      case Some(p) =>
        MatchIff(e.name, p);
        if Number(p.digits) > MAX64 then Refused(e.name) else Script(Number(p.digits), p.name, p.isUp, e.body)
  }

  /** Exactly the files named by the pattern with a version in range are read, each as what its name says. */
  lemma ScriptsAreNamedFiles(e: DirEntry, version: int, name: string, isUp: bool)
    ensures (exists body :: Classify(e) == Script(version, name, isUp, body)) <==>
      !e.isDir && Named(e.name, version, name, isUp)
  {
    if Match(e.name).Some? {
      MatchIff(e.name, Match(e.name).value);
      assert Classify(e).Script? ==>
        Classify(e) == Script(Classify(e).version, Classify(e).name, Classify(e).isUp, e.body);
    }
    if digits :| Matches(e.name, Parts(digits, name, isUp)) && Number(digits) == version {
      MatchIff(e.name, Parts(digits, name, isUp));
    }
  }

  /** Loading is ended by exactly those .sql names, not of directories, that no version of 64 bits has; everything else
      is passed over or read whole. */
  lemma RefusedIff(e: DirEntry)
    ensures Classify(e) == Refused(e.name) <==> !e.isDir && EndsWith(e.name, ".sql") && !Nameable(e.name)
    ensures Classify(e).Refused? ==> Classify(e) == Refused(e.name)
    ensures Classify(e).Script? ==> Classify(e).body == e.body
  {
    NameableIff(e.name);
    if Match(e.name).Some? {
      MatchIff(e.name, Match(e.name).value);
      SqlExtension(Match(e.name).value);
    }
  }

  ghost predicate Nameable(file: string) {
    exists version, name, isUp :: Named(file, version, name, isUp)
  }

  lemma NameableIff(file: string)
    ensures Match(file).Some? ==> Digits(Match(file).value.digits)
    ensures Nameable(file) <==> Match(file).Some? && Number(Match(file).value.digits) <= 9_223_372_036_854_775_807
  {
    if Match(file).Some? {
      var p := Match(file).value;
      MatchIff(file, p);
      if Number(p.digits) <= MAX64 {
        assert Named(file, Number(p.digits), p.name, p.isUp);
      }
    }
    forall version, name, isUp | Named(file, version, name, isUp)
      ensures Match(file).Some? && Number(Match(file).value.digits) == version <= MAX64
    {
      var digits :| Matches(file, Parts(digits, name, isUp)) && Number(digits) == version && version <= MAX64;
      MatchIff(file, Parts(digits, name, isUp));
    }
  }

  lemma SqlExtension(p: Parts)
    ensures EndsWith(FileName(p), ".sql")
  {
    EndsLikeItsEnd(p.digits + "_" + p.name, Extension(p.isUp));
  }

  lemma EndsLikeItsEnd(front: string, end: string)
    requires EndsWith(end, ".sql")
    ensures EndsWith(front + end, ".sql")
  {
    var s := front + end;
    assert s[|s| - 4..] == end[|end| - 4..];
  }

  ghost predicate Named(file: string, version: int, name: string, isUp: bool) {
    exists digits :: Matches(file, Parts(digits, name, isUp)) && Number(digits) == version
      && version <= 9_223_372_036_854_775_807
  }
}
