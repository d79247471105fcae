/**
 Names of backup files (src/backup/backup.go): zero-padded timestamps, the glob pattern of the retention pass,
 and the order in which filepath.Glob lists the matches of one directory.
 */
module BackupNames {
  import opened Common

  /* ---------- byte order of strings ---------- */

  predicate Less(a: string, b: string) {
    if b == [] then false
    else if a == [] then true
    else if a[0] != b[0] then a[0] < b[0]
    else Less(a[1..], b[1..])
  }

  /** At position k the first difference decides; a beginning comes before what it begins. */
  ghost predicate DifferAt(a: string, b: string, k: nat) {
    && k <= |a| && k < |b| && a[..k] == b[..k] && (k == |a| || a[k] < b[k])
  }

  lemma DifferLater(a: string, b: string, k: nat)
    requires k > 0 && DifferAt(a, b, k)
    ensures a != [] && b != [] && a[0] == b[0]
  {
    assert a[..k][0] == a[0] && b[..k][0] == b[0];
  }

  lemma {:induction false} LessIff(a: string, b: string)
    ensures Less(a, b) <==> exists k: nat :: DifferAt(a, b, k)
    decreases |a|
  {
    forall k: nat | k > 0 && DifferAt(a, b, k) ensures a != [] && b != [] && a[0] == b[0] { DifferLater(a, b, k); }
    if a != [] && b != [] && a[0] == b[0] {
      LessIff(a[1..], b[1..]);
      if k: nat :| DifferAt(a[1..], b[1..], k) {
        assert a[..k + 1] == [a[0]] + a[1..][..k] && b[..k + 1] == [b[0]] + b[1..][..k];
        assert DifferAt(a, b, k + 1);
      }
      if k: nat :| DifferAt(a, b, k) {
        assert k > 0 && a[1..][..k - 1] == a[..k][1..] && b[1..][..k - 1] == b[..k][1..];
        assert DifferAt(a[1..], b[1..], k - 1);
      }
    } else if Less(a, b) {
      assert DifferAt(a, b, 0);
    }
  }

  lemma {:induction false} LessIsTotal(a: string, b: string)
    ensures Less(a, b) || Less(b, a) || a == b
    ensures !(Less(a, b) && Less(b, a))
    ensures !Less(a, a)
    decreases |a| + |b|
  {
    if a != [] && b != [] && a[0] == b[0] {
      LessIsTotal(a[1..], b[1..]);
    }
    LessIrreflexive(a);
  }

  lemma {:induction false} LessIrreflexive(a: string)
    ensures !Less(a, a)
    decreases |a|
  {
    if a != [] { LessIrreflexive(a[1..]); }
  }

  lemma {:induction false} LessIsTransitive(a: string, b: string, c: string)
    requires Less(a, b) && Less(b, c)
    ensures Less(a, c)
    decreases |a|
  {
    if a != [] && a[0] == b[0] && b[0] == c[0] { LessIsTransitive(a[1..], b[1..], c[1..]); }
  }

  lemma {:induction false} LessAfterPrefix(p: string, x: string, y: string)
    ensures Less(p + x, p + y) == Less(x, y)
    decreases |p|
  {
    if p == [] {
      assert p + x == x && p + y == y;
    } else {
      assert (p + x)[1..] == p[1..] + x && (p + y)[1..] == p[1..] + y;
      LessAfterPrefix(p[1..], x, y);
    }
  }

  /* ---------- fixed-width numbers ---------- */

  function Power10(w: nat): (p: nat)
    ensures p >= 1
  {
    if w == 0 then 1 else 10 * Power10(w - 1)
  }

  /** The last w decimal digits of n, zero-padded. */
  function Padded(n: nat, w: nat): (s: string)
    ensures |s| == w
  {
    if w == 0 then "" else Padded(n / 10, w - 1) + [Digit(n % 10)]
  }

  /** Numbers of the same width, followed by anything, sort by value first. */
  lemma {:induction false} PaddedOrder(n: nat, m: nat, w: nat, x: string, y: string)
    requires n < Power10(w) && m < Power10(w)
    ensures Less(Padded(n, w) + x, Padded(m, w) + y) <==> n < m || (n == m && Less(x, y))
    decreases w
  {
    if w == 0 {
      assert "" + x == x && "" + y == y;
    } else {
      var dx, dy := [Digit(n % 10)] + x, [Digit(m % 10)] + y;
      assert Padded(n, w) + x == Padded(n / 10, w - 1) + dx;
      assert Padded(m, w) + y == Padded(m / 10, w - 1) + dy;
      PaddedOrder(n / 10, m / 10, w - 1, dx, dy);
      assert dx[1..] == x && dy[1..] == y;
      assert n == n / 10 * 10 + n % 10 && m == m / 10 * 10 + m % 10;
    }
  }

  /* ---------- backup names ---------- */

  datatype Timestamp = Timestamp(year: nat, month: nat, day: nat, hour: nat, minute: nat, second: nat)

  predicate InRange(t: Timestamp) {
    t.year < 10000 && 1 <= t.month <= 12 && 1 <= t.day <= 31 && t.hour < 24 && t.minute < 60 && t.second < 60
  }

  /** Chronological order of wall-clock times. */
  predicate Before(a: Timestamp, b: Timestamp) {
    a.year < b.year || (a.year == b.year && (
    a.month < b.month || (a.month == b.month && (
    a.day < b.day || (a.day == b.day && (
    a.hour < b.hour || (a.hour == b.hour && (
    a.minute < b.minute || (a.minute == b.minute && a.second < b.second)))))))))
  }

  const PREFIX := "backup-"
  const SUFFIX := ".tar.gz.enc"

  /** backup-20060102-150405.tar.gz.enc */
  function Name(t: Timestamp): string {
    PREFIX + Day(t, Clock(t, SUFFIX))
  }

  function Day(t: Timestamp, rest: string): string {
    Padded(t.year, 4) + (Padded(t.month, 2) + (Padded(t.day, 2) + ("-" + rest)))
  }

  function Clock(t: Timestamp, rest: string): string {
    Padded(t.hour, 2) + (Padded(t.minute, 2) + (Padded(t.second, 2) + rest))
  }

  lemma ClockOrder(a: Timestamp, b: Timestamp, x: string)
    requires InRange(a) && InRange(b)
    ensures Less(Clock(a, x), Clock(b, x)) <==>
      a.hour < b.hour || (a.hour == b.hour && (
      a.minute < b.minute || (a.minute == b.minute && a.second < b.second)))
  {
    assert Power10(2) == 100 by { assert Power10(1) == 10; }
    var sa, sb := Padded(a.second, 2) + x, Padded(b.second, 2) + x;
    PaddedOrder(a.second, b.second, 2, x, x);
    LessIrreflexive(x);
    PaddedOrder(a.minute, b.minute, 2, sa, sb);
    PaddedOrder(a.hour, b.hour, 2, Padded(a.minute, 2) + sa, Padded(b.minute, 2) + sb);
  }

  lemma DayOrder(a: Timestamp, b: Timestamp, x: string, y: string)
    requires InRange(a) && InRange(b)
    ensures Less(Day(a, x), Day(b, y)) <==>
      a.year < b.year || (a.year == b.year && (
      a.month < b.month || (a.month == b.month && (
      a.day < b.day || (a.day == b.day && Less(x, y))))))
  {
    assert Power10(2) == 100 by { assert Power10(1) == 10; }
    assert Power10(4) == 10000 by { assert Power10(3) == 1000; }
    var da, db := Padded(a.day, 2) + ("-" + x), Padded(b.day, 2) + ("-" + y);
    LessAfterPrefix("-", x, y);
    PaddedOrder(a.day, b.day, 2, "-" + x, "-" + y);
    PaddedOrder(a.month, b.month, 2, da, db);
    PaddedOrder(a.year, b.year, 4, Padded(a.month, 2) + da, Padded(b.month, 2) + db);
  }

  /** Main result: file names sort exactly as the times they were made at. */
  lemma NamesSortChronologically(a: Timestamp, b: Timestamp)
    requires InRange(a) && InRange(b)
    ensures Less(Name(a), Name(b)) <==> Before(a, b)
  {
    LessAfterPrefix(PREFIX, Day(a, Clock(a, SUFFIX)), Day(b, Clock(b, SUFFIX)));
    DayOrder(a, b, Clock(a, SUFFIX), Clock(b, SUFFIX));
    ClockOrder(a, b, SUFFIX);
  }

  /** The number that a string of decimal digits writes. */
  function Number(s: string): int {
    if s == "" then 0 else 10 * Number(s[..|s| - 1]) + (s[|s| - 1] as int - '0' as int)
  }

  lemma {:induction false} PaddedIsNumber(n: nat, w: nat)
    requires n < Power10(w)
    ensures Number(Padded(n, w)) == n
    decreases w
  {
    if w > 0 {
      PaddedIsNumber(n / 10, w - 1);
      var s := Padded(n, w);
      assert s[..|s| - 1] == Padded(n / 10, w - 1);
      assert n == n / 10 * 10 + n % 10;
    }
  }

  lemma FourDigits()
    ensures Power10(2) == 100 && Power10(4) == 10000
  {
    assert Power10(1) == 10;
    assert Power10(3) == 1000;
  }

  /** Main result on the format: the fields of the time stand at their places in the name, with nothing between them
      but the dash. */
  lemma NameSpellsTheTime(t: Timestamp)
    requires InRange(t)
    ensures var n := Name(t);
      && |n| == 33 && n[..7] == "backup-" && n[15] == '-' && n[22..] == ".tar.gz.enc"
      && Number(n[7..11]) == t.year && Number(n[11..13]) == t.month && Number(n[13..15]) == t.day
      && Number(n[16..18]) == t.hour && Number(n[18..20]) == t.minute && Number(n[20..22]) == t.second
  {
    FourDigits();
    PaddedIsNumber(t.year, 4);
    PaddedIsNumber(t.month, 2);
    PaddedIsNumber(t.day, 2);
    PaddedIsNumber(t.hour, 2);
    PaddedIsNumber(t.minute, 2);
    PaddedIsNumber(t.second, 2);
    NameByPlaces(t);
  }

  lemma NameByPlaces(t: Timestamp)
    ensures var n := Name(t);
      && |n| == 33 && n[..7] == "backup-" && n[15] == '-' && n[22..] == ".tar.gz.enc"
      && n[7..11] == Padded(t.year, 4) && n[11..13] == Padded(t.month, 2) && n[13..15] == Padded(t.day, 2)
      && n[16..18] == Padded(t.hour, 2) && n[18..20] == Padded(t.minute, 2) && n[20..22] == Padded(t.second, 2)
  {
  }

  /* ---------- the glob ---------- */

  /** backup-*.tar.gz.enc, for a name without separators. */
  predicate Matches(name: string) {
    && |name| >= |PREFIX| + |SUFFIX|
    && name[..|PREFIX|] == PREFIX
    && name[|name| - |SUFFIX|..] == SUFFIX
  }

  /** The star stands for any text. */
  lemma MatchesIff(name: string)
    ensures Matches(name) <==> exists mid: string :: name == "backup-" + mid + ".tar.gz.enc"
  {
    if Matches(name) {
      var mid := name[7..|name| - 11];
      assert name == "backup-" + mid + ".tar.gz.enc";
    }
    forall mid: string | name == "backup-" + mid + ".tar.gz.enc" ensures Matches(name) {
      assert name[..7] == "backup-" && name[|name| - 11..] == ".tar.gz.enc";
    }
  }

  lemma BackupsMatch(t: Timestamp)
    ensures Matches(Name(t))
  {
    var head := PREFIX + (Padded(t.year, 4) + (Padded(t.month, 2) + (Padded(t.day, 2) + ("-" +
                (Padded(t.hour, 2) + (Padded(t.minute, 2) + Padded(t.second, 2)))))));
    assert Name(t) == head + SUFFIX;
    assert |head| >= |PREFIX| && head[..|PREFIX|] == PREFIX;
  }

  lemma MatchesEndInC(name: string)
    ensures Matches(name) ==> name[|name| - 1] == 'c'
  {
    if Matches(name) { assert name[|name| - |SUFFIX|..][|SUFFIX| - 1] == name[|name| - 1]; }
  }

  /** Working files never match, whatever they are derived from. */
  lemma WorkingFilesDoNotMatch(name: string)
    ensures !Matches(name + ".tmp") && !Matches(name + ".decrypted")
  {
    MatchesEndInC(name + ".tmp");
    MatchesEndInC(name + ".decrypted");
    assert (name + ".tmp")[|name + ".tmp"| - 1] == 'p';
    assert (name + ".decrypted")[|name + ".decrypted"| - 1] == 'd';
  }

  ghost predicate IsLeast(x: string, names: set<string>) {
    x in names && forall y | y in names :: y == x || Less(x, y)
  }

  lemma {:induction false} LeastExists(names: set<string>)
    requires names != {}
    ensures exists x :: IsLeast(x, names)
    decreases |names|
  {
    var a :| a in names;
    var rest := names - {a};
    if rest == {} {
      assert names == {a};
      assert IsLeast(a, names);
    } else {
      LeastExists(rest);
      var b :| IsLeast(b, rest);
      LessIsTotal(a, b);
      var x := if Less(a, b) then a else b;
      forall y | y in names ensures y == x || Less(x, y) {
        if y != a && y != b && x == a { LessIsTransitive(a, b, y); }
      }
      assert IsLeast(x, names);
    }
  }

  /** The names in ascending order, as filepath.Glob returns them for one directory. */
  ghost function Sorted(names: set<string>): seq<string>
    decreases |names|
  {
    if names == {} then [] else
      LeastExists(names);
      var x :| IsLeast(x, names);
      [x] + Sorted(names - {x})
  }

  /** The listing holds every name once, in ascending order. */
  lemma {:induction false} SortedIsAscending(names: set<string>)
    ensures var r := Sorted(names);
      && |r| == |names|
      && (forall x :: x in r <==> x in names)
      && (forall i, j | 0 <= i < j < |r| :: Less(r[i], r[j]))
    decreases |names|
  {
    if names != {} {
      LeastExists(names);
      var x, rest := Sorted(names)[0], names - {Sorted(names)[0]};
      assert IsLeast(x, names) && Sorted(names) == [x] + Sorted(rest);
      SortedIsAscending(rest);
    }
  }

  ghost function Matching(names: set<string>): set<string> {
    set n | n in names && Matches(n)
  }

  /** The names of a set that sort after x. */
  ghost function Above(names: set<string>, x: string): set<string> {
    set y | y in names && Less(x, y)
  }

  /** At position i of the listing, exactly the later positions lie above. */
  lemma {:induction false} AboveInListing(names: set<string>, i: nat)
    requires i < |names|
    ensures i < |Sorted(names)| && |Above(names, Sorted(names)[i])| == |names| - 1 - i
    decreases i
  {
    var r := Sorted(names);
    var x, rest := r[0], names - {r[0]};
    SortedIsAscending(names);
    SortedStep(names);
    LessIrreflexive(x);
    if i == 0 {
      assert Above(names, x) == rest;
    } else {
      AboveInListing(rest, i - 1);
      LessIsTotal(x, r[i]);
      assert Above(names, r[i]) == Above(rest, r[i]);
    }
  }

  /** The listing starts with the least name and goes on with the listing of the others. */
  lemma SortedStep(names: set<string>)
    requires names != {}
    ensures Sorted(names) != [] && IsLeast(Sorted(names)[0], names)
    ensures Sorted(names) == [Sorted(names)[0]] + Sorted(names - {Sorted(names)[0]})
  {
    LeastExists(names);
  }
}
