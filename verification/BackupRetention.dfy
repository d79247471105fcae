/**
 Which backups survive: the retention pass of src/backup/backup.go keeps a name exactly when fewer than
 MaxBackups matching names sort after it, and pruning after every backup equals pruning the whole history once.
 */
module BackupRetention {
  import opened BackupNames

  /** The largest `max` names of a set. */
  ghost function Newest(names: set<string>, max: nat): set<string> {
    set n | n in names && |Above(names, n)| < max
  }

  lemma AboveIsMonotone(a: set<string>, b: set<string>, x: string)
    requires a <= b
    ensures Above(a, x) <= Above(b, x) && |Above(a, x)| <= |Above(b, x)|
  {
    SubsetSize(Above(a, x), Above(b, x));
  }

  lemma {:induction false} SubsetSize(a: set<string>, b: set<string>)
    requires a <= b
    ensures |a| <= |b|
    decreases |a|
  {
    if a != {} {
      var x :| x in a;
      SubsetSize(a - {x}, b - {x});
    }
  }

  /** Newest is the tail of the listing. */
  lemma NewestIsTail(names: set<string>, max: nat)
    ensures var r := Sorted(names);
      var k := if |r| <= max then 0 else |r| - max;
      Newest(names, max) == set i | k <= i < |r| :: r[i]
  {
    var r := Sorted(names);
    SortedIsAscending(names);
    forall i | 0 <= i < |r| ensures r[i] in Newest(names, max) <==> |r| - 1 - i < max {
      AboveInListing(names, i);
    }
    forall n | n in Newest(names, max) ensures exists i :: 0 <= i < |r| && r[i] == n {
      assert n in r;
    }
  }

  lemma NewestSize(names: set<string>, max: nat)
    ensures |Newest(names, max)| == if |names| <= max then |names| else max
  {
    var r := Sorted(names);
    SortedIsAscending(names);
    NewestIsTail(names, max);
    TailSize(r, if |r| <= max then 0 else |r| - max);
    ListingSize(names);
  }

  lemma ListingSize(names: set<string>)
    ensures |Sorted(names)| == |names|
  {
    SortedIsAscending(names);
    TailSize(Sorted(names), 0);
    assert names == set i | 0 <= i < |Sorted(names)| :: Sorted(names)[i];
  }

  lemma {:induction false} TailSize(r: seq<string>, k: nat)
    requires k <= |r|
    requires forall i, j | 0 <= i < j < |r| :: Less(r[i], r[j])
    ensures |set i | k <= i < |r| :: r[i]| == |r| - k
    decreases |r| - k
  {
    if k < |r| {
      TailSize(r, k + 1);
      var tail := set i | k + 1 <= i < |r| :: r[i];
      LessIrreflexive(r[k]);
      assert r[k] !in tail;
      assert (set i | k <= i < |r| :: r[i]) == tail + {r[k]};
    }
  }

  /** Pruning before additions does not matter to the pruning after them. */
  lemma PruneEarlyOrLate(names: set<string>, more: set<string>, max: nat)
    ensures Newest(Newest(names, max) + more, max) == Newest(names + more, max)
  {
    var all, kept := names + more, Newest(names, max) + more;
    var best := Newest(all, max);
    forall y | y in best ensures y in kept {
      AboveIsMonotone(names, all, y);
    }
    forall y | y in kept ensures |Above(kept, y)| < max <==> |Above(all, y)| < max {
      AboveIsMonotone(kept, all, y);
      if |Above(all, y)| >= max {
        BestAreAbove(all, y, max);
        assert best <= Above(kept, y);
        SubsetSize(best, Above(kept, y));
        AboveAreMembers(all, y);
        NewestSize(all, max);
      }
    }
  }

  lemma AboveAreMembers(names: set<string>, y: string)
    ensures |Above(names, y)| <= |names|
  {
    SubsetSize(Above(names, y), names);
  }

  /** A name with `max` names above it lies below all of the newest ones. */
  lemma BestAreAbove(names: set<string>, y: string, max: nat)
    requires |Above(names, y)| >= max
    ensures forall z | z in Newest(names, max) :: Less(y, z)
  {
    forall z | z in Newest(names, max) ensures Less(y, z) {
      LessIsTotal(y, z);
      if !Less(y, z) {
        forall w | w in Above(names, y) ensures w in Above(names, z) {
          if z != y { LessIsTransitive(z, y, w); }
        }
        SubsetSize(Above(names, y), Above(names, z));
      }
    }
  }

  /* ---------- a history of backups ---------- */

  /** The names in the directory after successful backups at these times, each followed by the retention pass. */
  ghost function History(names: set<string>, ts: seq<Timestamp>, max: nat): set<string> {
    if ts == [] then names else
      var before := History(names, ts[..|ts| - 1], max);
      Prune(before + {Name(ts[|ts| - 1])}, max)
  }

  /** One retention pass: matching names are pruned, all others stay. */
  ghost function Prune(names: set<string>, max: nat): set<string> {
    (names - Matching(names)) + Newest(Matching(names), max)
  }

  ghost function NamesOf(ts: seq<Timestamp>): set<string> {
    set i | 0 <= i < |ts| :: Name(ts[i])
  }

  lemma PruneMatching(names: set<string>, max: nat)
    ensures Matching(Prune(names, max)) == Newest(Matching(names), max)
    ensures Prune(names, max) - Matching(Prune(names, max)) == names - Matching(names)
  {
  }

  /** One more backup: its name joins the matching ones before they are pruned. */
  lemma PruneAfterAdding(names: set<string>, x: string, max: nat)
    requires Matches(x)
    ensures Matching(Prune(names + {x}, max)) == Newest(Matching(names) + {x}, max)
    ensures Prune(names + {x}, max) - Matching(Prune(names + {x}, max)) == names - Matching(names)
  {
    PruneMatching(names + {x}, max);
    assert Matching(names + {x}) == Matching(names) + {x};
  }

  /**
   Main result, for any clock and any files already present: pruning after every backup leaves the same
   backups as pruning everything ever written once, and never touches a file outside the pattern.
   */
  lemma {:induction false} HistoryIsOnePrune(names: set<string>, ts: seq<Timestamp>, max: nat)
    requires ts != []
    ensures Matching(History(names, ts, max)) == Newest(Matching(names) + NamesOf(ts), max)
    ensures History(names, ts, max) - Matching(History(names, ts, max)) == names - Matching(names)
    decreases |ts|
  {
    var front, t := ts[..|ts| - 1], ts[|ts| - 1];
    BackupsMatch(t);
    PruneAfterAdding(History(names, front, max), Name(t), max);
    NamesOfFront(ts);
    var all := Matching(names) + NamesOf(front);
    assert Matching(names) + NamesOf(ts) == all + {Name(t)};
    if front == [] {
      assert all == Matching(names);
    } else {
      HistoryIsOnePrune(names, front, max);
      PruneEarlyOrLate(all, {Name(t)}, max);
    }
  }

  lemma NamesOfFront(ts: seq<Timestamp>)
    requires ts != []
    ensures NamesOf(ts) == NamesOf(ts[..|ts| - 1]) + {Name(ts[|ts| - 1])}
  {
    assert ts == ts[..|ts| - 1] + [ts[|ts| - 1]];
    NamesOfAppend(ts[..|ts| - 1], ts[|ts| - 1]);
  }

  lemma NamesOfAppend(ts: seq<Timestamp>, t: Timestamp)
    ensures NamesOf(ts + [t]) == NamesOf(ts) + {Name(t)}
  {
    forall n | n in NamesOf(ts) + {Name(t)} ensures n in NamesOf(ts + [t]) {
      if n in NamesOf(ts) {
        var i :| 0 <= i < |ts| && Name(ts[i]) == n;
        assert (ts + [t])[i] == ts[i];
      } else {
        assert (ts + [t])[|ts|] == t;
      }
    }
  }

  /* ---------- attempts that may fail ---------- */

  /** What an attempt leaves under its name: a finished backup, then pruned, a torn file, not pruned, or nothing. */
  datatype Attempt = Finished(t: Timestamp) | TornFile(t: Timestamp) | Nothing

  /** The names in the directory after these attempts. */
  ghost function AfterAttempts(names: set<string>, attempts: seq<Attempt>, max: nat): set<string> {
    if attempts == [] then names else
      var before := AfterAttempts(names, attempts[..|attempts| - 1], max);
      match attempts[|attempts| - 1]
      case Finished(t) => Prune(before + {Name(t)}, max)
      case TornFile(t) => before + {Name(t)}
      case Nothing => before
  }

  /** What an attempt makes of the backups in the directory. */
  ghost function Backups(present: set<string>, a: Attempt, max: nat): set<string> {
    match a
    case Finished(t) => Newest(present + {Name(t)}, max)
    case TornFile(t) => present + {Name(t)}
    case Nothing => present
  }

  lemma OneMoreAttempt(names: set<string>, attempts: seq<Attempt>, a: Attempt, max: nat)
    ensures Matching(AfterAttempts(names, attempts + [a], max))
         == Backups(Matching(AfterAttempts(names, attempts, max)), a, max)
  {
    assert (attempts + [a])[..|attempts + [a]| - 1] == attempts;
    if !a.Nothing? {
      BackupsMatch(a.t);
      PruneAfterAdding(AfterAttempts(names, attempts, max), Name(a.t), max);
    }
  }

  ghost function NamesWritten(attempts: seq<Attempt>): set<string> {
    set i | 0 <= i < |attempts| && !attempts[i].Nothing? :: Name(attempts[i].t)
  }

  function NameWritten(a: Attempt): set<string> {
    if a.Nothing? then {} else {Name(a.t)}
  }

  lemma NamesWrittenOfFront(attempts: seq<Attempt>)
    requires attempts != []
    ensures NamesWritten(attempts)
         == NamesWritten(attempts[..|attempts| - 1]) + NameWritten(attempts[|attempts| - 1])
  {
    var n := |attempts| - 1;
    forall x | x in NamesWritten(attempts) ensures x in NamesWritten(attempts[..n]) + NameWritten(attempts[n]) {
      var i :| 0 <= i < |attempts| && !attempts[i].Nothing? && Name(attempts[i].t) == x;
      assert i < n ==> attempts[..n][i] == attempts[i];
    }
    NamesWrittenGrow(attempts, n);
    assert !attempts[n].Nothing? ==> Name(attempts[n].t) in NamesWritten(attempts);
  }

  lemma NamesWrittenGrow(attempts: seq<Attempt>, n: nat)
    requires n <= |attempts|
    ensures NamesWritten(attempts[..n]) <= NamesWritten(attempts)
  {
    forall x | x in NamesWritten(attempts[..n]) ensures x in NamesWritten(attempts) {
      var i :| 0 <= i < n && !attempts[..n][i].Nothing? && Name(attempts[..n][i].t) == x;
      assert attempts[i] == attempts[..n][i];
    }
  }

  /** To every later pruning, the attempts look like one that pruned nothing. */
  lemma {:induction false} AttemptsPruneLate(names: set<string>, attempts: seq<Attempt>, more: set<string>, max: nat)
    ensures Newest(Matching(AfterAttempts(names, attempts, max)) + more, max)
         == Newest(Matching(names) + NamesWritten(attempts) + more, max)
    decreases |attempts|
  {
    if attempts == [] {
      assert NamesWritten(attempts) == {};
      assert Matching(names) + {} + more == Matching(names) + more;
    } else {
      var front, last := attempts[..|attempts| - 1], attempts[|attempts| - 1];
      var added := NameWritten(last) + more;
      AttemptsPruneLate(names, front, added, max);
      NamesWrittenOfFront(attempts);
      LastAttempt(names, attempts, more, max);
      assert Matching(names) + NamesWritten(attempts) + more == Matching(names) + NamesWritten(front) + added;
    }
  }

  lemma LastAttempt(names: set<string>, attempts: seq<Attempt>, more: set<string>, max: nat)
    requires attempts != []
    ensures var before := AfterAttempts(names, attempts[..|attempts| - 1], max);
      Newest(Matching(AfterAttempts(names, attempts, max)) + more, max)
        == Newest(Matching(before) + (NameWritten(attempts[|attempts| - 1]) + more), max)
  {
    var before, last := AfterAttempts(names, attempts[..|attempts| - 1], max), attempts[|attempts| - 1];
    match last
    case Finished(t) =>
      BackupsMatch(t);
      PruneAfterAdding(before, Name(t), max);
      PruneEarlyOrLate(Matching(before) + {Name(t)}, more, max);
      assert Matching(before) + {Name(t)} + more == Matching(before) + ({Name(t)} + more);
    case TornFile(t) =>
      BackupsMatch(t);
      assert Matching(before + {Name(t)}) + more == Matching(before) + ({Name(t)} + more);
    case Nothing =>
      assert {} + more == more;
  }

  /**
   Main result with failures: when the last attempt finished, exactly the newest of all names ever written are left,
   those of torn files among them.
   */
  lemma AttemptsAreOnePrune(names: set<string>, attempts: seq<Attempt>, max: nat)
    requires attempts != [] && attempts[|attempts| - 1].Finished?
    ensures Matching(AfterAttempts(names, attempts, max)) == Newest(Matching(names) + NamesWritten(attempts), max)
  {
    var front, t := attempts[..|attempts| - 1], attempts[|attempts| - 1].t;
    BackupsMatch(t);
    PruneAfterAdding(AfterAttempts(names, front, max), Name(t), max);
    AttemptsPruneLate(names, front, {Name(t)}, max);
    NamesWrittenOfFront(attempts);
    assert Matching(names) + NamesWritten(attempts) == Matching(names) + NamesWritten(front) + {Name(t)};
  }

  function AllFinished(ts: seq<Timestamp>): (attempts: seq<Attempt>)
    ensures |attempts| == |ts|
  {
    seq(|ts|, i requires 0 <= i < |ts| => Finished(ts[i]))
  }

  /** Without failures the attempts are the history of backups. */
  lemma {:induction false} FinishedAttemptsAreHistory(names: set<string>, ts: seq<Timestamp>, max: nat)
    ensures AfterAttempts(names, AllFinished(ts), max) == History(names, ts, max)
    decreases |ts|
  {
    if ts != [] {
      FinishedAttemptsAreHistory(names, ts[..|ts| - 1], max);
      assert AllFinished(ts)[..|ts| - 1] == AllFinished(ts[..|ts| - 1]);
    }
  }

  /** Valid wall-clock times that strictly increase. */
  ghost predicate Increasing(ts: seq<Timestamp>) {
    && (forall i | 0 <= i < |ts| :: InRange(ts[i]))
    && (forall i, j | 0 <= i < j < |ts| :: Before(ts[i], ts[j]))
  }

  function Names(ts: seq<Timestamp>): (r: seq<string>)
    ensures |r| == |ts| && forall i | 0 <= i < |ts| :: r[i] == Name(ts[i])
  {
    seq(|ts|, i requires 0 <= i < |ts| => Name(ts[i]))
  }

  lemma NamesIncrease(ts: seq<Timestamp>)
    requires Increasing(ts)
    ensures forall i, j | 0 <= i < j < |ts| :: Less(Names(ts)[i], Names(ts)[j])
  {
    forall i, j | 0 <= i < j < |ts| ensures Less(Names(ts)[i], Names(ts)[j]) {
      NamesSortChronologically(ts[i], ts[j]);
    }
  }

  /** The elements of a strictly ascending list that sort after position i are the later ones. */
  lemma AboveInAscending(r: seq<string>, i: nat)
    requires i < |r|
    requires forall a, b | 0 <= a < b < |r| :: Less(r[a], r[b])
    ensures Above(set j | 0 <= j < |r| :: r[j], r[i]) == set j | i + 1 <= j < |r| :: r[j]
  {
    forall j | 0 <= j < |r| && Less(r[i], r[j]) ensures j > i {
      LessIsTotal(r[i], r[j]);
    }
  }

  /** The newest elements of a strictly ascending list are its tail. */
  lemma NewestOfAscending(r: seq<string>, max: nat)
    requires forall a, b | 0 <= a < b < |r| :: Less(r[a], r[b])
    ensures var k := if |r| <= max then 0 else |r| - max;
      Newest(set j | 0 <= j < |r| :: r[j], max) == set j | k <= j < |r| :: r[j]
  {
    var all := set j | 0 <= j < |r| :: r[j];
    forall i | 0 <= i < |r| ensures r[i] in Newest(all, max) <==> |r| - 1 - i < max {
      AboveInAscending(r, i);
      TailSize(r, i + 1);
      assert r[i] in all;
    }
  }

  /** With a clock that moves forward and no backups at first, exactly the newest min(n, MaxBackups) remain. */
  lemma NewestBackupsRemain(names: set<string>, ts: seq<Timestamp>, max: nat)
    requires ts != [] && Matching(names) == {} && Increasing(ts)
    ensures var k := if |ts| <= max then 0 else |ts| - max;
      Matching(History(names, ts, max)) == set i | k <= i < |ts| :: Name(ts[i])
  {
    HistoryIsOnePrune(names, ts, max);
    NamesIncrease(ts);
    NewestOfAscending(Names(ts), max);
    var r, k := Names(ts), if |ts| <= max then 0 else |ts| - max;
    assert Matching(names) + NamesOf(ts) == set j | 0 <= j < |r| :: r[j];
    assert (set j | k <= j < |r| :: r[j]) == set i | k <= i < |ts| :: Name(ts[i]);
  }
}
