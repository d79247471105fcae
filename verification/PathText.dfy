/**
 Slash-separated paths as text: splitting into elements, resolving parent segments, path.Clean by its documented
 rules (sections 5.2.4 and 6.2.2.3 of RFC 3986), and canonical paths.
 */
module PathText {
  predicate Slashless(s: string) {
    '/' !in s
  }

  predicate StartsWithSlash(s: string) {
    s != "" && s[0] == '/'
  }

  predicate EndsWithSlash(s: string) {
    s != "" && s[|s| - 1] == '/'
  }

  /** t occurs in s at position i. */
  predicate At(s: string, t: string, i: int) {
    0 <= i <= |s| - |t| && s[i..i + |t|] == t
  }

  predicate Contains(s: string, t: string) {
    exists i | 0 <= i <= |s| :: At(s, t, i)
  }

  /** The pieces between slashes, empty ones included. */
  function Split(s: string): (r: seq<string>)
    ensures |r| >= 1
  {
    if s == "" then [""]
    else
      var rest := Split(s[1..]);
      if s[0] == '/' then [""] + rest else [[s[0]] + rest[0]] + rest[1..]
  }

  function Join(es: seq<string>): string {
    if es == [] then "" else if |es| == 1 then es[0] else es[0] + "/" + Join(es[1..])
  }

  predicate IsElement(e: string) {
    e != "" && e != "." && Slashless(e)
  }

  /** The pieces that name something. */
  function Keep(pieces: seq<string>): seq<string> {
    if pieces == [] then []
    else (if pieces[0] != "" && pieces[0] != "." then [pieces[0]] else []) + Keep(pieces[1..])
  }

  /** The non-empty, non-"." segments of a path, in order. */
  function Elements(p: string): seq<string> {
    Keep(Split(p))
  }

  /** One more element: a parent segment removes the one before it, a leading one disappears only at the root. */
  function Descend(rooted: bool, front: seq<string>, last: string): seq<string> {
    if last != ".." then front + [last]
    else if front != [] && front[|front| - 1] != ".." then front[..|front| - 1]
    else if rooted then front
    else front + [last]
  }

  /** What path.Clean makes of parent segments. */
  function Resolve(rooted: bool, es: seq<string>): seq<string> {
    if es == [] then [] else Descend(rooted, Resolve(rooted, es[..|es| - 1]), es[|es| - 1])
  }

  /** path.Clean, by its documented rules. */
  function Clean(p: string): string {
    var body := Join(Resolve(StartsWithSlash(p), Elements(p)));
    if StartsWithSlash(p) then "/" + body else if body == "" then "." else body
  }

  /** The elements of a rooted path after its parent segments are resolved. */
  function Segments(p: string): seq<string> {
    Resolve(true, Elements(p))
  }

  /* ---------- lemmas about splitting and joining ---------- */

  lemma {:induction false} SplitWord(a: string)
    requires Slashless(a)
    ensures Split(a) == [a]
  {
    if a != "" {
      assert Slashless(a[1..]) by { assert forall c | c in a[1..] :: c in a; }
      SplitWord(a[1..]);
      assert [a[0]] + a[1..] == a;
    }
  }

  lemma {:induction false} SplitFirst(a: string, s: string)
    requires Slashless(a)
    ensures Split(a + "/" + s) == [a] + Split(s)
    decreases |a|
  {
    var t := a + "/" + s;
    if a == "" {
      assert t[1..] == s;
    } else {
      assert Slashless(a[1..]) by { assert forall c | c in a[1..] :: c in a; }
      assert t[1..] == a[1..] + "/" + s;
      SplitFirst(a[1..], s);
      assert [a[0]] + a[1..] == a;
    }
  }

  lemma {:induction false} PiecesAreSlashless(s: string)
    ensures forall i | 0 <= i < |Split(s)| :: Slashless(Split(s)[i])
  {
    if s != "" {
      PiecesAreSlashless(s[1..]);
      var rest := Split(s[1..]);
      forall i | 0 <= i < |Split(s)| ensures Slashless(Split(s)[i]) {
        if s[0] == '/' {
          if i > 0 { assert Split(s)[i] == rest[i - 1]; }
        } else if i > 0 {
          assert Split(s)[i] == rest[i];
        } else {
          assert Slashless(rest[0]);
        }
      }
    }
  }

  lemma {:induction false} KeepKeepsElements(pieces: seq<string>)
    requires forall i | 0 <= i < |pieces| :: Slashless(pieces[i])
    ensures forall i | 0 <= i < |Keep(pieces)| :: IsElement(Keep(pieces)[i])
  {
    if pieces != [] {
      KeepKeepsElements(pieces[1..]);
      assert Slashless(pieces[0]);
    }
  }

  lemma {:induction false} KeepOfElements(es: seq<string>)
    requires forall i | 0 <= i < |es| :: IsElement(es[i])
    ensures Keep(es) == es
  {
    if es != [] { KeepOfElements(es[1..]); assert IsElement(es[0]); }
  }

  lemma ElementsAreElements(p: string)
    ensures forall i | 0 <= i < |Elements(p)| :: IsElement(Elements(p)[i])
  {
    PiecesAreSlashless(p);
    KeepKeepsElements(Split(p));
  }

  lemma {:induction false} SplitJoin(es: seq<string>)
    requires es != [] && forall i | 0 <= i < |es| :: IsElement(es[i])
    ensures Split(Join(es)) == es
    ensures Join(es) != "" && Join(es)[0] != '/' && !EndsWithSlash(Join(es))
  {
    assert IsElement(es[0]);
    if |es| == 1 {
      SplitWord(es[0]);
      assert es[0][|es[0]| - 1] in es[0] && es[0][0] in es[0];
    } else {
      SplitJoin(es[1..]);
      SplitFirst(es[0], Join(es[1..]));
      assert es[0][0] in es[0];
    }
  }

  /** A canonical path: a slash and the elements with single slashes between them. */
  function Canonical(es: seq<string>): string {
    "/" + Join(es)
  }

  lemma ElementsOfCanonical(es: seq<string>)
    requires forall i | 0 <= i < |es| :: IsElement(es[i])
    ensures Elements(Canonical(es)) == es
    ensures EndsWithSlash(Canonical(es)) <==> es == []
  {
    assert Canonical(es)[1..] == Join(es);
    if es == [] {
      assert Split("/") == [""] + Split("");
      assert Keep(["", ""]) == [] by { assert ["", ""][1..] == [""]; }
    } else {
      SplitJoin(es);
      KeepOfElements(es);
      assert ([""] + es)[1..] == es;
    }
  }

  lemma RootHasNoElements()
    ensures Elements("/") == [] && Canonical([]) == "/"
  {
    assert Canonical([]) == "/";
    ElementsOfCanonical([]);
  }

  lemma {:induction false} KeepConcat(a: seq<string>, b: seq<string>)
    ensures Keep(a + b) == Keep(a) + Keep(b)
    decreases |a|
  {
    if a == [] {
      assert a + b == b;
    } else {
      KeepConcat(a[1..], b);
      assert (a + b)[1..] == a[1..] + b;
    }
  }

  lemma {:induction false} SplitTrailing(s: string)
    ensures Split(s + "/") == Split(s) + [""]
    decreases |s|
  {
    if s == "" {
      assert (s + "/")[1..] == "";
    } else {
      assert (s + "/")[1..] == s[1..] + "/";
      SplitTrailing(s[1..]);
    }
  }

  lemma {:induction false} SplitConcat(a: string, b: string)
    ensures Split(a + "/" + b) == Split(a) + Split(b)
    decreases |a|
  {
    var t := a + "/" + b;
    if a == "" {
      assert t[1..] == b;
    } else {
      assert t[1..] == a[1..] + "/" + b;
      SplitConcat(a[1..], b);
    }
  }

  /** What makes them the elements: slashes separate them, and a piece counts unless it is empty or a dot. */
  lemma ElementsConcat(a: string, b: string)
    ensures Elements(a + "/" + b) == Elements(a) + Elements(b)
    ensures Slashless(a) ==> Elements(a) == if a == "" || a == "." then [] else [a]
  {
    SplitConcat(a, b);
    KeepConcat(Split(a), Split(b));
    if Slashless(a) {
      SplitWord(a);
      assert [a][1..] == [];
    }
  }

  /** A trailing slash adds no element. */
  lemma TrailingSlashAddsNothing(s: string)
    ensures Elements(s + "/") == Elements(s)
  {
    SplitTrailing(s);
    KeepConcat(Split(s), [""]);
    assert Keep([""]) == [];
  }

  /* ---------- parent segments ---------- */

  lemma {:induction false} ResolveKeepsElements(rooted: bool, es: seq<string>)
    requires forall i | 0 <= i < |es| :: IsElement(es[i])
    ensures var r := Resolve(rooted, es);
      && (forall i | 0 <= i < |r| :: IsElement(r[i]))
      && (rooted ==> ".." !in r)
      && (".." in r ==> r[0] == "..")
    decreases |es|
  {
    if es != [] { ResolveKeepsElements(rooted, es[..|es| - 1]); }
  }

  lemma {:induction false} ResolveWithoutParents(rooted: bool, es: seq<string>)
    requires ".." !in es
    ensures Resolve(rooted, es) == es
    decreases |es|
  {
    if es != [] { ResolveWithoutParents(rooted, es[..|es| - 1]); }
  }

  lemma ResolveOneMore(rooted: bool, es: seq<string>, e: string)
    ensures Resolve(rooted, es + [e]) == Descend(rooted, Resolve(rooted, es), e)
  {
    assert (es + [e])[..|es + [e]| - 1] == es;
  }

  lemma ResolveAppend(rooted: bool, a: seq<string>, b: seq<string>)
    requires b != []
    ensures Resolve(rooted, a + b) == Descend(rooted, Resolve(rooted, a + b[..|b| - 1]), b[|b| - 1])
  {
    assert (a + b)[..|a + b| - 1] == a + b[..|b| - 1];
  }

  /** What follows is resolved against the resolved beginning. */
  lemma {:induction false} ResolveSuffix(rooted: bool, a: seq<string>, a': seq<string>, b: seq<string>)
    requires Resolve(rooted, a) == Resolve(rooted, a')
    ensures Resolve(rooted, a + b) == Resolve(rooted, a' + b)
    decreases |b|
  {
    if b == [] {
      assert a + b == a && a' + b == a';
    } else {
      ResolveSuffix(rooted, a, a', b[..|b| - 1]);
      ResolveAppend(rooted, a, b);
      ResolveAppend(rooted, a', b);
    }
  }

  /** The laws of section 5.2.4 of RFC 3986: a parent segment removes the segment before it, or nothing at the root. */
  lemma ParentRemovesSegment(rooted: bool, a: seq<string>, x: string, b: seq<string>)
    requires x != ".."
    ensures Resolve(rooted, a + [x, ".."] + b) == Resolve(rooted, a + b)
    ensures Resolve(true, [".."] + b) == Resolve(true, b)
  {
    ResolveOneMore(rooted, a, x);
    ResolveOneMore(rooted, a + [x], "..");
    assert a + [x] + [".."] == a + [x, ".."];
    ResolveSuffix(rooted, a + [x, ".."], a, b);
    ResolveOneMore(true, [], "..");
    assert [] + [".."] == [".."] && [] + b == b;
    ResolveSuffix(true, [".."], [], b);
  }

  lemma SegmentsAreElements(p: string)
    ensures forall i | 0 <= i < |Segments(p)| :: IsElement(Segments(p)[i])
    ensures ".." !in Segments(p)
  {
    ElementsAreElements(p);
    ResolveKeepsElements(true, Elements(p));
  }

  lemma ContainsInTail(s: string, t: string)
    requires s != "" && Contains(s[1..], t)
    ensures Contains(s, t)
  {
    var i :| 0 <= i <= |s[1..]| && At(s[1..], t, i);
    assert s[i + 1..i + 1 + |t|] == s[1..][i..i + |t|];
    assert At(s, t, i + 1);
  }

  /** Every piece occurs in the path, the first one at its start. */
  lemma {:induction false} PiecesOccur(s: string)
    ensures At(s, Split(s)[0], 0)
    ensures forall i | 0 <= i < |Split(s)| :: Contains(s, Split(s)[i])
  {
    if s != "" {
      PiecesOccur(s[1..]);
      var rest := Split(s[1..]);
      if s[0] != '/' { assert s[..1 + |rest[0]|] == [s[0]] + s[1..][..|rest[0]|]; }
      assert At(s, Split(s)[0], 0);
      forall i | 0 <= i < |Split(s)| ensures Contains(s, Split(s)[i]) {
        if i > 0 {
          assert Split(s)[i] == rest[if s[0] == '/' then i - 1 else i];
          ContainsInTail(s, Split(s)[i]);
        }
      }
    } else {
      assert At(s, "", 0);
    }
  }

  lemma {:induction false} KeepIsPart(pieces: seq<string>)
    ensures forall e | e in Keep(pieces) :: e in pieces
  {
    if pieces != [] { KeepIsPart(pieces[1..]); }
  }

  /* ---------- cleaning shortens ---------- */

  /** The length of the pieces with one separator each. */
  function Weight(es: seq<string>): nat {
    if es == [] then 0 else |es[0]| + 1 + Weight(es[1..])
  }

  lemma {:induction false} WeightConcat(a: seq<string>, b: seq<string>)
    ensures Weight(a + b) == Weight(a) + Weight(b)
    decreases |a|
  {
    if a == [] {
      assert a + b == b;
    } else {
      WeightConcat(a[1..], b);
      assert (a + b)[1..] == a[1..] + b;
    }
  }

  lemma {:induction false} WeightOfSplit(s: string)
    ensures Weight(Split(s)) == |s| + 1
    decreases |s|
  {
    if s != "" {
      WeightOfSplit(s[1..]);
      var rest := Split(s[1..]);
      assert ([""] + rest)[1..] == rest;
      assert ([[s[0]] + rest[0]] + rest[1..])[1..] == rest[1..];
    }
  }

  lemma {:induction false} WeightOfKeep(pieces: seq<string>)
    ensures Weight(Keep(pieces)) <= Weight(pieces)
    decreases |pieces|
  {
    if pieces != [] {
      WeightOfKeep(pieces[1..]);
      WeightConcat([pieces[0]], Keep(pieces[1..]));
      assert [] + Keep(pieces[1..]) == Keep(pieces[1..]);
    }
  }

  lemma WeightOfFront(r: seq<string>)
    requires r != []
    ensures Weight(r) == Weight(r[..|r| - 1]) + |r[|r| - 1]| + 1
  {
    assert r == r[..|r| - 1] + [r[|r| - 1]];
    WeightConcat(r[..|r| - 1], [r[|r| - 1]]);
  }

  lemma WeightOfDescend(rooted: bool, r: seq<string>, last: string)
    ensures Weight(Descend(rooted, r, last)) <= Weight(r) + |last| + 1
  {
    WeightConcat(r, [last]);
    if r != [] { WeightOfFront(r); }
  }

  lemma {:induction false} WeightOfResolve(rooted: bool, es: seq<string>)
    ensures Weight(Resolve(rooted, es)) <= Weight(es)
    decreases |es|
  {
    if es != [] {
      WeightOfResolve(rooted, es[..|es| - 1]);
      WeightOfFront(es);
      WeightOfDescend(rooted, Resolve(rooted, es[..|es| - 1]), es[|es| - 1]);
    }
  }

  lemma {:induction false} LengthOfJoin(es: seq<string>)
    ensures |Join(es)| == if es == [] then 0 else Weight(es) - 1
    decreases |es|
  {
    if |es| > 1 { LengthOfJoin(es[1..]); }
  }

  lemma CanonicalIsNoLonger(p: string)
    requires StartsWithSlash(p)
    ensures |Canonical(Segments(p))| <= |p|
  {
    var s := p[1..];
    assert Split(p) == [""] + Split(s) && ([""] + Split(s))[1..] == Split(s);
    assert Elements(p) == Keep(Split(s)) by { assert [] + Keep(Split(s)) == Keep(Split(s)); }
    WeightOfSplit(s);
    WeightOfKeep(Split(s));
    WeightOfResolve(true, Elements(p));
    LengthOfJoin(Segments(p));
  }


  /* ---------- characters ---------- */

  predicate Avoids(s: string, bad: set<char>) {
    forall i | 0 <= i < |s| :: s[i] !in bad
  }

  ghost predicate AllAvoid(es: seq<string>, bad: set<char>) {
    forall i | 0 <= i < |es| :: Avoids(es[i], bad)
  }

  lemma {:induction false} PiecesAvoid(s: string, bad: set<char>)
    requires Avoids(s, bad)
    ensures AllAvoid(Split(s), bad)
    decreases |s|
  {
    if s != "" { PiecesAvoid(s[1..], bad); }
  }

  lemma {:induction false} KeptAvoid(pieces: seq<string>, bad: set<char>)
    requires AllAvoid(pieces, bad)
    ensures AllAvoid(Keep(pieces), bad)
    decreases |pieces|
  {
    if pieces != [] { KeptAvoid(pieces[1..], bad); }
  }

  lemma {:induction false} ResolvedAvoid(es: seq<string>, bad: set<char>)
    requires AllAvoid(es, bad)
    ensures AllAvoid(Resolve(true, es), bad)
    decreases |es|
  {
    if es != [] { ResolvedAvoid(es[..|es| - 1], bad); }
  }

  lemma {:induction false} JoinedAvoid(es: seq<string>, bad: set<char>)
    requires AllAvoid(es, bad) && '/' !in bad
    ensures Avoids(Join(es), bad)
    decreases |es|
  {
    if |es| > 1 { JoinedAvoid(es[1..], bad); }
  }

  lemma SegmentsAvoid(p: string, bad: set<char>)
    requires Avoids(p, bad) && '/' !in bad
    ensures AllAvoid(Elements(p), bad) && AllAvoid(Segments(p), bad)
    ensures Avoids(Canonical(Segments(p)), bad)
  {
    PiecesAvoid(p, bad);
    KeptAvoid(Split(p), bad);
    ResolvedAvoid(Elements(p), bad);
    JoinedAvoid(Segments(p), bad);
  }

  /** Conversely, a character of a path stands in one of its pieces, or is a slash. */
  lemma {:induction false} PathAvoids(s: string, bad: set<char>)
    requires AllAvoid(Split(s), bad) && '/' !in bad
    ensures Avoids(s, bad)
    decreases |s|
  {
    if s != "" {
      var rest := Split(s[1..]);
      if s[0] == '/' {
        assert AllAvoid(rest, bad) by {
          forall i | 0 <= i < |rest| ensures Avoids(rest[i], bad) { assert Split(s)[i + 1] == rest[i]; }
        }
      } else {
        assert Split(s)[0] == [s[0]] + rest[0] && Split(s)[0][0] == s[0];
        assert AllAvoid(rest, bad) by {
          forall i | 0 <= i < |rest| ensures Avoids(rest[i], bad) {
            if i == 0 {
              forall j | 0 <= j < |rest[0]| ensures rest[0][j] !in bad { assert Split(s)[0][j + 1] == rest[0][j]; }
            } else {
              assert Split(s)[i] == rest[i];
            }
          }
        }
      }
      PathAvoids(s[1..], bad);
    }
  }

  lemma {:induction false} PiecesAvoidIfElementsDo(pieces: seq<string>, bad: set<char>)
    requires AllAvoid(Keep(pieces), bad) && '.' !in bad
    ensures AllAvoid(pieces, bad)
    decreases |pieces|
  {
    if pieces != [] {
      var kept, rest := Keep(pieces), Keep(pieces[1..]);
      if pieces[0] != "" && pieces[0] != "." {
        assert kept[0] == pieces[0];
        forall i | 0 <= i < |rest| ensures Avoids(rest[i], bad) { assert kept[i + 1] == rest[i]; }
      } else {
        assert kept == rest;
      }
      PiecesAvoidIfElementsDo(pieces[1..], bad);
      forall i | 0 <= i < |pieces| ensures Avoids(pieces[i], bad) {
        if i > 0 { assert pieces[1..][i - 1] == pieces[i]; }
      }
    }
  }

  /** Only characters of elements can be bad, when slashes and dots are not. */
  lemma PathAvoidsIffElementsDo(p: string, bad: set<char>)
    requires '/' !in bad && '.' !in bad
    ensures Avoids(p, bad) <==> AllAvoid(Elements(p), bad)
  {
    if Avoids(p, bad) {
      SegmentsAvoid(p, bad);
    } else if AllAvoid(Elements(p), bad) {
      PiecesAvoidIfElementsDo(Split(p), bad);
      PathAvoids(p, bad);
    }
  }

  /* ---------- occurrences of ".." ---------- */

  lemma ContainsTransitive(s: string, e: string, t: string)
    requires Contains(s, e) && Contains(e, t)
    ensures Contains(s, t)
  {
    var i :| 0 <= i <= |s| && At(s, e, i);
    var j :| 0 <= j <= |e| && At(e, t, j);
    forall k | 0 <= k < |t| ensures s[i + j + k] == t[k] {
      assert s[i..i + |e|][j + k] == e[j + k] == e[j..j + |t|][k];
    }
    assert At(s, t, i + j);
  }

  /** Joining makes no new "..": a slash stands between any two elements. */
  lemma {:induction false} DotsInJoin(es: seq<string>) returns (k: nat)
    requires Contains(Join(es), "..")
    ensures k < |es| && Contains(es[k], "..")
    decreases |es|
  {
    if |es| == 0 {
      assert false;
    } else if |es| == 1 {
      k := 0;
    } else {
      var s, x, rest := Join(es), es[0], Join(es[1..]);
      var i :| 0 <= i <= |s| && At(s, "..", i);
      assert s[i] == s[i..i + 2][0] && s[i + 1] == s[i..i + 2][1];
      assert s[|x|] == '/';
      if i < |x| {
        assert x[i..i + 2] == s[i..i + 2];
        assert At(x, "..", i);
        k := 0;
      } else {
        var j := i - |x| - 1;
        assert rest[j..j + 2] == s[i..i + 2];
        assert At(rest, "..", j);
        k := DotsInJoin(es[1..]);
        k := k + 1;
      }
    }
  }

  lemma DotsInCanonical(es: seq<string>)
    requires Contains(Canonical(es), "..")
    ensures Contains(Join(es), "..")
  {
    var s := Canonical(es);
    var i :| 0 <= i <= |s| && At(s, "..", i);
    assert s[i] == s[i..i + 2][0];
    assert Join(es)[i - 1..i + 1] == s[i..i + 2];
    assert At(Join(es), "..", i - 1);
  }

  /** A slash behind a string does not complete a "..". */
  lemma DotsBeforeSlash(s: string)
    ensures Contains(s + "/", "..") <==> Contains(s, "..")
  {
    var t := s + "/";
    if i :| 0 <= i <= |t| && At(t, "..", i) {
      assert t[i + 1] == t[i..i + 2][1];
      assert s[i..i + 2] == t[i..i + 2];
      assert At(s, "..", i);
    }
    if i :| 0 <= i <= |s| && At(s, "..", i) {
      assert t[i..i + 2] == s[i..i + 2];
      assert At(t, "..", i);
    }
  }

  lemma SlashIsBehind(x: string, rest: string, t: string)
    requires Slashless(x) && EndsWithSlash(t) && |t| <= |x + rest| && t == (x + rest)[..|t|]
    ensures |t| > |x|
  {
    assert (x + rest)[|t| - 1] == t[|t| - 1];
    assert forall i | 0 <= i < |x| :: (x + rest)[i] == x[i] && x[i] in x;
  }

  /** The part of a joined path before one of its slashes is made of its first elements. */
  lemma {:induction false} PrefixOfJoin(es: seq<string>, t: string) returns (k: nat)
    requires es != [] && forall i | 0 <= i < |es| :: IsElement(es[i])
    requires EndsWithSlash(t) && |t| <= |Join(es)| + 1 && t == (Join(es) + "/")[..|t|]
    ensures 0 < k <= |es| && t == Join(es[..k]) + "/"
    decreases |es|
  {
    var x := es[0];
    var all := Join(es) + "/";
    assert IsElement(x);
    assert |es| == 1 ==> Join(es) == x;
    assert all == x + all[|x|..];
    SlashIsBehind(x, all[|x|..], t);
    if |t| == |x| + 1 {
      k := 1;
      assert t == all[..|x|] + [all[|x|]];
      assert all[..|x|] == x && es[..1] == [x];
    } else {
      JoinStep(es);
      assert |es| > 1;
      k := PrefixOfJoin(es[1..], t[|x| + 1..]);
      JoinOfPrefix(es, k);
      assert t == x + "/" + t[|x| + 1..];
      k := k + 1;
    }
  }

  lemma JoinStep(es: seq<string>)
    requires |es| > 1
    ensures Join(es) + "/" == es[0] + "/" + (Join(es[1..]) + "/")
  {
  }

  lemma JoinOfPrefix(es: seq<string>, k: nat)
    requires 0 < k < |es|
    ensures Join(es[..k + 1]) + "/" == es[0] + "/" + (Join(es[1..][..k]) + "/")
  {
    assert es[..k + 1][1..] == es[1..][..k];
    JoinStep(es[..k + 1]);
  }

  /* ---------- dot segments in references ---------- */

  /** The pieces of a rooted path without dot segments; empty pieces count as segments. */
  function Undot(pieces: seq<string>): seq<string> {
    if pieces == [] then [] else UndotStep(Undot(pieces[..|pieces| - 1]), pieces[|pieces| - 1])
  }

  function UndotStep(front: seq<string>, last: string): seq<string> {
    if last == "." then front
    else if last != ".." then front + [last]
    else if front == [] then []
    else front[..|front| - 1]
  }

  predicate DotSegment(piece: string) {
    piece == "." || piece == ".."
  }

  /** With a slash behind the rest when the last piece is a dot segment. */
  function UndotAll(pieces: seq<string>): seq<string> {
    Undot(pieces) + if pieces != [] && DotSegment(pieces[|pieces| - 1]) then [""] else []
  }

  /** remove_dot_segments of section 5.2.4 of RFC 3986, for a rooted path. */
  function RemoveDots(p: string): string
    requires StartsWithSlash(p)
  {
    "/" + Join(UndotAll(Split(p[1..])))
  }

  lemma WeightOfUndotStep(r: seq<string>, last: string)
    ensures Weight(UndotStep(r, last)) <= Weight(r) + |last| + 1
    ensures DotSegment(last) ==> Weight(UndotStep(r, last)) <= Weight(r)
  {
    WeightConcat(r, [last]);
    if r != [] { WeightOfFront(r); }
  }

  lemma {:induction false} WeightOfUndot(pieces: seq<string>)
    ensures Weight(Undot(pieces)) <= Weight(pieces)
    decreases |pieces|
  {
    if pieces != [] {
      WeightOfUndot(pieces[..|pieces| - 1]);
      WeightOfFront(pieces);
      WeightOfUndotStep(Undot(pieces[..|pieces| - 1]), pieces[|pieces| - 1]);
    }
  }

  lemma WeightOfUndotAll(pieces: seq<string>)
    ensures Weight(UndotAll(pieces)) <= Weight(pieces)
  {
    if pieces != [] && DotSegment(pieces[|pieces| - 1]) {
      WeightOfUndot(pieces[..|pieces| - 1]);
      WeightOfFront(pieces);
      WeightOfUndotStep(Undot(pieces[..|pieces| - 1]), pieces[|pieces| - 1]);
      WeightConcat(Undot(pieces), [""]);
    } else {
      WeightOfUndot(pieces);
      assert Undot(pieces) + [] == Undot(pieces);
    }
  }

  /** Removing dot segments never makes a path longer. */
  lemma RemoveDotsIsNoLonger(p: string)
    requires StartsWithSlash(p)
    ensures |RemoveDots(p)| <= |p| && StartsWithSlash(RemoveDots(p))
  {
    var pieces := Split(p[1..]);
    WeightOfSplit(p[1..]);
    WeightOfUndotAll(pieces);
    LengthOfJoin(UndotAll(pieces));
  }

  lemma {:induction false} UndotAvoids(pieces: seq<string>, bad: set<char>)
    requires AllAvoid(pieces, bad)
    ensures AllAvoid(Undot(pieces), bad)
    decreases |pieces|
  {
    if pieces != [] { UndotAvoids(pieces[..|pieces| - 1], bad); }
  }

  lemma RemoveDotsAvoids(p: string, bad: set<char>)
    requires StartsWithSlash(p) && Avoids(p, bad) && '/' !in bad
    ensures Avoids(RemoveDots(p), bad)
  {
    PiecesAvoid(p[1..], bad);
    UndotAvoids(Split(p[1..]), bad);
    JoinedAvoid(UndotAll(Split(p[1..])), bad);
  }

  lemma {:induction false} UndotOfElements(es: seq<string>)
    requires forall i | 0 <= i < |es| :: !DotSegment(es[i])
    ensures Undot(es) == es
    decreases |es|
  {
    if es != [] { UndotOfElements(es[..|es| - 1]); }
  }

  /** Splitting undoes joining, for pieces without slashes. */
  lemma {:induction false} SplitJoinPieces(ps: seq<string>)
    requires ps != [] && forall i | 0 <= i < |ps| :: Slashless(ps[i])
    ensures Split(Join(ps)) == ps
    decreases |ps|
  {
    if |ps| == 1 {
      SplitWord(ps[0]);
    } else {
      SplitJoinPieces(ps[1..]);
      SplitFirst(ps[0], Join(ps[1..]));
    }
  }

  lemma {:induction false} JoinWithLast(es: seq<string>, w: string)
    ensures Join(es + [w]) == if es == [] then w else Join(es) + "/" + w
    decreases |es|
  {
    if es == [] {
      assert [] + [w] == [w];
    } else {
      var rest := es[1..];
      JoinWithLast(rest, w);
      assert (es + [w])[1..] == rest + [w];
      assert Join(es + [w]) == es[0] + "/" + Join(rest + [w]);
      assert rest != [] ==> es[0] + "/" + (Join(rest) + "/" + w) == es[0] + "/" + Join(rest) + "/" + w;
    }
  }

  lemma UndotOneMore(es: seq<string>, w: string)
    requires forall i | 0 <= i < |es| :: !DotSegment(es[i])
    ensures Undot(es + [w]) == UndotStep(es, w)
    ensures (es + [w])[|es|] == w
  {
    UndotOfElements(es);
    assert (es + [w])[..|es + [w]| - 1] == es;
  }

  lemma RemoveDotsOfPieces(ps: seq<string>)
    requires ps != [] && forall i | 0 <= i < |ps| :: Slashless(ps[i])
    ensures RemoveDots("/" + Join(ps)) == "/" + Join(UndotAll(ps))
  {
    assert ("/" + Join(ps))[1..] == Join(ps);
    SplitJoinPieces(ps);
  }

  /** On a canonical path that goes on with one more piece, only that piece can be a dot segment. */
  lemma RemoveDotsBehind(es: seq<string>, w: string) returns (kept: seq<string>, last: string)
    requires forall i | 0 <= i < |es| :: IsElement(es[i])
    requires ".." !in es && Slashless(w)
    ensures (forall i | 0 <= i < |kept| :: IsElement(kept[i])) && ".." !in kept
    ensures last == "" || (IsElement(last) && last != "..")
    ensures RemoveDots("/" + Join(es + [w])) == "/" + Join(kept + [last])
    ensures !DotSegment(w) ==> kept == es && last == w
    ensures w == ".." ==> last == "" && kept == if es == [] then [] else es[..|es| - 1]
  {
    forall i | 0 <= i < |es| ensures Slashless(es[i]) && !DotSegment(es[i]) { assert IsElement(es[i]); }
    RemoveDotsOfPieces(es + [w]);
    UndotOneMore(es, w);
    kept := if w == ".." && es != [] then es[..|es| - 1] else es;
    last := if DotSegment(w) then "" else w;
    assert UndotAll(es + [w]) == kept + [last];
    assert forall i | 0 <= i < |kept| :: kept[i] == es[i];
  }
}
