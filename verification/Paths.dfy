/**
 Path canonicalisation of src/middleware/security.go: the trailing-slash redirect, the traversal check and the
 cleaning step, their composition in the order of src/server/server.go, and the requests of a client that follows
 the redirects (sections 4.2 and 5.2 of RFC 3986).
 */
module Paths {
  import opened Common
  import opened PathText

  /* ---------- strings ---------- */

  function Lower(s: string): (r: string)
    ensures |r| == |s|
  {
    seq(|s|, i requires 0 <= i < |s| => if 'A' <= s[i] <= 'Z' then 'a' + (s[i] - 'A') else s[i])
  }

  /** strings.LastIndex(s, "/") */
  function LastSlash(s: string): (i: int)
    ensures -1 <= i < |s|
    ensures i >= 0 ==> s[i] == '/'
    ensures forall j | i < j < |s| :: s[j] != '/'
  {
    if s == "" then -1
    else if s[|s| - 1] == '/' then |s| - 1
    else LastSlash(s[..|s| - 1])
  }

  /* ---------- the middlewares ---------- */

  datatype Decision = Next | Redirect(location: string)

  /** URLNormalizeMiddleware. */
  function Normalize(p: string, query: string): Decision {
    if p == "/" then Next
    else if EndsWithSlash(p) then
      var last := p[LastSlash(p)..];
      if '.' !in last then Redirect(p[..|p| - 1] + if query != "" then "?" + query else "")
      else Next
    else Next
  }

  /** The traversal check of PathSecurityMiddleware; an empty raw path means the decoded one. */
  predicate Rejected(p: string, rawPath: string) {
    var raw := if rawPath == "" then p else rawPath;
    Contains(p, "..") || Contains(raw, "..") || Contains(Lower(raw), "%2e")
  }

  /** What the middleware writes into the request for an accepted path. */
  function Cleaned(p: string): string {
    var c := Clean(p);
    var rooted := if StartsWithSlash(c) then c else "/" + c;
    if p != "/" && EndsWithSlash(p) && !EndsWithSlash(rooted) then rooted + "/" else rooted
  }

  class Request {
    var Path: string
    var RawPath: string
    var RawQuery: string

    constructor (path: string, rawPath: string, rawQuery: string)
      ensures Path == path && RawPath == rawPath && RawQuery == rawQuery
    {
      Path, RawPath, RawQuery := path, rawPath, rawQuery;
    }

    method URLNormalize() returns (d: Decision)
      ensures d == Normalize(Path, RawQuery)
    {
      var p := Path;
      if p == "/" { return Next; }
      if EndsWithSlash(p) {
        var last := p[LastSlash(p)..];
        if '.' !in last {
          var canonical := p[..|p| - 1];
          if RawQuery != "" { canonical := canonical + "?" + RawQuery; }
          return Redirect(canonical);
        }
      }
      return Next;
    }

    /** Tells whether the next handler is called, with the path it then sees. */
    method PathSecurity() returns (accepted: bool)
      modifies this`Path
      ensures accepted <==> !Rejected(old(Path), RawPath)
      ensures Path == if accepted then Cleaned(old(Path)) else old(Path)
    {
      var original := Path;
      var rawPath := RawPath;
      if rawPath == "" { rawPath := Path; }
      if Contains(original, "..") || Contains(rawPath, "..") || Contains(Lower(rawPath), "%2e") {
        return false;
      }
      var cleaned := Clean(original);
      if !StartsWithSlash(cleaned) { cleaned := "/" + cleaned; }
      if original != "/" && EndsWithSlash(original) && !EndsWithSlash(cleaned) { cleaned := cleaned + "/"; }
      Path := cleaned;
      return true;
    }
  }

  /* ---------- redirects ---------- */

  /** The file-extension test never applies: what follows the last slash of such a path is the slash itself. */
  lemma RedirectIffTrailingSlash(p: string, query: string)
    ensures Normalize(p, query).Redirect? <==> p != "/" && EndsWithSlash(p)
  {
    if EndsWithSlash(p) {
      assert LastSlash(p) == |p| - 1;
      assert p[|p| - 1..] == "/";
    }
  }

  /** Each redirect asks for a strictly shorter path, with the query appended. */
  lemma RedirectShortens(p: string, query: string)
    requires Normalize(p, query).Redirect?
    ensures Normalize(p, query).location == p[..|p| - 1] + (if query == "" then "" else "?" + query)
    ensures p == p[..|p| - 1] + "/"
  {
    RedirectIffTrailingSlash(p, query);
  }

  /* ---------- cleaning ---------- */

  /** A rooted path becomes a slash and its segments, plus the trailing slash it had. */
  lemma CleanedIsCanonical(p: string)
    requires StartsWithSlash(p)
    ensures Cleaned(p) == Canonical(Segments(p)) + if EndsWithSlash(p) && Segments(p) != [] then "/" else ""
    ensures Elements(Cleaned(p)) == Segments(p)
  {
    SegmentsAreElements(p);
    ElementsOfCanonical(Segments(p));
    TrailingSlashAddsNothing(Canonical(Segments(p)));
    RootHasNoElements();
    assert Canonical(Segments(p)) + "" == Canonical(Segments(p));
  }

  /** The path the middleware writes, from the cleaned one. */
  lemma SlashesAround(p: string, c: string)
    requires Clean(p) == c && !StartsWithSlash(p) && !StartsWithSlash(c) && c != "" && !EndsWithSlash(c)
    ensures Cleaned(p) == "/" + c + if EndsWithSlash(p) then "/" else ""
  {
    assert "/" + c + "" == "/" + c;
  }

  /** Without a leading slash the result is the same, except that a path without elements leaves a dot behind. */
  lemma CleanedWithoutLeadingSlash(p: string)
    requires !StartsWithSlash(p)
    ensures var es := Resolve(false, Elements(p));
      Cleaned(p) == (if es == [] then "/." else Canonical(es)) + if EndsWithSlash(p) then "/" else ""
  {
    var es := Resolve(false, Elements(p));
    ElementsAreElements(p);
    ResolveKeepsElements(false, Elements(p));
    if es == [] {
      SlashesAround(p, ".");
      assert "/" + "." == "/.";
    } else {
      SplitJoin(es);
      SlashesAround(p, Join(es));
    }
  }

  /** A canonical path is a fixed point of cleaning exactly when it has no parent segment. */
  lemma CleanedCanonical(es: seq<string>, slash: bool)
    requires forall i | 0 <= i < |es| :: IsElement(es[i])
    requires slash ==> es != []
    ensures var q := Canonical(es) + if slash then "/" else "";
      Cleaned(q) == q <==> ".." !in es
  {
    var q := Canonical(es) + if slash then "/" else "";
    ElementsOfCanonical(es);
    TrailingSlashAddsNothing(Canonical(es));
    assert Canonical(es) + "" == Canonical(es);
    assert q[0] == '/' && Elements(q) == es;
    CleanedIsCanonical(q);
    SegmentsAreElements(q);
    if ".." !in es { ResolveWithoutParents(true, es); }
  }

  lemma CleaningIsIdempotentIfRooted(p: string)
    requires StartsWithSlash(p)
    ensures Cleaned(Cleaned(p)) == Cleaned(p)
  {
    SegmentsAreElements(p);
    CleanedIsCanonical(p);
    CleanedCanonical(Segments(p), EndsWithSlash(p) && Segments(p) != []);
  }

  /** A lone dot left behind does not survive the second cleaning. */
  lemma CleaningLoneDot(p: string)
    requires !StartsWithSlash(p) && Resolve(false, Elements(p)) == []
    ensures Cleaned(Cleaned(p)) != Cleaned(p)
  {
    CleanedWithoutLeadingSlash(p);
    DotDoesNotStay();
    assert "/." + "" == "/." && "/." + "/" == "/./";
  }

  lemma CleaningUnrooted(p: string)
    requires !StartsWithSlash(p) && Resolve(false, Elements(p)) != []
    ensures Cleaned(Cleaned(p)) == Cleaned(p) <==> Resolve(false, Elements(p))[0] != ".."
  {
    ElementsAreElements(p);
    ResolveKeepsElements(false, Elements(p));
    CleanedWithoutLeadingSlash(p);
    CleanedCanonical(Resolve(false, Elements(p)), EndsWithSlash(p));
  }

  /**
   Main result: cleaning is idempotent exactly on paths that start with a slash, or whose resolved elements start
   with one that is no parent segment.
   */
  lemma CleaningIsIdempotentIff(p: string)
    ensures var es := Resolve(false, Elements(p));
      Cleaned(Cleaned(p)) == Cleaned(p) <==> StartsWithSlash(p) || (es != [] && es[0] != "..")
  {
    if StartsWithSlash(p) {
      CleaningIsIdempotentIfRooted(p);
    } else if Resolve(false, Elements(p)) == [] {
      CleaningLoneDot(p);
    } else {
      CleaningUnrooted(p);
    }
  }

  lemma DotDoesNotStay()
    ensures Cleaned("/.") == "/" && Cleaned("/./") == "/"
  {
    var empty: seq<string> := [];
    SplitFirst("", ".");
    SplitWord(".");
    assert "" + "/" + "." == "/.";
    assert Keep(["", "."]) == empty by { assert ["", "."][1..] == ["."]; assert Keep(["."]) == empty; }
    assert Elements("/.") == empty;
    TrailingSlashAddsNothing("/.");
    assert "/." + "/" == "/./";
    CleanedIsCanonical("/.");
    CleanedIsCanonical("/./");
  }

  /** Lower-casing turns exactly the two spellings of an encoded dot into the one the check looks for. */
  lemma EncodedDotAt(s: string, i: nat)
    ensures At(Lower(s), "%2e", i) <==> At(s, "%2e", i) || At(s, "%2E", i)
  {
    if i + 3 <= |s| {
      var t, u := Lower(s)[i..i + 3], s[i..i + 3];
      assert t == [t[0], t[1], t[2]] && u == [u[0], u[1], u[2]];
      assert "%2e" == ['%', '2', 'e'] && "%2E" == ['%', '2', 'E'];
    }
  }

  /** Refused is exactly a ".." in either form of the path, or an encoded dot, in either case, in the raw one. */
  lemma RejectedIff(p: string, rawPath: string)
    ensures var raw := if rawPath == "" then p else rawPath;
      Rejected(p, rawPath) <==>
        Contains(p, "..") || Contains(raw, "..") || Contains(raw, "%2e") || Contains(raw, "%2E")
  {
    var raw := if rawPath == "" then p else rawPath;
    forall i: nat ensures At(Lower(raw), "%2e", i) <==> At(raw, "%2e", i) || At(raw, "%2E", i) {
      EncodedDotAt(raw, i);
    }
  }

  /** An accepted path has no parent segment, before and after cleaning: it cannot climb. */
  lemma AcceptedPathsDoNotClimb(p: string, rawPath: string)
    requires StartsWithSlash(p) && !Rejected(p, rawPath)
    ensures ".." !in Elements(p) && ".." !in Elements(Cleaned(p))
    ensures Segments(p) == Elements(p)
  {
    PiecesOccur(p);
    KeepIsPart(Split(p));
    CleanedIsCanonical(p);
    forall e | e in Elements(p) ensures Contains(p, e) {
      assert e in Split(p);
    }
    ResolveWithoutParents(true, Elements(p));
  }

  /** Cleaning never makes a rooted path longer. */
  lemma CleanedIsNoLonger(p: string)
    requires StartsWithSlash(p)
    ensures |Cleaned(p)| <= |p| && StartsWithSlash(Cleaned(p))
  {
    CleanedIsCanonical(p);
    CanonicalIsNoLonger(p);
    if EndsWithSlash(p) && p != "/" {
      assert p == p[..|p| - 1] + "/";
      TrailingSlashAddsNothing(p[..|p| - 1]);
      CanonicalIsNoLonger(p[..|p| - 1]);
    } else if p == "/" {
      RootHasNoElements();
    }
  }

  /* ---------- following redirects ---------- */

  /** The beginning of a string, before the first of these characters. */
  function Until(s: string, stops: set<char>): (r: string)
    ensures |r| <= |s| && r == s[..|r|]
    ensures forall i | 0 <= i < |r| :: r[i] !in stops
    ensures |r| < |s| ==> s[|r|] in stops
  {
    if s == "" || s[0] in stops then "" else [s[0]] + Until(s[1..], stops)
  }

  lemma {:induction false} UntilIsUnique(s: string, r: string, stops: set<char>)
    requires |r| <= |s| && r == s[..|r|] && forall i | 0 <= i < |r| :: r[i] !in stops
    requires |r| < |s| ==> s[|r|] in stops
    ensures Until(s, stops) == r
    decreases |s|
  {
    if r != "" {
      assert r[0] == s[0] && r[1..] == s[1..][..|r| - 1];
      UntilIsUnique(s[1..], r[1..], stops);
    }
  }

  /** What follows a stop does not matter. */
  lemma UntilAppend(s: string, t: string, stops: set<char>)
    requires t == "" || t[0] in stops
    ensures Until(s + t, stops) == Until(s, stops)
  {
    var r := Until(s, stops);
    assert (s + t)[..|r|] == s[..|r|];
    UntilIsUnique(s + t, r, stops);
  }

  const STOPS := {'?', '#'}

  /* ---------- percent encoding ---------- */

  function HexValue(c: char): Option<nat> {
    if '0' <= c <= '9' then Some((c - '0') as nat)
    else if 'a' <= c <= 'f' then Some((c - 'a') as nat + 10)
    else if 'A' <= c <= 'F' then Some((c - 'A') as nat + 10)
    else None
  }

  /** An escape of two hexadecimal digits stands at the front. */
  predicate EscapeAhead(s: string) {
    |s| >= 3 && HexValue(s[1]).Some? && HexValue(s[2]).Some?
  }

  function EscapedByte(s: string): char
    requires EscapeAhead(s)
  {
    (16 * HexValue(s[1]).value + HexValue(s[2]).value) as char
  }

  /** url.PathUnescape, None for a malformed escape. */
  function Decoded(s: string): Option<string>
    decreases |s|
  {
    if s == "" then Some("")
    else if s[0] != '%' then
      match Decoded(s[1..])
      case None => None
      case Some(t) => Some([s[0]] + t)
    else if !EscapeAhead(s) then None
    else
      match Decoded(s[3..])
      case None => None
      case Some(t) => Some([EscapedByte(s)] + t)
  }

  /** The bytes net/url writes into a path as they are. */
  predicate PathChar(c: char) {
    'a' <= c <= 'z' || 'A' <= c <= 'Z' || '0' <= c <= '9'
    || c in {'-', '_', '.', '~', '$', '&', '+', ',', '/', ':', ';', '=', '@'}
  }

  function HexDigit(n: nat): char
    requires n < 16
  {
    if n < 10 then '0' + n as char else 'A' + (n - 10) as char
  }

  /** How net/url writes a path of bytes. */
  function Escaped(s: string): string {
    if s == "" then ""
    else if PathChar(s[0]) then [s[0]] + Escaped(s[1..])
    else ['%', HexDigit(s[0] as nat / 16 % 16), HexDigit(s[0] as nat % 16)] + Escaped(s[1..])
  }

  lemma HexDigitsRead(c: char)
    requires c < 256 as char
    ensures var e := ['%', HexDigit(c as nat / 16 % 16), HexDigit(c as nat % 16)];
      EscapeAhead(e) && EscapedByte(e) == c
  {
    var h, l := c as nat / 16 % 16, c as nat % 16;
    assert HexValue(HexDigit(h)) == Some(h) && HexValue(HexDigit(l)) == Some(l);
    assert 16 * h + l == c as nat;
  }

  /** Decoding undoes escaping, for strings of bytes. */
  lemma {:induction false} DecodeUndoesEscape(s: string)
    requires forall i | 0 <= i < |s| :: s[i] < 256 as char
    ensures Decoded(Escaped(s)) == Some(s)
    decreases |s|
  {
    if s != "" {
      DecodeUndoesEscape(s[1..]);
      var t := Escaped(s);
      if PathChar(s[0]) {
        assert t[1..] == Escaped(s[1..]);
      } else {
        HexDigitsRead(s[0]);
        assert t[3..] == Escaped(s[1..]);
      }
      assert [s[0]] + s[1..] == s;
    }
  }

  lemma {:induction false} DecodedIsNoLonger(s: string)
    requires Decoded(s).Some?
    ensures |Decoded(s).value| <= |s|
    ensures StartsWithSlash(s) ==> StartsWithSlash(Decoded(s).value)
    decreases |s|
  {
    if s != "" { DecodedIsNoLonger(if s[0] == '%' then s[3..] else s[1..]); }
  }

  lemma {:induction false} DecodedWithoutEscapes(s: string)
    requires Avoids(s, {'%'})
    ensures Decoded(s) == Some(s)
    decreases |s|
  {
    if s != "" {
      DecodedWithoutEscapes(s[1..]);
      assert [s[0]] + s[1..] == s;
    }
  }

  /* ---------- following redirects ---------- */

  /** The characters net/url accepts before the `@` of an authority. */
  predicate UserinfoChar(c: char) {
    'a' <= c <= 'z' || 'A' <= c <= 'Z' || '0' <= c <= '9'
    || c in {'-', '.', '_', ':', '~', '!', '$', '&', '\'', '(', ')', '*', '+', ',', ';', '=', '%', '@'}
  }

  /** What stands between two leading slashes and the next delimiter (section 3.2 of RFC 3986). */
  function Authority(url: string): string
    requires |url| >= 2
  {
    Until(url[2..], {'/', '?', '#'})
  }

  /** A user without host. */
  predicate UserOnly(authority: string) {
    && authority != "" && authority[|authority| - 1] == '@' && Decoded(authority).Some?
    && forall i | 0 <= i < |authority| :: UserinfoChar(authority[i])
  }

  /** net/url finds a host in the reference, or an authority it cannot read. */
  predicate NamesHost(url: string) {
    |url| >= 2 && url[..2] == "//" && Authority(url) != "" && !UserOnly(Authority(url))
  }

  /** The bytes that net/url refuses in any URL do not occur. */
  predicate NoControl(s: string) {
    forall i | 0 <= i < |s| :: !IsControl(s[i])
  }

  predicate IsControl(c: char) {
    c < ' ' || c == '\U{007F}'
  }

  /** The escapes in the path and in the fragment of a reference are well-formed; those of a query are not looked at. */
  predicate Parses(url: string) {
    var fragment := url[|Until(url, {'#'})|..];
    Decoded(Until(url, STOPS)).Some? && (fragment == "" || Decoded(fragment[1..]).Some?)
  }

  /** A client resolves the reference, sent as it is, against the authority in it, perhaps an empty one. */
  predicate Leaves(url: string) {
    |url| >= 2 && url[..2] == "//" && (NamesHost(url) || !Parses(url))
  }

  /** The Location of http.Redirect: if net/url parses it and finds no host, the path before the query is cleaned. */
  function LocationOf(url: string): string {
    if NamesHost(url) || !Parses(url) then url
    else
      var path := Until(url, {'?'});
      Cleaned(path) + url[|path|..]
  }

  /** The path and the query that a client asks for, given a location without authority. */
  function PathOf(location: string): string {
    var path := Until(location, STOPS);
    if StartsWithSlash(path) then RemoveDots(path) else path
  }

  function QueryOf(location: string): string {
    var rest := location[|Until(location, STOPS)|..];
    if rest != "" && rest[0] == '?' then Until(rest[1..], {'#'}) else ""
  }

  /** A request as the middlewares see it: `rawPath` is empty when the path was sent as net/url would write it. */
  datatype Ask = Ask(path: string, rawPath: string, query: string)

  function Requested(sent: string, path: string, query: string): Ask {
    Ask(path, if sent == Escaped(path) then "" else sent, query)
  }

  /** Where a request leads: a handler, an error, another server, an unreadable location, or the next request. */
  datatype Reply = Serve | Refuse | Leave(location: string) | Garble | Follow(ask: Ask)

  /** The two middlewares in their order, http.Redirect, and the client. */
  function Answer(a: Ask): Reply {
    match Normalize(a.path, a.query)
    case Next => if Rejected(a.path, a.rawPath) then Refuse else Serve
    case Redirect(url) =>
      if !NoControl(url) then Garble
      else if Leaves(url) then Leave(url)
      else
        var sent := PathOf(LocationOf(url));
        match Decoded(sent)
        case None => Refuse
        case Some(path) => Follow(Requested(sent, path, QueryOf(LocationOf(url))))
  }

  lemma UntilOfRooted(s: string, stops: set<char>)
    requires StartsWithSlash(s) && '/' !in stops
    ensures StartsWithSlash(Until(s, stops))
  {
  }

  /** A location that is not sent as it is cleans the path before the question mark. */
  lemma CleanedLocation(u: string, tail: string)
    requires (tail == "" || tail[0] == '?') && Parses(u + tail) && !NamesHost(u + tail)
    ensures var path := Until(u, {'?'});
      && |path| <= |u| && LocationOf(u + tail) == Cleaned(path) + (u + tail)[|path|..]
      && Until(LocationOf(u + tail), STOPS) == Until(Cleaned(path), STOPS)
  {
    var path := Until(u, {'?'});
    UntilAppend(u, tail, {'?'});
    var rest := (u + tail)[|path|..];
    assert |path| == |u| ==> rest == tail;
    assert |path| < |u| ==> rest[0] == u[|path|];
    UntilAppend(Cleaned(path), rest, STOPS);
  }

  lemma SentIsNoLonger(u: string, tail: string)
    requires StartsWithSlash(u) && (tail == "" || tail[0] == '?')
    ensures var sent := PathOf(LocationOf(u + tail)); StartsWithSlash(sent) && |sent| <= |u|
  {
    var path := Until(u, {'?'});
    UntilOfRooted(u, {'?'});
    CleanedIsNoLonger(path);
    UntilAppend(u, tail, STOPS);
    UntilOfRooted(u, STOPS);
    UntilOfRooted(Cleaned(path), STOPS);
    RemoveDotsIsNoLonger(Until(u, STOPS));
    RemoveDotsIsNoLonger(Until(Cleaned(path), STOPS));
    if Parses(u + tail) && !NamesHost(u + tail) { CleanedLocation(u, tail); }
  }

  /** Every redirect that stays asks for a strictly shorter path. */
  lemma NextRequestIsShorter(a: Ask)
    requires StartsWithSlash(a.path) && Answer(a).Follow?
    ensures var b := Answer(a).ask; StartsWithSlash(b.path) && |b.path| < |a.path|
  {
    RedirectShortens(a.path, a.query);
    RedirectIffTrailingSlash(a.path, a.query);
    SentIsNoLonger(a.path[..|a.path| - 1], if a.query == "" then "" else "?" + a.query);
    DecodedIsNoLonger(PathOf(LocationOf(Normalize(a.path, a.query).location)));
  }

  /**
   Where a client that follows all redirects ends. A page is the path field that the middlewares hand on; a router
   may also look at the encoded form, which they leave alone. What becomes of a location with control characters is
   up to the client.
   */
  datatype Landing = Page(path: string) | BadRequest | Elsewhere(location: string) | Garbled

  /** What the client has in the end. */
  function EndOf(a: Ask, reply: Reply): Landing
    requires !reply.Follow?
  {
    match reply
    case Serve => Page(Cleaned(a.path))
    case Refuse => BadRequest
    case Leave(location) => Elsewhere(location)
    case Garble => Garbled
  }

  function Visit(a: Ask): Landing
    requires StartsWithSlash(a.path)
    decreases |a.path|
  {
    match Answer(a)
    case Follow(b) => NextRequestIsShorter(a); Visit(b)
    case reply => EndOf(a, reply)
  }

  lemma VisitFollows(a: Ask, b: Ask)
    requires StartsWithSlash(a.path) && Answer(a) == Follow(b)
    ensures StartsWithSlash(b.path) && |b.path| < |a.path| && Visit(a) == Visit(b)
  {
    NextRequestIsShorter(a);
  }

  /** The last request of a client that follows all redirects. */
  function Last(a: Ask): Ask
    requires StartsWithSlash(a.path)
    decreases |a.path|
  {
    match Answer(a)
    case Follow(b) => NextRequestIsShorter(a); Last(b)
    case _ => a
  }

  /** One request, through the two middlewares, http.Redirect and the client. */
  method Send(a: Ask) returns (reply: Reply)
    ensures reply == Answer(a)
  {
    var r := new Request(a.path, a.rawPath, a.query);
    var d := r.URLNormalize();
    if d.Next? {
      var accepted := r.PathSecurity();
      return if accepted then Serve else Refuse;
    }
    if !NoControl(d.location) { return Garble; }
    if Leaves(d.location) { return Leave(d.location); }
    var sent := PathOf(LocationOf(d.location));
    var path := Decoded(sent);
    if path.None? { return Refuse; }
    reply := Follow(Requested(sent, path.value, QueryOf(LocationOf(d.location))));
  }

  /** A client that follows redirects until it has an answer. */
  method Browse(first: Ask) returns (landing: Landing)
    requires StartsWithSlash(first.path)
    ensures landing == Visit(first)
  {
    var a := first;
    var reply := Send(a);
    while reply.Follow?
      invariant StartsWithSlash(a.path) && reply == Answer(a) && Visit(a) == Visit(first)
      decreases |a.path|
    {
      VisitFollows(a, reply.ask);
      a := reply.ask;
      reply := Send(a);
    }
    landing := EndOf(a, reply);
  }

  /* ---------- where requests end ---------- */

  predicate Redirected(p: string) {
    p != "/" && EndsWithSlash(p)
  }

  lemma {:induction false} LastDecides(a: Ask)
    requires StartsWithSlash(a.path)
    ensures StartsWithSlash(Last(a).path) && !Answer(Last(a)).Follow? && Visit(a) == Visit(Last(a))
    ensures Redirected(Last(a).path) ==> Redirected(a.path)
    decreases |a.path|
  {
    RedirectIffTrailingSlash(a.path, a.query);
    if Answer(a).Follow? {
      NextRequestIsShorter(a);
      LastDecides(Answer(a).ask);
    }
  }

  /** The page of an accepted path without trailing slash. */
  lemma UnslashedPage(p: string, rawPath: string)
    requires StartsWithSlash(p) && !Redirected(p) && !Rejected(p, rawPath)
    ensures Cleaned(p) == Canonical(Segments(p)) && Segments(p) == Elements(p)
  {
    AcceptedPathsDoNotClimb(p, rawPath);
    CleanedIsCanonical(p);
    RootHasNoElements();
    assert Canonical(Segments(p)) + "" == Canonical(Segments(p));
  }

  /**
   Main result, for every request: it and all redirects that follow end at a last request, which decides. Without a
   trailing slash that one is refused or reaches the page of its elements; with one it leaves the server exactly for
   two leading slashes and an authority that names a host or a location that net/url cannot parse, and otherwise has
   an unreadable location or malformed escapes.
   */
  lemma LandingIsDecided(a: Ask)
    requires StartsWithSlash(a.path)
    ensures var l := Last(a);
      var url := Normalize(l.path, l.query);
      && (url.Redirect? <==> Redirected(l.path))
      && (Visit(a).Page? <==> !Redirected(l.path) && !Rejected(l.path, l.rawPath))
      && (Visit(a).Page? ==> Visit(a) == Page(Canonical(Segments(l.path))) && Segments(l.path) == Elements(l.path))
      && (Visit(a).Elsewhere? <==> url.Redirect? && NoControl(url.location) && Leaves(url.location))
      && (Visit(a).Garbled? <==> url.Redirect? && !NoControl(url.location))
      && (Visit(a).BadRequest? <==>
            if url.Redirect? then
              && NoControl(url.location) && !Leaves(url.location)
              && Decoded(PathOf(LocationOf(url.location))).None?
            else Rejected(l.path, l.rawPath))
  {
    LastDecides(a);
    var l := Last(a);
    RedirectIffTrailingSlash(l.path, l.query);
    if !Redirected(l.path) && !Rejected(l.path, l.rawPath) { UnslashedPage(l.path, l.rawPath); }
  }

  /** Main result, for every request: a page that is reached is canonical, and its own path leads to it again exactly
      when it does not spell an encoded dot. */
  lemma PagesAreStableIff(a: Ask, query: string)
    requires StartsWithSlash(a.path) && Visit(a).Page?
    ensures var page := Visit(a).path;
      && StartsWithSlash(page) && page == Canonical(Elements(page)) && Normalize(page, query) == Next
      && Cleaned(page) == page
      && Visit(Ask(page, "", query)) == if Contains(Lower(page), "%2e") then BadRequest else Page(page)
  {
    LandingIsDecided(a);
    var p := Last(a).path;
    var es := Segments(p);
    LastDecides(a);
    AcceptedPathsDoNotClimb(p, Last(a).rawPath);
    SegmentsAreElements(p);
    ElementsOfCanonical(es);
    CleanedOfCanonical(es);
    RootHasNoElements();
    RedirectIffTrailingSlash(Canonical(es), query);
    PageHasNoDots(p);
  }

  /** Main result, for every two requests that reach pages: they reach the same one exactly when their last requests
      have the same elements. */
  lemma SamePageIffSameElements(a: Ask, b: Ask)
    requires StartsWithSlash(a.path) && Visit(a).Page?
    requires StartsWithSlash(b.path) && Visit(b).Page?
    ensures Visit(a) == Visit(b) <==> Elements(Last(a).path) == Elements(Last(b).path)
  {
    LandingIsDecided(a);
    LandingIsDecided(b);
    ElementsAreElements(Last(a).path);
    ElementsAreElements(Last(b).path);
    CanonicalIsInjective(Elements(Last(a).path), Elements(Last(b).path));
  }

  lemma CanonicalIsInjective(a: seq<string>, b: seq<string>)
    requires forall i | 0 <= i < |a| :: IsElement(a[i])
    requires forall i | 0 <= i < |b| :: IsElement(b[i])
    ensures Canonical(a) == Canonical(b) <==> a == b
  {
    ElementsOfCanonical(a);
    ElementsOfCanonical(b);
  }

  lemma CleanedOfCanonical(es: seq<string>)
    requires ".." !in es && forall i | 0 <= i < |es| :: IsElement(es[i])
    ensures Cleaned(Canonical(es)) == Canonical(es)
  {
    CleanedCanonical(es, false);
    assert Canonical(es) + "" == Canonical(es);
  }

  /** The page of a path without ".." has none either. */
  lemma PageHasNoDots(p: string)
    requires StartsWithSlash(p) && !Contains(p, "..")
    ensures !Contains(Canonical(Segments(p)), "..") && Segments(p) == Elements(p)
  {
    PiecesOccur(p);
    KeepIsPart(Split(p));
    forall e | e in Elements(p) ensures Contains(p, e) {
      assert e in Split(p);
    }
    ResolveWithoutParents(true, Elements(p));
    if Contains(Canonical(Segments(p)), "..") {
      DotsInCanonical(Segments(p));
      var k := DotsInJoin(Segments(p));
      assert Elements(p)[k] in Elements(p);
      ContainsTransitive(p, Elements(p)[k], "..");
    }
  }

  /* ---------- paths without escapes ---------- */

  /** No percent sign and no control character. */
  predicate Plain(p: string) {
    NoControl(p) && Avoids(p, {'%'})
  }

  /** The path asked for after the first redirect that stays, or p itself if there is none. */
  function Asked(p: string): string {
    if Redirected(p) then PathOf(Cleaned(Until(p[..|p| - 1], {'?'}))) else p
  }

  /** A query that a request after a redirect carries. */
  predicate TidyQuery(query: string) {
    NoControl(query) && Avoids(query, {'#'})
  }

  lemma HostIgnoresTail(u: string, tail: string)
    requires u != "" && (tail == "" || tail == "/" || tail[0] in STOPS)
    ensures NamesHost(u + tail) <==> NamesHost(u)
  {
    if |u| >= 2 {
      assert (u + tail)[..2] == u[..2] && (u + tail)[2..] == u[2..] + tail;
      UntilAppend(u[2..], tail, {'/', '?', '#'});
    } else if tail != "" {
      assert (u + tail)[1] == tail[0] && (u + tail)[..2][1] == tail[0];
      assert tail == "/" ==> (u + tail)[2..] == "";
    }
  }

  /** The location of a redirect names a host exactly when the path does. */
  lemma RedirectNamesHost(p: string, query: string)
    requires StartsWithSlash(p) && Redirected(p)
    ensures Normalize(p, query).Redirect?
    ensures NamesHost(Normalize(p, query).location) <==> NamesHost(p)
  {
    RedirectIffTrailingSlash(p, query);
    RedirectShortens(p, query);
    HostIgnoresTail(p[..|p| - 1], "/");
    HostIgnoresTail(p[..|p| - 1], if query == "" then "" else "?" + query);
  }

  lemma CleanedAvoids(p: string, bad: set<char>)
    requires StartsWithSlash(p) && Avoids(p, bad) && '/' !in bad
    ensures Avoids(Cleaned(p), bad)
  {
    CleanedIsCanonical(p);
    SegmentsAvoid(p, bad);
  }

  lemma AskedAvoids(p: string, bad: set<char>)
    requires StartsWithSlash(p) && Redirected(p) && Avoids(p, bad) && '/' !in bad
    ensures StartsWithSlash(Asked(p)) && Avoids(Asked(p), bad) && Avoids(Asked(p), STOPS)
  {
    var path := Until(p[..|p| - 1], {'?'});
    assert p[0] == '/';
    UntilOfRooted(p[..|p| - 1], {'?'});
    assert Avoids(path, bad) by { assert forall i | 0 <= i < |path| :: path[i] == p[i]; }
    CleanedAvoids(path, bad);
    CleanedIsNoLonger(path);
    UntilOfRooted(Cleaned(path), STOPS);
    RemoveDotsAvoids(Until(Cleaned(path), STOPS), bad);
    RemoveDotsAvoids(Until(Cleaned(path), STOPS), STOPS);
    RemoveDotsIsNoLonger(Until(Cleaned(path), STOPS));
  }

  lemma QueryIsTidy(location: string)
    requires NoControl(location)
    ensures TidyQuery(QueryOf(location))
  {
    var rest := location[|Until(location, STOPS)|..];
    if rest != "" && rest[0] == '?' {
      var q := Until(rest[1..], {'#'});
      assert forall i | 0 <= i < |q| :: q[i] == rest[i + 1] == location[|Until(location, STOPS)| + i + 1];
    }
  }

  /** The bytes that net/url refuses, as a set for paths that are resolved and joined. */
  lemma CleanedHasNoControl(p: string)
    requires StartsWithSlash(p) && NoControl(p)
    ensures NoControl(Cleaned(p))
  {
    var bad := set c: char | IsControl(c);
    assert Avoids(p, bad);
    CleanedAvoids(p, bad);
  }

  /** What the location of a redirect that stays asks for. */
  lemma SentIsAsked(p: string, tail: string)
    requires StartsWithSlash(p) && Redirected(p) && (tail == "" || tail[0] == '?')
    requires Parses(p[..|p| - 1] + tail) && !NamesHost(p[..|p| - 1] + tail)
    ensures PathOf(LocationOf(p[..|p| - 1] + tail)) == Asked(p)
  {
    CleanedLocation(p[..|p| - 1], tail);
  }

  lemma LocationHasNoControl(u: string, tail: string)
    requires StartsWithSlash(u) && (tail == "" || tail[0] == '?') && NoControl(u) && NoControl(tail)
    requires Parses(u + tail) && !NamesHost(u + tail)
    ensures NoControl(LocationOf(u + tail))
  {
    var path := Until(u, {'?'});
    CleanedLocation(u, tail);
    UntilOfRooted(u, {'?'});
    JoinedNoControl(u, tail);
    SliceHasNoControl(u, 0, |path|);
    SliceHasNoControl(u + tail, |path|, |u + tail|);
    CleanedHasNoControl(path);
    JoinedNoControl(Cleaned(path), (u + tail)[|path|..]);
  }

  lemma SliceHasNoControl(s: string, i: nat, j: nat)
    requires NoControl(s) && i <= j <= |s|
    ensures NoControl(s[i..j])
  {
  }

  lemma JoinedNoControl(s: string, t: string)
    requires NoControl(s) && NoControl(t)
    ensures NoControl(s + t)
  {
  }

  lemma FollowsTo(a: Ask, url: string, path: string)
    requires Normalize(a.path, a.query) == Redirect(url) && NoControl(url) && !Leaves(url)
    requires Decoded(PathOf(LocationOf(url))) == Some(path)
    ensures Answer(a) == Follow(Requested(PathOf(LocationOf(url)), path, QueryOf(LocationOf(url))))
  {
  }

  /** The first redirect of a plain path that stays, if its location can be parsed. */
  lemma FirstHop(a: Ask) returns (b: Ask)
    requires StartsWithSlash(a.path) && Redirected(a.path) && Plain(a.path) && NoControl(a.query)
    requires Normalize(a.path, a.query).Redirect? && Parses(Normalize(a.path, a.query).location)
    requires !NamesHost(a.path)
    ensures Answer(a) == Follow(b) && b.path == Asked(a.path)
    ensures b.rawPath in {"", Asked(a.path)} && TidyQuery(b.query)
    ensures b.query == QueryOf(LocationOf(Normalize(a.path, a.query).location))
    ensures StartsWithSlash(b.path) && Visit(a) == Visit(b)
  {
    var u, tail := a.path[..|a.path| - 1], if a.query == "" then "" else "?" + a.query;
    RedirectNamesHost(a.path, a.query);
    RedirectShortens(a.path, a.query);
    assert NoControl(u) && NoControl(tail);
    JoinedNoControl(u, tail);
    SentIsAsked(a.path, tail);
    LocationHasNoControl(u, tail);
    QueryIsTidy(LocationOf(u + tail));
    AskedAvoids(a.path, {'%'});
    DecodedWithoutEscapes(Asked(a.path));
    FollowsTo(a, u + tail, Asked(a.path));
    b := Requested(Asked(a.path), Asked(a.path), QueryOf(LocationOf(u + tail)));
    VisitFollows(a, b);
  }

  lemma FirstHopLeaves(a: Ask)
    requires StartsWithSlash(a.path) && Redirected(a.path) && Plain(a.path) && NoControl(a.query)
    requires NamesHost(a.path)
    ensures Normalize(a.path, a.query).Redirect? && Answer(a) == Leave(Normalize(a.path, a.query).location)
  {
    RedirectNamesHost(a.path, a.query);
    RedirectShortens(a.path, a.query);
    assert NoControl(a.path[..|a.path| - 1] + if a.query == "" then "" else "?" + a.query);
  }

  /* ---------- what a plain path asks for ---------- */

  /** A beginning of a canonical path is made of its first elements and a piece of the next. */
  lemma TornCanonical(all: seq<string>, t: string) returns (es: seq<string>, w: string)
    requires forall i | 0 <= i < |all| :: IsElement(all[i])
    requires ".." !in all && StartsWithSlash(t)
    requires var c := Canonical(all) + if all != [] then "/" else ""; |t| <= |c| && t == c[..|t|]
    ensures forall i | 0 <= i < |es| :: IsElement(es[i])
    ensures ".." !in es && Slashless(w) && t == "/" + Join(es + [w])
  {
    var h;
    h, w := AtLastSlash(t);
    if |h| == 1 {
      es := [];
      assert h == "/" && [] + [w] == [w];
    } else {
      es := WholeElements(all, h);
      PieceBehind(es, w);
    }
  }

  lemma PieceBehind(es: seq<string>, w: string)
    requires es != []
    ensures Canonical(es) + "/" + w == "/" + Join(es + [w])
  {
    JoinWithLast(es, w);
    assert "/" + (Join(es) + "/" + w) == Canonical(es) + "/" + w;
  }

  lemma AtLastSlash(t: string) returns (h: string, w: string)
    requires StartsWithSlash(t)
    ensures t == h + w && |h| <= |t| && h == t[..|h|] && EndsWithSlash(h) && Slashless(w)
  {
    var i := LastSlash(t);
    assert t[0] == '/';
    h, w := t[..i + 1], t[i + 1..];
    assert forall j | 0 <= j < |w| :: w[j] == t[i + 1 + j];
  }

  /** A beginning that ends with a slash is made of elements. */
  lemma WholeElements(all: seq<string>, h: string) returns (es: seq<string>)
    requires forall i | 0 <= i < |all| :: IsElement(all[i])
    requires ".." !in all && |h| > 1 && EndsWithSlash(h)
    requires var c := Canonical(all) + if all != [] then "/" else ""; |h| <= |c| && h == c[..|h|]
    ensures forall i | 0 <= i < |es| :: IsElement(es[i])
    ensures ".." !in es && es != [] && h == Canonical(es) + "/"
  {
    PrefixOfCanonical(all, h);
    var k := PrefixOfJoin(all, h[1..]);
    es := all[..k];
    assert h == [h[0]] + h[1..] && h[0] == (Canonical(all) + "/")[0] == '/';
    assert forall e | e in es :: e in all;
  }

  /** A longer prefix of a canonical path continues into its joined elements. */
  lemma PrefixOfCanonical(all: seq<string>, q: string)
    requires |q| > 1 && EndsWithSlash(q)
    requires var c := Canonical(all) + if all != [] then "/" else ""; |q| <= |c| && q == c[..|q|]
    ensures all != [] && EndsWithSlash(q[1..])
    ensures |q| - 1 <= |Join(all)| + 1 && q[1..] == (Join(all) + "/")[..|q| - 1]
  {
    if all != [] {
      var c := Canonical(all) + "/";
      assert c[1..] == Join(all) + "/";
    }
  }

  /** The path asked for is canonical, perhaps with a slash. */
  lemma AskedShape(p: string) returns (es: seq<string>, slash: bool)
    requires StartsWithSlash(p) && Redirected(p)
    ensures (forall i | 0 <= i < |es| :: IsElement(es[i])) && ".." !in es
    ensures slash ==> es != []
    ensures Asked(p) == Canonical(es) + if slash then "/" else ""
  {
    var path := Until(p[..|p| - 1], {'?'});
    UntilOfRooted(p[..|p| - 1], {'?'});
    CleanedIsCanonical(path);
    CleanedIsNoLonger(path);
    SegmentsAreElements(path);
    UntilOfRooted(Cleaned(path), STOPS);
    PrefixOfCleaned(path);
    var front, w := TornCanonical(Segments(path), Until(Cleaned(path), STOPS));
    var kept, last := RemoveDotsBehind(front, w);
    es, slash := CanonicalWithLast(kept, last);
  }

  lemma PrefixOfCleaned(path: string)
    requires StartsWithSlash(path)
    ensures var t := Until(Cleaned(path), STOPS);
      var c := Canonical(Segments(path)) + if Segments(path) != [] then "/" else "";
      |t| <= |c| && t == c[..|t|]
  {
    CleanedIsCanonical(path);
    assert Canonical(Segments(path)) + "" == Canonical(Segments(path));
  }

  lemma CanonicalWithLast(kept: seq<string>, last: string) returns (es: seq<string>, slash: bool)
    requires (forall i | 0 <= i < |kept| :: IsElement(kept[i])) && ".." !in kept
    requires last == "" || (IsElement(last) && last != "..")
    ensures (forall i | 0 <= i < |es| :: IsElement(es[i])) && ".." !in es
    ensures slash ==> es != []
    ensures "/" + Join(kept + [last]) == Canonical(es) + if slash then "/" else ""
  {
    JoinWithLast(kept, last);
    es := if last == "" then kept else kept + [last];
    slash := last == "" && kept != [];
    assert Join(kept) + "/" + "" == Join(kept) + "/";
    assert Canonical(es) + "" == Canonical(es);
  }

  /* ---------- where plain paths lead ---------- */

  /** A plain path without an encoded form is refused only for a ".." in it. */
  lemma PlainRejected(p: string, rawPath: string)
    requires Avoids(p, {'%'}) && rawPath in {"", p}
    ensures Rejected(p, rawPath) <==> Contains(p, "..")
  {
    RejectedIff(p, "");
    forall i ensures !At(p, "%2e", i) && !At(p, "%2E", i) {
      assert 0 <= i <= |p| - 3 ==> p[i] != '%' && p[i..i + 3][0] == p[i];
    }
  }

  lemma VisitUnslashed(a: Ask)
    requires StartsWithSlash(a.path) && !Redirected(a.path) && Plain(a.path) && a.rawPath in {"", a.path}
    ensures Visit(a) == if Contains(a.path, "..") then BadRequest else Page(Canonical(Segments(a.path)))
  {
    RedirectIffTrailingSlash(a.path, a.query);
    PlainRejected(a.path, a.rawPath);
    if !Contains(a.path, "..") { UnslashedPage(a.path, a.rawPath); }
  }

  lemma CanonicalNamesNoHost(es: seq<string>, tail: string)
    requires forall i | 0 <= i < |es| :: IsElement(es[i])
    requires tail == "" || es != []
    ensures !NamesHost(Canonical(es) + tail)
  {
    if es != [] {
      SplitJoin(es);
      assert (Canonical(es) + tail)[1] == Join(es)[0];
    }
  }

  /** Without delimiters and escapes in the path, and with a tidy query, a location can be parsed. */
  lemma ClearParses(u: string, query: string)
    requires Avoids(u, STOPS) && Avoids(u, {'%'}) && Avoids(query, {'#'})
    ensures Parses(u + if query == "" then "" else "?" + query)
  {
    var tail := if query == "" then "" else "?" + query;
    UntilIsUnique(u, u, STOPS);
    UntilAppend(u, tail, STOPS);
    DecodedWithoutEscapes(u);
    assert Avoids(u + tail, {'#'});
    UntilIsUnique(u + tail, u + tail, {'#'});
  }

  /** A path without delimiters asks for its cleaned self without the slash. */
  lemma AskedOfCanonicalWithSlash(es: seq<string>)
    requires es != [] && forall i | 0 <= i < |es| :: IsElement(es[i])
    requires ".." !in es && Avoids(Canonical(es), STOPS)
    ensures Asked(Canonical(es) + "/") == Canonical(es)
    ensures Segments(Canonical(es)) == es && Segments(Canonical(es) + "/") == es
  {
    var u := Canonical(es);
    assert (u + "/")[..|u + "/"| - 1] == u;
    UntilIsUnique(u, u, {'?'});
    CleanedOfCanonical(es);
    UntilIsUnique(u, u, STOPS);
    RemoveDotsOfCanonical(es);
    ElementsOfCanonical(es);
    ResolveWithoutParents(true, es);
    TrailingSlashAddsNothing(u);
  }

  lemma RemoveDotsOfCanonical(es: seq<string>)
    requires es != [] && forall i | 0 <= i < |es| :: IsElement(es[i])
    requires ".." !in es
    ensures RemoveDots(Canonical(es)) == Canonical(es)
  {
    var front, w := es[..|es| - 1], es[|es| - 1];
    assert es == front + [w] && IsElement(w);
    assert forall i | 0 <= i < |front| :: front[i] == es[i];
    var kept, last := RemoveDotsBehind(front, w);
  }

  lemma VisitOfCanonicalWithSlash(es: seq<string>, a: Ask)
    requires es != [] && forall i | 0 <= i < |es| :: IsElement(es[i])
    requires ".." !in es && Avoids(Canonical(es), STOPS) && Plain(Canonical(es))
    requires a.path == Canonical(es) + "/" && TidyQuery(a.query)
    ensures Visit(a) == if Contains(Canonical(es), "..") then BadRequest else Page(Canonical(es))
  {
    CanonicalNamesNoHost(es, "/");
    AskedOfCanonicalWithSlash(es);
    ElementsOfCanonical(es);
    SlashedParses(Canonical(es), a);
    var b := FirstHop(a);
    VisitUnslashed(b);
  }

  lemma SlashedParses(u: string, a: Ask)
    requires a.path == u + "/" && u != "" && Avoids(u, STOPS) && Plain(u) && TidyQuery(a.query)
    ensures Redirected(a.path) && Plain(a.path)
    ensures Normalize(a.path, a.query).Redirect? && Parses(Normalize(a.path, a.query).location)
  {
    assert a.path[..|a.path| - 1] == u;
    RedirectIffTrailingSlash(a.path, a.query);
    RedirectShortens(a.path, a.query);
    ClearParses(u, a.query);
  }

  function Tail(query: string): string {
    if query == "" then "" else "?" + query
  }

  lemma QueryBehind(path: string, query: string)
    requires Avoids(path, STOPS) && Avoids(query, {'#'})
    ensures QueryOf(path + Tail(query)) == query
  {
    var tail := Tail(query);
    UntilIsUnique(path + tail, path, STOPS);
    assert (path + tail)[|path|..] == tail;
    UntilIsUnique(query, query, {'#'});
    assert query != "" ==> tail[1..] == query;
  }

  lemma ClearLocation(u: string, tail: string)
    requires StartsWithSlash(u) && Avoids(u, STOPS) && (tail == "" || tail[0] == '?')
    requires Parses(u + tail) && !NamesHost(u + tail)
    ensures LocationOf(u + tail) == Cleaned(u) + tail && Avoids(Cleaned(u), STOPS)
  {
    UntilIsUnique(u, u, {'?'});
    CleanedLocation(u, tail);
    assert (u + tail)[|u|..] == tail;
    CleanedAvoids(u, STOPS);
  }

  lemma QueryOfLocation(u: string, query: string)
    requires StartsWithSlash(u) && Avoids(u, STOPS) && Avoids(query, {'#'})
    requires Parses(u + Tail(query)) && !NamesHost(u + Tail(query))
    ensures QueryOf(LocationOf(u + Tail(query))) == query
  {
    ClearLocation(u, Tail(query));
    QueryBehind(Cleaned(u), query);
  }

  /** A path without escapes and delimiters, and a query without hash mark. */
  predicate IsClear(a: Ask) {
    StartsWithSlash(a.path) && Plain(a.path) && Avoids(a.path, STOPS) && TidyQuery(a.query)
  }

  lemma ClearHop(a: Ask) returns (b: Ask)
    requires IsClear(a) && Redirected(a.path) && !NamesHost(a.path)
    ensures Answer(a) == Follow(b) && IsClear(b) && b.query == a.query && |b.path| < |a.path|
  {
    var u := a.path[..|a.path| - 1];
    assert a.path == u + "/";
    RedirectIffTrailingSlash(a.path, a.query);
    SlashedParses(u, a);
    RedirectShortens(a.path, a.query);
    RedirectNamesHost(a.path, a.query);
    b := FirstHop(a);
    QueryOfLocation(u, a.query);
    NextRequestIsShorter(a);
    AskedAvoids(a.path, {'%'});
    AskedHasNoControl(a.path);
  }

  /** Main result on the query: all redirects of a path without escapes and delimiters carry it along unchanged. */
  lemma {:induction false} QueryIsKept(a: Ask)
    requires IsClear(a)
    ensures Last(a).query == a.query
    decreases |a.path|
  {
    RedirectIffTrailingSlash(a.path, a.query);
    if Redirected(a.path) {
      if NamesHost(a.path) {
        FirstHopLeaves(a);
      } else {
        var b := ClearHop(a);
        QueryIsKept(b);
      }
    }
  }

  /** The second request: whatever happens to it is decided by the path asked for. */
  lemma VisitOfAsked(p: string, b: Ask)
    requires StartsWithSlash(p) && Redirected(p) && Plain(p)
    requires b.path == Asked(p) && b.rawPath in {"", Asked(p)} && TidyQuery(b.query)
    ensures StartsWithSlash(Asked(p))
    ensures Visit(b) == if Contains(Asked(p), "..") then BadRequest else Page(Canonical(Segments(Asked(p))))
  {
    AskedAvoids(p, {'%'});
    AskedHasNoControl(p);
    var es, slash := AskedShape(p);
    if slash {
      VisitSlashed(es, b);
    } else {
      assert Canonical(es) + "" == Canonical(es);
      ElementsOfCanonical(es);
      RootHasNoElements();
      VisitUnslashed(b);
    }
  }

  lemma VisitSlashed(es: seq<string>, b: Ask)
    requires es != [] && forall i | 0 <= i < |es| :: IsElement(es[i])
    requires ".." !in es && b.path == Canonical(es) + "/"
    requires Avoids(b.path, STOPS) && Plain(b.path) && TidyQuery(b.query)
    ensures Visit(b) == if Contains(b.path, "..") then BadRequest else Page(Canonical(Segments(b.path)))
  {
    var c := Canonical(es);
    assert forall i | 0 <= i < |c| :: c[i] == b.path[i];
    VisitOfCanonicalWithSlash(es, b);
    AskedOfCanonicalWithSlash(es);
    DotsBeforeSlash(c);
  }

  lemma AskedHasNoControl(p: string)
    requires StartsWithSlash(p) && Redirected(p) && NoControl(p)
    ensures NoControl(Asked(p))
  {
    var bad := set c: char | IsControl(c);
    assert Avoids(p, bad);
    AskedAvoids(p, bad);
  }

  /**
   Main result for paths without escapes: decided by p and the path it asks for. With a trailing slash it leaves the
   server exactly when the path starts with an authority that names a host; otherwise parent segments are resolved,
   and a question or hash mark cuts the path, before anything is refused.
   */
  lemma PlainLanding(a: Ask)
    requires StartsWithSlash(a.path) && Plain(a.path) && NoControl(a.query)
    requires Redirected(a.path) ==> Normalize(a.path, a.query).Redirect? && Parses(Normalize(a.path, a.query).location)
    ensures var p := a.path;
      && (Visit(a).Elsewhere? <==> Redirected(p) && NamesHost(p))
      && (Visit(a).BadRequest? <==>
            if Redirected(p) then !NamesHost(p) && Contains(Asked(p), "..") else Rejected(p, a.rawPath))
      && (Visit(a).Page? ==> Visit(a) == Page(Canonical(Segments(Asked(p)))))
      && !Visit(a).Garbled?
  {
    var p := a.path;
    RedirectIffTrailingSlash(p, a.query);
    if !Redirected(p) {
      if !Rejected(p, a.rawPath) { UnslashedPage(p, a.rawPath); }
    } else if NamesHost(p) {
      FirstHopLeaves(a);
    } else {
      var b := FirstHop(a);
      VisitOfAsked(p, b);
    }
  }

  lemma SegmentsWithoutSlash(p: string)
    requires EndsWithSlash(p)
    ensures Segments(p[..|p| - 1]) == Segments(p)
  {
    assert p == p[..|p| - 1] + "/";
    TrailingSlashAddsNothing(p[..|p| - 1]);
  }

  lemma SegmentsOfCleaned(u: string)
    requires StartsWithSlash(u)
    ensures Segments(Cleaned(u)) == Segments(u)
  {
    CleanedIsCanonical(u);
    SegmentsAreElements(u);
    ResolveWithoutParents(true, Segments(u));
  }

  lemma RemoveDotsOfCleaned(u: string)
    requires StartsWithSlash(u)
    ensures StartsWithSlash(Cleaned(u)) && RemoveDots(Cleaned(u)) == Cleaned(u)
  {
    CleanedIsNoLonger(u);
    CleanedIsCanonical(u);
    SegmentsAreElements(u);
    var es := Segments(u);
    if es == [] {
      assert Canonical(es) + "" == "/";
      var kept, last := RemoveDotsBehind([], "");
      assert [] + [""] == [""];
    } else if EndsWithSlash(u) {
      var kept, last := RemoveDotsBehind(es, "");
      JoinWithLast(es, "");
      assert "/" + (Join(es) + "/" + "") == Canonical(es) + "/";
    } else {
      RemoveDotsOfCanonical(es);
      assert Canonical(es) + "" == Canonical(es);
    }
  }

  lemma ClearPathKeepsSegments(p: string)
    requires StartsWithSlash(p) && Redirected(p) && Avoids(p, STOPS)
    ensures Segments(Asked(p)) == Segments(p)
  {
    var u := p[..|p| - 1];
    UntilIsUnique(u, u, {'?'});
    CleanedAvoids(u, STOPS);
    UntilIsUnique(Cleaned(u), Cleaned(u), STOPS);
    RemoveDotsOfCleaned(u);
    SegmentsOfCleaned(u);
    SegmentsWithoutSlash(p);
  }

  /** Without parent segments, a path with the segments of a clear one is clear. */
  lemma KeptSegmentsMeanClear(p: string, q: string)
    requires ".." !in Elements(p) && Avoids(q, STOPS) && Segments(q) == Segments(p)
    ensures Avoids(p, STOPS)
  {
    SegmentsAvoid(q, STOPS);
    ResolveWithoutParents(true, Elements(p));
    PathAvoidsIffElementsDo(p, STOPS);
  }

  /** Main result, for every request: a page that is reached is the page of the request's own segments exactly when
      its last request has the same ones. */
  lemma OwnPageIff(a: Ask)
    requires StartsWithSlash(a.path)
    ensures Visit(a).Page? ==>
      (Visit(a) == Page(Canonical(Segments(a.path))) <==> Segments(Last(a).path) == Segments(a.path))
  {
    LandingIsDecided(a);
    SegmentsAreElements(a.path);
    SegmentsAreElements(Last(a).path);
    CanonicalIsInjective(Segments(a.path), Segments(Last(a).path));
  }

  /** For redirected paths without escapes and parent segments: exactly when no question or hash mark is in the path. */
  lemma PlainOwnPageIff(a: Ask)
    requires StartsWithSlash(a.path) && Redirected(a.path) && Plain(a.path) && NoControl(a.query)
    requires Normalize(a.path, a.query).Redirect? && Parses(Normalize(a.path, a.query).location)
    requires ".." !in Elements(a.path)
    ensures Visit(a).Page? ==> (Visit(a) == Page(Canonical(Segments(a.path))) <==> Avoids(a.path, STOPS))
  {
    var p := a.path;
    PlainLanding(a);
    if Visit(a).Page? {
      SegmentsAreElements(p);
      SegmentsAreElements(Asked(p));
      CanonicalIsInjective(Segments(p), Segments(Asked(p)));
      if Avoids(p, STOPS) { ClearPathKeepsSegments(p); }
      AskedAvoids(p, {'%'});
      if Segments(Asked(p)) == Segments(p) { KeptSegmentsMeanClear(p, Asked(p)); }
    }
  }

  /** Two leading slashes and a trailing one: the client is sent to the host named between them. */
  lemma RedirectsCanLeave(host: string, rawPath: string)
    requires host != "" && Slashless(host) && '@' !in host && Avoids(host, STOPS) && NoControl(host)
    ensures Visit(Ask("//" + host + "/", rawPath, "")) == Elsewhere("//" + host)
  {
    var u, p := "//" + host, "//" + host + "/";
    assert p[..|p| - 1] == u && p == u + "/" && p[1] == '/';
    RedirectIffTrailingSlash(p, "");
    RedirectShortens(p, "");
    assert u + "" == u;
    NamedHost(host);
  }

  lemma NamedHost(host: string)
    requires host != "" && Slashless(host) && '@' !in host && Avoids(host, STOPS)
    ensures NamesHost("//" + host)
  {
    var u := "//" + host;
    assert u[2..] == host && u[..2] == "//";
    forall i | 0 <= i < |host| ensures host[i] !in {'/', '?', '#'} {
      assert host[i] in host;
    }
    UntilIsUnique(host, host, {'/', '?', '#'});
    assert host[|host| - 1] in host;
  }

  lemma SingleElement(a: string)
    requires IsElement(a) && a != ".."
    ensures Elements("/" + a) == [a] && Segments("/" + a) == [a] && Canonical([a]) == "/" + a
  {
    ElementsOfCanonical([a]);
    ResolveWithoutParents(true, [a]);
  }

  lemma QuestionPath(a: string)
    requires IsElement(a) && Avoids(a, STOPS) && Plain(a)
    ensures var p, u, q := "/" + a + "?/", "/" + a + "?", "/" + a;
      && Redirected(p) && p[..|p| - 1] == u && Plain(p) && Plain(q) && Avoids(q, STOPS) && !NamesHost(p)
      && Until(u, {'?'}) == q && Until(u, STOPS) == q && Until(u, {'#'}) == u
  {
    var p, u, q := "/" + a + "?/", "/" + a + "?", "/" + a;
    assert a[0] in a && p[1] == a[0] && p[..2][1] == a[0];
    assert u[..|q|] == q && u[|q|] == '?';
    UntilIsUnique(u, q, {'?'});
    UntilIsUnique(u, q, STOPS);
    UntilIsUnique(u, u, {'#'});
  }

  lemma QuestionAsks(a: string)
    requires IsElement(a) && a != ".." && Avoids(a, STOPS) && Plain(a)
    ensures Asked("/" + a + "?/") == "/" + a
  {
    QuestionPath(a);
    SingleElement(a);
    CleanedOfCanonical([a]);
    UntilIsUnique("/" + a, "/" + a, STOPS);
    RemoveDotsOfCanonical([a]);
  }

  lemma QuestionParses(a: string)
    requires IsElement(a) && Avoids(a, STOPS) && Plain(a)
    ensures Normalize("/" + a + "?/", "") == Redirect("/" + a + "?") && Parses("/" + a + "?")
  {
    var p := "/" + a + "?/";
    QuestionPath(a);
    RedirectIffTrailingSlash(p, "");
    RedirectShortens(p, "");
    assert "/" + a + "?" + "" == "/" + a + "?";
    DecodedWithoutEscapes("/" + a);
  }

  lemma QuestionSegments(a: string)
    requires IsElement(a)
    ensures Canonical(Segments("/" + a + "?/")) == "/" + (a + "?")
  {
    var u := "/" + (a + "?");
    assert "/" + a + "?/" == u + "/";
    assert (a + "?")[|a|] == '?' && |a + "?"| >= 2;
    SingleElement(a + "?");
    TrailingSlashAddsNothing(u);
  }

  /** A question mark in the decoded path is read as the start of the query, so `/a?/` leads to the page of `/a`. */
  lemma QuestionMarksCutThePath(a: string, rawPath: string)
    requires IsElement(a) && Plain(a) && a != ".." && Avoids(a, STOPS) && !Contains("/" + a, "..")
    ensures Visit(Ask("/" + a + "?/", rawPath, "")) == Page("/" + a)
    ensures Canonical(Segments("/" + a + "?/")) == "/" + (a + "?")
  {
    QuestionPath(a);
    QuestionAsks(a);
    QuestionParses(a);
    PlainLanding(Ask("/" + a + "?/", rawPath, ""));
    SingleElement(a);
    QuestionSegments(a);
  }

  lemma HashAsks(a: string)
    requires IsElement(a) && a != ".." && Avoids(a, STOPS)
    ensures Asked("/" + a + "/..#/") == "/"
  {
    HashPath(a);
    var u, t := Canonical([a] + ["..#"]), "/" + Join([a] + [".."]);
    UntilIsUnique(u, u, {'?'});
    HashElement();
    CleanedOfCanonical([a] + ["..#"]);
    UntilIsUnique(u, t, STOPS);
    NothingIsLeft(a);
  }

  /** A path cut to a parent segment: the client resolves it before it asks, so `/a/..#/` leads to the root. */
  lemma DotsAreResolvedByTheClient(a: string, rawPath: string)
    requires IsElement(a) && a != ".." && Avoids(a, STOPS)
    ensures Asked("/" + a + "/..#/") == "/"
    ensures Plain(a) ==> Visit(Ask("/" + a + "/..#/", rawPath, "")) == Page("/")
  {
    HashAsks(a);
    if Plain(a) {
      HashParses(a);
      PlainLanding(Ask("/" + a + "/..#/", rawPath, ""));
      RootHasNoElements();
    }
  }

  lemma HashParses(a: string)
    requires IsElement(a) && Avoids(a, STOPS) && Plain(a)
    ensures var p := "/" + a + "/..#/";
      Plain(p) && !NamesHost(p) && Normalize(p, "").Redirect? && Parses(Normalize(p, "").location)
  {
    HashPath(a);
    HashPlain(a);
    var p, t := "/" + a + "/..#/", "/" + Join([a] + [".."]);
    RedirectIffTrailingSlash(p, "");
    RedirectShortens(p, "");
    assert t + "#" + "" == t + "#";
    EmptyFragmentParses(t);
  }

  lemma HashPlain(a: string)
    requires IsElement(a) && Plain(a)
    ensures Plain("/" + a + "/..#/") && Plain("/" + Join([a] + [".."])) && !NamesHost("/" + a + "/..#/")
  {
    assert a[0] in a && ("/" + a + "/..#/")[..2][1] == a[0];
    JoinWithLast([a], "..");
    assert Join([a]) == a;
    PlainAppend("/", a);
    PlainAppend("/" + a, "/..#/");
    PlainAppend("/" + a, "/..");
    assert "/" + a + "/.." == "/" + Join([a] + [".."]);
  }

  lemma PlainAppend(s: string, t: string)
    requires Plain(s) && Plain(t)
    ensures Plain(s + t)
  {
    JoinedNoControl(s, t);
  }

  lemma EmptyFragmentParses(t: string)
    requires Avoids(t, STOPS) && Avoids(t, {'%'})
    ensures Parses(t + "#")
  {
    UntilIsUnique(t + "#", t, STOPS);
    UntilIsUnique(t + "#", t, {'#'});
    DecodedWithoutEscapes(t);
  }

  lemma NothingIsLeft(a: string)
    requires IsElement(a) && a != ".."
    ensures RemoveDots("/" + Join([a] + [".."])) == "/"
  {
    var kept, last := RemoveDotsBehind([a], "..");
    assert [] + [""] == [""];
  }

  lemma HashPath(a: string)
    requires Avoids(a, STOPS)
    ensures var p, u, t := "/" + a + "/..#/", Canonical([a] + ["..#"]), "/" + Join([a] + [".."]);
      && Redirected(p) && p[..|p| - 1] == u && u == t + "#"
      && Avoids(t, STOPS) && Avoids(u, {'?'}) && |t| < |u| && u[..|t|] == t && u[|t|] == '#'
  {
    JoinWithLast([a], "..#");
    JoinWithLast([a], "..");
    var u, t := Canonical([a] + ["..#"]), "/" + Join([a] + [".."]);
    assert t == "/" + a + "/..";
    assert u == t + "#";
    assert "/" + a + "/..#/" == u + "/";
  }

  lemma HashElement()
    ensures IsElement("..#")
  {
  }
}
