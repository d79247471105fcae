/**
 Archives of src/backup/backup.go: what is packed, sealed, read back and extracted. Compression, the tar format and
 AES-GCM are parameters with the laws they obey (sections 7.1 and 7.2 of NIST SP 800-38D for the last). Extraction
 works on a whole disk, because an entry's name is joined to the target directory and then cleaned.
 */
module BackupArchive {
  import opened Common
  import opened PathText

  datatype Entry = Entry(name: string, content: bytes)

  /** How reading an archive ends: at its end, with an error, or with an error inside the content of an entry. */
  datatype End = Ended | Unreadable | Cut(entry: Entry)

  /** The entries that can be read completely, and what comes then. */
  datatype Reading = Reading(entries: seq<Entry>, end: End)

  datatype Codec = Codec(
    pack: seq<Entry> -> bytes,
    unpack: bytes -> Reading,
    seal: (bytes, bytes, bytes) -> bytes,
    open: (bytes, bytes, bytes) -> Option<bytes>)
  {
    /** Unpacking undoes packing; opening with the same key and nonce undoes sealing. */
    ghost predicate Lawful() {
      && (forall es: seq<Entry> :: unpack(pack(es)) == Reading(es, Ended))
      && (forall k: bytes, n: bytes, p: bytes :: open(k, n, seal(k, n, p)) == Some(p))
    }
  }

  const KEY_SIZE := 32
  const NONCE_SIZE := 12

  /** The nonce stands in front of the sealed bytes. */
  function Encrypted(c: Codec, key: bytes, nonce: bytes, plain: bytes): bytes {
    nonce + c.seal(key, nonce, plain)
  }

  function Decrypted(c: Codec, key: bytes, data: bytes): Option<bytes> {
    if |key| != KEY_SIZE || |data| < NONCE_SIZE then None
    else c.open(key, data[..NONCE_SIZE], data[NONCE_SIZE..])
  }

  /** The framing is undone for keys of the right size: what is decrypted is what was encrypted. */
  lemma DecryptUndoesEncrypt(c: Codec, key: bytes, nonce: bytes, plain: bytes)
    requires c.Lawful() && |nonce| == 12
    ensures Decrypted(c, key, Encrypted(c, key, nonce, plain)) == if |key| == 32 then Some(plain) else None
  {
    var sealed := c.seal(key, nonce, plain);
    assert (nonce + sealed)[..NONCE_SIZE] == nonce && (nonce + sealed)[NONCE_SIZE..] == sealed;
  }

  /** Anything is decrypted only with a key of 32 bytes, behind a nonce of 12, and if it can be opened. */
  lemma DecryptedIff(c: Codec, key: bytes, data: bytes, plain: bytes)
    ensures Decrypted(c, key, data) == Some(plain) <==>
      |key| == 32 && |data| >= 12 && c.open(key, data[..12], data[12..]) == Some(plain)
  {
  }

  ghost predicate IsListing(files: map<string, bytes>, listing: seq<string>) {
    forall i | 0 <= i < |listing| :: listing[i] in files
  }

  /** The archive entries of the listed files. */
  function Entries(files: map<string, bytes>, listing: seq<string>): (es: seq<Entry>)
    requires IsListing(files, listing)
    ensures |es| == |listing| && forall i | 0 <= i < |es| :: es[i] == Entry(listing[i], files[listing[i]])
  {
    seq(|listing|, i requires 0 <= i < |listing| => Entry(listing[i], files[listing[i]]))
  }

  lemma OneMoreVisit(files: map<string, bytes>, listing: seq<string>, i: nat)
    requires IsListing(files, listing) && i < |listing|
    ensures IsListing(files, listing[..i]) && IsListing(files, listing[..i + 1])
    ensures Entries(files, listing[..i + 1]) == Entries(files, listing[..i]) + [Entry(listing[i], files[listing[i]])]
  {
  }

  /** A relative path as filepath.Rel writes it: its elements with single slashes, none of them a parent segment. */
  predicate CleanName(n: string) {
    Elements(n) != [] && ".." !in Elements(n) && n == Join(Elements(n))
  }

  /** filepath.Walk visits every file exactly once. */
  ghost predicate IsWalk(files: map<string, bytes>, listing: seq<string>) {
    && IsListing(files, listing)
    && (forall n | n in files :: n in listing && CleanName(n))
  }

  /**
   A reading that is a beginning of the entries: what is left of an archive whose last bytes were lost, or whose
   last file became shorter while it was read.
   */
  predicate ReadsBeginning(r: Reading, es: seq<Entry>) {
    && r.entries <= es
    && (r.end.Ended? ==> r.entries == es)
    && (r.end.Cut? ==>
          && |r.entries| < |es|
          && r.end.entry.name == es[|r.entries|].name
          && r.end.entry.content <= es[|r.entries|].content)
  }

  /** How the write of a whole file ends: well, without opening it, or after some bytes. */
  datatype WriteFault = Written | Refused | Torn(n: nat)

  /** The bytes a write leaves behind. */
  function Left(data: bytes, fault: WriteFault): bytes {
    if fault.Torn? && fault.n < |data| then data[..fault.n] else data
  }

  /** The files after a write. */
  function AfterWrite<P>(files: map<P, bytes>, path: P, data: bytes, fault: WriteFault): map<P, bytes> {
    if fault.Refused? then files else files[path := Left(data, fault)]
  }

  /* ---------- the disk a backup is restored to ---------- */

  /** An absolute path, as its elements. */
  type Path = seq<string>

  ghost predicate IsPath(p: Path) {
    forall i | 0 <= i < |p| :: IsElement(p[i]) && p[i] != ".."
  }

  /** Regular files and directories. */
  datatype Tree = Tree(files: map<Path, bytes>, dirs: set<Path>)

  /** The directories on the way to a path, below the root. */
  function Ancestors(p: Path): set<Path> {
    set i | 0 < i < |p| :: p[..i]
  }

  /** filepath.Join of the target directory and an entry's name. */
  function Target(dest: Path, name: string): Path {
    Resolve(true, dest + Elements(name))
  }

  /** The file cannot be put there: a regular file stands where a directory is needed, or a directory at its place. */
  predicate Blocked(t: Tree, p: Path) {
    p == [] || p in t.dirs || Ancestors(p) * t.files.Keys != {}
  }

  /** An I/O error at one entry; its file was not created, or its writing broke off. */
  datatype Stop = Stop(entry: nat, how: WriteFault)

  function How(stop: Option<Stop>, entry: nat): WriteFault {
    if stop.Some? && stop.value.entry == entry then stop.value.how else Written
  }

  /** One entry: its directories are made, its file is created or truncated, its bytes are written. */
  function Placed(t: Tree, dest: Path, e: Entry, how: WriteFault): (Tree, bool) {
    var p := Target(dest, e.name);
    if Blocked(t, p) then (t, false)
    else (Tree(AfterWrite(t.files, p, e.content, how), t.dirs + Ancestors(p)), how.Written?)
  }

  /** The disk after extracting entries until one fails, and whether none did. */
  function Extracted(t: Tree, dest: Path, es: seq<Entry>, stop: Option<Stop>): (Tree, bool) {
    if es == [] then (t, true) else
      var n := |es| - 1;
      var (u, ok) := Extracted(t, dest, es[..n], stop);
      if !ok then (u, false) else Placed(u, dest, es[n], How(stop, n))
  }

  /** Copying the content of a cut entry ends with an error at the latest after its bytes. */
  function CutOff(how: WriteFault, content: bytes): WriteFault {
    if how.Written? then Torn(|content|) else how
  }

  /** The disk after extracting all that can be read, and whether that was the whole archive. */
  function ReadBack(t: Tree, dest: Path, r: Reading, stop: Option<Stop>): (Tree, bool) {
    var (u, ok) := Extracted(t, dest, r.entries, stop);
    if !ok then (u, false)
    else match r.end
      case Ended => (u, true)
      case Unreadable => (u, false)
      case Cut(e) => (Placed(u, dest, e, CutOff(How(stop, |r.entries|), e.content)).0, false)
  }

  /** Nothing is extracted after the entry that failed. */
  lemma {:induction false} StopsAt(t: Tree, dest: Path, es: seq<Entry>, stop: Option<Stop>, i: nat)
    requires i <= |es| && !Extracted(t, dest, es[..i], stop).1
    ensures Extracted(t, dest, es, stop) == Extracted(t, dest, es[..i], stop)
    decreases |es|
  {
    if i == |es| {
      assert es[..i] == es;
    } else {
      assert es[..|es| - 1][..i] == es[..i];
      StopsAt(t, dest, es[..|es| - 1], stop, i);
    }
  }

  lemma NextEntry(t: Tree, dest: Path, es: seq<Entry>, stop: Option<Stop>, i: nat)
    requires i < |es| && Extracted(t, dest, es[..i], stop).1
    ensures Extracted(t, dest, es[..i + 1], stop)
         == Placed(Extracted(t, dest, es[..i], stop).0, dest, es[i], How(stop, i))
  {
    assert es[..i + 1][..i] == es[..i];
  }

  /* ---------- where entries go ---------- */

  /** The cleaned name starts with a parent segment. */
  predicate LeadsUp(name: string) {
    var r := Resolve(false, Elements(name));
    r != [] && r[0] == ".."
  }

  /** Joining to a directory may clean the name first. */
  lemma {:induction false} ResolveAgainst(dest: Path, es: seq<string>)
    ensures Resolve(true, dest + es) == Resolve(true, dest + Resolve(false, es))
    decreases |es|
  {
    if es == [] {
      assert dest + es == dest;
    } else {
      var front, last := es[..|es| - 1], es[|es| - 1];
      var r := Resolve(false, front);
      ResolveAgainst(dest, front);
      ResolveAppend(true, dest, es);
      if last == ".." && r != [] && r[|r| - 1] != ".." {
        PopAgainst(dest, r);
      } else {
        ResolveAppend(true, dest, r + [last]);
        assert (r + [last])[..|r|] == r;
      }
    }
  }

  lemma PopAgainst(dest: Path, r: seq<string>)
    requires r != [] && r[|r| - 1] != ".."
    ensures Descend(true, Resolve(true, dest + r), "..") == Resolve(true, dest + r[..|r| - 1])
  {
    ResolveAppend(true, dest, r);
    var below := Resolve(true, dest + r[..|r| - 1]);
    assert (below + [r[|r| - 1]])[..|below|] == below;
  }

  /** A name that does not lead up names a place below the directory. */
  lemma TargetBelow(dest: Path, name: string)
    requires IsPath(dest) && !LeadsUp(name)
    ensures Target(dest, name) == dest + Resolve(false, Elements(name))
  {
    var r := Resolve(false, Elements(name));
    ElementsAreElements(name);
    ResolveKeepsElements(false, Elements(name));
    ResolveAgainst(dest, Elements(name));
    assert ".." !in dest + r by {
      assert forall i | 0 <= i < |dest| :: dest[i] != "..";
    }
    ResolveWithoutParents(true, dest + r);
  }

  /** Parent segments of a cleaned name stand in front. */
  ghost predicate UpsFirst(r: seq<string>) {
    forall i, j | 0 <= i < j < |r| && r[j] == ".." :: r[i] == ".."
  }

  lemma {:induction false} ResolvedUpsFirst(es: seq<string>)
    ensures UpsFirst(Resolve(false, es))
    decreases |es|
  {
    if es != [] { ResolvedUpsFirst(es[..|es| - 1]); }
  }

  /** A parent segment behind one more directory. */
  lemma UpAndAgain(outer: Path, x: string, rest: seq<string>)
    requires x != ".."
    ensures Resolve(true, (outer + [x]) + ([".."] + rest)) == Resolve(true, outer + rest)
  {
    ParentRemovesSegment(true, outer, x, rest);
    assert (outer + [x]) + ([".."] + rest) == outer + [x, ".."] + rest;
  }

  lemma LongerPrefix(a: Path, x: string, p: Path)
    ensures a + [x] <= p ==> a <= p
  {
    if a + [x] <= p { assert a == (a + [x])[..|a|] == p[..|a|]; }
  }

  /** One parent segment followed by none leaves a directory of two like segments. */
  lemma LeavingOnce(rest: seq<string>) returns (dest: Path)
    requires ".." !in rest
    ensures IsPath(dest)
    ensures var p := Resolve(true, dest + ([".."] + rest)); !(dest <= p) && p != []
  {
    var x := if rest != [] && rest[0] == "a" then "b" else "a";
    dest := [x] + [x];
    UpAndAgain([x], x, rest);
    ResolveWithoutParents(true, [x] + rest);
    NotTwice(x, rest);
  }

  lemma NotTwice(x: string, rest: seq<string>)
    requires rest != [] ==> rest[0] != x
    ensures !([x] + [x] <= [x] + rest)
  {
    assert ([x] + [x])[1] == x;
    assert |rest| > 0 ==> ([x] + rest)[1] == rest[0];
  }

  lemma LeavingMore(outer: Path, rest: seq<string>)
    requires IsPath(outer)
    requires var p := Resolve(true, outer + rest); !(outer <= p) && p != []
    ensures var dest := outer + ["a"];
      && IsPath(dest)
      && var p := Resolve(true, dest + ([".."] + rest)); !(dest <= p) && p != []
  {
    UpAndAgain(outer, "a", rest);
    LongerPrefix(outer, "a", Resolve(true, outer + rest));
  }

  /** For a cleaned name that leads up there is a directory which it leaves. */
  lemma {:induction false} LeavingDirectory(r: seq<string>) returns (dest: Path)
    requires r != [] && r[0] == ".." && UpsFirst(r)
    ensures IsPath(dest) && !(dest <= Resolve(true, dest + r)) && Resolve(true, dest + r) != []
    decreases |r|
  {
    var rest := r[1..];
    if rest != [] && rest[0] == ".." {
      var outer := LeavingDirectory(rest);
      LeavingMore(outer, rest);
      dest := outer + ["a"];
    } else {
      assert ".." !in rest by { assert forall i | 0 <= i < |rest| :: rest[i] == r[i + 1]; }
      dest := LeavingOnce(rest);
    }
    assert r == [".."] + rest;
  }

  /** Main result on names: every entry stays below every target directory exactly when no name leads up. */
  lemma EntriesStayBelowIff(es: seq<Entry>)
    ensures (forall dest, i | IsPath(dest) && 0 <= i < |es| :: dest <= Target(dest, es[i].name))
       <==> (forall i | 0 <= i < |es| :: !LeadsUp(es[i].name))
  {
    forall dest, i | IsPath(dest) && 0 <= i < |es| && !LeadsUp(es[i].name) ensures dest <= Target(dest, es[i].name) {
      TargetBelow(dest, es[i].name);
    }
    forall i | 0 <= i < |es| && LeadsUp(es[i].name)
      ensures exists dest :: IsPath(dest) && !(dest <= Target(dest, es[i].name))
    {
      var dest := LeavingTarget(es[i].name);
    }
  }

  lemma LeavingTarget(name: string) returns (dest: Path)
    requires LeadsUp(name)
    ensures IsPath(dest) && !(dest <= Target(dest, name)) && Target(dest, name) != []
  {
    ResolvedUpsFirst(Elements(name));
    dest := LeavingDirectory(Resolve(false, Elements(name)));
    ResolveAgainst(dest, Elements(name));
  }

  /** Extracting this entry creates a file that is not below the target directory. */
  ghost predicate CreatesOutside(t: Tree, dest: Path, e: Entry, p: Path) {
    IsPath(dest) && !(dest <= p) && p !in t.files && p in Extracted(t, dest, [e], None).0.files
  }

  /** Main result on the disk: an entry can create a file outside its target exactly when its name leads up. */
  lemma WritesOutsideIff(e: Entry)
    ensures (exists t, dest, p :: CreatesOutside(t, dest, e, p)) <==> LeadsUp(e.name)
  {
    forall t, dest, p | CreatesOutside(t, dest, e, p) ensures LeadsUp(e.name) {
      OneEntry(t, dest, e, None);
      assert p == Target(dest, e.name);
      if !LeadsUp(e.name) { TargetBelow(dest, e.name); }
    }
    if LeadsUp(e.name) {
      var dest := LeavingTarget(e.name);
      var t := Tree(map[], {});
      OneEntry(t, dest, e, None);
      assert CreatesOutside(t, dest, e, Target(dest, e.name));
    }
  }

  lemma OneEntry(t: Tree, dest: Path, e: Entry, stop: Option<Stop>)
    ensures Extracted(t, dest, [e], stop) == Placed(t, dest, e, How(stop, 0))
  {
    assert [e][..0] == [];
    assert Extracted(t, dest, [], stop) == (t, true);
  }

  /** Two disks have the same file at a path, or both none. */
  ghost predicate SameFile(t: Tree, u: Tree, p: Path) {
    (p in t.files <==> p in u.files) && (p in t.files ==> t.files[p] == u.files[p])
  }

  /** However an extraction ends, files that are no entry's target stay as they were. */
  lemma {:induction false} ExtractionTouchesOnlyItsTargets(t: Tree, dest: Path, es: seq<Entry>, stop: Option<Stop>,
                                                           p: Path)
    requires forall i | 0 <= i < |es| :: Target(dest, es[i].name) != p
    ensures SameFile(t, Extracted(t, dest, es, stop).0, p)
    decreases |es|
  {
    if es != [] { ExtractionTouchesOnlyItsTargets(t, dest, es[..|es| - 1], stop, p); }
  }

  lemma EntryIsConfined(t: Tree, dest: Path, e: Entry, how: WriteFault, p: Path)
    requires IsPath(dest) && !(dest <= p) && !LeadsUp(e.name)
    ensures SameFile(t, Placed(t, dest, e, how).0, p)
  {
    TargetBelow(dest, e.name);
  }

  lemma EntriesAreConfined(t: Tree, dest: Path, es: seq<Entry>, stop: Option<Stop>, p: Path)
    requires IsPath(dest) && !(dest <= p)
    requires forall i | 0 <= i < |es| :: !LeadsUp(es[i].name)
    ensures SameFile(t, Extracted(t, dest, es, stop).0, p)
  {
    forall i | 0 <= i < |es| ensures Target(dest, es[i].name) != p {
      TargetBelow(dest, es[i].name);
    }
    ExtractionTouchesOnlyItsTargets(t, dest, es, stop, p);
  }

  /** No entry becomes the root itself, whatever its name. */
  lemma {:induction false} RootStaysADirectory(t: Tree, dest: Path, es: seq<Entry>, stop: Option<Stop>)
    requires [] !in t.files
    ensures [] !in Extracted(t, dest, es, stop).0.files
    decreases |es|
  {
    if es != [] { RootStaysADirectory(t, dest, es[..|es| - 1], stop); }
  }

  /** Main result: an archive in which no name leads up changes no file outside the target, complete or torn. */
  lemma ArchiveIsConfined(t: Tree, dest: Path, r: Reading, stop: Option<Stop>, p: Path)
    requires IsPath(dest) && !(dest <= p)
    requires forall i | 0 <= i < |r.entries| :: !LeadsUp(r.entries[i].name)
    requires r.end.Cut? ==> !LeadsUp(r.end.entry.name)
    ensures SameFile(t, ReadBack(t, dest, r, stop).0, p)
  {
    EntriesAreConfined(t, dest, r.entries, stop, p);
    if r.end.Cut? {
      var e := r.end.entry;
      EntryIsConfined(Extracted(t, dest, r.entries, stop).0, dest, e, CutOff(How(stop, |r.entries|), e.content), p);
    }
  }

  /* ---------- laying files over a disk ---------- */

  /** The places of relative names below a directory. */
  function Places(dest: Path, names: set<string>): set<Path> {
    set n | n in names :: dest + Elements(n)
  }

  function Listed(listing: seq<string>): set<string> {
    set i | 0 <= i < |listing| :: listing[i]
  }

  lemma CleanNamesHaveOnePlace(dest: Path, n: string)
    requires CleanName(n)
    ensures Join((dest + Elements(n))[|dest|..]) == n
  {
    assert (dest + Elements(n))[|dest|..] == Elements(n);
  }

  lemma NameOfPlace(dest: Path, names: set<string>, p: Path)
    requires p in Places(dest, names) && forall n | n in names :: CleanName(n)
    ensures |dest| <= |p| && Join(p[|dest|..]) in names
  {
    var n :| n in names && p == dest + Elements(n);
    CleanNamesHaveOnePlace(dest, n);
  }

  /** The files of a directory, at their places below another one. */
  ghost function Located(dest: Path, files: map<string, bytes>): (located: map<Path, bytes>)
    requires forall n | n in files :: CleanName(n)
    ensures located.Keys == Places(dest, files.Keys)
    ensures forall n | n in files :: located[dest + Elements(n)] == files[n]
  {
    forall p | p in Places(dest, files.Keys) ensures |dest| <= |p| && Join(p[|dest|..]) in files {
      NameOfPlace(dest, files.Keys, p);
    }
    forall n | n in files ensures Join((dest + Elements(n))[|dest|..]) == n {
      CleanNamesHaveOnePlace(dest, n);
    }
    map p | p in Places(dest, files.Keys) :: files[Join(p[|dest|..])]
  }

  lemma TargetOfCleanName(dest: Path, n: string)
    requires IsPath(dest) && CleanName(n)
    ensures Target(dest, n) == dest + Elements(n) && Target(dest, n) != [] && !LeadsUp(n)
  {
    ResolveWithoutParents(false, Elements(n));
    TargetBelow(dest, n);
  }

  /** The files fit: none needs a directory where a file stands, or stands where a directory is. */
  ghost predicate Compatible(t: Tree, places: set<Path>) {
    forall p | p in places :: p !in t.dirs && forall a | a in Ancestors(p) :: a !in t.files && a !in places
  }

  ghost function AncestorsOf(places: set<Path>): set<Path> {
    set p, a | p in places && a in Ancestors(p) :: a
  }

  /** The result of laying files over a disk. */
  ghost predicate Overlaid(t: Tree, u: Tree, files: map<Path, bytes>, places: set<Path>)
    requires places <= files.Keys
  {
    && u.dirs == t.dirs + AncestorsOf(places)
    && u.files.Keys == t.files.Keys + places
    && forall p | p in u.files :: u.files[p] == if p in places then files[p] else t.files[p]
  }

  lemma FitsIfNotBlocked(t: Tree, u: Tree, files: map<Path, bytes>, places: set<Path>, p: Path)
    requires places <= files.Keys && Overlaid(t, u, files, places) && Compatible(t, places) && p !in Ancestors(p)
    requires !Blocked(u, p)
    ensures Compatible(t, places + {p})
  {
    forall m, a | m in places + {p} && a in Ancestors(m) ensures a !in t.files && a !in places + {p} {
      assert m in places ==> a in AncestorsOf(places);
      assert m == p ==> a !in u.files;
    }
  }

  lemma NotBlockedIfFits(t: Tree, u: Tree, files: map<Path, bytes>, places: set<Path>, p: Path)
    requires places <= files.Keys && Overlaid(t, u, files, places) && Compatible(t, places + {p}) && p != []
    ensures !Blocked(u, p)
  {
    forall m | m in places ensures p !in Ancestors(m) {
      assert m in places + {p};
    }
    assert p in places + {p};
  }

  lemma PlacedOverlays(t: Tree, u: Tree, dest: Path, files: map<Path, bytes>, places: set<Path>, e: Entry)
    requires places <= files.Keys && Target(dest, e.name) in files && files[Target(dest, e.name)] == e.content
    requires Overlaid(t, u, files, places) && !Blocked(u, Target(dest, e.name))
    ensures Overlaid(t, Placed(u, dest, e, Written).0, files, places + {Target(dest, e.name)})
  {
    var p := Target(dest, e.name);
    assert AncestorsOf(places + {p}) == AncestorsOf(places) + Ancestors(p);
  }

  lemma NotItsOwnAncestor(p: Path)
    ensures p !in Ancestors(p)
  {
    forall a | a in Ancestors(p) ensures |a| < |p| {
      var i :| 0 < i < |p| && a == p[..i];
    }
  }

  lemma OneMorePlace(dest: Path, listing: seq<string>)
    requires listing != []
    ensures var front, last := listing[..|listing| - 1], listing[|listing| - 1];
      Places(dest, Listed(listing)) == Places(dest, Listed(front)) + {dest + Elements(last)}
  {
    var front, last := listing[..|listing| - 1], listing[|listing| - 1];
    assert Listed(listing) == Listed(front) + {last} by { assert listing == front + [last]; }
  }

  lemma PlacesAreLocated(dest: Path, files: map<string, bytes>, listing: seq<string>)
    requires forall n | n in files :: CleanName(n)
    requires IsListing(files, listing)
    ensures Places(dest, Listed(listing)) <= Located(dest, files).Keys
  {
  }

  /** The last file of a listing goes onto what the others left. */
  lemma OneMoreFile(files: map<string, bytes>, last: string, dest: Path, t: Tree, u: Tree, places: set<Path>)
    requires IsPath(dest) && last in files && forall n | n in files :: CleanName(n)
    requires places <= Located(dest, files).Keys
    requires Overlaid(t, u, Located(dest, files), places) && Compatible(t, places)
    ensures var (v, ok) := Placed(u, dest, Entry(last, files[last]), Written);
      var more := places + {dest + Elements(last)};
      && (ok <==> Compatible(t, more))
      && (ok ==> Overlaid(t, v, Located(dest, files), more))
  {
    var p := dest + Elements(last);
    TargetOfCleanName(dest, last);
    NotItsOwnAncestor(p);
    if Blocked(u, p) {
      if Compatible(t, places + {p}) { NotBlockedIfFits(t, u, Located(dest, files), places, p); }
    } else {
      FitsIfNotBlocked(t, u, Located(dest, files), places, p);
      PlacedOverlays(t, u, dest, Located(dest, files), places, Entry(last, files[last]));
    }
  }

  /** Extracting the archive of some files succeeds exactly when they fit, and then lays exactly them over the disk. */
  lemma {:induction false} ExtractionOverlays(files: map<string, bytes>, listing: seq<string>, dest: Path, t: Tree)
    requires IsPath(dest) && forall n | n in files :: CleanName(n)
    requires IsListing(files, listing)
    ensures Places(dest, Listed(listing)) <= Located(dest, files).Keys
    ensures var (u, ok) := Extracted(t, dest, Entries(files, listing), None);
      && (ok <==> Compatible(t, Places(dest, Listed(listing))))
      && (ok ==> Overlaid(t, u, Located(dest, files), Places(dest, Listed(listing))))
    decreases |listing|
  {
    PlacesAreLocated(dest, files, listing);
    if listing == [] {
      assert Places(dest, Listed(listing)) == {} && AncestorsOf({}) == {};
    } else {
      var front, last := listing[..|listing| - 1], listing[|listing| - 1];
      ExtractionOverlays(files, front, dest, t);
      OneMoreEntry(files, listing, dest, t);
      OneMorePlace(dest, listing);
      var (u, ok) := Extracted(t, dest, Entries(files, front), None);
      if ok {
        OneMoreFile(files, last, dest, t, u, Places(dest, Listed(front)));
      } else {
        FewerFit(t, Places(dest, Listed(front)), dest + Elements(last));
      }
    }
  }

  lemma FewerFit(t: Tree, places: set<Path>, p: Path)
    ensures Compatible(t, places + {p}) ==> Compatible(t, places)
  {
    assert forall m | m in places :: m in places + {p};
  }

  lemma OneMoreEntry(files: map<string, bytes>, listing: seq<string>, dest: Path, t: Tree)
    requires listing != [] && IsListing(files, listing)
    ensures var front, last := listing[..|listing| - 1], listing[|listing| - 1];
      var (u, ok) := Extracted(t, dest, Entries(files, front), None);
      Extracted(t, dest, Entries(files, listing), None)
        == if ok then Placed(u, dest, Entry(last, files[last]), Written) else (u, false)
  {
    var n := |listing| - 1;
    OneMoreVisit(files, listing, n);
    assert listing[..n + 1] == listing;
    ExtractedOneMore(t, dest, Entries(files, listing[..n]), Entry(listing[n], files[listing[n]]));
  }

  lemma ExtractedOneMore(t: Tree, dest: Path, es: seq<Entry>, e: Entry)
    ensures var (u, ok) := Extracted(t, dest, es, None);
      Extracted(t, dest, es + [e], None) == if ok then Placed(u, dest, e, Written) else (u, false)
  {
    assert (es + [e])[..|es + [e]| - 1] == es;
  }

  lemma OverlaidWithAll(t: Tree, u: Tree, files: map<Path, bytes>)
    requires Overlaid(t, u, files, files.Keys)
    ensures u == Tree(t.files + files, t.dirs + AncestorsOf(files.Keys))
  {
    assert u.files == t.files + files;
  }

  /**
   Main result: extracting what was packed succeeds exactly when the files fit, and then overlays them on the disk,
   making the directories they need and changing nothing else.
   */
  lemma ExtractUndoesArchive(files: map<string, bytes>, listing: seq<string>, dest: Path, t: Tree)
    requires IsPath(dest) && IsWalk(files, listing)
    ensures var (u, ok) := Extracted(t, dest, Entries(files, listing), None);
      && (ok <==> Compatible(t, Places(dest, files.Keys)))
      && (ok ==> u == Tree(t.files + Located(dest, files), t.dirs + AncestorsOf(Places(dest, files.Keys))))
  {
    ExtractionOverlays(files, listing, dest, t);
    assert Listed(listing) == files.Keys;
    var (u, ok) := Extracted(t, dest, Entries(files, listing), None);
    if ok { OverlaidWithAll(t, u, Located(dest, files)); }
  }

  /** Reading on after the complete entries touches at most the file at the tear, which gets the bytes there are. */
  lemma TearTouchesOneFile(t: Tree, dest: Path, r: Reading, p: Path)
    requires !r.end.Ended?
    ensures var (u, ok) := Extracted(t, dest, r.entries, None);
      var (v, whole) := ReadBack(t, dest, r, None);
      && !whole
      && ((r.end.Cut? && p == Target(dest, r.end.entry.name)) || SameFile(u, v, p))
      && (ok && r.end.Cut? && p == Target(dest, r.end.entry.name) && !Blocked(u, p) ==>
            p in v.files && v.files[p] == r.end.entry.content)
  {
  }

  /**
   An I/O error at entry k: the entries before it are extracted, and the file of entry k, if it can be opened at all,
   gets a beginning of its content; no entry after it is looked at.
   */
  lemma InterruptedExtraction(t: Tree, dest: Path, r: Reading, k: nat, how: WriteFault, p: Path)
    requires k < |r.entries| && !how.Written? && Extracted(t, dest, r.entries[..k], None).1
    ensures var u, e := Extracted(t, dest, r.entries[..k], None).0, r.entries[k];
      var (v, ok) := ReadBack(t, dest, r, Some(Stop(k, how)));
      var here := p == Target(dest, e.name) && how.Torn? && !Blocked(u, p);
      && !ok
      && (!here ==> SameFile(u, v, p))
      && (here ==> p in v.files && v.files[p] == if how.n < |e.content| then e.content[..how.n] else e.content)
  {
    var stop := Some(Stop(k, how));
    LaterStopsDoNotMatter(t, dest, r.entries, stop, k);
    NextEntry(t, dest, r.entries, stop, k);
    StopsAt(t, dest, r.entries, stop, k + 1);
  }

  /** Before the entry at which an error is due there is none. */
  lemma {:induction false} LaterStopsDoNotMatter(t: Tree, dest: Path, es: seq<Entry>, stop: Option<Stop>, k: nat)
    requires stop.Some? && k <= stop.value.entry && k <= |es|
    ensures Extracted(t, dest, es[..k], stop) == Extracted(t, dest, es[..k], None)
    decreases k
  {
    if k > 0 {
      LaterStopsDoNotMatter(t, dest, es, stop, k - 1);
      assert es[..k][..k - 1] == es[..k - 1];
    }
  }

  /** A torn archive: when they fit, the files before the tear are laid over the disk. */
  lemma TornArchiveRestoresABeginning(files: map<string, bytes>, listing: seq<string>, r: Reading, dest: Path, t: Tree)
    requires IsPath(dest) && IsWalk(files, listing)
    requires ReadsBeginning(r, Entries(files, listing))
    ensures var places := Places(dest, Listed(listing[..|r.entries|]));
      && places <= Located(dest, files).Keys
      && var (u, ok) := Extracted(t, dest, r.entries, None);
         && (ok <==> Compatible(t, places))
         && (ok ==> Overlaid(t, u, Located(dest, files), places))
  {
    assert r.entries == Entries(files, listing[..|r.entries|]);
    ExtractionOverlays(files, listing[..|r.entries|], dest, t);
  }
}
