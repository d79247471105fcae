/**
 The PID file protocol of src/pid: decimal printing and parsing, the check, the guarded write, and runs of
 server processes that start, exit, crash and reuse process identifiers.
 */
module Pid {
  import opened Common

  /* ---------- strconv and strings ---------- */

  predicate IsDigit(c: char) { '0' <= c <= '9' }

  /** strconv.Itoa for a non-negative number. */
  function Itoa(n: nat): (s: string)
    ensures s != ""
  {
    if n < 10 then [Digit(n)] else Itoa(n / 10) + [Digit(n % 10)]
  }

  /** The value of a string of decimal digits. */
  function Digits(s: string): Option<nat> {
    if s == "" then None
    else
      var c := s[|s| - 1];
      if !IsDigit(c) then None
      else if |s| == 1 then Some((c - '0') as nat)
      else match Digits(s[..|s| - 1])
        case None => None
        case Some(n) => Some(10 * n + (c - '0') as nat)
  }

  const MAX_INT := 0x7FFF_FFFF_FFFF_FFFF

  /** strconv.Atoi: an optional sign, digits, and a 64-bit range. */
  function Atoi(s: string): Option<int> {
    var negative := s != "" && s[0] == '-';
    var body := if s != "" && (s[0] == '-' || s[0] == '+') then s[1..] else s;
    match Digits(body)
    case None => None
    case Some(n) =>
      var sign: int := if negative then -1 else 1;
      var value := sign * n;
      if -MAX_INT - 1 <= value <= MAX_INT then Some(value) else None
  }

  predicate IsSpace(c: char) {
    c in {' ', '\t', '\n', '\U{000B}', '\U{000C}', '\r', '\U{0085}', '\U{00A0}', '\U{1680}', '\U{2028}', '\U{2029}',
          '\U{202F}', '\U{205F}', '\U{3000}'} || '\U{2000}' <= c <= '\U{200A}'
  }

  function TrimSpace(s: string): string {
    if s != "" && IsSpace(s[0]) then TrimSpace(s[1..])
    else if s != "" && IsSpace(s[|s| - 1]) then TrimSpace(s[..|s| - 1])
    else s
  }

  function Parse(content: string): Option<int> {
    Atoi(TrimSpace(content))
  }

  lemma {:induction false} ItoaIsDigits(n: nat)
    ensures forall i | 0 <= i < |Itoa(n)| :: IsDigit(Itoa(n)[i])
    ensures Digits(Itoa(n)) == Some(n)
  {
    if n >= 10 {
      ItoaIsDigits(n / 10);
      var s := Itoa(n);
      assert s[..|s| - 1] == Itoa(n / 10);
      assert n == 10 * (n / 10) + n % 10;
    }
  }

  ghost predicate AllSpace(s: string) {
    forall i | 0 <= i < |s| :: IsSpace(s[i])
  }

  /** Surrounding white space disappears around a word that starts and ends with none. */
  lemma {:induction false} TrimAround(pre: string, word: string, post: string)
    requires AllSpace(pre) && AllSpace(post)
    requires word != "" && !IsSpace(word[0]) && !IsSpace(word[|word| - 1])
    ensures TrimSpace(pre + word + post) == word
    decreases |pre| + |post|
  {
    var s := pre + word + post;
    if pre != "" {
      assert s[1..] == pre[1..] + word + post;
      TrimAround(pre[1..], word, post);
    } else if post != "" {
      assert s[0] == word[0];
      assert s[..|s| - 1] == pre + word + post[..|post| - 1];
      TrimAround(pre, word, post[..|post| - 1]);
    } else {
      assert s == word;
    }
  }

  /** Main result on the format: the printed identifier is read back, with or without white space around it. */
  lemma {:induction false} PrintThenParse(n: nat, pre: string, post: string)
    requires AllSpace(pre) && AllSpace(post)
    ensures Parse(pre + Itoa(n) + post) == if n <= MAX_INT then Some(n) else None
  {
    ItoaIsDigits(n);
    var s := Itoa(n);
    assert IsDigit(s[0]) && IsDigit(s[|s| - 1]);
    TrimAround(pre, s, post);
  }

  function Negated(n: int): int { -n }

  lemma AtoiMinus(s: string)
    requires Digits(s).Some?
    ensures Atoi("-" + s) == if Digits(s).value <= MAX_INT + 1 then Some(Negated(Digits(s).value)) else None
  {
    assert ("-" + s)[1..] == s;
  }

  lemma AtoiPlus(s: string)
    requires Digits(s).Some?
    ensures Atoi("+" + s) == if Digits(s).value <= MAX_INT then Some(Digits(s).value) else None
  {
    assert ("+" + s)[1..] == s;
  }

  lemma TrimSigned(n: nat, sign: char, pre: string, post: string)
    requires AllSpace(pre) && AllSpace(post) && sign in {'-', '+'}
    ensures TrimSpace(pre + ([sign] + Itoa(n)) + post) == [sign] + Itoa(n)
  {
    ItoaIsDigits(n);
    var s := Itoa(n);
    assert IsDigit(s[|s| - 1]) && ([sign] + s)[|s|] == s[|s| - 1];
    TrimAround(pre, [sign] + s, post);
  }

  /** A sign in front is read too: a plus means nothing, a minus goes down to the least 64-bit number. */
  lemma SignedThenParse(n: nat, pre: string, post: string)
    requires AllSpace(pre) && AllSpace(post)
    ensures Parse(pre + ("-" + Itoa(n)) + post) == if n <= MAX_INT + 1 then Some(Negated(n)) else None
    ensures Parse(pre + ("+" + Itoa(n)) + post) == if n <= MAX_INT then Some(n) else None
  {
    ItoaIsDigits(n);
    AtoiMinus(Itoa(n));
    AtoiPlus(Itoa(n));
    TrimSigned(n, '-', pre, post);
    TrimSigned(n, '+', pre, post);
  }

  ghost predicate AllDigits(s: string) {
    forall i | 0 <= i < |s| :: IsDigit(s[i])
  }

  lemma {:induction false} DigitsIff(s: string)
    ensures Digits(s).Some? <==> s != "" && AllDigits(s)
    decreases |s|
  {
    if |s| > 1 {
      DigitsIff(s[..|s| - 1]);
      assert AllDigits(s) <==> AllDigits(s[..|s| - 1]) && IsDigit(s[|s| - 1]);
    }
  }

  lemma Prepend(c: string, t: string, pre: string, word: string, post: string)
    requires t == pre + word + post
    ensures c + t == (c + pre) + word + post
  {
  }

  lemma Append(c: string, t: string, pre: string, word: string, post: string)
    requires t == pre + word + post
    ensures t + c == pre + word + (post + c)
  {
  }

  lemma {:induction false} TrimSplits(s: string) returns (pre: string, post: string)
    ensures s == pre + TrimSpace(s) + post && AllSpace(pre) && AllSpace(post)
    decreases |s|
  {
    if s != "" && IsSpace(s[0]) {
      pre, post := TrimSplits(s[1..]);
      Prepend([s[0]], s[1..], pre, TrimSpace(s), post);
      pre := [s[0]] + pre;
      assert s == [s[0]] + s[1..];
    } else if s != "" && IsSpace(s[|s| - 1]) {
      pre, post := TrimSplits(s[..|s| - 1]);
      Append([s[|s| - 1]], s[..|s| - 1], pre, TrimSpace(s), post);
      post := post + [s[|s| - 1]];
      assert s == s[..|s| - 1] + [s[|s| - 1]];
    } else {
      pre, post := "", "";
    }
  }

  /** A file reads as a number only if it is one: digits with at most a sign before them and white space around. */
  ghost predicate IsNumber(s: string, pre: string, sign: string, body: string, post: string) {
    && s == pre + (sign + body) + post && AllSpace(pre) && AllSpace(post)
    && sign in {"", "-", "+"} && body != "" && AllDigits(body)
  }

  lemma OnlyNumbersParse(s: string)
    requires Parse(s).Some?
    ensures exists pre, sign, body, post :: IsNumber(s, pre, sign, body, post)
  {
    var pre, post := TrimSplits(s);
    var word := TrimSpace(s);
    var k := if word != "" && (word[0] == '-' || word[0] == '+') then 1 else 0;
    DigitsIff(word[k..]);
    assert word == word[..k] + word[k..];
    assert k == 1 ==> word[..1] == [word[0]];
    assert IsNumber(s, pre, word[..k], word[k..], post);
  }

  /* ---------- the file ---------- */

  /** A live process: `ours` when its executable is named casspeed, `serving` once it got past WritePIDFile. */
  datatype Process = Process(ours: bool, serving: bool)

  type Table = map<int, Process>

  /** The file names a live process with our name. */
  predicate Names(file: Option<string>, procs: Table, p: int) {
    file.Some? && Parse(file.value) == Some(p) && p in procs && procs[p].ours
  }

  class PidFile {
    var content: Option<string>

    constructor (content: Option<string>)
      ensures this.content == content
    {
      this.content := content;
    }

    /** CheckPIDFile; `unreadable` is a read error other than a missing file. */
    method CheckPIDFile(procs: Table, unreadable: bool) returns (running: bool, pid: int, err: bool)
      modifies this
      ensures err <==> unreadable && old(content).Some?
      ensures err ==> !running && content == old(content)
      ensures !err ==>
        && (running <==> exists p :: Names(old(content), procs, p))
        && (running ==> Names(old(content), procs, pid) && content == old(content))
        && (!running ==> content == None)
    {
      if content.None? { return false, 0, false; }
      if unreadable { return false, 0, true; }
      var parsed := Parse(content.value);
      if parsed.None? {
        content := None;
        return false, 0, false;
      }
      if parsed.value !in procs {
        content := None;
        return false, 0, false;
      }
      if !procs[parsed.value].ours {
        content := None;
        return false, 0, false;
      }
      assert Names(content, procs, parsed.value);
      return true, parsed.value, false;
    }

    /** WritePIDFile by process `self`; a failing write leaves the first `torn` characters behind. */
    method WritePIDFile(self: nat, procs: Table, unreadable: bool, torn: Option<nat>) returns (ok: bool)
      modifies this
      ensures (content, ok) == Written(old(content), self, procs, unreadable, torn)
    {
      var running, existing, err := CheckPIDFile(procs, unreadable);
      if err { return false; }
      if running { return false; }
      if torn.Some? {
        var text := Itoa(self);
        content := Some(if torn.value < |text| then text[..torn.value] else text);
        return false;
      }
      content := Some(Itoa(self));
      return true;
    }

    method RemovePIDFile() returns (ok: bool)
      modifies this
      ensures ok == old(content).Some? && content == None
    {
      ok := content.Some?;
      content := None;
    }
  }

  ghost function Written(file: Option<string>, self: nat, procs: Table, unreadable: bool, torn: Option<nat>)
    : (Option<string>, bool)
  {
    var text := Itoa(self);
    if unreadable && file.Some? then (file, false)
    else if exists p :: Names(file, procs, p) then (file, false)
    else match torn
      case Some(n) => (Some(if n < |text| then text[..n] else text), false)
      case None => (Some(text), true)
  }

  /* ---------- runs ---------- */

  datatype State = State(file: Option<string>, procs: Table)

  datatype Event =
    | EStart(pid: nat, unreadable: bool, torn: Option<nat>)
    | EOther(pid: nat, ours: bool)
    | EDie(pid: nat)
    | EExit(pid: nat)

  /**
   EStart: a server process appears and runs WritePIDFile in one step; a refused one exits and leaves the file alone.
   EOther: some other process appears, possibly under our name. EDie: a process ends without cleaning up.
   EExit: a server ends and removes the file. Events that are not possible leave the state alone.
   */
  ghost function Step(s: State, e: Event): State {
    match e
    case EStart(pid, unreadable, torn) =>
      if pid in s.procs || pid > MAX_INT then s
      else
        var (file, ok) := Written(s.file, pid, s.procs[pid := Process(true, false)], unreadable, torn);
        State(file, if ok then s.procs[pid := Process(true, true)] else s.procs)
    case EOther(pid, ours) => if pid in s.procs then s else s.(procs := s.procs[pid := Process(ours, false)])
    case EDie(pid) => s.(procs := s.procs - {pid})
    case EExit(pid) => if pid in s.procs && s.procs[pid].serving then State(None, s.procs - {pid}) else s
  }

  ghost function Run(s: State, es: seq<Event>): State {
    if es == [] then s else Step(Run(s, es[..|es| - 1]), es[|es| - 1])
  }

  /** Every live server is the one the file names. */
  ghost predicate Inv(s: State) {
    forall p | p in s.procs && s.procs[p].serving :: Names(s.file, s.procs, p)
  }

  lemma StepKeepsInv(s: State, e: Event)
    requires Inv(s)
    ensures Inv(Step(s, e))
  {
    if e.EStart? {
      PrintThenParse(e.pid, "", "");
      assert "" + Itoa(e.pid) + "" == Itoa(e.pid);
      forall p | p in s.procs && s.procs[p].serving
        ensures Names(s.file, s.procs[e.pid := Process(true, false)], p) || e.pid == p {
        assert Names(s.file, s.procs, p);
      }
    }
  }

  lemma {:induction false} RunKeepsInv(s: State, es: seq<Event>)
    requires Inv(s)
    ensures Inv(Run(s, es))
    decreases |es|
  {
    if es != [] {
      RunKeepsInv(s, es[..|es| - 1]);
      StepKeepsInv(Run(s, es[..|es| - 1]), es[|es| - 1]);
    }
  }

  /** Main result: from any file and any processes without a server, at most one server is ever alive. */
  lemma AtMostOneServer(s: State, es: seq<Event>, p: int, q: int)
    requires forall x | x in s.procs :: !s.procs[x].serving
    requires var t := Run(s, es); p in t.procs && q in t.procs && t.procs[p].serving && t.procs[q].serving
    ensures p == q
  {
    RunKeepsInv(s, es);
    assert Names(Run(s, es).file, Run(s, es).procs, p) && Names(Run(s, es).file, Run(s, es).procs, q);
  }

  function Least(a: nat, b: nat): nat { if a < b then a else b }

  /**
   Main result: a start succeeds exactly when the file can be read or is missing, names no live process with our name,
   and can be written; it then names the new process. A torn write leaves a beginning, a refusal the file as it was.
   */
  lemma StartOutcome(s: State, pid: nat, unreadable: bool, torn: Option<nat>)
    requires pid !in s.procs && pid <= MAX_INT
    ensures var t, procs := Step(s, EStart(pid, unreadable, torn)), s.procs[pid := Process(true, false)];
      var refused := (unreadable && s.file.Some?) || exists p :: Names(s.file, procs, p);
      && (pid in t.procs <==> !refused && torn.None?)
      && (pid in t.procs ==> t == State(Some(Itoa(pid)), s.procs[pid := Process(true, true)]))
      && (pid !in t.procs ==> t.procs == s.procs)
      && (refused ==> t == s)
      && (!refused && torn.Some? ==> t.file.Some? && t.file.value <= Itoa(pid))
      && (!refused && torn.Some? ==> |t.file.value| == Least(torn.value, |Itoa(pid)|))
  {
  }

  /** A server that ends by itself removes the file; one that crashes leaves it; other processes stay either way. */
  lemma EndOutcome(s: State, pid: nat)
    requires pid in s.procs
    ensures Step(s, EDie(pid)) == State(s.file, s.procs - {pid})
    ensures Step(s, EExit(pid)) == if s.procs[pid].serving then State(None, s.procs - {pid}) else s
  {
  }

  /** After a clean exit any later start finds no file to stop it. */
  lemma RestartAfterExit(s: State, gone: nat, pid: nat)
    requires gone in s.procs && s.procs[gone].serving && pid !in s.procs - {gone} && pid <= MAX_INT
    ensures var t := Step(Step(s, EExit(gone)), EStart(pid, false, None));
      pid in t.procs && t.procs[pid].serving && t.file == Some(Itoa(pid))
  {
  }

  /** Without I/O errors a start is refused exactly when the file names a live process with our name. */
  lemma StartRefusedIffNamed(s: State, pid: nat)
    requires pid !in s.procs && pid <= MAX_INT
    ensures var procs := s.procs[pid := Process(true, false)];
      pid !in Step(s, EStart(pid, false, None)).procs <==> exists p :: Names(s.file, procs, p)
  {
  }

  /** The new process counts itself: with a stale file that happens to hold its own identifier it never starts. */
  lemma StaleOwnIdentifierRefusesStart(s: State, pid: nat)
    requires pid !in s.procs && pid <= MAX_INT && s.file == Some(Itoa(pid))
    ensures Step(s, EStart(pid, false, None)) == s
  {
    PrintThenParse(pid, "", "");
    assert "" + Itoa(pid) + "" == Itoa(pid);
    assert Names(s.file, s.procs[pid := Process(true, false)], pid);
  }

  /** After a crash, a start under any other identifier removes the stale file and succeeds. */
  lemma RestartAfterCrash(s: State, dead: nat, pid: nat)
    requires Inv(s) && dead in s.procs && s.procs[dead].serving && pid !in s.procs && pid != dead && pid <= MAX_INT
    ensures var t := Step(Step(s, EDie(dead)), EStart(pid, false, None));
      pid in t.procs && t.procs[pid].serving && t.file == Some(Itoa(pid))
  {
    assert Names(s.file, s.procs, dead);
  }
}
