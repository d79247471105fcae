/**
 The progress channel of a speed test: the producer goroutine of TestStatus (src/server/handler/speedtest.go),
 which runs RunTest (src/server/service/speedtest.go), the sampler goroutines that RunTest leaves behind, and
 the forwarding loop that writes to the WebSocket.

 An event that is not possible in a state leaves it alone, so every sequence of events is an interleaving.
 */
module ProgressChannel {
  import opened Common

  const CAPACITY := 10

  datatype Figures = Figures(download: real, upload: real, ping: real, jitter: real, loss: real)

  const NOTHING := Figures(0.0, 0.0, 0.0, 0.0, 0.0)

  datatype ProgressUpdate = ProgressUpdate(
    stage: string, progress: real, speed: real, testID: string, shareCode: string, figures: Figures)

  datatype Origin = Producer | Sampler(stage: string)

  datatype Message = Message(from: Origin, update: ProgressUpdate)

  /** The stored speed test, as far as the figures go. */
  datatype Row = Row(id: string, shareCode: string, figures: Figures)

  /** What the stages measure and what the generators draw in this test. */
  datatype Measured = Measured(figures: Figures, testID: string, shareCode: string)

  /** `received` messages of `sent` have left the buffer; `holding` one of them is being written. */
  datatype State = State(
    pc: nat, result: Figures, row: Option<Row>, samplers: set<string>,
    sent: seq<Message>, closed: bool, crashed: bool,
    received: nat, holding: bool, reading: bool, forwarded: seq<ProgressUpdate>)

  const DONE := 15

  const INIT := State(0, NOTHING, None, {}, [], false, false, 0, false, true, [])

  function Update(stage: string, progress: real, speed: real): ProgressUpdate {
    ProgressUpdate(stage, progress, speed, "", "", NOTHING)
  }

  /** The message the producer sends at this program point, if it is a send. */
  function Outgoing(m: Measured, s: State): Option<ProgressUpdate> {
    match s.pc
    case 0 => Some(Update("ping", 0.0, 0.0))
    case 2 => Some(Update("ping", 1.0, s.result.ping))
    case 3 => Some(Update("download", 0.0, 0.0))
    case 6 => Some(Update("download", 1.0, s.result.download))
    case 7 => Some(Update("upload", 0.0, 0.0))
    case 10 => Some(Update("upload", 1.0, s.result.upload))
    case 11 => Some(Update("complete", 1.0, 0.0))
    case 13 => Some(ProgressUpdate("complete", 1.0, 0.0, m.testID, m.shareCode, s.result))
    case _ => None
  }

  /** The producer's steps that are no sends; `stored` tells whether the insert succeeds. */
  function Compute(m: Measured, s: State, stored: bool): State {
    var f := m.figures;
    var next := s.(pc := s.pc + 1);
    match s.pc
    case 1 => next.(result := s.result.(ping := f.ping, jitter := f.jitter, loss := f.loss))
    case 4 => next.(samplers := s.samplers + {"download"})
    case 5 => next.(result := s.result.(download := f.download))
    case 8 => next.(samplers := s.samplers + {"upload"})
    case 9 => next.(result := s.result.(upload := f.upload))
    case 12 => if stored then next.(row := Some(Row(m.testID, m.shareCode, s.result))) else next
    case 14 => next.(closed := true)
    case _ => s
  }

  datatype Event =
    | Produce(stored: bool)
    | Sample(stage: string, progress: real, speed: real)
    | Receive
    | Write(ok: bool)

  predicate HasRoom(s: State) {
    |s.sent| - s.received < CAPACITY
  }

  function Step(m: Measured, s: State, e: Event): State {
    if s.crashed then s else
      match e
      case Produce(stored) =>
        (match Outgoing(m, s)
         case Some(u) =>
           if HasRoom(s) then s.(pc := s.pc + 1, sent := s.sent + [Message(Producer, u)]) else s
         case None => Compute(m, s, stored))
      case Sample(stage, progress, speed) =>
        if stage !in s.samplers then s
        else if s.closed then s.(crashed := true)
        else if HasRoom(s) then
          s.(sent := s.sent + [Message(Sampler(stage), Update(stage, progress, speed))])
        else s
      case Receive =>
        if s.reading && !s.holding && s.received < |s.sent|
        then s.(received := s.received + 1, holding := true) else s
      case Write(ok) =>
        if !s.holding || s.received == 0 || s.received > |s.sent| then s
        else if ok then s.(holding := false, forwarded := s.forwarded + [s.sent[s.received - 1].update])
        else s.(holding := false, reading := false)
  }

  function Run(m: Measured, es: seq<Event>): State {
    if es == [] then INIT else Step(m, Run(m, es[..|es| - 1]), es[|es| - 1])
  }

  /* ---------- what the producer is supposed to say ---------- */

  /** The eight messages of the producer, in order. */
  function Script(m: Measured): seq<ProgressUpdate> {
    var f := m.figures;
    [ Update("ping", 0.0, 0.0), Update("ping", 1.0, f.ping),
      Update("download", 0.0, 0.0), Update("download", 1.0, f.download),
      Update("upload", 0.0, 0.0), Update("upload", 1.0, f.upload),
      Update("complete", 1.0, 0.0),
      ProgressUpdate("complete", 1.0, 0.0, m.testID, m.shareCode, f) ]
  }

  /** How many of them are sent before a program point. */
  function Spoken(pc: nat): (n: nat)
    ensures n <= 8
  {
    if pc == 0 then 0 else if pc <= 2 then 1 else if pc == 3 then 2 else if pc <= 6 then 3
    else if pc == 7 then 4 else if pc <= 10 then 5 else if pc == 11 then 6 else if pc <= 13 then 7 else 8
  }

  /** The producer's own messages within a list of messages. */
  function FromProducer(ms: seq<Message>): seq<ProgressUpdate> {
    if ms == [] then [] else
      var last := ms[|ms| - 1];
      FromProducer(ms[..|ms| - 1]) + if last.from.Producer? then [last.update] else []
  }

  function ResultAt(m: Measured, pc: nat): Figures {
    var f := m.figures;
    Figures(if pc >= 6 then f.download else 0.0, if pc >= 10 then f.upload else 0.0,
            if pc >= 2 then f.ping else 0.0, if pc >= 2 then f.jitter else 0.0, if pc >= 2 then f.loss else 0.0)
  }

  ghost predicate ProducerInv(m: Measured, s: State) {
    && s.pc <= DONE
    && s.result == ResultAt(m, s.pc)
    && FromProducer(s.sent) == Script(m)[..Spoken(s.pc)]
    && (s.row.Some? ==> s.pc > 12 && s.row.value == Row(m.testID, m.shareCode, m.figures))
    && (s.closed <==> s.pc == DONE)
  }

  ghost predicate BufferInv(s: State) {
    && s.received <= |s.sent| <= s.received + CAPACITY
    && |s.forwarded| + (if s.holding || !s.reading then 1 else 0) == s.received
    && (s.holding ==> s.reading)
    && forall i | 0 <= i < |s.forwarded| :: s.forwarded[i] == s.sent[i].update
  }

  /** The producer's start message of a stage stands in the first n messages. */
  ghost predicate Announced(ms: seq<Message>, n: nat, stage: string) {
    exists j :: 0 <= j < n && j < |ms| && ms[j] == Message(Producer, Update(stage, 0.0, 0.0))
  }

  ghost predicate SamplerInv(s: State) {
    && (forall stage | stage in s.samplers :: Announced(s.sent, |s.sent|, stage))
    && (s.pc == 4 ==> Announced(s.sent, |s.sent|, "download"))
    && (s.pc == 8 ==> Announced(s.sent, |s.sent|, "upload"))
    && (forall i | 0 <= i < |s.sent| && s.sent[i].from.Sampler? :: Announced(s.sent, i, s.sent[i].from.stage))
  }

  lemma FromProducerAppend(ms: seq<Message>, x: Message)
    ensures FromProducer(ms + [x]) == FromProducer(ms) + if x.from.Producer? then [x.update] else []
  {
    assert (ms + [x])[..|ms + [x]| - 1] == ms;
  }

  /** The message sent at a program point is the next line of the script. */
  lemma OutgoingIsNextLine(m: Measured, s: State)
    requires s.pc <= DONE && s.result == ResultAt(m, s.pc)
    ensures Outgoing(m, s).Some? ==>
      Spoken(s.pc + 1) == Spoken(s.pc) + 1 && Script(m)[Spoken(s.pc)] == Outgoing(m, s).value
    ensures Outgoing(m, s).None? ==> s.pc < DONE ==> Spoken(s.pc + 1) == Spoken(s.pc)
  {
  }

  /** What the producer appends: nothing, or the next line of the script. */
  lemma ProducedShape(m: Measured, s: State, stored: bool)
    requires s.pc <= DONE && s.result == ResultAt(m, s.pc)
    ensures var s' := Step(m, s, Produce(stored));
      || (s'.sent == s.sent && Spoken(s'.pc) == Spoken(s.pc))
      || (Spoken(s'.pc) == Spoken(s.pc) + 1
          && s'.sent == s.sent + [Message(Producer, Script(m)[Spoken(s.pc)])])
  {
    OutgoingIsNextLine(m, s);
    if Outgoing(m, s).None? { ComputeSaysNothing(m, s, stored); }
  }

  lemma ComputeSaysNothing(m: Measured, s: State, stored: bool)
    requires s.pc <= DONE && Outgoing(m, s).None?
    ensures var s' := Compute(m, s, stored); s'.sent == s.sent && Spoken(s'.pc) == Spoken(s.pc)
  {
    ComputeMovesOn(m, s, stored);
  }

  lemma ComputeMovesOn(m: Measured, s: State, stored: bool)
    requires s.pc <= DONE && Outgoing(m, s).None?
    ensures Compute(m, s, stored).sent == s.sent
    ensures Compute(m, s, stored).pc == if s.pc < DONE then s.pc + 1 else s.pc
  {
  }

  /** What all others append: nothing, or a sampler's message. */
  lemma SampledShape(m: Measured, s: State, e: Event)
    requires !e.Produce?
    ensures var s' := Step(m, s, e);
      && s'.pc == s.pc
      && (s'.sent == s.sent
          || (|s'.sent| == |s.sent| + 1
              && s'.sent == s.sent + [s'.sent[|s.sent|]] && s'.sent[|s.sent|].from.Sampler?))
  {
  }

  lemma NextLine(m: Measured, sent: seq<Message>, n: nat)
    requires n < 8 && FromProducer(sent) == Script(m)[..n]
    ensures FromProducer(sent + [Message(Producer, Script(m)[n])]) == Script(m)[..n + 1]
  {
    FromProducerAppend(sent, Message(Producer, Script(m)[n]));
    assert Script(m)[..n] + [Script(m)[n]] == Script(m)[..n + 1];
  }

  lemma StepKeepsScript(m: Measured, s: State, e: Event)
    requires s.pc <= DONE && s.result == ResultAt(m, s.pc)
    requires FromProducer(s.sent) == Script(m)[..Spoken(s.pc)]
    ensures FromProducer(Step(m, s, e).sent) == Script(m)[..Spoken(Step(m, s, e).pc)]
  {
    var sent, n := Step(m, s, e).sent, Spoken(s.pc);
    if e.Produce? {
      ProducedShape(m, s, e.stored);
      if sent != s.sent { NextLine(m, s.sent, n); }
    } else {
      SampledShape(m, s, e);
      if sent != s.sent { FromProducerAppend(s.sent, sent[|s.sent|]); }
    }
  }

  lemma StepKeepsResult(m: Measured, s: State, e: Event)
    requires s.pc <= DONE && s.result == ResultAt(m, s.pc)
    ensures Step(m, s, e).pc <= DONE && Step(m, s, e).result == ResultAt(m, Step(m, s, e).pc)
  {
  }

  lemma StepKeepsRow(m: Measured, s: State, e: Event)
    requires s.pc <= DONE && s.result == ResultAt(m, s.pc) && (s.closed <==> s.pc == DONE)
    requires s.row.Some? ==> s.pc > 12 && s.row.value == Row(m.testID, m.shareCode, m.figures)
    ensures var s' := Step(m, s, e);
      && (s'.closed <==> s'.pc == DONE)
      && (s'.row.Some? ==> s'.pc > 12 && s'.row.value == Row(m.testID, m.shareCode, m.figures))
  {
  }

  lemma StepKeepsProducerInv(m: Measured, s: State, e: Event)
    requires ProducerInv(m, s)
    ensures ProducerInv(m, Step(m, s, e))
  {
    StepKeepsScript(m, s, e);
    StepKeepsResult(m, s, e);
    StepKeepsRow(m, s, e);
  }

  /** The producer and the samplers change nothing that the forwarding loop keeps, and send only into free room. */
  lemma SendersLeaveTheReader(m: Measured, s: State, e: Event)
    requires e.Produce? || e.Sample?
    ensures var s' := Step(m, s, e);
      && s'.received == s.received && s'.holding == s.holding && s'.reading == s.reading
      && s'.forwarded == s.forwarded
      && (s'.sent == s.sent || (HasRoom(s) && |s'.sent| == |s.sent| + 1 && s.sent == s'.sent[..|s.sent|]))
  {
  }

  lemma StepKeepsBufferInv(m: Measured, s: State, e: Event)
    requires BufferInv(s)
    ensures BufferInv(Step(m, s, e))
  {
    if e.Produce? || e.Sample? {
      SendersLeaveTheReader(m, s, e);
      assert forall i | 0 <= i < |s.sent| :: Step(m, s, e).sent[i] == s.sent[i];
    }
  }

  lemma AnnouncedGrows(ms: seq<Message>, x: Message, n: nat, n': nat, stage: string)
    requires Announced(ms, n, stage) && n <= n'
    ensures Announced(ms + [x], n', stage)
  {
    var j :| 0 <= j < n && j < |ms| && ms[j] == Message(Producer, Update(stage, 0.0, 0.0));
    assert (ms + [x])[j] == ms[j];
  }

  /** What a step can do to the messages and the samplers. */
  ghost predicate SamplerStep(s: State, s': State) {
    && (s'.sent == s.sent || (s'.sent != [] && s'.sent == s.sent + [s'.sent[|s'.sent| - 1]]))
    && (|s'.sent| > |s.sent| && s'.sent[|s.sent|].from.Sampler? ==> s'.sent[|s.sent|].from.stage in s.samplers)
    && s'.samplers <= s.samplers + (if s.pc == 4 then {"download"} else if s.pc == 8 then {"upload"} else {})
    && (s'.pc == 4 != s.pc ==>
          |s'.sent| > |s.sent| && s'.sent[|s.sent|] == Message(Producer, Update("download", 0.0, 0.0)))
    && (s'.pc == 8 != s.pc ==>
          |s'.sent| > |s.sent| && s'.sent[|s.sent|] == Message(Producer, Update("upload", 0.0, 0.0)))
  }

  lemma StepIsSamplerStep(m: Measured, s: State, e: Event)
    ensures SamplerStep(s, Step(m, s, e))
  {
    if e.Produce? { ProducerIsSamplerStep(m, s, e.stored); }
  }

  lemma ProducerIsSamplerStep(m: Measured, s: State, stored: bool)
    ensures SamplerStep(s, Step(m, s, Produce(stored)))
  {
    if Outgoing(m, s).None? { ComputeStartsSamplers(m, s, stored); }
  }

  lemma ComputeStartsSamplers(m: Measured, s: State, stored: bool)
    ensures var s' := Compute(m, s, stored);
      && s'.sent == s.sent && s'.pc <= s.pc + 1
      && s'.samplers == s.samplers + (if s.pc == 4 then {"download"} else if s.pc == 8 then {"upload"} else {})
  {
  }

  lemma SamplerStepKeepsInv(s: State, s': State)
    requires SamplerInv(s) && SamplerStep(s, s')
    ensures SamplerInv(s')
  {
    if |s'.sent| > |s.sent| {
      var x := s'.sent[|s.sent|];
      forall stage, n: nat, n': nat | Announced(s.sent, n, stage) && n <= n'
        ensures Announced(s'.sent, n', stage)
      {
        AnnouncedGrows(s.sent, x, n, n', stage);
      }
    }
  }

  lemma StepKeepsSamplerInv(m: Measured, s: State, e: Event)
    requires SamplerInv(s)
    ensures SamplerInv(Step(m, s, e))
  {
    StepIsSamplerStep(m, s, e);
    SamplerStepKeepsInv(s, Step(m, s, e));
  }

  lemma {:induction false} RunKeepsInvariants(m: Measured, es: seq<Event>)
    ensures ProducerInv(m, Run(m, es)) && BufferInv(Run(m, es)) && SamplerInv(Run(m, es))
    decreases |es|
  {
    if es != [] {
      var before, e := es[..|es| - 1], es[|es| - 1];
      RunKeepsInvariants(m, before);
      StepKeepsProducerInv(m, Run(m, before), e);
      StepKeepsBufferInv(m, Run(m, before), e);
      StepKeepsSamplerInv(m, Run(m, before), e);
    }
  }

  /* ---------- main results ---------- */

  /** In every interleaving: FIFO forwarding without loss or reordering, and never more than ten buffered messages. */
  lemma ForwardedIsAPrefixOfSent(m: Measured, es: seq<Event>)
    ensures var s := Run(m, es);
      && |s.sent| - s.received <= CAPACITY
      && |s.forwarded| <= s.received <= |s.forwarded| + 1
      && s.received <= |s.sent|
      && forall i | 0 <= i < |s.forwarded| :: s.forwarded[i] == s.sent[i].update
  {
    RunKeepsInvariants(m, es);
  }

  /** The producer's messages appear exactly in script order, and all of them once the channel is closed. */
  lemma ProducerFollowsTheScript(m: Measured, es: seq<Event>)
    ensures var s := Run(m, es);
      && FromProducer(s.sent) <= Script(m)
      && (s.closed ==> FromProducer(s.sent) == Script(m))
  {
    RunKeepsInvariants(m, es);
    var s := Run(m, es);
    if s.closed { assert Script(m)[..8] == Script(m); }
  }

  /** Once the channel is closed and the forwarding loop has nothing left to do, every message was forwarded. */
  lemma EverythingIsForwarded(m: Measured, es: seq<Event>)
    requires var s := Run(m, es); s.closed && s.reading && !s.crashed
    requires var s := Run(m, es); Step(m, s, Receive) == s && Step(m, s, Write(true)) == s
    ensures var s := Run(m, es);
      |s.forwarded| == |s.sent| && forall i | 0 <= i < |s.sent| :: s.forwarded[i] == s.sent[i].update
  {
    RunKeepsInvariants(m, es);
    var s := Run(m, es);
    assert s.holding ==> !Step(m, s, Write(true)).holding;
    assert !s.holding && s.received < |s.sent| ==> Step(m, s, Receive).holding;
  }

  /** A sampler's message always follows the start message of its stage. */
  lemma SamplesFollowTheirStart(m: Measured, es: seq<Event>, i: nat)
    requires i < |Run(m, es).sent| && Run(m, es).sent[i].from.Sampler?
    ensures Announced(Run(m, es).sent, i, Run(m, es).sent[i].from.stage)
  {
    RunKeepsInvariants(m, es);
  }

  /** The samplers' messages within a list of messages. */
  function FromSamplers(ms: seq<Message>): seq<Message> {
    if ms == [] then [] else
      var last := ms[|ms| - 1];
      FromSamplers(ms[..|ms| - 1]) + if last.from.Sampler? then [last] else []
  }

  /** A started sampler's sample is taken while the channel is open and has room. */
  predicate Accepts(s: State, e: Event) {
    e.Sample? && !s.crashed && !s.closed && e.stage in s.samplers && HasRoom(s)
  }

  /** What the accepted samples of a run say: stage, progress and speed as sampled, and nothing else. */
  function AcceptedSamples(m: Measured, es: seq<Event>): seq<Message> {
    if es == [] then [] else
      var before, e := es[..|es| - 1], es[|es| - 1];
      AcceptedSamples(m, before) +
        if Accepts(Run(m, before), e)
        then [Message(Sampler(e.stage), ProgressUpdate(e.stage, e.progress, e.speed, "", "", NOTHING))]
        else []
  }

  lemma FromSamplersAppend(ms: seq<Message>, x: Message)
    ensures FromSamplers(ms + [x]) == FromSamplers(ms) + if x.from.Sampler? then [x] else []
  {
    assert (ms + [x])[..|ms + [x]| - 1] == ms;
  }

  /** What one step adds to the messages: an accepted sample as it is, or at most one message of the producer. */
  lemma StepSends(m: Measured, s: State, e: Event)
    ensures var sent := Step(m, s, e).sent;
      if Accepts(s, e)
      then sent == s.sent + [Message(Sampler(e.stage), ProgressUpdate(e.stage, e.progress, e.speed, "", "", NOTHING))]
      else sent == s.sent || (|sent| == |s.sent| + 1 && sent == s.sent + [sent[|s.sent|]]
                              && sent[|s.sent|].from.Producer?)
  {
  }

  /** Main result: in every interleaving the samplers' messages are, in order, exactly the accepted samples. */
  lemma {:induction false} SamplesAreSentAsTaken(m: Measured, es: seq<Event>)
    ensures FromSamplers(Run(m, es).sent) == AcceptedSamples(m, es)
    decreases |es|
  {
    if es != [] {
      var before, e := es[..|es| - 1], es[|es| - 1];
      var s, sent := Run(m, before), Run(m, es).sent;
      SamplesAreSentAsTaken(m, before);
      StepSends(m, s, e);
      if sent != s.sent { FromSamplersAppend(s.sent, sent[|s.sent|]); }
    }
  }

  predicate SpeaksOfItsStage(x: Message) {
    x.from.Sampler? ==>
      x.update.stage == x.from.stage && x.update.testID == "" && x.update.shareCode == "" && x.update.figures == NOTHING
  }

  /** So a sampler's message speaks of its own stage and carries no identifiers and no figures. */
  lemma {:induction false} SamplesSpeakOfTheirStage(m: Measured, es: seq<Event>)
    ensures forall i | 0 <= i < |Run(m, es).sent| :: SpeaksOfItsStage(Run(m, es).sent[i])
    decreases |es|
  {
    if es != [] {
      var s, sent := Run(m, es[..|es| - 1]), Run(m, es).sent;
      SamplesSpeakOfTheirStage(m, es[..|es| - 1]);
      StepSends(m, s, es[|es| - 1]);
      forall i | 0 <= i < |sent| ensures SpeaksOfItsStage(sent[i]) {
        if i < |s.sent| { assert sent[i] == s.sent[i]; }
      }
    }
  }

  /** How the insert of the row ended, if the producer got that far. */
  function Insert(m: Measured, es: seq<Event>): Option<bool> {
    if es == [] then None else
      var before, e := es[..|es| - 1], es[|es| - 1];
      var s := Run(m, before);
      if Inserts(s, e) then Some(e.stored) else Insert(m, before)
  }

  /** The producer takes the step that inserts the row. */
  predicate Inserts(s: State, e: Event) {
    e.Produce? && s.pc == 12 && !s.crashed
  }

  lemma StepStores(m: Measured, s: State, e: Event)
    requires s.pc == 12 ==> s.result == m.figures
    ensures var s' := Step(m, s, e);
      && s'.row == (if Inserts(s, e) && e.stored then Some(Row(m.testID, m.shareCode, m.figures)) else s.row)
      && (s'.pc > 12 <==> s.pc > 12 || Inserts(s, e))
  {
    if e.Produce? && Outgoing(m, s).None? { ComputeStores(m, s, e.stored); }
  }

  lemma ComputeStores(m: Measured, s: State, stored: bool)
    requires s.pc == 12 ==> s.result == m.figures
    ensures var s' := Compute(m, s, stored);
      && s'.row == (if s.pc == 12 && stored then Some(Row(m.testID, m.shareCode, m.figures)) else s.row)
      && s.pc <= s'.pc <= s.pc + 1 && (s.pc == 12 ==> s'.pc == 13)
  {
  }

  /** Main result: the row of a test is stored exactly when its one insert succeeded, with everything measured. */
  lemma {:induction false} RowIsStoredIff(m: Measured, es: seq<Event>)
    ensures Run(m, es).row ==
      if Insert(m, es) == Some(true) then Some(Row(m.testID, m.shareCode, m.figures)) else None
    ensures Run(m, es).pc <= 12 <==> Insert(m, es) == None
    decreases |es|
  {
    if es != [] {
      var before, e := es[..|es| - 1], es[|es| - 1];
      RowIsStoredIff(m, before);
      RunKeepsInvariants(m, before);
      StepStores(m, Run(m, before), e);
    }
  }

  /** When a row is stored it carries the figures and identifiers of the producer's final message. */
  lemma FinalMessageMatchesStoredRow(m: Measured, es: seq<Event>)
    requires Run(m, es).row.Some? && Run(m, es).closed
    ensures var s := Run(m, es);
      var final := FromProducer(s.sent);
      && |final| == 8
      && final[7].testID == s.row.value.id
      && final[7].shareCode == s.row.value.shareCode
      && final[7].figures == s.row.value.figures
  {
    RunKeepsInvariants(m, es);
    ProducerFollowsTheScript(m, es);
  }

  /** While the client is being served nothing deadlocks: the producer or the forwarding loop can move. */
  lemma NoDeadlockWhileReading(m: Measured, es: seq<Event>)
    requires var s := Run(m, es); s.reading && !s.crashed && s.pc < DONE
    ensures var s := Run(m, es);
      Step(m, s, Produce(true)) != s || Step(m, s, Receive) != s || Step(m, s, Write(true)) != s
  {
    RunKeepsInvariants(m, es);
    var s := Run(m, es);
    if Outgoing(m, s).None? {
      assert Step(m, s, Produce(true)).pc == s.pc + 1;
    } else if HasRoom(s) {
      assert Step(m, s, Produce(true)).pc == s.pc + 1;
    } else if s.holding {
      assert !Step(m, s, Write(true)).holding;
    } else {
      assert Step(m, s, Receive).holding;
    }
  }

  /** A state no event can leave. */
  ghost predicate Frozen(m: Measured, s: State) {
    forall e: Event :: Step(m, s, e) == s
  }

  /**
   After a failed write the producer keeps going only while the buffer has room: the state is frozen before
   the close exactly when the producer stands at a send and ten messages wait in the buffer.
   */
  lemma ProducerStuckAfterWriteError(m: Measured, es: seq<Event>)
    requires var s := Run(m, es); !s.reading && !s.crashed && s.pc < DONE
    ensures var s := Run(m, es); Frozen(m, s) <==> Outgoing(m, s).Some? && !HasRoom(s)
  {
    RunKeepsInvariants(m, es);
    var s := Run(m, es);
    if Outgoing(m, s).None? || HasRoom(s) {
      ProducerSteps(m, s);
    } else {
      forall e: Event ensures Step(m, s, e) == s { FullBufferStopsAll(m, s, e); }
    }
  }

  lemma ProducerSteps(m: Measured, s: State)
    requires !s.crashed && s.pc < DONE && (Outgoing(m, s).None? || HasRoom(s))
    ensures Step(m, s, Produce(true)) != s
  {
    assert Step(m, s, Produce(true)).pc == s.pc + 1;
  }

  lemma FullBufferStopsAll(m: Measured, s: State, e: Event)
    requires !s.crashed && !s.closed && !s.reading && !s.holding && Outgoing(m, s).Some? && !HasRoom(s)
    ensures Step(m, s, e) == s
  {
  }

  /** The messages in the buffer together with those the producer still has to send. */
  function Load(s: State): int {
    |s.sent| - s.received + 8 - Spoken(s.pc)
  }

  /** Without a reader the load never falls, and only samplers raise it. */
  lemma StepKeepsLoad(m: Measured, s: State, e: Event)
    requires ProducerInv(m, s) && BufferInv(s) && !s.reading
    ensures var s' := Step(m, s, e);
      !s'.reading && Load(s') >= Load(s) && (e.Produce? ==> Load(s') == Load(s))
  {
    if e.Produce? {
      ProducedShape(m, s, e.stored);
      OutgoingIsNextLine(m, s);
    }
  }

  function Repeat(e: Event, n: nat): (es: seq<Event>)
    ensures |es| == n
  {
    if n == 0 then [] else Repeat(e, n - 1) + [e]
  }

  const SAMPLE := Sample("download", 0.5, 0.0)

  lemma RunExtended(m: Measured, es: seq<Event>, more: seq<Event>, e: Event)
    ensures Run(m, es + (more + [e])) == Step(m, Run(m, es + more), e)
  {
    assert (es + (more + [e]))[..|es + (more + [e])| - 1] == es + more;
  }

  lemma OneMoreStepKeepsLoad(m: Measured, es: seq<Event>, e: Event)
    requires !Run(m, es).reading
    ensures !Run(m, es + [e]).reading && Load(Run(m, es + [e])) >= Load(Run(m, es))
  {
    RunKeepsInvariants(m, es);
    StepKeepsLoad(m, Run(m, es), e);
    assert (es + [e])[..|es + [e]| - 1] == es;
  }

  lemma {:induction false} RunKeepsLoad(m: Measured, es: seq<Event>, more: seq<Event>)
    requires !Run(m, es).reading
    ensures !Run(m, es + more).reading && Load(Run(m, es + more)) >= Load(Run(m, es))
    decreases |more|
  {
    if more == [] {
      assert es + more == es;
    } else {
      OneMoreStepKeepsLoad(m, es, more[0]);
      RunKeepsLoad(m, es + [more[0]], more[1..]);
      assert es + [more[0]] + more[1..] == es + more;
    }
  }

  /** While the load fits into the buffer nothing stops the producer. */
  lemma ProducerMoves(m: Measured, s: State)
    requires ProducerInv(m, s) && BufferInv(s) && !s.reading && !s.crashed && s.pc < DONE && Load(s) <= CAPACITY
    ensures var s' := Step(m, s, Produce(true));
      s'.pc == s.pc + 1 && !s'.crashed && !s'.reading && Load(s') == Load(s)
  {
    OutgoingIsNextLine(m, s);
    StepKeepsLoad(m, s, Produce(true));
  }

  /** The producer has not been stopped and everything it may still send fits into the buffer. */
  ghost predicate Unhindered(s: State) {
    !s.reading && !s.crashed && Load(s) <= CAPACITY
  }

  /** After these events nothing hinders the producer, which stands at this program point. */
  ghost predicate StandsAt(m: Measured, es: seq<Event>, pc: nat) {
    Unhindered(Run(m, es)) && Run(m, es).pc == pc
  }

  lemma OneMoreMove(m: Measured, es: seq<Event>, pc: nat)
    requires StandsAt(m, es, pc) && pc < DONE
    ensures StandsAt(m, es + [Produce(true)], pc + 1)
  {
    RunKeepsInvariants(m, es);
    ProducerMoves(m, Run(m, es));
    assert (es + [Produce(true)])[..|es + [Produce(true)]| - 1] == es;
  }

  lemma {:induction false} ProducerFinishes(m: Measured, es: seq<Event>, pc: nat) returns (more: seq<Event>)
    requires StandsAt(m, es, pc) && pc <= DONE
    ensures Run(m, es + more).pc == DONE
    decreases DONE - pc
  {
    if pc == DONE {
      more := [];
      assert es + more == es;
    } else {
      OneMoreMove(m, es, pc);
      var rest := ProducerFinishes(m, es + [Produce(true)], pc + 1);
      more := [Produce(true)] + rest;
      assert es + [Produce(true)] + rest == es + more;
    }
  }

  /**
   Main result: once a write has failed, some continuation still ends the test and closes the channel exactly
   when the buffered messages and the producer's remaining ones together fit into the buffer.
   */
  lemma ProducerCanFinishIff(m: Measured, es: seq<Event>)
    requires var s := Run(m, es); !s.reading && !s.crashed && s.pc < DONE
    ensures (exists more :: Run(m, es + more).closed) <==> Load(Run(m, es)) <= CAPACITY
  {
    var s := Run(m, es);
    forall more | Run(m, es + more).closed ensures Load(s) <= CAPACITY {
      RunKeepsLoad(m, es, more);
      RunKeepsInvariants(m, es + more);
    }
    if Load(s) <= CAPACITY {
      var more := ProducerFinishes(m, es, s.pc);
      RunKeepsInvariants(m, es + more);
    }
  }

  lemma SampleIsSent(m: Measured, s: State)
    requires !s.crashed && !s.closed && "download" in s.samplers && HasRoom(s)
    ensures var t := Step(m, s, SAMPLE); |t.sent| == |s.sent| + 1 && t == s.(sent := t.sent)
  {
  }

  lemma {:induction false} SamplesFill(m: Measured, es: seq<Event>, n: nat)
    requires var s := Run(m, es);
      !s.crashed && !s.closed && "download" in s.samplers && |s.sent| - s.received + n <= CAPACITY
    ensures var s, t := Run(m, es), Run(m, es + Repeat(SAMPLE, n));
      |t.sent| == |s.sent| + n && t == s.(sent := t.sent)
  {
    if n == 0 {
      assert es + [] == es;
    } else {
      SamplesFill(m, es, n - 1);
      RunExtended(m, es, Repeat(SAMPLE, n - 1), SAMPLE);
      SampleIsSent(m, Run(m, es + Repeat(SAMPLE, n - 1)));
    }
  }

  /** The start message of the download was sent, one message was taken, and its write failed. */
  ghost predicate CutOff(s: State) {
    && s.pc == 5 && !s.crashed && !s.closed && !s.reading && !s.holding
    && "download" in s.samplers && |s.sent| == 3 && s.received == 1
  }

  lemma WriteFails(m: Measured, s: State)
    requires Alone(s, 5)
    ensures CutOff(Step(m, Step(m, s, Receive), Write(false)))
  {
    assert Step(m, s, Receive) == s.(received := 1, holding := true);
  }

  lemma CutOffRun(m: Measured) returns (es: seq<Event>)
    ensures CutOff(Run(m, es))
  {
    var start := Repeat(Produce(true), 5);
    RunToEnd(m, 5);
    var a := start + [Receive];
    es := a + [Write(false)];
    assert a[..|a| - 1] == start && es[..|es| - 1] == a;
    WriteFails(m, Run(m, start));
  }

  lemma FullBufferFreezes(m: Measured, s: State)
    requires s.pc == 5 && !s.crashed && !s.closed && !s.reading && !s.holding && !HasRoom(s)
    ensures var t := Step(m, s, Produce(true)); t.pc == 6 && !t.crashed && Frozen(m, t)
  {
  }

  /** A first write that fails during the download stage, eight samples, and the producer blocks for good. */
  lemma StuckStateIsReached(m: Measured)
    ensures exists es :: !Run(m, es).crashed && Run(m, es).pc < DONE && Frozen(m, Run(m, es))
  {
    var cut := CutOffRun(m);
    SamplesFill(m, cut, 8);
    var full := cut + Repeat(SAMPLE, 8);
    FullBufferFreezes(m, Run(m, full));
    var es := full + [Produce(true)];
    assert es[..|es| - 1] == full;
    assert Run(m, es) == Step(m, Run(m, full), Produce(true));
  }

  /** A schedule in which a sampler outlives its stage and sends after the close, which panics. */
  lemma LateSamplerCrashes(m: Measured)
    ensures exists es :: Run(m, es).closed && Run(m, es).crashed
  {
    var es := Repeat(Produce(true), DONE) + [Sample("upload", 1.0, 0.0)];
    RunToEnd(m, DONE);
    assert es[..|es| - 1] == Repeat(Produce(true), DONE);
    assert Run(m, es).closed && Run(m, es).crashed;
  }

  /** The producer alone, up to a program point, while nothing is read. */
  ghost predicate Alone(s: State, n: nat) {
    && s.pc == n && !s.crashed && s.received == 0 && |s.sent| == Spoken(n) && s.reading && !s.holding
    && (n > 4 ==> "download" in s.samplers) && (n > 8 ==> "upload" in s.samplers)
    && (s.closed <==> n == DONE)
  }

  lemma AloneStep(m: Measured, s: State, n: nat)
    requires Alone(s, n) && n < DONE
    ensures Alone(Step(m, s, Produce(true)), n + 1)
  {
  }

  lemma {:induction false} RunToEnd(m: Measured, n: nat)
    requires n <= DONE
    ensures Alone(Run(m, Repeat(Produce(true), n)), n)
  {
    if n > 0 {
      RunToEnd(m, n - 1);
      AloneStep(m, Run(m, Repeat(Produce(true), n - 1)), n - 1);
    }
  }

  /** The samplers that were started by a program point; none is ever joined. */
  ghost predicate SamplersStarted(s: State) {
    s.samplers == (if s.pc > 4 then {"download"} else {}) + (if s.pc > 8 then {"upload"} else {})
  }

  lemma {:induction false} RunStartsSamplers(m: Measured, es: seq<Event>)
    ensures SamplersStarted(Run(m, es)) && (Run(m, es).closed <==> Run(m, es).pc == DONE)
    decreases |es|
  {
    if es != [] {
      RunStartsSamplers(m, es[..|es| - 1]);
      StepStartsSamplers(m, Run(m, es[..|es| - 1]), es[|es| - 1]);
    }
  }

  lemma StepStartsSamplers(m: Measured, s: State, e: Event)
    requires SamplersStarted(s) && (s.closed <==> s.pc == DONE)
    ensures var s' := Step(m, s, e); SamplersStarted(s') && (s'.closed <==> s'.pc == DONE)
  {
  }

  /** A sampler's attempt to send, made after the channel was closed. */
  predicate LateSampleAt(m: Measured, es: seq<Event>, i: nat) {
    i < |es| && es[i].Sample? && es[i].stage in {"download", "upload"} && Run(m, es[..i]).closed
  }

  lemma LateSampleBefore(m: Measured, es: seq<Event>, i: nat)
    requires i < |es| - 1
    ensures LateSampleAt(m, es, i) <==> LateSampleAt(m, es[..|es| - 1], i)
  {
    assert es[..i] == es[..|es| - 1][..i];
  }

  lemma CrashStep(m: Measured, es: seq<Event>)
    requires es != []
    ensures Run(m, es).crashed <==> Run(m, es[..|es| - 1]).crashed || LateSampleAt(m, es, |es| - 1)
  {
    RunStartsSamplers(m, es[..|es| - 1]);
    CrashStepIff(m, Run(m, es[..|es| - 1]), es[|es| - 1]);
  }

  lemma {:induction false} LateSampleLeadsToCrash(m: Measured, es: seq<Event>, i: nat)
    requires LateSampleAt(m, es, i)
    ensures Run(m, es).crashed
    decreases |es|
  {
    if i < |es| - 1 {
      LateSampleBefore(m, es, i);
      LateSampleLeadsToCrash(m, es[..|es| - 1], i);
    }
    CrashStep(m, es);
  }

  lemma {:induction false} CrashHasALateSample(m: Measured, es: seq<Event>) returns (i: nat)
    requires Run(m, es).crashed
    ensures LateSampleAt(m, es, i)
    decreases |es|
  {
    CrashStep(m, es);
    if LateSampleAt(m, es, |es| - 1) {
      i := |es| - 1;
    } else {
      i := CrashHasALateSample(m, es[..|es| - 1]);
      LateSampleBefore(m, es, i);
    }
  }

  /** Main result: a run panics exactly when a sampler tries to send after the close. */
  lemma CrashesIffALateSample(m: Measured, es: seq<Event>)
    ensures Run(m, es).crashed <==> exists i :: LateSampleAt(m, es, i)
  {
    if Run(m, es).crashed { var i := CrashHasALateSample(m, es); }
    if i :| LateSampleAt(m, es, i) { LateSampleLeadsToCrash(m, es, i); }
  }

  lemma CrashStepIff(m: Measured, s: State, e: Event)
    requires SamplersStarted(s) && (s.closed <==> s.pc == DONE)
    ensures Step(m, s, e).crashed <==>
      s.crashed || (e.Sample? && e.stage in {"download", "upload"} && s.closed)
  {
  }
}
