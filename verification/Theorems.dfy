/** What holds of every run of the signing session from power-on. */
module Theorems {
  import opened Common
  import opened ChangeInfo
  import opened Deserialize
  import opened Decoder
  import opened Session
  import opened Confirmation
  import opened Runs
  import opened Screens
  import Bip32

  // ---- Runs ----

  /** The events can happen one after the other, starting from `s`. */
  ghost predicate Admissible(env: Env, s: Session, events: seq<Event>)
    decreases |events|
  {
    events == [] || (Enabled(s, events[0]) && Admissible(env, Step(env, s, events[0]).s, events[1..]))
  }

  function Exec(env: Env, s: Session, events: seq<Event>): Session
    requires Admissible(env, s, events)
    decreases |events|
  {
    if events == [] then s else Exec(env, Step(env, s, events[0]).s, events[1..])
  }

  lemma {:induction false} RunKeeps(env: Env, s: Session, events: seq<Event>)
    requires Inv(env, s) && Admissible(env, s, events)
    ensures Inv(env, Exec(env, s, events))
    decreases |events|
  {
    hide Inv, Step, Enabled;
    if events != [] {
      StepKeeps(env, s, events[0]);
      RunKeeps(env, Step(env, s, events[0]).s, events[1..]);
    }
  }

  /** Some run from power-on leads to this session. */
  ghost predicate Reached(env: Env, s: Session) {
    exists events: seq<Event> :: Admissible(env, Idle(), events) && s == Exec(env, Idle(), events)
  }

  lemma {:induction false} ExecAppend(env: Env, s: Session, events: seq<Event>, e: Event)
    requires Admissible(env, s, events) && Enabled(Exec(env, s, events), e)
    ensures Admissible(env, s, events + [e])
    ensures Exec(env, s, events + [e]) == Step(env, Exec(env, s, events), e).s
    decreases |events|
  {
    hide Step, Enabled;
    if events == [] {
      assert ([] + [e])[1..] == [];
    } else {
      ExecAppend(env, Step(env, s, events[0]).s, events[1..], e);
      assert (events + [e])[1..] == events[1..] + [e];
    }
  }

  lemma ReachedIdle(env: Env)
    ensures Reached(env, Idle())
  {
    hide Step, Enabled, ZeroContext;
    assert Admissible(env, Idle(), []) && Idle() == Exec(env, Idle(), []);
  }

  /** Every event that can happen leads from a reached session to a reached session. */
  lemma ReachedStep(env: Env, s: Session, e: Event)
    requires Reached(env, s) && Enabled(s, e)
    ensures Reached(env, Step(env, s, e).s)
  {
    hide Step, Enabled, ZeroContext, Exec, Admissible;
    var events: seq<Event> :| Admissible(env, Idle(), events) && s == Exec(env, Idle(), events);
    ExecAppend(env, Idle(), events, e);
  }

  /** The invariant holds after every run from power-on. */
  lemma ReachedKeeps(env: Env, s: Session)
    requires Reached(env, s)
    ensures Inv(env, s)
  {
    hide Inv, Exec, Admissible;
    var events: seq<Event> :| Admissible(env, Idle(), events) && s == Exec(env, Idle(), events);
    NothingOpen(env, Idle());
    RunKeeps(env, Idle(), events);
  }

  // ---- Approval ----

  /** The bytes hashed since the first chunk are a header and the transaction it announces. */
  ghost predicate HashesTx(env: Env, s: Session, tx: Tx) {
    var h := s.ctx.hashed;
    |h| >= 5 && |tx.outputs| > 0 && Serializes(env, s.ctx.changes, h[2], h[3], h[4], tx, h[5..])
  }

  /** The outputs of a transaction with their positions. */
  function AllOutputs(outs: seq<SentOutput>, from: nat): (r: seq<TxOutput>)
    ensures |r| == |outs| && forall i :: 0 <= i < |r| ==> r[i] == TxOutput(from + i, outs[i].wire)
  {
    if outs == [] then [] else [TxOutput(from, outs[0].wire)] + AllOutputs(outs[1..], from + 1)
  }

  lemma {:induction false} OutputsOfTx(tx: Tx, from: nat)
    ensures OutputsOf(Elements(tx), from) == AllOutputs(tx.outputs, from)
    decreases |tx.tokens| + |tx.inputs| + |tx.outputs|
  {
    if tx != Tx([], [], []) {
      var (e, rest) := Split(tx);
      assert Elements(tx) == [e] + Elements(rest);
      assert Elements(tx)[1..] == Elements(rest);
      OutputsOfTx(rest, if e.Output? then from + 1 else from);
    }
  }

  lemma FinishedWhenApproved(env: Env, s: Session)
    requires Inv(env, s) && !s.flow.Stopped? && s.ctx.state == StateApproved
    ensures Finished(s) && Stream(env, s) && DigestKept(env, s) && s.log.granted
  {
    hide Drain, PeelOne, SafeCuts, NonChange;
  }

  /** The whole-run approval theorem.  When the user has approved, the bytes hashed are exactly one
      complete valid transaction if and only if no command ended just before an undecoded change
      output whose predecessor is not change. */
  lemma ApprovedExactly(env: Env, s: Session)
    requires Reached(env, s) && s.ctx.state == StateApproved && !s.flow.Stopped?
    ensures SafeCuts(s) <==> exists tx: Tx :: HashesTx(env, s, tx)
  {
    hide Inv, Reached, HashesTx, SafeCuts, Finished, Stream;
    ReachedKeeps(env, s);
    FinishedWhenApproved(env, s);
    ApprovedMeans(env, s);
  }

  /** Whenever the bytes hashed are a transaction, each of its outputs was shown and approved, once
      and in order, or is announced as change; a valid transaction has all of the latter verified. */
  lemma ApprovedOutputs(env: Env, s: Session)
    requires Reached(env, s) && s.ctx.state == StateApproved && !s.flow.Stopped?
    ensures forall tx: Tx :: HashesTx(env, s, tx) ==>
              s.log.approved == NonChange(s.ctx.changes, AllOutputs(tx.outputs, 0))
  {
    hide Inv, Reached, HashesTx, SafeCuts, Finished, Stream, NonChange, AllOutputs;
    ReachedKeeps(env, s);
    FinishedWhenApproved(env, s);
    ApprovedMeans(env, s);
  }

  lemma ApprovedMeans(env: Env, s: Session)
    requires Finished(s) && Stream(env, s)
    ensures SafeCuts(s) <==> exists tx: Tx :: HashesTx(env, s, tx)
    ensures forall tx: Tx :: HashesTx(env, s, tx) ==>
              s.log.approved == NonChange(s.ctx.changes, AllOutputs(tx.outputs, 0))
  {
    hide Drain, SafeCuts, ValidTx, NonChange, AllOutputs;
    var h := s.ctx.hashed;
    if SafeCuts(s) {
      CompleteSession(env, s);
      var tx := CompleteIsTransaction(env, s.ctx.changes, h[2], h[3], h[4], h[5..]);
      assert HashesTx(env, s, tx);
    }
    forall tx: Tx | HashesTx(env, s, tx)
      ensures SafeCuts(s) && s.log.approved == NonChange(s.ctx.changes, AllOutputs(tx.outputs, 0))
    {
      HashedIsDecoded(env, s, tx);
    }
  }

  lemma HashedIsDecoded(env: Env, s: Session, tx: Tx)
    requires Stream(env, s) && HashesTx(env, s, tx)
    ensures s.ctx.p.currentOutput == s.ctx.p.outputsLen && s.log.decoded == AllOutputs(tx.outputs, 0)
  {
    hide Drain, ValidTx, AllOutputs, OutputsOf, Elements, StreamBytes;
    TransactionIsComplete(env, s.ctx.changes, tx);
    OutputsOfTx(tx, 0);
  }

  /** With all outputs decoded, no element is left to decode. */
  lemma CompleteSession(env: Env, s: Session)
    requires Stream(env, s) && s.ctx.p.currentOutput == s.ctx.p.outputsLen > 0
    ensures var h := s.ctx.hashed;
            var d := Drain(env, s.ctx.changes, Start(h[2], h[3], h[4]), h[5..]); d.Ready? && Complete(d.p)
  {
    hide Drain, Fits;
    var h := s.ctx.hashed;
    var p := Start(h[2], h[3], h[4]);
    ReadyMeans(env, s.ctx.changes, p, h[5..]);
    var d := Drain(env, s.ctx.changes, p, h[5..]);
    OutputsLast(env, s.ctx.changes, p, d.es);
  }

  /** Outputs are decoded only when all tokens and inputs have been. */
  lemma {:induction false} OutputsLast(env: Env, changes: seq<Change>, p: Progress, es: seq<Element>)
    requires Legal(env, changes, p, es)
    requires p.currentOutput > 0 ==> p.remainingTokens == p.remainingInputs == 0
    ensures var q := ProgressAfter(p, es);
            q.currentOutput > 0 ==> q.remainingTokens == q.remainingInputs == 0
    decreases |es|
  {
    hide FindToken, CheckChange, Encodable;
    if es != [] {
      FitsAllowed(env, changes, p, es[0]);
      OutputsLast(env, changes, Advance(p, es[0]), es[1..]);
    }
  }

  // ---- Signatures ----

  /** Every signature is made over the double hash of the bytes of an approved session; the model
      stops only at a second use of the hash whose digest looks as if it had not been computed. */
  lemma SignaturesCoverApproval(env: Env, s: Session, cdata: seq<byte>)
    requires Reached(env, s) && Enabled(s, SignCommand(cdata))
    ensures var r := Step(env, s, SignCommand(cdata));
            && (forall path, digest :: Signature(path, digest) in r.replies ==>
                  s.ctx.state == StateApproved && digest == env.sha256d(s.ctx.hashed)
                  && Bip32.PathOf(cdata) == Some(path) && r.s.ctx.hashed == s.ctx.hashed)
            && (r.s.flow == Stopped(HashReused) ==> s.ctx.finalised && Unset(env.sha256d(s.ctx.hashed)))
  {
    hide Inv, Reached, ZeroContext, Bip32.PathOf, SignWithKey, Finished, Stream;
    ReachedKeeps(env, s);
    if s.ctx.state == StateApproved {
      FinishedWhenApproved(env, s);
      if Bip32.PathOf(cdata).Some? {
        KeySigns(env, QueueReset(s), Bip32.PathOf(cdata).value);
      }
    }
  }

  /** One reply: a status, or the signature over the digest of what was hashed. */
  lemma KeySigns(env: Env, s: Session, path: seq<nat>)
    requires DigestKept(env, s) && !s.flow.Stopped?
    ensures var r := SignWithKey(env, s, path);
            && r.s.ctx.hashed == s.ctx.hashed
            && (forall x :: x in r.replies ==> x.Status? || x == Signature(path, env.sha256d(s.ctx.hashed)))
            && (r.s.flow == Stopped(HashReused) ==> s.ctx.finalised && Unset(env.sha256d(s.ctx.hashed)))
  {
  }

  lemma GrantedWhenApproved(env: Env, s: Session)
    requires Reached(env, s) && s.ctx.state == StateApproved && !s.flow.Stopped?
    ensures s.log.granted
  {
    hide Reached, Inv, Finished, Stream;
    ReachedKeeps(env, s);
    FinishedWhenApproved(env, s);
  }

  /** What a signature means: with safe places only, the bytes it covers are one complete valid
      transaction, and the user has approved, in order, its outputs that are not change, and has
      answered the final question with yes. */
  lemma SignatureMeans(env: Env, s: Session, cdata: seq<byte>, path: seq<nat>, digest: seq<byte>)
    requires Reached(env, s) && Enabled(s, SignCommand(cdata)) && SafeCuts(s)
    requires Signature(path, digest) in Step(env, s, SignCommand(cdata)).replies
    ensures exists tx: Tx ::
              && HashesTx(env, s, tx) && digest == env.sha256d(s.ctx.hashed) && s.log.granted
              && s.log.approved == NonChange(s.ctx.changes, AllOutputs(tx.outputs, 0))
  {
    hide Reached, HashesTx, SafeCuts, Step, NonChange, AllOutputs;
    SignaturesCoverApproval(env, s, cdata);
    GrantedWhenApproved(env, s);
    ApprovedExactly(env, s);
    ApprovedOutputs(env, s);
  }

  // ---- One response per command ----

  /** How many choices the user may still be asked for: the rest of the queue and the final
      question, if the command ended at a safe place; otherwise the rest of the output array. */
  function Measure(s: Session): nat {
    if s.flow == ConfirmTx then 1
    else if s.flow != ShowOutput || s.ctx.displayIndex >= OUTPUTS_SIZE then 0
    else if s.ctx.displayIndex < s.ctx.queueLen <= OUTPUTS_SIZE && SafeCut(s.ctx.changes, s.ctx.p.currentOutput)
    then s.ctx.queueLen - s.ctx.displayIndex + 1
    else 12 - s.ctx.displayIndex
  }

  lemma AskingProgress(env: Env, s: Session)
    requires Asking(s) && s.flow == ShowOutput && s.ctx.signing && |s.ctx.changes| <= MAX_CHANGES
    ensures s.ctx.displayIndex < |s.ctx.outputs|
    ensures Pending(ConfirmOutput(env, s, true).s) ==> Measure(ConfirmOutput(env, s, true).s) < Measure(s)
  {
    hide ConfirmOutput, IsChange, NonChange, Agree;
    ShowingBounds(s);
    ApproveAgrees(s);
    var t, r := Approve(s), ConfirmOutput(env, s, true);
    AgreeCounts(t);
    AgreeCounts(s);
    if SkipsAhead(s) {
      AgreeIsPast(t);
      ConfirmPast(env, s);
      assert !SafeCut(s.ctx.changes, s.ctx.p.currentOutput);
      PastProgress(s, t, r);
    } else {
      ConfirmAgrees(env, s);
      if t.ctx.displayIndex < t.ctx.queueLen {
        DisplayedProgress(s, t, r);
      }
    }
  }

  lemma DisplayedProgress(s: Session, t: Session, r: Result)
    requires Displayed(t, r) && SameCore(s, t) && s.flow == ShowOutput
    requires t.ctx.queueLen == s.ctx.queueLen <= OUTPUTS_SIZE
    requires t.ctx.displayIndex == s.ctx.displayIndex + 1 < s.ctx.queueLen
    ensures Pending(r.s) ==> Measure(r.s) < Measure(s)
  {
    hide IsChange, NonChange;
  }

  lemma PastProgress(s: Session, t: Session, r: Result)
    requires DisplayedPast(t, r) && SameCore(s, t) && s.flow == ShowOutput && s.ctx.displayIndex < 10
    requires t.ctx.displayIndex == s.ctx.displayIndex + 1
    requires s.ctx.displayIndex >= s.ctx.queueLen || !SafeCut(s.ctx.changes, s.ctx.p.currentOutput)
    ensures Pending(r.s) ==> Measure(r.s) < Measure(s)
  {
    hide IsChange;
  }

  lemma PastAsks(env: Env, s: Session)
    requires AskingPast(s) && s.flow == ShowOutput && s.ctx.signing
    ensures s.ctx.displayIndex < |s.ctx.outputs|
    ensures Pending(ConfirmOutput(env, s, true).s) ==> Measure(ConfirmOutput(env, s, true).s) < Measure(s)
  {
    hide ConfirmOutput, IsChange, SafeCuts;
    PastNext(s.(log := s.log.(approved := s.log.approved + [Shown(s)])), 9);
    SameCoreApprove(s);
    ConfirmPast(env, s);
    PastProgress(s, Approve(s), ConfirmOutput(env, s, true));
  }

  lemma ChoiceProgress(env: Env, s: Session, yes: bool)
    requires Inv(env, s) && Pending(s)
    ensures Enabled(s, UserChoice(yes))
    ensures var r := Step(env, s, UserChoice(yes)); Pending(r.s) ==> Measure(r.s) < Measure(s)
  {
    hide Inv, ConfirmOutput, Measure, Asking, AskingPast;
    if s.flow == ShowOutput {
      AskingOrPast(env, s);
      if !yes {
        DenyIs(env, s);
      } else if Asking(s) {
        AskingProgress(env, s);
      } else {
        PastAsks(env, s);
      }
    }
  }

  /** The user's choices one after the other, for as long as there is something to choose. */
  function Answer(env: Env, s: Session, choices: seq<bool>): Result
    decreases |choices|
  {
    if choices == [] || !Pending(s) || !Enabled(s, UserChoice(choices[0])) then Result(s, true, [])
    else
      var r := Step(env, s, UserChoice(choices[0]));
      var q := Answer(env, r.s, choices[1..]);
      Result(q.s, true, r.replies + q.replies)
  }

  lemma ChoiceStatus(env: Env, s: Session, yes: bool)
    requires Enabled(s, UserChoice(yes))
    ensures AllStatus(Step(env, s, UserChoice(yes)).replies)
  {
    hide ConfirmOutput;
    if s.flow != ConfirmTx {
      ConfirmStatus(env, s, yes);
    }
  }

  lemma {:induction false} AnswerStatus(env: Env, s: Session, choices: seq<bool>)
    ensures AllStatus(Answer(env, s, choices).replies)
    decreases |choices|
  {
    hide Step, Enabled;
    if choices != [] && Pending(s) && Enabled(s, UserChoice(choices[0])) {
      ChoiceStatus(env, s, choices[0]);
      AnswerStatus(env, Step(env, s, UserChoice(choices[0])).s, choices[1..]);
    }
  }

  lemma {:induction false} AnsweredOnce(env: Env, s: Session, choices: seq<bool>)
    requires Inv(env, s) && Pending(s) && |choices| >= Measure(s)
    ensures var a := Answer(env, s, choices);
            !Pending(a.s) && (a.s.flow.Stopped? || |a.replies| == 1)
    decreases |choices|
  {
    hide Inv, Step, Measure;
    MeasurePositive(env, s);
    ChoiceProgress(env, s, choices[0]);
    StepKeeps(env, s, UserChoice(choices[0]));
    var r := Step(env, s, UserChoice(choices[0]));
    if Pending(r.s) {
      AnsweredOnce(env, r.s, choices[1..]);
    }
  }

  lemma MeasurePositive(env: Env, s: Session)
    requires Inv(env, s) && Pending(s)
    ensures Measure(s) > 0
  {
    hide Inv, Asking, AskingPast;
    if s.flow == ShowOutput {
      AskingOrPast(env, s);
      InRange(env, s);
    }
  }

  lemma InRange(env: Env, s: Session)
    requires Inv(env, s) && s.flow == ShowOutput
    ensures s.ctx.displayIndex < OUTPUTS_SIZE
  {
    hide PeelOne, Drain, IsChange, NonChange, Stream;
  }

  /** Every data command is answered by exactly one status word: at once, or after at most one
      choice for each queued output and a final one, whatever the user chooses.  A command that
      ended just before an undecoded change output may take up to twelve. */
  lemma OneResponse(env: Env, s: Session, chunk: nat, cdata: seq<byte>, choices: seq<bool>)
    requires Reached(env, s) && Enabled(s, DataCommand(chunk, cdata))
    requires var t := Step(env, s, DataCommand(chunk, cdata)).s;
             |choices| >= if SafeCut(t.ctx.changes, t.ctx.p.currentOutput) then t.ctx.queueLen + 1 else 12
    ensures var r := Step(env, s, DataCommand(chunk, cdata));
            var a := Answer(env, r.s, choices);
            a.s.flow.Stopped? || (|r.replies| + |a.replies| == 1 && AllStatus(r.replies) && AllStatus(a.replies))
    ensures !Pending(Answer(env, Step(env, s, DataCommand(chunk, cdata)).s, choices).s)
  {
    hide Inv, Step, Measure, Reached, Answer;
    ReachedKeeps(env, s);
    DataReply(env, s, chunk, cdata);
    AnswerStatus(env, Step(env, s, DataCommand(chunk, cdata)).s, choices);
    NoQuestion(env, Step(env, s, DataCommand(chunk, cdata)).s, choices);
    StepKeeps(env, s, DataCommand(chunk, cdata));
    var r := Step(env, s, DataCommand(chunk, cdata));
    if Pending(r.s) {
      MeasureAtMost(env, r.s);
      AnsweredOnce(env, r.s, choices);
    }
  }

  /** From any point at which the user is being asked, the questions end with exactly one reply. */
  lemma QuestionsEnd(env: Env, s: Session, choices: seq<bool>)
    requires Reached(env, s) && Pending(s)
    requires |choices| >= if SafeCut(s.ctx.changes, s.ctx.p.currentOutput) then s.ctx.queueLen + 1 else 12
    ensures var a := Answer(env, s, choices); a.s.flow.Stopped? || (|a.replies| == 1 && AllStatus(a.replies))
    ensures !Pending(Answer(env, s, choices).s)
  {
    hide Inv, Measure, Reached, Answer;
    AnswerStatus(env, s, choices);
    ReachedKeeps(env, s);
    MeasureAtMost(env, s);
    AnsweredOnce(env, s, choices);
  }

  lemma DataReply(env: Env, s: Session, chunk: nat, cdata: seq<byte>)
    requires Enabled(s, DataCommand(chunk, cdata))
    ensures AllStatus(Step(env, s, DataCommand(chunk, cdata)).replies)
  {
    hide Data;
    DataStatus(env, s, chunk, cdata);
  }

  lemma NoQuestion(env: Env, s: Session, choices: seq<bool>)
    ensures !Pending(s) ==> Answer(env, s, choices) == Result(s, true, [])
  {
    hide Step;
  }

  lemma MeasureAtMost(env: Env, s: Session)
    requires Inv(env, s) && Pending(s)
    ensures Measure(s) <= if SafeCut(s.ctx.changes, s.ctx.p.currentOutput) then s.ctx.queueLen + 1 else 12
  {
    hide Inv, Asking, AskingPast, IsChange;
    if s.flow == ShowOutput {
      AskingOrPast(env, s);
      if AskingPast(s) {
        PastIsUnsafe(s);
      } else {
        AskingInQueue(s);
      }
    }
  }

  lemma PastIsUnsafe(s: Session)
    requires AskingPast(s)
    ensures !SafeCut(s.ctx.changes, s.ctx.p.currentOutput)
  {
  }

  lemma AskingInQueue(s: Session)
    requires Asking(s)
    ensures s.ctx.displayIndex < s.ctx.queueLen <= OUTPUTS_SIZE
  {
  }

  // ---- Counters and buffers ----

  /** The two source files agree in every receiving state whose display index is within the queue,
      which it is if every command ended at a safe place: the queue holds the decoded outputs that are
      not confirmed, in order, and the one on the screen is the first of them and not change. */
  lemma QueueAgreement(env: Env, s: Session)
    requires Reached(env, s) && !s.flow.Stopped? && s.ctx.state == StateRecvData
    ensures Agree(s) <==> s.ctx.displayIndex <= s.ctx.queueLen
    ensures SafeCuts(s) ==> s.ctx.displayIndex <= s.ctx.queueLen
    ensures s.flow == ShowOutput && s.ctx.displayIndex <= s.ctx.queueLen ==>
              && s.ctx.displayIndex < s.ctx.queueLen && Shown(s) == s.log.decoded[s.ctx.confirmedOutputs]
              && Shown(s).index == s.ctx.confirmedOutputs && !IsChange(s.ctx.changes, s.ctx.confirmedOutputs)
  {
    hide Inv, Reached, IsChange, NonChange, Agree, SafeCuts;
    ReachedKeeps(env, s);
    ReceivingAgrees(env, s);
    if Agree(s) {
      AgreeCounts(s);
      if s.flow == ShowOutput {
        ShownIsNext(s);
      }
    }
  }

  lemma ReceivingAgrees(env: Env, s: Session)
    requires Inv(env, s) && !s.flow.Stopped? && s.ctx.state == StateRecvData
    ensures s.ctx.displayIndex <= s.ctx.queueLen ==> Agree(s) && (s.flow == ShowOutput ==> Showing(s))
    ensures SafeCuts(s) ==> s.ctx.displayIndex <= s.ctx.queueLen
  {
    hide Core, IsChange, SafeCuts, NonChange;
  }

  /** Every byte hashed is accounted for: the header, the elements decoded, the bytes left over, in
      every session whose first chunk held the whole header. */
  lemma EveryByteAccounted(env: Env, s: Session)
    requires Reached(env, s) && !s.flow.Stopped? && s.ctx.state != StateNone && s.log.whole
    ensures |s.ctx.hashed| >= 5
    ensures exists es: seq<Element> ::
              && Legal(env, s.ctx.changes, Start(s.ctx.hashed[2], s.ctx.hashed[3], s.ctx.hashed[4]), es)
              && s.ctx.hashed == s.ctx.hashed[..5] + StreamBytes(es) + s.ctx.buffer
              && s.log.decoded == OutputsOf(es, 0)
  {
    hide Inv, Reached, Drain, Legal, Stuck;
    ReachedKeeps(env, s);
    OpenHasStream(env, s);
    var h := s.ctx.hashed;
    var p := Start(h[2], h[3], h[4]);
    ReadyMeans(env, s.ctx.changes, p, h[5..]);
    var es := Drain(env, s.ctx.changes, p, h[5..]).es;
    assert h == h[..5] + StreamBytes(es) + s.ctx.buffer;
  }

  lemma OpenHasStream(env: Env, s: Session)
    requires Inv(env, s) && !s.flow.Stopped? && s.ctx.state != StateNone && s.log.whole
    ensures Stream(env, s)
  {
    hide Stream, PeelOne, Settled, Asking, AskingPast, Finished;
  }

  /** The 300-byte buffer never overflows: before a data command at most 35 bytes are left over. */
  lemma BufferSuffices(env: Env, s: Session, chunk: nat, cdata: seq<byte>)
    requires Reached(env, s) && Enabled(s, DataCommand(chunk, cdata)) && s.ctx.state == StateRecvData
    ensures |s.ctx.buffer| <= 35 && |s.ctx.buffer| + |cdata| <= 290 < BUFFER_SIZE
  {
    hide Inv, Reached;
    ReachedKeeps(env, s);
    MenuUnlessApproved(env, s);
    LeftoverShort(env, s);
  }

  /** The bytes of a command are in the buffer; the queue of ten has room for what they hold: at most
      eight outputs are queued, at most 35 bytes are left over, and decoding fails only if one-shot
      decoding rejects the bytes, never because the queue is full. */
  ghost predicate QueueHolds(env: Env, t: Session) {
    && (DecodeElements(env, t) == DecodeError <==> Drain(env, t.ctx.changes, t.ctx.p, t.ctx.buffer) == Rejected)
    && (DecodeElements(env, t).DecodedAll? ==>
          DecodeElements(env, t).s.ctx.queueLen <= 8 && |DecodeElements(env, t).s.ctx.buffer| <= 35)
  }

  lemma LoadedHolds(env: Env, t: Session, left: seq<byte>, chunk: seq<byte>)
    requires |t.ctx.outputs| == OUTPUTS_SIZE && t.ctx.queueLen == 0 && t.ctx.buffer == left + chunk
    requires left == [] || PeelOne(env, t.ctx.changes, t.ctx.p, left) == Short
    requires |left| <= 35 && |chunk| <= 255
    ensures QueueHolds(env, t)
  {
    hide DecodeElements, Drain, PeelOne;
    DecodesLikeOneShot(env, t);
    if DecodeElements(env, t).DecodedAll? {
      EightElements(env, t.ctx.changes, t.ctx.p, left, chunk);
      var d := Drain(env, t.ctx.changes, t.ctx.p, t.ctx.buffer);
      OutputsAtMost(d.es, t.ctx.p.currentOutput);
      ElementsCount(env, t.ctx.changes, t.ctx.p, t.ctx.buffer);
      if d.rest != [] {
        ShortIsShort(env, t.ctx.changes, d.p, d.rest);
      }
    }
  }

  /** The queue of ten never overflows, whichever command continues a transaction. */
  lemma QueueSuffices(env: Env, s: Session, chunk: nat, cdata: seq<byte>, t: Session)
    requires Reached(env, s) && Enabled(s, DataCommand(chunk, cdata)) && s.ctx.state == StateRecvData
    requires var q := QueueReset(s).ctx;
             t == Session(q.(hashed := q.hashed + cdata, buffer := q.buffer + cdata), s.flow, s.log)
    ensures NextChunk(env, QueueReset(s), cdata) == DecodeAndShow(env, t) && QueueHolds(env, t)
  {
    hide Inv, Reached, DecodeAndShow, PeelOne, QueueHolds;
    ReachedKeeps(env, s);
    MenuUnlessApproved(env, s);
    LeftoverShort(env, s);
    LoadedHolds(env, t, s.ctx.buffer, cdata);
  }

  /** Nor does it in the command that opens one. */
  lemma FirstQueueSuffices(env: Env, s: Session, cdata: seq<byte>, t: Session)
    requires s.ctx.state != StateRecvData && |cdata| <= 255
    requires Read(cdata).Returned? && |Read(cdata).value.1| >= 5
    requires var (changes, rest) := Read(cdata).value;
             t == Session(Opened(changes, rest).(buffer := rest[5..]), s.flow, BEGUN)
    ensures FirstChunk(env, s, cdata) == DecodeAndShow(env, t) && QueueHolds(env, t)
  {
    hide Read, DecodeAndShow, QueueHolds, NoOutputs;
    ReadRest(cdata);
    assert [] + t.ctx.buffer == t.ctx.buffer;
    LoadedHolds(env, t, [], t.ctx.buffer);
  }

  lemma LeftoverShort(env: Env, s: Session)
    requires Inv(env, s) && s.flow == Menu && s.ctx.state == StateRecvData
    ensures s.ctx.buffer == [] || PeelOne(env, s.ctx.changes, s.ctx.p, s.ctx.buffer) == Short
    ensures |s.ctx.buffer| <= 35 && |s.ctx.outputs| == OUTPUTS_SIZE
  {
    hide PeelOne, Stream, Settled, Asking, AskingPast;
    if s.ctx.buffer != [] {
      ShortIsShort(env, s.ctx.changes, s.ctx.p, s.ctx.buffer);
    }
  }

  lemma {:induction false} OutputsAtMost(es: seq<Element>, from: nat)
    ensures |OutputsOf(es, from)| <= |es|
    decreases |es|
  {
    if es != [] {
      OutputsAtMost(es[1..], if es[0].Output? then from + 1 else from);
    }
  }

  // ---- Numbering ----

  lemma {:induction false} AnnouncedIsChange(changes: seq<Change>, i: nat)
    ensures Announced(changes, i) > 0 <==> IsChange(changes, i)
  {
    if changes == [] {
    } else {
      AnnouncedIsChange(changes[1..], i);
      var all, rest := Indices(changes), Indices(changes[1..]);
      assert all == [changes[0].index] + rest;
      assert i in all <==> i == changes[0].index || i in rest;
    }
  }

  /** As many outputs are approved as the ones before the next that are not change. */
  lemma {:induction false} PlainCount(changes: seq<Change>, outputs: seq<TxOutput>)
    requires forall i :: 0 <= i < |outputs| ==> outputs[i].index == i
    ensures |NonChange(changes, outputs)| == PlainBelow(changes, |outputs|)
  {
    hide IsChange, Announced;
    if outputs != [] {
      PlainCount(changes, outputs[..|outputs| - 1]);
      AnnouncedIsChange(changes, |outputs| - 1);
    }
  }

  /** The total printed counts the outputs to be shown. */
  ghost predicate EntriesProper(changes: seq<Change>, outputsLen: nat) {
    DistinctBelow(changes, outputsLen) && EntriesBelow(changes, outputsLen) == |changes|
  }

  lemma ShownNumber(s: Session)
    requires Showing(s) && EntriesProper(s.ctx.changes, s.ctx.p.outputsLen) && |s.ctx.changes| <= MAX_CHANGES
    ensures s.ctx.displayIndex < |s.ctx.outputs|
    ensures ShownIndex(s.ctx.changes, Shown(s).index) == |s.log.approved| + 1
    ensures ShownTotal(s.ctx.changes, s.ctx.p.outputsLen) == PlainBelow(s.ctx.changes, s.ctx.p.outputsLen)
  {
    hide IsChange, NonChange, PlainBelow, EntriesBelow, Announced, ShownIndex, ShownTotal;
    var c := s.ctx.confirmedOutputs;
    ShownIsNext(s);
    PlainCount(s.ctx.changes, s.log.decoded[..c]);
    AnnouncedIsChange(s.ctx.changes, c);
    IndexIsRank(s.ctx.changes, c);
    TotalExactly(s.ctx.changes, s.ctx.p.outputsLen);
  }

  /** With distinct change entries that all refer to outputs of the transaction, the outputs of the
      queue are shown numbered 1/n, 2/n and so on without a gap; and if every command ended at a safe
      place, n of them have been approved at the end. */
  lemma PrintedInOrder(env: Env, s: Session)
    requires Reached(env, s) && !s.flow.Stopped? && EntriesProper(s.ctx.changes, s.ctx.p.outputsLen)
    ensures s.flow == ShowOutput && s.ctx.displayIndex <= s.ctx.queueLen ==>
              && s.ctx.displayIndex < |s.ctx.outputs|
              && ShownIndex(s.ctx.changes, Shown(s).index) == |s.log.approved| + 1
              && ShownTotal(s.ctx.changes, s.ctx.p.outputsLen) == PlainBelow(s.ctx.changes, s.ctx.p.outputsLen)
    ensures s.ctx.state == StateApproved && SafeCuts(s) ==>
              |s.log.approved| == PlainBelow(s.ctx.changes, s.ctx.p.outputsLen)
  {
    hide Inv, Reached, IsChange, NonChange, PlainBelow, EntriesBelow, EntriesProper, ShownIndex, ShownTotal, SafeCuts,
         Agree, Finished;
    ReachedKeeps(env, s);
    if s.flow == ShowOutput && s.ctx.displayIndex <= s.ctx.queueLen {
      ShowingWhenShown(env, s);
      ReceivingAgrees(env, s);
      ShownNumber(s);
    }
    if s.ctx.state == StateApproved && SafeCuts(s) {
      FinishedWhenApproved(env, s);
      ApprovedCount(s);
    }
  }

  lemma ShowingWhenShown(env: Env, s: Session)
    requires Inv(env, s) && s.flow == ShowOutput
    ensures s.ctx.state == StateRecvData && |s.ctx.changes| <= MAX_CHANGES
  {
    hide PeelOne, Stream, Settled, Asking, AskingPast, Finished;
  }

  lemma ApprovedCount(s: Session)
    requires Finished(s) && SafeCuts(s)
    ensures |s.log.approved| == PlainBelow(s.ctx.changes, s.ctx.p.outputsLen)
  {
    hide SafeCuts, NonChange, PlainBelow;
    PlainCount(s.ctx.changes, s.log.decoded);
  }
}
