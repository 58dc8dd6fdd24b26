/** What the host is told, in literal status words, and how the session goes on: the answer to every
    command and every choice of every run. */
module Answers {
  import opened Common
  import opened ChangeInfo
  import opened Decoder
  import opened Screens
  import opened Session
  import opened Confirmation
  import opened Runs
  import opened Theorems
  import opened Stops
  import opened GoodRuns
  import Bip32

  // ---- Where a session stands ----

  /** A transaction is being received, or has been and the final question is asked. */
  predicate Receiving(s: Session) {
    s.ctx.state == StateRecvData || s.ctx.state == StateParsed
  }

  lemma NotProcessing(env: Env, s: Session)
    requires Inv(env, s) && !s.flow.Stopped?
    ensures s.ctx.state == StateApproved <==> s.flow == Processing
    ensures s.ctx.state == StateNone ==> s.flow == Menu
    ensures s.flow == ConfirmTx <==> s.ctx.state == StateParsed
    ensures s.flow == ShowOutput ==> s.ctx.state == StateRecvData
  {
    hide Core, Finished, Settled, Asking, AskingPast;
  }

  lemma ReadyForData(env: Env, s: Session)
    requires Inv(env, s) && !s.flow.Stopped? && !Pending(s)
    ensures s.ctx.state == StateApproved || s.flow == Menu
    ensures s.ctx.state == StateApproved || s.ctx.state == StateRecvData || s.ctx.state == StateNone
  {
    hide Core, Finished, Settled, Asking, AskingPast;
  }

  // ---- Status words ----

  /** How a data command or a choice ends: the device waits for the next chunk; the transaction is
      approved; it is refused with a status word, which closes the session or, for a first chunk that is not
      complete, leaves it without outputs; the user is asked, about an output or finally; or the model
      stops. */
  datatype Ending =
    GoesOn | Granted | Refused(sw: nat) | BreaksOff(sw: nat) | Asks(finally: bool) | Halts(why: Stop)

  /** Nothing is open: neither a chunk nor a sign command finds a transaction. */
  predicate AllClosed(s: Session) {
    s.ctx.state == StateNone && !s.ctx.signing && s.ctx.hashed == s.ctx.buffer == [] && s.ctx.changes == []
    && s.ctx.sighash == [] && s.ctx.p.outputsLen == 0 && s.log.decoded == s.log.approved == []
  }

  /** The first chunk broke off before the end of the header: no outputs are announced. */
  predicate BrokenOff(s: Session) {
    s.ctx.state == StateRecvData && !s.log.whole && s.ctx.p.outputsLen == 0 && s.log.decoded == []
  }

  /** The replies and the session that an ending stands for, with the bytes hashed and the change entries
      kept by then. */
  ghost predicate Ends(r: Result, ending: Ending, hashed: seq<byte>, changes: seq<Change>) {
    match ending
    case GoesOn =>
      r.replies == [Status(0x9000)] && r.s.flow == Menu && r.s.ctx.state == StateRecvData && Holds(r.s, hashed, changes)
    case Granted =>
      && r.replies == [Status(0x9000)] && r.s.flow == Processing && r.s.ctx.state == StateApproved
      && Holds(r.s, hashed, changes)
    case Refused(sw) =>
      r.replies == [Status(sw)] && r.s.flow == Menu && AllClosed(r.s)
    case BreaksOff(sw) =>
      r.replies == [Status(sw)] && r.s.flow == Menu && BrokenOff(r.s) && Holds(r.s, hashed, changes)
    case Asks(finally) =>
      && r.replies == [] && r.s.flow == (if finally then ConfirmTx else ShowOutput)
      && Holds(r.s, hashed, changes)
    case Halts(why) =>
      r.replies == [] && r.s.flow == Stopped(why)
  }

  predicate Holds(s: Session, hashed: seq<byte>, changes: seq<Change>) {
    s.ctx.hashed == hashed && s.ctx.changes == changes
  }

  /** How showing goes on when these outputs are still to be confirmed. */
  function QueueEnding(env: Env, changes: seq<Change>, p: Progress, outs: seq<TxOutput>): Ending {
    match FirstPlain(changes, outs)
    case None => if 0 < p.outputsLen == p.currentOutput then Asks(true) else GoesOn
    case Some(o) =>
      if env.checksum(o.wire.pubkeyHash).None? then Refused(0xB00B)
      else if Overlong(env, p, o) then Halts(OutOfBounds)
      else Asks(false)
  }

  /** How a data command ends, by its order and by one-shot decoding of the bytes it loads. */
  function DataEnding(env: Env, s: Session, chunk: nat, cdata: seq<byte>): Ending {
    if s.ctx.state == StateApproved || (chunk > 0) != (s.ctx.state == StateRecvData) then Refused(0xB007)
    else
      match Loading(s, chunk, cdata)
      case None => BreaksOff(if |cdata| > 0 && 2 <= cdata[0] < 0x80 then 0xB009 else 0x6A87)
      case Some(t) => StreamEnding(env, t)
  }

  /** How decoding ends: by one-shot decoding of the bytes in the buffer. */
  function StreamEnding(env: Env, t: Session): Ending {
    var d := Drain(env, t.ctx.changes, t.ctx.p, t.ctx.buffer);
    if d.Ready? then QueueEnding(env, t.ctx.changes, d.p, OutputsOf(d.es, t.ctx.p.currentOutput))
    else if d.Rejected? then Refused(0xB009)
    else if d.Threw? then Halts(Restarted)
    else Halts(OutOfBounds)
  }

  /** The bytes of a first chunk behind the change information. */
  function FirstBytes(cdata: seq<byte>): seq<byte> {
    if Read(cdata).Returned? then Read(cdata).value.1 else []
  }

  /** The change entries in a first chunk; they are kept if the header announces any outputs. */
  function FirstChanges(cdata: seq<byte>): seq<Change> {
    var rest := FirstBytes(cdata);
    if |rest| > 4 && rest[4] > 0 then Read(cdata).value.0 else []
  }

  /** The bytes hashed, and the change entries kept, once a data command has been taken. */
  function HashedBy(s: Session, chunk: nat, cdata: seq<byte>): seq<byte> {
    if chunk == 0 then FirstBytes(cdata) else s.ctx.hashed + cdata
  }

  function ChangesBy(s: Session, chunk: nat, cdata: seq<byte>): seq<Change> {
    if chunk == 0 then FirstChanges(cdata) else s.ctx.changes
  }

  lemma AbortEnds(sw: nat, hashed: seq<byte>, changes: seq<Change>)
    ensures forall x :: Abort(x) == Result(Idle(), true, [Status(x)])
    ensures AllClosed(Idle()) && Ends(Result(Idle(), true, [Status(sw)]), Refused(sw), hashed, changes)
  {
  }

  lemma CheckEnds(s: Session)
    requires s.ctx.displayIndex == s.ctx.queueLen && s.ctx.signing && s.ctx.state == StateRecvData
    requires s.ctx.confirmedOutputs == s.ctx.p.currentOutput && s.ctx.p.outputsLen > 0
    ensures Ends(CheckOutputIndexState(s), if s.ctx.p.outputsLen == s.ctx.p.currentOutput then Asks(true) else GoesOn,
                 s.ctx.hashed, s.ctx.changes)
  {
  }

  lemma DisplayEnds(env: Env, s: Session)
    requires Agree(s) && Core(env, s) && s.ctx.p.outputsLen > 0 && s.ctx.state == StateRecvData
    requires s.ctx.displayIndex < s.ctx.queueLen && !s.flow.Stopped?
    ensures s.ctx.confirmedOutputs <= |s.log.decoded|
    ensures Ends(DisplayTxOutputs(env, s),
                 QueueEnding(env, s.ctx.changes, s.ctx.p, s.log.decoded[s.ctx.confirmedOutputs..]),
                 s.ctx.hashed, s.ctx.changes)
  {
    hide CheckOutputIndexState, NonChange, IsChange, SkipChangeOutputs, SymbolOf, Agree, AmountFits, Core, FirstPlain,
         AllClosed, Idle;
    CheckWithinQueue(s);
    SkipAgrees(s);
    SkipShows(s);
    SkipOnlyEnds(s);
    CoreSigning(env, s);
    AbortEnds(SW_INTERNAL_ERROR, s.ctx.hashed, s.ctx.changes);
    var r := SkipChangeOutputs(s);
    if r.done {
      DoneShowsNothing(env, r);
      CheckEnds(End(s));
    } else {
      ShowingBounds(r.s);
      ShownIsNext(r.s);
      AgreeLength(r.s);
      CoreKept(env, s, r.s);
      CoreStream(env, r.s);
      SymbolKnown(env, r.s, r.s.ctx.confirmedOutputs);
    }
  }

  lemma StreamEnds(env: Env, t: Session, before: seq<Element>)
    requires Loaded(env, t, before)
    ensures Ends(DecodeAndShow(env, t), StreamEnding(env, t), t.ctx.hashed, t.ctx.changes)
  {
    hide PeelOne, Drain, DecodeElements, IsChange, OutputsOf, Agree, DisplayTxOutputs, Unread, Core, Settled,
         FirstPlain, Overlong, AllClosed, Idle;
    DecodesLikeOneShot(env, t);
    AbortEnds(SW_INVALID_TX, t.ctx.hashed, t.ctx.changes);
    var d := DecodeElements(env, t);
    if d.DecodedAll? {
      var u := d.s;
      AbsorbedCore(env, t, u, before);
      AbsorbedAgrees(env, t, u, before);
      NewOutputs(env, t, u, before);
      if u.ctx.queueLen != 0 {
        CoreCounts(env, u);
        NotedAgrees(env, u);
        DisplayEnds(env, Noted(u));
      } else {
        SettledCount(t);
        NonePlain(u.ctx.changes);
      }
    }
  }

  lemma NonePlain(changes: seq<Change>)
    ensures FirstPlain(changes, []) == None
  {
  }

  /** Why a first chunk is refused before its transaction is looked at. */
  lemma ReadThrows(b: seq<byte>)
    ensures Read(b).Thrown? ==> Read(b).code == if |b| > 0 && 2 <= b[0] < 0x80 then 0xB009 else 0x6A87
    ensures Read(b).Returned? ==> |b| > 0 && !(2 <= b[0] < 0x80)
  {
    hide Entries, Bip32.PathOf;
  }

  /** The answer to every data command of every run. */
  lemma DataAnswers(env: Env, s: Session, chunk: nat, cdata: seq<byte>)
    requires Reached(env, s) && Enabled(s, DataCommand(chunk, cdata))
    ensures Ends(Step(env, s, DataCommand(chunk, cdata)), DataEnding(env, s, chunk, cdata), HashedBy(s, chunk, cdata),
                 ChangesBy(s, chunk, cdata))
  {
    hide Reached, Inv, DecodeAndShow, Drain, OutputsOf, QueueEnding, Read;
    ReachedKeeps(env, s);
    ReadyForData(env, s);
    AbortEnds(SW_BAD_STATE, [], []);
    LoadingDecodes(env, s, chunk, cdata);
    if Loading(s, chunk, cdata).Some? {
      var before := LoadingLoads(env, s, chunk, cdata);
      StreamEnds(env, Loading(s, chunk, cdata).value, before);
    } else {
      RefusedBefore(env, s, chunk, cdata);
    }
  }

  /** The command comes in its turn: a first chunk when none is being received, a later one otherwise. */
  predicate InTurn(s: Session, chunk: nat) {
    s.ctx.state != StateApproved && (chunk > 0 <==> s.ctx.state == StateRecvData)
  }

  lemma WordsOfEnding(r: Result, ending: Ending, hashed: seq<byte>, changes: seq<Change>)
    requires Ends(r, ending, hashed, changes) && !ending.BreaksOff? && (ending.Refused? ==> ending.sw != 0x9000)
    ensures ending.Refused? <==> r.replies != [] && r.replies != [Status(0x9000)]
    ensures ending.Refused? ==> r.replies == [Status(ending.sw)] && AllClosed(r.s)
    ensures r.replies == [Status(0x9000)] <==> r.s.flow == Processing || (r.s.flow == Menu && Receiving(r.s))
    ensures r.replies == [Status(0x9000)] && r.s.flow == Processing <==> ending == Granted
  {
  }

  /** The status words that answer a choice of the user, in or beyond the queue: 0x6985 exactly a "no", and
      0x9000 exactly what goes on or is approved. */
  lemma ChoiceWords(env: Env, s: Session, yes: bool)
    requires Reached(env, s) && Pending(s)
    ensures Enabled(s, UserChoice(yes))
    ensures var r := Step(env, s, UserChoice(yes));
            && (r.replies == [Status(0x6985)] <==> !yes) && (!yes ==> AllClosed(r.s))
            && (r.replies == [Status(0x9000)] <==>
                r.s.flow == Processing || (r.s.flow == Menu && Receiving(r.s)))
            && (r.replies == [Status(0x9000)] && r.s.flow == Processing <==> yes && s.flow == ConfirmTx)
  {
    hide Reached, ConfirmOutput, FirstPlain, Overlong, SkipsAhead, Inv, Asking, AskingPast, Ends, Idle;
    if s.flow == ConfirmTx || yes {
      if AskedInQueue(s) {
        ChoiceAnswers(env, s, yes);
        WordsOfEnding(Step(env, s, UserChoice(yes)), ChoiceEnding(env, s, yes), s.ctx.hashed, s.ctx.changes);
      } else {
        ChoiceBeyond(env, s);
      }
    } else {
      ReachedKeeps(env, s);
      AskingOrPast(env, s);
      DenyIs(env, s);
      AbortEnds(SW_DENY, [], []);
    }
  }

  /** The status words that answer a data command, and when. */
  lemma DataWords(env: Env, s: Session, chunk: nat, cdata: seq<byte>)
    requires Reached(env, s) && Enabled(s, DataCommand(chunk, cdata))
    ensures var r, loaded := Step(env, s, DataCommand(chunk, cdata)), Loading(s, chunk, cdata);
            && (r.replies == [Status(0xB007)] <==> !InTurn(s, chunk))
            && (r.replies == [Status(0xB009)] <==>
                InTurn(s, chunk) &&
                if loaded.None? then 2 <= cdata[0] < 0x80
                else Drain(env, loaded.value.ctx.changes, loaded.value.ctx.p, loaded.value.ctx.buffer).Rejected?)
            && (r.replies == [Status(0x6A87)] <==>
                InTurn(s, chunk) && loaded.None? && !(2 <= cdata[0] < 0x80))
            && (r.replies == [Status(0x9000)] <==>
                InTurn(s, chunk) && loaded.Some? && r.s.flow == Menu && Receiving(r.s))
  {
    hide Reached, Data, Loading, Drain, OutputsOf, FirstPlain, Overlong;
    DataAnswers(env, s, chunk, cdata);
  }

  lemma RefusedBefore(env: Env, s: Session, chunk: nat, cdata: seq<byte>)
    requires Inv(env, s) && Enabled(s, DataCommand(chunk, cdata)) && Loading(s, chunk, cdata).None?
    ensures Ends(Data(env, s, chunk, cdata), DataEnding(env, s, chunk, cdata), HashedBy(s, chunk, cdata),
                 ChangesBy(s, chunk, cdata))
  {
    hide Inv, DecodeAndShow, Drain, OutputsOf, QueueEnding, Read;
    ReadyForData(env, s);
    ReadThrows(cdata);
    AbortEnds(SW_BAD_STATE, [], []);
    if chunk > 0 && s.ctx.state == StateRecvData {
      ResetKeeps(env, s);
      LeftoverShort(env, QueueReset(s));
    }
    if chunk == 0 && Read(cdata).Returned? {
      ReadRest(cdata);
    }
  }

  /** How a choice ends, while the queue and the counters agree. */
  function ChoiceEnding(env: Env, s: Session, yes: bool): Ending
    requires yes && s.flow != ConfirmTx ==> s.ctx.confirmedOutputs < |s.log.decoded|
  {
    if !yes then Refused(0x6985)
    else if s.flow == ConfirmTx then Granted
    else QueueEnding(env, s.ctx.changes, s.ctx.p, Remaining(s))
  }

  /** The user is asked finally, or about an output of the queue whose approval does not skip ahead. */
  predicate AskedInQueue(s: Session) {
    s.flow == ConfirmTx || (s.flow == ShowOutput && s.ctx.displayIndex <= s.ctx.queueLen && !SkipsAhead(s))
  }

  /** The answer to every such choice of every run, and what is asked or left open by it. */
  lemma ChoiceAnswers(env: Env, s: Session, yes: bool)
    requires Reached(env, s) && AskedInQueue(s)
    ensures Enabled(s, UserChoice(yes)) && (s.flow != ConfirmTx ==> s.ctx.confirmedOutputs < |s.log.decoded|)
    ensures Ends(Step(env, s, UserChoice(yes)), ChoiceEnding(env, s, yes), s.ctx.hashed, s.ctx.changes)
  {
    hide Reached, Inv, Core, Agree, ConfirmOutput, QueueEnding, SkipsAhead, Idle, AllClosed;
    ReachedKeeps(env, s);
    AbortEnds(SW_DENY, s.ctx.hashed, s.ctx.changes);
    if s.flow == ShowOutput {
      AskingOrPast(env, s);
      ReceivingAgrees(env, s);
      NextIndex(s);
      if yes {
        YesEnds(env, s);
      } else {
        DenyIs(env, s);
      }
    }
  }

  lemma YesEnds(env: Env, s: Session)
    requires Core(env, s) && s.ctx.p.outputsLen > 0 && s.ctx.state == StateRecvData && s.flow == ShowOutput
    requires Showing(s) && !SkipsAhead(s)
    ensures s.ctx.displayIndex < |s.ctx.outputs| && s.ctx.confirmedOutputs < |s.log.decoded|
    ensures Ends(ConfirmOutput(env, s, true), QueueEnding(env, s.ctx.changes, s.ctx.p, Remaining(s)),
                 s.ctx.hashed, s.ctx.changes)
  {
    hide Agree, IsChange, NonChange, CheckOutputIndexState, SkipChangeOutputs, DisplayTxOutputs, Core, FirstPlain,
         Overlong, AllClosed;
    NextIndex(s);
    ApproveAgrees(s);
    var t := Approve(s);
    CoreKept(env, s, t);
    AgreeCounts(t);
    AgreeLength(t);
    CoreSigning(env, t);
    if t.ctx.displayIndex < t.ctx.queueLen {
      SkipTwice(env, t);
      DisplayEnds(env, t);
    } else {
      ConfirmAgrees(env, s);
      CheckEnds(t);
      NonePlain(s.ctx.changes);
      assert Remaining(s) == [];
    }
  }

  /** Beyond the queue, and ahead of it, an approval is never answered with a request for more: there is
      no answer yet, or the address cannot be computed. */
  lemma ChoiceBeyond(env: Env, s: Session)
    requires Reached(env, s) && s.flow == ShowOutput && !AskedInQueue(s)
    ensures Enabled(s, UserChoice(true))
    ensures var r := Step(env, s, UserChoice(true));
            if r.replies == [] then
              && r.s.flow != Menu && r.s.flow != Processing
              && (r.s.flow.Stopped? || Holds(r.s, s.ctx.hashed, s.ctx.changes))
            else r.replies == [Status(0xB00B)] && r.s.flow == Menu && AllClosed(r.s)
  {
    hide Reached, Inv, Core, Agree, ConfirmOutput, IsChange, AllClosed, Idle;
    ReachedKeeps(env, s);
    AskingOrPast(env, s);
    AbortEnds(SW_INTERNAL_ERROR, [], []);
    CoreBounds(env, s);
    BeyondPast(s);
    ConfirmPast(env, s);
    PastReplies(Approve(s), ConfirmOutput(env, s, true));
  }

  lemma CoreBounds(env: Env, s: Session)
    requires Core(env, s)
    ensures s.ctx.signing && |s.ctx.changes| <= MAX_CHANGES
  {
  }

  lemma BeyondPast(s: Session)
    requires (Asking(s) || AskingPast(s)) && (s.ctx.displayIndex > s.ctx.queueLen || SkipsAhead(s))
    requires |s.ctx.changes| <= MAX_CHANGES
    ensures s.ctx.displayIndex < |s.ctx.outputs| && Past(Approve(s), 10)
    ensures || Approve(s).ctx.displayIndex > Approve(s).ctx.queueLen
            || IsChange(s.ctx.changes, Approve(s).ctx.confirmedOutputs)
  {
    hide IsChange, NonChange, SafeCuts;
    if Asking(s) {
      ShowingBounds(s);
      ApproveAgrees(s);
      AgreeCounts(Approve(s));
      AgreeIsPast(Approve(s));
    } else {
      PastNext(s.(log := s.log.(approved := s.log.approved + [Shown(s)])), 9);
    }
  }

  lemma PastReplies(s: Session, r: Result)
    requires DisplayedPast(s, r)
    ensures || r == Abort(SW_INTERNAL_ERROR)
            || (r.replies == [] && r.s.flow != Menu && r.s.flow != Processing
                && (r.s.flow.Stopped? || Holds(r.s, s.ctx.hashed, s.ctx.changes)))
  {
    hide Past, Idle;
  }

  /** The answers to the other commands, and that the end of the session and quitting leave nothing open. */
  lemma OtherAnswers(env: Env, s: Session, e: Event)
    requires Reached(env, s) && Enabled(s, e)
    ensures e.DoneCommand? ==>
              var r := Step(env, s, e); r.replies == [Status(0x9000)] && r.s.flow == Menu && AllClosed(r.s)
    ensures e.UserQuit? ==>
              var r := Step(env, s, e); r.replies == [] && r.s.flow == Menu && AllClosed(r.s)
    ensures e.SignCommand? && s.ctx.state != StateApproved ==> Step(env, s, e).replies == [Status(0xB007)]
    ensures e.SignCommand? && s.ctx.state == StateApproved && Bip32.PathOf(e.cdata).None? ==>
              Step(env, s, e).replies == [Status(0x6A87)]
  {
    hide Reached, Bip32.PathOf;
  }

  /** After a refusal nothing can be signed, and a later chunk is refused too, unless the first chunk
      broke off, in which case no output is ever announced. */
  lemma RefusalHolds(env: Env, s: Session, e: Event)
    requires Reached(env, s) && (AllClosed(s) || BrokenOff(s)) && s.flow == Menu && Enabled(s, e)
    ensures e.SignCommand? ==> Step(env, s, e).replies == [Status(0xB007)]
    ensures AllClosed(s) && e.DataCommand? && e.chunk > 0 ==>
              Step(env, s, e).replies == [Status(0xB007)] && AllClosed(Step(env, s, e).s)
    ensures BrokenOff(s) && e.DataCommand? && e.chunk > 0 ==>
              var t := Step(env, s, e).s; t.flow.Stopped? || (t.flow == Menu && t.ctx.p.outputsLen == 0)
  {
    hide Reached, NextChunk, Read, Idle, Bip32.PathOf;
    OtherAnswers(env, s, e);
    if e.DataCommand? && e.chunk > 0 {
      DataAnswers(env, s, e.chunk, e.cdata);
      AbortEnds(SW_BAD_STATE, [], []);
      if BrokenOff(s) {
        ReachedStep(env, s, e);
        ReachedKeeps(env, s);
        ReachedKeeps(env, Step(env, s, e).s);
        StillNoOutputs(env, s, e.chunk, e.cdata);
      }
    }
  }

  /** A session without announced outputs never comes to announce or ask anything. */
  lemma StillNoOutputs(env: Env, s: Session, chunk: nat, cdata: seq<byte>)
    requires Reached(env, s) && BrokenOff(s) && s.flow == Menu && Enabled(s, DataCommand(chunk, cdata)) && chunk > 0
    ensures var t := Data(env, s, chunk, cdata).s; t.flow.Stopped? || (t.flow == Menu && t.ctx.p.outputsLen == 0)
  {
    hide Reached, Inv, DecodeAndShow, DecodeElements, Drain, DisplayTxOutputs, PeelOne, OutputsOf, Idle;
    ReachedKeeps(env, s);
    LoadingDecodes(env, s, chunk, cdata);
    AbortEnds(SW_INVALID_TX, [], []);
    ResetKeeps(env, s);
    LeftoverShort(env, QueueReset(s));
    var before := LoadingLoads(env, s, chunk, cdata);
    var t := Loading(s, chunk, cdata).value;
    NoOutputsDecoded(env, t, before);
  }

  lemma NoOutputsDecoded(env: Env, t: Session, before: seq<Element>)
    requires Loaded(env, t, before) && t.ctx.p.outputsLen == 0
    ensures var u := DecodeAndShow(env, t).s; u.flow.Stopped? || (u.flow == Menu && u.ctx.p.outputsLen == 0)
  {
    hide PeelOne, Drain, DecodeElements, IsChange, OutputsOf, Agree, DisplayTxOutputs, Unread, Core, Settled, Idle;
    DecodesLikeOneShot(env, t);
    AbortEnds(SW_INVALID_TX, [], []);
    var d := DecodeElements(env, t);
    if d.DecodedAll? {
      AbsorbedCore(env, t, d.s, before);
      CoreCounts(env, d.s);
    }
  }

  /** A refusal need not close the session: a first chunk that breaks off in the header is refused, and yet
      the next chunk is taken. */
  lemma BrokenOffGoesOn(env: Env) returns (s: Session)
    ensures Enabled(Idle(), DataCommand(0, [0, 0, 1, 0, 1]))
    ensures Step(env, Idle(), DataCommand(0, [0, 0, 1, 0, 1])) == Result(s, true, [Status(0x6A87)])
    ensures Reached(env, s) && BrokenOff(s) && s.flow == Menu
    ensures Enabled(s, DataCommand(1, [0])) && Step(env, s, DataCommand(1, [0])).replies == [Status(0x9000)]
  {
    hide Reached;
    var cdata: seq<byte> := [0, 0, 1, 0, 1];
    s := Session(Opened([], [0, 1, 0, 1]), Menu, EMPTY);
    assert cdata[1..] == [0, 1, 0, 1];
    assert QueueReset(Idle()) == Idle();
    ReachedIdle(env);
    ReachedStep(env, Idle(), DataCommand(0, cdata));
    assert QueueReset(s) == s;
    assert s.ctx.buffer + [0] == [0];
    assert PeelOne(env, [], s.ctx.p, [0]).Short?;
  }
}
