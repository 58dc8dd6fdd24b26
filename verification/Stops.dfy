/** Where the model stops: exactly when a command, a choice or a signature leads to a state from which
    it does not follow the program any further. */
module Stops {
  import opened Common
  import opened ChangeInfo
  import opened Deserialize
  import opened Decoder
  import opened Screens
  import opened Session
  import opened Confirmation
  import opened Runs
  import opened Theorems
  import Bip32

  // ---- What is shown next ----

  /** The first of the outputs that is not announced as change. */
  function FirstPlain(changes: seq<Change>, outs: seq<TxOutput>): (o: Option<TxOutput>)
    ensures o.Some? ==> o.value in outs
  {
    if outs == [] then None
    else if IsChange(changes, outs[0].index) then FirstPlain(changes, outs[1..])
    else Some(outs[0])
  }

  /** The line for the amount of an output is longer than the buffer for it. */
  predicate Overlong(env: Env, p: Progress, o: TxOutput) {
    && env.checksum(o.wire.pubkeyHash).Some?
    && match SymbolOf(p, o.wire.tokenData)
       case None => false
       case Some(symbol) => !AmountFits(symbol, o.wire.value)
  }

  /** The first output that is not change is too long to be shown. */
  predicate ShowsOverlong(env: Env, changes: seq<Change>, p: Progress, outs: seq<TxOutput>) {
    var o := FirstPlain(changes, outs);
    o.Some? && Overlong(env, p, o.value)
  }

  /** Skipping within the queue stops at the first queued output that is not change, if there is one. */
  lemma {:induction false} SkipShows(s: Session)
    requires Agree(s) && s.ctx.displayIndex < s.ctx.queueLen
    ensures s.ctx.confirmedOutputs <= |s.log.decoded|
    ensures var r := SkipChangeOutputs(s);
            var o := FirstPlain(s.ctx.changes, s.log.decoded[s.ctx.confirmedOutputs..]);
            if r.done then o == None else r.s.ctx.displayIndex < |r.s.ctx.outputs| && o == Some(Shown(r.s))
    decreases s.ctx.queueLen - s.ctx.displayIndex
  {
    hide IsChange, CheckOutputIndexState, NonChange, Agree;
    AgreeCounts(s);
    AgreeLength(s);
    NextIndex(s);
    var c := s.ctx.confirmedOutputs;
    if IsChange(s.ctx.changes, c) {
      var t := NextOutput(s);
      NextAgrees(s, t);
      assert s.log.decoded[c..][1..] == s.log.decoded[c + 1..];
      AgreeCounts(t);
      if t.ctx.displayIndex == t.ctx.queueLen {
        CheckAtEnd(t);
      } else {
        CheckWithinQueue(t);
        SkipShows(t);
      }
    } else {
      ShownIsNext(s);
    }
  }

  lemma NextIndex(s: Session)
    requires Agree(s) && s.ctx.displayIndex < s.ctx.queueLen
    ensures s.ctx.displayIndex < |s.ctx.outputs| && s.ctx.confirmedOutputs < |s.log.decoded|
    ensures s.log.decoded[s.ctx.confirmedOutputs].index == s.ctx.confirmedOutputs
  {
  }

  lemma AgreeLength(s: Session)
    requires Agree(s)
    ensures |s.log.decoded| == s.ctx.p.currentOutput
  {
  }

  /** The token of every decoded output has been received before. */
  lemma {:induction false} TokensKnown(env: Env, changes: seq<Change>, p: Progress, es: seq<Element>, from: nat, i: nat)
    requires Legal(env, changes, p, es) && i < |OutputsOf(es, from)|
    ensures OutputsOf(es, from)[i].wire.tokenData < 0x80
    ensures OutputsOf(es, from)[i].wire.tokenData <= |ProgressAfter(p, es).tokens|
    decreases |es|
  {
    hide FindToken, CheckChange, Encodable;
    FitsAllowed(env, changes, p, es[0]);
    TokensGrow(env, changes, Advance(p, es[0]), es[1..]);
    if !es[0].Output? {
      TokensKnown(env, changes, Advance(p, es[0]), es[1..], from, i);
    } else if i > 0 {
      TokensKnown(env, changes, Advance(p, es[0]), es[1..], from + 1, i - 1);
    }
  }

  lemma {:induction false} TokensGrow(env: Env, changes: seq<Change>, p: Progress, es: seq<Element>)
    ensures |ProgressAfter(p, es).tokens| >= |p.tokens|
    decreases |es|
  {
    if es != [] && Allowed(p, es[0]) {
      TokensGrow(env, changes, Advance(p, es[0]), es[1..]);
    }
  }

  lemma SymbolKnown(env: Env, s: Session, i: nat)
    requires Stream(env, s) && i < |s.log.decoded|
    ensures SymbolOf(s.ctx.p, s.log.decoded[i].wire.tokenData).Some?
  {
    hide Drain, OutputsOf, Legal;
    var h := s.ctx.hashed;
    var p := Start(h[2], h[3], h[4]);
    ReadyMeans(env, s.ctx.changes, p, h[5..]);
    TokensKnown(env, s.ctx.changes, p, Drain(env, s.ctx.changes, p, h[5..]).es, 0, i);
  }

  lemma CoreStream(env: Env, s: Session)
    requires Core(env, s) && s.ctx.p.outputsLen > 0
    ensures Stream(env, s)
  {
    hide Stream;
  }

  /** Showing the next output of a queue stops exactly when the first that is not change is too long. */
  lemma DisplayStops(env: Env, s: Session)
    requires Agree(s) && Core(env, s) && s.ctx.p.outputsLen > 0
    requires s.ctx.displayIndex < s.ctx.queueLen && !s.flow.Stopped?
    ensures s.ctx.confirmedOutputs <= |s.log.decoded|
    ensures DisplayTxOutputs(env, s).s.flow.Stopped? <==>
            ShowsOverlong(env, s.ctx.changes, s.ctx.p, s.log.decoded[s.ctx.confirmedOutputs..])
  {
    hide CheckOutputIndexState, NonChange, IsChange, SkipChangeOutputs, SymbolOf, Agree, AmountFits, Core, FirstPlain;
    CheckWithinQueue(s);
    SkipAgrees(s);
    SkipOnlyEnds(s);
    SkipShows(s);
    var r := SkipChangeOutputs(s);
    if !r.done {
      ShowingBounds(r.s);
      ShownIsNext(r.s);
      CoreKept(env, s, r.s);
      AgreeLength(r.s);
      CoreStream(env, r.s);
      SymbolKnown(env, r.s, r.s.ctx.confirmedOutputs);
    }
  }

  // ---- Data commands ----

  /** The session whose buffer a data command makes the decoder work on, unless it is refused before. */
  function Loading(s: Session, chunk: nat, cdata: seq<byte>): Option<Session> {
    var c := QueueReset(s).ctx;
    if c.state == StateApproved || (chunk > 0) != (c.state == StateRecvData) then None
    else if chunk > 0 then
      if |cdata| > BUFFER_SIZE - |c.buffer| then None
      else Some(Session(c.(hashed := c.hashed + cdata, buffer := c.buffer + cdata), s.flow, s.log))
    else
      match Read(cdata)
      case Thrown(_) => None
      case Returned((changes, rest)) =>
        if |rest| < 5 || |rest| - 5 > BUFFER_SIZE then None
        else Some(Session(Opened(changes, rest).(buffer := rest[5..]), s.flow, BEGUN))
  }

  lemma LoadingDecodes(env: Env, s: Session, chunk: nat, cdata: seq<byte>)
    ensures match Loading(s, chunk, cdata)
            case Some(t) => Data(env, s, chunk, cdata) == DecodeAndShow(env, t)
            case None => Data(env, s, chunk, cdata).s.flow == Menu || Data(env, s, chunk, cdata).s.flow == s.flow
  {
    hide Read, DecodeAndShow;
  }

  lemma LoadingLoads(env: Env, s: Session, chunk: nat, cdata: seq<byte>) returns (before: seq<Element>)
    requires Inv(env, s) && Enabled(s, DataCommand(chunk, cdata)) && Loading(s, chunk, cdata).Some?
    ensures Loaded(env, Loading(s, chunk, cdata).value, before)
  {
    hide Inv, Read, Loaded;
    ResetKeeps(env, s);
    var s0 := QueueReset(s);
    MenuUnlessApproved(env, s0);
    if chunk > 0 {
      before := NextLoads(env, s0, cdata, Loading(s, chunk, cdata).value);
    } else {
      var (changes, rest) := Read(cdata).value;
      ChangesBounded(cdata);
      ReadRest(cdata);
      OpenedLoads(env, changes, rest);
      before := [];
    }
  }

  /** Why decoding and showing the bytes of a command stops: a change check throws, the token array
      overflows, or the first output to be shown is too long. */
  ghost predicate StopsFor(env: Env, t: Session, why: Stop) {
    var d := Drain(env, t.ctx.changes, t.ctx.p, t.ctx.buffer);
    match why
    case Restarted => d == Threw
    case OutOfBounds =>
      d == Overran || (d.Ready? && ShowsOverlong(env, t.ctx.changes, d.p, OutputsOf(d.es, t.ctx.p.currentOutput)))
    case HashReused => false
  }

  lemma DecodeStops(env: Env, s: Session, before: seq<Element>, why: Stop)
    requires Loaded(env, s, before)
    ensures DecodeAndShow(env, s).s.flow == Stopped(why) <==> StopsFor(env, s, why)
  {
    hide PeelOne, Drain, DecodeElements, IsChange, OutputsOf, Agree, DisplayTxOutputs, Unread, Core, Settled,
         ShowsOverlong;
    DecodesLikeOneShot(env, s);
    var d := DecodeElements(env, s);
    if d.DecodedAll? {
      var t := d.s;
      AbsorbedCore(env, s, t, before);
      AbsorbedAgrees(env, s, t, before);
      NewOutputs(env, s, t, before);
      if t.ctx.queueLen != 0 {
        CoreCounts(env, t);
        NotedAgrees(env, t);
        DisplayStops(env, Noted(t));
        if DisplayTxOutputs(env, Noted(t)).s.flow.Stopped? {
          DisplayWhy(env, Noted(t));
        }
      } else {
        NothingShown(env, t.ctx.changes, t.ctx.p);
      }
    }
  }

  lemma NothingShown(env: Env, changes: seq<Change>, p: Progress)
    ensures !ShowsOverlong(env, changes, p, [])
  {
  }

  /** What is still to be confirmed after decoding are the outputs just decoded. */
  lemma NewOutputs(env: Env, s: Session, t: Session, before: seq<Element>)
    requires Loaded(env, s, before)
    requires var d := Drain(env, s.ctx.changes, s.ctx.p, s.ctx.buffer);
             d.Ready? && Absorbed(s, t, d.p, d.rest, d.es)
    ensures var outs := OutputsOf(Drain(env, s.ctx.changes, s.ctx.p, s.ctx.buffer).es, s.ctx.p.currentOutput);
            && t.ctx.confirmedOutputs <= |t.log.decoded| && t.log.decoded[t.ctx.confirmedOutputs..] == outs
            && |outs| == t.ctx.queueLen
  {
    hide PeelOne, Drain, IsChange, OutputsOf, NonChange, Unread;
    SettledCount(s);
  }

  /** In every run a data command stops the model for a reason exactly when the bytes it makes the
      decoder work on give that reason. */
  lemma DataStopsExactly(env: Env, s: Session, chunk: nat, cdata: seq<byte>, why: Stop)
    requires Reached(env, s) && Enabled(s, DataCommand(chunk, cdata))
    ensures Step(env, s, DataCommand(chunk, cdata)).s.flow == Stopped(why) <==>
            var t := Loading(s, chunk, cdata); t.Some? && StopsFor(env, t.value, why)
  {
    hide Reached, Inv, Data, Loading, DecodeAndShow, StopsFor;
    ReachedKeeps(env, s);
    LoadingDecodes(env, s, chunk, cdata);
    if Loading(s, chunk, cdata).Some? {
      var before := LoadingLoads(env, s, chunk, cdata);
      DecodeStops(env, Loading(s, chunk, cdata).value, before, why);
    }
  }

  // ---- Choices ----

  /** The outputs that remain once the one on the screen is approved. */
  function Remaining(s: Session): seq<TxOutput>
    requires s.ctx.confirmedOutputs < |s.log.decoded|
  {
    s.log.decoded[s.ctx.confirmedOutputs + 1..]
  }

  lemma AskingStops(env: Env, s: Session)
    requires Core(env, s) && s.ctx.p.outputsLen > 0
    requires Showing(s) && !SkipsAhead(s) && s.flow == ShowOutput
    ensures s.ctx.displayIndex < |s.ctx.outputs| && s.ctx.confirmedOutputs < |s.log.decoded|
    ensures ConfirmOutput(env, s, true).s.flow.Stopped? <==>
            ShowsOverlong(env, s.ctx.changes, s.ctx.p, Remaining(s))
  {
    hide Agree, IsChange, NonChange, CheckOutputIndexState, SkipChangeOutputs, DisplayTxOutputs, Core, ShowsOverlong;
    NextIndex(s);
    ApproveAgrees(s);
    var t := Approve(s);
    CoreKept(env, s, t);
    AgreeCounts(t);
    AgreeLength(t);
    SkipOnlyEnds(t);
    if t.ctx.displayIndex < t.ctx.queueLen {
      CheckWithinQueue(t);
      DisplayStops(env, t);
      SkipTwice(env, t);
    } else {
      ConfirmAgrees(env, s);
      CheckOnlyEnds(t);
      assert Remaining(s) == [];
      NothingShown(env, s.ctx.changes, s.ctx.p);
    }
  }

  /** Skipping before showing changes nothing: showing skips by itself. */
  lemma SkipTwice(env: Env, s: Session)
    requires Agree(s) && s.ctx.displayIndex < s.ctx.queueLen
    ensures var r := SkipChangeOutputs(s);
            DisplayTxOutputs(env, s) == if r.done then r else DisplayTxOutputs(env, r.s)
  {
    hide CheckOutputIndexState, NonChange, IsChange, SymbolOf, Agree, AmountFits, ShowNext;
    CheckWithinQueue(s);
    SkipAgrees(s);
    var r := SkipChangeOutputs(s);
    if r.done {
      DoneShowsNothing(env, r);
    } else {
      ShowingIsPlain(r.s);
      CheckWithinQueue(r.s);
      SkipOnlyEnds(s);
    }
  }

  lemma ShowingIsPlain(s: Session)
    requires Showing(s)
    ensures Agree(s) && s.ctx.displayIndex < s.ctx.queueLen && SkipChangeOutputs(s) == Result(s, false, [])
  {
    hide Agree, IsChange;
  }

  /** In every run a choice within the queue stops the model exactly when it is an approval, the next
      output that is not change is too long, and nothing is skipped ahead of the queue. */
  lemma ChoiceStopsExactly(env: Env, s: Session, yes: bool)
    requires Reached(env, s) && s.flow == ShowOutput && s.ctx.displayIndex <= s.ctx.queueLen && !SkipsAhead(s)
    ensures Enabled(s, UserChoice(yes)) && s.ctx.confirmedOutputs < |s.log.decoded|
    ensures Step(env, s, UserChoice(yes)).s.flow.Stopped? <==>
            yes && ShowsOverlong(env, s.ctx.changes, s.ctx.p, Remaining(s))
  {
    hide Reached, Inv, Core, Agree, ConfirmOutput, ShowsOverlong, SkipsAhead;
    ReachedKeeps(env, s);
    AskingOrPast(env, s);
    ReceivingAgrees(env, s);
    NextIndex(s);
    if yes {
      AskingStops(env, s);
    } else {
      DenyIs(env, s);
    }
  }

  /** The session whose output has its turn once all skipping behind an approval is done, unless nothing
      is left to show. */
  function NextTurn(s: Session): Option<Session> {
    var r := SkipChangeOutputs(s);
    if r.done || CheckOutputIndexState(r.s).done then None
    else
      var q := SkipChangeOutputs(r.s);
      if q.done then None else Some(q.s)
  }

  /** The slot whose turn it is lies outside the array, names no token received, or holds an amount that
      is too long. */
  predicate Unshowable(env: Env, s: Session) {
    || s.ctx.displayIndex >= |s.ctx.outputs|
    || (&& env.checksum(Shown(s).wire.pubkeyHash).Some?
        && match SymbolOf(s.ctx.p, Shown(s).wire.tokenData)
           case None => true
           case Some(symbol) => !AmountFits(symbol, Shown(s).wire.value))
  }

  /** In every run, within the queue and beyond it, a choice stops the model exactly when it is an
      approval and the slot whose turn is next cannot be shown.  Beyond the queue, and ahead of it, some
      command has ended at an unsafe place. */
  lemma ChoiceStopsAnywhere(env: Env, s: Session, yes: bool)
    requires Reached(env, s) && s.flow == ShowOutput
    ensures Enabled(s, UserChoice(yes))
    ensures Step(env, s, UserChoice(yes)).s.flow.Stopped? <==>
            var t := NextTurn(Approve(s)); yes && t.Some? && Unshowable(env, t.value)
    ensures var t := Step(env, s, UserChoice(yes)).s; t.flow.Stopped? ==> t.flow.why == OutOfBounds
    ensures s.ctx.displayIndex > s.ctx.queueLen || SkipsAhead(s) ==> !SafeCuts(s)
  {
    hide Reached, Inv, Asking, AskingPast, CheckOutputIndexState, SkipChangeOutputs, DisplayTxOutputs, SafeCuts, Core,
         IsChange, Unshowable, SkipsAhead;
    ReachedKeeps(env, s);
    AskingOrPast(env, s);
    if s.ctx.displayIndex > s.ctx.queueLen || SkipsAhead(s) {
      AheadUnsafe(s);
    }
    if yes {
      var t := Approve(s);
      SkipOnlyEnds(t);
      var r := SkipChangeOutputs(t);
      if !r.done {
        ShowingStops(env, r.s);
        if DisplayTxOutputs(env, r.s).s.flow.Stopped? {
          DisplayWhy(env, r.s);
        }
      }
    } else {
      DenyIs(env, s);
    }
  }

  lemma ShowingStops(env: Env, s: Session)
    requires !s.flow.Stopped?
    ensures DisplayTxOutputs(env, s).s.flow.Stopped? <==>
            && !CheckOutputIndexState(s).done && !SkipChangeOutputs(s).done
            && Unshowable(env, SkipChangeOutputs(s).s)
  {
    hide CheckOutputIndexState, SkipChangeOutputs, SymbolOf, AmountFits;
    CheckOnlyEnds(s);
    SkipOnlyEnds(s);
  }

  lemma AheadUnsafe(s: Session)
    requires Asking(s) || AskingPast(s)
    requires s.ctx.displayIndex > s.ctx.queueLen || SkipsAhead(s)
    ensures !SafeCuts(s)
  {
    hide IsChange, NonChange, SafeCuts;
    if Asking(s) && SkipsAhead(s) {
      UnsafeCut(s, s);
    } else if Asking(s) {
      ShowingBounds(s);
    }
  }

  lemma SafeStaysInQueue(env: Env, s: Session)
    requires Inv(env, s) && s.flow == ShowOutput && SafeCuts(s)
    ensures s.ctx.displayIndex <= s.ctx.queueLen && !SkipsAhead(s) && Showing(s)
    ensures Core(env, s) && s.ctx.p.outputsLen > 0
  {
    hide Inv, Core, IsChange, NonChange, SafeCuts, Asking, AskingPast;
    AskingOrPast(env, s);
    ReceivingAgrees(env, s);
    if s.ctx.displayIndex > s.ctx.queueLen || SkipsAhead(s) {
      AheadUnsafe(s);
    }
  }

  // ---- Signatures and the other events ----

  /** The commands that reach the signing key: after approval, with a valid path. */
  predicate ReachesKey(s: Session, cdata: seq<byte>) {
    s.ctx.state == StateApproved && Bip32.PathOf(cdata).Some?
  }

  /** In every run a sign command makes the program use the hash a second time exactly when the key is
      reached and found and the digest computed before starts with a zero byte; and it ends the command
      loop, without an answer, exactly when the key is reached with an empty path, or it is not found,
      or hashing or signing fails. */
  lemma SignStopsExactly(env: Env, s: Session, cdata: seq<byte>)
    requires Reached(env, s) && Enabled(s, SignCommand(cdata))
    ensures Step(env, s, SignCommand(cdata)).s.flow == Stopped(HashReused) <==>
            && ReachesKey(s, cdata) && s.ctx.finalised && Unset(env.sha256d(s.ctx.hashed))
            && var path := Bip32.PathOf(cdata).value; path != [] && env.derives(path)
    ensures Step(env, s, SignCommand(cdata)).s.flow == Stopped(Restarted) <==>
            && ReachesKey(s, cdata)
            && var path, digest := Bip32.PathOf(cdata).value, env.sha256d(s.ctx.hashed);
               || path == [] || !env.derives(path)
               || (!s.ctx.finalised && !env.hashes(s.ctx.hashed))
               || (!(s.ctx.finalised && Unset(digest)) && !env.signs(path, digest))
    ensures Step(env, s, SignCommand(cdata)).s.flow != Stopped(OutOfBounds)
  {
    hide Reached, Inv, Bip32.PathOf, Finished, Stream;
    ReachedKeeps(env, s);
    if s.ctx.state == StateApproved {
      FinishedWhenApproved(env, s);
    }
  }

  /** In every run a sign command is answered with the signature over the digest of what was hashed
      exactly when the key is reached and found, the digest can be used, and signing succeeds. */
  lemma SignSucceedsExactly(env: Env, s: Session, cdata: seq<byte>)
    requires Reached(env, s) && Enabled(s, SignCommand(cdata)) && ReachesKey(s, cdata)
    ensures var path, digest := Bip32.PathOf(cdata).value, env.sha256d(s.ctx.hashed);
            Step(env, s, SignCommand(cdata)).replies == [Signature(path, digest)] <==>
            && path != [] && env.derives(path) && env.signs(path, digest)
            && if s.ctx.finalised then !Unset(digest) else env.hashes(s.ctx.hashed)
  {
    hide Reached, Inv, Bip32.PathOf, Finished, Stream;
    ReachedKeeps(env, s);
    FinishedWhenApproved(env, s);
  }

  /** A sign command is answered, with one status word or one signature, exactly when it does not stop. */
  lemma SignAnswered(env: Env, s: Session, cdata: seq<byte>)
    requires Enabled(s, SignCommand(cdata))
    ensures var r := Step(env, s, SignCommand(cdata));
            |r.replies| == if r.s.flow.Stopped? then 0 else 1
  {
    hide Bip32.PathOf;
  }

  /** The final question, the end of the session and quitting never stop the model. */
  lemma OthersNeverStop(env: Env, s: Session, e: Event)
    requires Enabled(s, e) && (e.DoneCommand? || e.UserQuit? || (e.UserChoice? && s.flow == ConfirmTx))
    ensures !Step(env, s, e).s.flow.Stopped?
  {
  }

  // ---- Answers without exception ----

  /** Every amount among the outputs decoded fits the screen. */
  ghost predicate AllFit(env: Env, s: Session) {
    forall i :: 0 <= i < |s.log.decoded| ==> !Overlong(env, s.ctx.p, s.log.decoded[i])
  }

  /** A choice leaves what the conditions speak of as it was, as long as the asking goes on. */
  lemma ChoiceKeepsCore(env: Env, s: Session)
    requires Showing(s) && !SkipsAhead(s) && s.flow == ShowOutput
    ensures s.ctx.displayIndex < |s.ctx.outputs|
    ensures var r := ConfirmOutput(env, s, true); Pending(r.s) ==> SameCore(s, r.s)
  {
    hide CheckOutputIndexState, NonChange, IsChange, Agree, ConfirmOutput, SkipsAhead;
    ApproveAgrees(s);
    ConfirmAgrees(env, s);
    var t, r := Approve(s), ConfirmOutput(env, s, true);
    if Pending(r.s) {
      if t.ctx.displayIndex < t.ctx.queueLen {
        DisplayedCore(t, r);
      } else {
        CheckCore(t);
      }
    }
  }

  lemma DisplayedCore(s: Session, r: Result)
    requires Displayed(s, r) && Pending(r.s)
    ensures SameCore(s, r.s)
  {
    hide Showing, Agree, IsChange, CheckOutputIndexState;
    CheckCore(End(s));
    assert SameCore(End(s), r.s) ==> SameCore(s, r.s);
  }

  lemma CheckCore(s: Session)
    ensures var r := CheckOutputIndexState(s); Pending(r.s) ==> SameCore(s, r.s)
  {
    hide ZeroContext;
  }

  lemma NoneOverlong(env: Env, s: Session)
    requires AllFit(env, s) && s.ctx.confirmedOutputs < |s.log.decoded|
    ensures !ShowsOverlong(env, s.ctx.changes, s.ctx.p, Remaining(s))
  {
    hide Overlong;
  }

  /** One choice at a safe place, with amounts that fit. */
  lemma SafeChoice(env: Env, s: Session, yes: bool)
    requires Reached(env, s) && Pending(s) && SafeCuts(s) && AllFit(env, s)
    ensures Enabled(s, UserChoice(yes))
    ensures var r := Step(env, s, UserChoice(yes));
            !r.s.flow.Stopped? && (Pending(r.s) ==> SafeCuts(r.s) && AllFit(env, r.s))
  {
    hide Reached, Inv, ConfirmOutput, SafeCuts, AllFit, Core, Showing, SkipsAhead, ZeroContext;
    if s.flow == ShowOutput {
      ReachedKeeps(env, s);
      SafeStaysInQueue(env, s);
      ChoiceStopsExactly(env, s, yes);
      NoneOverlong(env, s);
      if yes {
        ChoiceKeepsCore(env, s);
        var t := ConfirmOutput(env, s, true).s;
        if Pending(t) {
          CoreKept(env, s, t);
          FitKept(env, s, t);
        }
      } else {
        DenyIs(env, s);
      }
    }
  }

  lemma FitKept(env: Env, s: Session, t: Session)
    requires SameCore(s, t) && AllFit(env, s)
    ensures AllFit(env, t)
  {
    hide Overlong;
  }

  lemma {:induction false} AnswersRunOn(env: Env, s: Session, choices: seq<bool>)
    requires Reached(env, s) && !s.flow.Stopped? && (Pending(s) ==> SafeCuts(s) && AllFit(env, s))
    ensures !Answer(env, s, choices).s.flow.Stopped?
    decreases |choices|
  {
    hide Reached, Step, SafeCuts, AllFit, Enabled;
    if choices != [] && Pending(s) {
      SafeChoice(env, s, choices[0]);
      ReachedStep(env, s, UserChoice(choices[0]));
      AnswersRunOn(env, Step(env, s, UserChoice(choices[0])).s, choices[1..]);
    }
  }

  /** One response per data command, without exception: if every command has ended at a safe place, no
      change check throws, the token array does not overflow and the amounts fit the screen, exactly one
      status word follows, at once or after at most one choice for each queued output and a final one. */
  lemma AlwaysAnswered(env: Env, s: Session, chunk: nat, cdata: seq<byte>, r: Result, choices: seq<bool>)
    requires Reached(env, s) && Enabled(s, DataCommand(chunk, cdata)) && r == Step(env, s, DataCommand(chunk, cdata))
    requires Loading(s, chunk, cdata).Some? ==>
               forall why: Stop :: !StopsFor(env, Loading(s, chunk, cdata).value, why)
    requires Pending(r.s) ==> SafeCuts(r.s) && AllFit(env, r.s)
    requires |choices| >= if SafeCut(r.s.ctx.changes, r.s.ctx.p.currentOutput) then r.s.ctx.queueLen + 1 else 12
    ensures var a := Answer(env, r.s, choices);
            |r.replies| + |a.replies| == 1 && AllStatus(r.replies) && AllStatus(a.replies)
    ensures !Pending(Answer(env, r.s, choices).s) && !Answer(env, r.s, choices).s.flow.Stopped?
  {
    hide Reached, Step, Loading, StopsFor, SafeCuts, AllFit, Answer, SafeCut, Enabled;
    if r.s.flow.Stopped? {
      DataStopsExactly(env, s, chunk, cdata, r.s.flow.why);
    }
    ReachedStep(env, s, DataCommand(chunk, cdata));
    AnswersRunOn(env, r.s, choices);
    OneResponse(env, s, chunk, cdata, choices);
  }
}
