/** That a good run succeeds: a valid transaction, cut at safe places, whose outputs can be shown and
    are all approved, is approved as a whole. */
module GoodRuns {
  import opened Common
  import opened ChangeInfo
  import opened Deserialize
  import opened Decoder
  import opened Screens
  import opened Session
  import opened Confirmation
  import opened Runs
  import opened Theorems
  import opened Stops

  // ---- Showing and approving ----

  /** The output can be shown. */
  ghost predicate Showable(env: Env, p: Progress, o: TxOutput) {
    env.checksum(o.wire.pubkeyHash).Some? && !Overlong(env, p, o)
  }

  ghost predicate AllShowable(env: Env, p: Progress, outs: seq<TxOutput>) {
    forall i :: 0 <= i < |outs| ==> Showable(env, p, outs[i])
  }

  /** Waiting for the next command of the transaction, or approved. */
  predicate Landed(s: Session) {
    || (s.flow == Menu && s.ctx.state == StateRecvData)
    || (s.flow == Processing && s.ctx.state == StateApproved)
  }

  lemma CheckLands(s: Session)
    requires s.ctx.displayIndex == s.ctx.queueLen && s.ctx.signing && s.ctx.state == StateRecvData
    ensures var t := CheckOutputIndexState(s).s; SameCore(s, t) && (Pending(t) || Landed(t))
  {
  }

  lemma DisplayLands(env: Env, s: Session)
    requires Agree(s) && Core(env, s) && s.ctx.p.outputsLen > 0 && s.ctx.state == StateRecvData
    requires s.ctx.displayIndex < s.ctx.queueLen && !s.flow.Stopped?
    requires AllShowable(env, s.ctx.p, s.log.decoded)
    ensures var t := DisplayTxOutputs(env, s).s; SameCore(s, t) && (Pending(t) || Landed(t))
  {
    hide CheckOutputIndexState, NonChange, IsChange, SkipChangeOutputs, SymbolOf, Agree, AmountFits, Core, FirstPlain;
    CheckWithinQueue(s);
    SkipAgrees(s);
    SkipOnlyEnds(s);
    var r := SkipChangeOutputs(s);
    CoreSigning(env, s);
    if r.done {
      DoneShowsNothing(env, r);
      CheckLands(End(s));
      assert SameCore(End(s), r.s) ==> SameCore(s, r.s);
    } else {
      ShowingBounds(r.s);
      ShownIsNext(r.s);
      AgreeLength(r.s);
      assert Showable(env, s.ctx.p, s.log.decoded[r.s.ctx.confirmedOutputs]);
      CoreKept(env, s, r.s);
      CoreStream(env, r.s);
      SymbolKnown(env, r.s, r.s.ctx.confirmedOutputs);
    }
  }

  lemma CoreSigning(env: Env, s: Session)
    requires Core(env, s)
    ensures s.ctx.signing
  {
  }

  lemma ConfirmLands(env: Env, s: Session)
    requires Core(env, s) && s.ctx.p.outputsLen > 0 && s.ctx.state == StateRecvData && s.flow == ShowOutput
    requires Showing(s) && !SkipsAhead(s) && AllShowable(env, s.ctx.p, s.log.decoded)
    ensures s.ctx.displayIndex < |s.ctx.outputs|
    ensures var t := ConfirmOutput(env, s, true).s; SameCore(s, t) && (Pending(t) || Landed(t))
  {
    hide Agree, IsChange, NonChange, CheckOutputIndexState, SkipChangeOutputs, DisplayTxOutputs, Core, AllShowable;
    ApproveAgrees(s);
    var t := Approve(s);
    CoreKept(env, s, t);
    AgreeCounts(t);
    CoreSigning(env, t);
    if t.ctx.displayIndex < t.ctx.queueLen {
      SkipTwice(env, t);
      DisplayLands(env, t);
      assert SameCore(t, DisplayTxOutputs(env, t).s) ==> SameCore(s, DisplayTxOutputs(env, t).s);
    } else {
      ConfirmAgrees(env, s);
      CheckLands(t);
    }
  }

  lemma YesLands(env: Env, s: Session)
    requires Reached(env, s) && Pending(s) && SafeCuts(s) && AllShowable(env, s.ctx.p, s.log.decoded)
    ensures Enabled(s, UserChoice(true))
    ensures var t := Step(env, s, UserChoice(true)).s; SameCore(s, t) && (Pending(t) || Landed(t))
  {
    hide Reached, Inv, ConfirmOutput, SafeCuts, AllShowable, Core, Showing, SkipsAhead;
    if s.flow == ShowOutput {
      ReachedKeeps(env, s);
      AskingOrPast(env, s);
      SafeStaysInQueue(env, s);
      ConfirmLands(env, s);
    }
  }

  function Yes(n: nat): (choices: seq<bool>)
    ensures |choices| == n && forall i :: 0 <= i < n ==> choices[i]
  {
    if n == 0 then [] else [true] + Yes(n - 1)
  }

  /** Approving everything ends at a reached session that waits for the next command, or in approval. */
  lemma {:induction false} AllYes(env: Env, s: Session, n: nat)
    requires Reached(env, s)
    requires || (Pending(s) && SafeCuts(s) && AllShowable(env, s.ctx.p, s.log.decoded) && n >= Measure(s))
             || Landed(s)
    ensures var t := Answer(env, s, Yes(n)).s; Reached(env, t) && Landed(t) && SameCore(s, t)
    decreases n
  {
    hide Reached, Inv, Step, Measure, SafeCuts, AllShowable, Enabled;
    if Pending(s) {
      ReachedKeeps(env, s);
      MeasurePositive(env, s);
      ChoiceProgress(env, s, true);
      YesLands(env, s);
      ReachedStep(env, s, UserChoice(true));
      var t := Step(env, s, UserChoice(true)).s;
      SafeCutsKept(s, t);
      assert Yes(n)[1..] == Yes(n - 1);
      AllYes(env, t, n - 1);
      assert SameCore(t, Answer(env, t, Yes(n - 1)).s) ==> SameCore(s, Answer(env, t, Yes(n - 1)).s);
    }
  }

  lemma SafeCutsKept(s: Session, t: Session)
    requires SameCore(s, t)
    ensures SafeCuts(t) == SafeCuts(s)
  {
    hide IsChange;
  }

  // ---- One command ----

  /** What a command has led to: `u` is `t` with its buffer decoded, every cut safe, and landed or asking. */
  ghost predicate Carried(t: Session, u: Session, d: Drained) {
    && d.Ready? && u.ctx.hashed == t.ctx.hashed && u.ctx.changes == t.ctx.changes && u.log.whole == t.log.whole
    && u.ctx.p == d.p && SafeCuts(u)
    && u.log.decoded == t.log.decoded + OutputsOf(d.es, t.ctx.p.currentOutput)
  }

  lemma DecodeLands(env: Env, t: Session, before: seq<Element>)
    requires Loaded(env, t, before) && t.ctx.p.outputsLen > 0
    requires var d := Drain(env, t.ctx.changes, t.ctx.p, t.ctx.buffer);
             && d.Ready? && SafeCut(t.ctx.changes, d.p.currentOutput)
             && AllShowable(env, d.p, t.log.decoded + OutputsOf(d.es, t.ctx.p.currentOutput))
    ensures var u := DecodeAndShow(env, t).s;
            && Carried(t, u, Drain(env, t.ctx.changes, t.ctx.p, t.ctx.buffer))
            && (Pending(u) || Landed(u))
  {
    hide PeelOne, Drain, DecodeElements, IsChange, OutputsOf, Agree, DisplayTxOutputs, Unread, Core, Settled,
         AllShowable, SafeCuts, SafeCut;
    DecodesLikeOneShot(env, t);
    var u := DecodeElements(env, t).s;
    AbsorbedCore(env, t, u, before);
    AbsorbedAgrees(env, t, u, before);
    if u.ctx.queueLen != 0 {
      NotedAgrees(env, u);
      LastCutSafe(Noted(u));
      DisplayLands(env, Noted(u));
      SafeCutsKept(Noted(u), DisplayTxOutputs(env, Noted(u)).s);
    }
  }

  /** A data command and nothing but approvals. */
  function Send(env: Env, s: Session, chunk: nat, cdata: seq<byte>): Session
    requires Enabled(s, DataCommand(chunk, cdata))
  {
    Answer(env, Step(env, s, DataCommand(chunk, cdata)).s, Yes(12)).s
  }

  /** Where a run of such commands is, with the bytes `h` hashed: the stream decodes, and all is safe. */
  ghost predicate Underway(env: Env, changes: seq<Change>, h: seq<byte>, s: Session) {
    && Reached(env, s) && Landed(s) && SafeCuts(s) && s.log.whole && s.ctx.p.outputsLen > 0
    && s.ctx.hashed == h && s.ctx.changes == changes
  }

  lemma SendLands(env: Env, s: Session, chunk: nat, cdata: seq<byte>, t: Session)
    requires Reached(env, s) && Enabled(s, DataCommand(chunk, cdata)) && Loading(s, chunk, cdata) == Some(t)
    requires t.ctx.p.outputsLen > 0 && t.log.whole
    requires var d := Drain(env, t.ctx.changes, t.ctx.p, t.ctx.buffer);
             && d.Ready? && SafeCut(t.ctx.changes, d.p.currentOutput) && d.p.outputsLen > 0
             && AllShowable(env, d.p, t.log.decoded + OutputsOf(d.es, t.ctx.p.currentOutput))
    ensures Underway(env, t.ctx.changes, t.ctx.hashed, Send(env, s, chunk, cdata))
  {
    hide Reached, Inv, Data, Loading, DecodeAndShow, Drain, OutputsOf, SafeCuts, SafeCut, AllShowable, Enabled, Loaded,
         Measure;
    ReachedKeeps(env, s);
    LoadingDecodes(env, s, chunk, cdata);
    var before := LoadingLoads(env, s, chunk, cdata);
    DecodeLands(env, t, before);
    var u := DecodeAndShow(env, t).s;
    assert u == Step(env, s, DataCommand(chunk, cdata)).s;
    ReachedStep(env, s, DataCommand(chunk, cdata));
    if Pending(u) {
      ReachedKeeps(env, u);
      MeasureAtMost(env, u);
      AskingTen(env, u);
    }
    AllYes(env, u, 12);
    SafeCutsKept(u, Send(env, s, chunk, cdata));
  }

  lemma AskingTen(env: Env, s: Session)
    requires Inv(env, s) && Pending(s)
    ensures Measure(s) <= 12
  {
    hide Inv, Asking, AskingPast, IsChange;
    if s.flow == ShowOutput {
      AskingOrPast(env, s);
      if Asking(s) {
        AskingInQueue(s);
      }
    }
  }

  // ---- The stream of a valid transaction ----

  /** The decoder's progress when all of the transaction has been received. */
  function Received(tx: Tx): Progress {
    Progress(0, 0, |tx.outputs|, tx.tokens, |tx.outputs|)
  }

  /** Every output of the transaction can be shown. */
  ghost predicate TxShowable(env: Env, tx: Tx) {
    AllShowable(env, Received(tx), AllOutputs(tx.outputs, 0))
  }

  lemma {:induction false} ReceivedAll(p: Progress, tx: Tx)
    requires p.remainingTokens == |tx.tokens| && p.remainingInputs == |tx.inputs|
    ensures ProgressAfter(p, Elements(tx)).tokens == p.tokens + tx.tokens
    decreases |tx.tokens| + |tx.inputs| + |tx.outputs|
  {
    if tx == Tx([], [], []) {
      assert p.tokens + [] == p.tokens;
    } else {
      var (e, rest) := Split(tx);
      assert Elements(tx) == [e] + Elements(rest) && Elements(tx)[1..] == Elements(rest);
      ReceivedAll(Advance(p, e), rest);
      if tx.tokens != [] {
        assert (p.tokens + [tx.tokens[0]]) + tx.tokens[1..] == p.tokens + tx.tokens;
      }
    }
  }

  /** With no token outstanding the tokens stay as they are. */
  lemma {:induction false} TokensStay(env: Env, changes: seq<Change>, p: Progress, es: seq<Element>)
    requires Legal(env, changes, p, es) && p.remainingTokens == 0
    ensures ProgressAfter(p, es).tokens == p.tokens
    decreases |es|
  {
    hide FindToken, CheckChange, Encodable;
    if es != [] {
      FitsAllowed(env, changes, p, es[0]);
      TokensStay(env, changes, Advance(p, es[0]), es[1..]);
    }
  }

  /** The first part of a valid transaction decodes, and what it holds can be shown. */
  lemma PrefixDecodes(env: Env, changes: seq<Change>, tx: Tx, a: seq<byte>, b: seq<byte>)
    requires ValidTx(env, changes, tx) && |tx.outputs| > 0 && Body(tx) == a + b && TxShowable(env, tx)
    ensures var d := Drain(env, changes, Start(|tx.tokens|, |tx.inputs|, |tx.outputs|), a);
            && d.Ready? && d.p.outputsLen == |tx.outputs| && AllShowable(env, d.p, OutputsOf(d.es, 0))
            && (b != [] ==> !Complete(d.p)) && (b == [] ==> Complete(d.p))
  {
    hide ValidTx, Drain, OutputsOf, AllShowable, Elements, StreamBytes, AllOutputs, PeelOne;
    var p := Start(|tx.tokens|, |tx.inputs|, |tx.outputs|);
    var d := Drain(env, changes, p, a);
    var whole := Drain(env, changes, p, a + b);
    TransactionIsComplete(env, changes, tx);
    OutputsOfTx(tx, 0);
    ReceivedAll(p, tx);
    assert p.tokens + tx.tokens == tx.tokens;
    ReadyMeans(env, changes, p, a + b);
    if b == [] {
      assert a + b == a;
      OutputsCounted(env, changes, p, a);
      SameTokens(env, Received(tx), d.p, OutputsOf(d.es, 0));
    } else {
      SplitOnce(env, changes, p, a, b);
      OutputsCounted(env, changes, p, a);
      ReadyMeans(env, changes, p, a);
      var rest := Drain(env, changes, d.p, d.rest + b);
      ReadyMeans(env, changes, d.p, d.rest + b);
      OutputsOfConcat(d.es, rest.es, 0);
      NotYetComplete(env, changes, d.p, d.rest + b);
      OutputsLast(env, changes, p, d.es);
      PartShowable(env, Received(tx), OutputsOf(d.es, 0), OutputsOf(rest.es, |OutputsOf(d.es, 0)|));
      if OutputsOf(d.es, 0) == [] {
        NothingShowable(env, d.p);
      } else {
        TokensStay(env, changes, d.p, rest.es);
        SameTokens(env, Received(tx), d.p, OutputsOf(d.es, 0));
      }
    }
  }

  lemma NotYetComplete(env: Env, changes: seq<Change>, p: Progress, b: seq<byte>)
    requires Drain(env, changes, p, b).Ready?
    ensures !Complete(p)
  {
    hide ParseBytes, CheckChange, FindToken;
  }

  lemma PartShowable(env: Env, p: Progress, x: seq<TxOutput>, y: seq<TxOutput>)
    requires AllShowable(env, p, x + y)
    ensures AllShowable(env, p, x)
  {
    hide Showable;
    forall i | 0 <= i < |x|
      ensures Showable(env, p, x[i])
    {
      assert (x + y)[i] == x[i];
    }
  }

  lemma NothingShowable(env: Env, p: Progress)
    ensures AllShowable(env, p, [])
  {
  }

  lemma SameTokens(env: Env, p: Progress, q: Progress, outs: seq<TxOutput>)
    requires p.tokens == q.tokens && AllShowable(env, p, outs)
    ensures AllShowable(env, q, outs)
  {
    hide AmountFits;
  }

  // ---- The whole run ----

  /** How many outputs are decoded when the bytes `h` have been hashed. */
  ghost function CountAt(env: Env, changes: seq<Change>, h: seq<byte>): nat
    requires |h| >= 5
  {
    var d := Drain(env, changes, Start(h[2], h[3], h[4]), h[5..]);
    if d.Ready? then d.p.currentOutput else 0
  }

  /** Behind `h` the stream goes on in these pieces, each of which ends at a safe place. */
  ghost predicate SafePieces(env: Env, changes: seq<Change>, h: seq<byte>, pieces: seq<seq<byte>>)
    requires |h| >= 5
    decreases |pieces|
  {
    pieces == [] ||
    (&& 1 <= |pieces[0]| <= 255 && SafeCut(changes, CountAt(env, changes, h + pieces[0]))
     && SafePieces(env, changes, h + pieces[0], pieces[1..]))
  }

  /** Every piece is sent, everything is approved. */
  function Deliver(env: Env, s: Session, pieces: seq<seq<byte>>): Session
    decreases |pieces|
  {
    if pieces == [] || !Enabled(s, DataCommand(1, pieces[0])) then s
    else Deliver(env, Send(env, s, 1, pieces[0]), pieces[1..])
  }

  /** The header announces what the transaction has. */
  predicate Announces(h: seq<byte>, tx: Tx) {
    |h| >= 5 && h[2] == |tx.tokens| && h[3] == |tx.inputs| && h[4] == |tx.outputs| > 0
  }

  /** A landed session is approved exactly when nothing of the transaction is outstanding. */
  lemma LandedWhere(env: Env, changes: seq<Change>, tx: Tx, h: seq<byte>, rest: seq<byte>, s: Session)
    requires Announces(h, tx) && h[5..] + rest == Body(tx)
    requires Underway(env, changes, h, s) && ValidTx(env, changes, tx) && TxShowable(env, tx)
    ensures s.ctx.state == StateApproved <==> rest == []
    ensures rest != [] ==> s.flow == Menu && s.ctx.state == StateRecvData
    ensures Stream(env, s)
  {
    hide Reached, Inv, ValidTx, TxShowable, Drain, OutputsOf, AllShowable, PeelOne, Body, SafeCuts, Finished;
    PrefixDecodes(env, changes, tx, h[5..], rest);
    ReachedKeeps(env, s);
    OpenHasStream(env, s);
    if s.ctx.state == StateApproved {
      FinishedWhenApproved(env, s);
      FinishedIsComplete(s);
      CompleteSession(env, s);
    } else {
      OutputsOutstanding(env, s);
    }
  }

  lemma FinishedIsComplete(s: Session)
    requires Finished(s) && SafeCuts(s)
    ensures s.ctx.p.currentOutput == s.ctx.p.outputsLen > 0
  {
  }

  lemma OutputsOutstanding(env: Env, s: Session)
    requires Inv(env, s) && s.flow == Menu && s.ctx.state == StateRecvData && s.ctx.p.outputsLen > 0
    ensures s.ctx.p.currentOutput < s.ctx.p.outputsLen && Settled(s)
  {
    hide Core, Agree, SafeCuts;
  }

  lemma {:induction false} DeliverRest(env: Env, changes: seq<Change>, tx: Tx, h: seq<byte>, s: Session,
                                       pieces: seq<seq<byte>>)
    requires Announces(h, tx) && h[5..] + Flatten(pieces) == Body(tx) && SafePieces(env, changes, h, pieces)
    requires Underway(env, changes, h, s) && ValidTx(env, changes, tx) && TxShowable(env, tx)
    ensures Underway(env, changes, h + Flatten(pieces), Deliver(env, s, pieces))
    ensures Deliver(env, s, pieces).ctx.state == StateApproved
    decreases |pieces|
  {
    hide Underway, ValidTx, TxShowable, Body, Send, Enabled;
    LandedWhere(env, changes, tx, h, Flatten(pieces), s);
    if pieces == [] {
      assert h + [] == h;
    } else {
      var piece := pieces[0];
      assert Flatten(pieces) == piece + Flatten(pieces[1..]);
      PieceLands(env, changes, tx, h, s, piece, Flatten(pieces[1..]));
      assert (h + piece)[5..] == h[5..] + piece;
      DeliverRest(env, changes, tx, h + piece, Send(env, s, 1, piece), pieces[1..]);
      assert (h + piece) + Flatten(pieces[1..]) == h + Flatten(pieces);
    }
  }

  lemma PieceLands(env: Env, changes: seq<Change>, tx: Tx, h: seq<byte>, s: Session, piece: seq<byte>,
                   rest: seq<byte>)
    requires Announces(h, tx) && h[5..] + (piece + rest) == Body(tx) && 1 <= |piece| <= 255
    requires SafeCut(changes, CountAt(env, changes, h + piece))
    requires Underway(env, changes, h, s) && ValidTx(env, changes, tx) && TxShowable(env, tx)
    ensures Enabled(s, DataCommand(1, piece)) && Underway(env, changes, h + piece, Send(env, s, 1, piece))
  {
    hide ValidTx, TxShowable, Body, Drain, OutputsOf, AllShowable, SafeCut, SafeCuts, Reached, Send, Agree, IsChange,
         PeelOne;
    LandedWhere(env, changes, tx, h, piece + rest, s);
    assert (h + piece)[5..] == h[5..] + piece;
    assert (h[5..] + piece) + rest == Body(tx);
    PrefixDecodes(env, changes, tx, h[5..] + piece, rest);
    var p := Start(h[2], h[3], h[4]);
    SplitOnce(env, changes, p, h[5..], piece);
    ReachedKeeps(env, s);
    OutputsOutstanding(env, s);
    SettledQueue(s);
    LeftoverShort(env, s);
    var t := Loading(s, 1, piece).value;
    var d, a := Drain(env, changes, p, h[5..]), Drain(env, changes, t.ctx.p, t.ctx.buffer);
    OutputsCounted(env, changes, p, h[5..]);
    OutputsOfConcat(d.es, a.es, 0);
    SendLands(env, s, 1, piece, t);
  }

  lemma SettledQueue(s: Session)
    requires Settled(s)
    ensures s.ctx.displayIndex == s.ctx.queueLen
  {
  }

  /** The first chunk: the change entries, the header and the first part of the transaction. */
  lemma FirstPieceLands(env: Env, changes: seq<Change>, tx: Tx, first: seq<byte>, rest: seq<byte>)
    requires Announces(first, tx) && first[5..] + rest == Body(tx)
    requires AllSerializable(changes) && Acceptable(changes) && |V1Bytes(changes) + first| <= 255
    requires SafeCut(changes, CountAt(env, changes, first))
    requires ValidTx(env, changes, tx) && TxShowable(env, tx)
    ensures Enabled(Idle(), DataCommand(0, V1Bytes(changes) + first))
    ensures Underway(env, changes, first, Send(env, Idle(), 0, V1Bytes(changes) + first))
  {
    hide ValidTx, TxShowable, Body, Drain, OutputsOf, AllShowable, SafeCut, Send, Read, V1Bytes, Reached, Underway;
    PrefixDecodes(env, changes, tx, first[5..], rest);
    V1RoundTrip(changes, first);
    ReachedIdle(env);
    var t := Session(Opened(changes, first).(buffer := first[5..]), Menu, BEGUN);
    assert [] + OutputsOf(Drain(env, changes, t.ctx.p, t.ctx.buffer).es, 0)
        == OutputsOf(Drain(env, changes, t.ctx.p, t.ctx.buffer).es, 0);
    assert |V1Bytes(changes)| > 0 by { V1NotEmpty(changes); }
    SendLands(env, Idle(), 0, V1Bytes(changes) + first, t);
  }

  lemma V1NotEmpty(changes: seq<Change>)
    requires AllSerializable(changes)
    ensures |V1Bytes(changes)| > 0
  {
  }

  /** Without change entries every cut is safe. */
  lemma {:induction false} AnyCutWithoutChange(env: Env, h: seq<byte>, pieces: seq<seq<byte>>)
    requires |h| >= 5 && forall i :: 0 <= i < |pieces| ==> 1 <= |pieces[i]| <= 255
    ensures SafePieces(env, [], h, pieces)
    decreases |pieces|
  {
    hide CountAt;
    if pieces != [] {
      AnyCutWithoutChange(env, h + pieces[0], pieces[1..]);
    }
  }

  /** A good run succeeds: for every list of change entries the device accepts and every valid
      transaction with outputs that can be shown, cut behind its header at safe places into pieces that
      fit the commands, sending the pieces and approving everything leads to approval, with exactly the
      header and the transaction hashed. */
  lemma GoodRunApproves(env: Env, changes: seq<Change>, tx: Tx, first: seq<byte>, pieces: seq<seq<byte>>)
    requires Announces(first, tx) && first[5..] + Flatten(pieces) == Body(tx)
    requires AllSerializable(changes) && Acceptable(changes) && |V1Bytes(changes) + first| <= 255
    requires SafeCut(changes, CountAt(env, changes, first)) && SafePieces(env, changes, first, pieces)
    requires ValidTx(env, changes, tx) && TxShowable(env, tx)
    ensures Enabled(Idle(), DataCommand(0, V1Bytes(changes) + first))
    ensures var s := Deliver(env, Send(env, Idle(), 0, V1Bytes(changes) + first), pieces);
            && Reached(env, s) && s.flow == Processing && s.ctx.state == StateApproved && SafeCuts(s)
            && s.ctx.hashed == first + Flatten(pieces) && s.ctx.changes == changes
  {
    hide ValidTx, TxShowable, Body, SafeCut, SafeCuts, Send, V1Bytes, Reached, Deliver, Enabled;
    FirstPieceLands(env, changes, tx, first, Flatten(pieces));
    DeliverRest(env, changes, tx, first, Send(env, Idle(), 0, V1Bytes(changes) + first), pieces);
  }
}
