/** What it takes to be signed for: laws over the events of whole runs that do not speak of how the
    handlers work. */
module Consent {
  import opened Common
  import opened ChangeInfo
  import opened Decoder
  import opened Session
  import opened Confirmation
  import opened Runs
  import opened Theorems
  import opened Stops
  import opened Answers
  import Bip32

  // ---- Which events lead to approval ----

  /** The first chunk of a transaction. */
  predicate Opens(e: Event) {
    e.DataCommand? && e.chunk == 0
  }

  /** A later chunk, an approval, or a request for a signature, which is refused before approval. */
  predicate Continues(e: Event) {
    (e.DataCommand? && e.chunk > 0) || e == UserChoice(true) || e.SignCommand?
  }

  /** The end of the session, quitting, or a refusal by the user. */
  predicate Closes(e: Event) {
    e.DoneCommand? || e.UserQuit? || e == UserChoice(false)
  }

  /** A step that does not stop leaves the approved state exactly when it is a sign command there, or
      the answer yes to the final question. */
  lemma ApprovedBy(env: Env, s: Session, e: Event)
    requires Reached(env, s) && Enabled(s, e) && !Step(env, s, e).s.flow.Stopped?
    ensures Step(env, s, e).s.ctx.state == StateApproved <==>
            || (s.ctx.state == StateApproved && e.SignCommand?)
            || (s.flow == ConfirmTx && e == UserChoice(true))
  {
    hide Reached, Inv, Data, ConfirmOutput, Bip32.PathOf;
    ReachedKeeps(env, s);
    StepKeeps(env, s, e);
    NotProcessing(env, Step(env, s, e).s);
    match e
    case DataCommand(chunk, cdata) => DataFlow(env, s, chunk, cdata);
    case UserChoice(yes) => if s.flow != ConfirmTx { ConfirmFlow(env, s, yes); }
    case _ =>
  }

  lemma DataFlow(env: Env, s: Session, chunk: nat, cdata: seq<byte>)
    requires Inv(env, s) && Enabled(s, DataCommand(chunk, cdata))
    ensures Data(env, s, chunk, cdata).s.flow != Processing
  {
    hide Inv, DecodeAndShow, Read;
    ReadyForData(env, s);
    LoadingDecodes(env, s, chunk, cdata);
    if Loading(s, chunk, cdata).Some? {
      DecodeFlow(env, Loading(s, chunk, cdata).value);
    }
  }

  lemma DecodeFlow(env: Env, s: Session)
    requires s.flow == Menu
    ensures DecodeAndShow(env, s).s.flow != Processing
  {
    hide PeelOne, PrepareDisplayOutput, Take;
    DecodeKeepsFlow(env, s);
    var d := DecodeElements(env, s);
    if d.DecodedAll? {
      PrepareOnlyEnds(env, Noted(d.s));
    }
  }

  lemma {:induction false} DecodeKeepsFlow(env: Env, s: Session)
    ensures DecodeElements(env, s).DecodedAll? ==> DecodeElements(env, s).s.flow == s.flow
    decreases |s.ctx.buffer|
  {
    hide PeelOne;
    var peel := PeelOne(env, s.ctx.changes, s.ctx.p, s.ctx.buffer);
    if peel.Peeled? {
      ElementSize(env, s.ctx.changes, s.ctx.p, s.ctx.buffer);
      if !(peel.e.Output? && s.ctx.queueLen >= |s.ctx.outputs|) {
        DecodeKeepsFlow(env, Take(s, peel.e, peel.size));
      }
    }
  }

  lemma ConfirmFlow(env: Env, s: Session, yes: bool)
    requires s.flow == ShowOutput && s.ctx.displayIndex < |s.ctx.outputs|
    ensures ConfirmOutput(env, s, yes).s.flow != Processing
  {
    hide SkipChangeOutputs, PrepareDisplayOutput;
    SkipOnlyEnds(Approve(s));
    PrepareOnlyEnds(env, SkipChangeOutputs(Approve(s)).s);
  }

  /** A step that does not stop leaves a receiving state only from the first chunk, where none is being
      received, or by going on there. */
  lemma ReceivingBy(env: Env, s: Session, e: Event)
    requires Reached(env, s) && Enabled(s, e) && !Step(env, s, e).s.flow.Stopped?
    requires Receiving(Step(env, s, e).s)
    ensures (Opens(e) && s.ctx.state == StateNone) || (Continues(e) && Receiving(s))
  {
    hide Reached, Inv, NextChunk, DecodeAndShow, Read, Bip32.PathOf;
    ReachedKeeps(env, s);
    NotProcessing(env, s);
    if e.UserChoice? && s.flow != ConfirmTx && e == UserChoice(false) {
      DenyIs(env, s);
    }
  }

  // ---- What a step does to the bytes hashed and the change entries ----

  /** Afterwards the session holds what it held before and the data sent, or only that of a first chunk. */
  lemma HoldsStep(env: Env, s: Session, e: Event)
    requires Reached(env, s) && Enabled(s, e)
    requires var t := Step(env, s, e).s; !t.flow.Stopped? && (Receiving(t) || t.ctx.state == StateApproved)
    ensures var t := Step(env, s, e).s;
            if Opens(e) then Holds(t, FirstBytes(e.cdata), FirstChanges(e.cdata))
            else Holds(t, s.ctx.hashed + Payload(e), s.ctx.changes)
  {
    hide Reached, Data, DataEnding, ConfirmOutput, SignWithKey, Bip32.PathOf, Read, AskedInQueue;
    assert s.ctx.hashed + [] == s.ctx.hashed;
    match e
    case DataCommand(chunk, cdata) => DataAnswers(env, s, chunk, cdata);
    case UserChoice(yes) => ChoiceHolds(env, s, yes);
    case SignCommand(cdata) =>
      if Bip32.PathOf(cdata).Some? {
        SigningHolds(env, QueueReset(s), Bip32.PathOf(cdata).value);
      }
    case _ =>
  }

  lemma ChoiceHolds(env: Env, s: Session, yes: bool)
    requires Reached(env, s) && Enabled(s, UserChoice(yes))
    requires var t := Step(env, s, UserChoice(yes)).s;
             !t.flow.Stopped? && (Receiving(t) || t.ctx.state == StateApproved)
    ensures Holds(Step(env, s, UserChoice(yes)).s, s.ctx.hashed, s.ctx.changes)
  {
    hide Reached, ConfirmOutput, QueueEnding, Inv, Idle;
    ChoiceWords(env, s, yes);
    if AskedInQueue(s) {
      ChoiceAnswers(env, s, yes);
    } else if yes {
      ChoiceBeyond(env, s);
    }
  }

  lemma SigningHolds(env: Env, s: Session, path: seq<nat>)
    ensures Holds(SignWithKey(env, s, path).s, s.ctx.hashed, s.ctx.changes)
  {
  }

  // ---- Runs ----

  /** The events can happen, and then the final question is asked. */
  ghost predicate FinalQuestion(env: Env, events: seq<Event>) {
    Admissible(env, Idle(), events) && Exec(env, Idle(), events).flow == ConfirmTx
  }

  /** What the data commands of a run have sent since the first chunk at `i`, without the change
      information in front. */
  function Sent(events: seq<Event>, i: int): seq<byte>
    requires 0 <= i < |events| && Opens(events[i])
    decreases |events|
  {
    var n := |events| - 1;
    if n == i then FirstBytes(events[i].cdata) else Sent(events[..n], i) + Payload(events[n])
  }

  function Payload(e: Event): seq<byte> {
    if e.DataCommand? then e.cdata else []
  }

  /** From a first chunk at `i` on the events have only gone on, at no point since has the session been
      closed, by a refusal or otherwise, and it holds what has been sent. */
  ghost predicate ReceivedSince(env: Env, events: seq<Event>, i: int) {
    && Admissible(env, Idle(), events) && 0 <= i < |events| && Opens(events[i])
    && (forall j :: i < j < |events| ==> Continues(events[j]))
    && (forall j :: i < j <= |events| ==> ReceivingAfter(env, events, j))
    && Holds(Exec(env, Idle(), events), Sent(events, i), FirstChanges(events[i].cdata))
  }

  ghost predicate ReceivingAfter(env: Env, events: seq<Event>, j: nat)
    requires j <= |events|
  {
    Admissible(env, Idle(), events[..j]) && Receiving(Exec(env, Idle(), events[..j]))
  }

  /** The first chunk at `i`, then only what goes on, the final question answered with yes at `k`, and
      then only sign commands; the session still holds what was sent before the question. */
  ghost predicate GrantedAt(env: Env, events: seq<Event>, i: int, k: int) {
    && Admissible(env, Idle(), events) && 0 <= k < |events| && ReceivedSince(env, events[..k], i)
    && FinalQuestion(env, events[..k]) && events[k] == UserChoice(true)
    && (forall j :: k < j < |events| ==> events[j].SignCommand?)
    && Holds(Exec(env, Idle(), events), Sent(events[..k], i), FirstChanges(events[i].cdata))
  }

  lemma {:induction false} LastEvent(env: Env, s: Session, events: seq<Event>)
    requires events != [] && Admissible(env, s, events)
    ensures var n := |events| - 1;
            && Admissible(env, s, events[..n]) && Enabled(Exec(env, s, events[..n]), events[n])
            && Exec(env, s, events) == Step(env, Exec(env, s, events[..n]), events[n]).s
    decreases |events|
  {
    hide Step, Enabled;
    var n := |events| - 1;
    if n == 0 {
      assert events[1..] == [] && events[..0] == [];
    } else {
      LastEvent(env, Step(env, s, events[0]).s, events[1..]);
      assert events[..n][1..] == events[1..][..n - 1] && events[..n][0] == events[0];
    }
  }

  /** What has happened in a run that has led to approval, and to a receiving state. */
  lemma {:induction false} ConsentHistory(env: Env, events: seq<Event>)
    requires Admissible(env, Idle(), events) && !Exec(env, Idle(), events).flow.Stopped?
    ensures Exec(env, Idle(), events).ctx.state == StateApproved ==> exists i, k :: GrantedAt(env, events, i, k)
    ensures Receiving(Exec(env, Idle(), events)) ==> exists i :: ReceivedSince(env, events, i)
    decreases |events|
  {
    hide Step, Enabled, Reached, ZeroContext, Admissible, Exec, Receiving, GrantedAt, ReceivedSince, Continues,
         Holds;
    if events == [] {
      NothingReceived(env);
    } else {
      var n := |events| - 1;
      var before, e := events[..n], events[n];
      LastEvent(env, Idle(), events);
      var s, t := Exec(env, Idle(), before), Exec(env, Idle(), events);
      ByReached(env, before);
      EnabledRuns(s, e);
      ConsentHistory(env, before);
      if t.ctx.state == StateApproved {
        ApprovedBy(env, s, e);
        HoldsStep(env, s, e);
        if s.ctx.state == StateApproved && e.SignCommand? {
          var i, k :| GrantedAt(env, before, i, k);
          StillGranted(env, before, events, i, k);
        } else {
          FinalIsReceiving(env, s);
          var i :| ReceivedSince(env, before, i);
          JustGranted(env, before, events, i);
        }
      }
      if Receiving(t) {
        ReceivingBy(env, s, e);
        HoldsStep(env, s, e);
        if Opens(e) {
          JustOpened(env, events);
        } else {
          var i :| ReceivedSince(env, before, i);
          StillReceived(env, before, events, i);
        }
      }
    }
  }

  /** The run `events` is `before` and one more event. */
  ghost predicate OneMore(env: Env, before: seq<Event>, events: seq<Event>) {
    && events != [] && before == events[..|events| - 1]
    && Admissible(env, Idle(), before) && Admissible(env, Idle(), events)
  }

  /** The session holds what it held before, and the payload of the last event. */
  ghost predicate HoldsMore(env: Env, before: seq<Event>, events: seq<Event>)
    requires OneMore(env, before, events)
  {
    var s := Exec(env, Idle(), before);
    Holds(Exec(env, Idle(), events), s.ctx.hashed + Payload(events[|before|]), s.ctx.changes)
  }

  lemma StillGranted(env: Env, before: seq<Event>, events: seq<Event>, i: int, k: int)
    requires OneMore(env, before, events) && HoldsMore(env, before, events)
    requires GrantedAt(env, before, i, k) && events[|before|].SignCommand?
    ensures GrantedAt(env, events, i, k)
  {
    hide Admissible, Exec, ZeroContext, ReceivedSince, Sent;
    ReceivedOpens(env, before[..k], i);
    assert events[..k] == before[..k];
    assert Exec(env, Idle(), before).ctx.hashed + [] == Exec(env, Idle(), before).ctx.hashed;
  }

  lemma ReceivedOpens(env: Env, events: seq<Event>, i: int)
    requires ReceivedSince(env, events, i)
    ensures 0 <= i < |events| && Opens(events[i])
  {
    hide Admissible, Exec, ZeroContext, Sent;
  }

  lemma JustGranted(env: Env, before: seq<Event>, events: seq<Event>, i: int)
    requires OneMore(env, before, events) && HoldsMore(env, before, events)
    requires ReceivedSince(env, before, i) && events[|before|] == UserChoice(true)
    requires Exec(env, Idle(), before).flow == ConfirmTx
    ensures GrantedAt(env, events, i, |before|)
  {
    hide Admissible, Exec, ZeroContext, Sent, ReceivingAfter;
    assert Exec(env, Idle(), before).ctx.hashed + [] == Exec(env, Idle(), before).ctx.hashed;
  }

  lemma JustOpened(env: Env, events: seq<Event>)
    requires Admissible(env, Idle(), events) && events != [] && Opens(events[|events| - 1])
    requires Receiving(Exec(env, Idle(), events))
    requires var e := events[|events| - 1]; Holds(Exec(env, Idle(), events), FirstBytes(e.cdata), FirstChanges(e.cdata))
    ensures ReceivedSince(env, events, |events| - 1)
  {
    hide Admissible, Exec, ZeroContext, Receiving, FirstBytes, FirstChanges;
    assert events[..|events|] == events;
  }

  lemma StillReceived(env: Env, before: seq<Event>, events: seq<Event>, i: int)
    requires OneMore(env, before, events) && HoldsMore(env, before, events)
    requires ReceivedSince(env, before, i) && Continues(events[|before|]) && Receiving(Exec(env, Idle(), events))
    ensures ReceivedSince(env, events, i)
  {
    hide Admissible, Exec, Receiving, ZeroContext, FirstBytes, FirstChanges;
    forall j | i < j <= |events|
      ensures ReceivingAfter(env, events, j)
    {
      if j < |events| {
        assert before[..j] == events[..j] && ReceivingAfter(env, before, j);
      } else {
        assert events[..j] == events;
      }
    }
  }

  lemma NothingReceived(env: Env)
    ensures Admissible(env, Idle(), []) && Exec(env, Idle(), []).ctx.state == StateNone
    ensures !Receiving(Exec(env, Idle(), []))
  {
    hide Step, Enabled;
  }

  lemma ByReached(env: Env, events: seq<Event>)
    requires Admissible(env, Idle(), events)
    ensures Reached(env, Exec(env, Idle(), events))
  {
    hide Admissible, Exec, ZeroContext;
  }

  lemma EnabledRuns(s: Session, e: Event)
    requires Enabled(s, e)
    ensures !s.flow.Stopped?
  {
  }

  lemma FinalIsReceiving(env: Env, s: Session)
    requires Reached(env, s) && s.flow == ConfirmTx
    ensures Receiving(s)
  {
    hide Reached, Inv;
    ReachedKeeps(env, s);
    NotProcessing(env, s);
  }

  lemma ClosedBefore(env: Env, events: seq<Event>, i: int, k: int, n: nat)
    requires GrantedAt(env, events, i, k) && n < |events| && Closes(events[n])
    ensures n < i
  {
    hide Admissible, Exec, ZeroContext, Sent, ReceivingAfter;
    assert n < k ==> events[..k][n] == events[n];
  }

  lemma HashedAtGrant(env: Env, events: seq<Event>, i: int, k: int)
    requires GrantedAt(env, events, i, k)
    ensures 0 <= i < k < |events| && Opens(events[i]) && Admissible(env, Idle(), events)
    ensures Exec(env, Idle(), events).ctx.hashed == Sent(events[..k], i)
  {
    hide Admissible, Exec, ZeroContext, Sent, ReceivingAfter;
    assert events[..k][i] == events[i];
  }

  /** No signature without consent: whatever run precedes a signature, a first chunk has been sent in it,
      then the run has only gone on to the final question, which the user has answered with yes, and only
      sign commands have followed; and the digest is that of what was sent from that first chunk to the
      question.  In particular no end of the session, no quitting and no refusal has happened since. */
  lemma SignatureNeedsConsent(env: Env, events: seq<Event>, cdata: seq<byte>, path: seq<nat>, digest: seq<byte>)
    requires Admissible(env, Idle(), events) && Enabled(Exec(env, Idle(), events), SignCommand(cdata))
    requires Signature(path, digest) in Step(env, Exec(env, Idle(), events), SignCommand(cdata)).replies
    ensures exists i, k :: ConsentTo(env, events, i, k, digest)
    ensures forall i, k :: ConsentTo(env, events, i, k, digest) ==>
                             forall n :: 0 <= n < |events| && Closes(events[n]) ==> n < i
  {
    hide Step, Enabled, Reached, Admissible, Exec, ZeroContext, GrantedAt, Opens, Closes, Sent;
    ByReached(env, events);
    SignaturesCoverApproval(env, Exec(env, Idle(), events), cdata);
    EnabledRuns(Exec(env, Idle(), events), SignCommand(cdata));
    ConsentHistory(env, events);
    var i, k :| GrantedAt(env, events, i, k);
    HashedAtGrant(env, events, i, k);
    assert events[..k][i] == events[i];
    assert ConsentTo(env, events, i, k, digest);
    forall i, k, n | ConsentTo(env, events, i, k, digest) && 0 <= n < |events| && Closes(events[n])
      ensures n < i
    {
      ClosedBefore(env, events, i, k, n);
    }
  }

  /** The user's yes at `k` was to the bytes sent since the first chunk at `i`, whose digest this is. */
  ghost predicate ConsentTo(env: Env, events: seq<Event>, i: int, k: int, digest: seq<byte>) {
    && GrantedAt(env, events, i, k) && 0 <= i < k && Opens(events[..k][i])
    && digest == env.sha256d(Sent(events[..k], i))
  }
}
