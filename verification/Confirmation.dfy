/** The confirmation half of the session: skipping change outputs, and the agreement between the
    output queue and the counters of two source files (src/ui/display.c, src/handler/sign_tx.c). */
module Confirmation {
  import opened Common
  import opened ChangeInfo
  import opened Decoder
  import opened Session
  import opened Screens
  import opened Sorting

  // ---- One pass over the sorted indices suffices ----

  lemma {:induction false} PassFindsNothing(s: Session, indices: seq<nat>)
    requires s.ctx.confirmedOutputs !in indices
    ensures SkipPass(s, indices) == Result(s, false, [])
    decreases |indices|
  {
    if indices != [] {
      PassFindsNothing(s, indices[1..]);
    }
  }

  /** The change outputs from the next one on are exactly those still listed. */
  ghost predicate Ahead(s: Session, indices: seq<nat>) {
    && (forall i: nat :: i in indices ==> i < 256 && IsChange(s.ctx.changes, i))
    && (forall i: nat :: IsChange(s.ctx.changes, i) && i >= s.ctx.confirmedOutputs ==> i in indices)
  }

  lemma CheckContinues(s: Session)
    requires !CheckOutputIndexState(s).done
    ensures CheckOutputIndexState(s) == Result(s, false, [])
    ensures s.ctx.confirmedOutputs != s.ctx.p.outputsLen && s.ctx.displayIndex != s.ctx.queueLen
  {
  }

  lemma AheadRest(s: Session, t: Session, indices: seq<nat>)
    requires indices != [] && Sorted(indices) && Ahead(s, indices)
    requires t.ctx.changes == s.ctx.changes
    requires t.ctx.confirmedOutputs > indices[0] && t.ctx.confirmedOutputs >= s.ctx.confirmedOutputs
    ensures Sorted(indices[1..]) && Ahead(t, indices[1..])
  {
    hide IsChange;
    assert indices == [indices[0]] + indices[1..];
    assert forall i: nat :: i in indices <==> i == indices[0] || i in indices[1..];
    assert forall i: nat :: i in indices[1..] ==> i in indices;
  }

  /** Going once through the sorted change indices skips exactly what skipping for as long as the
      next output is a change output skips: the indices behind the pass are all too small. */
  lemma {:induction false} SinglePassSuffices(s: Session, indices: seq<nat>)
    requires Sorted(indices) && s.ctx.confirmedOutputs < 256 && Ahead(s, indices)
    ensures SkipPass(s, indices) == SkipChangeOutputs(s)
    decreases |indices|
  {
    hide CheckOutputIndexState, IsChange, Ahead, Sorted;
    if indices == [] {
      NotAhead(s, indices);
    } else if indices[0] == s.ctx.confirmedOutputs {
      FirstAhead(s, indices);
      var t := NextOutput(s);
      if !CheckOutputIndexState(t).done {
        CheckContinues(t);
        if s.ctx.confirmedOutputs == 255 {
          NotAhead(t, indices);
          PassFindsNothing(t, indices[1..]);
        } else {
          AheadRest(s, t, indices);
          SinglePassSuffices(t, indices[1..]);
        }
      }
    } else if indices[0] < s.ctx.confirmedOutputs {
      AheadRest(s, s, indices);
      SinglePassSuffices(s, indices[1..]);
    } else {
      NotAhead(s, indices);
      PassFindsNothing(s, indices);
    }
  }

  lemma FirstAhead(s: Session, indices: seq<nat>)
    requires indices != [] && Ahead(s, indices)
    ensures IsChange(s.ctx.changes, indices[0]) && indices[0] < 256
  {
    assert indices[0] in indices;
  }

  lemma NotAhead(s: Session, indices: seq<nat>)
    requires Sorted(indices) && (indices != [] ==> s.ctx.confirmedOutputs < indices[0])
    ensures s.ctx.confirmedOutputs !in indices
    ensures Ahead(s, indices) ==> !IsChange(s.ctx.changes, s.ctx.confirmedOutputs)
  {
    hide IsChange;
  }

  // ---- The queue and the counters ----

  /** The outputs that are not announced as change. */
  function NonChange(changes: seq<Change>, outputs: seq<TxOutput>): seq<TxOutput> {
    if outputs == [] then []
    else
      var last := outputs[|outputs| - 1];
      NonChange(changes, outputs[..|outputs| - 1]) + (if IsChange(changes, last.index) then [] else [last])
  }

  /** The agreement: the queue from `displayIndex` on holds the decoded outputs that are not
      confirmed yet, in order, and the user has approved the confirmed ones that are not change. */
  ghost predicate Agree(s: Session) {
    && |s.ctx.outputs| == OUTPUTS_SIZE && s.ctx.displayIndex <= s.ctx.queueLen <= OUTPUTS_SIZE
    && |s.log.decoded| == s.ctx.p.currentOutput <= s.ctx.p.outputsLen < 256
    && s.ctx.confirmedOutputs + (s.ctx.queueLen - s.ctx.displayIndex) == s.ctx.p.currentOutput
    && s.ctx.outputs[s.ctx.displayIndex..s.ctx.queueLen] == s.log.decoded[s.ctx.confirmedOutputs..]
    && Numbered(s.log.decoded)
    && s.log.approved == NonChange(s.ctx.changes, s.log.decoded[..s.ctx.confirmedOutputs])
  }

  ghost predicate Numbered(outputs: seq<TxOutput>) {
    forall i :: 0 <= i < |outputs| ==> outputs[i].index == i
  }

  /** Everything but the two indices, the state and the screen is as before. */
  ghost predicate SameCore(s: Session, t: Session) {
    && t.ctx == s.ctx.(state := t.ctx.state, displayIndex := t.ctx.displayIndex,
                       confirmedOutputs := t.ctx.confirmedOutputs, queueLen := t.ctx.queueLen)
    && t.log == s.log.(approved := t.log.approved, granted := t.log.granted)
  }

  /** What is shown is the first output not confirmed. */
  lemma ShownIsNext(s: Session)
    requires Agree(s) && s.ctx.displayIndex < s.ctx.queueLen
    ensures Shown(s) == s.log.decoded[s.ctx.confirmedOutputs] && Shown(s).index == s.ctx.confirmedOutputs
  {
    var d, q := s.ctx.displayIndex, s.ctx.queueLen;
    assert s.ctx.outputs[d..q][0] == s.log.decoded[s.ctx.confirmedOutputs..][0];
  }

  /** Moving past the next output keeps the agreement, if that output is change or was approved. */
  lemma NextAgrees(s: Session, t: Session)
    requires Agree(s) && s.ctx.displayIndex < s.ctx.queueLen
    requires t == NextOutput(s.(log := t.log)) && t.log == s.log.(approved := t.log.approved)
    requires t.log.approved == if IsChange(s.ctx.changes, s.ctx.confirmedOutputs) then s.log.approved
                               else s.log.approved + [Shown(s)]
    ensures Agree(t) && SameCore(s, t)
    ensures t.ctx.displayIndex == s.ctx.displayIndex + 1 && t.ctx.confirmedOutputs == s.ctx.confirmedOutputs + 1
  {
    hide IsChange, NonChange, Numbered;
    ShownIsNext(s);
    var c := s.ctx.confirmedOutputs;
    NonChangeNext(s.ctx.changes, s.log.decoded, c);
    TailOf(s.ctx.outputs, s.ctx.displayIndex, s.ctx.queueLen);
    TailOf(s.log.decoded, c, |s.log.decoded|);
  }

  lemma TailOf<T>(s: seq<T>, lo: nat, hi: nat)
    requires lo < hi <= |s|
    ensures s[lo + 1..hi] == s[lo..hi][1..]
    ensures s[lo + 1..] == s[lo..][1..]
  {
  }

  lemma NonChangeNext(changes: seq<Change>, outputs: seq<TxOutput>, c: nat)
    requires c < |outputs|
    ensures NonChange(changes, outputs[..c + 1]) ==
            if IsChange(changes, outputs[c].index) then NonChange(changes, outputs[..c])
            else NonChange(changes, outputs[..c]) + [outputs[c]]
  {
    hide IsChange;
    assert outputs[..c + 1][..c] == outputs[..c];
  }

  /** The whole queue shown and confirmed. */
  function End(s: Session): Session {
    s.(ctx := s.ctx.(displayIndex := s.ctx.queueLen, confirmedOutputs := s.ctx.p.currentOutput))
  }

  /** The screen waits for the user on an output that is not change. */
  ghost predicate Showing(s: Session) {
    Agree(s) && s.ctx.displayIndex < s.ctx.queueLen && !IsChange(s.ctx.changes, s.ctx.confirmedOutputs)
  }

  /** Skipping within the queue stops at the next output that is not change, or at its end. */
  ghost predicate Skipped(s: Session, r: Result) {
    if r.done then
      && s.ctx.p.currentOutput > 0 && IsChange(s.ctx.changes, s.ctx.p.currentOutput - 1)
      && Agree(End(s)) && r == CheckOutputIndexState(End(s))
    else
      && Showing(r.s) && SameCore(s, r.s) && r.replies == [] && r.s.log == s.log
      && r.s.flow == s.flow && r.s.ctx.state == s.ctx.state && r.s.ctx.queueLen == s.ctx.queueLen
      && r.s.ctx.displayIndex >= s.ctx.displayIndex
  }

  lemma CheckWithinQueue(s: Session)
    requires Agree(s) && s.ctx.displayIndex < s.ctx.queueLen
    ensures CheckOutputIndexState(s) == Result(s, false, [])
  {
  }

  lemma CheckAtEnd(s: Session)
    requires s.ctx.displayIndex == s.ctx.queueLen
    ensures CheckOutputIndexState(s).done
  {
  }

  lemma {:induction false} SkipAgrees(s: Session)
    requires Agree(s) && s.ctx.displayIndex < s.ctx.queueLen
    ensures Skipped(s, SkipChangeOutputs(s))
    decreases s.ctx.queueLen - s.ctx.displayIndex
  {
    hide IsChange, CheckOutputIndexState, NonChange, Agree;
    if IsChange(s.ctx.changes, s.ctx.confirmedOutputs) {
      var t := NextOutput(s);
      NextAgrees(s, t);
      AgreeCounts(t);
      if t.ctx.displayIndex == t.ctx.queueLen {
        CheckAtEnd(t);
        assert t == End(s);
      } else {
        CheckWithinQueue(t);
        SkipAgrees(t);
        assert End(t) == End(s);
      }
    }
  }

  lemma AgreeCounts(s: Session)
    requires Agree(s)
    ensures s.ctx.displayIndex <= s.ctx.queueLen <= 10 && s.ctx.p.currentOutput <= s.ctx.p.outputsLen < 256
    ensures s.ctx.confirmedOutputs + (s.ctx.queueLen - s.ctx.displayIndex) == s.ctx.p.currentOutput
  {
  }

  /** The ways in which showing the next output of a queue can end. */
  ghost predicate Displayed(s: Session, r: Result) {
    || (r.s.flow == ShowOutput && Showing(r.s) && SameCore(s, r.s) && r.s.log == s.log
        && r.s.ctx.state == s.ctx.state && r.s.ctx.queueLen == s.ctx.queueLen && r.replies == []
        && r.s.ctx.displayIndex >= s.ctx.displayIndex)
    || (s.ctx.p.currentOutput > 0 && IsChange(s.ctx.changes, s.ctx.p.currentOutput - 1)
        && Agree(End(s)) && r == CheckOutputIndexState(End(s)))
    || r == Abort(SW_INTERNAL_ERROR)
    || (r.s.flow.Stopped? && r.replies == [])
  }

  lemma DisplayAgrees(env: Env, s: Session)
    requires Agree(s) && s.ctx.displayIndex < s.ctx.queueLen
    ensures Displayed(s, DisplayTxOutputs(env, s)) && DisplayTxOutputs(env, s).done
  {
    hide CheckOutputIndexState, NonChange, IsChange, SkipChangeOutputs, SymbolOf, Agree, AmountFits;
    CheckWithinQueue(s);
    SkipAgrees(s);
    var r := SkipChangeOutputs(s);
    if !r.done {
      ShownTwice(r.s, r.s.(flow := ShowOutput));
    }
  }

  /** The screen flow is not part of the agreement. */
  lemma ShownTwice(s: Session, t: Session)
    requires Agree(s) && t.ctx == s.ctx && t.log == s.log
    ensures Agree(t)
  {
  }

  // ---- The user approves the output shown ----

  /** The session after the approval, before anything is skipped. */
  function Approve(s: Session): Session
    requires s.ctx.displayIndex < |s.ctx.outputs|
  {
    NextOutput(s.(log := s.log.(approved := s.log.approved + [Shown(s)])))
  }

  lemma ApproveAgrees(s: Session)
    requires Showing(s)
    ensures s.ctx.displayIndex < |s.ctx.outputs|
    ensures Agree(Approve(s)) && SameCore(s, Approve(s))
    ensures Approve(s).ctx.displayIndex == s.ctx.displayIndex + 1
    ensures Approve(s).ctx.queueLen == s.ctx.queueLen
    ensures Approve(s).ctx.state == s.ctx.state && Approve(s).flow == s.flow
    ensures Approve(s).ctx.confirmedOutputs == s.ctx.confirmedOutputs + 1
  {
    hide NonChange, IsChange;
    NextAgrees(s, Approve(s));
  }

  /** The one place where a change output can be skipped that has not been decoded: the last output
      of the queue is approved, and the first output not decoded yet is announced as change. */
  predicate SkipsAhead(s: Session) {
    s.ctx.displayIndex + 1 == s.ctx.queueLen && IsChange(s.ctx.changes, s.ctx.p.currentOutput)
  }

  lemma ConfirmAgrees(env: Env, s: Session)
    requires Showing(s) && !SkipsAhead(s)
    ensures s.ctx.displayIndex < |s.ctx.outputs|
    ensures var t, r := Approve(s), ConfirmOutput(env, s, true);
            if t.ctx.displayIndex < t.ctx.queueLen then Displayed(t, r)
            else Agree(t) && r == CheckOutputIndexState(t) && r.done && !IsChange(t.ctx.changes, t.ctx.p.currentOutput)
  {
    hide CheckOutputIndexState, NonChange, IsChange, DisplayTxOutputs, Agree;
    ApproveAgrees(s);
    var t := Approve(s);
    AgreeCounts(t);
    ShowingBounds(s);
    var r := SkipChangeOutputs(t);
    if t.ctx.displayIndex < t.ctx.queueLen {
      SkipAgrees(t);
      if !r.done {
        DisplayAgrees(env, r.s);
        SkippedThenDisplayed(t, r.s, DisplayTxOutputs(env, r.s));
      }
    } else {
      CheckAtEnd(t);
      DisplayAtEnd(env, t);
    }
  }

  lemma ShowingBounds(s: Session)
    requires Showing(s)
    ensures s.ctx.displayIndex < s.ctx.queueLen && s.ctx.displayIndex < |s.ctx.outputs|
    ensures s.ctx.confirmedOutputs < s.ctx.p.currentOutput
  {
  }

  lemma DisplayAtEnd(env: Env, s: Session)
    requires CheckOutputIndexState(s).done
    ensures DisplayTxOutputs(env, s) == CheckOutputIndexState(s)
  {
  }

  lemma SkippedThenDisplayed(s: Session, t: Session, r: Result)
    requires SameCore(s, t) && t.log == s.log
    requires t.ctx.state == s.ctx.state && t.flow == s.flow && t.ctx.queueLen == s.ctx.queueLen
    requires Displayed(t, r) && s.ctx.displayIndex <= t.ctx.displayIndex
    ensures Displayed(s, r)
  {
    hide Showing, IsChange, CheckOutputIndexState, Agree;
    assert End(t) == End(s);
  }

  // ---- Past the queue ----

  /** The indices have moved beyond the queue by the same amount. */
  ghost predicate Past(s: Session, bound: nat) {
    && |s.ctx.outputs| == OUTPUTS_SIZE && s.ctx.queueLen <= OUTPUTS_SIZE && |s.ctx.changes| <= MAX_CHANGES
    && s.ctx.p.currentOutput <= s.ctx.p.outputsLen < 256
    && s.ctx.queueLen <= s.ctx.displayIndex <= bound
    && s.ctx.confirmedOutputs == (s.ctx.p.currentOutput + (s.ctx.displayIndex - s.ctx.queueLen)) % 256
  }

  /** A list that holds `n` consecutive numbers has at least `n` entries. */
  lemma {:induction false} RunLength(indices: seq<nat>, first: nat, n: nat)
    requires forall v: nat :: first <= v < first + n ==> v in indices
    ensures n <= |indices|
    decreases n
  {
    if n > 0 {
      var last: nat := first + (n - 1);
      assert last in indices;
      var k :| 0 <= k < |indices| && indices[k] == last;
      var others := indices[..k] + indices[k + 1..];
      forall v: nat | first <= v < first + (n - 1)
        ensures v in others
      {
        assert v in indices;
        var j :| 0 <= j < |indices| && indices[j] == v;
        assert others[if j < k then j else j - 1] == v;
      }
      RunLength(others, first, n - 1);
    }
  }

  /** Beyond the queue the counters cannot meet the total unless outputs were left out. */
  lemma NoFullTurn(s: Session, bound: nat)
    requires Past(s, bound) && bound < 256 && s.ctx.displayIndex > s.ctx.queueLen
    requires s.ctx.confirmedOutputs == s.ctx.p.outputsLen
    ensures s.ctx.p.currentOutput < s.ctx.p.outputsLen
  {
  }

  lemma PastNext(s: Session, bound: nat)
    requires Past(s, bound) && bound < 255
    ensures Past(NextOutput(s), bound + 1) && SameCore(s, NextOutput(s))
    ensures NextOutput(s).ctx.displayIndex == s.ctx.displayIndex + 1
  {
  }

  /** Beyond the queue, the screens can only go on or end in the final question with outputs missing. */
  ghost predicate EndsEarly(s: Session, r: Result) {
    && SameCore(s, r.s) && r.s.log == s.log && r.replies == []
    && r.s.flow == ConfirmTx && r.s.ctx.state == StateParsed && s.ctx.p.currentOutput < s.ctx.p.outputsLen
    && r.s.ctx.displayIndex > r.s.ctx.queueLen
  }

  lemma CheckPast(s: Session, bound: nat)
    requires Past(s, bound) && bound < 256 && s.ctx.displayIndex > s.ctx.queueLen && s.ctx.signing
    ensures var r := CheckOutputIndexState(s);
            if r.done then EndsEarly(s, r) else r == Result(s, false, [])
  {
    if s.ctx.confirmedOutputs == s.ctx.p.outputsLen {
      NoFullTurn(s, bound);
    }
  }

  lemma {:induction false} SkipPast(s: Session, base: nat, first: nat, k: nat)
    requires Past(s, base + k) && base <= 100 && k <= MAX_CHANGES && s.ctx.signing
    requires s.ctx.confirmedOutputs == first + k
    requires forall v: nat :: first <= v < first + k ==> IsChange(s.ctx.changes, v)
    requires s.ctx.displayIndex > s.ctx.queueLen || IsChange(s.ctx.changes, s.ctx.confirmedOutputs)
    ensures var r := SkipChangeOutputs(s);
            if r.done then EndsEarly(s, r)
            else && Past(r.s, base + MAX_CHANGES) && r.s.ctx.displayIndex > r.s.ctx.queueLen && SameCore(s, r.s)
                 && r.replies == [] && r.s.log == s.log && r.s.flow == s.flow && r.s.ctx.state == s.ctx.state
                 && r.s.ctx.displayIndex >= s.ctx.displayIndex
    decreases MAX_CHANGES - k
  {
    hide CheckOutputIndexState, IsChange, Past;
    PastBounds(s, base + k);
    if IsChange(s.ctx.changes, s.ctx.confirmedOutputs) {
      RunFits(s, first, k);
      var t := NextOutput(s);
      PastNext(s, base + k);
      CheckPast(t, base + k + 1);
      if CheckOutputIndexState(t).done {
      } else if t.ctx.confirmedOutputs <= s.ctx.confirmedOutputs {
        PastWider(t, base + k + 1, base + MAX_CHANGES);
      } else {
        SkipPast(t, base, first, k + 1);
      }
    } else {
      PastWider(s, base + k, base + MAX_CHANGES);
    }
  }

  lemma RunFits(s: Session, first: nat, k: nat)
    requires |s.ctx.changes| <= MAX_CHANGES
    requires forall v: nat :: first <= v < first + k ==> IsChange(s.ctx.changes, v)
    requires IsChange(s.ctx.changes, first + k)
    ensures k + 1 <= MAX_CHANGES
  {
    forall v: nat | first <= v < first + (k + 1)
      ensures v in Indices(s.ctx.changes)
    {
      assert IsChange(s.ctx.changes, v);
    }
    RunLength(Indices(s.ctx.changes), first, k + 1);
  }

  lemma PastBounds(s: Session, bound: nat)
    requires Past(s, bound)
    ensures s.ctx.queueLen <= s.ctx.displayIndex <= bound
    ensures s.ctx.confirmedOutputs < 256 && |s.ctx.changes| <= MAX_CHANGES
    ensures |s.ctx.outputs| == OUTPUTS_SIZE
  {
  }

  lemma PastWider(s: Session, bound: nat, wider: nat)
    requires Past(s, bound) && bound <= wider
    ensures Past(s, wider)
  {
  }

  /** The ways in which showing something beyond the queue can end. */
  ghost predicate DisplayedPast(s: Session, r: Result) {
    || (r.s.flow == ShowOutput && Past(r.s, 9) && r.s.ctx.displayIndex > r.s.ctx.queueLen && SameCore(s, r.s)
        && r.s.log == s.log && r.s.ctx.state == s.ctx.state && r.replies == []
        && r.s.ctx.displayIndex >= s.ctx.displayIndex)
    || EndsEarly(s, r)
    || r == Abort(SW_INTERNAL_ERROR)
    || (r.s.flow.Stopped? && r.replies == [])
  }

  lemma DisplayPast(env: Env, s: Session, base: nat)
    requires Past(s, base) && base <= 100 && s.ctx.displayIndex > s.ctx.queueLen && s.ctx.signing
    ensures DisplayedPast(s, DisplayTxOutputs(env, s)) && DisplayTxOutputs(env, s).done
  {
    hide CheckOutputIndexState, IsChange, SkipChangeOutputs, SymbolOf, AmountFits, Past, ZeroContext;
    CheckPast(s, base);
    if !CheckOutputIndexState(s).done {
      SkipPast(s, base, s.ctx.confirmedOutputs, 0);
      var r := SkipChangeOutputs(s);
      if !r.done && r.s.ctx.displayIndex < 10 {
        PastBounds(r.s, base + MAX_CHANGES);
        PastNarrow(r.s, base + MAX_CHANGES, r.s.(flow := ShowOutput));
      }
      if !r.done {
        PastBounds(r.s, base + MAX_CHANGES);
      }
    }
  }

  lemma PastNarrow(s: Session, bound: nat, t: Session)
    requires Past(s, bound) && s.ctx.displayIndex < 10 && t.ctx == s.ctx
    ensures Past(t, 9)
  {
  }

  lemma ConfirmPast(env: Env, s: Session)
    requires s.ctx.displayIndex < |s.ctx.outputs| && s.ctx.signing
    requires Past(Approve(s), 10)
    requires || Approve(s).ctx.displayIndex > Approve(s).ctx.queueLen
             || IsChange(s.ctx.changes, Approve(s).ctx.confirmedOutputs)
    ensures DisplayedPast(Approve(s), ConfirmOutput(env, s, true))
  {
    hide CheckOutputIndexState, IsChange, SkipChangeOutputs, DisplayTxOutputs, Past;
    var t := Approve(s);
    SkipPast(t, 10, t.ctx.confirmedOutputs, 0);
    var r := SkipChangeOutputs(t);
    if !r.done {
      DisplayPast(env, r.s, 21);
    }
  }

  /** Approving the output shown preserves the agreement of the indices with the queue exactly when
      it does not skip ahead of the decoder. */
  lemma AgreementExactly(s: Session)
    requires Showing(s) && s.ctx.signing && |s.ctx.changes| <= MAX_CHANGES
    ensures s.ctx.displayIndex < |s.ctx.outputs|
    ensures var r := SkipChangeOutputs(Approve(s));
            r.s.ctx.displayIndex <= r.s.ctx.queueLen <==> !SkipsAhead(s)
  {
    hide IsChange, NonChange, Agree, CheckOutputIndexState;
    ShowingBounds(s);
    ApproveAgrees(s);
    var t := Approve(s);
    AgreeCounts(t);
    if SkipsAhead(s) {
      AgreeIsPast(t);
      SkipPast(t, 10, t.ctx.confirmedOutputs, 0);
    } else if t.ctx.displayIndex < t.ctx.queueLen {
      SkipAgrees(t);
      CheckKeepsOrder(End(t));
      var r := SkipChangeOutputs(t);
      if !r.done {
        AgreeCounts(r.s);
      }
    }
  }

  lemma AgreeIsPast(s: Session)
    requires Agree(s) && s.ctx.displayIndex == s.ctx.queueLen && |s.ctx.changes| <= MAX_CHANGES
    ensures Past(s, 10)
  {
  }

  lemma CheckKeepsOrder(s: Session)
    requires s.ctx.displayIndex <= s.ctx.queueLen
    ensures CheckOutputIndexState(s).s.ctx.displayIndex <= CheckOutputIndexState(s).s.ctx.queueLen
  {
  }

  // ---- What the screen flow can become ----

  lemma CheckOnlyEnds(s: Session)
    ensures !CheckOutputIndexState(s).done ==> CheckOutputIndexState(s) == Result(s, false, [])
    ensures CheckOutputIndexState(s).done ==> var f := CheckOutputIndexState(s).s.flow; f == Menu || f == ConfirmTx
  {
  }

  lemma {:induction false} SkipOnlyEnds(s: Session)
    ensures var r := SkipChangeOutputs(s);
            if r.done then r.s.flow == Menu || r.s.flow == ConfirmTx else r.s.flow == s.flow && r.replies == []
    decreases 256 - s.ctx.confirmedOutputs
  {
    hide CheckOutputIndexState, IsChange;
    var t := NextOutput(s);
    CheckOnlyEnds(t);
    if IsChange(s.ctx.changes, s.ctx.confirmedOutputs) && t.ctx.confirmedOutputs > s.ctx.confirmedOutputs {
      SkipOnlyEnds(t);
    }
  }

  lemma PrepareOnlyEnds(env: Env, s: Session)
    ensures var r := PrepareDisplayOutput(env, s);
            if r.done then r.s.flow == Menu || r.s.flow == ConfirmTx || r.s.flow.Stopped?
            else r.s.flow == s.flow && r.replies == [] && r.s.ctx.p == s.ctx.p
  {
    hide CheckOutputIndexState, SkipChangeOutputs, SymbolOf, AmountFits;
    CheckOnlyEnds(s);
    SkipOnlyEnds(s);
  }

  lemma DoneShowsNothing(env: Env, r: Result)
    requires r.done
    ensures ShowNext(env, r) == r
  {
  }

  /** Showing an output stops the model only outside the buffers of the program. */
  lemma DisplayWhy(env: Env, s: Session)
    requires !s.flow.Stopped? && DisplayTxOutputs(env, s).s.flow.Stopped?
    ensures DisplayTxOutputs(env, s).s.flow == Stopped(OutOfBounds)
  {
    hide CheckOutputIndexState, SkipChangeOutputs, SymbolOf, AmountFits;
    CheckOnlyEnds(s);
    SkipOnlyEnds(s);
  }

  // ---- Replies ----

  predicate AllStatus(replies: seq<Reply>) {
    forall i :: 0 <= i < |replies| ==> replies[i].Status?
  }

  lemma {:induction false} SkipStatus(s: Session)
    ensures AllStatus(SkipChangeOutputs(s).replies)
    decreases 256 - s.ctx.confirmedOutputs
  {
    hide IsChange;
    if IsChange(s.ctx.changes, s.ctx.confirmedOutputs) {
      var r := CheckOutputIndexState(NextOutput(s));
      if !r.done && r.s.ctx.confirmedOutputs > s.ctx.confirmedOutputs {
        SkipStatus(r.s);
      }
    }
  }

  lemma DisplayStatus(env: Env, s: Session)
    ensures AllStatus(DisplayTxOutputs(env, s).replies)
  {
    hide SkipChangeOutputs, SymbolOf, AmountFits;
    SkipStatus(s);
    CheckOnlyEnds(s);
    SkipOnlyEnds(s);
  }

  /** A choice of the user is never answered with a signature. */
  lemma ConfirmStatus(env: Env, s: Session, yes: bool)
    requires s.ctx.displayIndex < |s.ctx.outputs|
    ensures AllStatus(ConfirmOutput(env, s, yes).replies)
  {
    hide SkipChangeOutputs, DisplayTxOutputs;
    var t := Approve(s);
    SkipStatus(t);
    DisplayStatus(env, SkipChangeOutputs(t).s);
  }

  /** Nor is a data command. */
  lemma DataStatus(env: Env, s: Session, chunk: nat, cdata: seq<byte>)
    ensures AllStatus(Data(env, s, chunk, cdata).replies)
  {
    hide DecodeAndShow, Read, Opened, ZeroContext;
    var s0 := QueueReset(s);
    DecodeStatus(env, s0.(ctx := s0.ctx.(hashed := s0.ctx.hashed + cdata, buffer := s0.ctx.buffer + cdata)));
    if Read(cdata).Returned? {
      var (changes, rest) := Read(cdata).value;
      if |rest| >= 5 {
        DecodeStatus(env, Session(Opened(changes, rest).(buffer := rest[5..]), s0.flow, BEGUN));
      }
    }
  }

  lemma DecodeStatus(env: Env, s: Session)
    ensures AllStatus(DecodeAndShow(env, s).replies)
  {
    hide DecodeElements, DisplayTxOutputs, ZeroContext;
    var d := DecodeElements(env, s);
    if d.DecodedAll? {
      DisplayStatus(env, d.s.(log := d.s.log.(cuts := d.s.log.cuts + [d.s.ctx.p.currentOutput])));
    }
  }
}
