/** Whole runs of the signing session: what every step keeps, and what an approval means. */
module Runs {
  import opened Common
  import opened ChangeInfo
  import opened Deserialize
  import opened Decoder
  import opened Session
  import opened Confirmation
  import Bip32

  // ---- The device's buffer-by-buffer decoding is the one-shot decoder ----

  /** The outputs among the elements, numbered from `from` on. */
  function OutputsOf(es: seq<Element>, from: nat): seq<TxOutput> {
    if es == [] then []
    else if es[0].Output? then [TxOutput(from, es[0].wire)] + OutputsOf(es[1..], from + 1)
    else OutputsOf(es[1..], from)
  }

  lemma {:induction false} OutputsOfConcat(x: seq<Element>, y: seq<Element>, from: nat)
    ensures OutputsOf(x + y, from) == OutputsOf(x, from) + OutputsOf(y, from + |OutputsOf(x, from)|)
    decreases |x|
  {
    if x == [] {
      assert x + y == y;
    } else {
      assert (x + y)[1..] == x[1..] + y;
      OutputsOfConcat(x[1..], y, if x[0].Output? then from + 1 else from);
    }
  }

  lemma {:induction false} OutputsNumbered(es: seq<Element>, from: nat)
    ensures forall i :: 0 <= i < |OutputsOf(es, from)| ==> OutputsOf(es, from)[i].index == from + i
    decreases |es|
  {
    if es != [] {
      OutputsNumbered(es[1..], if es[0].Output? then from + 1 else from);
    }
  }

  /** `t` is `s` after decoding the elements `es`, with progress `q` and leftover `r`. */
  ghost predicate Absorbed(s: Session, t: Session, q: Progress, r: seq<byte>, es: seq<Element>) {
    var outs := OutputsOf(es, s.ctx.p.currentOutput);
    && t == s.(ctx := s.ctx.(p := q, buffer := r, outputs := t.ctx.outputs, queueLen := t.ctx.queueLen),
               log := s.log.(decoded := s.log.decoded + outs))
    && |t.ctx.outputs| == OUTPUTS_SIZE && t.ctx.queueLen == s.ctx.queueLen + |outs| <= OUTPUTS_SIZE
    && s.ctx.queueLen <= OUTPUTS_SIZE == |s.ctx.outputs|
    && t.ctx.outputs[..t.ctx.queueLen] == s.ctx.outputs[..s.ctx.queueLen] + outs
  }

  /** The result of the device's decoding, as the one-shot decoder has it. */
  ghost predicate SameVerdict(s: Session, d: Drained, r: Decoded) {
    match d
    case Ready(q, rest, es) => r.DecodedAll? && Absorbed(s, r.s, q, rest, es)
    case Rejected => r == DecodeError
    case Threw => r == DecodeThrow
    case Overran => r == DecodeOverrun
  }

  /** There is room in the queue for every output the buffer can hold. */
  predicate HasRoom(s: Session) {
    |s.ctx.outputs| == OUTPUTS_SIZE && s.ctx.queueLen + |s.ctx.buffer| / 32 <= OUTPUTS_SIZE
  }

  lemma TakeAbsorbs(env: Env, s: Session, e: Element, n: nat)
    requires HasRoom(s) && PeelOne(env, s.ctx.changes, s.ctx.p, s.ctx.buffer) == Peeled(e, n)
    ensures 32 <= n <= |s.ctx.buffer| && Allowed(s.ctx.p, e) && s.ctx.queueLen < OUTPUTS_SIZE
    ensures Absorbed(s, Take(s, e, n), Advance(s.ctx.p, e), s.ctx.buffer[n..], [e]) && HasRoom(Take(s, e, n))
  {
    hide PeelOne;
    ElementSize(env, s.ctx.changes, s.ctx.p, s.ctx.buffer);
    var from := s.ctx.p.currentOutput;
    assert OutputsOf([e], from) == if e.Output? then [TxOutput(from, e.wire)] else [] by {
      assert [e][1..] == [];
    }
    assert s.log.decoded + [] == s.log.decoded;
  }

  lemma AbsorbNothing(s: Session)
    requires |s.ctx.outputs| == OUTPUTS_SIZE && s.ctx.queueLen <= OUTPUTS_SIZE
    ensures Absorbed(s, s, s.ctx.p, s.ctx.buffer, [])
  {
    assert s.log.decoded + [] == s.log.decoded;
    assert s.ctx.outputs[..s.ctx.queueLen] + [] == s.ctx.outputs[..s.ctx.queueLen];
  }

  lemma AbsorbTwice(s: Session, t: Session, u: Session, es: seq<Element>, fs: seq<Element>,
                    p: Progress, b: seq<byte>, q: Progress, r: seq<byte>)
    requires Absorbed(s, t, p, b, es) && Absorbed(t, u, q, r, fs)
    requires p.currentOutput == s.ctx.p.currentOutput + |OutputsOf(es, s.ctx.p.currentOutput)|
    ensures Absorbed(s, u, q, r, es + fs)
  {
    hide OutputsOf;
    var x, y := OutputsOf(es, s.ctx.p.currentOutput), OutputsOf(fs, p.currentOutput);
    OutputsOfConcat(es, fs, s.ctx.p.currentOutput);
    assert (s.log.decoded + x) + y == s.log.decoded + (x + y);
    assert (s.ctx.outputs[..s.ctx.queueLen] + x) + y == s.ctx.outputs[..s.ctx.queueLen] + (x + y);
  }

  /** With room in the queue, decoding the buffer in place does what one-shot decoding of the same
      bytes does: same elements, same leftover, same verdict; the guard of the queue never fires. */
  lemma {:induction false} DecodesLikeOneShot(env: Env, s: Session)
    requires HasRoom(s)
    ensures SameVerdict(s, Drain(env, s.ctx.changes, s.ctx.p, s.ctx.buffer), DecodeElements(env, s))
    decreases |s.ctx.buffer|
  {
    hide PeelOne, Take, Absorbed, OutputsOf;
    var peel := PeelOne(env, s.ctx.changes, s.ctx.p, s.ctx.buffer);
    if peel == Short {
      AbsorbNothing(s);
    } else if peel.Peeled? {
      var e, n := peel.e, peel.size;
      TakeAbsorbs(env, s, e, n);
      var t := Take(s, e, n);
      TakeFields(s, e, n);
      if n < |s.ctx.buffer| {
        DecodesLikeOneShot(env, t);
        var d := Drain(env, s.ctx.changes, Advance(s.ctx.p, e), s.ctx.buffer[n..]);
        if d.Ready? {
          AbsorbTwice(s, t, DecodeElements(env, t).s, [e], d.es, Advance(s.ctx.p, e), s.ctx.buffer[n..], d.p, d.rest);
        }
      }
    }
  }

  lemma TakeFields(s: Session, e: Element, n: nat)
    requires n <= |s.ctx.buffer| && Allowed(s.ctx.p, e) && s.ctx.queueLen < |s.ctx.outputs|
    ensures var t := Take(s, e, n);
            && t.ctx.changes == s.ctx.changes && t.ctx.p == Advance(s.ctx.p, e) && t.ctx.buffer == s.ctx.buffer[n..]
    ensures Advance(s.ctx.p, e).currentOutput == s.ctx.p.currentOutput + |OutputsOf([e], s.ctx.p.currentOutput)|
  {
    assert [e][1..] == [];
  }

  // ---- How much one call can decode ----

  lemma {:induction false} ElementsCount(env: Env, changes: seq<Change>, p: Progress, b: seq<byte>)
    requires Drain(env, changes, p, b).Ready?
    ensures var d := Drain(env, changes, p, b); 32 * |d.es| + |d.rest| <= |b|
    ensures var d := Drain(env, changes, p, b);
            d.rest == [] || PeelOne(env, changes, d.p, d.rest) == Short
    decreases |b|
  {
    hide PeelOne;
    var peel := PeelOne(env, changes, p, b);
    if peel.Peeled? {
      ElementSize(env, changes, p, b);
      if peel.size < |b| {
        ElementsCount(env, changes, Advance(p, peel.e), b[peel.size..]);
      }
    }
  }

  /** Behind an incomplete leftover, a chunk of at most 255 bytes completes at most eight elements:
      the first of them uses up the leftover. */
  lemma EightElements(env: Env, changes: seq<Change>, p: Progress, left: seq<byte>, chunk: seq<byte>)
    requires left == [] || PeelOne(env, changes, p, left) == Short
    requires |chunk| <= 255 && Drain(env, changes, p, left + chunk).Ready?
    ensures |Drain(env, changes, p, left + chunk).es| <= 8
  {
    hide PeelOne;
    var b := left + chunk;
    var peel := PeelOne(env, changes, p, b);
    if peel.Peeled? {
      ElementSize(env, changes, p, b);
      if peel.size <= |left| {
        PeelsExactly(env, changes, p, b, peel.e, peel.size);
        assert left[..peel.size] == b[..peel.size];
        PeelsExactly(env, changes, p, left, peel.e, peel.size);
        assert false;
      }
      if peel.size < |b| {
        ElementsCount(env, changes, Advance(p, peel.e), b[peel.size..]);
      }
    }
  }

  /** Decoding keeps the announced number of outputs and never decodes more. */
  lemma {:induction false} OutputsCounted(env: Env, changes: seq<Change>, p: Progress, b: seq<byte>)
    requires Drain(env, changes, p, b).Ready? && p.currentOutput <= p.outputsLen
    ensures var d := Drain(env, changes, p, b);
            && d.p.outputsLen == p.outputsLen && d.p.currentOutput <= p.outputsLen
            && d.p.currentOutput == p.currentOutput + |OutputsOf(d.es, p.currentOutput)|
    decreases |b|
  {
    hide OutputsOf, ParseBytes, CheckChange, FindToken;
    var peel := PeelOne(env, changes, p, b);
    OutputsOfNone(p.currentOutput);
    if peel.Peeled? {
      var e := peel.e;
      ElementSize(env, changes, p, b);
      OutputsOfOne(e, p.currentOutput);
      if peel.size < |b| {
        OutputsCounted(env, changes, Advance(p, e), b[peel.size..]);
        var d := Drain(env, changes, Advance(p, e), b[peel.size..]);
        OutputsOfConcat([e], d.es, p.currentOutput);
      }
    }
  }

  lemma OutputsOfNone(from: nat)
    ensures OutputsOf([], from) == []
  {
  }

  lemma OutputsOfOne(e: Element, from: nat)
    ensures |OutputsOf([e], from)| == if e.Output? then 1 else 0
  {
    assert [e][1..] == [];
  }

  // ---- The invariant ----

  /** A command ended with `cut` outputs decoded: the first output not decoded yet is announced as
      change only if the last decoded one is, too. */
  predicate SafeCut(changes: seq<Change>, cut: nat) {
    IsChange(changes, cut) ==> cut > 0 && IsChange(changes, cut - 1)
  }

  predicate SafeCuts(s: Session) {
    forall i :: 0 <= i < |s.log.cuts| ==> SafeCut(s.ctx.changes, s.log.cuts[i])
  }

  /** The bytes hashed so far are a header, the decoded elements and the leftover buffer. */
  ghost predicate Stream(env: Env, s: Session) {
    && |s.ctx.hashed| >= 5 && s.ctx.hashed[4] == s.ctx.p.outputsLen
    && var d := Drain(env, s.ctx.changes, Start(s.ctx.hashed[2], s.ctx.hashed[3], s.ctx.hashed[4]), s.ctx.hashed[5..]);
       d.Ready? && d.p == s.ctx.p && d.rest == s.ctx.buffer && OutputsOf(d.es, 0) == s.log.decoded
  }

  /** What does not depend on how far the user is. */
  ghost predicate Core(env: Env, s: Session) {
    && s.ctx.signing && |s.ctx.outputs| == OUTPUTS_SIZE && |s.ctx.changes| <= MAX_CHANGES
    && (s.ctx.buffer == [] || PeelOne(env, s.ctx.changes, s.ctx.p, s.ctx.buffer) == Short)
    && s.ctx.p.currentOutput <= s.ctx.p.outputsLen < 256
    && (if s.log.whole then Stream(env, s) else s.ctx.p.outputsLen == 0)
  }

  predicate NotSigned(s: Session) {
    !s.ctx.finalised && s.ctx.sighash == []
  }

  /** Waiting for the host: everything decoded has been confirmed. */
  ghost predicate Settled(s: Session) {
    && Agree(s) && s.ctx.displayIndex == s.ctx.queueLen && SafeCuts(s)
    && (s.ctx.p.outputsLen > 0 ==> s.ctx.p.currentOutput < s.ctx.p.outputsLen)
  }

  /** Waiting for the user, in agreement; only the last command may have ended at an unsafe place. */
  ghost predicate Asking(s: Session) {
    && Showing(s) && s.log.cuts != []
    && s.log.cuts[|s.log.cuts| - 1] == s.ctx.p.currentOutput
    && forall i :: 0 <= i < |s.log.cuts| - 1 ==> SafeCut(s.ctx.changes, s.log.cuts[i])
  }

  /** Waiting for the user beyond the queue. */
  ghost predicate AskingPast(s: Session) {
    Past(s, 9) && s.ctx.displayIndex > s.ctx.queueLen && !SafeCuts(s) && !SafeCut(s.ctx.changes, s.ctx.p.currentOutput)
  }

  /** All counted outputs are confirmed.  If every command ended at a safe place, they are all the
      outputs there are, and the user has approved those that are not change; otherwise some
      outputs have not been received. */
  ghost predicate Finished(s: Session) {
    && s.ctx.p.outputsLen > 0
    && if SafeCuts(s) then
         && s.ctx.p.currentOutput == s.ctx.p.outputsLen == |s.log.decoded|
         && (forall i :: 0 <= i < |s.log.decoded| ==> s.log.decoded[i].index == i)
         && s.log.approved == NonChange(s.ctx.changes, s.log.decoded)
       else s.ctx.p.currentOutput < s.ctx.p.outputsLen
  }

  ghost predicate DigestKept(env: Env, s: Session) {
    if s.ctx.finalised then s.ctx.sighash == env.sha256d(s.ctx.hashed) else s.ctx.sighash == []
  }

  ghost predicate Inv(env: Env, s: Session) {
    s.flow.Stopped? ||
    match s.ctx.state
    case StateNone => s.flow == Menu
    case StateRecvData =>
      && Core(env, s) && NotSigned(s)
      && if s.flow == Menu then Settled(s)
         else s.flow == ShowOutput && s.ctx.p.outputsLen > 0 && (Asking(s) || AskingPast(s))
    case StateParsed => s.flow == ConfirmTx && Core(env, s) && NotSigned(s) && Finished(s)
    case StateApproved =>
      s.flow == Processing && Core(env, s) && DigestKept(env, s) && Finished(s) && s.log.granted
  }

  lemma CoreKept(env: Env, s: Session, t: Session)
    requires Core(env, s) && SameCore(s, t)
    ensures Core(env, t) && SafeCuts(t) == SafeCuts(s) && NotSigned(t) == NotSigned(s)
  {
    hide PeelOne, Drain, OutputsOf, IsChange;
  }

  /** The agreement at the end of the queue: either the final question or the next command. */
  lemma EndKeeps(env: Env, s: Session, r: Result)
    requires Core(env, s) && NotSigned(s) && s.ctx.p.outputsLen > 0 && s.ctx.state == StateRecvData
    requires Agree(End(s)) && SafeCuts(s) && r == CheckOutputIndexState(End(s))
    ensures Inv(env, r.s) && |r.replies| == if Pending(r.s) then 0 else 1
  {
    hide PeelOne, Drain, IsChange, NonChange, OutputsOf, Stream;
    var e := End(s);
    assert s.log.decoded[..|s.log.decoded|] == s.log.decoded;
    assert SameCore(s, r.s);
    StreamKept(env, s, r.s);
    if e.ctx.confirmedOutputs != e.ctx.p.outputsLen {
      assert r.s.ctx.outputs[0..0] == r.s.log.decoded[r.s.ctx.confirmedOutputs..];
    }
  }

  lemma StreamKept(env: Env, s: Session, t: Session)
    requires SameCore(s, t)
    ensures Stream(env, s) <==> Stream(env, t)
  {
    hide Drain, OutputsOf;
  }

  /** After the queue has been shown as far as possible, the invariant holds again. */
  lemma DisplayedKeeps(env: Env, s: Session, r: Result)
    requires Core(env, s) && NotSigned(s) && s.ctx.p.outputsLen > 0 && s.ctx.state == StateRecvData
    requires Displayed(s, r)
    requires s.log.cuts != [] && s.log.cuts[|s.log.cuts| - 1] == s.ctx.p.currentOutput
    requires forall i :: 0 <= i < |s.log.cuts| - 1 ==> SafeCut(s.ctx.changes, s.log.cuts[i])
    ensures Inv(env, r.s)
    ensures r.s.flow.Stopped? || |r.replies| == if Pending(r.s) then 0 else 1
  {
    hide PeelOne, Drain, IsChange, NonChange, OutputsOf, Stream, CheckOutputIndexState, Agree, Core;
    if r == Abort(SW_INTERNAL_ERROR) || r.s.flow.Stopped? {
    } else if && r.s.flow == ShowOutput && Showing(r.s) && SameCore(s, r.s)
              && r.s.ctx.state == s.ctx.state && r.replies == []
    {
      CoreKept(env, s, r.s);
    } else {
      LastCutSafe(s);
      EndKeeps(env, s, r);
    }
  }

  /** If the last command ended at a safe place, all did. */
  lemma LastCutSafe(s: Session)
    requires s.log.cuts != [] && s.log.cuts[|s.log.cuts| - 1] == s.ctx.p.currentOutput
    requires forall i :: 0 <= i < |s.log.cuts| - 1 ==> SafeCut(s.ctx.changes, s.log.cuts[i])
    requires SafeCut(s.ctx.changes, s.ctx.p.currentOutput)
    ensures SafeCuts(s)
  {
  }

  // ---- A data command ----

  /** New bytes are in the buffer behind the leftover; `before` are the elements decoded earlier. */
  ghost predicate Loaded(env: Env, s: Session, before: seq<Element>) {
    && s.ctx.state == StateRecvData && s.ctx.signing && s.flow == Menu && NotSigned(s)
    && |s.ctx.outputs| == OUTPUTS_SIZE && |s.ctx.changes| <= MAX_CHANGES
    && s.ctx.displayIndex == s.ctx.queueLen == 0 && |s.ctx.buffer| <= 290
    && s.ctx.p.currentOutput <= s.ctx.p.outputsLen < 256 && Settled(s)
    && (if s.log.whole then Unread(env, s, before) else s.ctx.p.outputsLen == 0)
  }

  /** One-shot decoding of everything hashed comes by the present progress and buffer. */
  ghost predicate Unread(env: Env, s: Session, before: seq<Element>) {
    && |s.ctx.hashed| >= 5 && s.ctx.hashed[4] == s.ctx.p.outputsLen
    && Drain(env, s.ctx.changes, Start(s.ctx.hashed[2], s.ctx.hashed[3], s.ctx.hashed[4]), s.ctx.hashed[5..])
       == After(before, Drain(env, s.ctx.changes, s.ctx.p, s.ctx.buffer))
    && OutputsOf(before, 0) == s.log.decoded
  }

  /** The session after decoding, with the end of the command noted if outputs were queued. */
  function Noted(s: Session): Session {
    s.(log := s.log.(cuts := s.log.cuts + [s.ctx.p.currentOutput]))
  }

  lemma AbsorbedCore(env: Env, s: Session, t: Session, before: seq<Element>)
    requires Loaded(env, s, before)
    requires var d := Drain(env, s.ctx.changes, s.ctx.p, s.ctx.buffer);
             d.Ready? && Absorbed(s, t, d.p, d.rest, d.es)
    ensures Core(env, t) && NotSigned(t) && t.ctx.state == StateRecvData && t.flow == Menu
    ensures t.ctx.p.currentOutput == s.ctx.p.currentOutput + t.ctx.queueLen && t.ctx.p.outputsLen == s.ctx.p.outputsLen
  {
    hide PeelOne, Drain, IsChange, OutputsOf, Settled;
    ElementsCount(env, s.ctx.changes, s.ctx.p, s.ctx.buffer);
    OutputsCounted(env, s.ctx.changes, s.ctx.p, s.ctx.buffer);
    var d := Drain(env, s.ctx.changes, s.ctx.p, s.ctx.buffer);
    OutputsOfConcat(before, d.es, 0);
    SettledCount(s);
  }

  lemma SettledCount(s: Session)
    requires Settled(s)
    ensures |s.log.decoded| == s.ctx.p.currentOutput == s.ctx.confirmedOutputs
    ensures s.ctx.p.outputsLen > 0 ==> s.ctx.p.currentOutput < s.ctx.p.outputsLen
    ensures s.log.approved == NonChange(s.ctx.changes, s.log.decoded)
    ensures forall i :: 0 <= i < |s.log.decoded| ==> s.log.decoded[i].index == i
  {
    assert s.log.decoded[..|s.log.decoded|] == s.log.decoded;
  }

  /** The newly queued outputs agree with the counters. */
  lemma AbsorbedAgrees(env: Env, s: Session, t: Session, before: seq<Element>)
    requires Loaded(env, s, before)
    requires var d := Drain(env, s.ctx.changes, s.ctx.p, s.ctx.buffer);
             d.Ready? && Absorbed(s, t, d.p, d.rest, d.es)
    ensures Agree(t) && t.ctx.confirmedOutputs == s.ctx.p.currentOutput && t.ctx.displayIndex == 0
    ensures t.log.cuts == s.log.cuts && t.ctx.changes == s.ctx.changes && SafeCuts(s) && SafeCuts(t)
  {
    hide PeelOne, Drain, IsChange, OutputsOf, NonChange, Unread;
    var d := Drain(env, s.ctx.changes, s.ctx.p, s.ctx.buffer);
    var n := s.ctx.p.currentOutput;
    SettledCount(s);
    OutputsCounted(env, s.ctx.changes, s.ctx.p, s.ctx.buffer);
    OutputsNumbered(d.es, n);
    assert t.log.decoded[..n] == s.log.decoded;
    assert t.log.decoded[n..] == OutputsOf(d.es, n) == t.ctx.outputs[0..t.ctx.queueLen];
    assert s.log.decoded[..n] == s.log.decoded;
  }

  lemma DecodeKeeps(env: Env, s: Session, before: seq<Element>)
    requires Loaded(env, s, before)
    ensures var r := DecodeAndShow(env, s);
            Inv(env, r.s) && (r.s.flow.Stopped? || |r.replies| == if Pending(r.s) then 0 else 1)
  {
    hide PeelOne, Drain, DecodeElements, IsChange, OutputsOf, Agree, DisplayTxOutputs, Absorbed, Unread, Core, Settled;
    DecodesLikeOneShot(env, s);
    var d := DecodeElements(env, s);
    if d.DecodedAll? {
      var t := d.s;
      AbsorbedCore(env, s, t, before);
      AbsorbedAgrees(env, s, t, before);
      if t.ctx.queueLen != 0 {
        CoreCounts(env, t);
        ShowKeeps(env, t);
      } else {
        StillSettled(t, s);
      }
    }
  }

  lemma CoreCounts(env: Env, s: Session)
    requires Core(env, s)
    ensures s.ctx.p.currentOutput <= s.ctx.p.outputsLen
  {
  }

  lemma StillSettled(t: Session, s: Session)
    requires Agree(t) && SafeCuts(t) && t.ctx.queueLen == 0 && Settled(s)
    requires t.ctx.p.currentOutput == s.ctx.p.currentOutput && t.ctx.p.outputsLen == s.ctx.p.outputsLen
    ensures Settled(t)
  {
  }

  lemma ShowKeeps(env: Env, t: Session)
    requires Core(env, t) && NotSigned(t) && t.ctx.state == StateRecvData && t.ctx.p.outputsLen > 0
    requires Agree(t) && SafeCuts(t) && t.ctx.queueLen != 0 && t.ctx.displayIndex == 0
    ensures var r := DisplayTxOutputs(env, Noted(t));
            Inv(env, r.s) && (r.s.flow.Stopped? || |r.replies| == if Pending(r.s) then 0 else 1)
  {
    hide PeelOne, Drain, IsChange, OutputsOf, DisplayTxOutputs, Inv, Displayed, Pending;
    var n := Noted(t);
    NotedAgrees(env, t);
    DisplayAgrees(env, n);
    DisplayedKeeps(env, n, DisplayTxOutputs(env, n));
  }

  lemma NotedAgrees(env: Env, t: Session)
    requires Core(env, t) && Agree(t) && SafeCuts(t)
    ensures var n := Noted(t);
            && Core(env, n) && Agree(n) && n.log.cuts != [] && n.log.cuts[|n.log.cuts| - 1] == n.ctx.p.currentOutput
            && forall i :: 0 <= i < |n.log.cuts| - 1 ==> SafeCut(n.ctx.changes, n.log.cuts[i])
  {
    hide PeelOne, Drain, IsChange, OutputsOf, NonChange;
  }

  /** The change information never lists more than eleven outputs. */
  lemma ChangesBounded(b: seq<byte>)
    requires Read(b).Returned?
    ensures |Read(b).value.0| <= MAX_CHANGES
  {
    hide Entries;
  }

  lemma FirstChunkKeeps(env: Env, s: Session, cdata: seq<byte>)
    requires Inv(env, s) && s.flow == Menu && |cdata| <= 255
    ensures var r := FirstChunk(env, s, cdata);
            Inv(env, r.s) && (r.s.flow.Stopped? || |r.replies| == if Pending(r.s) then 0 else 1)
  {
    hide Read, DecodeAndShow, Inv;
    StateWhenIdle(env, s);
    if s.ctx.state == StateRecvData {
      NothingOpen(env, Session(ZeroContext(), s.flow, EMPTY));
    } else if Read(cdata).Thrown? {
      OpenedShort(env, [], []);
    } else {
      var (changes, rest) := Read(cdata).value;
      ChangesBounded(cdata);
      ReadRest(cdata);
      if |rest| < 5 {
        OpenedShort(env, changes, rest);
      } else {
        OpenedLoads(env, changes, rest);
        var s1 := Session(Opened(changes, rest), Menu, BEGUN);
        DecodeKeeps(env, s1.(ctx := s1.ctx.(buffer := rest[5..])), []);
      }
    }
  }

  lemma StateWhenIdle(env: Env, s: Session)
    requires Inv(env, s) && s.flow == Menu
    ensures s.ctx.state == StateNone || s.ctx.state == StateRecvData
  {
  }

  lemma NothingOpen(env: Env, s: Session)
    requires s.ctx.state == StateNone && s.flow == Menu
    ensures Inv(env, s)
  {
  }

  lemma {:induction false} EntriesShrink(b: seq<byte>, n: nat)
    requires Entries(b, n).Some?
    ensures |Entries(b, n).value.1| <= |b|
    decreases n
  {
    hide Bip32.PathOf;
    if n > 0 {
      var p := Bip32.PathOf(b[1..]).value;
      EntriesShrink(b[2 + 4 * |p|..], n - 1);
    }
  }

  lemma ReadRest(b: seq<byte>)
    requires Read(b).Returned?
    ensures |Read(b).value.1| < |b|
  {
    hide Entries, Bip32.PathOf;
    if b[0] == 1 {
      EntriesShrink(b[2..], b[1]);
      assert b[1..][1..] == b[2..];
    }
  }

  /** A first chunk that broke off in the middle leaves a session without outputs. */
  lemma OpenedShort(env: Env, changes: seq<Change>, rest: seq<byte>)
    requires |rest| < 5
    ensures Inv(env, Session(Opened(changes, rest), Menu, EMPTY))
  {
    hide PeelOne, Drain;
  }

  lemma OpenedLoads(env: Env, changes: seq<Change>, rest: seq<byte>)
    requires 5 <= |rest| <= 255 && |changes| <= MAX_CHANGES
    ensures var s := Session(Opened(changes, rest).(buffer := rest[5..]), Menu, BEGUN); Loaded(env, s, [])
  {
    hide PeelOne, Drain, IsChange;
    var s := Session(Opened(changes, rest).(buffer := rest[5..]), Menu, BEGUN);
    AfterNothing(Drain(env, s.ctx.changes, s.ctx.p, s.ctx.buffer));
    assert s.ctx.outputs[0..0] == s.log.decoded[0..];
    assert s.log.decoded[..0] == [];
  }

  lemma NextChunkKeeps(env: Env, s: Session, cdata: seq<byte>)
    requires Inv(env, s) && s.flow == Menu && s.ctx.state == StateRecvData && 1 <= |cdata| <= 255
    requires s.ctx.displayIndex == s.ctx.queueLen == 0
    ensures var r := NextChunk(env, s, cdata);
            Inv(env, r.s) && (r.s.flow.Stopped? || |r.replies| == if Pending(r.s) then 0 else 1)
    ensures |cdata| <= BUFFER_SIZE - |s.ctx.buffer|
  {
    hide PeelOne, Drain, DecodeAndShow, Inv, IsChange;
    var t := s.(ctx := s.ctx.(hashed := s.ctx.hashed + cdata, buffer := s.ctx.buffer + cdata));
    var before := NextLoads(env, s, cdata, t);
    DecodeKeeps(env, t, before);
  }

  lemma NextLoads(env: Env, s: Session, cdata: seq<byte>, t: Session) returns (before: seq<Element>)
    requires Inv(env, s) && s.flow == Menu && s.ctx.state == StateRecvData && 1 <= |cdata| <= 255
    requires s.ctx.displayIndex == s.ctx.queueLen == 0
    requires t == s.(ctx := s.ctx.(hashed := s.ctx.hashed + cdata, buffer := s.ctx.buffer + cdata))
    ensures Loaded(env, t, before) && |s.ctx.buffer| <= 35
  {
    hide PeelOne, Drain, IsChange, OutputsOf, NonChange;
    if s.ctx.buffer != [] {
      ShortIsShort(env, s.ctx.changes, s.ctx.p, s.ctx.buffer);
    }
    before := [];
    if s.log.whole {
      var h := s.ctx.hashed;
      var start := Start(h[2], h[3], h[4]);
      SplitOnce(env, s.ctx.changes, start, h[5..], cdata);
      assert (h + cdata)[5..] == h[5..] + cdata;
      before := Drain(env, s.ctx.changes, start, h[5..]).es;
    }
  }

  lemma ResetKeeps(env: Env, s: Session)
    requires Inv(env, s) && !s.flow.Stopped? && !Pending(s)
    ensures Inv(env, QueueReset(s))
  {
    hide PeelOne, Drain, IsChange, OutputsOf, NonChange;
    var t := QueueReset(s);
    if s.ctx.state == StateRecvData {
      SettledCount(s);
      assert t.ctx.outputs[0..0] == t.log.decoded[t.ctx.confirmedOutputs..];
    }
  }

  lemma DataKeeps(env: Env, s: Session, chunk: nat, cdata: seq<byte>)
    requires Inv(env, s) && Enabled(s, DataCommand(chunk, cdata))
    ensures var r := Data(env, s, chunk, cdata);
            Inv(env, r.s) && (r.s.flow.Stopped? || |r.replies| == if Pending(r.s) then 0 else 1)
  {
    hide FirstChunk, NextChunk, Inv;
    ResetKeeps(env, s);
    var s0 := QueueReset(s);
    NothingOpen(env, Idle());
    if s0.ctx.state == StateApproved || (chunk > 0 && s0.ctx.state != StateRecvData) {
    } else {
      MenuUnlessApproved(env, s0);
      if chunk == 0 {
        FirstChunkKeeps(env, s0, cdata);
      } else {
        NextChunkKeeps(env, s0, cdata);
      }
    }
  }

  lemma MenuUnlessApproved(env: Env, s: Session)
    requires Inv(env, s) && !s.flow.Stopped? && !Pending(s) && s.ctx.state != StateApproved
    ensures s.flow == Menu
  {
  }

  // ---- A choice of the user ----

  lemma ConfirmKeeps(env: Env, s: Session)
    requires Inv(env, s) && s.flow == ShowOutput
    ensures s.ctx.displayIndex < |s.ctx.outputs|
    ensures var r := ConfirmOutput(env, s, true);
            Inv(env, r.s) && (r.s.flow.Stopped? || |r.replies| == if Pending(r.s) then 0 else 1)
  {
    hide ConfirmOutput, Inv, Asking, AskingPast;
    AskingOrPast(env, s);
    if Asking(s) {
      AskingKeeps(env, s);
    } else {
      AskingPastKeeps(env, s);
    }
  }

  lemma AskingOrPast(env: Env, s: Session)
    requires Inv(env, s) && s.flow == ShowOutput
    ensures s.ctx.state == StateRecvData && Core(env, s) && NotSigned(s) && s.ctx.p.outputsLen > 0
    ensures (Asking(s) || AskingPast(s)) && s.ctx.displayIndex < |s.ctx.outputs|
  {
    hide PeelOne, Drain, IsChange, NonChange, Stream;
  }

  lemma AskingKeeps(env: Env, s: Session)
    requires Core(env, s) && NotSigned(s) && s.ctx.p.outputsLen > 0 && s.ctx.state == StateRecvData
    requires Asking(s) && s.flow == ShowOutput
    ensures s.ctx.displayIndex < |s.ctx.outputs|
    ensures var r := ConfirmOutput(env, s, true);
            Inv(env, r.s) && (r.s.flow.Stopped? || |r.replies| == if Pending(r.s) then 0 else 1)
  {
    hide ConfirmOutput, Inv, Core, Agree, IsChange, CheckOutputIndexState, Displayed, Pending, Drain, PeelOne;
    ShowingBounds(s);
    ApproveAgrees(s);
    var t := Approve(s);
    CoreKept(env, s, t);
    AgreeCounts(t);
    if SkipsAhead(s) {
      SkippingAheadKeeps(env, s);
    } else {
      ConfirmAgrees(env, s);
      if t.ctx.displayIndex < t.ctx.queueLen {
        DisplayedKeeps(env, t, ConfirmOutput(env, s, true));
      } else {
        assert t == End(t);
        LastCutSafe(t);
        EndKeeps(env, t, ConfirmOutput(env, s, true));
      }
    }
  }

  /** Beyond the queue everything ends in a rejection, a stop, or an approval with outputs missing. */
  lemma DisplayedPastKeeps(env: Env, s: Session, r: Result)
    requires Core(env, s) && NotSigned(s) && s.ctx.p.outputsLen > 0 && s.ctx.state == StateRecvData
    requires !SafeCuts(s) && !SafeCut(s.ctx.changes, s.ctx.p.currentOutput) && DisplayedPast(s, r)
    ensures Inv(env, r.s) && (r.s.flow.Stopped? || |r.replies| == if Pending(r.s) then 0 else 1)
  {
    hide PeelOne, Drain, IsChange, OutputsOf, Stream, Past, Core;
    if SameCore(s, r.s) {
      CoreKept(env, s, r.s);
    }
  }

  lemma SkippingAheadKeeps(env: Env, s: Session)
    requires Core(env, s) && NotSigned(s) && s.ctx.p.outputsLen > 0 && s.ctx.state == StateRecvData
    requires Asking(s) && SkipsAhead(s)
    ensures s.ctx.displayIndex < |s.ctx.outputs|
    ensures var r := ConfirmOutput(env, s, true);
            Inv(env, r.s) && (r.s.flow.Stopped? || |r.replies| == if Pending(r.s) then 0 else 1)
  {
    hide ConfirmOutput, Inv, Agree, IsChange, DisplayedPast, Drain, PeelOne, Stream, Past, NonChange;
    ShowingBounds(s);
    ApproveAgrees(s);
    var t := Approve(s);
    CoreKept(env, s, t);
    AgreeCounts(t);
    AgreeCounts(s);
    AgreeIsPast(t);
    UnsafeCut(s, t);
    ConfirmPast(env, s);
    DisplayedPastKeeps(env, t, ConfirmOutput(env, s, true));
  }

  lemma UnsafeCut(s: Session, t: Session)
    requires Asking(s) && SkipsAhead(s) && SameCore(s, t)
    ensures !SafeCuts(t) && !SafeCut(t.ctx.changes, t.ctx.p.currentOutput)
  {
    hide IsChange, NonChange;
    var last := |s.log.cuts| - 1;
    assert s.log.cuts[last] == s.ctx.p.currentOutput == s.ctx.confirmedOutputs + 1;
    assert !SafeCut(t.ctx.changes, t.log.cuts[last]);
  }

  lemma AskingPastKeeps(env: Env, s: Session)
    requires Core(env, s) && NotSigned(s) && s.ctx.p.outputsLen > 0 && s.ctx.state == StateRecvData
    requires AskingPast(s) && s.flow == ShowOutput
    ensures s.ctx.displayIndex < |s.ctx.outputs|
    ensures var r := ConfirmOutput(env, s, true);
            Inv(env, r.s) && (r.s.flow.Stopped? || |r.replies| == if Pending(r.s) then 0 else 1)
  {
    hide ConfirmOutput, Inv, IsChange, DisplayedPast, Drain, PeelOne, Stream;
    var u := s.(log := s.log.(approved := s.log.approved + [Shown(s)]));
    PastNext(u, 9);
    var t := Approve(s);
    SameCoreApprove(s);
    CoreKept(env, s, t);
    ConfirmPast(env, s);
    DisplayedPastKeeps(env, t, ConfirmOutput(env, s, true));
  }

  lemma SameCoreApprove(s: Session)
    requires s.ctx.displayIndex < |s.ctx.outputs|
    ensures SameCore(s, Approve(s)) && Approve(s).ctx.state == s.ctx.state && Approve(s).ctx.queueLen == s.ctx.queueLen
  {
  }

  lemma TxConfirmKeeps(env: Env, s: Session, yes: bool)
    requires Inv(env, s) && s.flow == ConfirmTx
    ensures var r := ActionTxConfirm(s, yes); Inv(env, r.s) && !Pending(r.s) && |r.replies| == 1
  {
    hide Inv, Core, Finished;
    NothingOpen(env, Idle());
    if yes {
      ParsedWhenAsked(env, s);
      ApprovedKeeps(env, s, ActionTxConfirm(s, yes).s);
    }
  }

  lemma ParsedWhenAsked(env: Env, s: Session)
    requires Inv(env, s) && s.flow == ConfirmTx
    ensures s.ctx.state == StateParsed && Core(env, s) && NotSigned(s) && Finished(s)
  {
    hide Core, Finished, Settled, Asking, AskingPast;
  }

  lemma ApprovedKeeps(env: Env, s: Session, t: Session)
    requires Core(env, s) && NotSigned(s) && Finished(s)
    requires t == s.(ctx := s.ctx.(state := StateApproved), flow := Processing, log := s.log.(granted := true))
    ensures Inv(env, t)
  {
    hide Core, NonChange, SafeCut, Settled, Asking, AskingPast;
    assert SameCore(s, t);
    CoreKept(env, s, t);
  }

  lemma SignKeeps(env: Env, s: Session, cdata: seq<byte>)
    requires Inv(env, s) && Enabled(s, SignCommand(cdata))
    ensures var r := Sign(env, s, cdata);
            Inv(env, r.s) && !Pending(r.s) && (r.s.flow.Stopped? || |r.replies| == 1)
  {
    hide PeelOne, Drain, IsChange, OutputsOf, NonChange, Agree, Bip32.PathOf;
    ResetKeeps(env, s);
  }

  /** Every step keeps the invariant and answers the host exactly when it stops asking the user. */
  lemma StepKeeps(env: Env, s: Session, e: Event)
    requires Inv(env, s) && Enabled(s, e)
    ensures Inv(env, Step(env, s, e).s)
    ensures var r := Step(env, s, e);
            r.s.flow.Stopped? || e.UserQuit? || |r.replies| == if Pending(r.s) then 0 else 1
  {
    hide Inv, Data, Sign, ConfirmOutput, ActionTxConfirm;
    NothingOpen(env, Idle());
    match e
    case DataCommand(chunk, cdata) => DataKeeps(env, s, chunk, cdata);
    case SignCommand(cdata) => SignKeeps(env, s, cdata);
    case DoneCommand =>
    case UserQuit =>
    case UserChoice(yes) =>
      if s.flow == ConfirmTx {
        TxConfirmKeeps(env, s, yes);
      } else if yes {
        ConfirmKeeps(env, s);
      } else {
        DenyIs(env, s);
      }
  }

  lemma DenyIs(env: Env, s: Session)
    requires s.ctx.displayIndex < |s.ctx.outputs|
    ensures ConfirmOutput(env, s, false) == Abort(SW_DENY)
  {
  }
}
