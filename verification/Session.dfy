/** One signing session as a state machine: what each host command and each choice of the user
    does to the context, the screen and the replies (src/handler/sign_tx.c, src/ui/display.c). */
module Session {
  import opened Common
  import opened Positional
  import opened Bip32
  import opened ChangeInfo
  import opened Deserialize
  import opened Decoder
  import opened Screens

  datatype State = StateNone | StateRecvData | StateParsed | StateApproved

  datatype TxOutput = TxOutput(index: nat, wire: WireOutput)

  const BUFFER_SIZE: nat := 300
  const OUTPUTS_SIZE: nat := 10

  /** The fields of the global context that belong to SIGN_TX.  `buffer` is the part in use,
      `hashed` the bytes fed to the hash, `sighash` its digest once computed.  `changes` is kept
      only while there are outputs it can refer to. */
  datatype Context = Context(
    state: State, signing: bool,
    buffer: seq<byte>, hashed: seq<byte>, finalised: bool, sighash: seq<byte>,
    changes: seq<Change>, p: Progress,
    displayIndex: nat, confirmedOutputs: nat,
    outputs: seq<TxOutput>, queueLen: nat)

  /** Why the model does not follow the program any further: a handler has failed and ended the
      command loop, which starts anew without context, token registry and reply; memory outside an
      array has been touched; or the hash has been used after it was finalised. */
  datatype Stop = Restarted | OutOfBounds | HashReused

  datatype Flow = Menu | ShowOutput | ConfirmTx | Processing | Stopped(why: Stop)

  datatype Reply = Status(sw: nat) | Signature(path: seq<nat>, digest: seq<byte>)

  /** What happened since the first chunk: outputs decoded, outputs approved on screen, the number of
      outputs decoded at the end of each command that queued some, whether the first chunk held the
      whole header, and whether the final question was answered with yes. */
  datatype History = History(
    decoded: seq<TxOutput>, approved: seq<TxOutput>, cuts: seq<nat>, whole: bool, granted: bool)

  datatype Session = Session(ctx: Context, flow: Flow, log: History)

  /** A new session, whether the current function returns to its caller at once, and the replies. */
  datatype Result = Result(s: Session, done: bool, replies: seq<Reply>)

  function NoOutput(): TxOutput {
    TxOutput(0, WireOutput(0, 0, ToBytes(0, PUBKEY_HASH_LEN)))
  }

  function NoOutputs(n: nat): (r: seq<TxOutput>)
    ensures |r| == n && forall i :: 0 <= i < n ==> r[i] == NoOutput()
  {
    if n == 0 then [] else [NoOutput()] + NoOutputs(n - 1)
  }

  function ZeroContext(): Context {
    Context(StateNone, false, [], [], false, [], [], Start(0, 0, 0), 0, 0, NoOutputs(OUTPUTS_SIZE), 0)
  }

  const EMPTY: History := History([], [], [], false, false)

  /** A session whose header has been read. */
  const BEGUN: History := History([], [], [], true, false)

  function Idle(): Session {
    Session(ZeroContext(), Menu, EMPTY)
  }

  function Indices(changes: seq<Change>): (r: seq<nat>)
    ensures |r| == |changes| && forall i :: 0 <= i < |r| ==> r[i] == changes[i].index
  {
    seq(|changes|, i requires 0 <= i < |changes| => changes[i].index)
  }

  predicate IsChange(changes: seq<Change>, i: nat) {
    i in Indices(changes)
  }

  // ---- src/ui/display.c ----

  /** The context is cleared, the reply sent and the menu shown. */
  function Abort(sw: nat): (r: Result)
    ensures r.done && r.s.flow == Menu
  {
    Result(Idle(), true, [Status(sw)])
  }

  function ShowConfirmTx(s: Session): (r: Result)
    ensures r.done
  {
    if !s.ctx.signing || s.ctx.state != StateParsed then Abort(SW_BAD_STATE)
    else Result(s.(flow := ConfirmTx), true, [])
  }

  function CheckOutputIndexState(s: Session): Result {
    if s.ctx.confirmedOutputs == s.ctx.p.outputsLen then
      ShowConfirmTx(s.(ctx := s.ctx.(state := StateParsed)))
    else if s.ctx.displayIndex == s.ctx.queueLen then
      Result(s.(ctx := s.ctx.(queueLen := 0, displayIndex := 0), flow := Menu), true, [Status(SW_OK)])
    else Result(s, false, [])
  }

  /** Both indices move on; they are single bytes. */
  function NextOutput(s: Session): Session {
    s.(ctx := s.ctx.(displayIndex := (s.ctx.displayIndex + 1) % 256,
                     confirmedOutputs := (s.ctx.confirmedOutputs + 1) % 256))
  }

  /** The loop over the change indices in the order given. */
  function SkipPass(s: Session, indices: seq<nat>): Result
    decreases |indices|
  {
    if indices == [] then Result(s, false, [])
    else if s.ctx.confirmedOutputs == indices[0] then
      var r := CheckOutputIndexState(NextOutput(s));
      if r.done then r else SkipPass(r.s, indices[1..])
    else SkipPass(s, indices[1..])
  }

  /** Skipping while the next output is a change output. */
  function SkipChangeOutputs(s: Session): (r: Result)
    ensures !r.done ==> r.replies == [] && r.s.ctx.p == s.ctx.p
    decreases 256 - s.ctx.confirmedOutputs
  {
    if !IsChange(s.ctx.changes, s.ctx.confirmedOutputs) then Result(s, false, [])
    else
      var r := CheckOutputIndexState(NextOutput(s));
      if r.done || r.s.ctx.confirmedOutputs <= s.ctx.confirmedOutputs then r else SkipChangeOutputs(r.s)
  }

  /** The symbol of the output's token, if the token array has it. */
  function SymbolOf(p: Progress, tokenData: nat): Option<string> {
    var i := tokenData % 128;
    if i == 0 then Some("HTR")
    else if i <= |p.tokens| then Some(p.tokens[i - 1].symbol)
    else None
  }

  function PrepareDisplayOutput(env: Env, s: Session): Result {
    var checked := CheckOutputIndexState(s);
    if checked.done then checked else ShowNext(env, SkipChangeOutputs(checked.s))
  }

  /** Fills the screen with the next output of the queue, unless nothing is left to show. */
  function ShowNext(env: Env, r: Result): Result {
    if r.done then r
    else if r.s.ctx.displayIndex >= |r.s.ctx.outputs| then Result(r.s.(flow := Stopped(OutOfBounds)), true, [])
    else
      var o := r.s.ctx.outputs[r.s.ctx.displayIndex];
      if env.checksum(o.wire.pubkeyHash).None? then Abort(SW_INTERNAL_ERROR)
      else
        match SymbolOf(r.s.ctx.p, o.wire.tokenData)
        case None => Result(r.s.(flow := Stopped(OutOfBounds)), true, [])
        case Some(symbol) =>
          if !AmountFits(symbol, o.wire.value) then Result(r.s.(flow := Stopped(OutOfBounds)), true, [])
          else r
  }

  function DisplayTxOutputs(env: Env, s: Session): Result {
    var r := PrepareDisplayOutput(env, s);
    if r.done then r else Result(r.s.(flow := ShowOutput), true, [])
  }

  /** The output on the screen. */
  function Shown(s: Session): TxOutput
    requires s.ctx.displayIndex < |s.ctx.outputs|
  {
    s.ctx.outputs[s.ctx.displayIndex]
  }

  function ConfirmOutput(env: Env, s: Session, choice: bool): Result
    requires s.ctx.displayIndex < |s.ctx.outputs|
  {
    if !choice then Abort(SW_DENY)
    else
      var s1 := s.(log := s.log.(approved := s.log.approved + [Shown(s)]));
      var r := SkipChangeOutputs(NextOutput(s1));
      if r.done then r else DisplayTxOutputs(env, r.s)
  }

  function ActionTxConfirm(s: Session, choice: bool): Result {
    if !choice then Abort(SW_DENY)
    else
      var s1 := s.(ctx := s.ctx.(state := StateApproved), flow := Processing, log := s.log.(granted := true));
      Result(s1, true, [Status(SW_OK)])
  }

  // ---- src/handler/sign_tx.c ----

  datatype Decoded = DecodedAll(s: Session) | DecodeError | DecodeThrow | DecodeOverrun

  /** An element taken off the buffer; an output goes to the end of the queue. */
  function Take(s: Session, e: Element, size: nat): Session
    requires size <= |s.ctx.buffer| && Allowed(s.ctx.p, e)
    requires e.Output? ==> s.ctx.queueLen < |s.ctx.outputs|
  {
    var ctx := s.ctx.(p := Advance(s.ctx.p, e), buffer := s.ctx.buffer[size..]);
    if e.Output? then
      var o := TxOutput(s.ctx.p.currentOutput, e.wire);
      s.(ctx := ctx.(outputs := ctx.outputs[ctx.queueLen := o], queueLen := ctx.queueLen + 1),
         log := s.log.(decoded := s.log.decoded + [o]))
    else s.(ctx := ctx)
  }

  function DecodeElements(env: Env, s: Session): Decoded
    decreases |s.ctx.buffer|
  {
    match PeelOne(env, s.ctx.changes, s.ctx.p, s.ctx.buffer)
    case Short => DecodedAll(s)
    case Bad => DecodeError
    case Raised => DecodeThrow
    case Overrun => DecodeOverrun
    case Peeled(e, n) =>
      ElementSize(env, s.ctx.changes, s.ctx.p, s.ctx.buffer);
      if e.Output? && s.ctx.queueLen >= |s.ctx.outputs| then DecodeError
      else
        var s1 := Take(s, e, n);
        if s1.ctx.buffer == [] then DecodedAll(s1) else DecodeElements(env, s1)
  }

  /** The handler fails, which ends the command loop: its answer, if any, is dropped, and the loop
      starts anew. */
  function Fail(s: Session): Result {
    Result(s.(flow := Stopped(Restarted)), true, [])
  }

  function DecodeAndShow(env: Env, s: Session): Result {
    match DecodeElements(env, s)
    case DecodeError => Abort(SW_INVALID_TX)
    case DecodeThrow => Fail(s)
    case DecodeOverrun => Result(s.(flow := Stopped(OutOfBounds)), true, [])
    case DecodedAll(s1) =>
      if s1.ctx.queueLen != 0 then
        DisplayTxOutputs(env, s1.(log := s1.log.(cuts := s1.log.cuts + [s1.ctx.p.currentOutput])))
      else Result(s1, true, [Status(SW_OK)])
  }

  function At(b: seq<byte>, i: nat): nat {
    if i < |b| then b[i] else 0
  }

  /** The context after initialisation, change information and header, the latter possibly cut short. */
  function Opened(changes: seq<Change>, rest: seq<byte>): Context {
    ZeroContext().(state := StateRecvData, signing := true, hashed := rest,
          changes := if At(rest, 4) == 0 then [] else changes,
          p := Start(At(rest, 2), At(rest, 3), At(rest, 4)))
  }

  function FirstChunk(env: Env, s: Session, cdata: seq<byte>): Result {
    if s.ctx.state == StateRecvData then
      Result(Session(ZeroContext(), s.flow, EMPTY), true, [Status(SW_BAD_STATE)])
    else
      match Read(cdata)
      case Thrown(code) => Result(Session(Opened([], []), s.flow, EMPTY), true, [Status(code)])
      case Returned((changes, rest)) =>
        if |rest| < 5 then Result(Session(Opened(changes, rest), s.flow, EMPTY), true, [Status(SW_WRONG_DATA_LENGTH)])
        else
          var s1 := Session(Opened(changes, rest), s.flow, BEGUN);
          if |rest| - 5 > BUFFER_SIZE then Result(s1, true, [Status(SW_WRONG_DATA_LENGTH)])
          else DecodeAndShow(env, s1.(ctx := s1.ctx.(buffer := rest[5..])))
  }

  function NextChunk(env: Env, s: Session, cdata: seq<byte>): Result {
    var s1 := s.(ctx := s.ctx.(hashed := s.ctx.hashed + cdata));
    if |cdata| > BUFFER_SIZE - |s.ctx.buffer| then Result(s1, true, [Status(SW_WRONG_DATA_LENGTH)])
    else DecodeAndShow(env, s1.(ctx := s1.ctx.(buffer := s.ctx.buffer + cdata)))
  }

  /** Every SIGN_TX command starts by resetting the output queue. */
  function QueueReset(s: Session): Session {
    s.(ctx := s.ctx.(displayIndex := 0, queueLen := 0))
  }

  function Data(env: Env, s: Session, chunk: nat, cdata: seq<byte>): Result {
    var s0 := QueueReset(s);
    if s0.ctx.state == StateApproved then Abort(SW_BAD_STATE)
    else if chunk > 0 && s0.ctx.state != StateRecvData then Abort(SW_BAD_STATE)
    else if chunk == 0 then FirstChunk(env, s0, cdata)
    else NextChunk(env, s0, cdata)
  }

  /** A digest whose first byte is zero counts as not computed yet. */
  predicate Unset(sighash: seq<byte>) {
    sighash == [] || sighash[0] == 0
  }

  /** Sending an answer from a command handler gives zero, which the error exits take for a failure. */
  function SignWithKey(env: Env, s: Session, path: seq<nat>): Result {
    if path == [] || !env.derives(path) then Fail(s)
    else if !Unset(s.ctx.sighash) then SignDigest(env, s, path)
    else if s.ctx.finalised then Result(s.(flow := Stopped(HashReused)), true, [])
    else if !env.hashes(s.ctx.hashed) then Fail(s)
    else SignDigest(env, s.(ctx := s.ctx.(sighash := env.sha256d(s.ctx.hashed), finalised := true)), path)
  }

  function SignDigest(env: Env, s: Session, path: seq<nat>): Result {
    if env.signs(path, s.ctx.sighash) then Result(s, true, [Signature(path, s.ctx.sighash)]) else Fail(s)
  }

  function Sign(env: Env, s: Session, cdata: seq<byte>): Result {
    var s0 := QueueReset(s);
    if s0.ctx.state != StateApproved then Result(s0, true, [Status(SW_BAD_STATE)])
    else match PathOf(cdata)
      case None => Result(s0, true, [Status(SW_WRONG_DATA_LENGTH)])
      case Some(path) => SignWithKey(env, s0, path)
  }

  // ---- Steps and runs ----

  datatype Event =
    | DataCommand(chunk: nat, cdata: seq<byte>)
    | SignCommand(cdata: seq<byte>)
    | DoneCommand
    | UserChoice(yes: bool)
    | UserQuit

  /** The user is being asked, and the host waits for the reply to its last command. */
  predicate Pending(s: Session) {
    s.flow == ShowOutput || s.flow == ConfirmTx
  }

  /** The host sends a command (of 1 to 255 bytes, for data and sign) only when the previous one
      has been answered; the user can choose only when asked, and quit only after approval. */
  predicate Enabled(s: Session, e: Event) {
    match e
    case DataCommand(chunk, cdata) => !s.flow.Stopped? && !Pending(s) && chunk < 256 && 1 <= |cdata| <= 255
    case SignCommand(cdata) => !s.flow.Stopped? && !Pending(s) && 1 <= |cdata| <= 255
    case DoneCommand => !s.flow.Stopped? && !Pending(s)
    case UserChoice(_) => s.flow == ConfirmTx || (s.flow == ShowOutput && s.ctx.displayIndex < |s.ctx.outputs|)
    case UserQuit => s.flow == Processing
  }

  function Step(env: Env, s: Session, e: Event): Result
    requires Enabled(s, e)
  {
    match e
    case DataCommand(chunk, cdata) => Data(env, s, chunk, cdata)
    case SignCommand(cdata) => Sign(env, s, cdata)
    case DoneCommand => Abort(SW_OK)
    case UserChoice(yes) => if s.flow == ConfirmTx then ActionTxConfirm(s, yes) else ConfirmOutput(env, s, yes)
    case UserQuit => Result(Idle(), true, [])
  }
}
