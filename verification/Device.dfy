/** The device itself: the global context as an object that the handlers and the screen callbacks
    update in place, each proved to do what the session's state machine says
    (src/handler/sign_tx.c, src/ui/display.c, src/types.h). */
module Device {
  import opened Common
  import opened Positional
  import opened Reads
  import opened Bip32
  import opened Buffers
  import opened ChangeInfo
  import opened Deserialize
  import opened Decoder
  import opened Screens
  import opened Format
  import opened Base58
  import Spec = Session
  import opened Sorting
  import opened Confirmation
  import opened Runs
  import opened Theorems

  /** The fields of an output that the screen relies on. */
  predicate WellFormed(o: Spec.TxOutput) {
    o.index < 255 && |o.wire.pubkeyHash| == PUBKEY_HASH_LEN && o.wire.value <= 0x8000_0000_0000_0000
  }

  predicate AllWellFormed(outputs: seq<Spec.TxOutput>) {
    forall i :: 0 <= i < |outputs| ==> WellFormed(outputs[i])
  }

  /** One of the two networks, a registry of at most ten symbols: C strings of at most five characters. */
  predicate ProperEnv(env: Env) {
    && IsVersion(env.version) && |env.registry| <= TX_MAX_TOKENS
    && forall i :: 0 <= i < |env.registry| ==>
                     |env.registry[i].symbol| <= MAX_TOKEN_SYMBOL_LEN && '\0' !in env.registry[i].symbol
  }

  lemma NoneWellFormed(n: nat)
    ensures AllWellFormed(Spec.NoOutputs(n))
  {
  }

  /** What the three lines on the screen say about the output whose turn it is: its number, the
      address it is sent to, and its amount. */
  predicate Shows(env: Env, s: Spec.Session, index: string, address: string, amount: string) {
    && s.ctx.displayIndex < |s.ctx.outputs|
    && var o := Spec.Shown(s);
       var checksum, symbol := env.checksum(o.wire.pubkeyHash), Spec.SymbolOf(s.ctx.p, o.wire.tokenData);
       && HasText(index, 0, IndexLine(s.ctx.changes, s.ctx.p.outputsLen, o.index))
       && checksum.Some? && HasText(address, 0, Encode58(Address(env.version, o.wire.pubkeyHash, checksum.value)))
       && symbol.Some? && HasText(amount, 0, AmountLine(symbol.value, o.wire.value))
  }

  class Device {
    const env: Env
    const buffer: array<byte>
    const changeInfo: array<Change>
    const outputs: array<Spec.TxOutput>
    const tokens: array<TokenSymbol>

    const outputIndex: array<char>
    const address: array<char>
    const amount: array<char>

    var state: Spec.State
    var signing: bool
    var bufferLen: nat
    var hashed: seq<byte>
    var finalised: bool
    var sighash: seq<byte>
    var changeLen: byte
    var remainingTokens: byte
    var remainingInputs: byte
    var outputsLen: byte
    var currentOutput: byte
    var displayIndex: byte
    var confirmedOutputs: byte
    var bufferOutputLen: byte
    var tokensLen: byte

    var flow: Spec.Flow
    var replies: seq<Spec.Reply>
    ghost var log: Spec.History

    ghost predicate Valid()
      reads this, outputs
    {
      && ProperEnv(env)
      && buffer.Length == Spec.BUFFER_SIZE && changeInfo.Length == MAX_CHANGES
      && outputs.Length == Spec.OUTPUTS_SIZE && tokens.Length == TX_MAX_TOKENS
      && outputIndex.Length == G_OUTPUT_INDEX_SIZE && address.Length == B58_ADDRESS_LEN
      && amount.Length == G_AMOUNT_SIZE
      && bufferLen <= Spec.BUFFER_SIZE && tokensLen <= TX_MAX_TOKENS
      && (outputsLen > 0 ==> changeLen <= MAX_CHANGES)
      && (bufferOutputLen > 0 ==> outputsLen > 0)
      && AllWellFormed(outputs[..])
    }

    /** The change entries matter only once there are outputs. */
    ghost function Changes(): seq<Change>
      reads this, changeInfo, outputs
      requires Valid()
    {
      if outputsLen == 0 then [] else changeInfo[..changeLen]
    }

    ghost function DecoderProgress(): Progress
      reads this, tokens, outputs
      requires Valid()
    {
      Progress(remainingTokens, remainingInputs, outputsLen, tokens[..tokensLen], currentOutput)
    }

    /** The state of the session's state machine. */
    ghost function State(): Spec.Session
      reads this, buffer, changeInfo, outputs, tokens
      requires Valid()
    {
      Spec.Session(
        Spec.Context(state, signing, buffer[..bufferLen], hashed, finalised, sighash, Changes(), DecoderProgress(),
                displayIndex, confirmedOutputs, outputs[..], bufferOutputLen),
        flow, log)
    }

    /** The three screen buffers show the output whose turn it is. */
    ghost predicate OnScreen()
      requires Valid()
      reads this, buffer, changeInfo, outputs, tokens, outputIndex, address, amount
    {
      Shows(env, State(), outputIndex[..], address[..], amount[..])
    }

    /** Between two events: whenever the user is asked about an output, it is the one on the screen. */
    ghost predicate Consistent()
      reads this, buffer, changeInfo, outputs, tokens, outputIndex, address, amount
    {
      Valid() && (flow == Spec.ShowOutput ==> outputsLen > 0 && OnScreen())
    }

    /** Power-on: everything is zero and the menu is shown. */
    constructor (env: Env)
      requires ProperEnv(env)
      ensures Sound() && State() == Spec.Idle() && replies == [] && this.env == env
      ensures fresh(buffer) && fresh(changeInfo) && fresh(outputs) && fresh(tokens)
      ensures fresh(outputIndex) && fresh(address) && fresh(amount)
    {
      hide Reached, Shows, AllWellFormed, ProperEnv, Spec.NoOutputs;
      this.env := env;
      buffer := new byte[Spec.BUFFER_SIZE](_ => 0);
      changeInfo := new Change[MAX_CHANGES](_ => Change(0, []));
      outputs := new Spec.TxOutput[Spec.OUTPUTS_SIZE](_ => Spec.NoOutput());
      tokens := new TokenSymbol[TX_MAX_TOKENS](_ => TokenSymbol([], ""));
      outputIndex := new char[G_OUTPUT_INDEX_SIZE](_ => '\0');
      address := new char[B58_ADDRESS_LEN](_ => '\0');
      amount := new char[G_AMOUNT_SIZE](_ => '\0');
      state, signing, bufferLen, hashed, finalised, sighash := Spec.StateNone, false, 0, [], false, [];
      changeLen, remainingTokens, remainingInputs, outputsLen, currentOutput := 0, 0, 0, 0, 0;
      displayIndex, confirmedOutputs, bufferOutputLen, tokensLen := 0, 0, 0, 0;
      flow, replies, log := Spec.Menu, [], Spec.EMPTY;
      new;
      assert outputs[..] == Spec.NoOutputs(Spec.OUTPUTS_SIZE);
      NoneWellFormed(Spec.OUTPUTS_SIZE);
      assert Valid() && State() == Spec.Idle();
      ReachedIdle(env);
    }

    /** The arrays of the context are wiped. */
    method ZeroArrays()
      requires Valid()
      modifies buffer, changeInfo, outputs, tokens
      ensures AllWellFormed(outputs[..]) && outputs[..] == Spec.NoOutputs(Spec.OUTPUTS_SIZE)
    {
      forall i | 0 <= i < buffer.Length {
        buffer[i] := 0;
      }
      forall i | 0 <= i < changeInfo.Length {
        changeInfo[i] := Change(0, []);
      }
      var zeros := ToBytes(0, TOKEN_UID_LEN);
      forall i | 0 <= i < tokens.Length {
        tokens[i] := TokenSymbol(zeros, "");
      }
      var none := Spec.NoOutput();
      forall i | 0 <= i < outputs.Length {
        outputs[i] := none;
      }
    }

    method ZeroCounters()
      modifies `changeLen, `remainingTokens, `remainingInputs, `outputsLen, `currentOutput,
               `displayIndex, `confirmedOutputs, `bufferOutputLen, `tokensLen, `bufferLen
      ensures changeLen == remainingTokens == remainingInputs == outputsLen == currentOutput == 0
      ensures displayIndex == confirmedOutputs == bufferOutputLen == tokensLen == bufferLen == 0
    {
      changeLen, remainingTokens, remainingInputs, outputsLen, currentOutput := 0, 0, 0, 0, 0;
      displayIndex, confirmedOutputs, bufferOutputLen, tokensLen, bufferLen := 0, 0, 0, 0, 0;
    }

    method ZeroRest()
      modifies `hashed, `finalised, `sighash, `state, `signing, `log
      ensures hashed == sighash == [] && !finalised && state == Spec.StateNone && !signing && log == Spec.EMPTY
    {
      hashed, finalised, sighash := [], false, [];
      state, signing := Spec.StateNone, false;
      log := Spec.EMPTY;
    }

    /** The whole context is wiped. */
    method Bzero()
      requires Valid()
      modifies this, buffer, changeInfo, outputs, tokens
      ensures Valid() && State() == Spec.Session(Spec.ZeroContext(), old(flow), Spec.EMPTY)
      ensures replies == old(replies)
    {
      hide AllWellFormed, ProperEnv, Spec.NoOutputs, Spec.NoOutput, ToBytes;
      ZeroArrays();
      ZeroCounters();
      ZeroRest();
      assert Valid();
      assert DecoderProgress() == Start(0, 0, 0);
    }

    /** The state machine's result has come about. */
    ghost predicate Did(r: Spec.Result, was: seq<Spec.Reply>)
      requires Valid()
      reads this, buffer, changeInfo, outputs, tokens
    {
      State() == r.s && replies == was + r.replies
    }

    // ---- src/ui/display.c ----

    /** Wipes the context, answers, and shows the menu. */
    method Abort(sw: nat)
      requires Valid()
      modifies this, buffer, changeInfo, outputs, tokens
      ensures Valid() && Did(Spec.Abort(sw), old(replies))
      ensures state == Spec.StateNone && !signing && hashed == [] && flow == Spec.Menu
      ensures replies == old(replies) + [Spec.Status(sw)]
    {
      hide AllWellFormed, ProperEnv, Spec.NoOutputs;
      Bzero();
      replies := replies + [Spec.Status(sw)];
      flow := Spec.Menu;
    }

    method UiDisplayTxConfirm()
      requires Valid()
      modifies this, buffer, changeInfo, outputs, tokens
      ensures Valid() && Did(Spec.ShowConfirmTx(old(State())), old(replies))
    {
      hide AllWellFormed, ProperEnv, Spec.Abort;
      if !signing || state != Spec.StateParsed {
        Abort(SW_BAD_STATE);
      } else {
        flow := Spec.ConfirmTx;
      }
    }

    /** The queue is empty again, and the host may send more. */
    method RequestMore()
      requires Valid()
      modifies `bufferOutputLen, `displayIndex, `replies, `flow
      ensures Valid() && replies == old(replies) + [Spec.Status(SW_OK)]
      ensures var s := old(State());
              State() == s.(ctx := s.ctx.(queueLen := 0, displayIndex := 0), flow := Spec.Menu)
    {
      hide AllWellFormed, ProperEnv;
      bufferOutputLen, displayIndex := 0, 0;
      replies := replies + [Spec.Status(SW_OK)];
      flow := Spec.Menu;
    }

    method CheckOutputIndexState() returns (done: bool)
      requires Valid()
      modifies this, buffer, changeInfo, outputs, tokens
      ensures Valid() && Did(Spec.CheckOutputIndexState(old(State())), old(replies))
      ensures done == Spec.CheckOutputIndexState(old(State())).done
    {
      hide AllWellFormed, ProperEnv, Spec.ShowConfirmTx;
      if confirmedOutputs == outputsLen {
        state := Spec.StateParsed;
        UiDisplayTxConfirm();
        return true;
      }
      if displayIndex == bufferOutputLen {
        RequestMore();
        return true;
      }
      return false;
    }

    /** The change indices in order. */
    method SortedIndices() returns (list: array<byte>)
      requires Valid() && outputsLen > 0 && changeLen > 0
      ensures fresh(list) && list.Length == MAX_CHANGES
      ensures Sorted(list[..changeLen]) && Ahead(State(), list[..changeLen])
    {
      hide AllWellFormed, ProperEnv, Sorted, Ahead;
      list := new byte[MAX_CHANGES](_ => 0);
      forall i | 0 <= i < changeLen {
        list[i] := changeInfo[i].index;
      }
      ghost var before := list[..changeLen];
      assert before == Spec.Indices(State().ctx.changes);
      InplaceSelectionSort(changeLen, list);
      PermutedAhead(State(), before, list[..changeLen]);
    }

    method SkipChangeOutputs() returns (done: bool)
      requires Valid() && outputsLen > 0
      modifies this, buffer, changeInfo, outputs, tokens
      ensures Valid() && Did(Spec.SkipChangeOutputs(old(State())), old(replies))
      ensures done == Spec.SkipChangeOutputs(old(State())).done
    {
      hide AllWellFormed, ProperEnv, Sorted, Ahead, Spec.SkipPass;
      if changeLen == 0 {
        return false;
      }
      var changeIndices := SortedIndices();
      SinglePassSuffices(State(), changeIndices[..changeLen]);
      done := SkipOnce(changeIndices);
    }

    /** The state machine's result has come about, or the program is where the model stops. */
    ghost predicate Comes(r: Spec.Result, was: seq<Spec.Reply>)
      requires Valid()
      reads this, buffer, changeInfo, outputs, tokens
    {
      if r.s.flow.Stopped? then flow == r.s.flow else Did(r, was)
    }

    /** The symbol to print; a null pointer would be followed beyond the tokens received. */
    method FindSymbol(tokenData: byte) returns (symbol: Option<string>)
      requires Valid()
      ensures symbol == Spec.SymbolOf(DecoderProgress(), tokenData)
      ensures tokenData == 0 ==> symbol == Some("HTR")
      ensures 1 <= tokenData <= tokensLen ==> symbol == Some(tokens[tokenData - 1].symbol)
    {
      hide AllWellFormed, ProperEnv;
      var tokenIndex := tokenData % 128;
      if tokenIndex == 0 {
        return Some("HTR");
      }
      if tokenIndex - 1 >= tokensLen {
        return None;
      }
      return Some(tokens[tokenIndex - 1].symbol);
    }

    /** Fills the screen buffers with the next output of the queue. */
    method FillScreen() returns (done: bool)
      requires Valid() && outputsLen > 0
      modifies this, buffer, changeInfo, outputs, tokens, outputIndex, address, amount
      ensures Valid() && Comes(Spec.ShowNext(env, Spec.Result(old(State()), false, [])), old(replies))
      ensures done == Spec.ShowNext(env, Spec.Result(old(State()), false, [])).done
      ensures !done ==> OnScreen()
    {
      hide AllWellFormed, HasText, Encode58, IndexLine, AmountLine, AmountFits, Address, Spec.Abort, Spec.SymbolOf;
      if displayIndex >= Spec.OUTPUTS_SIZE {
        flow := Spec.Stopped(Spec.OutOfBounds);
        return true;
      }
      var output := outputs[displayIndex];
      OneWellFormed(outputs[..], displayIndex);
      FillIndex(changeInfo[..changeLen], outputsLen, output.index, outputIndex);
      var checksum := env.checksum(output.wire.pubkeyHash);
      if checksum.None? {
        Abort(SW_INTERNAL_ERROR);
        return true;
      }
      FillAddress(env.version, output.wire.pubkeyHash, checksum.value, address);
      var symbol := FindSymbol(output.wire.tokenData);
      if symbol.None? || !AmountFits(symbol.value, output.wire.value) {
        flow := Spec.Stopped(Spec.OutOfBounds);
        return true;
      }
      FillAmount(symbol.value, output.wire.value, amount);
      return false;
    }

    /** Both indices move on. */
    method NextOutput()
      requires Valid()
      modifies `displayIndex, `confirmedOutputs
      ensures Valid() && State() == Spec.NextOutput(old(State()))
    {
      hide AllWellFormed, ProperEnv;
      displayIndex, confirmedOutputs := (displayIndex + 1) % 256, (confirmedOutputs + 1) % 256;
    }

    /** A change output is passed over. */
    method PassOutput() returns (done: bool)
      requires Valid() && outputsLen > 0
      modifies this, buffer, changeInfo, outputs, tokens
      ensures var r := Spec.CheckOutputIndexState(Spec.NextOutput(old(State())));
              Valid() && Did(r, old(replies)) && done == r.done
      ensures !done ==> State() == Spec.NextOutput(old(State())) && replies == old(replies)
                        && outputsLen == old(outputsLen) && changeLen == old(changeLen)
    {
      hide AllWellFormed, ProperEnv, Spec.CheckOutputIndexState;
      NextOutput();
      ghost var s := State();
      assert |s.ctx.changes| == changeLen && s.ctx.p.outputsLen == outputsLen;
      done := CheckOutputIndexState();
      if !done {
        CheckContinues(s);
        assert |State().ctx.changes| == changeLen;
      }
    }

    method SkipOnce(list: array<byte>) returns (done: bool)
      requires Valid() && outputsLen > 0 && list.Length == MAX_CHANGES && list != buffer
      modifies this, buffer, changeInfo, outputs, tokens
      ensures Valid() && Did(Spec.SkipPass(old(State()), old(list[..changeLen])), old(replies))
      ensures done == Spec.SkipPass(old(State()), old(list[..changeLen])).done
    {
      hide AllWellFormed, ProperEnv, Spec.CheckOutputIndexState;
      ghost var indices: seq<nat> := list[..changeLen];
      ghost var s := State();
      assert indices[0..] == indices;
      var i := 0;
      while i < changeLen
        invariant Valid() && outputsLen > 0 && i <= changeLen == |indices| && replies == old(replies)
        invariant list[..changeLen] == indices
        invariant Spec.SkipPass(State(), indices[i..]) == Spec.SkipPass(s, indices)
      {
        assert indices[i..][0] == list[i] && indices[i..][1..] == indices[i + 1..];
        if confirmedOutputs == list[i] {
          done := PassOutput();
          if done {
            return;
          }
        }
        i := i + 1;
      }
      return false;
    }

    /** Nothing is left to show, or the screen is ready. */
    method PrepareDisplayOutput() returns (done: bool)
      requires Valid() && outputsLen > 0
      modifies this, buffer, changeInfo, outputs, tokens, outputIndex, address, amount
      ensures var r := Spec.PrepareDisplayOutput(env, old(State()));
              Valid() && Comes(r, old(replies)) && done == r.done
      ensures !done ==> OnScreen()
    {
      hide AllWellFormed, ProperEnv, Spec.CheckOutputIndexState, Spec.SkipChangeOutputs, Spec.ShowNext, Shows;
      ghost var s := State();
      assert s.ctx.p.outputsLen == outputsLen;
      done := CheckOutputIndexState();
      CheckOnlyEnds(s);
      if done {
        return;
      }
      assert outputsLen == State().ctx.p.outputsLen;
      done := SkipChangeOutputs();
      SkipOnlyEnds(s);
      if done {
        DoneShowsNothing(env, Spec.SkipChangeOutputs(s));
        return;
      }
      assert outputsLen == State().ctx.p.outputsLen;
      done := FillScreen();
    }

    method UiDisplayTxOutputs()
      requires Valid() && outputsLen > 0 && !flow.Stopped?
      modifies this, buffer, changeInfo, outputs, tokens, outputIndex, address, amount
      ensures Consistent() && Comes(Spec.DisplayTxOutputs(env, old(State())), old(replies))
    {
      hide AllWellFormed, ProperEnv, Spec.PrepareDisplayOutput, Shows;
      assert State().ctx.p.outputsLen == outputsLen;
      PrepareOnlyEnds(env, State());
      var done := PrepareDisplayOutput();
      if done {
        assert flow != Spec.ShowOutput by {
          assert State().flow == flow;
        }
        return;
      }
      ghost var s := State();
      assert s.ctx.p.outputsLen == outputsLen;
      flow := Spec.ShowOutput;
      ShowsStill(env, s, State(), outputIndex[..], address[..], amount[..]);
    }

    /** For the history only: the output on the screen is approved. */
    ghost method NoteApproval()
      requires Consistent() && flow == Spec.ShowOutput
      modifies `log
      ensures Valid() && outputsLen > 0
      ensures var s := old(State());
              s.ctx.displayIndex < |s.ctx.outputs|
              && State() == s.(log := s.log.(approved := s.log.approved + [Spec.Shown(s)]))
    {
      hide AllWellFormed, ProperEnv;
      log := log.(approved := log.approved + [Spec.Shown(State())]);
    }

    /** The output on the screen is confirmed, and the next one has its turn. */
    method Confirm()
      requires Consistent() && flow == Spec.ShowOutput
      modifies `log, `displayIndex, `confirmedOutputs
      ensures Valid() && outputsLen > 0
      ensures old(State()).ctx.displayIndex < |old(State()).ctx.outputs| && State() == Approve(old(State()))
    {
      hide AllWellFormed, ProperEnv, OnScreen, Spec.NextOutput;
      NoteApproval();
      NextOutput();
    }

    /** The user's answer about the output on the screen. */
    method UiConfirmOutput(choice: bool)
      requires Consistent() && flow == Spec.ShowOutput
      modifies this, buffer, changeInfo, outputs, tokens, outputIndex, address, amount
      ensures Consistent() && Comes(Spec.ConfirmOutput(env, old(State()), choice), old(replies))
    {
      hide AllWellFormed, ProperEnv, Spec.Abort, Spec.SkipChangeOutputs, Spec.DisplayTxOutputs, Spec.NextOutput,
           Approve, OnScreen;
      if choice {
        Confirm();
        ghost var s := State();
        ApproveIs(env, old(State()));
        SkipOnlyEnds(s);
        var done := SkipChangeOutputs();
        assert State().flow == flow && State().ctx.p.outputsLen == outputsLen;
        if done {
          return;
        }
        UiDisplayTxOutputs();
      } else {
        Abort(SW_DENY);
      }
    }

    /** The user's answer to the final question. */
    method UiActionTxConfirm(choice: bool)
      requires Consistent() && flow == Spec.ConfirmTx
      modifies this, buffer, changeInfo, outputs, tokens
      ensures Consistent() && Comes(Spec.ActionTxConfirm(old(State()), choice), old(replies))
      ensures replies == old(replies) + [Spec.Status(if choice then 0x9000 else 0x6985)]
      ensures choice ==> state == Spec.StateApproved && flow == Spec.Processing && hashed == old(hashed)
      ensures !choice ==> state == Spec.StateNone && flow == Spec.Menu && hashed == []
    {
      hide AllWellFormed, ProperEnv, Spec.ZeroContext, Shows, Spec.Idle, Spec.Abort;
      if choice {
        state := Spec.StateApproved;
        replies := replies + [Spec.Status(SW_OK)];
        flow := Spec.Processing;
        log := log.(granted := true);
        return;
      } else {
        Abort(SW_DENY);
      }
    }

    method ActionExitToMenu()
      requires Consistent() && flow == Spec.Processing
      modifies this, buffer, changeInfo, outputs, tokens
      ensures Consistent() && Comes(Spec.Result(Spec.Idle(), true, []), old(replies))
    {
      hide AllWellFormed, ProperEnv, Spec.ZeroContext;
      Bzero();
      flow := Spec.Menu;
    }

    // ---- src/handler/sign_tx.c ----

    /** The index of a registered token, or -1. */
    method FindTokenRegistryIndex(uid: seq<byte>) returns (index: int)
      requires Valid()
      ensures match FindToken(env.registry, uid) case None => index == -1 case Some(i) => index == i
    {
      var r := env.registry;
      assert r[0..] == r;
      for i := 0 to |r|
        invariant FindToken(r, uid) == match FindToken(r[i..], uid) { case None => None case Some(k) => Some(i + k) }
      {
        assert r[i..][0] == r[i] && r[i..][1..] == r[i + 1..];
        if r[i].uid == uid {
          return i;
        }
      }
      return -1;
    }

    /** Every change entry for the output is verified; a failing derivation throws. */
    method VerifyChanges(index: nat, hash: seq<byte>) returns (v: Verdict)
      requires Valid() && outputsLen > 0
      ensures v == CheckChange(env, Changes(), index, hash)
    {
      hide AllWellFormed, ProperEnv;
      ghost var c := Changes();
      assert c[0..] == c;
      for i := 0 to changeLen
        invariant CheckChange(env, c, index, hash) == CheckChange(env, c[i..], index, hash)
      {
        assert c[i..][0] == changeInfo[i] && c[i..][1..] == c[i + 1..];
        if changeInfo[i].index == index {
          v := env.verifyChange(changeInfo[i].path, hash);
          if v != Ours {
            return;
          }
        }
      }
      return Ours;
    }

    /** The decoded bytes leave the buffer, the rest moves to its front. */
    method Shift(n: nat)
      requires Valid() && n <= bufferLen
      modifies `bufferLen, buffer
      ensures Valid() && bufferLen == old(bufferLen) - n
      ensures State() == old(State()).(ctx := old(State()).ctx.(buffer := old(State()).ctx.buffer[n..]))
    {
      hide AllWellFormed, ProperEnv;
      MoveFront(n, bufferLen - n);
      bufferLen := bufferLen - n;
    }

    method MoveFront(n: nat, left: nat)
      requires n + left <= buffer.Length
      modifies buffer
      ensures buffer[..left] == old(buffer[n..n + left])
    {
      forall i | 0 <= i < left {
        buffer[i] := buffer[i + n];
      }
    }

    /** What one call of the element decoder comes to, by what is in front of the buffer. */
    ghost predicate Decodes(s: Spec.Session, peel: Peel, r: Taken)
      requires Valid()
      reads this, buffer, changeInfo, outputs, tokens
    {
      match peel
      case Short => r == Raise(TX_STATE_READY) && State() == s
      case Bad => r == Raise(TX_STATE_ERR) || r == Raise(SW_TX_PARSING_FAIL)
      case Raised => r == Raise(SW_INTERNAL_ERROR)
      case Overrun => r == Astray
      case Peeled(e, n) =>
        n <= |s.ctx.buffer| && Allowed(s.ctx.p, e) &&
        if e.Output? && s.ctx.queueLen >= |s.ctx.outputs| then r == Raise(TX_STATE_ERR)
        else State() == Spec.Take(s, e, n) && r == More(State().ctx.buffer != [])
    }

    method DecodeToken() returns (r: Taken)
      requires Valid() && remainingTokens > 0
      modifies `bufferLen, buffer, `tokensLen, tokens, `remainingTokens
      ensures Valid()
      ensures var s := old(State()); Decodes(s, PeelToken(env, s.ctx.p, s.ctx.buffer), r)
    {
      hide AllWellFormed, ProperEnv;
      if bufferLen < TOKEN_UID_LEN {
        return Raise(TX_STATE_READY);
      }
      var uid := buffer[..TOKEN_UID_LEN];
      assert uid == State().ctx.buffer[..TOKEN_UID_LEN];
      var registryIndex := FindTokenRegistryIndex(uid);
      if registryIndex == -1 {
        return Raise(TX_STATE_ERR);
      }
      if tokensLen >= TX_MAX_TOKENS {
        return Astray;
      }
      StoreToken(env.registry[registryIndex]);
      Shift(TOKEN_UID_LEN);
      return More(bufferLen != 0);
    }

    method StoreToken(token: TokenSymbol)
      requires Valid() && remainingTokens > 0 && tokensLen < TX_MAX_TOKENS
      modifies `tokensLen, tokens, `remainingTokens
      ensures Valid()
      ensures State() == old(State()).(ctx := old(State()).ctx.(p := Advance(old(State()).ctx.p, Token(token))))
    {
      hide AllWellFormed, ProperEnv;
      ghost var before := tokens[..tokensLen];
      tokens[tokensLen] := token;
      tokensLen := tokensLen + 1;
      remainingTokens := remainingTokens - 1;
      assert tokens[..tokensLen] == before + [token];
    }

    method DecodeInput() returns (r: Taken)
      requires Valid() && remainingInputs > 0 && remainingTokens == 0
      modifies `bufferLen, buffer, `remainingInputs
      ensures Valid()
      ensures var s := old(State()); Decodes(s, PeelInput(s.ctx.buffer), r)
    {
      hide AllWellFormed, ProperEnv, Value;
      if bufferLen < TX_INPUT_LEN {
        return Raise(TX_STATE_READY);
      }
      var inputDataLen := ReadU16Be(buffer, 33);
      assert buffer[33..35] == State().ctx.buffer[33..35];
      if inputDataLen > 0 {
        return Raise(TX_STATE_ERR);
      }
      remainingInputs := remainingInputs - 1;
      Shift(TX_INPUT_LEN);
      return More(bufferLen != 0);
    }

    /** A decoded output joins the queue. */
    method StoreOutput(output: Spec.TxOutput)
      requires Valid() && bufferOutputLen < Spec.OUTPUTS_SIZE && outputsLen > 0 && WellFormed(output)
      modifies `bufferOutputLen, outputs, `log
      ensures Valid()
      ensures var s := old(State());
              State() == s.(ctx := s.ctx.(outputs := s.ctx.outputs[s.ctx.queueLen := output],
                                          queueLen := s.ctx.queueLen + 1),
                            log := s.log.(decoded := s.log.decoded + [output]))
    {
      hide ProperEnv;
      ghost var before := outputs[..];
      outputs[bufferOutputLen] := output;
      assert outputs[..] == before[bufferOutputLen := output];
      bufferOutputLen := bufferOutputLen + 1;
      log := log.(decoded := log.decoded + [output]);
    }

    method DecodeOutput() returns (r: Taken)
      requires Valid() && remainingInputs == remainingTokens == 0 && currentOutput < outputsLen
      modifies `bufferLen, buffer, `currentOutput, `bufferOutputLen, outputs, `log
      ensures Valid()
      ensures var s := old(State()); Decodes(s, PeelOutput(env, s.ctx.changes, s.ctx.p, s.ctx.buffer), r)
    {
      hide AllWellFormed, ProperEnv, ParseBytes, CheckChange, Encodable;
      var parsed := ParseOutput(buffer, bufferLen);
      if parsed.Thrown? {
        return Raise(parsed.code);
      }
      var (wire, outputLen) := parsed.value;
      ParsedWire(buffer[..bufferLen]);
      if wire.tokenData >= 0x80 {
        return Raise(TX_STATE_ERR);
      }
      if wire.tokenData % 0x80 > tokensLen {
        return Raise(TX_STATE_ERR);
      }
      var verdict := VerifyChanges(currentOutput, wire.pubkeyHash);
      if verdict != Ours {
        return Raise(if verdict == Failed then SW_INTERNAL_ERROR else TX_STATE_ERR);
      }
      r := TakeOutput(wire, outputLen);
    }

    /** The output gets its index, its bytes leave the buffer, and it is queued if there is room. */
    method TakeOutput(wire: WireOutput, outputLen: nat) returns (r: Taken)
      requires Valid() && currentOutput < outputsLen && outputLen <= bufferLen
      requires WellFormed(Spec.TxOutput(currentOutput, wire))
      modifies `bufferLen, buffer, `currentOutput, `bufferOutputLen, outputs, `log
      ensures Valid()
      ensures Decodes(old(State()), Peeled(Output(wire, outputLen == 36), outputLen), r)
    {
      hide AllWellFormed, ProperEnv, WellFormed;
      var output := Spec.TxOutput(currentOutput, wire);
      currentOutput := currentOutput + 1;
      Shift(outputLen);
      if bufferOutputLen >= Spec.OUTPUTS_SIZE {
        return Raise(TX_STATE_ERR);
      }
      StoreOutput(output);
      return More(bufferLen != 0);
    }

    method DecodeElement() returns (r: Taken)
      requires Valid()
      modifies `bufferLen, buffer, `tokensLen, tokens, `remainingTokens, `remainingInputs,
               `currentOutput, `bufferOutputLen, outputs, `log
      ensures Valid()
      ensures var s := old(State()); Decodes(s, PeelOne(env, s.ctx.changes, s.ctx.p, s.ctx.buffer), r)
    {
      hide AllWellFormed, ProperEnv, PeelToken, PeelInput, PeelOutput, Decodes;
      ghost var s := State();
      if remainingTokens > 0 {
        r := DecodeToken();
      } else if remainingInputs > 0 {
        r := DecodeInput();
      } else if currentOutput < outputsLen {
        r := DecodeOutput();
      } else {
        r := Raise(TX_STATE_ERR);
        BadEnds(s, r);
      }
    }

    lemma BadEnds(s: Spec.Session, r: Taken)
      requires Valid() && r == Raise(TX_STATE_ERR)
      ensures Decodes(s, Bad, r)
    {
    }

    /** What the whole decoding loop reports. */
    ghost predicate Reports(d: Spec.Decoded, result: nat, astray: bool)
      requires Valid()
      reads this, buffer, changeInfo, outputs, tokens
    {
      match d
      case DecodedAll(s) => !astray && result == TX_STATE_READY && State() == s
      case DecodeError => !astray && result == TX_STATE_ERR
      case DecodeThrow => !astray && result == SW_INTERNAL_ERROR
      case DecodeOverrun => astray
    }

    method DecodeElements() returns (result: nat, astray: bool)
      requires Valid()
      modifies `bufferLen, buffer, `tokensLen, tokens, `remainingTokens, `remainingInputs,
               `currentOutput, `bufferOutputLen, outputs, `log
      ensures Valid() && Reports(Spec.DecodeElements(env, old(State())), result, astray)
    {
      hide AllWellFormed, ProperEnv, PeelOne, Spec.Take, Spec.DecodeElements;
      ghost var whole := Spec.DecodeElements(env, State());
      var more := true;
      while more
        invariant Valid()
        invariant whole == if more then Spec.DecodeElements(env, State()) else Spec.DecodedAll(State())
        decreases bufferLen, more
      {
        ghost var s := State();
        DecodeStep(env, s);
        var r := DecodeElement();
        match r
        case Astray =>
          return 0, true;
        case Raise(code) =>
          return if code == SW_TX_PARSING_FAIL then TX_STATE_ERR else code, false;
        case More(m) =>
          assert State().ctx.buffer == buffer[..bufferLen];
          more := m;
      }
      return TX_STATE_READY, false;
    }

    method DecodeAndShow()
      requires Valid() && !flow.Stopped? && flow != Spec.ShowOutput
      modifies this, buffer, changeInfo, outputs, tokens, outputIndex, address, amount
      ensures Consistent() && Comes(Spec.DecodeAndShow(env, old(State())), old(replies))
    {
      hide AllWellFormed, ProperEnv, Spec.Abort, Shows, Spec.DecodeElements, Spec.DisplayTxOutputs;
      var result, astray := DecodeElements();
      if astray {
        flow := Spec.Stopped(Spec.OutOfBounds);
      } else if result == TX_STATE_ERR {
        Abort(SW_INVALID_TX);
      } else if result == TX_STATE_READY {
        if bufferOutputLen != 0 {
          log := log.(cuts := log.cuts + [currentOutput]);
          UiDisplayTxOutputs();
        } else {
          replies := replies + [Spec.Status(SW_OK)];
        }
      } else {
        flow := Spec.Stopped(Spec.Restarted);
      }
    }

    /** An exception that reaches the main loop is sent to the host as it is. */
    method Throw(code: nat)
      requires Valid()
      modifies `replies
      ensures Valid() && State() == old(State()) && replies == old(replies) + [Spec.Status(code)]
    {
      replies := replies + [Spec.Status(code)];
    }

    method InitSignTxCtx()
      requires Valid()
      modifies this, buffer, changeInfo, outputs, tokens
      ensures Valid() && State() == Spec.Session(Spec.Opened([], []), old(flow), Spec.EMPTY) && replies == old(replies)
    {
      hide AllWellFormed, ProperEnv;
      Bzero();
      signing := true;
      state := Spec.StateRecvData;
    }

    /** The rest of the command goes into the hash. */
    method SighashAllHash(cdata: Buffer)
      requires Valid() && cdata.Valid()
      modifies `hashed
      ensures Valid()
      ensures var s := old(State()); State() == s.(ctx := s.ctx.(hashed := s.ctx.hashed + old(cdata.Rest())))
    {
      hide AllWellFormed, ProperEnv;
      hashed := hashed + cdata.ptr[cdata.offset..cdata.size];
    }

    /** The rest of the command is copied behind what the buffer holds. */
    method BufferCopy(cdata: Buffer) returns (ok: bool)
      requires Valid() && cdata.Valid() && cdata.ptr != buffer
      modifies `bufferLen, buffer
      ensures Valid() && ok == (|old(cdata.Rest())| <= Spec.BUFFER_SIZE - |old(State()).ctx.buffer|)
      ensures var s := old(State());
              State() == if ok then s.(ctx := s.ctx.(buffer := s.ctx.buffer + old(cdata.Rest()))) else s
    {
      hide AllWellFormed, ProperEnv;
      ghost var before := buffer[..bufferLen];
      ok := cdata.Copy(buffer, bufferLen, Spec.BUFFER_SIZE - bufferLen);
      if ok {
        bufferLen := bufferLen + (cdata.size - cdata.offset);
        assert buffer[..bufferLen] == before + cdata.Rest();
      }
    }

    /** Two bytes of version, then the counts of tokens, inputs and outputs; a missing count is zero. */
    method ReadTxData(cdata: Buffer) returns (thrown: Option<nat>)
      requires cdata.Valid() && remainingTokens == remainingInputs == outputsLen == 0
      modifies `remainingTokens, `remainingInputs, `outputsLen, cdata`offset
      ensures cdata.Valid()
      ensures var b := old(cdata.Rest());
              && remainingTokens == Spec.At(b, 2) && remainingInputs == Spec.At(b, 3) && outputsLen == Spec.At(b, 4)
              && if |b| < 5 then thrown == Some(SW_WRONG_DATA_LENGTH) else thrown == None && cdata.Rest() == b[5..]
    {
      hide Value;
      var ok, version := cdata.ReadU16();
      if ok {
        ok, remainingTokens := cdata.ReadU8();
      }
      if ok {
        ok, remainingInputs := cdata.ReadU8();
      }
      if ok {
        ok, outputsLen := cdata.ReadU8();
      }
      return if ok then None else Some(SW_WRONG_DATA_LENGTH);
    }

    /** The header, hashed and read, behind the change information. */
    method ReadHeader(cdata: Buffer, ghost changes: seq<Change>) returns (thrown: Option<nat>)
      requires Valid() && cdata.Valid() && cdata.ptr != buffer
      requires State() == Spec.Session(Spec.Opened([], []), flow, Spec.EMPTY)
      requires changeLen <= MAX_CHANGES && changeInfo[..changeLen] == changes
      modifies `hashed, `remainingTokens, `remainingInputs, `outputsLen, cdata`offset
      ensures Valid() && cdata.Valid()
      ensures var rest := old(cdata.Rest());
              && State() == Spec.Session(Spec.Opened(changes, rest), flow, Spec.EMPTY)
              && if |rest| < 5 then thrown == Some(SW_WRONG_DATA_LENGTH)
                 else thrown == None && cdata.Rest() == rest[5..]
    {
      hide AllWellFormed, ProperEnv, Spec.NoOutputs;
      assert State().ctx.p == Start(0, 0, 0);
      SighashAllHash(cdata);
      assert [] + cdata.Rest() == cdata.Rest();
      thrown := ReadTxData(cdata);
    }

    /** What the first chunk brings in front of the elements. */
    method ReadOpening(cdata: Buffer) returns (thrown: Option<nat>)
      requires Valid() && cdata.Valid() && cdata.ptr != buffer
      requires State() == Spec.Session(Spec.Opened([], []), flow, Spec.EMPTY)
      modifies `changeLen, changeInfo, `hashed, `remainingTokens, `remainingInputs, `outputsLen, cdata`offset
      ensures Valid() && cdata.Valid()
      ensures match Read(old(cdata.Rest()))
              case Thrown(code) => thrown == Some(code) && State() == old(State())
              case Returned((changes, rest)) =>
                && State() == Spec.Session(Spec.Opened(changes, rest), flow, Spec.EMPTY)
                && if |rest| < 5 then thrown == Some(SW_WRONG_DATA_LENGTH)
                 else thrown == None && cdata.Rest() == rest[5..]
    {
      hide AllWellFormed, ProperEnv, Read;
      assert State().ctx.p == Start(0, 0, 0);
      var n: nat;
      thrown, n := ReadChangeInfo(cdata, changeInfo);
      if thrown.Some? {
        return;
      }
      changeLen := n;
      thrown := ReadHeader(cdata, changeInfo[..n]);
    }

    /** The command's bytes join the leftover and are decoded. */
    method CopyAndDecode(cdata: Buffer)
      requires Valid() && !flow.Stopped? && flow != Spec.ShowOutput && cdata.Valid() && cdata.ptr != buffer
      modifies this, buffer, changeInfo, outputs, tokens, outputIndex, address, amount
      ensures Consistent()
      ensures var s, b := old(State()), old(cdata.Rest());
              Comes(if |b| > Spec.BUFFER_SIZE - |s.ctx.buffer|
                    then Spec.Result(s, true, [Spec.Status(SW_WRONG_DATA_LENGTH)])
                    else Spec.DecodeAndShow(env, s.(ctx := s.ctx.(buffer := s.ctx.buffer + b))), old(replies))
    {
      hide AllWellFormed, ProperEnv, Shows, Spec.DecodeAndShow;
      var ok := BufferCopy(cdata);
      if !ok {
        Throw(SW_WRONG_DATA_LENGTH);
        return;
      }
      DecodeAndShow();
    }

    /** For the history only: the first chunk held the whole header. */
    ghost method NoteHeader()
      requires Valid()
      modifies `log
      ensures Valid() && State() == old(State()).(log := Spec.BEGUN)
    {
      hide AllWellFormed, ProperEnv;
      log := Spec.BEGUN;
    }

    method FirstChunk(cdata: Buffer)
      requires Valid() && !flow.Stopped? && flow != Spec.ShowOutput && cdata.Valid() && cdata.ptr != buffer
      modifies this, buffer, changeInfo, outputs, tokens, outputIndex, address, amount, cdata`offset
      ensures Consistent() && Comes(Spec.FirstChunk(env, old(State()), old(cdata.Rest())), old(replies))
    {
      hide AllWellFormed, ProperEnv, Shows, Read, Spec.Opened, Spec.DecodeAndShow, Spec.ZeroContext, Spec.NoOutputs;
      if state == Spec.StateRecvData {
        Bzero();
        Throw(SW_BAD_STATE);
        return;
      }
      ghost var opening := Read(cdata.Rest());
      InitSignTxCtx();
      var thrown := ReadOpening(cdata);
      if thrown.Some? {
        Throw(thrown.value);
        return;
      }
      NoteHeader();
      NothingBuffered(opening.value, cdata.Rest());
      CopyAndDecode(cdata);
    }

    method NextChunk(cdata: Buffer)
      requires Valid() && !flow.Stopped? && flow != Spec.ShowOutput && cdata.Valid() && cdata.ptr != buffer
      modifies this, buffer, changeInfo, outputs, tokens, outputIndex, address, amount
      ensures Consistent() && Comes(Spec.NextChunk(env, old(State()), old(cdata.Rest())), old(replies))
    {
      hide AllWellFormed, ProperEnv, Shows, Spec.DecodeAndShow;
      SighashAllHash(cdata);
      CopyAndDecode(cdata);
    }

    /** Data of the transaction: the first chunk or one that continues it. */
    method ReceiveData(cdata: Buffer, chunk: byte)
      requires Valid() && !flow.Stopped? && flow != Spec.ShowOutput && cdata.Valid() && cdata.ptr != buffer
      modifies this, buffer, changeInfo, outputs, tokens, outputIndex, address, amount, cdata`offset
      ensures Consistent()
      ensures var s, b := old(State()), old(cdata.Rest());
              Comes(if chunk == 0 then Spec.FirstChunk(env, s, b) else Spec.NextChunk(env, s, b), old(replies))
    {
      hide AllWellFormed, ProperEnv, Shows, Spec.FirstChunk, Spec.NextChunk;
      if chunk == 0 {
        FirstChunk(cdata);
      } else {
        NextChunk(cdata);
      }
    }

    /** The digest is computed at the first signature and kept.  What an error exit sends is dropped, and
        since sending gives zero there, it reports a failure. */
    method SignTxWithKey(path: seq<nat>) returns (ok: bool)
      requires Valid() && !flow.Stopped?
      modifies `sighash, `finalised, `flow, `replies
      ensures Valid() && (flow == old(flow) || flow == Spec.Stopped(Spec.HashReused))
      ensures var r := Spec.SignWithKey(env, old(State()), path);
              if ok then Comes(r, old(replies)) else r.s.flow == Spec.Stopped(Spec.Restarted)
    {
      hide AllWellFormed, ProperEnv;
      if path == [] {
        return false;
      }
      if !env.derives(path) {
        return false;
      }
      if Spec.Unset(sighash) {
        if finalised {
          flow := Spec.Stopped(Spec.HashReused);
          return true;
        }
        if !env.hashes(hashed) {
          return false;
        }
        FinishHash();
      }
      if !env.signs(path, sighash) {
        return false;
      }
      replies := replies + [Spec.Signature(path, sighash)];
      return true;
    }

    method FinishHash()
      requires Valid()
      modifies `sighash, `finalised
      ensures Valid() && sighash == env.sha256d(hashed)
      ensures var s := old(State());
              State() == s.(ctx := s.ctx.(sighash := env.sha256d(s.ctx.hashed), finalised := true))
    {
      hide AllWellFormed, ProperEnv;
      sighash := env.sha256d(hashed);
      finalised := true;
    }

    method ResetQueue()
      requires Valid()
      modifies `displayIndex, `bufferOutputLen
      ensures Valid() && State() == Spec.QueueReset(old(State()))
    {
      hide AllWellFormed, ProperEnv;
      displayIndex := 0;
      bufferOutputLen := 0;
    }

    method SignStage(cdata: Buffer)
      requires Valid() && flow != Spec.ShowOutput && !flow.Stopped?
      requires cdata.Valid()
      modifies `sighash, `finalised, `flow, `replies, cdata`offset
      ensures Valid() && flow != Spec.ShowOutput
      ensures var s, b := old(State()), old(cdata.Rest());
              Comes(if s.ctx.state != Spec.StateApproved then Spec.Result(s, true, [Spec.Status(SW_BAD_STATE)])
                    else match PathOf(b)
                      case None => Spec.Result(s, true, [Spec.Status(SW_WRONG_DATA_LENGTH)])
                      case Some(path) => Spec.SignWithKey(env, s, path), old(replies))
    {
      hide AllWellFormed, ProperEnv, PathOf, Spec.SignWithKey;
      if state != Spec.StateApproved {
        Throw(SW_BAD_STATE);
        return;
      }
      var ok, path := cdata.ReadBip32Path();
      if !ok {
        Throw(SW_WRONG_DATA_LENGTH);
        return;
      }
      var signed := SignTxWithKey(path);
      if !signed {
        flow := Spec.Stopped(Spec.Restarted);
      }
    }

    /** The command handler. */
    method HandlerSignTx(cdata: Buffer, stage: Stage, chunk: byte)
      requires Consistent() && !flow.Stopped? && !Spec.Pending(State())
      requires cdata.Valid() && cdata.ptr != buffer
      modifies this, buffer, changeInfo, outputs, tokens, outputIndex, address, amount, cdata`offset
      ensures Consistent()
      ensures Comes(Handled(env, old(State()), stage, chunk, old(cdata.Rest())), old(replies))
      ensures stage.DoneStage? ==>
                && state == Spec.StateNone && flow == Spec.Menu && hashed == []
                && replies == old(replies) + [Spec.Status(0x9000)]
    {
      hide AllWellFormed, ProperEnv, Shows, Spec.FirstChunk, Spec.NextChunk, Spec.SignWithKey, PathOf;
      ResetQueue();
      match stage
      case DoneStage =>
        Abort(SW_OK);
      case SignStage =>
        SignStage(cdata);
      case DataStage =>
        if state == Spec.StateApproved {
          Abort(SW_BAD_STATE);
          return;
        }
        if chunk > 0 && state != Spec.StateRecvData {
          Abort(SW_BAD_STATE);
          return;
        }
        ReceiveData(cdata, chunk);
    }

    // ---- Entry points, and what they keep ----

    /** Some run from power-on leads to the present state, or the model has stopped. */
    ghost predicate Sound()
      reads this, buffer, changeInfo, outputs, tokens, outputIndex, address, amount
    {
      Consistent() && (flow.Stopped? || Reached(env, State()))
    }

    /** A command of the host, sent when the previous one has been answered. */
    method Command(cdata: Buffer, stage: Stage, chunk: byte)
      requires Sound() && !flow.Stopped? && !Spec.Pending(State())
      requires cdata.Valid() && cdata.ptr != buffer && (stage.DoneStage? || 1 <= |cdata.Rest()| <= 255)
      modifies this, buffer, changeInfo, outputs, tokens, outputIndex, address, amount, cdata`offset
      ensures Sound()
      ensures Comes(Spec.Step(env, old(State()), CommandEvent(stage, chunk, old(cdata.Rest()))), old(replies))
      ensures stage.DoneStage? ==>
                && state == Spec.StateNone && flow == Spec.Menu && hashed == []
                && replies == old(replies) + [Spec.Status(0x9000)]
    {
      hide AllWellFormed, ProperEnv, Shows, Reached, Spec.Data, Spec.Sign;
      ghost var s, e := State(), CommandEvent(stage, chunk, cdata.Rest());
      HandlerSignTx(cdata, stage, chunk);
      ReachedStep(env, s, e);
    }

    /** The user's choice goes to the callback that the flow on the screen has set. */
    method Validate(choice: bool)
      requires Sound() && Spec.Pending(State())
      modifies this, buffer, changeInfo, outputs, tokens, outputIndex, address, amount
      ensures Sound()
      ensures var s, e := old(State()), Spec.UserChoice(choice);
              Spec.Enabled(s, e) && Comes(Spec.Step(env, s, e), old(replies))
      ensures !choice ==>
                && state == Spec.StateNone && flow == Spec.Menu && hashed == []
                && replies == old(replies) + [Spec.Status(0x6985)]
    {
      hide AllWellFormed, ProperEnv, Spec.ZeroContext, Reached, HasText, Spec.ConfirmOutput, Spec.ActionTxConfirm,
           Spec.Step;
      ghost var s := State();
      if flow == Spec.ShowOutput {
        UiConfirmOutput(choice);
      } else {
        UiActionTxConfirm(choice);
      }
      ChoiceStep(env, s, choice);
      ReachedStep(env, s, Spec.UserChoice(choice));
      if !choice {
        Denied(env, s);
      }
    }

    method Quit()
      requires Sound() && flow == Spec.Processing
      modifies this, buffer, changeInfo, outputs, tokens
      ensures Sound() && Comes(Spec.Step(env, old(State()), Spec.UserQuit), old(replies))
      ensures state == Spec.StateNone && flow == Spec.Menu && hashed == [] && replies == old(replies)
    {
      hide AllWellFormed, ProperEnv, Reached;
      ghost var s := State();
      ActionExitToMenu();
      ReachedStep(env, s, Spec.UserQuit);
    }

    /** When a handler has failed, the command loop starts anew: context and token registry are zero,
        nothing has been sent, and the menu is shown, as if the device had just been switched on. */
    method Restart() returns (next: Device)
      requires Sound() && flow == Spec.Stopped(Spec.Restarted)
      ensures fresh(next) && next.Sound() && next.State() == Spec.Idle()
      ensures next.env == env.(registry := []) && next.replies == []
    {
      next := new Device(env.(registry := []));
    }

    /** On the device itself: once the user has approved, the bytes that went into the hash are one
        complete valid transaction if and only if every command ended at a safe place. */
    lemma ApprovedOnDevice()
      requires Sound() && !flow.Stopped? && state == Spec.StateApproved
      ensures SafeCuts(State()) <==> exists tx: Tx :: HashesTx(env, State(), tx)
    {
      hide Reached, HashesTx, SafeCuts;
      ApprovedExactly(env, State());
    }
  }

  datatype Stage = DataStage | SignStage | DoneStage

  function Handled(env: Env, s: Spec.Session, stage: Stage, chunk: byte, cdata: seq<byte>): Spec.Result {
    match stage
    case DataStage => Spec.Data(env, s, chunk, cdata)
    case SignStage => Spec.Sign(env, s, cdata)
    case DoneStage => Spec.Abort(SW_OK)
  }

  function CommandEvent(stage: Stage, chunk: byte, cdata: seq<byte>): Spec.Event {
    match stage
    case DataStage => Spec.DataCommand(chunk, cdata)
    case SignStage => Spec.SignCommand(cdata)
    case DoneStage => Spec.DoneCommand
  }

  /** How one call of the element decoder ends: more to decode or not, an exception, or a store
      beyond the token array. */
  datatype Taken = More(more: bool) | Raise(code: nat) | Astray

  /** The first step of the decoding loop. */
  lemma DecodeStep(env: Env, s: Spec.Session)
    ensures var d := Spec.DecodeElements(env, s);
            match PeelOne(env, s.ctx.changes, s.ctx.p, s.ctx.buffer)
            case Short => d == Spec.DecodedAll(s)
            case Bad => d == Spec.DecodeError
            case Raised => d == Spec.DecodeThrow
            case Overrun => d == Spec.DecodeOverrun
            case Peeled(e, n) =>
              && n <= |s.ctx.buffer| && Allowed(s.ctx.p, e)
              && if e.Output? && s.ctx.queueLen >= |s.ctx.outputs| then d == Spec.DecodeError
                 else
                   var t := Spec.Take(s, e, n);
                   && |t.ctx.buffer| < |s.ctx.buffer|
                   && d == if t.ctx.buffer == [] then Spec.DecodedAll(t) else Spec.DecodeElements(env, t)
  {
    hide PeelOne;
    if PeelOne(env, s.ctx.changes, s.ctx.p, s.ctx.buffer).Peeled? {
      ElementSize(env, s.ctx.changes, s.ctx.p, s.ctx.buffer);
    }
  }

  lemma NothingBuffered(opening: Parsed, more: seq<byte>)
    ensures Spec.Opened(opening.0, opening.1).buffer == [] && [] + more == more
  {
    hide Spec.NoOutputs, ToBytes;
  }

  lemma ParsedWire(b: seq<byte>)
    requires ParseBytes(b).Done?
    ensures var o := ParseBytes(b).output;
            |o.pubkeyHash| == PUBKEY_HASH_LEN && o.value <= 0x8000_0000_0000_0000 && ParseBytes(b).size <= |b|
  {
    DoneIsEncoding(b);
  }

  lemma ChoiceStep(env: Env, s: Spec.Session, choice: bool)
    requires Spec.Enabled(s, Spec.UserChoice(choice))
    ensures Spec.Step(env, s, Spec.UserChoice(choice)) ==
            if s.flow == Spec.ConfirmTx then Spec.ActionTxConfirm(s, choice) else Spec.ConfirmOutput(env, s, choice)
  {
    hide Spec.ActionTxConfirm, Spec.ConfirmOutput;
  }

  lemma Denied(env: Env, s: Spec.Session)
    requires Spec.Enabled(s, Spec.UserChoice(false))
    ensures var r := Spec.Step(env, s, Spec.UserChoice(false));
            && r.replies == [Spec.Status(0x6985)]
            && r.s.ctx.state == Spec.StateNone && r.s.ctx.hashed == [] && r.s.flow == Spec.Menu
  {
  }

  lemma ApproveIs(env: Env, s: Spec.Session)
    requires s.ctx.displayIndex < |s.ctx.outputs|
    ensures Approve(s).flow == s.flow && Approve(s).ctx.p == s.ctx.p
    ensures var r := Spec.SkipChangeOutputs(Approve(s));
            Spec.ConfirmOutput(env, s, true) == if r.done then r else Spec.DisplayTxOutputs(env, r.s)
  {
    hide Spec.SkipChangeOutputs, Spec.DisplayTxOutputs;
  }

  lemma ShowsStill(env: Env, s: Spec.Session, t: Spec.Session, index: string, address: string, amount: string)
    requires Shows(env, s, index, address, amount) && t.ctx == s.ctx
    ensures Shows(env, t, index, address, amount)
  {
  }

  lemma OneWellFormed(outputs: seq<Spec.TxOutput>, i: nat)
    requires AllWellFormed(outputs) && i < |outputs|
    ensures WellFormed(outputs[i])
  {
  }

  /** Sorting does not change which indices are listed. */
  lemma PermutedAhead(s: Spec.Session, before: seq<nat>, after: seq<nat>)
    requires before == Spec.Indices(s.ctx.changes) && multiset(after) == multiset(before)
    requires forall i :: 0 <= i < |before| ==> before[i] < 256
    ensures Ahead(s, after)
  {
    forall i: nat
      ensures i in after <==> i in before
    {
      assert i in after <==> i in multiset(after);
      assert i in before <==> i in multiset(before);
    }
  }
}
