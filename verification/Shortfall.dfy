/** A concrete run in which a command ends at an unsafe place: the final question is reached, and
    answered, with an announced change output that the device has never received. */
module Shortfall {
  import opened Common
  import opened Positional
  import opened ChangeInfo
  import opened Deserialize
  import opened Decoder
  import opened Format
  import opened Screens
  import opened Session
  import opened Confirmation
  import opened Runs
  import opened Theorems

  function AnyEnv(): Env {
    Env([], P2PKH_MAINNET, (path, hash) => Ours, hash => Some([0, 0, 0, 0]), path => true, bytes => true,
        (path, digest) => true,
        bytes => bytes)
  }

  /** Five cents of HTR. */
  function FiveCents(): WireOutput {
    WireOutput(5, 0, ToBytes(0, PUBKEY_HASH_LEN))
  }

  const LATER_CHANGE: seq<Change> := [Change(1, [])]

  /** Two outputs announced, the second one as change; one output sent. */
  function Stream1(): seq<byte>
  {
    [0, 1, 0, 0, 2] + OutputBytes(FiveCents(), false)
  }

  function Chunk1(): seq<byte> {
    V1Bytes(LATER_CHANGE) + Stream1()
  }

  function Run(): seq<Event> {
    [DataCommand(0, Chunk1()), UserChoice(true), UserChoice(true)]
  }

  lemma OneChange()
    ensures forall i: nat :: IsChange(LATER_CHANGE, i) <==> i == 1
    ensures !SafeCut(LATER_CHANGE, 1)
  {
    assert Indices(LATER_CHANGE) == [1];
  }

  lemma FiveCentsFit()
    ensures AmountFits("HTR", 5)
  {
    AmountLength(5);
  }

  /** The session while the only output received is on the screen. */
  function Shown1(): Session {
    Session(
      Opened(LATER_CHANGE, Stream1()).(
        p := Progress(0, 0, 2, [], 1), queueLen := 1,
        outputs := NoOutputs(OUTPUTS_SIZE)[0 := TxOutput(0, FiveCents())]),
      ShowOutput,
      History([TxOutput(0, FiveCents())], [], [1], true, false))
  }

  /** The same session asking for the final approval. */
  function Asked1(): Session {
    Shown1().(
      ctx := Shown1().ctx.(state := StateParsed, displayIndex := 2, confirmedOutputs := 2),
      flow := ConfirmTx,
      log := Shown1().log.(approved := [TxOutput(0, FiveCents())]))
  }

  /** The session once that has been given. */
  function Approved1(): Session {
    Asked1().(ctx := Asked1().ctx.(state := StateApproved), flow := Processing, log := Asked1().log.(granted := true))
  }

  lemma ReadsChunk1()
    ensures Read(Chunk1()) == Returned((LATER_CHANGE, Stream1())) && 1 <= |Chunk1()| <= 255
  {
    hide Read, OutputBytes;
    V1RoundTrip(LATER_CHANGE, Stream1());
    EntriesLength(LATER_CHANGE);
  }

  lemma DecodesChunk1(s: Session)
    requires s == Session(Opened(LATER_CHANGE, Stream1()).(buffer := Stream1()[5..]), Menu, BEGUN)
    ensures DecodeElements(AnyEnv(), s) ==
            DecodedAll(Shown1().(flow := Menu, log := History([TxOutput(0, FiveCents())], [], [], true, false)))
  {
    hide PeelOne, OutputBytes, ToBytes, NoOutputs;
    var o := FiveCents();
    assert s.ctx.buffer == OutputBytes(o, false);
    PeelsExactly(AnyEnv(), LATER_CHANGE, s.ctx.p, s.ctx.buffer, Output(o, false), 32);
    assert s.ctx.buffer[..32] == s.ctx.buffer;
    assert CheckChange(AnyEnv(), LATER_CHANGE, 0, o.pubkeyHash) == Ours;
    assert PeelOne(AnyEnv(), LATER_CHANGE, s.ctx.p, s.ctx.buffer) == Peeled(Output(o, false), 32);
  }

  lemma ShowsChunk1()
    ensures Step(AnyEnv(), Idle(), DataCommand(0, Chunk1())) == Result(Shown1(), true, [])
    ensures Enabled(Idle(), DataCommand(0, Chunk1()))
  {
    hide Read, DecodeElements, OutputBytes, ToBytes, AmountFits, IsChange, NoOutputs;
    ReadsChunk1();
    OneChange();
    FiveCentsFit();
    var s := Session(Opened(LATER_CHANGE, Stream1()).(buffer := Stream1()[5..]), Menu, BEGUN);
    assert QueueReset(Idle()) == Idle();
    assert FirstChunk(AnyEnv(), Idle(), Chunk1()) == DecodeAndShow(AnyEnv(), s);
    DecodesChunk1(s);
    var t := Shown1().(flow := Menu);
    assert DisplayTxOutputs(AnyEnv(), t) == Result(Shown1(), true, []);
  }

  lemma SkipsAhead1()
    ensures Step(AnyEnv(), Shown1(), UserChoice(true)) == Result(Asked1(), true, [])
    ensures Enabled(Shown1(), UserChoice(true))
  {
    hide OutputBytes, ToBytes, IsChange, NoOutputs;
    OneChange();
    var t := Approve(Shown1());
    assert t.ctx.confirmedOutputs == 1 && IsChange(t.ctx.changes, 1);
    assert CheckOutputIndexState(NextOutput(t)) == Result(Asked1(), true, []);
  }

  /** The run can happen, and where it ends. */
  lemma RunHappens()
    ensures Admissible(AnyEnv(), Idle(), Run())
    ensures Exec(AnyEnv(), Idle(), Run()) == Approved1()
  {
    hide Step, Shown1, Asked1, Approved1, Chunk1;
    ShowsChunk1();
    SkipsAhead1();
    ApprovesAsked1();
    var events := Run();
    assert events[1..] == [UserChoice(true), UserChoice(true)];
    assert events[1..][1..] == [UserChoice(true)];
    assert events[1..][1..][1..] == [];
  }

  /** The session after the run has been approved, and what has been hashed is not a transaction
      with the announced outputs. */
  lemma ApprovedWithOutputMissing() returns (s: Session)
    ensures Reached(AnyEnv(), s) && s.ctx.state == StateApproved && !s.flow.Stopped?
    ensures s.ctx.p.currentOutput == 1 && s.ctx.p.outputsLen == 2
    ensures !exists tx: Tx :: HashesTx(AnyEnv(), s, tx)
  {
    hide Shown1, Asked1, Approved1, Chunk1, HashesTx, Admissible, Exec, Run;
    RunHappens();
    ApprovesAsked1();
    s := Exec(AnyEnv(), Idle(), Run());
    ApprovedExactly(AnyEnv(), s);
  }

  lemma ApprovesAsked1()
    ensures Enabled(Asked1(), UserChoice(true))
    ensures Step(AnyEnv(), Asked1(), UserChoice(true)).s == Approved1()
    ensures Approved1().ctx.state == StateApproved && !Approved1().flow.Stopped?
    ensures Approved1().ctx.p.currentOutput == 1 && Approved1().ctx.p.outputsLen == 2 && !SafeCuts(Approved1())
  {
    hide OutputBytes, ToBytes, NoOutputs, SafeCut;
    OneChange();
    assert !SafeCut(Approved1().ctx.changes, Approved1().log.cuts[0]);
  }
}
