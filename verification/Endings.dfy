/** How approved sessions can end: a command that ends the command loop, and a second use of the hash. */
module Endings {
  import opened Common
  import opened Positional
  import opened Bip32
  import opened ChangeInfo
  import opened Deserialize
  import opened Decoder
  import opened Screens
  import opened Session
  import opened Runs
  import opened Theorems
  import opened Stops
  import opened EightOutputs
  import opened GoodRuns

  /** After every approval, asking for a signature with an empty path ends the command loop unanswered. */
  lemma EmptyPathRestarts(env: Env, s: Session)
    requires Reached(env, s) && s.ctx.state == StateApproved && !s.flow.Stopped?
    ensures Enabled(s, SignCommand([0]))
    ensures var r := Step(env, s, SignCommand([0])); r.s.flow == Stopped(Restarted) && r.replies == []
  {
    hide Reached, Inv;
    ReachedKeeps(env, s);
    ApprovedIdles(env, s);
    assert PathOf([0]) == Some([]);
    SignStopsExactly(env, s, [0]);
    SignAnswered(env, s, [0]);
  }

  lemma ApprovedIdles(env: Env, s: Session)
    requires Inv(env, s) && s.ctx.state == StateApproved && !s.flow.Stopped?
    ensures s.flow == Processing
  {
    hide Core, Finished;
  }

  // ---- An instance ----

  /** One output of one cent, and its header. */
  function OneOutput(): Tx {
    Tx([], [], [SentOutput(OneCent(), false)])
  }

  function Whole(): seq<byte> {
    [0, 1, 0, 0, 1] + Body(OneOutput())
  }

  lemma OneOutputIsGood()
    ensures ValidTx(Plain(), [], OneOutput()) && TxShowable(Plain(), OneOutput()) && |Body(OneOutput())| == 32
  {
    hide ToBytes, OutputBytes, AmountFits;
    AmountFitsExactly("HTR", 1);
    var es := Elements(OneOutput());
    assert OneOutput().outputs[1..] == [];
    assert es == [Output(OneCent(), false)] && es[1..] == [];
    assert AllOutputs(OneOutput().outputs, 0) == [TxOutput(0, OneCent())];
  }

  /** Sent in one command and approved, it leads to approval. */
  lemma OneOutputApproved() returns (s: Session)
    ensures Reached(Plain(), s) && s.flow == Processing && s.ctx.state == StateApproved && SafeCuts(s)
    ensures s.ctx.hashed == Whole()
  {
    hide Body, ValidTx, TxShowable, Reached, Send, Deliver, Plain, SafeCuts, CountAt;
    OneOutputIsGood();
    assert Flatten([]) == [] && Whole() + [] == Whole();
    assert Whole()[5..] + Flatten([]) == Body(OneOutput());
    GoodRunApproves(Plain(), [], OneOutput(), Whole(), []);
    s := Deliver(Plain(), Send(Plain(), Idle(), 0, V1Bytes([]) + Whole()), []);
  }

  /** A digest that starts with a zero byte counts as not computed: there is a run in which a sign
      command uses the hash a second time. */
  lemma HashUsedTwice() returns (s: Session)
    ensures Reached(Plain(), s) && Enabled(s, SignCommand([1, 0, 0, 0, 1]))
    ensures Step(Plain(), s, SignCommand([1, 0, 0, 0, 1])).s.flow == Stopped(HashReused)
  {
    hide Reached, Body, SafeCuts, Step, Inv, Finished, Stream, PathOf;
    s := OneOutputApproved();
    OnePath();
    SignStopsExactly(Plain(), s, [1, 0, 0, 0, 1]);
    if !s.ctx.finalised {
      var t := Step(Plain(), s, SignCommand([1, 0, 0, 0, 1])).s;
      ReachedKeeps(Plain(), s);
      FinishedWhenApproved(Plain(), s);
      StopReasons(t.flow);
      FirstSignature(Plain(), s, [1, 0, 0, 0, 1]);
      ReachedStep(Plain(), s, SignCommand([1, 0, 0, 0, 1]));
      SignStopsExactly(Plain(), t, [1, 0, 0, 0, 1]);
      s := t;
    }
  }

  lemma StopReasons(f: Flow)
    ensures f.Stopped? <==> f == Stopped(Restarted) || f == Stopped(HashReused) || f == Stopped(OutOfBounds)
  {
    if f.Stopped? {
      match f.why {
        case Restarted =>
        case OutOfBounds =>
        case HashReused =>
      }
    }
  }

  lemma OnePath()
    ensures PathOf([1, 0, 0, 0, 1]).Some? && |PathOf([1, 0, 0, 0, 1]).value| == 1
  {
  }

  lemma FirstSignature(env: Env, s: Session, cdata: seq<byte>)
    requires Enabled(s, SignCommand(cdata)) && s.ctx.state == StateApproved && Unset(s.ctx.sighash)
    requires PathOf(cdata).Some? && !s.ctx.finalised && !Step(env, s, SignCommand(cdata)).s.flow.Stopped?
    ensures var t := Step(env, s, SignCommand(cdata)).s;
            t.ctx.finalised && t.ctx.state == StateApproved && t.flow == s.flow && t.ctx.hashed == s.ctx.hashed
  {
    hide PathOf;
  }
}
