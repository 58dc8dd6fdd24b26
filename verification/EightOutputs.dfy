/** How many elements one command can complete: seven, or eight with the help of bytes left over from
    the command before (src/types.h, src/handler/sign_tx.c). */
module EightOutputs {
  import opened Common
  import opened Positional
  import opened ChangeInfo
  import opened Deserialize
  import opened Decoder
  import opened Runs

  /** Without bytes left over, at most seven. */
  lemma SevenWithoutLeftover(env: Env, changes: seq<Change>, p: Progress, chunk: seq<byte>)
    requires |chunk| <= 255 && Drain(env, changes, p, chunk).Ready?
    ensures |Drain(env, changes, p, chunk).es| <= 7
  {
    hide Drain;
    ElementsCount(env, changes, p, chunk);
  }

  /** Behind bytes left over, eight exactly when the bytes at hand begin with eight legal elements. */
  lemma EightExactly(env: Env, changes: seq<Change>, p: Progress, left: seq<byte>, chunk: seq<byte>)
    requires left == [] || PeelOne(env, changes, p, left) == Short
    requires |chunk| <= 255 && Drain(env, changes, p, left + chunk).Ready?
    ensures |Drain(env, changes, p, left + chunk).es| == 8 <==>
            exists es: seq<Element> ::
              |es| == 8 && Legal(env, changes, p, es) && StreamBytes(es) <= left + chunk
  {
    hide Drain, PeelOne, Legal, StreamBytes;
    var b := left + chunk;
    var d := Drain(env, changes, p, b);
    EightElements(env, changes, p, left, chunk);
    ReadyMeans(env, changes, p, b);
    if |d.es| == 8 {
      assert StreamBytes(d.es) <= b;
    }
    if es: seq<Element> :| |es| == 8 && Legal(env, changes, p, es) && StreamBytes(es) <= b {
      LegalPrefix(env, changes, p, b, es);
    }
  }

  /** Legal elements in front of the bytes are decoded first. */
  lemma {:induction false} LegalPrefix(env: Env, changes: seq<Change>, p: Progress, b: seq<byte>, es: seq<Element>)
    requires Legal(env, changes, p, es) && StreamBytes(es) <= b && Drain(env, changes, p, b).Ready?
    ensures |es| <= |Drain(env, changes, p, b).es|
    decreases |es|
  {
    hide PeelOne, Fits, ElementBytes;
    if es != [] {
      var e, n := es[0], |ElementBytes(es[0])|;
      assert ElementBytes(e) <= b;
      PeelsExactly(env, changes, p, b, e, n);
      FitsAllowed(env, changes, p, e);
      if n < |b| {
        assert StreamBytes(es[1..]) <= b[n..];
        LegalPrefix(env, changes, Advance(p, e), b[n..], es[1..]);
      } else {
        assert StreamBytes(es[1..]) == [];
        NothingLeft(env, changes, Advance(p, e), es[1..]);
      }
    }
  }

  // ---- An instance ----

  /** Surroundings that accept everything. */
  function Plain(): Env {
    Env([], P2PKH_MAINNET, (path, hash) => Ours, hash => Some([0, 0, 0, 0]), path => true, bytes => true,
        (path, digest) => true, bytes => bytes)
  }

  function OneCent(): WireOutput {
    WireOutput(1, 0, ToBytes(0, PUBKEY_HASH_LEN))
  }

  function Outputs(n: nat): (es: seq<Element>)
    ensures |es| == n
  {
    if n == 0 then [] else [Output(OneCent(), false)] + Outputs(n - 1)
  }

  lemma {:induction false} OutputsLegal(n: nat, p: Progress)
    requires p.remainingTokens == p.remainingInputs == 0 && p.currentOutput + n <= p.outputsLen
    ensures Legal(Plain(), [], p, Outputs(n)) && |StreamBytes(Outputs(n))| == 32 * n
    ensures ProgressAfter(p, Outputs(n)) == p.(currentOutput := p.currentOutput + n)
    ensures |OutputsOf(Outputs(n), p.currentOutput)| == n
  {
    hide ToBytes, OutputBytes;
    if n > 0 {
      assert Outputs(n)[1..] == Outputs(n - 1);
      OutputsLegal(n - 1, Advance(p, Output(OneCent(), false)));
    }
  }

  /** An incomplete output is no reason to stop. */
  lemma CutOutputIsShort(p: Progress, b: seq<byte>, left: seq<byte>)
    requires p.remainingTokens == p.remainingInputs == 0 && p.currentOutput < p.outputsLen
    requires PeelOne(Plain(), [], p, b) == Peeled(Output(OneCent(), false), 32)
    requires left <= b && |left| < 32
    ensures PeelOne(Plain(), [], p, left) == Short
  {
    hide ParseBytes;
    assert b == left + b[|left|..];
    if PeelOne(Plain(), [], p, left) != Short {
      PeelStable(Plain(), [], p, left, b[|left|..]);
      ElementSize(Plain(), [], p, left);
    }
  }

  /** Eight outputs of 32 bytes, cut behind the first 31 bytes: the second command completes all eight. */
  lemma EightInOneCommand() returns (left: seq<byte>, chunk: seq<byte>)
    ensures |chunk| <= 255 && PeelOne(Plain(), [], Start(0, 0, 8), left) == Short
    ensures var d := Drain(Plain(), [], Start(0, 0, 8), left + chunk); d.Ready? && |OutputsOf(d.es, 0)| == 8
  {
    hide ToBytes, OutputBytes, Drain, PeelOne, Outputs, Legal, StreamBytes, OutputsOf, ProgressAfter;
    var p, es := Start(0, 0, 8), Outputs(8);
    var b := StreamBytes(es);
    OutputsLegal(8, p);
    left, chunk := b[..31], b[31..];
    assert left + chunk == b == b + [];
    LegalDrains(Plain(), [], p, es, []);
    FirstOfOutputs(p, b);
    CutOutputIsShort(p, b, left);
  }

  lemma FirstOfOutputs(p: Progress, b: seq<byte>)
    requires p == Start(0, 0, 8) && b == StreamBytes(Outputs(8))
    ensures PeelOne(Plain(), [], p, b) == Peeled(Output(OneCent(), false), 32)
  {
    hide ToBytes, OutputBytes, PeelOne;
    var e := Output(OneCent(), false);
    OutputsLegal(8, p);
    assert Outputs(8)[0] == e && |ElementBytes(e)| == 32 && ElementBytes(e) <= b;
    PeelsExactly(Plain(), [], p, b, e, 32);
  }
}
