/** Concrete runs that leave the arrays of the program: eleven tokens announced and sent, and an amount
    behind a symbol of five characters that is too long for the screen. */
module Overruns {
  import opened Common
  import opened Positional
  import opened ChangeInfo
  import opened Deserialize
  import opened Decoder
  import opened Screens
  import opened Session
  import opened Runs
  import opened Theorems
  import opened Stops

  function Uid(): seq<byte> {
    ToBytes(0, TOKEN_UID_LEN)
  }

  function OurToken(): TokenSymbol {
    TokenSymbol(Uid(), "ABCDE")
  }

  /** One registered token, with a symbol of five characters. */
  function OneToken(): Env {
    Env([OurToken()], P2PKH_MAINNET, (path, hash) => Ours, hash => Some([0, 0, 0, 0]), path => true,
        bytes => true, (path, digest) => true, bytes => bytes)
  }

  /** A first chunk without change entries. */
  function Opening(header: seq<byte>, body: seq<byte>): seq<byte> {
    [0] + (header + body)
  }

  lemma OpeningLoads(header: seq<byte>, body: seq<byte>)
    requires |header| == 5 && |body| <= 249
    ensures Enabled(Idle(), DataCommand(0, Opening(header, body)))
    ensures Loading(Idle(), 0, Opening(header, body)) ==
            Some(Session(Opened([], header + body).(buffer := body), Menu, BEGUN))
    ensures Opened([], header + body).p == Start(header[2], header[3], header[4])
  {
    hide ZeroContext;
    var rest := header + body;
    assert Opening(header, body)[1..] == rest && rest[5..] == body;
    assert Read(Opening(header, body)) == Returned(([], rest));
    assert ZeroContext().state == StateNone by { IdleState(); }
  }

  lemma IdleState()
    ensures ZeroContext().state == StateNone
  {
  }

  // ---- An amount that is too long ----

  /** 10^17 units of the token. */
  function Huge(): WireOutput {
    WireOutput(100_000_000_000_000_000, 1, ToBytes(0, PUBKEY_HASH_LEN))
  }

  function TokenAndOutput(): seq<Element> {
    [Token(OurToken()), Output(Huge(), true)]
  }

  lemma TokenIsFound()
    ensures FindToken(OneToken().registry, Uid()) == Some(0) && |Uid()| == TOKEN_UID_LEN
  {
    hide ToBytes;
  }

  lemma TokenAndOutputDrain()
    ensures Drain(OneToken(), [], Start(1, 0, 1), Uid() + OutputBytes(Huge(), true)) ==
            Ready(Progress(0, 0, 1, [OurToken()], 1), [], TokenAndOutput())
  {
    hide ToBytes, FindToken, OutputBytes, Drain;
    var es := TokenAndOutput();
    var p := Start(1, 0, 1);
    var q := Advance(p, es[0]);
    var q' := Advance(q, es[1]);
    TokenIsFound();
    assert es[1..] == [Output(Huge(), true)] && es[1..][1..] == [];
    assert Fits(OneToken(), [], p, es[0]) && Fits(OneToken(), [], q, es[1]);
    assert Legal(OneToken(), [], q', es[1..][1..]);
    assert Legal(OneToken(), [], q, es[1..]);
    assert StreamBytes(es[1..]) == OutputBytes(Huge(), true) + [] == OutputBytes(Huge(), true);
    assert StreamBytes(es) == Uid() + OutputBytes(Huge(), true);
    assert q'.tokens == [OurToken()] && ProgressAfter(p, es) == q';
    LegalDrains(OneToken(), [], p, es, []);
    assert StreamBytes(es) + [] == StreamBytes(es);
  }

  lemma HugeIsOverlong(p: Progress)
    requires p.tokens == [OurToken()]
    ensures Overlong(OneToken(), p, TxOutput(0, Huge()))
  {
    hide AmountFits, ToBytes;
    AmountFitsExactly("ABCDE", 100_000_000_000_000_000);
  }

  function LongAmount(): seq<byte> {
    Opening([0, 1, 1, 0, 1], Uid() + OutputBytes(Huge(), true))
  }

  /** One valid output of 10^17 units behind a symbol of five characters: the very first command
      writes past the buffer for the amount. */
  lemma AmountLeavesItsBuffer()
    ensures Enabled(Idle(), DataCommand(0, LongAmount()))
    ensures Step(OneToken(), Idle(), DataCommand(0, LongAmount())).s.flow == Stopped(OutOfBounds)
  {
    hide ToBytes, OutputBytes, Drain, Step, Loading, Reached, Overlong, ZeroContext, Opening;
    var body := Uid() + OutputBytes(Huge(), true);
    OpeningLoads([0, 1, 1, 0, 1], body);
    TokenAndOutputDrain();
    ReachedIdle(OneToken());
    var outs := OutputsOf(TokenAndOutput(), 0);
    assert TokenAndOutput()[1..] == [Output(Huge(), true)] && TokenAndOutput()[1..][1..] == [];
    assert outs == [TxOutput(0, Huge())];
    assert FirstPlain([], outs) == Some(TxOutput(0, Huge()));
    HugeIsOverlong(Progress(0, 0, 1, [OurToken()], 1));
    DataStopsExactly(OneToken(), Idle(), 0, LongAmount(), OutOfBounds);
  }

  // ---- Eleven tokens ----

  function Tokens(n: nat): (es: seq<Element>)
    ensures |es| == n && forall i :: 0 <= i < n ==> es[i] == Token(OurToken())
  {
    if n == 0 then [] else [Token(OurToken())] + Tokens(n - 1)
  }

  function Symbols(n: nat): (ts: seq<TokenSymbol>)
    ensures |ts| == n
  {
    if n == 0 then [] else [OurToken()] + Symbols(n - 1)
  }

  function Uids(n: nat): (b: seq<byte>)
    ensures |b| == TOKEN_UID_LEN * n
  {
    if n == 0 then [] else Uid() + Uids(n - 1)
  }

  lemma TokenFits(p: Progress)
    requires p.remainingTokens > 0 && |p.tokens| < TX_MAX_TOKENS
    ensures Fits(OneToken(), [], p, Token(OurToken()))
  {
    hide ToBytes, FindToken;
    TokenIsFound();
  }

  lemma {:induction false} TokensLegal(n: nat, p: Progress)
    requires n <= p.remainingTokens && |p.tokens| + n <= TX_MAX_TOKENS
    ensures Legal(OneToken(), [], p, Tokens(n))
    ensures ProgressAfter(p, Tokens(n)) ==
            p.(remainingTokens := p.remainingTokens - n, tokens := p.tokens + Symbols(n))
  {
    hide Fits, OurToken, OneToken;
    if n == 0 {
      assert p.tokens + [] == p.tokens;
    } else {
      TokenFits(p);
      assert Tokens(n)[1..] == Tokens(n - 1);
      TokensLegal(n - 1, Advance(p, Token(OurToken())));
      assert (p.tokens + [OurToken()]) + Symbols(n - 1) == p.tokens + Symbols(n);
    }
  }

  lemma {:induction false} TokensOnWire(n: nat)
    ensures StreamBytes(Tokens(n)) == Uids(n) && OutputsOf(Tokens(n), 0) == []
  {
    hide ToBytes;
    if n > 0 {
      assert Tokens(n)[1..] == Tokens(n - 1);
      TokensOnWire(n - 1);
    }
  }

  lemma {:induction false} UidsRegistered(n: nat)
    ensures RegisteredUids(OneToken(), Uids(n), n)
  {
    hide ToBytes, FindToken, RegisteredUids;
    if n == 0 {
      NoneRegistered();
    } else {
      TokenIsFound();
      UidsRegistered(n - 1);
      assert Uids(n)[..32] == Uid() && Uids(n)[32..] == Uids(n - 1);
      FirstUid(OneToken(), Uids(n), n - 1);
    }
  }

  lemma NoneRegistered()
    ensures RegisteredUids(OneToken(), [], 0)
  {
  }

  /** Eleven tokens announced, seven sent. */
  function SevenTokens(): seq<byte> {
    Opening([0, 1, 11, 0, 1], Uids(7))
  }

  /** The session waits for the other four. */
  predicate WaitsForFour(s: Session) {
    && s.flow == Menu && s.ctx.state == StateRecvData && s.ctx.changes == [] && s.ctx.buffer == []
    && s.ctx.p == Progress(4, 0, 1, Symbols(7), 0)
  }

  lemma SevenDrain()
    ensures Drain(OneToken(), [], Start(11, 0, 1), Uids(7)) == Ready(Progress(4, 0, 1, Symbols(7), 0), [], Tokens(7))
    ensures OutputsOf(Tokens(7), 0) == []
  {
    hide Uids, Drain, OutputsOf, Symbols, StreamBytes, Legal, ProgressAfter, Tokens;
    var p := Start(11, 0, 1);
    TokensLegal(7, p);
    TokensOnWire(7);
    assert Uids(7) + [] == Uids(7) && [] + Symbols(7) == Symbols(7);
    LegalDrains(OneToken(), [], p, Tokens(7), []);
  }

  lemma SevenDecoded()
    ensures Enabled(Idle(), DataCommand(0, SevenTokens()))
    ensures WaitsForFour(Step(OneToken(), Idle(), DataCommand(0, SevenTokens())).s)
  {
    hide Uids, Drain, DecodeElements, Opening, OutputsOf, Symbols, Loading, DisplayTxOutputs, Tokens, OneToken;
    var header: seq<byte> := [0, 1, 11, 0, 1];
    OpeningLoads(header, Uids(7));
    LoadingDecodes(OneToken(), Idle(), 0, SevenTokens());
    SevenDrain();
    DecodesLikeOneShot(OneToken(), Session(Opened([], header + Uids(7)).(buffer := Uids(7)), Menu, BEGUN));
  }

  function ElevenTokens(): seq<Event> {
    [DataCommand(0, SevenTokens()), DataCommand(1, Uids(4))]
  }

  /** Eleven tokens announced and sent in two commands: the second one writes past the token array. */
  lemma TokensLeaveTheirArray()
    ensures Admissible(OneToken(), Idle(), ElevenTokens())
    ensures Exec(OneToken(), Idle(), ElevenTokens()).flow == Stopped(OutOfBounds)
  {
    hide Uids, Drain, Step, Opening, Symbols, Reached, ZeroContext, SevenTokens, RegisteredUids, WaitsForFour, Loading;
    var events := ElevenTokens();
    SevenDecoded();
    var s := Step(OneToken(), Idle(), events[0]).s;
    FourLoaded(s);
    ReachedIdle(OneToken());
    ReachedStep(OneToken(), Idle(), events[0]);
    UidsRegistered(4);
    OverrunFrom(OneToken(), [], Progress(4, 0, 1, Symbols(7), 0), Uids(4));
    DataStopsExactly(OneToken(), s, 1, Uids(4), OutOfBounds);
    assert events[1..] == [DataCommand(1, Uids(4))];
    assert events[1..][1..] == [];
  }

  lemma FourLoaded(s: Session)
    requires WaitsForFour(s)
    ensures Enabled(s, DataCommand(1, Uids(4)))
    ensures var t := Loading(s, 1, Uids(4));
            t.Some? && t.value.ctx.changes == [] && t.value.ctx.buffer == Uids(4)
            && t.value.ctx.p == Progress(4, 0, 1, Symbols(7), 0)
  {
    hide Uids, Symbols;
    assert [] + Uids(4) == Uids(4);
  }
}
