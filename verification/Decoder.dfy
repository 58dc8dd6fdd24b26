/** The streaming transaction decoder as a function of the bytes received, and the grammar of
    complete transactions it accepts (src/handler/sign_tx.c, _decode_elements and decode_elements). */
module Decoder {
  import opened Common
  import opened Positional
  import opened Deserialize
  import opened ChangeInfo

  /** A registered custom token. */
  datatype TokenSymbol = TokenSymbol(uid: seq<byte>, symbol: string)

  /** What checking a change output against a path can lead to: the key derivation may throw. */
  datatype Verdict = Ours | NotOurs | Failed

  /** The surroundings of a signing session: the token registry and the foreign computations. */
  datatype Env = Env(
    registry: seq<TokenSymbol>,
    version: byte,
    verifyChange: (seq<nat>, seq<byte>) -> Verdict,
    checksum: seq<byte> -> Option<Checksum>,
    derives: seq<nat> -> bool,
    hashes: seq<byte> -> bool,
    signs: (seq<nat>, seq<byte>) -> bool,
    sha256d: seq<byte> -> seq<byte>)

  /** How far the decoder is: elements still expected, tokens seen, outputs seen. */
  datatype Progress = Progress(
    remainingTokens: nat, remainingInputs: nat, outputsLen: nat,
    tokens: seq<TokenSymbol>, currentOutput: nat)

  datatype Element =
    | Token(symbol: TokenSymbol)
    | Input(spent: seq<byte>)
    | Output(wire: WireOutput, long: bool)

  datatype Peel = Peeled(e: Element, size: nat) | Short | Bad | Raised | Overrun

  function Start(tokens: nat, inputs: nat, outputs: nat): Progress {
    Progress(tokens, inputs, outputs, [], 0)
  }

  predicate Complete(p: Progress) {
    p.remainingTokens == 0 && p.remainingInputs == 0 && p.currentOutput == p.outputsLen
  }

  /** The index of the first registry entry with this uid. */
  function FindToken(registry: seq<TokenSymbol>, uid: seq<byte>): (i: Option<nat>)
    ensures i.Some? ==> i.value < |registry| && registry[i.value].uid == uid
  {
    if registry == [] then None
    else if registry[0].uid == uid then Some(0)
    else match FindToken(registry[1..], uid) { case None => None case Some(i) => Some(i + 1) }
  }

  /** Every change entry for output `index` is checked in turn; the first failure decides. */
  function CheckChange(env: Env, changes: seq<Change>, index: nat, hash: seq<byte>): Verdict {
    if changes == [] then Ours
    else if changes[0].index != index then CheckChange(env, changes[1..], index, hash)
    else match env.verifyChange(changes[0].path, hash)
      case Ours => CheckChange(env, changes[1..], index, hash)
      case v => v
  }

  // ---- One element ----

  function PeelToken(env: Env, p: Progress, b: seq<byte>): Peel {
    if |b| < TOKEN_UID_LEN then Short
    else match FindToken(env.registry, b[..TOKEN_UID_LEN])
      case None => Bad
      case Some(i) =>
        // the source stores into tokens[] without a bound check
        if |p.tokens| >= TX_MAX_TOKENS then Overrun
        else Peeled(Token(env.registry[i]), TOKEN_UID_LEN)
  }

  function PeelInput(b: seq<byte>): Peel {
    if |b| < TX_INPUT_LEN then Short
    else if Value(b[33..35], 256) > 0 then Bad
    else Peeled(Input(b[..33]), TX_INPUT_LEN)
  }

  function PeelOutput(env: Env, changes: seq<Change>, p: Progress, b: seq<byte>): Peel {
    match ParseBytes(b)
    case NeedMore => Short
    case Malformed => Bad
    case Done(o, n) =>
      if o.tokenData >= 0x80 || o.tokenData > |p.tokens| then Bad
      else match CheckChange(env, changes, p.currentOutput, o.pubkeyHash)
        case Ours => Peeled(Output(o, n == 36), n)
        case NotOurs => Bad
        case Failed => Raised
  }

  /** What one call of the element decoder does with the bytes buffered. */
  function PeelOne(env: Env, changes: seq<Change>, p: Progress, b: seq<byte>): Peel {
    if p.remainingTokens > 0 then PeelToken(env, p, b)
    else if p.remainingInputs > 0 then PeelInput(b)
    else if p.currentOutput < p.outputsLen then PeelOutput(env, changes, p, b)
    else Bad
  }

  function Advance(p: Progress, e: Element): Progress
    requires match e { case Token(_) => p.remainingTokens > 0 case Input(_) => p.remainingInputs > 0 case _ => true }
  {
    match e
    case Token(s) => p.(remainingTokens := p.remainingTokens - 1, tokens := p.tokens + [s])
    case Input(_) => p.(remainingInputs := p.remainingInputs - 1)
    case Output(_, _) => p.(currentOutput := p.currentOutput + 1)
  }

  // ---- The elements on the wire, and where each may stand ----

  function ElementBytes(e: Element): seq<byte> {
    match e
    case Token(s) => s.uid
    case Input(x) => x + [0, 0]
    case Output(o, long) => if Encodable(o, long) then OutputBytes(o, long) else []
  }

  ghost predicate Fits(env: Env, changes: seq<Change>, p: Progress, e: Element) {
    match e
    case Token(s) =>
      && p.remainingTokens > 0 && |p.tokens| < TX_MAX_TOKENS && |s.uid| == TOKEN_UID_LEN
      && FindToken(env.registry, s.uid).Some? && env.registry[FindToken(env.registry, s.uid).value] == s
    case Input(x) =>
      p.remainingTokens == 0 && p.remainingInputs > 0 && |x| == 33
    case Output(o, long) =>
      && p.remainingTokens == 0 && p.remainingInputs == 0 && p.currentOutput < p.outputsLen
      && Encodable(o, long) && o.tokenData < 0x80 && o.tokenData <= |p.tokens|
      && CheckChange(env, changes, p.currentOutput, o.pubkeyHash) == Ours
  }

  /** An element is peeled off exactly when its serialization is in front and it may stand there. */
  lemma PeelsExactly(env: Env, changes: seq<Change>, p: Progress, b: seq<byte>, e: Element, n: nat)
    ensures PeelOne(env, changes, p, b) == Peeled(e, n) <==>
            && Fits(env, changes, p, e)
            && n == |ElementBytes(e)| <= |b| && b[..n] == ElementBytes(e)
  {
    hide ParseBytes, Value, OutputBytes, Encodable;
    if p.remainingTokens == 0 {
      if p.remainingInputs > 0 {
        if |b| >= TX_INPUT_LEN {
          ValueOf2(b[33..35]);
          assert b[..35] == b[..33] + b[33..35];
        }
        if e.Input? && |e.spent| == 33 && n == 35 <= |b| && b[..n] == e.spent + [0, 0] {
          assert b[..n][33..35] == [0, 0] == b[33..35] && b[..n][..33] == b[..33];
        }
      } else if e.Output? {
        ParsesExactlyTheFormat(b, e.wire, n);
      }
    }
  }

  lemma ElementSize(env: Env, changes: seq<Change>, p: Progress, b: seq<byte>)
    requires PeelOne(env, changes, p, b).Peeled?
    ensures 32 <= PeelOne(env, changes, p, b).size <= |b|
    ensures PeelOne(env, changes, p, b).e.Output? ==> p.remainingTokens == p.remainingInputs == 0
    ensures PeelOne(env, changes, p, b).e.Token? ==> p.remainingTokens > 0
    ensures PeelOne(env, changes, p, b).e.Input? ==> p.remainingInputs > 0
  {
    if ParseBytes(b).Done? {
      DoneIsEncoding(b);
    }
  }

  /** What is left undecoded is shorter than the element it belongs to. */
  lemma ShortIsShort(env: Env, changes: seq<Change>, p: Progress, b: seq<byte>)
    requires PeelOne(env, changes, p, b) == Short
    ensures |b| <= 35
  {
  }

  /** More bytes are asked for exactly while the element whose turn it is can still be completed: 32 bytes
      for a token, 35 for an input, and for an output its fixed part and then, if that announces 25 bytes of
      script, the script. */
  lemma ShortExactly(env: Env, changes: seq<Change>, p: Progress, b: seq<byte>)
    ensures PeelOne(env, changes, p, b) == Short <==>
            if p.remainingTokens > 0 then |b| < 32
            else if p.remainingInputs > 0 then |b| < 35
            else
              var w := if |b| > 0 && b[0] >= 0x80 then 8 else 4;
              && p.currentOutput < p.outputsLen
              && (|b| < w + 3 || (|b| < w + 28 && b[w + 1..w + 3] == [0x00, 0x19]))
  {
    hide ParseBytes, Value, FindToken, CheckChange;
    ParsesLiterally(b);
  }

  /** A verdict reached on a prefix stays the same however the stream goes on. */
  lemma PeelStable(env: Env, changes: seq<Change>, p: Progress, a: seq<byte>, b: seq<byte>)
    requires PeelOne(env, changes, p, a) != Short
    ensures PeelOne(env, changes, p, a + b) == PeelOne(env, changes, p, a)
  {
    hide ParseBytes, Value, CheckChange, FindToken;
    if p.remainingTokens > 0 {
      assert (a + b)[..TOKEN_UID_LEN] == a[..TOKEN_UID_LEN];
    } else if p.remainingInputs > 0 {
      assert (a + b)[33..35] == a[33..35] && (a + b)[..33] == a[..33];
    } else if p.currentOutput < p.outputsLen {
      PrefixParser(a, b);
    }
  }

  // ---- Decoding until the bytes run out ----

  datatype Drained =
    | Ready(p: Progress, rest: seq<byte>, es: seq<Element>)
    | Rejected
    | Threw
    | Overran

  /** Peels elements until none is complete or nothing is left; at least one attempt is made. */
  function Drain(env: Env, changes: seq<Change>, p: Progress, b: seq<byte>): Drained
    decreases |b|
  {
    match PeelOne(env, changes, p, b)
    case Short => Ready(p, b, [])
    case Bad => Rejected
    case Raised => Threw
    case Overrun => Overran
    case Peeled(e, n) =>
      ElementSize(env, changes, p, b);
      if n == |b| then Ready(Advance(p, e), [], [e])
      else match Drain(env, changes, Advance(p, e), b[n..])
        case Ready(q, r, es) => Ready(q, r, [e] + es)
        case d => d
  }

  /** What follows `d` when the elements `es` were decoded before it. */
  function After(es: seq<Element>, d: Drained): Drained {
    match d case Ready(q, r, fs) => Ready(q, r, es + fs) case _ => d
  }

  /** Decoding two pieces one after the other, the second behind the leftover of the first. */
  function Resume(env: Env, changes: seq<Change>, d: Drained, piece: seq<byte>): Drained {
    match d
    case Ready(q, r, es) => After(es, Drain(env, changes, q, r + piece))
    case _ => d
  }

  /** Splitting the stream before a non-empty piece makes no difference. */
  lemma {:induction false} SplitOnce(env: Env, changes: seq<Change>, p: Progress, a: seq<byte>, b: seq<byte>)
    requires b != []
    ensures Drain(env, changes, p, a + b) == Resume(env, changes, Drain(env, changes, p, a), b)
    decreases |a|
  {
    hide PeelOne;
    var peel := PeelOne(env, changes, p, a);
    if peel == Short {
      AfterNothing(Drain(env, changes, p, a + b));
    } else {
      PeelStable(env, changes, p, a, b);
      if peel.Peeled? {
        ElementSize(env, changes, p, a);
        var p', rest := Advance(p, peel.e), a[peel.size..];
        assert (a + b)[peel.size..] == rest + b;
        if rest == [] {
          assert rest + b == [] + b == b;
        } else {
          SplitOnce(env, changes, p', rest, b);
          var d := Drain(env, changes, p', rest);
          if d.Ready? {
            AfterAfter([peel.e], d.es, Drain(env, changes, d.p, d.rest + b));
          }
        }
      }
    }
  }

  lemma AfterNothing(d: Drained)
    ensures After([], d) == d
  {
    if d.Ready? {
      assert [] + d.es == d.es;
    }
  }

  lemma AfterAfter(x: seq<Element>, y: seq<Element>, d: Drained)
    ensures After(x, After(y, d)) == After(x + y, d)
  {
    if d.Ready? {
      assert x + (y + d.es) == (x + y) + d.es;
    }
  }

  /** The device's way through a stream: first one piece, then the others behind the leftovers. */
  function Feed(env: Env, changes: seq<Change>, d: Drained, pieces: seq<seq<byte>>): Drained
    decreases |pieces|
  {
    if pieces == [] then d else Feed(env, changes, Resume(env, changes, d, pieces[0]), pieces[1..])
  }

  function Flatten(pieces: seq<seq<byte>>): seq<byte> {
    if pieces == [] then [] else pieces[0] + Flatten(pieces[1..])
  }

  /** Chunking does not matter: tokens, inputs, outputs, leftover bytes and verdict are those of
      decoding the whole stream at once, however it is cut into non-empty pieces. */
  lemma {:induction false} ChunkingIrrelevant(env: Env, changes: seq<Change>, p: Progress, first: seq<byte>,
                                              pieces: seq<seq<byte>>)
    requires forall i :: 0 <= i < |pieces| ==> pieces[i] != []
    ensures Feed(env, changes, Drain(env, changes, p, first), pieces)
         == Drain(env, changes, p, first + Flatten(pieces))
    decreases |pieces|
  {
    hide Drain, Resume;
    if pieces == [] {
      assert first + [] == first;
    } else {
      SplitOnce(env, changes, p, first, pieces[0]);
      ChunkingIrrelevant(env, changes, p, first + pieces[0], pieces[1..]);
      assert first + Flatten(pieces) == (first + pieces[0]) + Flatten(pieces[1..]);
    }
  }

  // ---- The grammar of what has been decoded ----

  /** Elements that may follow one another, starting from `p`. */
  ghost predicate Legal(env: Env, changes: seq<Change>, p: Progress, es: seq<Element>)
    decreases |es|
  {
    es == [] || (Fits(env, changes, p, es[0]) && Legal(env, changes, Advance(p, es[0]), es[1..]))
  }

  function ProgressAfter(p: Progress, es: seq<Element>): Progress
    decreases |es|
  {
    if es == [] || !Allowed(p, es[0]) then p else ProgressAfter(Advance(p, es[0]), es[1..])
  }

  predicate Allowed(p: Progress, e: Element) {
    match e { case Token(_) => p.remainingTokens > 0 case Input(_) => p.remainingInputs > 0 case _ => true }
  }

  function StreamBytes(es: seq<Element>): seq<byte> {
    if es == [] then [] else ElementBytes(es[0]) + StreamBytes(es[1..])
  }

  /** Nothing more can be decoded: no bytes are left after at least one element, or too few. */
  ghost predicate Stuck(env: Env, changes: seq<Change>, q: Progress, r: seq<byte>, es: seq<Element>) {
    (r == [] && es != []) || PeelOne(env, changes, q, r) == Short
  }

  /** The decoder asks for more exactly when the stream is a legal sequence of serialized
      elements followed by an incomplete one; every byte is accounted for. */
  lemma {:induction false} ReadyExactly(env: Env, changes: seq<Change>, p: Progress, b: seq<byte>,
                                        q: Progress, r: seq<byte>, es: seq<Element>)
    ensures Drain(env, changes, p, b) == Ready(q, r, es) <==>
            && Legal(env, changes, p, es) && q == ProgressAfter(p, es)
            && b == StreamBytes(es) + r && Stuck(env, changes, q, r, es)
  {
    if Drain(env, changes, p, b) == Ready(q, r, es) {
      ReadyMeans(env, changes, p, b);
    }
    if && Legal(env, changes, p, es) && q == ProgressAfter(p, es)
       && b == StreamBytes(es) + r && Stuck(env, changes, q, r, es)
    {
      LegalDrains(env, changes, p, es, r);
    }
  }

  lemma {:induction false} ReadyMeans(env: Env, changes: seq<Change>, p: Progress, b: seq<byte>)
    requires Drain(env, changes, p, b).Ready?
    ensures var Ready(q, r, es) := Drain(env, changes, p, b);
            && Legal(env, changes, p, es) && q == ProgressAfter(p, es)
            && b == StreamBytes(es) + r && Stuck(env, changes, q, r, es)
    decreases |b|
  {
    hide PeelOne, Fits, ElementBytes;
    var peel := PeelOne(env, changes, p, b);
    if peel.Peeled? {
      var e, n := peel.e, peel.size;
      ElementSize(env, changes, p, b);
      PeelsExactly(env, changes, p, b, e, n);
      assert b == ElementBytes(e) + b[n..];
      if n == |b| {
        LegalOne(env, changes, p, e);
      } else {
        ReadyMeans(env, changes, Advance(p, e), b[n..]);
        var Ready(q, r, es) := Drain(env, changes, Advance(p, e), b[n..]);
        LegalCons(env, changes, p, e, es, r);
      }
    }
  }

  lemma LegalOne(env: Env, changes: seq<Change>, p: Progress, e: Element)
    requires Fits(env, changes, p, e)
    ensures Legal(env, changes, p, [e]) && ProgressAfter(p, [e]) == Advance(p, e)
    ensures StreamBytes([e]) + [] == ElementBytes(e) == ElementBytes(e) + []
  {
    assert [e][1..] == [];
  }

  lemma LegalCons(env: Env, changes: seq<Change>, p: Progress, e: Element, es: seq<Element>, r: seq<byte>)
    requires Fits(env, changes, p, e) && Legal(env, changes, Advance(p, e), es)
    ensures Legal(env, changes, p, [e] + es)
    ensures ProgressAfter(p, [e] + es) == ProgressAfter(Advance(p, e), es)
    ensures StreamBytes([e] + es) + r == ElementBytes(e) + (StreamBytes(es) + r)
  {
    assert ([e] + es)[1..] == es;
  }

  lemma {:induction false} LegalDrains(env: Env, changes: seq<Change>, p: Progress, es: seq<Element>, r: seq<byte>)
    requires Legal(env, changes, p, es) && Stuck(env, changes, ProgressAfter(p, es), r, es)
    ensures Drain(env, changes, p, StreamBytes(es) + r) == Ready(ProgressAfter(p, es), r, es)
    decreases |es|
  {
    hide PeelOne, Fits, ElementBytes;
    var b := StreamBytes(es) + r;
    if es == [] {
      assert b == r;
    } else {
      var e, n := es[0], |ElementBytes(es[0])|;
      PeelsExactly(env, changes, p, b, e, n);
      assert b == ElementBytes(e) + (StreamBytes(es[1..]) + r);
      assert b[n..] == StreamBytes(es[1..]) + r;
      assert es == [e] + es[1..];
      FitsAllowed(env, changes, p, e);
      if |b| == n {
        NothingLeft(env, changes, Advance(p, e), es[1..]);
      } else {
        LegalDrains(env, changes, Advance(p, e), es[1..], r);
      }
    }
  }

  lemma FitsAllowed(env: Env, changes: seq<Change>, p: Progress, e: Element)
    requires Fits(env, changes, p, e)
    ensures Allowed(p, e)
  {
  }

  lemma NothingLeft(env: Env, changes: seq<Change>, p: Progress, es: seq<Element>)
    requires Legal(env, changes, p, es) && StreamBytes(es) == []
    ensures es == []
  {
  }

  // ---- Change checks that throw ----

  /** A change check throws exactly when the derivation for some entry of the output throws and the
      entries before it verify. */
  lemma {:induction false} CheckFailsExactly(env: Env, changes: seq<Change>, i: nat, hash: seq<byte>)
    ensures CheckChange(env, changes, i, hash) == Failed <==> exists k :: FailsAt(env, changes, i, hash, k)
  {
    if changes != [] {
      var rest := changes[1..];
      CheckFailsExactly(env, rest, i, hash);
      var passes := changes[0].index != i || env.verifyChange(changes[0].path, hash) == Ours;
      if k :| passes && FailsAt(env, rest, i, hash, k) {
        assert FailsAt(env, changes, i, hash, k + 1);
      }
      if k :| FailsAt(env, changes, i, hash, k) && k > 0 {
        assert FailsAt(env, rest, i, hash, k - 1);
      }
      if !passes && env.verifyChange(changes[0].path, hash) == Failed {
        assert FailsAt(env, changes, i, hash, 0);
      }
    }
  }

  ghost predicate FailsAt(env: Env, changes: seq<Change>, i: nat, hash: seq<byte>, k: int) {
    && 0 <= k < |changes| && changes[k].index == i && env.verifyChange(changes[k].path, hash) == Failed
    && forall j :: 0 <= j < k && changes[j].index == i ==> env.verifyChange(changes[j].path, hash) == Ours
  }

  /** An output that may stand at `p`, but whose change check throws. */
  ghost predicate Raises(env: Env, changes: seq<Change>, p: Progress, o: WireOutput, long: bool) {
    && p.remainingTokens == 0 && p.remainingInputs == 0 && p.currentOutput < p.outputsLen
    && Encodable(o, long) && o.tokenData < 0x80 && o.tokenData <= |p.tokens|
    && CheckChange(env, changes, p.currentOutput, o.pubkeyHash) == Failed
  }

  lemma RaisesExactly(env: Env, changes: seq<Change>, p: Progress, b: seq<byte>)
    ensures PeelOne(env, changes, p, b) == Raised <==>
            exists o: WireOutput, long: bool :: Raises(env, changes, p, o, long) && OutputBytes(o, long) <= b
  {
    hide ParseBytes, Value, OutputBytes, Encodable, CheckChange, FindToken;
    if PeelOne(env, changes, p, b) == Raised {
      DoneIsEncoding(b);
      var o, n := ParseBytes(b).output, ParseBytes(b).size;
      assert Raises(env, changes, p, o, n == 36) && OutputBytes(o, n == 36) <= b;
    }
    if o: WireOutput, long: bool :| Raises(env, changes, p, o, long) && OutputBytes(o, long) <= b {
      ParsesExactlyTheFormat(b, o, if long then 36 else 32);
    }
  }

  /** Behind the elements `es` stands an output whose change check throws. */
  ghost predicate ThrowsBehind(env: Env, changes: seq<Change>, p: Progress, b: seq<byte>, es: seq<Element>) {
    && Legal(env, changes, p, es) && StreamBytes(es) <= b
    && PeelOne(env, changes, ProgressAfter(p, es), b[|StreamBytes(es)|..]) == Raised
  }

  /** Decoding throws exactly when the stream is a legal sequence of elements followed by an output
      whose change check throws. */
  lemma {:induction false} ThrewExactly(env: Env, changes: seq<Change>, p: Progress, b: seq<byte>)
    ensures Drain(env, changes, p, b) == Threw <==>
            exists es: seq<Element> :: ThrowsBehind(env, changes, p, b, es)
    decreases |b|
  {
    hide PeelOne, Fits, ElementBytes;
    var peel := PeelOne(env, changes, p, b);
    if peel == Raised {
      assert ThrowsBehind(env, changes, p, b, []);
    } else if peel.Peeled? {
      var e, n := peel.e, peel.size;
      ElementSize(env, changes, p, b);
      PeelsExactly(env, changes, p, b, e, n);
      FitsAllowed(env, changes, p, e);
      if n < |b| {
        ThrewExactly(env, changes, Advance(p, e), b[n..]);
      }
      if es: seq<Element> :| n < |b| && ThrowsBehind(env, changes, Advance(p, e), b[n..], es) {
        ThrowsLater(env, changes, p, b, e, es);
      }
    }
    if es: seq<Element> :| ThrowsBehind(env, changes, p, b, es) {
      ThrowsSooner(env, changes, p, b, es);
    }
  }

  lemma ThrowsLater(env: Env, changes: seq<Change>, p: Progress, b: seq<byte>, e: Element, es: seq<Element>)
    requires Fits(env, changes, p, e) && ElementBytes(e) <= b
    requires ThrowsBehind(env, changes, Advance(p, e), b[|ElementBytes(e)|..], es)
    ensures ThrowsBehind(env, changes, p, b, [e] + es)
  {
    hide PeelOne, Fits, ElementBytes;
    FitsAllowed(env, changes, p, e);
    LegalCons(env, changes, p, e, es, []);
    var n, rest := |ElementBytes(e)|, b[|ElementBytes(e)|..];
    assert ([e] + es)[1..] == es && StreamBytes([e] + es) == ElementBytes(e) + StreamBytes(es);
    assert b == ElementBytes(e) + rest;
    assert b[|StreamBytes([e] + es)|..] == rest[|StreamBytes(es)|..];
  }

  lemma ThrowsSooner(env: Env, changes: seq<Change>, p: Progress, b: seq<byte>, es: seq<Element>)
    requires ThrowsBehind(env, changes, p, b, es)
    ensures if es == [] then PeelOne(env, changes, p, b) == Raised
            else
              var n := |ElementBytes(es[0])|;
              && n < |b| && PeelOne(env, changes, p, b) == Peeled(es[0], n) && Allowed(p, es[0])
              && ThrowsBehind(env, changes, Advance(p, es[0]), b[n..], es[1..])
  {
    hide PeelOne, Fits, ElementBytes;
    if es == [] {
      assert b[0..] == b;
    } else {
      var e, n := es[0], |ElementBytes(es[0])|;
      FitsAllowed(env, changes, p, e);
      assert ElementBytes(e) <= b;
      PeelsExactly(env, changes, p, b, e, n);
      assert b[|StreamBytes(es)|..] == b[n..][|StreamBytes(es[1..])|..];
      NotEmptyRaised(env, changes, ProgressAfter(p, es), b[|StreamBytes(es)|..]);
    }
  }

  lemma NotEmptyRaised(env: Env, changes: seq<Change>, p: Progress, b: seq<byte>)
    requires PeelOne(env, changes, p, b) == Raised
    ensures b != []
  {
    hide CheckChange, FindToken;
  }

  // ---- The token array ----

  /** The first `n` uids of `b` are all registered. */
  predicate RegisteredUids(env: Env, b: seq<byte>, n: nat) {
    |b| >= TOKEN_UID_LEN * n && forall i :: 0 <= i < n ==> FindToken(env.registry, b[32 * i..32 * i + 32]).Some?
  }

  /** Decoding runs past the token array exactly when more than ten tokens are announced and the
      first eleven uids received are registered. */
  lemma OverrunExactly(env: Env, changes: seq<Change>, nt: nat, ni: nat, no: nat, b: seq<byte>)
    ensures Drain(env, changes, Start(nt, ni, no), b) == Overran <==>
            nt > TX_MAX_TOKENS && RegisteredUids(env, b, TX_MAX_TOKENS + 1)
  {
    OverrunFrom(env, changes, Start(nt, ni, no), b);
  }

  lemma {:induction false} OverrunFrom(env: Env, changes: seq<Change>, p: Progress, b: seq<byte>)
    requires |p.tokens| <= TX_MAX_TOKENS
    ensures Drain(env, changes, p, b) == Overran <==>
            var n := TX_MAX_TOKENS - |p.tokens|; p.remainingTokens > n && RegisteredUids(env, b, n + 1)
    decreases |b|
  {
    hide FindToken, ParseBytes, CheckChange, Value;
    var n := TX_MAX_TOKENS - |p.tokens|;
    var peel := PeelOne(env, changes, p, b);
    FirstUid(env, b, n);
    if peel.Peeled? {
      ElementSize(env, changes, p, b);
      if peel.size < |b| {
        OverrunFrom(env, changes, Advance(p, peel.e), b[peel.size..]);
      }
    }
  }

  lemma FirstUid(env: Env, b: seq<byte>, n: nat)
    ensures RegisteredUids(env, b, n + 1) <==>
            |b| >= 32 && FindToken(env.registry, b[..32]).Some? && RegisteredUids(env, b[32..], n)
  {
    hide FindToken;
    if |b| >= 32 {
      assert b[32 * 0..32 * 0 + 32] == b[..32];
      if |b| >= 32 * (n + 1) {
        forall i | 0 <= i < n
          ensures b[32..][32 * i..32 * i + 32] == b[32 * (i + 1)..32 * (i + 1) + 32]
        {
        }
      }
      if RegisteredUids(env, b, n + 1) {
        forall i | 0 <= i < n
          ensures FindToken(env.registry, b[32..][32 * i..32 * i + 32]).Some?
        {
          assert FindToken(env.registry, b[32 * (i + 1)..32 * (i + 1) + 32]).Some?;
        }
      }
      if FindToken(env.registry, b[..32]).Some? && RegisteredUids(env, b[32..], n) {
        forall i | 0 <= i < n + 1
          ensures FindToken(env.registry, b[32 * i..32 * i + 32]).Some?
        {
          if i > 0 {
            assert b[32..][32 * (i - 1)..32 * (i - 1) + 32] == b[32 * i..32 * i + 32];
          }
        }
      }
    }
  }

  // ---- Complete transactions ----

  datatype SentOutput = SentOutput(wire: WireOutput, long: bool)

  /** A transaction as the client serializes it behind the header. */
  datatype Tx = Tx(tokens: seq<TokenSymbol>, inputs: seq<seq<byte>>, outputs: seq<SentOutput>)

  function Elements(tx: Tx): (es: seq<Element>)
    decreases |tx.tokens| + |tx.inputs| + |tx.outputs|
  {
    if tx.tokens != [] then [Token(tx.tokens[0])] + Elements(tx.(tokens := tx.tokens[1..]))
    else if tx.inputs != [] then [Input(tx.inputs[0])] + Elements(tx.(inputs := tx.inputs[1..]))
    else if tx.outputs != [] then
      [Output(tx.outputs[0].wire, tx.outputs[0].long)] + Elements(tx.(outputs := tx.outputs[1..]))
    else []
  }

  /** The bytes of the transaction: tokens, inputs and outputs in this order. */
  function Body(tx: Tx): seq<byte> {
    StreamBytes(Elements(tx))
  }

  ghost predicate Registered(env: Env, t: TokenSymbol) {
    && |t.uid| == TOKEN_UID_LEN
    && FindToken(env.registry, t.uid).Some? && env.registry[FindToken(env.registry, t.uid).value] == t
  }

  /** Output `i` is a plain P2PKH output of HTR or of one of the listed tokens, and if it is
      announced as change, every announcement of it is confirmed to lead to the user's wallet. */
  ghost predicate GoodOutput(env: Env, changes: seq<Change>, tokens: nat, i: nat, o: SentOutput) {
    && Encodable(o.wire, o.long) && o.wire.tokenData < 0x80 && o.wire.tokenData <= tokens
    && forall c :: c in changes && c.index == i ==> env.verifyChange(c.path, o.wire.pubkeyHash) == Ours
  }

  ghost predicate ValidTx(env: Env, changes: seq<Change>, tx: Tx) {
    ValidFrom(env, changes, Start(|tx.tokens|, |tx.inputs|, |tx.outputs|), tx)
  }

  /** `tx` is what is still missing at `p`. */
  ghost predicate ValidFrom(env: Env, changes: seq<Change>, p: Progress, tx: Tx) {
    && |tx.tokens| == p.remainingTokens && |tx.inputs| == p.remainingInputs
    && p.currentOutput + |tx.outputs| == p.outputsLen
    && |p.tokens| + |tx.tokens| <= TX_MAX_TOKENS
    && (forall t :: t in tx.tokens ==> Registered(env, t))
    && (forall x :: x in tx.inputs ==> |x| == 33)
    && (forall i :: 0 <= i < |tx.outputs| ==>
          GoodOutput(env, changes, |p.tokens| + |tx.tokens|, p.currentOutput + i, tx.outputs[i]))
  }

  lemma {:induction false} ChecksEveryEntry(env: Env, changes: seq<Change>, i: nat, hash: seq<byte>)
    ensures CheckChange(env, changes, i, hash) == Ours <==>
            forall c :: c in changes && c.index == i ==> env.verifyChange(c.path, hash) == Ours
  {
    if changes != [] {
      ChecksEveryEntry(env, changes[1..], i, hash);
      assert changes == [changes[0]] + changes[1..];
      assert forall c :: c in changes <==> c == changes[0] || c in changes[1..];
    }
  }

  /** The first element of a non-empty transaction, and the transaction behind it. */
  function Split(tx: Tx): (Element, Tx)
    requires tx != Tx([], [], [])
  {
    if tx.tokens != [] then (Token(tx.tokens[0]), tx.(tokens := tx.tokens[1..]))
    else if tx.inputs != [] then (Input(tx.inputs[0]), tx.(inputs := tx.inputs[1..]))
    else (Output(tx.outputs[0].wire, tx.outputs[0].long), tx.(outputs := tx.outputs[1..]))
  }

  lemma FirstFits(env: Env, changes: seq<Change>, p: Progress, tx: Tx)
    requires ValidFrom(env, changes, p, tx) && tx != Tx([], [], [])
    ensures Fits(env, changes, p, Split(tx).0)
  {
    hide FindToken, CheckChange, Encodable;
    if tx.tokens != [] {
      assert Registered(env, tx.tokens[0]);
    } else if tx.inputs == [] {
      var o := tx.outputs[0];
      assert GoodOutput(env, changes, |p.tokens| + |tx.tokens|, p.currentOutput + 0, o);
      ChecksEveryEntry(env, changes, p.currentOutput, o.wire.pubkeyHash);
    }
  }

  lemma RestValid(env: Env, changes: seq<Change>, p: Progress, tx: Tx)
    requires ValidFrom(env, changes, p, tx) && tx != Tx([], [], [])
    ensures Allowed(p, Split(tx).0) && ValidFrom(env, changes, Advance(p, Split(tx).0), Split(tx).1)
  {
    hide GoodOutput, Registered;
    var p', tx' := Advance(p, Split(tx).0), Split(tx).1;
    forall i | 0 <= i < |tx'.outputs|
      ensures GoodOutput(env, changes, |p'.tokens| + |tx'.tokens|, p'.currentOutput + i, tx'.outputs[i])
    {
      var k := if tx.tokens == [] && tx.inputs == [] then i + 1 else i;
      assert GoodOutput(env, changes, |p.tokens| + |tx.tokens|, p.currentOutput + k, tx.outputs[k]);
    }
  }

  lemma {:induction false} ValidIsLegal(env: Env, changes: seq<Change>, p: Progress, tx: Tx)
    requires ValidFrom(env, changes, p, tx)
    ensures Legal(env, changes, p, Elements(tx)) && Complete(ProgressAfter(p, Elements(tx)))
    decreases |tx.tokens| + |tx.inputs| + |tx.outputs|
  {
    hide Fits, ElementBytes, GoodOutput, Registered;
    if tx != Tx([], [], []) {
      var (e, tx') := Split(tx);
      FirstFits(env, changes, p, tx);
      RestValid(env, changes, p, tx);
      ValidIsLegal(env, changes, Advance(p, e), tx');
      LegalCons(env, changes, p, e, Elements(tx'), []);
    }
  }

  lemma {:induction false} LegalIsValid(env: Env, changes: seq<Change>, p: Progress, es: seq<Element>) returns (tx: Tx)
    requires Legal(env, changes, p, es) && Complete(ProgressAfter(p, es))
    requires |p.tokens| <= TX_MAX_TOKENS
    ensures ValidFrom(env, changes, p, tx) && Elements(tx) == es
    decreases |es|
  {
    hide FindToken, CheckChange, Encodable, ElementBytes;
    if es == [] {
      tx := Tx([], [], []);
    } else {
      var e := es[0];
      FitsAllowed(env, changes, p, e);
      tx := LegalIsValid(env, changes, Advance(p, e), es[1..]);
      assert es == [e] + es[1..];
      match e
      case Token(s) =>
        tx := PrependToken(env, changes, p, s, tx);
      case Input(x) =>
        tx := PrependInput(env, changes, p, x, tx);
      case Output(w, long) =>
        ChecksEveryEntry(env, changes, p.currentOutput, w.pubkeyHash);
        tx := PrependOutput(env, changes, p, SentOutput(w, long), tx);
    }
  }

  lemma PrependToken(env: Env, changes: seq<Change>, p: Progress, s: TokenSymbol, tx: Tx) returns (r: Tx)
    requires p.remainingTokens > 0 && Registered(env, s)
    requires ValidFrom(env, changes, Advance(p, Token(s)), tx)
    ensures ValidFrom(env, changes, p, r) && Elements(r) == [Token(s)] + Elements(tx)
  {
    hide FindToken, GoodOutput;
    r := tx.(tokens := [s] + tx.tokens);
    assert r.(tokens := r.tokens[1..]) == tx;
  }

  lemma PrependInput(env: Env, changes: seq<Change>, p: Progress, x: seq<byte>, tx: Tx) returns (r: Tx)
    requires p.remainingTokens == 0 && p.remainingInputs > 0 && |x| == 33
    requires ValidFrom(env, changes, Advance(p, Input(x)), tx)
    ensures ValidFrom(env, changes, p, r) && Elements(r) == [Input(x)] + Elements(tx)
  {
    hide GoodOutput;
    r := tx.(inputs := [x] + tx.inputs);
    assert r.(inputs := r.inputs[1..]) == tx;
  }

  lemma PrependOutput(env: Env, changes: seq<Change>, p: Progress, o: SentOutput, tx: Tx) returns (r: Tx)
    requires p.remainingTokens == p.remainingInputs == 0
    requires GoodOutput(env, changes, |p.tokens|, p.currentOutput, o)
    requires ValidFrom(env, changes, p.(currentOutput := p.currentOutput + 1), tx)
    ensures ValidFrom(env, changes, p, r) && Elements(r) == [Output(o.wire, o.long)] + Elements(tx)
  {
    hide GoodOutput;
    r := tx.(outputs := [o] + tx.outputs);
    assert r.(outputs := r.outputs[1..]) == tx;
    forall i | 0 <= i < |r.outputs|
      ensures GoodOutput(env, changes, |p.tokens| + |r.tokens|, p.currentOutput + i, r.outputs[i])
    {
      if i > 0 {
        assert GoodOutput(env, changes, |p.tokens| + |tx.tokens|, p.currentOutput + 1 + (i - 1), tx.outputs[i - 1]);
      }
    }
  }

  /** `b` is the body of the valid transaction `tx` with these counts. */
  ghost predicate Serializes(env: Env, changes: seq<Change>, nt: nat, ni: nat, no: nat, tx: Tx, b: seq<byte>) {
    && |tx.tokens| == nt && |tx.inputs| == ni && |tx.outputs| == no
    && ValidTx(env, changes, tx) && b == Body(tx)
  }

  /** One-shot decoding of `b` ends with every announced element decoded and nothing left over
      exactly when `b` is the serialization of a valid transaction with the announced counts. */
  lemma AcceptsExactlyTransactions(env: Env, changes: seq<Change>, nt: nat, ni: nat, no: nat, b: seq<byte>)
    requires nt + ni + no > 0
    ensures (var d := Drain(env, changes, Start(nt, ni, no), b); d.Ready? && Complete(d.p)) <==>
            exists tx: Tx :: Serializes(env, changes, nt, ni, no, tx, b)
  {
    hide Drain, ValidFrom, Elements, StreamBytes;
    var d := Drain(env, changes, Start(nt, ni, no), b);
    if d.Ready? && Complete(d.p) {
      var tx := CompleteIsTransaction(env, changes, nt, ni, no, b);
    }
    if tx: Tx :| Serializes(env, changes, nt, ni, no, tx, b) {
      TransactionIsComplete(env, changes, tx);
    }
  }

  lemma CompleteIsTransaction(env: Env, changes: seq<Change>, nt: nat, ni: nat, no: nat, b: seq<byte>) returns (tx: Tx)
    requires var d := Drain(env, changes, Start(nt, ni, no), b); d.Ready? && Complete(d.p)
    ensures Serializes(env, changes, nt, ni, no, tx, b)
    ensures var d := Drain(env, changes, Start(nt, ni, no), b);
            d.Ready? && d.rest == [] && d.es == Elements(tx)
  {
    hide Drain, Fits, StreamBytes, Elements;
    var d := Drain(env, changes, Start(nt, ni, no), b);
    ReadyMeans(env, changes, Start(nt, ni, no), b);
    tx := LegalIsValid(env, changes, Start(nt, ni, no), d.es);
    assert d.rest == [];
    assert StreamBytes(d.es) + [] == StreamBytes(d.es);
  }

  lemma TransactionIsComplete(env: Env, changes: seq<Change>, tx: Tx)
    requires ValidTx(env, changes, tx) && |tx.tokens| + |tx.inputs| + |tx.outputs| > 0
    ensures var d := Drain(env, changes, Start(|tx.tokens|, |tx.inputs|, |tx.outputs|), Body(tx));
            d.Ready? && Complete(d.p) && d.rest == [] && d.es == Elements(tx)
  {
    hide Drain, Fits, StreamBytes;
    var p := Start(|tx.tokens|, |tx.inputs|, |tx.outputs|);
    ValidIsLegal(env, changes, p, tx);
    LegalDrains(env, changes, p, Elements(tx), []);
    assert StreamBytes(Elements(tx)) + [] == Body(tx);
  }
}
