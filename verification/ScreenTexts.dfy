/** What the user reads on the screen while asked about an output, said of the texts in the three buffers
    alone: the address pays the hash of that output, the amount is its value in the token whose uid has
    been hashed, the number is its rank among the outputs to be confirmed. */
module ScreenTexts {
  import opened Common
  import opened Positional
  import opened Format
  import opened Base58
  import opened ChangeInfo
  import opened Deserialize
  import opened Decoder
  import opened Screens
  import opened Session
  import opened Confirmation
  import opened Runs
  import opened Theorems
  import opened Stops
  import opened GoodRuns
  import Device

  // ---- Texts ----

  /** The C string at the front of a buffer. */
  function Text(b: seq<char>): string {
    if b == [] || b[0] == '\0' then "" else [b[0]] + Text(b[1..])
  }

  lemma {:induction false} TextOf(b: seq<char>, t: string)
    requires HasText(b, 0, t) && '\0' !in t
    ensures Text(b) == t
    decreases |t|
  {
    assert b[0..|t|] == t;
    if t != "" {
      assert b[0] == t[0];
      assert b[1..][0..0 + |t[1..]|] == t[1..];
      TextOf(b[1..], t[1..]);
      assert t == [t[0]] + t[1..];
    }
  }

  // ---- Decimal numbers ----

  predicate IsDigit(c: char) {
    '0' <= c <= '9'
  }

  predicate Decimal(s: string) {
    forall i :: 0 <= i < |s| ==> IsDigit(s[i])
  }

  /** The number that a decimal string denotes. */
  function Number(s: string): nat
    requires Decimal(s)
  {
    if s == "" then 0 else 10 * Number(s[..|s| - 1]) + (s[|s| - 1] as nat - '0' as nat)
  }

  lemma {:induction false} NumberIs(s: string)
    requires Decimal(s)
    ensures Number(s) == Value(GlyphDigits(s), 10)
  {
    if s != "" {
      NumberIs(s[..|s| - 1]);
      assert GlyphDigits(s[..|s| - 1]) == GlyphDigits(s)[..|s| - 1];
    }
  }

  /** What the numeral printed says, by its characters. */
  lemma NumeralReads(v: nat)
    ensures Decimal(Numeral(v, 10)) && Number(Numeral(v, 10)) == v
    ensures Numeral(v, 10) != "" && (v > 0 ==> Numeral(v, 10)[0] != '0') && (v == 0 ==> Numeral(v, 10) == "0")
  {
    hide Value;
    NumeralCanonical(v, 10);
    NumberIs(Numeral(v, 10));
  }

  // ---- The number of the output ----

  /** Two decimal numbers with a slash between them. */
  ghost predicate CountReads(t: string, shown: nat, total: nat) {
    exists k: nat :: SlashAt(t, k, shown, total)
  }

  predicate SlashAt(t: string, k: nat, shown: nat, total: nat) {
    && 0 < k < |t| - 1 && t[k] == '/' && Decimal(t[..k]) && Decimal(t[k + 1..])
    && Number(t[..k]) == shown && Number(t[k + 1..]) == total
  }

  /** The text tells both numbers. */
  lemma CountTells(t: string, a: nat, b: nat, c: nat, d: nat)
    requires CountReads(t, a, b) && CountReads(t, c, d)
    ensures a == c && b == d
  {
    hide Number;
    var j: nat :| SlashAt(t, j, a, b);
    var k: nat :| SlashAt(t, k, c, d);
    OneSlash(t, j, a, b, k);
  }

  lemma OneSlash(t: string, k: nat, a: nat, b: nat, j: nat)
    requires SlashAt(t, k, a, b) && j < |t| && t[j] == '/'
    ensures j == k
  {
    hide Number;
    if j < k {
      DecimalAt(t[..k], j);
    } else if j > k {
      DecimalAt(t[k + 1..], j - k - 1);
    }
  }

  lemma DecimalAt(s: string, i: nat)
    requires Decimal(s) && i < |s|
    ensures s[i] != '/' && s[i] != ' '
  {
  }

  lemma IndexReads(changes: seq<Change>, outputsLen: nat, i: nat)
    ensures CountReads(IndexLine(changes, outputsLen, i), ShownIndex(changes, i), ShownTotal(changes, outputsLen))
    ensures '\0' !in IndexLine(changes, outputsLen, i)
  {
    hide Number, Numeral, ShownIndex, ShownTotal;
    var a, b := ShownIndex(changes, i), ShownTotal(changes, outputsLen);
    NumeralReads(a);
    NumeralReads(b);
    var x, y := Numeral(a, 10), Numeral(b, 10);
    var t := x + "/" + y;
    assert t[..|x|] == x && t[|x| + 1..] == y;
    assert SlashAt(t, |x|, a, b);
  }

  // ---- The address ----

  /** The Base58 text of 25 bytes: a network's version, the hash, and the checksum of that hash. */
  predicate AddressReads(env: Env, t: string, hash: seq<byte>) {
    && |t| == 34 && AllBase58(t)
    && var x := Decode58(t);
       |x| == 25 && x[0] == env.version && x[1..21] == hash && env.checksum(hash) == Some(x[21..25])
  }

  lemma AddressEncoded(env: Env, hash: seq<byte>, checksum: Checksum)
    requires |hash| == 20 && IsVersion(env.version) && env.checksum(hash) == Some(checksum)
    ensures AddressReads(env, Encode58(Address(env.version, hash, checksum)), hash)
    ensures '\0' !in Encode58(Address(env.version, hash, checksum))
  {
    hide Encode58, Decode58;
    var a := Address(env.version, hash, checksum);
    DecodeEncode(a);
    AddressLength(a);
    assert a[1..21] == hash && a[21..25] == checksum;
  }

  /** Outputs to different hashes are shown with different texts. */
  lemma AddressTells(env: Env, t: string, h1: seq<byte>, h2: seq<byte>)
    requires AddressReads(env, t, h1) && AddressReads(env, t, h2)
    ensures h1 == h2
  {
    hide Decode58;
  }

  // ---- The amount ----

  /** Two decimals behind a point; a comma before every group of three digits in front of it, counted from
      the right; no superfluous zero, and digits everywhere else. */
  predicate AmountShape(t: string) {
    && |t| >= 4 && IsDigit(t[0]) && (|t| > 4 ==> t[0] != '0')
    && forall k :: 0 <= k < |t| ==>
                     if k == |t| - 3 then t[k] == '.'
                     else if k < |t| - 3 && (|t| - 3 - k) % 4 == 0 then t[k] == ','
                     else IsDigit(t[k])
  }

  /** The symbol, a blank, and an amount whose digits are the value. */
  predicate AmountReads(t: string, symbol: string, value: nat) {
    && |t| > |symbol| && t[..|symbol|] == symbol && t[|symbol|] == ' '
    && var rest := t[|symbol| + 1..];
       AmountShape(rest) && Decimal(StripSeparators(rest)) && Number(StripSeparators(rest)) == value
  }

  /** Digits, and a comma before every third from the right. */
  predicate GroupShape(g: string) {
    forall k :: 0 <= k < |g| ==> if (|g| - k) % 4 == 0 then g[k] == ',' else IsDigit(g[k])
  }

  lemma {:induction false} GroupedShape(s: string)
    requires s != "" && Decimal(s)
    ensures var g := Grouped(s); g != "" && g[0] == s[0] && (|g| > 1 ==> |s| > 1) && GroupShape(g)
    decreases |s|
  {
    hide GroupShape;
    if |s| > 3 {
      GroupedShape(s[..|s| - 3]);
      GroupAppended(Grouped(s[..|s| - 3]), s[|s| - 3..]);
    } else {
      OneGroup(s);
    }
  }

  lemma OneGroup(s: string)
    requires |s| <= 3 && Decimal(s)
    ensures GroupShape(s)
  {
  }

  lemma GroupAppended(g: string, s: string)
    requires GroupShape(g) && |s| == 3 && Decimal(s)
    ensures GroupShape(g + "," + s)
  {
    var h := g + "," + s;
    forall k | 0 <= k < |h|
      ensures if (|h| - k) % 4 == 0 then h[k] == ',' else IsDigit(h[k])
    {
      assert (|h| - k) % 4 == (|g| - k) % 4;
    }
  }

  lemma AmountTextReads(value: nat)
    ensures AmountShape(AmountText(value)) && Decimal(StripSeparators(AmountText(value)))
    ensures Number(StripSeparators(AmountText(value))) == value && '\0' !in AmountText(value)
  {
    hide Value, Number, Numeral, StripSeparators, Grouped, GlyphDigits;
    var n, t := Numeral(value / 100, 10), TwoDigits(value % 100);
    NumeralReads(value / 100);
    GroupedShape(n);
    NumeralPlain(value / 100);
    StripJoined(Grouped(n), '.', t);
    StripGrouped(n);
    StripPlain(t);
    AmountReversible(value);
    NumberIs(StripSeparators(AmountText(value)));
  }

  lemma AmountLineReads(symbol: string, value: nat)
    requires '\0' !in symbol
    ensures AmountReads(AmountLine(symbol, value), symbol, value) && '\0' !in AmountLine(symbol, value)
  {
    hide AmountText, AmountShape, StripSeparators, Number;
    AmountTextReads(value);
    var t := AmountLine(symbol, value);
    assert t[..|symbol|] == symbol && t[|symbol| + 1..] == AmountText(value);
  }

  /** The text tells the symbol and the value. */
  lemma AmountTells(t: string, symbol: string, value: nat, other: string, amount: nat)
    requires AmountReads(t, symbol, value) && AmountReads(t, other, amount)
    ensures symbol == other && value == amount
  {
    hide StripSeparators, Number;
    OneBlank(t, symbol, value, |other|);
    OneBlank(t, other, amount, |symbol|);
  }

  lemma OneBlank(t: string, symbol: string, value: nat, k: nat)
    requires AmountReads(t, symbol, value) && k < |t| && t[k] == ' '
    ensures k <= |symbol|
  {
    hide StripSeparators, Number;
    if k > |symbol| {
      NoBlank(t[|symbol| + 1..], k - |symbol| - 1);
    }
  }

  lemma NoBlank(t: string, k: nat)
    requires AmountShape(t) && k < |t|
    ensures t[k] != ' '
  {
  }

  // ---- The token ----

  /** The symbol of an output's token: "HTR" for token data 0, otherwise that of the first registry entry
      with the uid that stands at this place behind the header of the bytes hashed. */
  ghost predicate NamesToken(env: Env, hashed: seq<byte>, tokenData: nat, symbol: string) {
    if tokenData == 0 then symbol == "HTR"
    else
      && 5 + 32 * tokenData <= |hashed|
      && exists k :: && FirstEntry(env.registry, hashed[5 + 32 * (tokenData - 1)..5 + 32 * tokenData], k)
                     && env.registry[k].symbol == symbol
  }

  /** Entry `k` is the first with this uid. */
  predicate FirstEntry(registry: seq<TokenSymbol>, uid: seq<byte>, k: int) {
    && 0 <= k < |registry| && registry[k].uid == uid
    && forall j :: 0 <= j < k ==> registry[j].uid != uid
  }

  /** The search finds the first entry with the uid, or there is none. */
  lemma {:induction false} FindsFirst(registry: seq<TokenSymbol>, uid: seq<byte>)
    ensures forall k :: FindToken(registry, uid) == Some(k) <==> FirstEntry(registry, uid, k)
    ensures FindToken(registry, uid) == None <==> forall j :: 0 <= j < |registry| ==> registry[j].uid != uid
  {
    if registry != [] {
      FindsFirst(registry[1..], uid);
      assert forall j :: 0 < j < |registry| ==> registry[1..][j - 1] == registry[j];
    }
  }

  /** The token at position `i` of the token array has the uid at position `i` behind the header. */
  ghost predicate TokenAt(env: Env, b: seq<byte>, t: TokenSymbol, i: nat) {
    32 * i + 32 <= |b| && exists k :: FirstEntry(env.registry, b[32 * i..32 * i + 32], k) && env.registry[k] == t
  }

  /** The tokens come first, with 32 bytes each, and are kept in the order of their uids. */
  lemma {:induction false} TokensInOrder(env: Env, changes: seq<Change>, p: Progress, es: seq<Element>, i: nat)
    requires Legal(env, changes, p, es)
    requires |p.tokens| + i < |ProgressAfter(p, es).tokens|
    ensures TokenAt(env, StreamBytes(es), ProgressAfter(p, es).tokens[|p.tokens| + i], i)
    decreases |es|
  {
    hide CheckChange, FindToken, Encodable, TokenAt, FirstEntry;
    if p.remainingTokens == 0 {
      TokensStay(env, changes, p, es);
    } else {
      assert es != [] && es[0].Token?;
      var q := Advance(p, es[0]);
      FirstToken(env, es[0].symbol, StreamBytes(es[1..]));
      TokensKept(env, changes, q, es[1..]);
      if i > 0 {
        TokensInOrder(env, changes, q, es[1..], i - 1);
        NextToken(env, es[0].symbol.uid, StreamBytes(es[1..]), ProgressAfter(p, es).tokens[|p.tokens| + i], i - 1);
      }
    }
  }

  lemma FirstToken(env: Env, t: TokenSymbol, more: seq<byte>)
    requires |t.uid| == 32 && FindToken(env.registry, t.uid).Some?
    requires env.registry[FindToken(env.registry, t.uid).value] == t
    ensures TokenAt(env, t.uid + more, t, 0)
  {
    hide FindToken, FirstEntry;
    FindsFirst(env.registry, t.uid);
    assert (t.uid + more)[32 * 0..32 * 0 + 32] == t.uid;
  }

  lemma NextToken(env: Env, uid: seq<byte>, more: seq<byte>, t: TokenSymbol, i: nat)
    requires |uid| == 32 && TokenAt(env, more, t, i)
    ensures TokenAt(env, uid + more, t, i + 1)
  {
    hide FirstEntry;
    assert (uid + more)[32 * (i + 1)..32 * (i + 1) + 32] == more[32 * i..32 * i + 32];
  }

  lemma {:induction false} TokensKept(env: Env, changes: seq<Change>, p: Progress, es: seq<Element>)
    requires Legal(env, changes, p, es)
    ensures |ProgressAfter(p, es).tokens| >= |p.tokens| && ProgressAfter(p, es).tokens[..|p.tokens|] == p.tokens
    decreases |es|
  {
    hide CheckChange, FindToken, Encodable;
    if es != [] {
      FitsAllowed(env, changes, p, es[0]);
      TokensKept(env, changes, Advance(p, es[0]), es[1..]);
      var q, r := Advance(p, es[0]), ProgressAfter(p, es);
      assert q.tokens[..|p.tokens|] == p.tokens;
      assert r.tokens[..|q.tokens|][..|p.tokens|] == r.tokens[..|p.tokens|];
    }
  }

  /** The hash of every decoded output has twenty bytes. */
  lemma {:induction false} DecodedOutput(env: Env, changes: seq<Change>, p: Progress, es: seq<Element>, from: nat,
                                         i: nat)
    requires Legal(env, changes, p, es) && i < |OutputsOf(es, from)|
    ensures |OutputsOf(es, from)[i].wire.pubkeyHash| == 20
    decreases |es|
  {
    hide FindToken, CheckChange;
    FitsAllowed(env, changes, p, es[0]);
    if !es[0].Output? {
      DecodedOutput(env, changes, Advance(p, es[0]), es[1..], from, i);
    } else if i > 0 {
      DecodedOutput(env, changes, Advance(p, es[0]), es[1..], from + 1, i - 1);
    }
  }

  /** What the session knows about an output it has decoded: the symbol the screen looks up is the one the
      bytes hashed name. */
  lemma SymbolNamed(env: Env, s: Session, i: nat)
    requires Stream(env, s) && i < |s.log.decoded|
    ensures var o := s.log.decoded[i].wire;
            && |o.pubkeyHash| == 20 && o.tokenData < 128 && o.tokenData <= |s.ctx.p.tokens|
            && SymbolOf(s.ctx.p, o.tokenData).Some?
            && NamesToken(env, s.ctx.hashed, o.tokenData, SymbolOf(s.ctx.p, o.tokenData).value)
  {
    hide Drain, OutputsOf, Legal, NamesToken, ProgressAfter, StreamBytes;
    var h := s.ctx.hashed;
    var p := Start(h[2], h[3], h[4]);
    var es := Drain(env, s.ctx.changes, p, h[5..]).es;
    ReadyMeans(env, s.ctx.changes, p, h[5..]);
    TokensKnown(env, s.ctx.changes, p, es, 0, i);
    DecodedOutput(env, s.ctx.changes, p, es, 0, i);
    SymbolNames(env, s, s.log.decoded[i].wire.tokenData);
  }

  lemma SymbolNames(env: Env, s: Session, tokenData: nat)
    requires Stream(env, s) && tokenData < 128 && tokenData <= |s.ctx.p.tokens|
    ensures SymbolOf(s.ctx.p, tokenData).Some?
    ensures NamesToken(env, s.ctx.hashed, tokenData, SymbolOf(s.ctx.p, tokenData).value)
  {
    hide Drain, OutputsOf, Legal, ProgressAfter, StreamBytes, FirstEntry;
    if tokenData > 0 {
      var h := s.ctx.hashed;
      var p := Start(h[2], h[3], h[4]);
      var d := Drain(env, s.ctx.changes, p, h[5..]);
      ReadyMeans(env, s.ctx.changes, p, h[5..]);
      TokensInOrder(env, s.ctx.changes, p, d.es, tokenData - 1);
      BehindHeader(env, h, StreamBytes(d.es), d.rest, tokenData, s.ctx.p.tokens[tokenData - 1]);
    }
  }

  lemma BehindHeader(env: Env, h: seq<byte>, b: seq<byte>, rest: seq<byte>, tokenData: nat, t: TokenSymbol)
    requires |h| >= 5 && h[5..] == b + rest && tokenData > 0 && TokenAt(env, b, t, tokenData - 1)
    ensures NamesToken(env, h, tokenData, t.symbol)
  {
    hide FirstEntry;
    var i := tokenData - 1;
    assert h[5 + 32 * i..5 + 32 * tokenData] == b[32 * i..32 * i + 32];
  }

  /** The bytes hashed name one symbol, and go on naming it as more bytes follow. */
  lemma NamesOne(env: Env, hashed: seq<byte>, more: seq<byte>, tokenData: nat, a: string, b: string)
    requires NamesToken(env, hashed, tokenData, a) && NamesToken(env, hashed + more, tokenData, b)
    ensures a == b
  {
    if tokenData > 0 {
      var lo, hi := 5 + 32 * (tokenData - 1), 5 + 32 * tokenData;
      assert (hashed + more)[lo..hi] == hashed[lo..hi];
    }
  }

  /** Once a transaction has been approved, the symbol looked up for each of its tokens is that token's. */
  lemma ApprovedSymbols(env: Env, s: Session, tx: Tx, i: nat)
    requires Reached(env, s) && s.ctx.state == StateApproved && !s.flow.Stopped? && HashesTx(env, s, tx)
    requires 1 <= i <= |tx.tokens|
    ensures SymbolOf(s.ctx.p, i) == Some(tx.tokens[i - 1].symbol)
    ensures NamesToken(env, s.ctx.hashed, i, tx.tokens[i - 1].symbol)
  {
    hide Reached, Inv, Drain, Stream, ValidTx, Elements, StreamBytes, NamesToken, Finished;
    ReachedKeeps(env, s);
    FinishedWhenApproved(env, s);
    TokensReceived(env, s, tx);
    SymbolNames(env, s, i);
  }

  lemma TokensReceived(env: Env, s: Session, tx: Tx)
    requires Stream(env, s) && HashesTx(env, s, tx)
    ensures s.ctx.p.tokens == tx.tokens && |tx.tokens| <= TX_MAX_TOKENS
  {
    hide Drain, Elements, StreamBytes, OutputsOf;
    var p := Start(|tx.tokens|, |tx.inputs|, |tx.outputs|);
    TransactionIsComplete(env, s.ctx.changes, tx);
    ReadyMeans(env, s.ctx.changes, p, s.ctx.hashed[5..]);
    ReceivedAll(p, tx);
    assert [] + tx.tokens == tx.tokens;
  }

  // ---- The screen ----

  /** What the texts in the three buffers say, whatever output is shown. */
  lemma LinesRead(env: Env, s: Session, index: string, address: string, amount: string, symbol: string)
    requires Device.ProperEnv(env) && Device.Shows(env, s, index, address, amount)
    requires |Shown(s).wire.pubkeyHash| == 20
    requires SymbolOf(s.ctx.p, Shown(s).wire.tokenData) == Some(symbol) && '\0' !in symbol
    ensures var o, changes := Shown(s), s.ctx.changes;
            && CountReads(Text(index), ShownIndex(changes, o.index), ShownTotal(changes, s.ctx.p.outputsLen))
            && AddressReads(env, Text(address), o.wire.pubkeyHash)
            && AmountReads(Text(amount), symbol, o.wire.value)
  {
    hide CountReads, AddressReads, AmountReads, IndexLine, AmountLine, Encode58, Address, ShownIndex, ShownTotal,
         HasText, SymbolOf;
    var o := Shown(s);
    var checksum: Checksum := env.checksum(o.wire.pubkeyHash).value;
    IndexReads(s.ctx.changes, s.ctx.p.outputsLen, o.index);
    TextOf(index, IndexLine(s.ctx.changes, s.ctx.p.outputsLen, o.index));
    AddressEncoded(env, o.wire.pubkeyHash, checksum);
    TextOf(address, Encode58(Address(env.version, o.wire.pubkeyHash, checksum)));
    AmountLineReads(symbol, o.wire.value);
    TextOf(amount, AmountLine(symbol, o.wire.value));
  }

  lemma NoNul(env: Env, hashed: seq<byte>, tokenData: nat, symbol: string)
    requires Device.ProperEnv(env) && NamesToken(env, hashed, tokenData, symbol)
    ensures '\0' !in symbol
  {
  }

  /** What the user is asked about.  Whenever an output of the queue is shown, it is the next decoded one
      that is to be confirmed, and the three texts say of it: the address is that of its hash on the device's
      network; the amount is its value in the token whose uid the bytes hashed have at the place it refers
      to; and its number, with proper change entries, is one more than the outputs approved so far, out of
      all that are not announced as change. */
  lemma ScreenTells(env: Env, s: Session, index: string, address: string, amount: string)
    requires Reached(env, s) && s.flow == ShowOutput && s.ctx.displayIndex <= s.ctx.queueLen
    requires Device.ProperEnv(env) && Device.Shows(env, s, index, address, amount)
    ensures s.ctx.confirmedOutputs < |s.log.decoded|
    ensures var o := s.log.decoded[s.ctx.confirmedOutputs].wire;
            && AddressReads(env, Text(address), o.pubkeyHash) && o.tokenData < 128
            && exists symbol ::
                 && NamesToken(env, s.ctx.hashed, o.tokenData, symbol)
                 && AmountReads(Text(amount), symbol, o.value)
    ensures EntriesProper(s.ctx.changes, s.ctx.p.outputsLen) ==>
              CountReads(Text(index), |s.log.approved| + 1, PlainBelow(s.ctx.changes, s.ctx.p.outputsLen))
  {
    hide Reached, Inv, Core, Agree, Asking, AskingPast, Stream, NamesToken, CountReads, AddressReads, AmountReads,
         Device.Shows, Device.ProperEnv, SymbolOf, ShownIndex, ShownTotal, PlainBelow, EntriesProper;
    ReachedKeeps(env, s);
    AskingOrPast(env, s);
    ReceivingAgrees(env, s);
    NextIndex(s);
    ShownIsNext(s);
    CoreStream(env, s);
    SymbolNamed(env, s, s.ctx.confirmedOutputs);
    var o := Shown(s);
    var symbol: string := SymbolOf(s.ctx.p, o.wire.tokenData).value;
    NoNul(env, s.ctx.hashed, o.wire.tokenData, symbol);
    LinesRead(env, s, index, address, amount, symbol);
    if EntriesProper(s.ctx.changes, s.ctx.p.outputsLen) {
      PrintedInOrder(env, s);
    }
  }

  /** The same of the device object between two events. */
  lemma DeviceTells(d: Device.Device)
    requires d.Sound() && d.flow == ShowOutput && d.displayIndex <= d.bufferOutputLen
    ensures var s := d.State();
            && s.ctx.confirmedOutputs < |s.log.decoded|
            && var o := s.log.decoded[s.ctx.confirmedOutputs].wire;
               && AddressReads(d.env, Text(d.address[..]), o.pubkeyHash) && o.tokenData < 128
               && (exists symbol ::
                     && NamesToken(d.env, s.ctx.hashed, o.tokenData, symbol)
                     && AmountReads(Text(d.amount[..]), symbol, o.value))
               && (EntriesProper(s.ctx.changes, s.ctx.p.outputsLen) ==>
                     CountReads(Text(d.outputIndex[..]), |s.log.approved| + 1,
                                PlainBelow(s.ctx.changes, s.ctx.p.outputsLen)))
  {
    hide Reached, NamesToken, AddressReads, AmountReads, CountReads, Device.Shows, Device.ProperEnv, EntriesProper,
         PlainBelow;
    ScreenTells(d.env, d.State(), d.outputIndex[..], d.address[..], d.amount[..]);
  }
}
