/** What the screen says about an output: its number among the outputs shown, its address, its
    amount (src/ui/display.c, prepare_display_output). */
module Screens {
  import opened Common
  import opened Positional
  import opened Format
  import opened Base58
  import opened ChangeInfo

  const G_OUTPUT_INDEX_SIZE: nat := 10
  const G_AMOUNT_SIZE: nat := 30

  // ---- Amounts ----

  /** Symbol, blank, amount and terminator fit the buffer; the source relies on it unchecked. */
  predicate AmountFits(symbol: string, value: nat) {
    |symbol| + 1 + |AmountText(value)| + 1 <= G_AMOUNT_SIZE
  }

  /** A value fits exactly below a power of ten that depends on the symbol: every value the parser
      can produce behind up to three characters, less behind four or five. */
  lemma AmountFitsExactly(symbol: string, value: nat)
    requires |symbol| <= MAX_TOKEN_SYMBOL_LEN && value <= 0x8000_0000_0000_0000
    ensures AmountFits(symbol, value) <==>
            |symbol| <= 3 || (|symbol| == 4 && value < 1_000_000_000_000_000_000)
            || (|symbol| == 5 && value < 100_000_000_000_000_000)
  {
    var n := value / 100;
    AmountLength(value);
    PowersOfTen();
    NumeralLength(n, 10, 17);
    NumeralLength(n, 10, 16);
    NumeralLength(n, 10, 15);
  }

  lemma PowersOfTen()
    ensures Pow(10, 15) == 1_000_000_000_000_000 && Pow(10, 16) == 10_000_000_000_000_000
    ensures Pow(10, 17) == 100_000_000_000_000_000
  {
    PowAdd(10, 8, 7);
    PowAdd(10, 8, 8);
    PowAdd(10, 8, 9);
  }

  function AmountLine(symbol: string, value: nat): string {
    symbol + " " + AmountText(value)
  }

  method FillAmount(symbol: string, value: nat, amount: array<char>)
    requires amount.Length == G_AMOUNT_SIZE && AmountFits(symbol, value) && value < 0x1_0000_0000_0000_0000
    modifies amount
    ensures HasText(amount[..], 0, AmountLine(symbol, value))
  {
    hide AmountText;
    var n := |symbol|;
    forall i | 0 <= i < n {
      amount[i] := symbol[i];
    }
    amount[n] := ' ';
    ghost var before := amount[..];
    FormatValue(value, amount, n + 1);
    AmountPlaced(before, amount[..], symbol, AmountText(value));
  }

  lemma AmountPlaced(b: string, c: string, symbol: string, text: string)
    requires |symbol| + 1 + |text| < |b| && b[..|symbol| + 1] == symbol + " "
    requires HasText(c, |symbol| + 1, text) && SameOutside(b, c, |symbol| + 1, |symbol| + 1 + |text| + 1)
    ensures HasText(c, 0, symbol + " " + text)
  {
    assert c[..|symbol| + 1] == b[..|symbol| + 1];
    assert c[0..|symbol| + 1 + |text|] == c[..|symbol| + 1] + c[|symbol| + 1..|symbol| + 1 + |text|];
  }

  // ---- Numbering ----

  /** How many change entries have an index below `n`. */
  function EntriesBelow(changes: seq<Change>, n: nat): nat {
    if changes == [] then 0
    else EntriesBelow(changes[1..], n) + if changes[0].index < n then 1 else 0
  }

  /** The number printed for output `i`, in one byte. */
  function ShownIndex(changes: seq<Change>, i: nat): nat {
    ((i + 1) as int - EntriesBelow(changes, i)) % 256
  }

  /** The total printed, in one byte. */
  function ShownTotal(changes: seq<Change>, outputsLen: nat): nat {
    (outputsLen as int - |changes|) % 256
  }

  function IndexLine(changes: seq<Change>, outputsLen: nat, i: nat): string {
    Numeral(ShownIndex(changes, i), 10) + "/" + Numeral(ShownTotal(changes, outputsLen), 10)
  }

  /** How many entries announce output `i`. */
  function Announced(changes: seq<Change>, i: nat): nat {
    if changes == [] then 0
    else Announced(changes[1..], i) + if changes[0].index == i then 1 else 0
  }

  /** How many of the first `n` outputs are not announced as change. */
  function PlainBelow(changes: seq<Change>, n: nat): (r: nat)
    ensures r <= n
  {
    if n == 0 then 0 else PlainBelow(changes, n - 1) + if Announced(changes, n - 1) == 0 then 1 else 0
  }

  ghost predicate DistinctBelow(changes: seq<Change>, n: nat) {
    forall i: nat :: i < n ==> Announced(changes, i) <= 1
  }

  lemma {:induction false} EntriesStep(changes: seq<Change>, n: nat)
    ensures EntriesBelow(changes, n + 1) == EntriesBelow(changes, n) + Announced(changes, n)
    ensures EntriesBelow(changes, n) <= |changes| && EntriesBelow(changes, 0) == 0
  {
    if changes != [] {
      EntriesStep(changes[1..], n);
    }
  }

  /** Change and other outputs together; duplicates are counted too often. */
  lemma {:induction false} PlainAndEntries(changes: seq<Change>, n: nat)
    ensures PlainBelow(changes, n) + EntriesBelow(changes, n) >= n
    ensures PlainBelow(changes, n) + EntriesBelow(changes, n) == n <==> DistinctBelow(changes, n)
  {
    EntriesStep(changes, 0);
    if n > 0 {
      PlainAndEntries(changes, n - 1);
      EntriesStep(changes, n - 1);
    }
  }

  /** With distinct change entries the number printed for an output that is not change is its rank
      among these, so successive ones print 1, 2, 3 and so on. */
  lemma IndexIsRank(changes: seq<Change>, i: nat)
    requires DistinctBelow(changes, i) && i < 255 && Announced(changes, i) == 0
    ensures ShownIndex(changes, i) == PlainBelow(changes, i) + 1 == PlainBelow(changes, i + 1)
  {
    PlainAndEntries(changes, i);
  }

  /** The total printed is the number of outputs that are not change exactly when the change
      entries are distinct and all refer to existing outputs. */
  lemma TotalExactly(changes: seq<Change>, outputsLen: nat)
    requires |changes| <= MAX_CHANGES && outputsLen < 256
    ensures ShownTotal(changes, outputsLen) == PlainBelow(changes, outputsLen) <==>
            DistinctBelow(changes, outputsLen) && EntriesBelow(changes, outputsLen) == |changes|
  {
    PlainAndEntries(changes, outputsLen);
    EntriesStep(changes, outputsLen);
  }

  /** The count printed first: one less for each change entry before the output. */
  method CountDown(changes: seq<Change>, i: nat) returns (fake: nat)
    requires i < 255
    ensures fake == ShownIndex(changes, i)
  {
    fake := i + 1;
    assert changes[0..] == changes;
    for k := 0 to |changes|
      invariant fake < 256 && (fake as int - EntriesBelow(changes[k..], i)) % 256 == ShownIndex(changes, i)
    {
      assert changes[k..][1..] == changes[k + 1..];
      if i > changes[k].index {
        fake := (fake + 255) % 256;
      }
    }
  }

  method FillIndex(changes: seq<Change>, outputsLen: nat, i: nat, text: array<char>)
    requires text.Length == G_OUTPUT_INDEX_SIZE && outputsLen < 256 && i < 255
    modifies text
    ensures HasText(text[..], 0, IndexLine(changes, outputsLen, i))
  {
    hide Numeral, EntriesBelow;
    var total, fake: nat := outputsLen, i + 1;
    if |changes| != 0 {
      total := (total as int - |changes|) % 256;
      fake := CountDown(changes, i);
    } else {
      EntriesStep(changes, i);
    }
    WriteIndex(fake, total, text);
  }

  /** Two numbers of one byte, separated by a slash. */
  method WriteIndex(fake: nat, total: nat, text: array<char>)
    requires text.Length == G_OUTPUT_INDEX_SIZE && fake < 256 && total < 256
    modifies text
    ensures HasText(text[..], 0, Numeral(fake, 10) + "/" + Numeral(total, 10))
  {
    hide Numeral, SignedNumeral, HasText;
    ByteNumeral(fake);
    ByteNumeral(total);
    NumeralNotNul(fake);
    Itoa(fake, text, 0, 10);
    ghost var first := text[..];
    var len := TextLength(text, Numeral(fake, 10));
    text[len] := '/';
    assert text[..] == first[len := '/'];
    Itoa(total, text, len + 1, 10);
    IndexPlaced(first, text[..], Numeral(fake, 10), Numeral(total, 10));
  }

  lemma ByteNumeral(v: nat)
    requires v < 256
    ensures SignedNumeral(v, 10) == Numeral(v, 10) && |Numeral(v, 10)| <= 3
  {
    NumeralLength(v, 10, 3);
  }

  lemma IndexPlaced(a: string, c: string, x: string, y: string)
    requires HasText(a, 0, x) && |x| + 1 + |y| < |a|
    requires HasText(c, |x| + 1, y) && SameOutside(a[|x| := '/'], c, |x| + 1, |x| + 1 + |y| + 1)
    ensures HasText(c, 0, x + "/" + y)
  {
    assert c[..|x| + 1] == a[|x| := '/'][..|x| + 1] == x + "/";
    assert c[0..|x| + 1 + |y|] == c[..|x| + 1] + c[|x| + 1..|x| + 1 + |y|];
  }

  // ---- Addresses ----

  /** Version byte, hash of the public key, and checksum. */
  function Address(version: byte, hash: seq<byte>, checksum: Checksum): seq<byte> {
    [version] + hash + checksum
  }

  predicate IsVersion(version: byte) {
    version == P2PKH_MAINNET || version == P2PKH_TESTNET
  }

  /** Both buffers are zeroed first, and the text is always shorter, so it ends in a terminator. */
  method FillAddress(version: byte, hash: seq<byte>, checksum: Checksum, text: array<char>)
    requires text.Length == B58_ADDRESS_LEN && |hash| == PUBKEY_HASH_LEN && IsVersion(version)
    modifies text
    ensures HasText(text[..], 0, Encode58(Address(version, hash, checksum)))
    ensures |Encode58(Address(version, hash, checksum))| == B58_ADDRESS_LEN - 1
    ensures AllBase58(text[..34]) && Decode58(text[..34]) == [version] + hash + checksum
  {
    hide Encode58, Decode58, AllBase58;
    ghost var a := Address(version, hash, checksum);
    DecodeEncode(a);
    var b58address := new char[B58_ADDRESS_LEN](_ => '\0');
    var address := new byte[ADDRESS_LEN](i requires 0 <= i < ADDRESS_LEN => Address(version, hash, checksum)[i]);
    assert address[..ADDRESS_LEN] == a;
    AddressLength(a);
    EncodedCases(a);
    var r := Base58Encode(address, ADDRESS_LEN, b58address, B58_ADDRESS_LEN);
    forall i | 0 <= i < B58_ADDRESS_LEN {
      text[i] := b58address[i];
    }
    assert text[..] == b58address[..];
  }
}
