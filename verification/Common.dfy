/** Types and constants shared by every component. */
module Common {
  type byte = b: nat | b < 256

  datatype Option<+T> = None | Some(value: T)

  /** The result of a function that may leave by throwing a code. */
  datatype Outcome<+T> = Returned(value: T) | Thrown(code: nat)

  // Exception codes of the transaction decoder
  const TX_STATE_ERR: nat := 1
  const TX_STATE_READY: nat := 2

  // Status words
  const SW_OK: nat := 0x9000
  const SW_DENY: nat := 0x6985
  const SW_WRONG_DATA_LENGTH: nat := 0x6A87
  const SW_TX_PARSING_FAIL: nat := 0xB005
  const SW_BAD_STATE: nat := 0xB007
  const SW_SIGNATURE_FAIL: nat := 0xB008
  const SW_INVALID_TX: nat := 0xB009
  const SW_INTERNAL_ERROR: nat := 0xB00B

  // Sizes
  const TOKEN_UID_LEN: nat := 32
  const TX_INPUT_LEN: nat := 35
  const PUBKEY_HASH_LEN: nat := 20
  const ADDRESS_LEN: nat := 25
  const B58_ADDRESS_LEN: nat := 35
  const TX_MAX_TOKENS: nat := 10
  const MAX_BIP32_PATH: nat := 5
  const MAX_TOKEN_SYMBOL_LEN: nat := 5

  // Version bytes of pay-to-pubkey-hash addresses
  const P2PKH_MAINNET: byte := 0x28
  const P2PKH_TESTNET: byte := 0x49

  /** The last four bytes of an address. */
  type Checksum = s: seq<byte> | |s| == 4 witness [0, 0, 0, 0]

  // ---- C arithmetic ----

  /** The two's complement reading of a 32-bit size. */
  function CInt(n: nat): int {
    if n % 0x1_0000_0000 < 0x8000_0000 then n % 0x1_0000_0000 else n % 0x1_0000_0000 - 0x1_0000_0000
  }

  /** Division of signed integers truncates toward zero. */
  function CDiv(a: int, b: nat): int
    requires b > 0
  {
    if a >= 0 then a / b else -((-a) / b)
  }

  /** The remainder has the sign of the dividend. */
  function CMod(a: int, b: nat): int
    requires b > 0
  {
    if a >= 0 then a % b else -((-a) % b)
  }
}
