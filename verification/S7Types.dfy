/** Machine types, protocol constants and byte-order helpers shared by the S7 modules. */
module S7Types {

  type byte = b: int | 0 <= b < 0x100
  type word = w: int | 0 <= w < 0x1_0000
  type longword = x: int | 0 <= x < LONG
  type bytes = seq<byte>

  const LONG := 0x1_0000_0000

  datatype Option<+T> = None | Some(value: T)

  // Area codes of an S7 item
  const S7_AREA_PE: byte := 0x81
  const S7_AREA_PA: byte := 0x82
  const S7_AREA_MK: byte := 0x83
  const S7_AREA_DB: byte := 0x84
  const S7_AREA_CT: byte := 0x1C
  const S7_AREA_TM: byte := 0x1D

  // Word lengths
  const WL_BIT := 0x01
  const WL_BYTE := 0x02
  const WL_CHAR := 0x03
  const WL_WORD := 0x04
  const WL_INT := 0x05
  const WL_DWORD := 0x06
  const WL_DINT := 0x07
  const WL_REAL := 0x08
  const WL_COUNTER := 0x1C
  const WL_TIMER := 0x1D

  // Transport sizes of an item that carries data
  const TS_BIT: byte := 0x03
  const TS_BYTE: byte := 0x04
  const TS_INT: byte := 0x05
  const TS_REAL: byte := 0x07
  const TS_OCTET: byte := 0x09

  const MAX_VARS := 20

  // Item return codes
  const CODE_OK: byte := 0xFF
  const CODE_ADDRESS_OUT_OF_RANGE: byte := 0x05
  const CODE_INVALID_TRANSPORT_SIZE: byte := 0x06
  const CODE_WRITE_DATA_SIZE_MISMATCH: byte := 0x07
  const CODE_ITEM_NOT_AVAILABLE: byte := 0x0A
  const CODE_DATA_OVER_PDU: byte := 0x85  // low byte of the swapped 0x8500

  // Client results
  const ERR_CLI_INVALID_PARAMS := 0x0020_0000
  const ERR_CLI_TOO_MANY_ITEMS := 0x0040_0000
  const ERR_CLI_INVALID_WORD_LEN := 0x0050_0000
  const ERR_CLI_PARTIAL_DATA_WRITTEN := 0x0060_0000
  const ERR_CLI_SIZE_OVER_PDU := 0x0070_0000
  const ERR_CLI_INVALID_PLC_ANSWER := 0x0080_0000
  const ERR_CLI_ADDRESS_OUT_OF_RANGE := 0x0090_0000
  const ERR_CLI_INVALID_TRANSPORT_SIZE := 0x00A0_0000
  const ERR_CLI_WRITE_DATA_SIZE_MISMATCH := 0x00B0_0000
  const ERR_CLI_ITEM_NOT_AVAILABLE := 0x00C0_0000
  const ERR_CLI_INVALID_VALUE := 0x00D0_0000
  const ERR_CLI_FUN_NOT_AVAILABLE := 0x0140_0000
  const ERR_CLI_NEED_PASSWORD := 0x01D0_0000
  const ERR_CLI_INVALID_PASSWORD := 0x01E0_0000
  const ERR_CLI_NO_PASSWORD_TO_SET_OR_CLEAR := 0x01F0_0000
  const ERR_CLI_PARTIAL_DATA_READ := 0x0210_0000
  const ERR_CLI_FUNCTION_REFUSED := 0x0230_0000

  // ISO-on-TCP sizes: the packet check refuses a telegram whose total size exceeds the
  // payload buffer, so a payload is carried only up to ISO_CARRIED bytes.
  const ISO_PAYLOAD_SIZE := 4096
  const DATA_HEADER_SIZE := 7
  const ISO_CARRIED := ISO_PAYLOAD_SIZE - DATA_HEADER_SIZE
  const ERR_ISO_INVALID_PDU := 0x0003_0000
  const ERR_ISO_TOO_MANY_FRAGMENTS := 0x0007_0000
  const ERR_ISO_PDU_OVERFLOW := 0x0008_0000
  const ERR_ISO_INVALID_DATA_SIZE := 0x0004_0000
  const ERR_ISO_RECV_PACKET := 0x000A_0000

  const MIN_PDU_SIZE := 240

  /** Bytes of one element; the client and the server use the same table. */
  function DataSizeByte(wordLength: int): (size: nat)
    ensures size in {0, 1, 2, 4}
  {
    if wordLength in {WL_BIT, WL_BYTE, WL_CHAR} then 1
    else if wordLength in {WL_WORD, WL_INT, WL_COUNTER, WL_TIMER} then 2
    else if wordLength in {WL_DWORD, WL_DINT, WL_REAL} then 4
    else 0
  }

  /** Client view of an item return code or function error. */
  function CpuError(error: int): int {
    match error
    case 0 => 0
    case 0x0005 => ERR_CLI_ADDRESS_OUT_OF_RANGE
    case 0x0006 => ERR_CLI_INVALID_TRANSPORT_SIZE
    case 0x0007 => ERR_CLI_WRITE_DATA_SIZE_MISMATCH
    case 0x000A => ERR_CLI_ITEM_NOT_AVAILABLE
    case 0xD209 => ERR_CLI_ITEM_NOT_AVAILABLE
    case 0x8500 => ERR_CLI_SIZE_OVER_PDU
    case 0xDC01 => ERR_CLI_INVALID_VALUE
    case 0x8104 => ERR_CLI_FUN_NOT_AVAILABLE
    case 0xD241 => ERR_CLI_NEED_PASSWORD
    case 0xD602 => ERR_CLI_INVALID_PASSWORD
    case 0xD605 => ERR_CLI_NO_PASSWORD_TO_SET_OR_CLEAR
    case 0xD604 => ERR_CLI_NO_PASSWORD_TO_SET_OR_CLEAR
    case _ => ERR_CLI_FUNCTION_REFUSED
  }

  /** What the client reports for the codes a CPU answers, on numbers. */
  lemma CpuErrorOnNumbers(code: int)
    ensures CpuError(code) ==
            if code == 0 then 0 else if code == 0x0005 then 0x0090_0000 else if code == 0x0006 then 0x00A0_0000
            else if code == 0x0007 then 0x00B0_0000 else if code == 0x000A || code == 0xD209 then 0x00C0_0000
            else if code == 0x8500 then 0x0070_0000 else if code == 0xDC01 then 0x00D0_0000
            else if code == 0x8104 then 0x0140_0000 else if code == 0xD241 then 0x01D0_0000
            else if code == 0xD602 then 0x01E0_0000 else if code == 0xD605 || code == 0xD604 then 0x01F0_0000
            else 0x0230_0000
  {
  }

  /** A word as it travels: high byte first. */
  function Be16(w: word): (b: bytes)
    ensures |b| == 2
  {
    [w / 0x100, w % 0x100]
  }

  lemma Be16Value(x: word)
    ensures Be16(x)[0] as int * 0x100 + Be16(x)[1] == x
  {
  }

  /** `n` bytes of `b` from `from` on; bytes past the end read as 0. */
  function Window(b: bytes, from: nat, n: nat): (r: bytes)
    ensures |r| == n
    ensures from + n <= |b| ==> r == b[from..from + n]
  {
    seq(n, i requires 0 <= i < n => if from + i < |b| then b[from + i] else 0)
  }

  function ByteAt(b: bytes, i: nat): byte {
    if i < |b| then b[i] else 0
  }

  /** The big-endian word at `i`. */
  function WordAt(b: bytes, i: nat): word {
    ByteAt(b, i) * 0x100 + ByteAt(b, i + 1)
  }

  /** `s` with the bytes from `at` on replaced by `d`. */
  function Splice(s: bytes, at: nat, d: bytes): (r: bytes)
    requires at + |d| <= |s|
    ensures |r| == |s|
    ensures forall i :: 0 <= i < |s| ==> r[i] == if at <= i < at + |d| then d[i - at] else s[i]
  {
    s[..at] + d + s[at + |d|..]
  }

  /** `d` laid over `s` from `at` on, as far as `s` reaches. */
  function Overlay(s: bytes, at: nat, d: bytes): (r: bytes)
    ensures |r| == |s|
  {
    seq(|s|, i requires 0 <= i < |s| => if at <= i < at + |d| then d[i - at] else s[i])
  }

  /** Splicing adjacent pieces one after the other is splicing their concatenation. */
  lemma SpliceConcat(s: bytes, at: nat, d: bytes, e: bytes)
    requires at + |d| + |e| <= |s|
    ensures Splice(Splice(s, at, d), at + |d|, e) == Splice(s, at, d + e)
  {
  }
}
