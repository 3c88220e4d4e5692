/** Shared vocabulary of the marshalling core: bytes, C strings, ODBC return codes
    and the integer widths the driver computes in. */
module Common {

  /** An unsigned 8-bit value (C `uchar`, one element of a `SQLCHAR` buffer). */
  type Byte = x: int | 0 <= x < 256

  datatype Option<+T> = None | Some(value: T)

  /** The ODBC return codes produced by this core. `Error` stands for the
      diagnostic path (`set_handle_error` with an S1090 record). */
  datatype Status = Success | SuccessWithInfo | NoData | Error

  /** A length argument: either a byte count or `SQL_NTS` (scan to the terminator). */
  datatype SrcLength = Nts | Len(n: nat)

  /** The per-value read position of the chunked readers: `NotStarted` stands for
      the `~0` sentinel the driver stores before the first call. */
  datatype Cursor = NotStarted | Offset(n: nat)

  /** Where a read starts: 0 on the first call, otherwise the stored offset. */
  function Start(c: Cursor): nat
  {
    match c
    case NotStarted => 0
    case Offset(n) => n
  }

  const SpaceByte: Byte := 32
  const NulByte: Byte := 0
  const QuestionMark: nat := 63

  const UInt32Modulus: int := 0x1_0000_0000

  /** `strlen` over a byte buffer: the index of the first NUL, or the whole buffer
      when it holds none (the terminator then sits just past the end). */
  function StrLen(s: seq<Byte>): (n: nat)
    ensures n <= |s|
  {
    if |s| == 0 || s[0] == 0 then 0 else 1 + StrLen(s[1..])
  }

  /** `strlen` stops at the first NUL: none before it, and the NUL itself (if any). */
  lemma {:induction false} StrLenFirstNul(s: seq<Byte>)
    ensures forall i :: 0 <= i < StrLen(s) ==> s[i] != 0
    ensures StrLen(s) < |s| ==> s[StrLen(s)] == 0
  {
    if |s| != 0 && s[0] != 0 {
      StrLenFirstNul(s[1..]);
      forall i | 0 <= i < StrLen(s)
        ensures s[i] != 0
      {
        if i > 0 { assert s[i] == s[1..][i - 1]; }
      }
    }
  }

  /** The length the driver works with: an explicit length, or `strlen` for `SQL_NTS`. */
  function ResolveLength(src: seq<Byte>, len: SrcLength): nat
  {
    match len
    case Nts => StrLen(src)
    case Len(n) => n
  }

  /** `n` bytes of `value`, the shape `bfill` writes. */
  function Fill(n: nat, value: Byte): (r: seq<Byte>)
    ensures |r| == n
    ensures forall i :: 0 <= i < n ==> r[i] == value
  {
    if n == 0 then [] else Fill(n - 1, value) + [value]
  }

  /** C `isdigit` in the "C" locale. */
  predicate IsDigit(c: char)
  {
    '0' <= c <= '9'
  }

  /** The driver's `digit(c)` macro, `c - '0'`, for any character. */
  function Digit(c: char): int
  {
    c as int - '0' as int
  }

  /** C `toupper` on an `uchar` in the "C" locale: only the 26 ASCII lower-case
      letters change. */
  function ToUpper(b: Byte): (u: Byte)
    ensures 'a' as int <= b <= 'z' as int ==> u == b - 32
    ensures !('a' as int <= b <= 'z' as int) ==> u == b
  {
    if 'a' as int <= b <= 'z' as int then b - 32 else b
  }

  function Min(a: int, b: int): int
  {
    if a <= b then a else b
  }

  function Max(a: int, b: int): int
  {
    if a >= b then a else b
  }
}
