/** `copy_binary_result`: the chunked `SQLGetData` protocol for a binary value
    fetched as character data, each byte rendered as two upper-case hex digits. */
module HexReader {
  import opened Common

  /** The hex digit for a nibble: '0'..'9', then 'A'..'F' (`_dig_vec`). */
  function HexDigit(d: nat): (c: Byte)
    requires d < 16
    ensures d < 10 ==> c == 48 + d
    ensures d >= 10 ==> c == 65 + d - 10
  {
    if d < 10 then 48 + d else 55 + d
  }

  /** The nibble a hex digit stands for, for the digits `HexDigit` produces. */
  function DigitValue(c: Byte): int
  {
    if c < 65 then c - 48 else c - 55
  }

  /** The two digits of one byte: high nibble first. */
  function HexPair(b: Byte): (p: seq<Byte>)
    ensures |p| == 2
  {
    [HexDigit(b / 16), HexDigit(b % 16)]
  }

  /** The digits of a run of bytes, two per byte, in order. */
  function HexOf(bs: seq<Byte>): (h: seq<Byte>)
    ensures |h| == 2 * |bs|
  {
    if |bs| == 0 then [] else HexOf(bs[..|bs| - 1]) + HexPair(bs[|bs| - 1])
  }

  /** Reading hex digits back two at a time. */
  function UnHex(h: seq<Byte>): seq<Byte>
    decreases |h|
  {
    if |h| < 2 then []
    else
      var b := DigitValue(h[|h| - 2]) * 16 + DigitValue(h[|h| - 1]);
      UnHex(h[..|h| - 2]) + [if 0 <= b < 256 then b else 0]
  }

  /** Every byte comes back from its two digits. */
  lemma PairRoundTrip(b: Byte)
    ensures DigitValue(HexPair(b)[0]) * 16 + DigitValue(HexPair(b)[1]) == b
  {
  }

  /** Reading back digits with one more pair at the end gives one more byte. */
  lemma UnHexSnoc(h: seq<Byte>, b: Byte)
    ensures UnHex(h + HexPair(b)) == UnHex(h) + [b]
  {
    var g := h + HexPair(b);
    assert g[..|g| - 2] == h;
    assert g[|g| - 2] == HexPair(b)[0] && g[|g| - 1] == HexPair(b)[1];
    PairRoundTrip(b);
  }

  /** The digits of a run of bytes read back as those bytes, so no two values are
      rendered alike. */
  lemma {:induction false} HexRoundTrip(bs: seq<Byte>)
    ensures UnHex(HexOf(bs)) == bs
  {
    if |bs| != 0 {
      var init := bs[..|bs| - 1];
      HexRoundTrip(init);
      UnHexSnoc(HexOf(init), bs[|bs| - 1]);
      assert bs == init + [bs[|bs| - 1]];
    }
  }

  /** Digit by digit: position `2i` holds the high nibble of byte `i`, `2i + 1` the
      low one, and every digit is '0'..'9' or 'A'..'F'. */
  lemma {:induction false} HexOfDigits(bs: seq<Byte>, i: nat)
    requires i < |bs|
    ensures HexOf(bs)[2 * i] == HexDigit(bs[i] / 16) && HexOf(bs)[2 * i + 1] == HexDigit(bs[i] % 16)
  {
    if i < |bs| - 1 {
      HexOfDigits(bs[..|bs| - 1], i);
    }
  }

  /** A binary value read with `copy_binary_result`: the source bytes, their length,
      and `SQL_ATTR_MAX_LENGTH` (0 for no limit). */
  datatype HValue = HValue(src: seq<Byte>, srcLength: nat, maxLength: nat)

  predicate WellFormed(v: HValue)
  {
    v.srcLength <= |v.src|
  }

  /** The buffer length after the maximum length: at most `max_length + 1` bytes. */
  function HCap(v: HValue, cbValueMax: nat): nat
  {
    if v.maxLength != 0 then Min(cbValueMax, v.maxLength + 1) else cbValueMax
  }

  /** The source length after the maximum length: at most `(max_length + 1) / 2`
      bytes, the ones whose digits fit. */
  function HSrcLen(v: HValue): nat
  {
    if v.maxLength != 0 then Min(v.srcLength, (v.maxLength + 1) / 2) else v.srcLength
  }

  /** A later call at or past the source length, whatever the buffer. */
  predicate HExhausted(v: HValue, offset: Cursor)
  {
    offset.Offset? && offset.n >= HSrcLen(v)
  }

  /** The bytes one call renders: what is left of the source, and no more than fit
      as digit pairs in the buffer with its terminator. */
  function HLength(v: HValue, cbValueMax: nat, offset: Cursor): int
  {
    var cap := HCap(v, cbValueMax);
    Min(HSrcLen(v) - Start(offset), if cap != 0 then (cap - 1) / 2 else 0)
  }

  /** `*pcbValue` after one call: twice the bytes left before it (`None` when "no
      data" leaves it alone). */
  function HReported(v: HValue, offset: Cursor): Option<int>
  {
    if HExhausted(v, offset) then None else Some(2 * (HSrcLen(v) - Start(offset)))
  }

  /** The cursor after one call. */
  function HNext(v: HValue, cbValueMax: nat, offset: Cursor): Cursor
  {
    if HExhausted(v, offset) then offset else Offset(Start(offset) + HLength(v, cbValueMax, offset))
  }

  /** What one call writes to a buffer, when the caller passed one: the digits of
      the bytes served and a terminator (nothing for a zero-length buffer). */
  function HWritten(v: HValue, cbValueMax: nat, offset: Cursor): seq<Byte>
    requires WellFormed(v)
  {
    if HExhausted(v, offset) || cbValueMax == 0 then []
    else
      var start := Start(offset);
      HexOf(v.src[start..start + HLength(v, cbValueMax, offset)]) + [NulByte]
  }

  /** The status as the driver computes it, comparing the buffer length with the
      digits written in this call rather than the digits still wanted. */
  function HStatusAsWritten(v: HValue, cbValueMax: nat, offset: Cursor): Status
  {
    if HExhausted(v, offset) then NoData
    else if cbValueMax > 2 * HLength(v, cbValueMax, offset) then Success
    else SuccessWithInfo
  }

  /** The status with truncation reported: success only when the call renders
      everything that was left. */
  function HStatus(v: HValue, cbValueMax: nat, offset: Cursor): Status
  {
    if HExhausted(v, offset) then NoData
    else if cbValueMax != 0 && HLength(v, cbValueMax, offset) == HSrcLen(v) - Start(offset) then Success
    else SuccessWithInfo
  }

  /** "No data" exactly when a later call's offset has reached the source length,
      even for a zero-length buffer; a first call starts at 0. */
  lemma HexNoDataRule(v: HValue, cbValueMax: nat, offset: Cursor)
    ensures HStatus(v, cbValueMax, offset) == NoData <==> offset.Offset? && offset.n >= HSrcLen(v)
    ensures HStatus(v, cbValueMax, offset) == NoData ==>
      HNext(v, cbValueMax, offset) == offset && HReported(v, offset).None?
    ensures offset.NotStarted? ==> Start(offset) == 0 && HStatus(v, cbValueMax, offset) != NoData
  {
  }

  /** A call that serves data moves the offset by the bytes rendered, which are the
      smaller of what is left and what fits as digit pairs before the terminator;
      it writes their digits and a terminator, within the buffer, and reports twice
      the bytes that were left. */
  lemma HexServedRule(v: HValue, cbValueMax: nat, offset: Cursor)
    requires WellFormed(v) && !HExhausted(v, offset)
    ensures var n := HLength(v, cbValueMax, offset);
      var start := Start(offset);
      && 0 <= n <= HSrcLen(v) - start
      && (n == HSrcLen(v) - start || 2 * n + 1 == HCap(v, cbValueMax) || 2 * n + 2 == HCap(v, cbValueMax)
          || HCap(v, cbValueMax) == 0)
      && HNext(v, cbValueMax, offset) == Offset(start + n)
      && HReported(v, offset) == Some(2 * (HSrcLen(v) - start))
      && |HWritten(v, cbValueMax, offset)| <= cbValueMax
      && (cbValueMax != 0 ==> HWritten(v, cbValueMax, offset) == HexOf(v.src[start..start + n]) + [NulByte])
  {
  }

  /** The driver's status never reports truncation for a non-empty buffer: the
      digits written in one call always leave room for the terminator. */
  lemma AsWrittenNeverWarns(v: HValue, cbValueMax: nat, offset: Cursor)
    requires cbValueMax != 0 && !HExhausted(v, offset)
    ensures HStatusAsWritten(v, cbValueMax, offset) == Success
  {
  }

  /** For 0xAB 0xCD in a buffer of three bytes the driver writes only "AB" and its
      terminator, yet returns plain success. */
  lemma AsWrittenHidesTruncation()
    ensures var v := HValue([0xAB, 0xCD], 2, 0);
      && HWritten(v, 3, NotStarted) == [65, 66, 0]
      && HStatusAsWritten(v, 3, NotStarted) == Success
      && HStatus(v, 3, NotStarted) == SuccessWithInfo
  {
    var v := HValue([0xAB, 0xCD], 2, 0);
    assert v.src[0..1] == [0xAB];
    assert HexOf([0xAB]) == HexOf([]) + HexPair(0xAB);
  }

  /** The corrected status is success exactly when, after this call, nothing of the
      value is left to read; without a maximum length that is the comparison the
      driver meant, a buffer longer than twice the bytes left. */
  lemma StatusMeansComplete(v: HValue, cbValueMax: nat, offset: Cursor)
    requires cbValueMax != 0 && !HExhausted(v, offset)
    ensures HNext(v, cbValueMax, offset).Offset?
    ensures HStatus(v, cbValueMax, offset) == Success <==> HNext(v, cbValueMax, offset).n == HSrcLen(v)
    ensures HStatus(v, cbValueMax, offset) == SuccessWithInfo <==> HNext(v, cbValueMax, offset).n < HSrcLen(v)
    ensures v.maxLength == 0 ==>
      (HStatus(v, cbValueMax, offset) == Success <==> cbValueMax > 2 * (HSrcLen(v) - Start(offset)))
  {
  }

  /** Two bytes in a buffer of five: (5 - 1) / 2 = 2 bytes fit, so all four digits
      and the terminator are written and the call succeeds; the next call finds no
      data. */
  lemma TwoBytesInFive()
    ensures var v := HValue([0xAB, 0xCD], 2, 0);
      && HWritten(v, 5, NotStarted) == [65, 66, 67, 68, 0]
      && HStatus(v, 5, NotStarted) == Success
      && HReported(v, NotStarted) == Some(4)
      && HNext(v, 5, NotStarted) == Offset(2)
      && HStatus(v, 3, HNext(v, 5, NotStarted)) == NoData
  {
    var v := HValue([0xAB, 0xCD], 2, 0);
    assert v.src[0..2] == [0xAB, 0xCD];
    assert [0xAB, 0xCD][..1] == [0xAB];
    assert HexOf([0xAB, 0xCD]) == HexOf([0xAB]) + HexPair(0xCD);
    assert HexOf([0xAB]) == HexOf([]) + HexPair(0xAB);
  }

  /** The hex loop of `copy_binary_result`: two digits per byte, then the terminator. */
  method WriteHex(dst: array<Byte>, bytes: seq<Byte>)
    requires 2 * |bytes| + 1 <= dst.Length
    modifies dst
    ensures dst[..2 * |bytes| + 1] == HexOf(bytes) + [NulByte]
    ensures dst[2 * |bytes| + 1..] == old(dst[2 * |bytes| + 1..])
  {
    var i := 0;
    while i < |bytes|
      invariant 0 <= i <= |bytes|
      invariant dst[..2 * i] == HexOf(bytes[..i])
      invariant forall p :: 2 * i <= p < dst.Length ==> dst[p] == old(dst[p])
    {
      dst[2 * i] := HexDigit(bytes[i] / 16);
      dst[2 * i + 1] := HexDigit(bytes[i] % 16);
      assert bytes[..i + 1][..i] == bytes[..i];
      assert dst[..2 * (i + 1)] == dst[..2 * i] + HexPair(bytes[i]);
      i := i + 1;
    }
    dst[2 * i] := NulByte;
    assert bytes[..i] == bytes;
    assert dst[..2 * i + 1] == dst[..2 * i] + [NulByte];
    assert dst[2 * i + 1..] == old(dst[2 * i + 1..]);
  }

  /** The writing half of one call that serves data: the digits of the bytes
      served and the terminator, at the front of the buffer. */
  method ServeHex(dst: array<Byte>, v: HValue, cbValueMax: nat, offset: Cursor)
    requires WellFormed(v) && !HExhausted(v, offset) && cbValueMax != 0
    requires dst.Length >= cbValueMax
    modifies dst
    ensures var w := HWritten(v, cbValueMax, offset);
      |w| <= dst.Length && dst[..|w|] == w && dst[|w|..] == old(dst[|w|..])
  {
    HexServedRule(v, cbValueMax, offset);
    var start := Start(offset);
    WriteHex(dst, v.src[start..start + HLength(v, cbValueMax, offset)]);
  }

  /** `copy_binary_result` with truncation reported: the driver's code, writing the
      caller's buffer in place. */
  method CopyBinaryResult(dst: array?<Byte>, cbValueMax: nat, src: seq<Byte>, srcLength: nat,
                          maxLength: nat, offset: Cursor)
    returns (status: Status, reported: Option<int>, offset': Cursor)
    requires srcLength <= |src|
    requires dst != null ==> dst.Length >= cbValueMax
    modifies dst
    ensures var v := HValue(src, srcLength, maxLength);
      && status == HStatus(v, cbValueMax, offset) && reported == HReported(v, offset)
      && offset' == HNext(v, cbValueMax, offset)
    ensures dst != null ==>
      var w := HWritten(HValue(src, srcLength, maxLength), cbValueMax, offset);
      |w| <= dst.Length && dst[..|w|] == w && dst[|w|..] == old(dst[|w|..])
  {
    var v := HValue(src, srcLength, maxLength);
    var cap := cbValueMax;
    var srcLen := srcLength;
    if maxLength != 0 {
      cap := Min(cap, maxLength + 1);
      srcLen := Min(srcLen, (maxLength + 1) / 2);
    }
    var start: nat;
    if offset.NotStarted? {
      start := 0;  // first call
    } else if offset.n >= srcLen {
      return NoData, None, offset;
    } else {
      start := offset.n;
    }
    var remSrc := srcLen - start;
    var length := if cap != 0 then (cap - 1) / 2 else 0;
    length := Min(remSrc, length);
    assert remSrc == HSrcLen(v) - Start(offset) && length == HLength(v, cbValueMax, offset);
    offset' := Offset(start + length);
    reported := Some(remSrc * 2);
    if dst != null && cbValueMax != 0 {
      ServeHex(dst, v, cbValueMax, offset);
    }
    status := if cbValueMax != 0 && length == remSrc then Success else SuccessWithInfo;
  }
}
