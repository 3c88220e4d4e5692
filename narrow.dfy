/** `copy_lresult` and `copy_str_data`: handing a character or binary value to the
    caller's buffer, the former in chunks across several calls (the `SQLGetData`
    protocol), the latter in one call with a truncation warning. */
module NarrowReader {
  import opened Common

  /** A value being read with `copy_lresult`, with what the call site knows about
      it: the source bytes and their length (`SQL_NTS` for "up to the NUL"),
      `SQL_ATTR_MAX_LENGTH` (0 for no limit), the display length to pad up to, whether
      the connection pads with spaces (`FLAG_PAD_SPACE` on a live handle), and
      whether the value is binary (no room kept for a terminator). */
  datatype LValue = LValue(src: seq<Byte>, srcLength: SrcLength, maxLength: nat,
                           fillLength: nat, padSpace: bool, binary: bool)

  /** The source really holds the bytes its length claims. */
  predicate WellFormed(v: LValue)
  {
    v.srcLength.Len? ==> v.srcLength.n <= |v.src|
  }

  /** `set_if_smaller(n, max_length)` when a maximum length is set. */
  function Clamp(n: int, maxLength: nat): int
  {
    if maxLength != 0 then Min(n, maxLength) else n
  }

  /** The source length after `SQL_NTS` and the maximum length are applied. */
  function SrcLen(v: LValue): nat
  {
    var n := Clamp(ResolveLength(v.src, v.srcLength), v.maxLength);
    if n < 0 then 0 else n
  }

  /** The length the value is reported with: the display length only when padding
      is on and it is not shorter than the source, otherwise the source length. */
  function FillLen(v: LValue): (f: nat)
    ensures SrcLen(v) <= f
    ensures !v.padSpace ==> f == SrcLen(v)
  {
    var f := Clamp(v.fillLength, v.maxLength);
    if f < SrcLen(v) || !v.padSpace then SrcLen(v) else f
  }

  /** The room for data in a buffer of `cbValueMax` bytes: one byte is kept for the
      terminator of character data, and the maximum length caps it. */
  function Room(v: LValue, cbValueMax: nat): (r: nat)
    ensures r <= cbValueMax
    ensures cbValueMax != 0 && !v.binary ==> r < cbValueMax
  {
    var c := if cbValueMax != 0 && !v.binary then cbValueMax - 1 else cbValueMax;
    if v.maxLength != 0 then Min(c, v.maxLength) else c
  }

  /** The whole value as the caller sees it: the source bytes, then spaces up to the
      fill length. */
  function Padded(v: LValue): (p: seq<Byte>)
    requires WellFormed(v)
    ensures |p| == FillLen(v)
    ensures p[..SrcLen(v)] == v.src[..SrcLen(v)]
  {
    v.src[..SrcLen(v)] + Fill(FillLen(v) - SrcLen(v), SpaceByte)
  }

  /** What one call returns: the status, the value stored in `*pcbValue` (`None`
      when it is left alone), the cursor afterwards, and the bytes written to the
      front of the caller's buffer (when the caller passed one). */
  datatype LRead = LRead(status: Status, reported: Option<int>, offset: Cursor, written: seq<Byte>)

  /** The call finds nothing left: a later call, with a buffer, at or past the fill length. */
  predicate Exhausted(v: LValue, cbValueMax: nat, offset: Cursor)
  {
    offset.Offset? && cbValueMax != 0 && offset.n >= FillLen(v)
  }

  /** How many bytes of the value one call serves (negative only for a zero-length
      buffer whose offset lies past the end). */
  function Served(v: LValue, cbValueMax: nat, offset: Cursor): int
  {
    Min(FillLen(v) - Start(offset), Room(v, cbValueMax))
  }

  /** The bytes a call writes: `length` bytes of the value from `start` (source
      bytes, then spaces where the source has run out), and a NUL if asked for. */
  function ChunkBytes(v: LValue, start: nat, length: nat, withNul: bool): (w: seq<Byte>)
    requires WellFormed(v) && start + length <= FillLen(v)
    ensures |w| == length + (if withNul then 1 else 0)
  {
    var remSrc := SrcLen(v) - start;
    var copy := if remSrc >= length then length else Max(remSrc, 0);
    (if copy == 0 then [] else v.src[start..start + copy]) + Fill(length - copy, SpaceByte)
      + (if withNul then [NulByte] else [])
  }

  /** The bytes a call writes are the next piece of the padded value. */
  lemma ChunkBytesPadded(v: LValue, start: nat, length: nat, withNul: bool)
    requires WellFormed(v) && start + length <= FillLen(v)
    ensures ChunkBytes(v, start, length, withNul)[..length] == Padded(v)[start..start + length]
    ensures withNul ==> ChunkBytes(v, start, length, withNul)[length] == NulByte
  {
    var w := ChunkBytes(v, start, length, withNul);
    var remSrc := SrcLen(v) - start;
    var copy := if remSrc >= length then length else Max(remSrc, 0);
    var data := if copy == 0 then [] else v.src[start..start + copy];
    forall i | 0 <= i < length
      ensures w[i] == Padded(v)[start + i]
    {
      if i < copy {
        assert w[i] == data[i];
      } else {
        assert w[i] == Fill(length - copy, SpaceByte)[i - copy];
      }
    }
  }

  /** `copy_lresult` as a function of the value, the buffer length and the cursor. */
  function LResult(v: LValue, cbValueMax: nat, offset: Cursor): (r: LRead)
    requires WellFormed(v)
    ensures |r.written| <= cbValueMax
    ensures r.status == NoData <==> Exhausted(v, cbValueMax, offset)
    ensures r.status == NoData ==> r.reported.None? && r.written == [] && r.offset == offset
    ensures r.status != NoData ==> r.reported == Some(FillLen(v) - Start(offset))
    ensures cbValueMax == 0 ==> r.written == []
  {
    if Exhausted(v, cbValueMax, offset) then LRead(NoData, None, offset, [])
    else
      var start := Start(offset);
      var remFill := FillLen(v) - start;
      var cap := Room(v, cbValueMax);
      var length := Served(v, cbValueMax, offset);
      var status := if cbValueMax != 0 && cap >= remFill then Success else SuccessWithInfo;
      var written := if cbValueMax == 0 then [] else ChunkBytes(v, start, length, !v.binary || length != cap);
      LRead(status, Some(remFill), Offset(start + length), written)
  }

  /** A first call restarts at offset 0 and is never "no data"; a later call with a
      buffer is "no data" exactly when its offset has reached the fill length, and
      then changes nothing. */
  lemma NoDataRule(v: LValue, cbValueMax: nat, offset: Cursor)
    requires WellFormed(v)
    ensures offset.NotStarted? ==> LResult(v, cbValueMax, offset).status != NoData
    ensures offset.Offset? && cbValueMax != 0 ==>
      (LResult(v, cbValueMax, offset).status == NoData <==> offset.n >= FillLen(v))
    ensures LResult(v, cbValueMax, offset).status == NoData ==> LResult(v, cbValueMax, offset).offset == offset
  {
  }

  /** A call that serves data moves the offset by exactly the bytes served, which are
      the smaller of what is left of the fill length and the room in the buffer;
      `*pcbValue` is what was left before the call; and the call succeeds outright
      exactly when the buffer is non-empty and its room holds all of what was left. */
  lemma ServedRule(v: LValue, cbValueMax: nat, offset: Cursor)
    requires WellFormed(v) && !Exhausted(v, cbValueMax, offset)
    ensures var r := LResult(v, cbValueMax, offset);
      var left := FillLen(v) - Start(offset);
      && r.offset == Offset(Start(offset) + Served(v, cbValueMax, offset))
      && (cbValueMax != 0 ==> 0 <= Served(v, cbValueMax, offset) <= left)
      && (cbValueMax != 0 ==> Served(v, cbValueMax, offset) == left || Served(v, cbValueMax, offset) == Room(v, cbValueMax))
      && r.reported == Some(left)
      && (r.status == Success <==> cbValueMax != 0 && Room(v, cbValueMax) >= left)
      && (r.status == SuccessWithInfo <==> cbValueMax == 0 || Room(v, cbValueMax) < left)
  {
  }

  /** A zero-length buffer receives nothing, the call reports a warning, and the
      offset stays where it was unless it already lay past the fill length. */
  lemma ZeroLengthBuffer(v: LValue, offset: Cursor)
    requires WellFormed(v)
    ensures var r := LResult(v, 0, offset);
      && r.written == [] && r.status == SuccessWithInfo
      && (Start(offset) <= FillLen(v) ==> r.offset == Offset(Start(offset)))
      && (Start(offset) > FillLen(v) ==> r.offset == Offset(FillLen(v)))
  {
  }

  /** The bytes one call writes are the next piece of the padded value, followed by
      a NUL unless binary data filled the whole room. */
  lemma ChunkContents(v: LValue, cbValueMax: nat, offset: Cursor)
    requires WellFormed(v) && cbValueMax != 0 && !Exhausted(v, cbValueMax, offset)
    ensures var r := LResult(v, cbValueMax, offset);
      var n := Served(v, cbValueMax, offset);
      && 0 <= n && Start(offset) + n <= FillLen(v)
      && |r.written| == n + (if !v.binary || n != Room(v, cbValueMax) then 1 else 0)
      && r.written[..n] == Padded(v)[Start(offset)..Start(offset) + n]
      && (|r.written| == n + 1 ==> r.written[n] == NulByte)
  {
    var n := Served(v, cbValueMax, offset);
    ChunkBytesPadded(v, Start(offset), n, !v.binary || n != Room(v, cbValueMax));
  }

  /** With room for at least one byte, every call that serves data moves the offset
      strictly forward and never past the fill length, so calling again and again
      reaches "no data"; the next call picks up exactly where this one stopped. */
  lemma Progress(v: LValue, cbValueMax: nat, offset: Cursor)
    requires WellFormed(v) && Room(v, cbValueMax) >= 1 && !Exhausted(v, cbValueMax, offset)
    requires Start(offset) < FillLen(v)
    ensures var r := LResult(v, cbValueMax, offset);
      && r.offset.Offset?
      && Start(offset) < r.offset.n <= FillLen(v)
      && r.written[..r.offset.n - Start(offset)] == Padded(v)[Start(offset)..r.offset.n]
  {
    ChunkContents(v, cbValueMax, offset);
  }

  /** What successive calls with buffers of `caps[0]`, `caps[1]`, ... bytes deliver,
      starting at `offset`: the data bytes of each call (its terminator dropped), one
      after the other, up to the first "no data", and the cursor left behind. */
  function Drain(v: LValue, caps: seq<nat>, offset: Cursor): (d: (seq<Byte>, Cursor))
    requires WellFormed(v)
    requires forall i :: 0 <= i < |caps| ==> caps[i] != 0
    decreases |caps|
  {
    if |caps| == 0 then ([], offset)
    else
      var r := LResult(v, caps[0], offset);
      if r.status == NoData then ([], offset)
      else
        ChunkContents(v, caps[0], offset);
        var n := Served(v, caps[0], offset);
        var rest := Drain(v, caps[1..], r.offset);
        (r.written[..n] + rest.0, rest.1)
  }

  /** One call of a drain: it serves the next piece of the padded value, up to `k`,
      at least one byte of it while any is left, and the drain goes on from `k`. */
  lemma DrainStep(v: LValue, caps: seq<nat>, offset: Cursor) returns (k: nat)
    requires WellFormed(v) && |caps| > 0 && caps[0] >= 2
    requires forall i :: 0 <= i < |caps| ==> caps[i] != 0
    requires offset.NotStarted? || offset.n < FillLen(v)
    ensures Start(offset) <= k <= FillLen(v)
    ensures Start(offset) < FillLen(v) ==> Start(offset) < k
    ensures Drain(v, caps, offset).0 == Padded(v)[Start(offset)..k] + Drain(v, caps[1..], Offset(k)).0
    ensures Drain(v, caps, offset).1 == Drain(v, caps[1..], Offset(k)).1
  {
    var r := LResult(v, caps[0], offset);
    var n := Served(v, caps[0], offset);
    ChunkContents(v, caps[0], offset);
    ServedRule(v, caps[0], offset);
    k := Start(offset) + n;
    assert r.status != NoData && r.offset == Offset(k);
    assert r.written[..n] == Padded(v)[Start(offset)..k];
  }

  /** At the fill length a drain delivers nothing more and stays there. */
  lemma DrainEnd(v: LValue, caps: seq<nat>)
    requires WellFormed(v) && |caps| > 0
    requires forall i :: 0 <= i < |caps| ==> caps[i] != 0
    ensures Drain(v, caps, Offset(FillLen(v))) == ([], Offset(FillLen(v)))
  {
  }

  /** Calling again and again with buffers of two bytes or more delivers the rest of
      the padded value, in order and without gaps, and leaves the cursor at the fill
      length, where the next call returns "no data". One call per byte left is
      enough, plus one for the "no data", plus one more on a first call (a value of
      fill length 0 takes one call to serve nothing). */
  lemma {:induction false} DrainFrom(v: LValue, caps: seq<nat>, offset: Cursor)
    requires WellFormed(v) && forall i :: 0 <= i < |caps| ==> caps[i] >= 2
    requires Start(offset) <= FillLen(v)
    requires |caps| >= FillLen(v) - Start(offset) + (if offset.NotStarted? then 2 else 1)
    ensures Drain(v, caps, offset).0 == Padded(v)[Start(offset)..]
    ensures Drain(v, caps, offset).1 == Offset(FillLen(v))
    decreases |caps|
  {
    if offset.Offset? && offset.n == FillLen(v) {
      DrainEnd(v, caps);
    } else {
      var k := DrainStep(v, caps, offset);
      DrainFrom(v, caps[1..], Offset(k));
      SliceSplit(Padded(v), Start(offset), k);
    }
  }

  lemma SliceSplit(p: seq<Byte>, i: nat, k: nat)
    requires i <= k <= |p|
    ensures p[i..] == p[i..k] + p[k..]
  {
  }

  /** Reading a whole value in chunks: from the first call on, successive calls with
      buffers of two bytes or more deliver exactly the padded value, and then every
      further call with a buffer returns "no data". */
  lemma DrainDelivers(v: LValue, caps: seq<nat>, cap: nat)
    requires WellFormed(v) && forall i :: 0 <= i < |caps| ==> caps[i] >= 2
    requires |caps| >= FillLen(v) + 2 && cap != 0
    ensures Drain(v, caps, NotStarted).0 == Padded(v)
    ensures LResult(v, cap, Drain(v, caps, NotStarted).1).status == NoData
  {
    DrainFrom(v, caps, NotStarted);
    assert Padded(v)[0..] == Padded(v);
  }

  /** "hello" in a column of display length 10 without padding, read with buffers
      of 3 and then 10 bytes. */
  lemma HelloInTwoCalls()
    ensures var v := LValue([104, 101, 108, 108, 111], Len(5), 0, 10, false, false);
      var first := LResult(v, 3, NotStarted);
      var second := LResult(v, 10, first.offset);
      && first == LRead(SuccessWithInfo, Some(5), Offset(2), [104, 101, 0])
      && second == LRead(Success, Some(3), Offset(5), [108, 108, 111, 0])
      && LResult(v, 10, second.offset).status == NoData
  {
    var v := LValue([104, 101, 108, 108, 111], Len(5), 0, 10, false, false);
    assert v.src[0..2] == [104, 101];
    assert v.src[2..5] == [108, 108, 111];
  }

  /** The writing half of `copy_lresult`: `memcpy` of the source bytes, `bfill` with
      spaces up to `length`, then the terminator if asked for. */
  method WriteChunk(dst: array<Byte>, data: seq<Byte>, length: nat, withNul: bool)
    requires |data| <= length && length + (if withNul then 1 else 0) <= dst.Length
    modifies dst
    ensures var w := data + Fill(length - |data|, SpaceByte) + (if withNul then [NulByte] else []);
      dst[..|w|] == w && dst[|w|..] == old(dst[|w|..])
  {
    CopyBytes(dst, data);
    FillBytes(dst, |data|, length, SpaceByte);
    assert dst[..length] == dst[..|data|] + dst[|data|..length];
    if withNul {
      assert dst[length + 1..] == dst[length..][1..];
      dst[length] := NulByte;
      assert dst[..length + 1] == dst[..length] + [NulByte];
    }
  }

  /** `memcpy(dst, data, |data|)`. */
  method CopyBytes(dst: array<Byte>, data: seq<Byte>)
    requires |data| <= dst.Length
    modifies dst
    ensures dst[..|data|] == data && dst[|data|..] == old(dst[|data|..])
  {
    var i := 0;
    while i < |data|
      invariant 0 <= i <= |data|
      invariant dst[..i] == data[..i]
      invariant dst[i..] == old(dst[i..])
    {
      dst[i] := data[i];
      i := i + 1;
    }
  }

  /** `bfill(dst + from, to - from, value)`. */
  method FillBytes(dst: array<Byte>, from: nat, to: nat, value: Byte)
    requires from <= to <= dst.Length
    modifies dst
    ensures dst[..from] == old(dst[..from])
    ensures dst[from..to] == Fill(to - from, value)
    ensures dst[to..] == old(dst[to..])
  {
    var i := from;
    while i < to
      invariant from <= i <= to
      invariant dst[..from] == old(dst[..from])
      invariant dst[from..i] == Fill(i - from, value)
      invariant dst[i..] == old(dst[i..])
    {
      dst[i] := value;
      i := i + 1;
    }
  }

  /** `memcpy` of what is left of the source (none once the offset is past it),
      then the padding and the terminator. */
  method ServeChunk(dst: array<Byte>, v: LValue, start: nat, length: nat, withNul: bool)
    requires WellFormed(v) && start + length <= FillLen(v)
    requires length + (if withNul then 1 else 0) <= dst.Length
    modifies dst
    ensures var w := ChunkBytes(v, start, length, withNul);
      dst[..|w|] == w && dst[|w|..] == old(dst[|w|..])
  {
    var remSrc := SrcLen(v) - start;
    var copy := if remSrc >= length then length else Max(remSrc, 0);
    WriteChunk(dst, if copy == 0 then [] else v.src[start..start + copy], length, withNul);
  }

  /** `copy_lresult`: the driver's code, writing the caller's buffer in place. */
  method CopyLResult(dst: array?<Byte>, cbValueMax: nat, src: seq<Byte>, srcLength: SrcLength,
                     maxLength: nat, fillLength: nat, padSpace: bool, offset: Cursor, binary: bool)
    returns (status: Status, reported: Option<int>, offset': Cursor)
    requires dst != null ==> dst.Length >= cbValueMax
    requires srcLength.Len? ==> srcLength.n <= |src|
    modifies dst
    ensures var r := LResult(LValue(src, srcLength, maxLength, fillLength, padSpace, binary), cbValueMax, offset);
      && status == r.status && reported == r.reported && offset' == r.offset
      && (dst != null ==> dst[..|r.written|] == r.written && dst[|r.written|..] == old(dst[|r.written|..]))
  {
    var v := LValue(src, srcLength, maxLength, fillLength, padSpace, binary);
    var srcLen: int := ResolveLength(src, srcLength);
    var cap: int := cbValueMax;
    var toDst := dst != null;
    if cbValueMax != 0 && !binary {
      cap := cap - 1;  // room for the terminator
    } else if cbValueMax == 0 {
      toDst := false;  // copy nothing
    }
    var fill: int := fillLength;
    if maxLength != 0 {
      cap := Min(cap, maxLength);
      srcLen := Min(srcLen, maxLength);
      fill := Min(fill, maxLength);
    }
    if fill < srcLen || !padSpace {
      fill := srcLen;
    }
    assert srcLen == SrcLen(v) && fill == FillLen(v) && cap == Room(v, cbValueMax);
    var start: nat;
    if offset.NotStarted? {
      start := 0;  // first call
    } else if cbValueMax != 0 && offset.n >= fill {
      return NoData, None, offset;
    } else {
      start := offset.n;
    }
    var remSrc, remFill := srcLen - start, fill - start;
    var length := Min(remFill, cap);
    offset' := Offset(start + length);
    reported := Some(remFill);
    status := if cbValueMax != 0 && cap >= remFill then Success else SuccessWithInfo;
    ghost var r := LResult(v, cbValueMax, offset);
    assert r.status == status && r.reported == reported && r.offset == offset';
    if toDst {
      assert 0 <= length <= remFill;
      ServeChunk(dst, v, start, length, !binary || length != cap);
    }
  }

  /** `SQL_NTS` as a `SQLSMALLINT` buffer length. */
  const SqlNts: int := -3

  /** What `copy_str_data` leaves behind: the status, `*pcbValue` (`None` when the
      call fails before setting it), and the bytes written to the caller's buffer. */
  datatype SRead = SRead(status: Status, reported: Option<int>, written: seq<Byte>)

  /** What `strmake(dst, src, limit)` writes: the C string `src`, cut to at most
      `limit` bytes, and a terminator. */
  function Strmake(src: seq<Byte>, limit: nat): (w: seq<Byte>)
    ensures |w| == Min(StrLen(src), limit) + 1
  {
    src[..Min(StrLen(src), limit)] + [NulByte]
  }

  /** `strmake` produces a C string: a prefix of `src` with no NUL inside it, then
      the terminator, and it holds all of `src` exactly when `limit` allows it. */
  lemma StrmakeIsPrefix(src: seq<Byte>, limit: nat)
    ensures var w := Strmake(src, limit);
      var k := |w| - 1;
      && k <= StrLen(src) && k <= limit
      && w[..k] == src[..k] && w[k] == NulByte
      && (forall i :: 0 <= i < k ==> w[i] != NulByte)
      && (k == StrLen(src) <==> StrLen(src) <= limit)
  {
    StrLenFirstNul(src);
    var w := Strmake(src, limit);
    var k := |w| - 1;
    forall i | 0 <= i < k
      ensures w[i] != NulByte
    {
      assert w[i] == src[i];
    }
  }

  /** The byte count `copy_str_data` hands to `strmake`, or `None` for the S1090
      error (a negative length other than `SQL_NTS`). */
  function StrLimit(cbValueMax: int, src: seq<Byte>): (l: Option<nat>)
    ensures l.None? <==> cbValueMax < 0 && cbValueMax != SqlNts
    ensures cbValueMax == SqlNts ==> l == Some(StrLen(src))
    ensures cbValueMax > 0 ==> l == Some(cbValueMax - 1)
    ensures cbValueMax == 0 ==> l == Some(0)
  {
    if cbValueMax == SqlNts then Some(StrLen(src))
    else if cbValueMax < 0 then None
    else if cbValueMax != 0 then Some(cbValueMax - 1)
    else Some(0)
  }

  /** `copy_str_data` as the driver writes it: for a zero-length buffer `strmake`
      still stores its terminator, one byte past the buffer's end. */
  function StrDataAsWritten(cbValueMax: int, src: seq<Byte>): (r: SRead)
    ensures r.status == Error <==> StrLimit(cbValueMax, src).None?
  {
    match StrLimit(cbValueMax, src)
    case None => SRead(Error, None, [])
    case Some(cb) =>
      var n := StrLen(src);
      SRead(if Min(n, cb) != n then SuccessWithInfo else Success, Some(n), Strmake(src, cb))
  }

  /** `copy_str_data` with a zero-length buffer left untouched (the caller said it
      holds no bytes); in every other case it is the driver's code. */
  function StrData(cbValueMax: int, src: seq<Byte>): (r: SRead)
    ensures r.status == Error <==> cbValueMax < 0 && cbValueMax != SqlNts
    ensures r.status == Error ==> r.reported.None? && r.written == []
    ensures r.status != Error ==> r.reported == Some(StrLen(src))
    ensures r.status == SuccessWithInfo <==> cbValueMax >= 0 && StrLen(src) >= Max(cbValueMax, 1)
    ensures r.status != NoData
    ensures cbValueMax >= 0 ==> |r.written| <= cbValueMax
    ensures cbValueMax == SqlNts ==> |r.written| == StrLen(src) + 1
  {
    var r := StrDataAsWritten(cbValueMax, src);
    if cbValueMax == 0 then r.(written := []) else r
  }

  /** The corrected call differs from the driver's only in what a zero-length buffer
      receives. */
  lemma StrDataMatchesDriver(cbValueMax: int, src: seq<Byte>)
    ensures var (a, b) := (StrData(cbValueMax, src), StrDataAsWritten(cbValueMax, src));
      && a.status == b.status && a.reported == b.reported
      && (cbValueMax != 0 ==> a.written == b.written)
      && (cbValueMax == 0 ==> a.written == [])
  {
  }

  /** The driver's `copy_str_data` writes one byte into a buffer it was told holds
      none: with `cbValueMax = 0` the terminator lands at `rgbValue[0]`. */
  lemma AsWrittenOverrunsEmptyBuffer(src: seq<Byte>)
    ensures StrDataAsWritten(0, src).written == [NulByte]
    ensures |StrDataAsWritten(0, src).written| > 0
  {
  }

  /** What lands in the buffer is the front of the string, terminated; the warning
      is raised exactly when the string had to be cut. */
  lemma TruncationWarning(cbValueMax: int, src: seq<Byte>)
    requires cbValueMax > 0 || cbValueMax == SqlNts
    ensures var r := StrData(cbValueMax, src);
      var k := |r.written| - 1;
      && 0 <= k <= StrLen(src)
      && r.written[..k] == src[..k] && r.written[k] == NulByte
      && (r.status == SuccessWithInfo <==> k < StrLen(src))
  {
    var cb := StrLimit(cbValueMax, src).value;
    StrmakeIsPrefix(src, cb);
  }

  /** `strmake`: copy the C string `src` until its terminator or `limit` bytes,
      then store a terminator. */
  method WriteStrmake(dst: array<Byte>, src: seq<Byte>, limit: nat)
    requires dst.Length > Min(StrLen(src), limit)
    modifies dst
    ensures var w := Strmake(src, limit);
      dst[..|w|] == w && dst[|w|..] == old(dst[|w|..])
  {
    StrLenFirstNul(src);
    var i := 0;
    while i < limit && i < |src| && src[i] != NulByte
      invariant 0 <= i <= Min(StrLen(src), limit)
      invariant forall j :: 0 <= j < i ==> dst[j] == src[j]
      invariant forall j :: i <= j < dst.Length ==> dst[j] == old(dst[j])
    {
      dst[i] := src[i];
      i := i + 1;
    }
    dst[i] := NulByte;
    ghost var w := Strmake(src, limit);
    assert |w| == i + 1;
    assert dst[..i + 1] == w;
    assert dst[i + 1..] == old(dst[i + 1..]);
  }

  /** `copy_str_data`, with the zero-length buffer left alone. `*pcbValue` is a
      `SQLSMALLINT`, so the string is taken to fit in one. */
  method CopyStrData(dst: array?<Byte>, cbValueMax: int, src: seq<Byte>)
    returns (status: Status, reported: Option<int>)
    requires -0x8000 <= cbValueMax < 0x8000 && StrLen(src) < 0x8000
    requires dst != null && cbValueMax >= 0 ==> dst.Length >= cbValueMax
    requires dst != null && cbValueMax == SqlNts ==> dst.Length > StrLen(src)
    modifies dst
    ensures var r := StrData(cbValueMax, src);
      && status == r.status && reported == r.reported
      && (dst != null ==> dst[..|r.written|] == r.written && dst[|r.written|..] == old(dst[|r.written|..]))
  {
    var n := StrLen(src);
    var cb: nat;
    if cbValueMax == SqlNts {
      cb := n;
    } else if cbValueMax < 0 {
      return Error, None;
    } else {
      cb := if cbValueMax != 0 then cbValueMax - 1 else 0;
    }
    reported := Some(n);
    if dst != null && cbValueMax != 0 {
      WriteStrmake(dst, src, cb);
    }
    status := if Min(n, cb) != n then SuccessWithInfo else Success;
  }
}
