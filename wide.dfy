/** `copy_wchar_result`: the chunked `SQLGetData` protocol of `copy_lresult` with
    wide output. The bytes of each chunk are converted from the connection's
    character set to UTF-8 with `copy_and_convert`, then to UTF-32 units, or to
    UTF-16 units with surrogate pairs when `SQLWCHAR` is two bytes wide. */
module WideReader {
  import opened Common
  import opened Charset
  import opened Transcoder

  /** A value being read with `copy_wchar_result`: the source bytes and their length,
      `SQL_ATTR_MAX_LENGTH` (0 for no limit), the display length, and whether the
      connection pads with spaces. */
  datatype WValue = WValue(src: seq<Byte>, srcLength: SrcLength, maxLen: nat, fillLen: nat, padSpace: bool)

  predicate WellFormed(v: WValue)
  {
    v.srcLength.Len? ==> v.srcLength.n <= |v.src|
  }

  /** The source length, `strlen` for `SQL_NTS`; unlike `copy_lresult`, the maximum
      length does not shorten it. */
  function WSrcLen(v: WValue): nat
  {
    ResolveLength(v.src, v.srcLength)
  }

  /** The length the value is reported with: the display length only when padding is
      on and it is not shorter than the source. */
  function WFillLen(v: WValue): (f: nat)
    ensures WSrcLen(v) <= f
    ensures !v.padSpace ==> f == WSrcLen(v)
  {
    if v.fillLen < WSrcLen(v) || !v.padSpace then WSrcLen(v) else v.fillLen
  }

  /** The units a buffer of `resultLen` units has room for: one is kept for a
      terminator, and the maximum length caps what is left. */
  function WRoom(v: WValue, resultLen: nat): (r: nat)
    ensures resultLen != 0 ==> r < resultLen
    ensures resultLen == 0 ==> r == 0
  {
    var c := if resultLen != 0 then resultLen - 1 else 0;
    if v.maxLen != 0 && v.maxLen < c then v.maxLen else c
  }

  /** A later call, with a non-empty buffer, at or past the fill length. */
  predicate WExhausted(v: WValue, resultLen: nat, offset: Cursor)
  {
    offset.Offset? && resultLen != 0 && offset.n >= WFillLen(v)
  }

  /** The source bytes handed to `copy_and_convert`: what is left of the source, at
      most `length` bytes of it. */
  function Slice(v: WValue, start: nat, length: nat): (s: seq<Byte>)
    requires WellFormed(v)
    ensures |s| <= length
    ensures |s| > 0 ==> start + |s| <= WSrcLen(v)
    ensures |s| < length ==> start + |s| >= WSrcLen(v)
  {
    var remSrc := WSrcLen(v) - start;
    var copy := if remSrc >= length then length else Max(remSrc, 0);
    if copy == 0 then [] else v.src[start..start + copy]
  }

  /** The conversion one call performs: the slice into a UTF-8 buffer of four bytes
      per source byte. */
  function Chunk(mbwc: MbWc, v: WValue, start: nat, length: nat): Conversion
    requires WellFormed(v)
  {
    var s := Slice(v, start, length);
    Convert(mbwc, Utf8WcMb, s, |s| * 4)
  }

  /** `length` units: the converted ones, then spaces while fewer than `length`
      have been written. */
  function PadUnits(units: seq<nat>, length: nat): seq<nat>
  {
    if |units| < length then units + seq(length - |units|, _ => 32) else units
  }

  /** The status of one call: "no data" at the end of the value, success when the
      buffer is non-empty and its room holds all that is left, otherwise a warning. */
  function WStatus(v: WValue, resultLen: nat, offset: Cursor): Status
  {
    if WExhausted(v, resultLen, offset) then NoData
    else if resultLen != 0 && WRoom(v, resultLen) >= WFillLen(v) - Start(offset) then Success
    else SuccessWithInfo
  }

  /** `*used_len` after one call: what was left of the fill length before it, or
      `None` when "no data" leaves it alone. */
  function WReported(v: WValue, resultLen: nat, offset: Cursor): Option<int>
  {
    if WExhausted(v, resultLen, offset) then None else Some(WFillLen(v) - Start(offset))
  }

  /** The call converts and writes: it has data left, a buffer and room in it. */
  predicate WServes(v: WValue, resultLen: nat, buffer: bool, offset: Cursor)
  {
    !WExhausted(v, resultLen, offset) && buffer && resultLen != 0
  }

  /** The units one call fills: the smaller of what is left and the room. */
  function WLength(v: WValue, resultLen: nat, offset: Cursor): int
  {
    Min(WFillLen(v) - Start(offset), WRoom(v, resultLen))
  }

  /** The units one call writes to the front of the caller's buffer: the wide form of
      the characters converted, then spaces up to `length`; no terminator. */
  function WWritten(mbwc: MbWc, width: WideWidth, v: WValue, resultLen: nat, buffer: bool,
                    offset: Cursor): seq<nat>
    requires WellFormed(v)
  {
    if WServes(v, resultLen, buffer, offset) then
      var length := WLength(v, resultLen, offset);
      var s := Slice(v, Start(offset), length);
      ConvertUtf8Output(mbwc, s, |s| * 4);
      PadUnits(WideConcat(width, Chunk(mbwc, v, Start(offset), length).chars), length)
    else []
  }

  /** The cursor after one call as the driver computes it: unchanged on "no data",
      set to the start when nothing is converted, and otherwise moved by the number
      of UTF-8 bytes `copy_and_convert` produced. */
  function WNextAsWritten(mbwc: MbWc, v: WValue, resultLen: nat, buffer: bool, offset: Cursor): Cursor
    requires WellFormed(v)
  {
    if WExhausted(v, resultLen, offset) then offset
    else if WServes(v, resultLen, buffer, offset) then
      Offset(Start(offset) + |Chunk(mbwc, v, Start(offset), WLength(v, resultLen, offset)).out|)
    else Offset(Start(offset))
  }

  /** The cursor after one call, moved past the source bytes the conversion consumed,
      so that the next call resumes at the first byte not yet converted; once the
      source is used up, moved past the spaces served as well, as `copy_lresult`
      does, so that a padded value reaches its fill length. In every other case it
      is the driver's. */
  function WNext(mbwc: MbWc, v: WValue, resultLen: nat, buffer: bool, offset: Cursor): Cursor
    requires WellFormed(v)
  {
    if WExhausted(v, resultLen, offset) then offset
    else if WServes(v, resultLen, buffer, offset) then
      var length := WLength(v, resultLen, offset);
      var consumed := Chunk(mbwc, v, Start(offset), length).consumed;
      if Start(offset) + consumed < WSrcLen(v) then Offset(Start(offset) + consumed)
      else Offset(Start(offset) + Max(length, 0))
    else Offset(Start(offset))
  }

  /** A first call is never "no data"; a later call with a non-empty buffer is "no
      data" exactly when its offset has reached the fill length, and then leaves the
      offset and `*used_len` alone and writes nothing. */
  lemma WNoDataRule(mbwc: MbWc, width: WideWidth, v: WValue, resultLen: nat, buffer: bool, offset: Cursor)
    requires WellFormed(v)
    ensures offset.NotStarted? ==> WStatus(v, resultLen, offset) != NoData
    ensures offset.Offset? && resultLen != 0 ==>
      (WStatus(v, resultLen, offset) == NoData <==> offset.n >= WFillLen(v))
    ensures WStatus(v, resultLen, offset) == NoData ==>
      && WNext(mbwc, v, resultLen, buffer, offset) == offset && WReported(v, resultLen, offset).None?
      && WWritten(mbwc, width, v, resultLen, buffer, offset) == []
  {
  }

  /** A call that does not find the value exhausted reports what was left of the
      fill length before it, succeeds outright exactly when the buffer is non-empty
      and its room holds all of that, and, without a buffer to write to, leaves the
      offset where it was. */
  lemma WServedRule(mbwc: MbWc, width: WideWidth, v: WValue, resultLen: nat, buffer: bool, offset: Cursor)
    requires WellFormed(v) && !WExhausted(v, resultLen, offset)
    ensures var left := WFillLen(v) - Start(offset);
      && WReported(v, resultLen, offset) == Some(left)
      && (WStatus(v, resultLen, offset) == Success <==> resultLen != 0 && WRoom(v, resultLen) >= left)
      && (WStatus(v, resultLen, offset) == SuccessWithInfo <==> resultLen == 0 || WRoom(v, resultLen) < left)
    ensures !buffer || resultLen == 0 ==>
      && WNext(mbwc, v, resultLen, buffer, offset) == Offset(Start(offset))
      && WWritten(mbwc, width, v, resultLen, buffer, offset) == []
  {
  }

  /** The maximum length only narrows the room in the buffer: what is reported, and
      when the value counts as exhausted, do not depend on it. */
  lemma MaxLenClampsOnlyRoom(v: WValue, m: nat, resultLen: nat, offset: Cursor)
    ensures WReported(v, resultLen, offset) == WReported(v.(maxLen := m), resultLen, offset)
    ensures WStatus(v, resultLen, offset) == NoData <==> WStatus(v.(maxLen := m), resultLen, offset) == NoData
  {
  }

  /** A decoder that reads a supplementary character (one that needs a surrogate
      pair in UTF-16) only from two bytes or more, as every multi-byte character set
      of the server does; then no chunk has more UTF-16 units than source bytes. */
  ghost predicate Compact(mbwc: MbWc)
  {
    forall s: seq<Byte> :: mbwc(s).Ok? && mbwc(s).wc >= 0x10000 ==> mbwc(s).n >= 2
  }

  /** One turn of the conversion into UTF-8 emits a scalar value, and its wide form
      takes no more units than the turn consumed source bytes. */
  lemma WideStepUnits(mbwc: MbWc, width: WideWidth, from: seq<Byte>, toLength: nat, c: Conversion)
    requires c.consumed <= |from| && |c.out| <= toLength
    requires width == Wide16 ==> Compact(mbwc)
    ensures var t := Step(mbwc, Utf8WcMb, from, toLength, c);
      t.Next? ==>
        (&& IsScalar(t.c.chars[|c.chars|])
         && t.c.chars == c.chars + [t.c.chars[|c.chars|]]
         && |WideEncode(width, t.c.chars[|c.chars|])| <= t.c.consumed - c.consumed)
  {
    var d := mbwc(from[c.consumed..]);
    match DecodeStep(d, |from| - c.consumed)
    case None =>
    case Some((wc, adv, e1)) =>
      Utf8EncodeStep(wc, toLength - |c.out|);
      Utf8StepOutput(mbwc, from, toLength, c);
      if wc >= 0x10000 {
        assert d.Ok? && d.wc == wc && d.n == adv;
      }
  }

  /** From the state `c` on, the wide units of the characters emitted never
      outnumber the source bytes consumed. */
  lemma {:induction false} RunUnits(mbwc: MbWc, width: WideWidth, from: seq<Byte>, toLength: nat, c: Conversion)
    requires c.consumed <= |from| && |c.out| <= toLength
    requires width == Wide16 ==> Compact(mbwc)
    requires AllScalar(c.chars) && |WideConcat(width, c.chars)| <= c.consumed
    ensures var r := Run(mbwc, Utf8WcMb, from, toLength, c);
      AllScalar(r.chars) && |WideConcat(width, r.chars)| <= r.consumed
    decreases |from| - c.consumed
  {
    match Step(mbwc, Utf8WcMb, from, toLength, c)
    case Last(r) =>
    case Next(n) =>
      WideStepUnits(mbwc, width, from, toLength, c);
      var ch := n.chars[|c.chars|];
      WideConcatSnoc(width, c.chars, ch);
      assert AllScalar(n.chars) by {
        forall i | 0 <= i < |n.chars| ensures IsScalar(n.chars[i]) {
          if i < |c.chars| { assert n.chars[i] == c.chars[i]; }
        }
      }
      RunUnits(mbwc, width, from, toLength, n);
  }

  /** A chunk's wide units fit in the bytes it consumed, which fit in the slice. */
  lemma ChunkUnits(mbwc: MbWc, width: WideWidth, v: WValue, start: nat, length: nat)
    requires WellFormed(v)
    requires width == Wide16 ==> Compact(mbwc)
    ensures var c := Chunk(mbwc, v, start, length);
      && AllScalar(c.chars) && c.out == Utf8Concat(c.chars)
      && |WideConcat(width, c.chars)| <= c.consumed <= |Slice(v, start, length)| <= length
  {
    var s := Slice(v, start, length);
    ConvertUtf8Output(mbwc, s, |s| * 4);
    RunUnits(mbwc, width, s, |s| * 4, Conversion([], 0, 0, []));
  }

  /** With a buffer, a call writes exactly `length` units, the smaller of what is
      left and the room, all within the room and without a terminator: the UTF-16 or
      UTF-32 form of the characters converted, then spaces. The next call resumes
      after the source bytes converted, never past the fill length. */
  lemma WContents(mbwc: MbWc, width: WideWidth, v: WValue, resultLen: nat, offset: Cursor)
    requires WellFormed(v) && resultLen != 0 && !WExhausted(v, resultLen, offset)
    requires width == Wide16 ==> Compact(mbwc)
    ensures var w := WWritten(mbwc, width, v, resultLen, true, offset);
      var length := WLength(v, resultLen, offset);
      var c := Chunk(mbwc, v, Start(offset), length);
      && 0 <= length && |w| == length < resultLen
      && AllScalar(c.chars)
      && w[..|WideConcat(width, c.chars)|] == WideConcat(width, c.chars)
      && (forall i :: |WideConcat(width, c.chars)| <= i < length ==> w[i] == 32)
    ensures var next := WNext(mbwc, v, resultLen, true, offset);
      next.Offset? && Start(offset) <= next.n <= WFillLen(v)
  {
    var length := WLength(v, resultLen, offset);
    ChunkUnits(mbwc, width, v, Start(offset), length);
  }

  /** An ISO-8859-1 value read into wide units: each byte of the slice becomes the unit
      with the same number, spaces fill the rest of the call's length, and the next
      call resumes after all `length` units served, the slice and the spaces alike.
      The driver's own cursor moves by the length of the slice's UTF-8 form instead,
      which is longer than the slice as soon as one of its bytes is 0x80 or above. */
  lemma Latin1Units(width: WideWidth, v: WValue, resultLen: nat, offset: Cursor)
    requires WellFormed(v) && resultLen != 0 && !WExhausted(v, resultLen, offset)
    ensures 0 <= WLength(v, resultLen, offset)
    ensures var s := Slice(v, Start(offset), WLength(v, resultLen, offset));
      && WWritten(Latin1MbWc, width, v, resultLen, true, offset) == PadUnits(Latin1Chars(s), WLength(v, resultLen, offset))
      && WNext(Latin1MbWc, v, resultLen, true, offset) == Offset(Start(offset) + WLength(v, resultLen, offset))
      && WNextAsWritten(Latin1MbWc, v, resultLen, true, offset) == Offset(Start(offset) + |Utf8Concat(Latin1Chars(s))|)
  {
    var length := WLength(v, resultLen, offset);
    var s := Slice(v, Start(offset), length);
    Latin1Chunk(v, Start(offset), length);
    WideConcatBmp(width, Latin1Chars(s));
  }

  /** The conversion of an ISO-8859-1 slice: its bytes as characters, all consumed. */
  lemma Latin1Chunk(v: WValue, start: nat, length: nat)
    requires WellFormed(v)
    ensures var s := Slice(v, start, length);
      Chunk(Latin1MbWc, v, start, length) == Conversion(Utf8Concat(Latin1Chars(s)), |s|, 0, Latin1Chars(s))
  {
    var s := Slice(v, start, length);
    ConvertLatin1(s, |s| * 4);
  }

  /** A utf8 value whose slice holds the UTF-8 forms of `cs` and then the start of a
      character cut off by the slice's end (or nothing): the call writes the wide
      form of exactly `cs` and pads with spaces. */
  lemma Utf8Units(width: WideWidth, v: WValue, resultLen: nat, offset: Cursor, cs: seq<nat>, tail: seq<Byte>)
    requires WellFormed(v) && resultLen != 0 && !WExhausted(v, resultLen, offset)
    requires AllScalar(cs) && Utf8MbWc(tail) == TooSmall
    requires Slice(v, Start(offset), WLength(v, resultLen, offset)) == Utf8Concat(cs) + tail
    ensures WWritten(Utf8MbWc, width, v, resultLen, true, offset) == PadUnits(WideConcat(width, cs), WLength(v, resultLen, offset))
  {
    Utf8Chunk(v, Start(offset), WLength(v, resultLen, offset), cs, tail);
  }

  /** The cursors after that call: the driver's resumes at the cut character; so
      does the corrected one while source bytes are left (always, when a cut
      character is there), and once the source is used up the corrected one passes
      the spaces served too. */
  lemma Utf8Cursors(v: WValue, resultLen: nat, offset: Cursor, cs: seq<nat>, tail: seq<Byte>)
    requires WellFormed(v) && resultLen != 0 && !WExhausted(v, resultLen, offset)
    requires AllScalar(cs) && Utf8MbWc(tail) == TooSmall
    requires Slice(v, Start(offset), WLength(v, resultLen, offset)) == Utf8Concat(cs) + tail
    ensures WNextAsWritten(Utf8MbWc, v, resultLen, true, offset) == Offset(Start(offset) + |Utf8Concat(cs)|)
    ensures tail != [] ==> Start(offset) + |Utf8Concat(cs)| < WSrcLen(v)
    ensures Start(offset) + |Utf8Concat(cs)| < WSrcLen(v) ==>
      WNext(Utf8MbWc, v, resultLen, true, offset) == Offset(Start(offset) + |Utf8Concat(cs)|)
    ensures Start(offset) + |Utf8Concat(cs)| >= WSrcLen(v) ==>
      WNext(Utf8MbWc, v, resultLen, true, offset) == Offset(Start(offset) + WLength(v, resultLen, offset))
  {
    Utf8Chunk(v, Start(offset), WLength(v, resultLen, offset), cs, tail);
  }

  /** The conversion of a utf8 slice holding the forms of `cs` and then a cut-off
      character: exactly `cs`, and the cut character is left for later. */
  lemma Utf8Chunk(v: WValue, start: nat, length: nat, cs: seq<nat>, tail: seq<Byte>)
    requires WellFormed(v) && AllScalar(cs) && Utf8MbWc(tail) == TooSmall
    requires Slice(v, start, length) == Utf8Concat(cs) + tail
    ensures Chunk(Utf8MbWc, v, start, length) == Conversion(Utf8Concat(cs), |Utf8Concat(cs)|, 0, cs)
    ensures |Slice(v, start, length)| == |Utf8Concat(cs)| + |tail|
  {
    var s := Slice(v, start, length);
    ConvertUtf8(cs, tail, |s| * 4);
  }

  /** The ISO-8859-1 value "éa" (0xE9, 0x61), fill length 2, read with buffers of two
      units. The first call writes "é" and reports 2 units left, but the driver
      moves its offset by the two UTF-8 bytes of "é", to the fill length: the next
      call returns "no data" and "a" is never delivered. The corrected cursor stops
      at 1, and the next call writes "a" and succeeds. */
  lemma AsWrittenOffsetOvershoots()
    ensures var v := WValue([0xE9, 0x61], Len(2), 0, 0, false);
      && WFillLen(v) == 2
      && WStatus(v, 2, NotStarted) == SuccessWithInfo && WReported(v, 2, NotStarted) == Some(2)
      && WWritten(Latin1MbWc, Wide16, v, 2, true, NotStarted) == [0xE9]
      && WNextAsWritten(Latin1MbWc, v, 2, true, NotStarted) == Offset(2)
      && WStatus(v, 2, Offset(2)) == NoData
      && WNext(Latin1MbWc, v, 2, true, NotStarted) == Offset(1)
      && WStatus(v, 2, Offset(1)) == Success
      && WWritten(Latin1MbWc, Wide16, v, 2, true, Offset(1)) == [0x61]
  {
    var v := WValue([0xE9, 0x61], Len(2), 0, 0, false);
    EAcuteFirstCall(v);
    EAcuteSecondCall(v);
  }

  lemma EAcuteFirstCall(v: WValue)
    requires v == WValue([0xE9, 0x61], Len(2), 0, 0, false)
    ensures WWritten(Latin1MbWc, Wide16, v, 2, true, NotStarted) == [0xE9]
    ensures WNextAsWritten(Latin1MbWc, v, 2, true, NotStarted) == Offset(2)
    ensures WNext(Latin1MbWc, v, 2, true, NotStarted) == Offset(1)
  {
    assert WLength(v, 2, NotStarted) == 1;
    assert Slice(v, 0, 1) == [0xE9];
    assert Latin1Chars([0xE9]) == [0xE9];
    assert Utf8Concat([0xE9]) == Utf8Encode(0xE9) == [0xC3, 0xA9];
    Latin1Units(Wide16, v, 2, NotStarted);
  }

  lemma EAcuteSecondCall(v: WValue)
    requires v == WValue([0xE9, 0x61], Len(2), 0, 0, false)
    ensures WWritten(Latin1MbWc, Wide16, v, 2, true, Offset(1)) == [0x61]
  {
    assert WLength(v, 2, Offset(1)) == 1;
    assert Slice(v, 1, 1) == [0x61];
    assert Latin1Chars([0x61]) == [0x61];
    Latin1Units(Wide16, v, 2, Offset(1));
  }

  /** Once the source is used up, the driver's cursor stops: with padding on and a
      display length above the source length, a call at the source length converts
      nothing, writes only spaces, does not return "no data", and leaves the offset
      where it was, so every later call is the same call and "no data" never comes.
      The corrected cursor moves past the spaces served. */
  lemma AsWrittenPaddingStalls(mbwc: MbWc, width: WideWidth, v: WValue, resultLen: nat)
    requires WellFormed(v) && resultLen >= 2 && WSrcLen(v) < WFillLen(v)
    ensures var at := Offset(WSrcLen(v));
      && WStatus(v, resultLen, at) != NoData
      && WNextAsWritten(mbwc, v, resultLen, true, at) == at
      && WWritten(mbwc, width, v, resultLen, true, at) == seq(WLength(v, resultLen, at), _ => 32)
      && WSrcLen(v) < WNext(mbwc, v, resultLen, true, at).n <= WFillLen(v)
  {
    var at := Offset(WSrcLen(v));
    var length := WLength(v, resultLen, at);
    assert Slice(v, WSrcLen(v), length) == [];
    var c := Chunk(mbwc, v, WSrcLen(v), length);
    assert c.out == [] && c.consumed == 0;
    ChunkUnits(mbwc, Wide32, v, WSrcLen(v), length);
    assert c.chars == [];
  }

  /** "hello" in a padded column of display length 10, read with a buffer of 20
      units at offset 5, where the source ends: the driver writes five spaces,
      returns success and keeps the offset at 5, so the next call does the same. The
      corrected cursor moves to 10, where the next call returns "no data". */
  lemma HelloPaddingStalls()
    ensures var v := WValue([104, 101, 108, 108, 111], Len(5), 0, 10, true);
      && WStatus(v, 20, Offset(5)) == Success
      && WWritten(Latin1MbWc, Wide32, v, 20, true, Offset(5)) == [32, 32, 32, 32, 32]
      && WNextAsWritten(Latin1MbWc, v, 20, true, Offset(5)) == Offset(5)
      && WNext(Latin1MbWc, v, 20, true, Offset(5)) == Offset(10)
      && WStatus(v, 20, Offset(10)) == NoData
  {
    var v := WValue([104, 101, 108, 108, 111], Len(5), 0, 10, true);
    Latin1Units(Wide32, v, 20, Offset(5));
    assert Slice(v, 5, 5) == [];
    assert Latin1Chars([]) == [];
  }

  /** The conversion of "a" and the first byte of a four-byte UTF-8 sequence: "a",
      then the decoder wants more input. */
  lemma StraddleChunk()
    ensures Chunk(Utf8MbWc, WValue([0x61, 0xF0, 0x9F, 0x98, 0x80], Len(5), 0, 0, false), 0, 2)
      == Conversion([0x61], 1, 0, [0x61])
  {
    var v := WValue([0x61, 0xF0, 0x9F, 0x98, 0x80], Len(5), 0, 0, false);
    var s := Slice(v, 0, 2);
    assert s == [0x61, 0xF0];
    var c0 := Conversion([], 0, 0, []);
    var c1 := Conversion([0x61], 1, 0, [0x61]);
    StraddleFirstStep(s, c0, c1);
    StraddleSecondStep(s, c1);
  }

  lemma StraddleFirstStep(s: seq<Byte>, c0: Conversion, c1: Conversion)
    requires s == [0x61, 0xF0] && c0 == Conversion([], 0, 0, []) && c1 == Conversion([0x61], 1, 0, [0x61])
    ensures Step(Utf8MbWc, Utf8WcMb, s, 8, c0) == Next(c1)
  {
    assert s[0..] == s;
    assert Utf8MbWc(s) == Ok(0x61, 1);
  }

  lemma StraddleSecondStep(s: seq<Byte>, c1: Conversion)
    requires s == [0x61, 0xF0] && c1 == Conversion([0x61], 1, 0, [0x61])
    ensures Step(Utf8MbWc, Utf8WcMb, s, 8, c1) == Last(c1)
  {
    assert s[1..] == [0xF0];
    assert Utf8MbWc(s[1..]) == TooSmall;
  }

  /** A four-byte UTF-8 character that straddles the room is withheld whole: with
      "a" followed by U+1F600 and a buffer of three units (room for two), the call
      writes "a" and a space, and the next call starts at the straddling character. */
  lemma StraddlingCharacterWithheld()
    ensures var v := WValue([0x61, 0xF0, 0x9F, 0x98, 0x80], Len(5), 0, 0, false);
      && WWritten(Utf8MbWc, Wide16, v, 3, true, NotStarted) == [0x61, 32]
      && WNext(Utf8MbWc, v, 3, true, NotStarted) == Offset(1)
      && WStatus(v, 3, NotStarted) == SuccessWithInfo && WReported(v, 3, NotStarted) == Some(5)
  {
    StraddleChunk();
  }

  /** `utf8toutf32` on a buffer of UTF-8 forms reads back the first character and
      steps over exactly its bytes. */
  lemma DecodeFront(t: seq<Byte>, cps: seq<nat>)
    requires AllScalar(cps) && |cps| > 0 && t == Utf8Concat(cps)
    ensures Utf8MbWc(t) == Ok(cps[0], |Utf8Encode(cps[0])|)
    ensures AllScalar(cps[1..]) && t[|Utf8Encode(cps[0])|..] == Utf8Concat(cps[1..])
  {
    assert AllScalar(cps[1..]) by {
      forall i | 0 <= i < |cps[1..]| ensures IsScalar(cps[1..][i]) { assert cps[1..][i] == cps[i + 1]; }
    }
    Utf8RoundTrip(cps[0], Utf8Concat(cps[1..]));
  }

  /** Store the units `u` at `dst[j..]`. */
  method PutUnits(dst: array<nat>, j: nat, u: seq<nat>)
    requires j + |u| <= dst.Length && 1 <= |u| <= 2
    modifies dst
    ensures dst[..j + |u|] == old(dst[..j]) + u && dst[j + |u|..] == old(dst[j + |u|..])
  {
    dst[j] := u[0];
    if |u| == 2 {
      dst[j + 1] := u[1];
    }
  }

  /** Where one turn of the unit loop takes the UTF-8 buffer: it decodes the next
      character and steps over its bytes. */
  lemma NextChar(temp: seq<Byte>, chars: seq<nat>, i: nat, k: nat)
    requires AllScalar(chars) && k <= |chars| && i < |temp| && temp[i..] == Utf8Concat(chars[k..])
    ensures k < |chars|
    ensures var d := Utf8MbWc(temp[i..]);
      && d == Ok(chars[k], |Utf8Encode(chars[k])|) && i + d.n <= |temp|
      && temp[i + d.n..] == Utf8Concat(chars[k + 1..])
  {
    DecodeFront(temp[i..], chars[k..]);
    assert temp[i + |Utf8Encode(chars[k])|..] == temp[i..][|Utf8Encode(chars[k])|..];
    assert chars[k + 1..] == chars[k..][1..];
  }

  /** Where one turn of the unit loop takes the units: the next character's wide form
      follows those before it, and they all fit in the units of the whole run. */
  lemma NextUnits(width: WideWidth, chars: seq<nat>, k: nat)
    requires AllScalar(chars) && k < |chars|
    ensures WideConcat(width, chars[..k + 1]) == WideConcat(width, chars[..k]) + WideEncode(width, chars[k])
    ensures |WideConcat(width, chars[..k + 1])| <= |WideConcat(width, chars)|
  {
    assert chars[..k + 1] + chars[k + 1..] == chars;
    WideConcatAppend(width, chars[..k + 1], chars[k + 1..]);
    WideConcatSnoc(width, chars[..k], chars[k]);
    assert chars[..k + 1] == chars[..k] + [chars[k]];
  }

  /** The loop invariant of the unit loop: `temp[i..]` holds the UTF-8 forms of the
      characters from `k` on, and `dst[..j]` the wide forms of those before `k`. */
  ghost predicate UnitsSoFar(dst: array<nat>, width: WideWidth, temp: seq<Byte>, chars: seq<nat>,
                             i: nat, j: nat, k: nat)
    reads dst
  {
    && AllScalar(chars) && k <= |chars| && i <= |temp| && j <= dst.Length
    && temp[i..] == Utf8Concat(chars[k..])
    && |WideConcat(width, chars)| <= dst.Length
    && j == |WideConcat(width, chars[..k])| && dst[..j] == WideConcat(width, chars[..k])
  }

  /** One turn of the unit loop: `utf8toutf32` reads the next character from `temp`,
      and its wide form is stored at `dst[j..]`. */
  method PutNext(dst: array<nat>, width: WideWidth, temp: seq<Byte>, ghost chars: seq<nat>,
                 i: nat, j: nat, ghost k: nat) returns (i': nat, j': nat)
    requires UnitsSoFar(dst, width, temp, chars, i, j, k) && i < |temp|
    modifies dst
    ensures i < i' && j <= j' && UnitsSoFar(dst, width, temp, chars, i', j', k + 1)
    ensures dst[j'..] == old(dst[j'..])
  {
    NextChar(temp, chars, i, k);
    NextUnits(width, chars, k);
    var d := Utf8MbWc(temp[i..]);
    var u := WideEncode(width, d.wc);
    PutUnits(dst, j, u);
    i', j' := i + d.n, j + |u|;
  }

  /** The unit loop of `copy_wchar_result`: decode the UTF-8 buffer `temp` one
      character at a time (`utf8toutf32`) and store its wide form (`utf32toutf16` for
      two-byte units). `chars` are the characters `temp` holds. */
  method WriteWide(dst: array<nat>, width: WideWidth, temp: seq<Byte>, ghost chars: seq<nat>)
    returns (j: nat)
    requires AllScalar(chars) && temp == Utf8Concat(chars)
    requires |WideConcat(width, chars)| <= dst.Length
    modifies dst
    ensures j == |WideConcat(width, chars)|
    ensures dst[..j] == WideConcat(width, chars) && dst[j..] == old(dst[j..])
  {
    var i := 0;
    j := 0;
    ghost var k := 0;
    UnitsStart(dst, width, temp, chars);
    while i < |temp|
      invariant UnitsSoFar(dst, width, temp, chars, i, j, k)
      invariant dst[j..] == old(dst[j..])
      decreases |temp| - i
    {
      i, j := PutNext(dst, width, temp, chars, i, j, k);
      k := k + 1;
    }
    UnitsDone(dst, width, temp, chars, i, j, k);
  }

  /** Before the unit loop nothing is decoded and nothing stored. */
  lemma UnitsStart(dst: array<nat>, width: WideWidth, temp: seq<Byte>, chars: seq<nat>)
    requires AllScalar(chars) && temp == Utf8Concat(chars)
    requires |WideConcat(width, chars)| <= dst.Length
    ensures UnitsSoFar(dst, width, temp, chars, 0, 0, 0)
  {
    assert chars[..0] == [] && chars[0..] == chars;
  }

  /** When the UTF-8 buffer is used up, every character has been stored. */
  lemma UnitsDone(dst: array<nat>, width: WideWidth, temp: seq<Byte>, chars: seq<nat>, i: nat, j: nat, k: nat)
    requires UnitsSoFar(dst, width, temp, chars, i, j, k) && i >= |temp|
    ensures j == |WideConcat(width, chars)| && dst[..j] == WideConcat(width, chars)
  {
    assert |Utf8Concat(chars[k..])| == 0;
    assert chars[..k] == chars;
  }

  /** `while (dst < result + length) *dst++ = ' '`. */
  method PadSpaces(dst: array<nat>, from: nat, to: nat)
    requires from <= to <= dst.Length
    modifies dst
    ensures dst[..from] == old(dst[..from])
    ensures dst[from..to] == seq(to - from, _ => 32)
    ensures dst[to..] == old(dst[to..])
  {
    var i := from;
    while i < to
      invariant from <= i <= to
      invariant dst[..from] == old(dst[..from])
      invariant dst[from..i] == seq(i - from, _ => 32)
      invariant dst[i..] == old(dst[i..])
    {
      dst[i] := 32;
      i := i + 1;
    }
  }

  /** The writing half of `copy_wchar_result`: the unit loop, then the space pad up
      to `length` units. */
  method WriteUnitsPadded(dst: array<nat>, width: WideWidth, temp: seq<Byte>, ghost chars: seq<nat>,
                          length: nat)
    requires AllScalar(chars) && temp == Utf8Concat(chars)
    requires |WideConcat(width, chars)| <= length <= dst.Length
    modifies dst
    ensures dst[..length] == PadUnits(WideConcat(width, chars), length)
    ensures dst[length..] == old(dst[length..])
  {
    var j := WriteWide(dst, width, temp, chars);
    ghost var mid := dst[..];
    PadSpaces(dst, j, length);
    assert dst[..j] == mid[..j];
    assert dst[..length] == dst[..j] + dst[j..length];
  }

  /** The converting half of `copy_wchar_result`: `copy_and_convert` of what is left
      of the source (at most `length` bytes) into a UTF-8 buffer, then the units and
      the padding; returns how far the source was consumed. */
  method ServeUnits(dst: array<nat>, mbwc: MbWc, width: WideWidth, v: WValue, start: nat, length: nat)
    returns (consumed: nat)
    requires WellFormed(v) && length <= dst.Length
    requires width == Wide16 ==> Compact(mbwc)
    modifies dst
    ensures var c := Chunk(mbwc, v, start, length);
      && consumed == c.consumed && AllScalar(c.chars)
      && dst[..length] == PadUnits(WideConcat(width, c.chars), length)
      && dst[length..] == old(dst[length..])
  {
    var temp;
    ghost var chars;
    temp, consumed, chars := ConvertChunk(mbwc, width, v, start, length);
    WriteUnitsPadded(dst, width, temp, chars, length);
  }

  /** `copy_and_convert` of what is left of the source, at most `length` bytes, into
      a UTF-8 buffer of four bytes per source byte. */
  method ConvertChunk(mbwc: MbWc, width: WideWidth, v: WValue, start: nat, length: nat)
    returns (temp: seq<Byte>, consumed: nat, ghost chars: seq<nat>)
    requires WellFormed(v)
    requires width == Wide16 ==> Compact(mbwc)
    ensures var c := Chunk(mbwc, v, start, length);
      && consumed == c.consumed && chars == c.chars && AllScalar(chars) && temp == Utf8Concat(chars)
      && |WideConcat(width, chars)| <= length
  {
    var remSrc := WSrcLen(v) - start;
    var copyLen := if remSrc >= length then length else Max(remSrc, 0);
    var piece := if copyLen == 0 then [] else v.src[start..start + copyLen];
    assert piece == Slice(v, start, length) && |piece| == copyLen;
    ChunkUnits(mbwc, width, v, start, length);
    var errors;
    temp, errors, consumed, chars := CopyAndConvert(mbwc, Utf8WcMb, piece, copyLen * 4);
  }

  /** A call that converts: the units land in the buffer and the cursor moves past
      the source bytes converted. */
  method ServeCall(dst: array<nat>, mbwc: MbWc, width: WideWidth, v: WValue, resultLen: nat,
                   offset: Cursor, start: nat, length: int) returns (offset': Cursor)
    requires WellFormed(v) && WServes(v, resultLen, true, offset) && resultLen <= dst.Length
    requires start == Start(offset) && length == WLength(v, resultLen, offset)
    requires width == Wide16 ==> Compact(mbwc)
    modifies dst
    ensures offset' == WNext(mbwc, v, resultLen, true, offset)
    ensures var w := WWritten(mbwc, width, v, resultLen, true, offset);
      |w| <= dst.Length && dst[..|w|] == w && dst[|w|..] == old(dst[|w|..])
  {
    WContents(mbwc, width, v, resultLen, offset);
    var consumed := ServeUnits(dst, mbwc, width, v, start, length);
    if start + consumed < WSrcLen(v) {
      offset' := Offset(start + consumed);
    } else {
      offset' := Offset(start + length);  // the source is used up: pass the spaces too
    }
  }

  /** `copy_wchar_result`: the driver's code writing the caller's buffer in place,
      with the offset moved past the source bytes converted. */
  method CopyWcharResult(mbwc: MbWc, width: WideWidth, dst: array?<nat>, resultLen: nat,
                         src: seq<Byte>, srcLength: SrcLength, maxLen: nat, fillLen: nat,
                         padSpace: bool, offset: Cursor)
    returns (status: Status, reported: Option<int>, offset': Cursor)
    requires srcLength.Len? ==> srcLength.n <= |src|
    requires dst != null ==> dst.Length >= resultLen
    requires width == Wide16 ==> Compact(mbwc)
    modifies dst
    ensures var v := WValue(src, srcLength, maxLen, fillLen, padSpace);
      && status == WStatus(v, resultLen, offset) && reported == WReported(v, resultLen, offset)
      && offset' == WNext(mbwc, v, resultLen, dst != null, offset)
    ensures dst != null ==>
      var w := WWritten(mbwc, width, WValue(src, srcLength, maxLen, fillLen, padSpace), resultLen, true, offset);
      |w| <= dst.Length && dst[..|w|] == w && dst[|w|..] == old(dst[|w|..])
  {
    var v := WValue(src, srcLength, maxLen, fillLen, padSpace);
    var srcLen: int := ResolveLength(src, srcLength);
    var cap: int := resultLen;
    var toDst := dst != null;
    if cap != 0 {
      cap := cap - 1;  // room for the terminator
    } else {
      toDst := false;  // copy nothing
    }
    if maxLen != 0 && maxLen < cap {
      cap := maxLen;
    }
    var fill: int := if fillLen < srcLen || !padSpace then srcLen else fillLen;
    var start: nat;
    if offset.NotStarted? {
      start := 0;  // first call
    } else if resultLen != 0 && offset.n >= fill {
      return NoData, None, offset;
    } else {
      start := offset.n;
    }
    var remSrc, left := srcLen - start, fill - start;
    var length := Min(left, cap);
    offset' := Offset(start);
    if toDst {
      assert length == WLength(v, resultLen, offset) && start == Start(offset);
      offset' := ServeCall(dst, mbwc, width, v, resultLen, offset, start, length);
    }
    reported := Some(left);
    status := if resultLen != 0 && cap >= left then Success else SuccessWithInfo;
  }

  /** An ISO-8859-1 value as the caller sees it in wide units: one unit per source byte,
      numbered as the byte, then spaces up to the fill length. */
  function Latin1Padded(v: WValue): (p: seq<nat>)
    requires WellFormed(v)
    ensures |p| == WFillLen(v)
  {
    Latin1Chars(v.src[..WSrcLen(v)]) + seq(WFillLen(v) - WSrcLen(v), _ => 32)
  }

  /** Unit `i` of the padded value is source byte `i`, or a space past the source. */
  lemma Latin1PaddedAt(v: WValue, i: nat)
    requires WellFormed(v) && i < WFillLen(v)
    ensures Latin1Padded(v)[i] == if i < WSrcLen(v) then v.src[i] else 32
  {
  }

  /** One call on an ISO-8859-1 value with a buffer of two units or more: it writes the
      next piece of the padded value, up to `k`, at least one unit of it while any
      is left, and the corrected cursor moves to `k`. */
  lemma Latin1Call(width: WideWidth, v: WValue, resultLen: nat, offset: Cursor) returns (k: nat)
    requires WellFormed(v) && resultLen >= 2 && !WExhausted(v, resultLen, offset)
    requires Start(offset) <= WFillLen(v)
    ensures k == Start(offset) + WLength(v, resultLen, offset) <= WFillLen(v)
    ensures Start(offset) < WFillLen(v) ==> Start(offset) < k
    ensures WWritten(Latin1MbWc, width, v, resultLen, true, offset) == Latin1Padded(v)[Start(offset)..k]
    ensures WNext(Latin1MbWc, v, resultLen, true, offset) == Offset(k)
  {
    var length := WLength(v, resultLen, offset);
    Latin1Units(width, v, resultLen, offset);
    k := Start(offset) + length;
    var s := Slice(v, Start(offset), length);
    Latin1Piece(v, Start(offset), length);
  }

  /** The units of an ISO-8859-1 slice, padded to `length`, are the next `length` units
      of the padded value. */
  lemma Latin1Piece(v: WValue, start: nat, length: nat)
    requires WellFormed(v) && start + length <= WFillLen(v)
    ensures PadUnits(Latin1Chars(Slice(v, start, length)), length) == Latin1Padded(v)[start..start + length]
  {
    var s := Slice(v, start, length);
    var w := PadUnits(Latin1Chars(s), length);
    var p := Latin1Padded(v);
    assert |w| == length;
    forall i | 0 <= i < length
      ensures w[i] == p[start + i]
    {
      Latin1PaddedAt(v, start + i);
      if i < |s| {
        assert w[i] == Latin1Chars(s)[i] == s[i];
      } else {
        assert w[i] == 32;
      }
    }
  }

  /** What successive calls with buffers of `lens[0]`, `lens[1]`, ... units deliver,
      starting at `offset`: the units each call writes, one after the other, up to
      the first "no data", and the cursor left behind; the driver's cursor when
      `asWritten` holds, the corrected one otherwise. */
  function WDrain(mbwc: MbWc, width: WideWidth, v: WValue, lens: seq<nat>, offset: Cursor,
                  asWritten: bool): (seq<nat>, Cursor)
    requires WellFormed(v)
    decreases |lens|
  {
    if |lens| == 0 || WStatus(v, lens[0], offset) == NoData then ([], offset)
    else
      var next := if asWritten then WNextAsWritten(mbwc, v, lens[0], true, offset)
                  else WNext(mbwc, v, lens[0], true, offset);
      var rest := WDrain(mbwc, width, v, lens[1..], next, asWritten);
      (WWritten(mbwc, width, v, lens[0], true, offset) + rest.0, rest.1)
  }

  /** Calling again and again with buffers of two units or more delivers the rest of
      an ISO-8859-1 value, padding included, in order and without gaps, and leaves the
      corrected cursor at the fill length, where the next call returns "no data".
      One call per unit left is enough, plus one for the "no data", plus one more
      on a first call (a value of fill length 0 takes one call to serve nothing). */
  lemma {:induction false} Latin1DrainFrom(width: WideWidth, v: WValue, lens: seq<nat>, offset: Cursor)
    requires WellFormed(v) && forall i :: 0 <= i < |lens| ==> lens[i] >= 2
    requires Start(offset) <= WFillLen(v)
    requires |lens| >= WFillLen(v) - Start(offset) + (if offset.NotStarted? then 2 else 1)
    ensures WDrain(Latin1MbWc, width, v, lens, offset, false) == (Latin1Padded(v)[Start(offset)..], Offset(WFillLen(v)))
    decreases |lens|
  {
    if offset.Offset? && offset.n == WFillLen(v) {
      WDrainEnd(Latin1MbWc, width, v, lens);
      assert Latin1Padded(v)[offset.n..] == [];
    } else {
      var k := Latin1DrainStep(width, v, lens, offset);
      Latin1DrainFrom(width, v, lens[1..], Offset(k));
      UnitsSplit(Latin1Padded(v), Start(offset), k);
    }
  }

  /** At the fill length a drain delivers nothing more and stays there. */
  lemma WDrainEnd(mbwc: MbWc, width: WideWidth, v: WValue, lens: seq<nat>)
    requires WellFormed(v) && |lens| > 0 && lens[0] != 0
    ensures WDrain(mbwc, width, v, lens, Offset(WFillLen(v)), false) == ([], Offset(WFillLen(v)))
  {
    assert WStatus(v, lens[0], Offset(WFillLen(v))) == NoData;
  }

  lemma UnitsSplit(p: seq<nat>, i: nat, k: nat)
    requires i <= k <= |p|
    ensures p[i..] == p[i..k] + p[k..]
  {
  }

  /** One call of an ISO-8859-1 drain: it delivers the padded value up to `k`, and the
      drain goes on from `k`. */
  lemma Latin1DrainStep(width: WideWidth, v: WValue, lens: seq<nat>, offset: Cursor) returns (k: nat)
    requires WellFormed(v) && |lens| > 0 && lens[0] >= 2
    requires offset.NotStarted? || offset.n < WFillLen(v)
    ensures Start(offset) <= k <= WFillLen(v)
    ensures Start(offset) < WFillLen(v) ==> Start(offset) < k
    ensures var rest := WDrain(Latin1MbWc, width, v, lens[1..], Offset(k), false);
      WDrain(Latin1MbWc, width, v, lens, offset, false) == (Latin1Padded(v)[Start(offset)..k] + rest.0, rest.1)
  {
    k := Latin1Call(width, v, lens[0], offset);
    assert WStatus(v, lens[0], offset) != NoData;
  }

  /** Reading a whole ISO-8859-1 value in wide chunks: from the first call on,
      successive calls with buffers of two units or more deliver exactly the padded
      value, and then every further call with a buffer returns "no data". */
  lemma Latin1DrainDelivers(width: WideWidth, v: WValue, lens: seq<nat>, resultLen: nat)
    requires WellFormed(v) && forall i :: 0 <= i < |lens| ==> lens[i] >= 2
    requires |lens| >= WFillLen(v) + 2 && resultLen != 0
    ensures WDrain(Latin1MbWc, width, v, lens, NotStarted, false).0 == Latin1Padded(v)
    ensures WStatus(v, resultLen, WDrain(Latin1MbWc, width, v, lens, NotStarted, false).1) == NoData
  {
    Latin1DrainFrom(width, v, lens, NotStarted);
    assert Latin1Padded(v)[0..] == Latin1Padded(v);
  }

  /** With the driver's cursor, a padded value whose source is used up is never
      finished: from the source length on, every call with a buffer of two units
      or more writes at least one space and leaves the cursor where it was, so
      however many calls are made, none returns "no data". */
  lemma {:induction false} AsWrittenDrainStalls(mbwc: MbWc, width: WideWidth, v: WValue, lens: seq<nat>)
    requires WellFormed(v) && WSrcLen(v) < WFillLen(v)
    requires forall i :: 0 <= i < |lens| ==> lens[i] >= 2
    ensures WDrain(mbwc, width, v, lens, Offset(WSrcLen(v)), true).1 == Offset(WSrcLen(v))
    ensures |WDrain(mbwc, width, v, lens, Offset(WSrcLen(v)), true).0| >= |lens|
    decreases |lens|
  {
    if |lens| != 0 {
      AsWrittenPaddingStalls(mbwc, width, v, lens[0]);
      AsWrittenDrainStalls(mbwc, width, v, lens[1..]);
    }
  }
}
