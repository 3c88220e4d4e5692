/** `copy_and_convert`: re-encode a byte run from one character set into another,
    one character at a time, substituting '?' for what cannot be converted.
    The two character sets are given by their `mb_wc` and `wc_mb` callbacks. */
module Transcoder {
  import opened Common
  import opened Charset

  type MbWc = seq<Byte> -> Decoded
  type WcMb = (nat, nat) -> Encoded

  /** The outcome of one conversion: the bytes written to `to`, how much of `from`
      was converted (a character decoded on the turn where the encoder gives up is
      not counted in it), the error count stored in `*errors`, and the characters that were
      written (after any '?' substitution). */
  datatype Conversion = Conversion(out: seq<Byte>, consumed: nat, errors: nat, chars: seq<nat>)

  /** One turn of the decoding half, given the decoder's report on the `avail`
      bytes left: the character to emit, how far to advance, and the errors counted;
      `None` when the decoder wants more input. A report that would not move forward
      within `avail` bytes (which the driver's character sets never give) also stops. */
  function DecodeStep(d: Decoded, avail: nat): (r: Option<(nat, nat, nat)>)
    ensures r.Some? ==> 1 <= r.value.1 <= avail && r.value.2 <= 1
  {
    if !DecodedWithin(d, avail) then None
    else
      match d
      case Ok(wc, n) => Some((wc, n, 0))
      case Illegal => Some((QuestionMark, 1, 1))
      case Unmapped(n) => Some((QuestionMark, n, 1))
      case TooSmall => None
  }

  /** One turn of the encoding half, with the single retry as '?' for a character
      the target cannot encode: the character written and its bytes (if any), and
      the errors counted. A write that would pass `to_end` counts as no room. */
  function EncodeStep(wcmb: WcMb, wc: nat, room: nat): (r: (Option<(nat, seq<Byte>)>, nat))
    ensures r.0.Some? ==> 1 <= |r.0.value.1| <= room
    ensures r.1 <= 1
  {
    var e := wcmb(wc, room);
    if e.Written? && EncodedWithin(e, room) then (Some((wc, e.bytes)), 0)
    else if e.Unencodable? && wc != QuestionMark then
      var q := wcmb(QuestionMark, room);
      if q.Written? && EncodedWithin(q, room) then (Some((QuestionMark, q.bytes)), 1)
      else (None, 1)
    else (None, 0)
  }

  /** Where one turn of the loop leaves the conversion: go on from `Next(c)`, or
      the loop breaks and `Last(c)` is the result. */
  datatype Turned = Next(c: Conversion) | Last(c: Conversion)

  /** One turn of the loop: decode the next character at `c.consumed`, encode it
      into the room left before `to_end`. The loop breaks when the decoder wants more
      input or the encoder gives up; the errors of that last turn are still counted. */
  function Step(mbwc: MbWc, wcmb: WcMb, from: seq<Byte>, toLength: nat, c: Conversion): (t: Turned)
    requires c.consumed <= |from| && |c.out| <= toLength
    ensures c.consumed <= t.c.consumed <= |from| && c.errors <= t.c.errors <= c.errors + 2
    ensures |c.out| <= |t.c.out| <= toLength && t.c.out[..|c.out|] == c.out
    ensures t.Last? ==> t.c.out == c.out && t.c.chars == c.chars && t.c.consumed == c.consumed
    ensures |t.c.chars| == |c.chars| + (if t.Next? then 1 else 0)
    ensures t.Next? ==> c.consumed < t.c.consumed && |c.out| < |t.c.out| && t.c.chars[..|c.chars|] == c.chars
  {
    match DecodeStep(mbwc(from[c.consumed..]), |from| - c.consumed)
    case None => Last(c)
    case Some((wc, adv, e1)) =>
      match EncodeStep(wcmb, wc, toLength - |c.out|)
      case (None, e2) => Last(Conversion(c.out, c.consumed, c.errors + e1 + e2, c.chars))
      case (Some((ch, b)), e2) =>
        assert (c.out + b)[..|c.out|] == c.out && (c.chars + [ch])[..|c.chars|] == c.chars;
        Next(Conversion(c.out + b, c.consumed + adv, c.errors + e1 + e2, c.chars + [ch]))
  }

  /** The conversion from the state `c` on: turn after turn until the loop breaks. */
  function Run(mbwc: MbWc, wcmb: WcMb, from: seq<Byte>, toLength: nat, c: Conversion): Conversion
    requires c.consumed <= |from| && |c.out| <= toLength
    decreases |from| - c.consumed
  {
    match Step(mbwc, wcmb, from, toLength, c)
    case Last(r) => r
    case Next(n) => Run(mbwc, wcmb, from, toLength, n)
  }

  /** The whole conversion of `from` into a buffer of `toLength` bytes: whatever the
      character sets, it never returns more than `to_length` bytes, never reads past
      `from_length`, and writes at least one byte per character. */
  function Convert(mbwc: MbWc, wcmb: WcMb, from: seq<Byte>, toLength: nat): (r: Conversion)
    ensures |r.out| <= toLength && r.consumed <= |from| && |r.chars| <= |r.out|
  {
    RunBounds(mbwc, wcmb, from, toLength, Conversion([], 0, 0, []));
    Run(mbwc, wcmb, from, toLength, Conversion([], 0, 0, []))
  }

  /** Whatever the character sets, the conversion only moves forward: it keeps
      what was already converted, stays within `from` and within `to_length`
      bytes, and writes at least one byte for every character it emits. */
  lemma {:induction false} RunBounds(mbwc: MbWc, wcmb: WcMb, from: seq<Byte>, toLength: nat, c: Conversion)
    requires c.consumed <= |from| && |c.out| <= toLength
    ensures var r := Run(mbwc, wcmb, from, toLength, c);
      && c.consumed <= r.consumed <= |from| && |c.out| <= |r.out| <= toLength
      && r.out[..|c.out|] == c.out && |c.chars| <= |r.chars| && r.chars[..|c.chars|] == c.chars
      && |r.chars| - |c.chars| <= |r.out| - |c.out| && c.errors <= r.errors
    decreases |from| - c.consumed
  {
    match Step(mbwc, wcmb, from, toLength, c)
    case Last(r) =>
    case Next(n) =>
      RunBounds(mbwc, wcmb, from, toLength, n);
      var r := Run(mbwc, wcmb, from, toLength, n);
      assert r.out[..|c.out|] == r.out[..|n.out|][..|c.out|];
      assert r.chars[..|c.chars|] == r.chars[..|n.chars|][..|c.chars|];
  }

  /** Whether a turn replaces the character it reads by '?': the decoder found an
      illegal sequence, or a well-formed one without a Unicode mapping, or the target
      character set has no encoding for the character (and it is not '?' itself). */
  predicate Substituted(d: Decoded, wcmb: WcMb, room: nat)
  {
    !d.Ok? || (wcmb(d.wc, room).Unencodable? && d.wc != QuestionMark)
  }

  /** How far a decoder report moves `from`: one byte past an illegal sequence,
      otherwise the bytes the decoder names. */
  function Advance(d: Decoded): nat
  {
    match d
    case Ok(_, n) => n
    case Unmapped(n) => n
    case _ => 1
  }

  /** One turn of the loop in terms of what the two callbacks report. When the
      decoder wants more input the loop stops with nothing changed. Otherwise the
      character to write is the one decoded, or '?' in its place when the turn
      substitutes, and exactly a substituting turn counts one error. The turn goes
      on exactly when the encoder writes that character within the room left, and
      then `to` grows by its bytes and `from` moves past what was decoded; when it
      cannot write it, the loop stops, keeping only the error count. */
  lemma TurnRule(mbwc: MbWc, wcmb: WcMb, from: seq<Byte>, toLength: nat, c: Conversion)
    requires c.consumed <= |from| && |c.out| <= toLength
    ensures var d := mbwc(from[c.consumed..]);
      var t := Step(mbwc, wcmb, from, toLength, c);
      d.TooSmall? ==> t == Last(c)
    ensures var d := mbwc(from[c.consumed..]);
      var room := toLength - |c.out|;
      var t := Step(mbwc, wcmb, from, toLength, c);
      var ch := if Substituted(d, wcmb, room) then QuestionMark else d.wc;
      var e := wcmb(ch, room);
      DecodedWithin(d, |from| - c.consumed) && !d.TooSmall? ==>
        && t.c.errors == c.errors + (if Substituted(d, wcmb, room) then 1 else 0)
        && (t.Next? <==> e.Written? && EncodedWithin(e, room))
        && (t.Next? ==> t.c == Conversion(c.out + e.bytes, c.consumed + Advance(d), t.c.errors, c.chars + [ch]))
        && (t.Last? ==> t.c.out == c.out && t.c.consumed == c.consumed && t.c.chars == c.chars)
  {
  }

  /** With utf8 on both sides and room left, an ASCII byte is copied as itself. */
  lemma Utf8AsciiTurn(from: seq<Byte>, toLength: nat, c: Conversion)
    requires c.consumed < |from| && |c.out| < toLength && from[c.consumed] < 0x80
    ensures var b := from[c.consumed];
      Step(Utf8MbWc, Utf8WcMb, from, toLength, c)
        == Next(Conversion(c.out + [b], c.consumed + 1, c.errors, c.chars + [b as nat]))
  {
    var d := Utf8MbWc(from[c.consumed..]);
    assert d == Ok(from[c.consumed], 1);
    Utf8RoundTrip(from[c.consumed], []);
    TurnRule(Utf8MbWc, Utf8WcMb, from, toLength, c);
  }

  /** With utf8 on both sides and room left, a byte that cannot start a UTF-8
      sequence is replaced by '?', counted as one error, and stepped over. */
  lemma Utf8IllegalTurn(from: seq<Byte>, toLength: nat, c: Conversion)
    requires c.consumed < |from| && |c.out| < toLength && 0x80 <= from[c.consumed] < 0xC2
    ensures Step(Utf8MbWc, Utf8WcMb, from, toLength, c)
      == Next(Conversion(c.out + [QuestionMark as Byte], c.consumed + 1, c.errors + 1, c.chars + [QuestionMark]))
  {
    assert Utf8MbWc(from[c.consumed..]) == Illegal;
    Utf8RoundTrip(QuestionMark, []);
    TurnRule(Utf8MbWc, Utf8WcMb, from, toLength, c);
  }

  /** A continuation byte between two letters is read as '?' with one error, and
      the conversion carries on past it. */
  lemma IllegalByteSubstituted()
    ensures Convert(Utf8MbWc, Utf8WcMb, [0x61, 0x80, 0x62], 12)
      == Conversion([0x61, QuestionMark as Byte, 0x62], 3, 1, [0x61, QuestionMark, 0x62])
  {
    var from: seq<Byte> := [0x61, 0x80, 0x62];
    var c0 := Conversion([], 0, 0, []);
    var c1 := Conversion([0x61], 1, 0, [0x61]);
    var c2 := Conversion([0x61, QuestionMark as Byte], 2, 1, [0x61, QuestionMark]);
    var c3 := Conversion([0x61, QuestionMark as Byte, 0x62], 3, 1, [0x61, QuestionMark, 0x62]);
    IllegalByteTurns(from, c0, c1, c2, c3);
    assert Run(Utf8MbWc, Utf8WcMb, from, 12, c2) == Run(Utf8MbWc, Utf8WcMb, from, 12, c3) == c3;
    assert Run(Utf8MbWc, Utf8WcMb, from, 12, c0) == Run(Utf8MbWc, Utf8WcMb, from, 12, c1);
  }

  lemma IllegalByteTurns(from: seq<Byte>, c0: Conversion, c1: Conversion, c2: Conversion, c3: Conversion)
    requires from == [0x61, 0x80, 0x62] && c0 == Conversion([], 0, 0, [])
    requires c1 == Conversion([0x61], 1, 0, [0x61])
    requires c2 == Conversion([0x61, QuestionMark as Byte], 2, 1, [0x61, QuestionMark])
    requires c3 == Conversion([0x61, QuestionMark as Byte, 0x62], 3, 1, [0x61, QuestionMark, 0x62])
    ensures Step(Utf8MbWc, Utf8WcMb, from, 12, c0) == Next(c1)
    ensures Step(Utf8MbWc, Utf8WcMb, from, 12, c1) == Next(c2)
    ensures Step(Utf8MbWc, Utf8WcMb, from, 12, c2) == Next(c3)
    ensures Step(Utf8MbWc, Utf8WcMb, from, 12, c3) == Last(c3)
  {
    Utf8AsciiTurn(from, 12, c0);
    Utf8IllegalTurn(from, 12, c1);
    Utf8AsciiTurn(from, 12, c2);
    assert from[3..] == [];
    TurnRule(Utf8MbWc, Utf8WcMb, from, 12, c3);
  }

  /** `from` reads, with the decoder `mbwc`, as the characters `cs`: the i-th of
      them takes the bytes from `at[i]` up to `at[i + 1]`, and what follows the
      last is too little input for the decoder (nothing, or a character cut short). */
  predicate DecodesAs(mbwc: MbWc, from: seq<Byte>, cs: seq<nat>, at: seq<nat>)
  {
    && |at| == |cs| + 1 && at[0] == 0
    && (forall i :: 0 <= i < |at| ==> at[i] <= |from|)
    && (forall i :: 0 <= i < |cs| ==> at[i] < at[i + 1] && mbwc(from[at[i]..]) == Ok(cs[i], at[i + 1] - at[i]))
    && mbwc(from[at[|cs|]..]).TooSmall?
  }

  /** The conversion state after the first `k` characters of `cs`, written in UTF-8. */
  function Decoded(cs: seq<nat>, at: seq<nat>, k: nat): (c: Conversion)
    requires AllScalar(cs) && k <= |cs| && |at| == |cs| + 1
    ensures c.chars == cs[..k] && c.consumed == at[k] && c.errors == 0
  {
    assert AllScalar(cs[..k]) by {
      forall i | 0 <= i < k ensures IsScalar(cs[..k][i]) { assert cs[..k][i] == cs[i]; }
    }
    Conversion(Utf8Concat(cs[..k]), at[k], 0, cs[..k])
  }

  /** After `k` characters the UTF-8 written so far is a prefix of the whole, and
      the room left holds the next character's form. */
  lemma DecodedRoom(cs: seq<nat>, at: seq<nat>, k: nat)
    requires AllScalar(cs) && k <= |cs| && |at| == |cs| + 1
    ensures |Decoded(cs, at, k).out| <= |Utf8Concat(cs)|
    ensures k < |cs| ==> |Decoded(cs, at, k).out| + |Utf8Encode(cs[k])| <= |Utf8Concat(cs)|
    ensures k < |cs| ==> Decoded(cs, at, k + 1).out == Decoded(cs, at, k).out + Utf8Encode(cs[k])
  {
    assert cs[..k] + cs[k..] == cs;
    Utf8ConcatAppend(cs[..k], cs[k..]);
    if k < |cs| {
      assert cs[k..][0] == cs[k] && cs[k..][1..] == cs[k + 1..];
      Utf8ConcatSnoc(cs[..k], cs[k]);
      assert cs[..k] + [cs[k]] == cs[..k + 1];
    }
  }

  /** One turn over a text that reads as `cs`: the `k`-th character is decoded and
      written as it is, or, after the last, the loop stops. */
  lemma DecodesAsStep(mbwc: MbWc, from: seq<Byte>, toLength: nat, cs: seq<nat>, at: seq<nat>, k: nat)
    requires DecodesAs(mbwc, from, cs, at) && AllScalar(cs) && k <= |cs|
    requires |Utf8Concat(cs)| <= toLength
    ensures |Decoded(cs, at, k).out| <= toLength
    ensures k < |cs| ==> Step(mbwc, Utf8WcMb, from, toLength, Decoded(cs, at, k)) == Next(Decoded(cs, at, k + 1))
    ensures k == |cs| ==> Step(mbwc, Utf8WcMb, from, toLength, Decoded(cs, at, k)) == Last(Decoded(cs, at, k))
  {
    DecodedRoom(cs, at, k);
    if k < |cs| {
      assert cs[..k] + [cs[k]] == cs[..k + 1];
    }
  }

  /** Into utf8 with room enough, the conversion from the `k`-th character on
      writes the UTF-8 form of every remaining character, substitutes nothing, and
      stops where the decoder asks for more input. */
  lemma {:induction false} RunDecodesAs(mbwc: MbWc, from: seq<Byte>, toLength: nat, cs: seq<nat>,
                                        at: seq<nat>, k: nat)
    requires DecodesAs(mbwc, from, cs, at) && AllScalar(cs) && k <= |cs|
    requires |Utf8Concat(cs)| <= toLength
    ensures |Decoded(cs, at, k).out| <= toLength
    ensures Run(mbwc, Utf8WcMb, from, toLength, Decoded(cs, at, k)) == Decoded(cs, at, |cs|)
    decreases |cs| - k
  {
    DecodesAsStep(mbwc, from, toLength, cs, at, k);
    if k < |cs| {
      RunDecodesAs(mbwc, from, toLength, cs, at, k + 1);
    }
  }

  /** A text that reads as the characters `cs` converts into utf8, with room for
      their UTF-8 forms, to exactly those forms: every character kept, no error,
      and `from` consumed up to the end of the last whole character. */
  lemma ConvertDecodesAs(mbwc: MbWc, from: seq<Byte>, toLength: nat, cs: seq<nat>, at: seq<nat>)
    requires DecodesAs(mbwc, from, cs, at) && AllScalar(cs)
    requires |Utf8Concat(cs)| <= toLength
    ensures Convert(mbwc, Utf8WcMb, from, toLength) == Conversion(Utf8Concat(cs), at[|cs|], 0, cs)
  {
    RunDecodesAs(mbwc, from, toLength, cs, at, 0);
    assert cs[..0] == [] && cs[..|cs|] == cs;
    assert Decoded(cs, at, 0) == Conversion([], 0, 0, []);
  }

  /** ISO-8859-1 into utf8, with room for the result (four bytes per source byte are
      always enough): every byte becomes the character of the same number, written
      in UTF-8, nothing is substituted and the whole input is consumed. */
  lemma ConvertLatin1(from: seq<Byte>, toLength: nat)
    requires |Utf8Concat(Latin1Chars(from))| <= toLength
    ensures Convert(Latin1MbWc, Utf8WcMb, from, toLength)
      == Conversion(Utf8Concat(Latin1Chars(from)), |from|, 0, Latin1Chars(from))
  {
    var cs := Latin1Chars(from);
    var at := seq(|from| + 1, i => i);
    forall i | 0 <= i <= |from|
      ensures i < |from| ==> Latin1MbWc(from[i..]) == Ok(cs[i], 1)
      ensures i == |from| ==> Latin1MbWc(from[i..]) == TooSmall
    {
      Latin1Decodes(from, i);
    }
    assert DecodesAs(Latin1MbWc, from, cs, at);
    ConvertDecodesAs(Latin1MbWc, from, toLength, cs, at);
  }

  /** The UTF-8 text of `a`, a character `c` and `b`, extended by `tail`: after the
      text of `a` come the form of `c`, the text of `b` and `tail`. */
  lemma Utf8Around(a: seq<nat>, c: nat, b: seq<nat>, tail: seq<Byte>)
    requires AllScalar(a) && IsScalar(c) && AllScalar(b)
    ensures AllScalar(a + [c] + b)
    ensures |Utf8Concat(a)| <= |Utf8Concat(a + [c] + b)|
    ensures (Utf8Concat(a + [c] + b) + tail)[|Utf8Concat(a)|..] == Utf8Encode(c) + (Utf8Concat(b) + tail)
  {
    var cb := [c] + b;
    assert AllScalar(cb) by {
      forall j | 0 <= j < |cb| ensures IsScalar(cb[j]) { if j > 0 { assert cb[j] == b[j - 1]; } }
    }
    assert cb[0] == c && cb[1..] == b;
    assert Utf8Concat(cb) == Utf8Encode(c) + Utf8Concat(b);
    Utf8ConcatAppend(a, cb);
    assert a + [c] + b == a + cb;
    DropFront(Utf8Concat(a + cb), Utf8Concat(a), Utf8Concat(cb), tail);
  }

  /** What follows `front` in `front + mid`, extended by `tail`. */
  lemma DropFront(x: seq<Byte>, front: seq<Byte>, mid: seq<Byte>, tail: seq<Byte>)
    requires x == front + mid
    ensures |front| <= |x| && (x + tail)[|front|..] == mid + tail
  {
    assert x + tail == front + (mid + tail);
  }

  /** Where the i-th character of a UTF-8 text starts, the decoder reads it back. */
  lemma Utf8At(cs: seq<nat>, tail: seq<Byte>, i: nat)
    requires AllScalar(cs) && i < |cs|
    ensures AllScalar(cs[..i]) && |Utf8Concat(cs[..i])| <= |Utf8Concat(cs)|
    ensures Utf8MbWc((Utf8Concat(cs) + tail)[|Utf8Concat(cs[..i])|..]) == Ok(cs[i], |Utf8Encode(cs[i])|)
  {
    var a, c, b := cs[..i], cs[i], cs[i + 1..];
    AllScalarSlice(cs, 0, i);
    AllScalarSlice(cs, i + 1, |cs|);
    assert cs[0..i] == a && cs[i + 1..|cs|] == b;
    assert cs == a + [c] + b;
    Utf8Around(a, c, b, tail);
    Utf8RoundTrip(c, Utf8Concat(b) + tail);
  }

  /** Where each character of a UTF-8 text starts, and where the last one ends. */
  function Utf8Offsets(cs: seq<nat>): (at: seq<nat>)
    requires AllScalar(cs)
    ensures |at| == |cs| + 1
    ensures forall i :: 0 <= i <= |cs| ==> AllScalar(cs[..i]) && at[i] == |Utf8Concat(cs[..i])|
  {
    assert forall i :: 0 <= i <= |cs| ==> AllScalar(cs[..i]) by {
      forall i, j | 0 <= i <= |cs| && 0 <= j < i ensures IsScalar(cs[..i][j]) { assert cs[..i][j] == cs[j]; }
    }
    seq(|cs| + 1, i requires 0 <= i <= |cs| => |Utf8Concat(cs[..i])|)
  }

  /** The UTF-8 forms of `cs`, then a character cut short (or nothing), read with
      the utf8 decoder as `cs`. */
  lemma Utf8DecodesAs(cs: seq<nat>, tail: seq<Byte>)
    requires AllScalar(cs) && Utf8MbWc(tail) == TooSmall
    ensures DecodesAs(Utf8MbWc, Utf8Concat(cs) + tail, cs, Utf8Offsets(cs))
  {
    var from := Utf8Concat(cs) + tail;
    var at := Utf8Offsets(cs);
    forall i | 0 <= i < |at|
      ensures at[i] <= |from|
    {
      Utf8OffsetBound(cs, i);
    }
    forall i | 0 <= i < |cs|
      ensures at[i] < at[i + 1] && Utf8MbWc(from[at[i]..]) == Ok(cs[i], at[i + 1] - at[i])
    {
      Utf8OffsetAt(cs, tail, i);
    }
    assert at[0] == 0 by { assert cs[..0] == []; }
    assert from[at[|cs|]..] == tail by { assert cs[..|cs|] == cs; }
    assert Utf8MbWc(from[at[|cs|]..]).TooSmall?;
  }

  /** The `i`-th offset lies within the text. */
  lemma Utf8OffsetBound(cs: seq<nat>, i: nat)
    requires AllScalar(cs) && i <= |cs|
    ensures Utf8Offsets(cs)[i] <= |Utf8Concat(cs)|
  {
    DecodedRoom(cs, Utf8Offsets(cs), i);
  }

  /** The `i`-th character is decoded at the `i`-th offset, up to the next one. */
  lemma Utf8OffsetAt(cs: seq<nat>, tail: seq<Byte>, i: nat)
    requires AllScalar(cs) && i < |cs|
    ensures Utf8Offsets(cs)[i] < Utf8Offsets(cs)[i + 1] <= |Utf8Concat(cs)|
    ensures Utf8MbWc((Utf8Concat(cs) + tail)[Utf8Offsets(cs)[i]..])
      == Ok(cs[i], Utf8Offsets(cs)[i + 1] - Utf8Offsets(cs)[i])
  {
    var at := Utf8Offsets(cs);
    DecodedRoom(cs, at, i);
    DecodedRoom(cs, at, i + 1);
    Utf8At(cs, tail, i);
  }

  /** utf8 into utf8 gives the text back: the UTF-8 forms of `cs`, followed by the
      start of a character cut short (or nothing), convert with room for them to
      exactly those forms, with no error, consuming every whole character and
      leaving the cut one for later. */
  lemma ConvertUtf8(cs: seq<nat>, tail: seq<Byte>, toLength: nat)
    requires AllScalar(cs) && Utf8MbWc(tail) == TooSmall
    requires |Utf8Concat(cs)| <= toLength
    ensures Convert(Utf8MbWc, Utf8WcMb, Utf8Concat(cs) + tail, toLength)
      == Conversion(Utf8Concat(cs), |Utf8Concat(cs)|, 0, cs)
  {
    Utf8DecodesAs(cs, tail);
    ConvertDecodesAs(Utf8MbWc, Utf8Concat(cs) + tail, toLength, cs, Utf8Offsets(cs));
    assert cs[..|cs|] == cs;
  }

  /** What the utf8 encoder step writes is the UTF-8 form of a scalar value. */
  lemma Utf8EncodeStep(wc: nat, room: nat)
    ensures var (w, _) := EncodeStep(Utf8WcMb, wc, room);
      w.Some? ==> IsScalar(w.value.0) && w.value.1 == Utf8Encode(w.value.0)
  {
  }

  /** With the utf8 encoder, one turn writes the UTF-8 form of the character it emits. */
  lemma Utf8StepOutput(mbwc: MbWc, from: seq<Byte>, toLength: nat, c: Conversion)
    requires c.consumed <= |from| && |c.out| <= toLength
    ensures var t := Step(mbwc, Utf8WcMb, from, toLength, c);
      t.Next? ==> var ch := t.c.chars[|c.chars|];
        IsScalar(ch) && t.c.chars == c.chars + [ch] && t.c.out == c.out + Utf8Encode(ch)
  {
    match DecodeStep(mbwc(from[c.consumed..]), |from| - c.consumed)
    case None =>
    case Some((wc, adv, e1)) =>
      Utf8EncodeStep(wc, toLength - |c.out|);
  }

  /** With the utf8 encoder, the bytes written are exactly the UTF-8 forms of the
      characters emitted, every one of them a Unicode scalar value (a character
      utf8 cannot encode is replaced by '?'). */
  lemma {:induction false} RunUtf8Output(mbwc: MbWc, from: seq<Byte>, toLength: nat, c: Conversion)
    requires c.consumed <= |from| && |c.out| <= toLength
    requires AllScalar(c.chars) && c.out == Utf8Concat(c.chars)
    ensures var r := Run(mbwc, Utf8WcMb, from, toLength, c);
      AllScalar(r.chars) && r.out == Utf8Concat(r.chars)
    decreases |from| - c.consumed
  {
    match Step(mbwc, Utf8WcMb, from, toLength, c)
    case Last(r) =>
    case Next(n) =>
      Utf8StepOutput(mbwc, from, toLength, c);
      var ch := n.chars[|c.chars|];
      Utf8ConcatSnoc(c.chars, ch);
      assert AllScalar(n.chars) by {
        forall i | 0 <= i < |n.chars| ensures IsScalar(n.chars[i]) {
          if i < |c.chars| { assert n.chars[i] == c.chars[i]; }
        }
      }
      RunUtf8Output(mbwc, from, toLength, n);
  }

  lemma ConvertUtf8Output(mbwc: MbWc, from: seq<Byte>, toLength: nat)
    ensures var r := Convert(mbwc, Utf8WcMb, from, toLength);
      AllScalar(r.chars) && r.out == Utf8Concat(r.chars)
  {
    RunUtf8Output(mbwc, from, toLength, Conversion([], 0, 0, []));
  }

  /** The decoding half of one turn of the loop in `copy_and_convert`: the
      character read from the front of `rest`, how far `from` moves and the errors
      counted, or `stop` when the decoder reports too little input. */
  method ReadChar(mbwc: MbWc, rest: seq<Byte>) returns (stop: bool, wc: nat, adv: nat, err: nat)
    ensures stop <==> DecodeStep(mbwc(rest), |rest|).None?
    ensures !stop ==> DecodeStep(mbwc(rest), |rest|) == Some((wc, adv, err))
  {
    wc, adv, err := 0, 0, 0;
    var d := mbwc(rest);
    if !DecodedWithin(d, |rest|) || d.TooSmall? {
      stop := true;  // not enough characters
    } else if d.Ok? {
      stop, wc, adv := false, d.wc, d.n;
    } else if d.Illegal? {
      stop, wc, adv, err := false, QuestionMark, 1, 1;
    } else {
      // a correct multibyte sequence without a Unicode mapping
      stop, wc, adv, err := false, QuestionMark, d.n, 1;
    }
  }

  /** The encoding half of one turn: write `wc` into `room` bytes, retrying once
      as '?' when the target character set has no encoding for it. */
  method WriteChar(wcmb: WcMb, wc: nat, room: nat) returns (written: bool, ch: nat, bytes: seq<Byte>, err: nat)
    ensures EncodeStep(wcmb, wc, room) == (if written then Some((ch, bytes)) else None, err)
  {
    ch, err := wc, 0;
    var e := wcmb(ch, room);
    if e.Unencodable? && ch != QuestionMark {
      err := 1;
      ch := QuestionMark;
      e := wcmb(ch, room);
    }
    written := e.Written? && EncodedWithin(e, room);
    bytes := if written then e.bytes else [];
  }

  /** One turn of the loop in `copy_and_convert`, from the state `(to, pos, errors)`
      to the next one; `more` is false when the loop breaks. */
  method Turn(mbwc: MbWc, wcmb: WcMb, from: seq<Byte>, toLength: nat,
              to: seq<Byte>, pos: nat, errors: nat, ghost chars: seq<nat>)
    returns (more: bool, to': seq<Byte>, pos': nat, errors': nat, ghost chars': seq<nat>)
    requires pos <= |from| && |to| <= toLength
    ensures Step(mbwc, wcmb, from, toLength, Conversion(to, pos, errors, chars))
      == if more then Next(Conversion(to', pos', errors', chars')) else Last(Conversion(to', pos', errors', chars'))
  {
    var stop, wc, adv, e1 := ReadChar(mbwc, from[pos..]);
    if stop {
      return false, to, pos, errors, chars;  // not enough characters
    }
    var written, ch, bytes, e2 := WriteChar(wcmb, wc, toLength - |to|);
    if !written {
      // `from` has moved, but the character never reached `to`
      return false, to, pos, errors + e1 + e2, chars;
    }
    return true, to + bytes, pos + adv, errors + e1 + e2, chars + [ch];
  }

  /** `copy_and_convert`: the loop of the driver, advancing `from` and `to` and
      counting errors; it computes exactly the conversion defined by `Convert`. */
  method CopyAndConvert(mbwc: MbWc, wcmb: WcMb, from: seq<Byte>, toLength: nat)
    returns (to: seq<Byte>, errors: nat, consumed: nat, ghost chars: seq<nat>)
    ensures Conversion(to, consumed, errors, chars) == Convert(mbwc, wcmb, from, toLength)
  {
    to, errors, chars := [], 0, [];
    var pos: nat := 0;
    var more := true;
    ghost var goal := Convert(mbwc, wcmb, from, toLength);
    while more
      invariant pos <= |from| && |to| <= toLength
      invariant more ==> Run(mbwc, wcmb, from, toLength, Conversion(to, pos, errors, chars)) == goal
      invariant !more ==> Conversion(to, pos, errors, chars) == goal
      decreases more, |from| - pos
    {
      more, to, pos, errors, chars := Turn(mbwc, wcmb, from, toLength, to, pos, errors, chars);
    }
    consumed := pos;
  }
}
