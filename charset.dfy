/** The character-set callbacks the transcoder drives (`mb_wc` decodes one character,
    `wc_mb` encodes one), and the Unicode encodings the wide reader uses: UTF-8 as in
    RFC 3629, UTF-16 as in section 2.1 of RFC 2781, and UTF-32. The connection's own
    character set stays abstract; Latin-1 is given as one concrete single-byte instance. */
module Charset {
  import opened Common

  /** What `mb_wc` reports: a character `wc` read from `n` bytes; an illegal byte
      sequence (`MY_CS_ILSEQ`); a well-formed sequence of `n` bytes without a Unicode
      mapping (a result between `MY_CS_TOOSMALL` and 0); or too little input. */
  datatype Decoded = Ok(wc: nat, n: nat) | Illegal | Unmapped(n: nat) | TooSmall

  /** What `wc_mb` reports: the bytes it wrote; `MY_CS_ILUNI` (no encoding for the
      character); or too little room before `to_end`. */
  datatype Encoded = Written(bytes: seq<Byte>) | Unencodable | NoRoom

  /** A decoder result that moves forward within the `avail` bytes it was shown. */
  predicate DecodedWithin(d: Decoded, avail: nat)
  {
    match d
    case Ok(_, n) => 1 <= n <= avail
    case Unmapped(n) => 1 <= n <= avail
    case Illegal => 1 <= avail
    case TooSmall => true
  }

  /** An encoder result that respects `to_end`: it writes between 1 and `room` bytes. */
  predicate EncodedWithin(e: Encoded, room: nat)
  {
    e.Written? ==> 1 <= |e.bytes| <= room
  }

  /** A Unicode scalar value: a code point that is not a surrogate. */
  predicate IsScalar(cp: nat)
  {
    cp <= 0x10FFFF && !(0xD800 <= cp <= 0xDFFF)
  }

  predicate AllScalar(cps: seq<nat>)
  {
    forall i :: 0 <= i < |cps| ==> IsScalar(cps[i])
  }

  /** A slice of a text of scalar values holds only scalar values. */
  lemma AllScalarSlice(cps: seq<nat>, lo: nat, hi: nat)
    requires AllScalar(cps) && lo <= hi <= |cps|
    ensures AllScalar(cps[lo..hi])
  {
    forall j | 0 <= j < hi - lo ensures IsScalar(cps[lo..hi][j]) { assert cps[lo..hi][j] == cps[lo + j]; }
  }

  predicate IsContinuation(b: Byte)
  {
    0x80 <= b < 0xC0
  }

  /** The UTF-8 form of one scalar value (section 3 of RFC 3629). */
  function Utf8Encode(cp: nat): (r: seq<Byte>)
    requires IsScalar(cp)
    ensures 1 <= |r| <= 4
    ensures |r| == 1 <==> cp < 0x80
    ensures |r| == 4 <==> cp >= 0x10000
  {
    if cp < 0x80 then [cp]
    else if cp < 0x800 then [0xC0 + cp / 64, 0x80 + cp % 64]
    else if cp < 0x10000 then [0xE0 + cp / 4096, 0x80 + (cp / 64) % 64, 0x80 + cp % 64]
    else [0xF0 + cp / 262144, 0x80 + (cp / 4096) % 64, 0x80 + (cp / 64) % 64, 0x80 + cp % 64]
  }

  /** `mb_wc` of the utf8 character set: decode the first UTF-8 sequence of `s`,
      rejecting overlong forms, surrogates and values above U+10FFFF (RFC 3629). */
  function Utf8MbWc(s: seq<Byte>): (d: Decoded)
    ensures DecodedWithin(d, |s|)
    ensures d.Ok? ==> IsScalar(d.wc)
    ensures !d.Unmapped?
  {
    if |s| == 0 then TooSmall
    else if s[0] < 0x80 then Ok(s[0], 1)
    else if s[0] < 0xC2 then Illegal
    else if s[0] < 0xE0 then
      if |s| < 2 then TooSmall
      else if !IsContinuation(s[1]) then Illegal
      else Ok((s[0] as int - 0xC0) * 64 + (s[1] as int - 0x80), 2)
    else if s[0] < 0xF0 then
      if |s| < 3 then TooSmall
      else if !IsContinuation(s[1]) || !IsContinuation(s[2]) then Illegal
      else
        var cp := (s[0] as int - 0xE0) * 4096 + (s[1] as int - 0x80) * 64 + (s[2] as int - 0x80);
        if cp < 0x800 || 0xD800 <= cp <= 0xDFFF then Illegal else Ok(cp, 3)
    else if s[0] < 0xF5 then
      if |s| < 4 then TooSmall
      else if !IsContinuation(s[1]) || !IsContinuation(s[2]) || !IsContinuation(s[3]) then Illegal
      else
        var cp := (s[0] as int - 0xF0) * 262144 + (s[1] as int - 0x80) * 4096 + (s[2] as int - 0x80) * 64 + (s[3] as int - 0x80);
        if cp < 0x10000 || cp > 0x10FFFF then Illegal else Ok(cp, 4)
    else Illegal
  }

  /** `wc_mb` of the utf8 character set: encode `wc` into at most `room` bytes. */
  function Utf8WcMb(wc: nat, room: nat): (e: Encoded)
    ensures EncodedWithin(e, room)
    ensures e.Written? <==> IsScalar(wc) && |Utf8Encode(wc)| <= room
    ensures e.Unencodable? <==> !IsScalar(wc)
  {
    if !IsScalar(wc) then Unencodable
    else if |Utf8Encode(wc)| > room then NoRoom
    else Written(Utf8Encode(wc))
  }

  /** Decoding the UTF-8 form of a scalar value gives the value back, whatever follows. */
  lemma Utf8RoundTrip(cp: nat, rest: seq<Byte>)
    requires IsScalar(cp)
    ensures Utf8MbWc(Utf8Encode(cp) + rest) == Ok(cp, |Utf8Encode(cp)|)
  {
    if cp < 0x80 {
    } else if cp < 0x800 {
      Utf8RoundTrip2(cp, rest);
    } else if cp < 0x10000 {
      Utf8RoundTrip3(cp, rest);
    } else {
      Utf8RoundTrip4(cp, rest);
    }
  }

  lemma Utf8RoundTrip2(cp: nat, rest: seq<Byte>)
    requires 0x80 <= cp < 0x800
    ensures Utf8MbWc(Utf8Encode(cp) + rest) == Ok(cp, 2)
  {
    var s := Utf8Encode(cp) + rest;
    assert s[0] == 0xC0 + cp / 64 && s[1] == 0x80 + cp % 64;
    assert (s[0] as int - 0xC0) * 64 + (s[1] as int - 0x80) == cp;
  }

  lemma Utf8RoundTrip3(cp: nat, rest: seq<Byte>)
    requires 0x800 <= cp < 0x10000 && IsScalar(cp)
    ensures Utf8MbWc(Utf8Encode(cp) + rest) == Ok(cp, 3)
  {
    var s := Utf8Encode(cp) + rest;
    var hi, mid, lo := cp / 4096, (cp / 64) % 64, cp % 64;
    assert s[0] == 0xE0 + hi && s[1] == 0x80 + mid && s[2] == 0x80 + lo;
    assert hi * 4096 + mid * 64 + lo == cp;
  }

  lemma Utf8RoundTrip4(cp: nat, rest: seq<Byte>)
    requires 0x10000 <= cp <= 0x10FFFF
    ensures Utf8MbWc(Utf8Encode(cp) + rest) == Ok(cp, 4)
  {
    var s := Utf8Encode(cp) + rest;
    var b0, b1, b2, b3 := cp / 262144, (cp / 4096) % 64, (cp / 64) % 64, cp % 64;
    assert s[0] == 0xF0 + b0 && s[1] == 0x80 + b1 && s[2] == 0x80 + b2 && s[3] == 0x80 + b3;
    assert b0 * 64 + b1 == cp / 4096;
    assert cp / 4096 * 64 + b2 == cp / 64;
    assert b0 * 262144 + b1 * 4096 + b2 * 64 + b3 == cp;
  }

  /** The concatenated UTF-8 forms of a sequence of scalar values. */
  function Utf8Concat(cps: seq<nat>): (r: seq<Byte>)
    requires AllScalar(cps)
    ensures |cps| <= |r| <= 4 * |cps|
  {
    if |cps| == 0 then [] else Utf8Encode(cps[0]) + Utf8Concat(cps[1..])
  }

  lemma {:induction false} Utf8ConcatSnoc(cps: seq<nat>, cp: nat)
    requires AllScalar(cps)
    requires IsScalar(cp)
    ensures Utf8Concat(cps + [cp]) == Utf8Concat(cps) + Utf8Encode(cp)
  {
    if |cps| == 0 {
      assert cps + [cp] == [cp];
    } else {
      assert (cps + [cp])[1..] == cps[1..] + [cp];
      Utf8ConcatSnoc(cps[1..], cp);
    }
  }

  /** The UTF-8 forms of two runs of characters are those of each, one after the other. */
  lemma {:induction false} Utf8ConcatAppend(a: seq<nat>, b: seq<nat>)
    requires AllScalar(a) && AllScalar(b)
    ensures AllScalar(a + b)
    ensures Utf8Concat(a + b) == Utf8Concat(a) + Utf8Concat(b)
    decreases |a|
  {
    assert AllScalar(a + b) by {
      forall i | 0 <= i < |a + b| ensures IsScalar((a + b)[i]) {
        if i < |a| { assert (a + b)[i] == a[i]; } else { assert (a + b)[i] == b[i - |a|]; }
      }
    }
    if |a| != 0 {
      assert (a + b)[1..] == a[1..] + b;
      assert AllScalar(a[1..]) by {
        forall i | 0 <= i < |a[1..]| ensures IsScalar(a[1..][i]) { assert a[1..][i] == a[i + 1]; }
      }
      Utf8ConcatAppend(a[1..], b);
    } else {
      assert a + b == b;
    }
  }

  /** A UTF-8 form cut short, before its last byte, is too little input for the
      decoder: it asks for more rather than reporting an illegal sequence. */
  lemma Utf8Partial(cp: nat, m: nat)
    requires IsScalar(cp) && m < |Utf8Encode(cp)|
    ensures Utf8MbWc(Utf8Encode(cp)[..m]) == TooSmall
  {
    var s := Utf8Encode(cp)[..m];
    if m != 0 {
      assert s[0] == Utf8Encode(cp)[0];
      if cp >= 0x10000 {
        assert cp / 262144 <= 4;
      }
    }
  }

  /** The UTF-16 form of one scalar value: one unit below U+10000, otherwise a
      surrogate pair (section 2.1 of RFC 2781). This is `utf32toutf16`. */
  function Utf16Encode(cp: nat): (r: seq<nat>)
    requires IsScalar(cp)
    ensures |r| == (if cp < 0x10000 then 1 else 2)
    ensures forall i :: 0 <= i < |r| ==> r[i] < 0x10000
  {
    if cp < 0x10000 then [cp]
    else [0xD800 + (cp - 0x10000) / 1024, 0xDC00 + (cp - 0x10000) % 1024]
  }

  /** Decoding of the first UTF-16 character of `w` (section 2.2 of RFC 2781):
      the scalar value and the number of units it used, or `None` for an
      unpaired surrogate or missing input. */
  function Utf16DecodeOne(w: seq<nat>): Option<(nat, nat)>
  {
    if |w| == 0 then None
    else if w[0] < 0xD800 || (0xDFFF < w[0] < 0x10000) then Some((w[0], 1))
    else if 0xD800 <= w[0] <= 0xDBFF && |w| >= 2 && 0xDC00 <= w[1] <= 0xDFFF then
      Some(((w[0] as int - 0xD800) * 1024 + (w[1] as int - 0xDC00) + 0x10000, 2))
    else None
  }

  /** The surrogate pairs written for a supplementary character decode back to it,
      so the wide reader never hands out a character a caller cannot reassemble. */
  lemma Utf16RoundTrip(cp: nat, rest: seq<nat>)
    requires IsScalar(cp)
    ensures Utf16DecodeOne(Utf16Encode(cp) + rest) == Some((cp, |Utf16Encode(cp)|))
  {
    var w := Utf16Encode(cp) + rest;
    if cp >= 0x10000 {
      assert w[0] == 0xD800 + (cp - 0x10000) / 1024 && w[1] == 0xDC00 + (cp - 0x10000) % 1024;
      assert (w[0] as int - 0xD800) * 1024 + (w[1] as int - 0xDC00) + 0x10000 == cp;
    }
  }

  /** The wide unit size of the build: `sizeof(SQLWCHAR)` is 2 or 4. */
  datatype WideWidth = Wide16 | Wide32

  /** The units `utf8toutf32` (and, for 2-byte `SQLWCHAR`, `utf32toutf16`) write
      for one scalar value. */
  function WideEncode(width: WideWidth, cp: nat): (r: seq<nat>)
    requires IsScalar(cp)
    ensures 1 <= |r| <= 2
    ensures width == Wide32 ==> r == [cp]
  {
    match width
    case Wide16 => Utf16Encode(cp)
    case Wide32 => [cp]
  }

  function WideConcat(width: WideWidth, cps: seq<nat>): (r: seq<nat>)
    requires AllScalar(cps)
    ensures |cps| <= |r| <= 2 * |cps|
  {
    if |cps| == 0 then [] else WideEncode(width, cps[0]) + WideConcat(width, cps[1..])
  }

  lemma {:induction false} WideConcatSnoc(width: WideWidth, cps: seq<nat>, cp: nat)
    requires AllScalar(cps)
    requires IsScalar(cp)
    ensures WideConcat(width, cps + [cp]) == WideConcat(width, cps) + WideEncode(width, cp)
  {
    if |cps| == 0 {
      assert cps + [cp] == [cp];
    } else {
      assert (cps + [cp])[1..] == cps[1..] + [cp];
      WideConcatSnoc(width, cps[1..], cp);
    }
  }

  /** The units of two runs of characters are the units of each, one after the other. */
  lemma {:induction false} WideConcatAppend(width: WideWidth, a: seq<nat>, b: seq<nat>)
    requires AllScalar(a) && AllScalar(b)
    ensures AllScalar(a + b)
    ensures WideConcat(width, a + b) == WideConcat(width, a) + WideConcat(width, b)
    decreases |a|
  {
    assert AllScalar(a + b) by {
      forall i | 0 <= i < |a + b| ensures IsScalar((a + b)[i]) {
        if i < |a| { assert (a + b)[i] == a[i]; } else { assert (a + b)[i] == b[i - |a|]; }
      }
    }
    if |a| != 0 {
      assert (a + b)[1..] == a[1..] + b;
      assert AllScalar(a[1..]) by {
        forall i | 0 <= i < |a[1..]| ensures IsScalar(a[1..][i]) { assert a[1..][i] == a[i + 1]; }
      }
      WideConcatAppend(width, a[1..], b);
    } else {
      assert a + b == b;
    }
  }

  /** A run of characters below U+10000 takes one unit each, in either width. */
  lemma {:induction false} WideConcatBmp(width: WideWidth, cps: seq<nat>)
    requires AllScalar(cps) && forall i :: 0 <= i < |cps| ==> cps[i] < 0x10000
    ensures WideConcat(width, cps) == cps
  {
    if |cps| != 0 {
      assert AllScalar(cps[1..]) by {
        forall i | 0 <= i < |cps[1..]| ensures IsScalar(cps[1..][i]) { assert cps[1..][i] == cps[i + 1]; }
      }
      WideConcatBmp(width, cps[1..]);
      assert cps == [cps[0]] + cps[1..];
    }
  }

  /** `mb_wc` of ISO-8859-1: every byte is the character with the same number. The
      server's latin1 is this table except in 0x80..0x9F, where it follows
      Windows-1252 (0x80 is U+20AC, for one); those bytes are not modelled. */
  function Latin1MbWc(s: seq<Byte>): (d: Decoded)
    ensures DecodedWithin(d, |s|)
    ensures |s| > 0 ==> d == Ok(s[0], 1)
  {
    if |s| == 0 then TooSmall else Ok(s[0], 1)
  }

  /** The characters of an ISO-8859-1 text: one per byte, numbered as the byte. */
  function Latin1Chars(s: seq<Byte>): (cps: seq<nat>)
    ensures |cps| == |s| && AllScalar(cps)
    ensures forall i :: 0 <= i < |s| ==> cps[i] == s[i] < 0x100
  {
    seq(|s|, i requires 0 <= i < |s| => s[i] as nat)
  }

  /** The ISO-8859-1 decoder reads every byte of a text as its own character. */
  lemma Latin1Decodes(s: seq<Byte>, i: nat)
    requires i <= |s|
    ensures i < |s| ==> Latin1MbWc(s[i..]) == Ok(Latin1Chars(s)[i], 1)
    ensures i == |s| ==> Latin1MbWc(s[i..]) == TooSmall
  {
    if i < |s| {
      assert s[i..][0] == s[i];
    } else {
      assert s[i..] == [];
    }
  }
}
