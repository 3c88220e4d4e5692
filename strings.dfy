/** The string helpers of the driver: escaping a catalog pattern, comparing names
    without regard to case, quoting a name into a query under construction, and
    the server version test. Character sets are single-byte throughout. */
module StringUtil {
  import opened Common
  import opened Codes

  // ------------------------------------------------------ myodbc_escape_wildcard

  const Backslash: Byte := 92

  /** The byte written after a backslash for a byte that must be escaped, or `None`
      for a byte copied as it is: NUL, newline, carriage return, backslash, both
      quotes, both wildcards and Ctrl-Z. */
  function EscapeCode(b: Byte): Option<Byte>
  {
    if b == 0 then Some(48)             // '0'
    else if b == 10 then Some(110)      // '\n' as 'n'
    else if b == 13 then Some(114)      // '\r' as 'r'
    else if b == 92 then Some(92)       // '\\'
    else if b == 39 then Some(39)       // '\''
    else if b == 34 then Some(34)       // '"'
    else if b == 95 then Some(95)       // '_'
    else if b == 37 then Some(37)       // '%'
    else if b == 26 then Some(90)       // '\032' as 'Z'
    else None
  }

  /** What one byte becomes: a backslash and its code, or the byte itself. */
  function Piece(b: Byte): (p: seq<Byte>)
    ensures 1 <= |p| <= 2
  {
    match EscapeCode(b)
    case Some(e) => [Backslash, e]
    case None => [b]
  }

  /** The escaped text of `from`, byte by byte. */
  function Escaped(from: seq<Byte>): (r: seq<Byte>)
    ensures |from| <= |r| <= 2 * |from|
  {
    if |from| == 0 then [] else Piece(from[0]) + Escaped(from[1..])
  }

  /** Escaping a concatenation escapes each part. */
  lemma {:induction false} EscapedAppend(a: seq<Byte>, b: seq<Byte>)
    ensures Escaped(a + b) == Escaped(a) + Escaped(b)
  {
    if |a| == 0 {
      assert a + b == b;
    } else {
      assert (a + b)[0] == a[0] && (a + b)[1..] == a[1..] + b;
      EscapedAppend(a[1..], b);
    }
  }

  /** One more byte of input is one more piece of output. */
  lemma EscapedSnoc(from: seq<Byte>, i: nat)
    requires i < |from|
    ensures Escaped(from[..i + 1]) == Escaped(from[..i]) + Piece(from[i])
  {
    assert from[..i + 1] == from[..i] + [from[i]];
    EscapedAppend(from[..i], [from[i]]);
    assert Escaped([from[i]]) == Piece(from[i]) + Escaped([]);
  }

  /** A longer prefix never escapes to less. */
  lemma EscapedGrows(from: seq<Byte>, i: nat, j: nat)
    requires i <= j <= |from|
    ensures |Escaped(from[..i])| <= |Escaped(from[..j])|
  {
    assert from[..j] == from[..i] + from[i..j];
    EscapedAppend(from[..i], from[i..j]);
  }

  /** The bytes escaped in the space `limit`: the longest prefix of `from` whose
      escaped text fits. */
  function Consumed(from: seq<Byte>, limit: nat): (n: nat)
    ensures n <= |from| && |Escaped(from[..n])| <= limit
    ensures forall j :: n < j <= |from| ==> |Escaped(from[..j])| > limit
    decreases |from|
  {
    assert from[..|from|] == from;
    if |Escaped(from)| <= limit then |from|
    else
      var n := Consumed(from[..|from| - 1], limit);
      assert from[..|from| - 1][..n] == from[..n];
      assert forall j :: n < j < |from| ==> from[..|from| - 1][..j] == from[..j];
      n
  }

  /** The character a reader recovers from the byte after a backslash. */
  function Unescape(e: Byte): Byte
  {
    if e == 48 then 0
    else if e == 110 then 10
    else if e == 114 then 13
    else if e == 90 then 26
    else e
  }

  /** Reading escaped text back: a backslash and the byte after it stand for one
      byte, any other byte for itself. */
  function Unescaped(t: seq<Byte>): seq<Byte>
    decreases |t|
  {
    if |t| == 0 then []
    else if t[0] == Backslash && |t| >= 2 then [Unescape(t[1])] + Unescaped(t[2..])
    else [t[0]] + Unescaped(t[1..])
  }

  /** Escaping loses nothing: reading the escaped text back gives the input. */
  lemma {:induction false} EscapeRoundTrip(from: seq<Byte>)
    ensures Unescaped(Escaped(from)) == from
  {
    if |from| != 0 {
      var p, rest := Piece(from[0]), Escaped(from[1..]);
      EscapeRoundTrip(from[1..]);
      if |p| == 2 {
        assert (p + rest)[2..] == rest;
      } else {
        assert (p + rest)[1..] == rest;
      }
      assert from == [from[0]] + from[1..];
    }
  }

  /** The escaped text holds no NUL, no bare wildcard and no bare quote: each of
      them only ever follows a backslash that a piece put there. */
  lemma {:induction false} EscapedHasNoSpecial(from: seq<Byte>)
    ensures forall k :: 0 <= k < |Escaped(from)| ==> Escaped(from)[k] != 0
    ensures forall k :: 0 <= k < |Escaped(from)| && Escaped(from)[k] in {37, 95, 39, 34} ==>
      k > 0 && Escaped(from)[k - 1] == Backslash
  {
    if |from| != 0 {
      EscapedHasNoSpecial(from[1..]);
      var p, rest := Piece(from[0]), Escaped(from[1..]);
      assert Escaped(from) == p + rest;
      forall k | |p| <= k < |p + rest|
        ensures (p + rest)[k] == rest[k - |p|]
      {
      }
    }
  }

  /** In the space the driver asks for, `2 * length`, everything fits. */
  lemma BigEnoughFits(from: seq<Byte>)
    ensures Consumed(from, 2 * |from|) == |from|
  {
    assert from[..|from|] == from;
  }

  /** The prefix found by stepping byte by byte is the one `Consumed` names: it
      fits, and one more byte would not. */
  lemma ConsumedAt(from: seq<Byte>, limit: nat, i: nat)
    requires i <= |from| && |Escaped(from[..i])| <= limit
    requires i < |from| ==> |Escaped(from[..i + 1])| > limit
    ensures Consumed(from, limit) == i
  {
    var n := Consumed(from, limit);
    if i < n {
      EscapedGrows(from, i + 1, n);
    }
  }

  /** The end of the output space: `to_length - 1`, or `2 * length` when the
      caller passes 0 for "big enough". */
  function Limit(toLength: nat, length: nat): nat
  {
    if toLength != 0 then toLength - 1 else 2 * length
  }

  /** What the escaping writes before the terminator: the escapes of the bytes
      that fit below `limit`. */
  function EscapedFit(from: seq<Byte>, limit: nat): (w: seq<Byte>)
    ensures |w| <= limit
  {
    Escaped(from[..Consumed(from, limit)])
  }

  /** Writes `piece` into `to` at `pos`, after the text `w` already there. */
  method Emit(to: array<Byte>, pos: nat, piece: seq<Byte>, ghost w: seq<Byte>)
    requires 1 <= |piece| <= 2
    requires pos == |w| && pos + |piece| < to.Length
    requires forall k :: 0 <= k < pos ==> to[k] == w[k]
    modifies to
    ensures forall k :: 0 <= k < pos + |piece| ==> to[k] == (w + piece)[k]
    ensures forall k :: pos + |piece| <= k < to.Length ==> to[k] == old(to[k])
  {
    to[pos] := piece[0];
    if |piece| == 2 {
      to[pos + 1] := piece[1];
    }
  }

  /** `myodbc_escape_wildcard` on a single-byte character set: escapes `from` into
      `to`, never past `to_end`, and terminates it. On overflow it returns `~0`,
      having written the escapes of the bytes that fitted; otherwise the length
      written. */
  method EscapeWildcard(to: array<Byte>, toLength: nat, from: seq<Byte>) returns (r: int)
    requires Limit(toLength, |from|) < to.Length
    modifies to
    ensures forall k :: 0 <= k < |EscapedFit(from, Limit(toLength, |from|))| ==>
      to[k] == EscapedFit(from, Limit(toLength, |from|))[k]
    ensures to[|EscapedFit(from, Limit(toLength, |from|))|] == 0
    ensures forall k :: |EscapedFit(from, Limit(toLength, |from|))| < k < to.Length ==> to[k] == old(to[k])
    ensures r == if Consumed(from, Limit(toLength, |from|)) == |from|
      then |EscapedFit(from, Limit(toLength, |from|))| else ULongModulus - 1
  {
    var limit := if toLength != 0 then toLength - 1 else 2 * |from|;
    ghost var w: seq<Byte> := [];
    var pos := 0;
    var i := 0;
    var overflow := false;
    assert from[..0] == [];
    while i < |from|
      invariant 0 <= i <= |from| && w == Escaped(from[..i]) && pos == |w| <= limit
      invariant forall k :: 0 <= k < pos ==> to[k] == w[k]
      invariant forall k :: pos <= k < to.Length ==> to[k] == old(to[k])
      invariant !overflow
    {
      EscapedSnoc(from, i);
      var escape := EscapeCode(from[i]);
      if escape.Some? {
        if pos + 2 > limit {
          overflow := true;
          break;
        }
        Emit(to, pos, [Backslash, escape.value], w);
      } else {
        if pos + 1 > limit {
          overflow := true;
          break;
        }
        Emit(to, pos, [from[i]], w);
      }
      pos := pos + |Piece(from[i])|;
      w := w + Piece(from[i]);
      i := i + 1;
    }
    to[pos] := 0;
    assert overflow <==> i < |from|;
    ConsumedAt(from, limit, i);
    r := if overflow then ULongModulus - 1 else pos;
  }

  /** The result tells overflow apart from success: `~0` exactly when the escaped
      text does not fit, and otherwise its length. */
  lemma EscapeResult(from: seq<Byte>, limit: nat)
    ensures Consumed(from, limit) == |from| <==> |Escaped(from)| <= limit
    ensures |Escaped(from)| < ULongModulus - 1 || |from| >= ULongModulus / 2 - 1
  {
    assert from[..|from|] == from;
  }

  // ------------------------------------------- myodbc_casecmp, myodbc_strcasecmp

  /** The first of the first `len` positions where the texts differ ignoring case,
      or `len` when there is none. */
  function Mismatch(s: seq<Byte>, t: seq<Byte>, len: nat): (m: nat)
    requires len <= |s| && len <= |t|
    ensures m <= len
    ensures forall k :: 0 <= k < m ==> ToUpper(s[k]) == ToUpper(t[k])
    ensures m < len ==> ToUpper(s[m]) != ToUpper(t[m])
  {
    if len == 0 then 0
    else
      var m := Mismatch(s, t, len - 1);
      if m < len - 1 || ToUpper(s[len - 1]) != ToUpper(t[len - 1]) then m else len
  }

  /** A `uint` read as an `int`. */
  function Int32(x: nat): (r: int)
    requires x < UInt32Modulus
    ensures -0x8000_0000 <= r < 0x8000_0000
    ensures r == x || r == x - UInt32Modulus
  {
    if x < 0x8000_0000 then x else x - UInt32Modulus
  }

  /** `myodbc_casecmp` on a single-byte character set: 0 when the first `len`
      bytes agree ignoring case; otherwise the count left from the first
      difference on, read back as an `int` (positive unless `len` exceeds
      `INT_MAX`). */
  method CaseCmp(s: seq<Byte>, t: seq<Byte>, len: nat) returns (r: int)
    requires len < UInt32Modulus && len <= |s| && len <= |t|
    ensures r == 0 <==> forall k :: 0 <= k < len ==> ToUpper(s[k]) == ToUpper(t[k])
    ensures r != 0 ==> r == Int32(len - Mismatch(s, t, len) - 1) + 1
    ensures len < 0x8000_0000 && r != 0 ==> r == len - Mismatch(s, t, len) > 0
  {
    var left: int := len;
    var i := 0;
    while left != 0 && ToUpper(s[i]) == ToUpper(t[i])
      invariant 0 <= left && i + left == len
      invariant forall k :: 0 <= k < i ==> ToUpper(s[k]) == ToUpper(t[k])
    {
      left := left - 1;
      i := i + 1;
    }
    // The test that ends the loop has decremented the counter too, wrapping 0.
    left := (left - 1) % UInt32Modulus;
    r := Int32(left) + 1;
    if i < len {
      assert Mismatch(s, t, len) == i;
    }
  }

  /** The first position from `i` where two C strings differ ignoring case, or
      where the first one ends. */
  function Diverge(s: seq<Byte>, t: seq<Byte>, i: nat): (j: nat)
    requires i <= StrLen(s) < |s| && i <= StrLen(t) < |t|
    ensures i <= j <= StrLen(s) && j <= StrLen(t)
    ensures forall k :: i <= k < j ==> ToUpper(s[k]) == ToUpper(t[k])
    ensures ToUpper(s[j]) != ToUpper(t[j]) || s[j] == 0
    decreases StrLen(s) - i
  {
    StrLenFirstNul(s);
    StrLenFirstNul(t);
    if ToUpper(s[i]) != ToUpper(t[i]) || s[i] == 0 then i
    else Diverge(s, t, i + 1)
  }

  /** The sign-bearing answer of the case-insensitive comparison of two C strings:
      the difference of the upper-cased bytes where they first differ, 0 when
      they do not. */
  function CaseDiff(s: seq<Byte>, t: seq<Byte>): int
    requires StrLen(s) < |s| && StrLen(t) < |t|
  {
    var j := Diverge(s, t, 0);
    ToUpper(s[j]) - ToUpper(t[j])
  }

  /** `myodbc_strcasecmp` on a single-byte character set, over two NUL-terminated
      strings. */
  method StrCaseCmp(s: seq<Byte>, t: seq<Byte>) returns (r: int)
    requires StrLen(s) < |s| && StrLen(t) < |t|
    ensures r == CaseDiff(s, t)
  {
    StrLenFirstNul(s);
    StrLenFirstNul(t);
    var i := 0;
    while ToUpper(s[i]) == ToUpper(t[i])
      invariant i <= StrLen(s) && i <= StrLen(t)
      invariant Diverge(s, t, i) == Diverge(s, t, 0)
      decreases StrLen(s) - i
    {
      if s[i] == 0 {
        return 0;
      }
      i := i + 1;
    }
    r := ToUpper(s[i]) - ToUpper(t[i]);
  }

  /** A C string's bytes upper-cased, terminator excluded. */
  function UpperCase(s: seq<Byte>): (u: seq<Byte>)
    requires StrLen(s) < |s|
    ensures |u| == StrLen(s)
  {
    seq(StrLen(s), k requires 0 <= k < StrLen(s) => ToUpper(s[k]))
  }

  /** The comparison says "equal" exactly when the strings agree ignoring case. */
  lemma CaseDiffZeroIff(s: seq<Byte>, t: seq<Byte>)
    requires StrLen(s) < |s| && StrLen(t) < |t|
    ensures CaseDiff(s, t) == 0 <==> UpperCase(s) == UpperCase(t)
  {
    StrLenFirstNul(s);
    StrLenFirstNul(t);
    var j, n := Diverge(s, t, 0), StrLen(s);
    if CaseDiff(s, t) == 0 {
      assert s[j] == 0 && t[j] == 0;
      assert j == n == StrLen(t);
    }
    if UpperCase(s) == UpperCase(t) {
      assert forall k :: 0 <= k < n ==> ToUpper(s[k]) == UpperCase(s)[k] == UpperCase(t)[k] == ToUpper(t[k]);
      assert j == n;
    }
  }

  /** Where two C strings diverge does not depend on which comes first. */
  lemma {:induction false} DivergeSymmetric(s: seq<Byte>, t: seq<Byte>, i: nat)
    requires i <= StrLen(s) < |s| && i <= StrLen(t) < |t|
    ensures Diverge(s, t, i) == Diverge(t, s, i)
    decreases StrLen(s) - i
  {
    StrLenFirstNul(s);
    StrLenFirstNul(t);
    if ToUpper(s[i]) == ToUpper(t[i]) && s[i] != 0 {
      DivergeSymmetric(s, t, i + 1);
    }
  }

  /** Swapping the arguments negates the answer. */
  lemma CaseDiffAntisymmetric(s: seq<Byte>, t: seq<Byte>)
    requires StrLen(s) < |s| && StrLen(t) < |t|
    ensures CaseDiff(t, s) == -CaseDiff(s, t)
  {
    DivergeSymmetric(s, t, 0);
  }

  // --------------------------------------------------- dynstr_append_quoted_name

  /** A `DYNAMIC_STRING`: the text built so far and the size of its buffer, which
      always has room for the terminator. */
  class DynamicString {
    var text: seq<Byte>
    var capacity: nat

    ghost predicate Valid()
      reads this
    {
      |text| < capacity
    }

    constructor (capacity: nat)
      requires capacity >= 1
      ensures text == [] && this.capacity == capacity && Valid()
    {
      text := [];
      this.capacity := capacity;
    }

    /** `dynstr_append_quoted_name`: grows the buffer for the name, two backticks
        and the terminator, then appends the name between backticks; on a failed
        reallocation (`reallocFails`) returns 1 and leaves the string as it was.
        The name is copied as it is: a backtick inside it is not doubled. */
    method AppendQuotedName(name: seq<Byte>, reallocFails: bool) returns (failed: bool)
      requires Valid()
      modifies this
      ensures Valid() && failed == reallocFails
      ensures failed ==> text == old(text) && capacity == old(capacity)
      ensures !failed ==> text == old(text) + Quoted(name)
      ensures !failed ==> capacity == Max(old(capacity), |old(text)| + StrLen(name) + 3)
    {
      var tmp := StrLen(name);
      if reallocFails {
        return true;
      }
      if |text| + tmp + 3 > capacity {
        capacity := |text| + tmp + 3;
      }
      text := text + [Backtick] + name[..tmp] + [Backtick];
      failed := false;
    }
  }

  const Backtick: Byte := 96

  /** A C string between backticks. */
  function Quoted(name: seq<Byte>): (q: seq<Byte>)
    ensures |q| == StrLen(name) + 2
  {
    [Backtick] + name[..StrLen(name)] + [Backtick]
  }

  /** How a reader of the query takes a quoted identifier: from the opening
      backtick to the next one. */
  function ReadQuoted(q: seq<Byte>): Option<seq<Byte>>
  {
    if |q| == 0 || q[0] != Backtick then None
    else ReadUntilBacktick(q[1..])
  }

  function ReadUntilBacktick(q: seq<Byte>): Option<seq<Byte>>
  {
    if |q| == 0 then None
    else if q[0] == Backtick then Some([])
    else match ReadUntilBacktick(q[1..])
      case None => None
      case Some(rest) => Some([q[0]] + rest)
  }

  /** The name reads back from its quoted form exactly when it holds no backtick;
      otherwise the identifier ends early. */
  lemma QuotedReadsBack(name: seq<Byte>)
    ensures ReadQuoted(Quoted(name)) == Some(name[..StrLen(name)]) <==> Backtick !in name[..StrLen(name)]
  {
    var n := name[..StrLen(name)];
    assert Quoted(name)[1..] == n + [Backtick];
    ReadUntil(n);
  }

  lemma {:induction false} ReadUntil(n: seq<Byte>)
    ensures Backtick !in n ==> ReadUntilBacktick(n + [Backtick]) == Some(n)
    ensures Backtick in n ==>
              ReadUntilBacktick(n + [Backtick]).Some? && |ReadUntilBacktick(n + [Backtick]).value| < |n|
  {
    if |n| != 0 {
      assert (n + [Backtick])[1..] == n[1..] + [Backtick];
      ReadUntil(n[1..]);
      if n[0] != Backtick {
        assert n == [n[0]] + n[1..];
      }
    }
  }

  // ---------------------------------------------------------- is_minimum_version

  /** `strncmp(a, b, n) >= 0`: the first `n` bytes of the C string `a`, compared
      byte by byte as unsigned values, are not below those of `b`. */
  function AtLeast(a: seq<Byte>, b: seq<Byte>): bool
    decreases |a|
  {
    if |b| == 0 then true
    else if |a| == 0 then false
    else if a[0] != b[0] then a[0] > b[0]
    else AtLeast(a[1..], b[1..])
  }

  /** The part of a C string `strncmp` looks at: up to `n` bytes, up to the NUL. */
  function Head(s: seq<Byte>, n: nat): (h: seq<Byte>)
    ensures |h| <= n
  {
    s[..Min(StrLen(s), n)]
  }

  /** `b` does not come after `a` in dictionary order: it is a prefix of `a`, or at
      the first place they differ `a` has the larger byte. */
  ghost predicate LexAtLeast(a: seq<Byte>, b: seq<Byte>)
  {
    b <= a || exists i :: 0 <= i < |a| && i < |b| && a[..i] == b[..i] && a[i] > b[i]
  }

  /** The byte-by-byte comparison is dictionary order. */
  lemma {:induction false} AtLeastLex(a: seq<Byte>, b: seq<Byte>)
    ensures AtLeast(a, b) <==> LexAtLeast(a, b)
    decreases |a|
  {
    if |b| == 0 || |a| == 0 {
    } else if a[0] != b[0] {
      if a[0] > b[0] {
        assert a[..0] == b[..0];
      } else {
        assert forall i :: 0 < i <= |a| && i <= |b| && a[..i] == b[..i] ==> a[..i][0] == b[..i][0];
      }
    } else {
      AtLeastLex(a[1..], b[1..]);
      assert b <= a <==> b[1..] <= a[1..] by {
        if b[1..] <= a[1..] { assert b == [b[0]] + b[1..] && a[..|b|] == [a[0]] + a[1..][..|b| - 1]; }
      }
      if i :| 0 <= i < |a| && i < |b| && a[..i] == b[..i] && a[i] > b[i] {
        assert i > 0;
        assert a[1..][..i - 1] == a[..i][1..] == b[..i][1..] == b[1..][..i - 1];
        assert a[1..][i - 1] > b[1..][i - 1];
      }
      if j :| 0 <= j < |a| - 1 && j < |b| - 1 && a[1..][..j] == b[1..][..j] && a[1..][j] > b[1..][j] {
        assert a[..j + 1] == [a[0]] + a[1..][..j] && b[..j + 1] == [b[0]] + b[1..][..j];
        assert a[j + 1] > b[j + 1];
      }
    }
  }

  /** `is_minimum_version`: the server's version string compared with `version` over
      `length` bytes, as text: true exactly when, within those bytes and up to the
      NUL, `version` is a prefix of the server's version or the server's is larger
      at the first byte where they differ. */
  function IsMinimumVersion(serverVersion: seq<Byte>, version: seq<Byte>, length: nat): (b: bool)
    ensures b <==> LexAtLeast(Head(serverVersion, length), Head(version, length))
  {
    AtLeastLex(Head(serverVersion, length), Head(version, length));
    AtLeast(Head(serverVersion, length), Head(version, length))
  }

  /** The comparison is a total order on texts: reflexive, total, and antisymmetric. */
  lemma {:induction false} AtLeastOrder(a: seq<Byte>, b: seq<Byte>)
    ensures AtLeast(a, a)
    ensures AtLeast(a, b) || AtLeast(b, a)
    ensures AtLeast(a, b) && AtLeast(b, a) ==> a == b
    decreases |a|
  {
    if |a| != 0 && |b| != 0 {
      AtLeastOrder(a[1..], b[1..]);
      if a[0] == b[0] && a[1..] == b[1..] {
        assert a == [a[0]] + a[1..] && b == [b[0]] + b[1..];
      }
    } else if |a| != 0 {
      AtLeastOrder(a[1..], a[1..]);
    }
  }

  /** A server version is at least itself, and of two versions one is at least
      the other; both hold only when they agree on the bytes compared. */
  lemma MinimumVersionOrder(server: seq<Byte>, version: seq<Byte>, length: nat)
    ensures IsMinimumVersion(server, server, length)
    ensures IsMinimumVersion(server, version, length) || IsMinimumVersion(version, server, length)
    ensures IsMinimumVersion(server, version, length) && IsMinimumVersion(version, server, length)
      ==> Head(server, length) == Head(version, length)
  {
    AtLeastOrder(Head(server, length), Head(version, length));
  }

  /** The test compares text, not numbers: a server "10.0" is not at least "4.1". */
  lemma TextualNotNumeric()
    ensures !IsMinimumVersion([49, 48, 46, 48, 0], [52, 46, 49, 0], 3)
  {
    assert Head([49, 48, 46, 48, 0], 3) == [49, 48, 46];
  }
}
