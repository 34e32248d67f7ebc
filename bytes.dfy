/**
 * PHP strings are byte strings: `strlen`, `substr`, `trim` and `strpos`
 * all count and compare bytes.  This module gives those primitives a
 * definition over `seq<byte>`, together with the facts the rest of the
 * model relies on.
 */
module Bytes {
  import opened Wrappers

  newtype byte = x: int | 0 <= x < 256

  type Bytes = seq<byte>

  /** The bytes PHP's `trim` strips by default: " \t\n\r\0\x0B". */
  const WHITESPACE: set<byte> := {32, 9, 10, 13, 0, 11}

  /** The single byte "0". */
  const ZERO: byte := 48

  /** UTF-8 encoding of one Unicode scalar value. */
  function EncodeChar(c: char): (r: Bytes)
    ensures 1 <= |r| <= 4
    ensures c as int < 0x80 ==> r == [c as int as byte]
  {
    var n := c as int;
    if n < 0x80 then [n as byte]
    else if n < 0x800 then [(0xC0 + n / 0x40) as byte, (0x80 + n % 0x40) as byte]
    else if n < 0x10000 then
      [(0xE0 + n / 0x1000) as byte, (0x80 + (n / 0x40) % 0x40) as byte, (0x80 + n % 0x40) as byte]
    else
      [(0xF0 + n / 0x40000) as byte, (0x80 + (n / 0x1000) % 0x40) as byte,
       (0x80 + (n / 0x40) % 0x40) as byte, (0x80 + n % 0x40) as byte]
  }

  /** The bytes of `parts`, one after the other. */
  function Concat(parts: seq<Bytes>): (r: Bytes)
    ensures (forall i :: 0 <= i < |parts| ==> |parts[i]| >= 1) ==> |r| >= |parts|
  {
    if parts == [] then [] else parts[0] + Concat(parts[1..])
  }

  /** The bytes of a string literal of the PHP source, which is stored as UTF-8. */
  function Utf8(s: string): (r: Bytes)
    ensures |r| >= |s|
  {
    Concat(seq(|s|, i requires 0 <= i < |s| => EncodeChar(s[i])))
  }

  /**
   * The bytes of a string literal whose characters are all ASCII, where
   * UTF-8 stores each character as the byte of the same value.
   */
  function Ascii(s: string): (r: Bytes)
    ensures |r| == |s|
    ensures forall i :: 0 <= i < |s| ==> r[i] as int == s[i] as int % 0x100
  {
    seq(|s|, i requires 0 <= i < |s| => (s[i] as int % 0x100) as byte)
  }

  /** A byte no character of `s` stands for is not in `Ascii(s)`. */
  lemma AsciiAbsent(s: string, c: char)
    requires c !in s && c as int < 0x100
    requires forall i :: 0 <= i < |s| ==> s[i] as int < 0x100
    ensures c as int as byte !in Ascii(s)
  {
    forall i | 0 <= i < |s|
      ensures Ascii(s)[i] != c as int as byte
    {
      assert s[i] != c;
    }
  }

  /** PHP's `empty()` on a string: true for "" and for "0". */
  predicate PhpEmpty(s: Bytes) {
    s == [] || s == [ZERO]
  }

  /** Strips the leading bytes that belong to `cs`. */
  function TrimStart(s: Bytes, cs: set<byte>): (r: Bytes)
    ensures |r| <= |s| && r == s[|s| - |r|..]
    ensures forall i :: 0 <= i < |s| - |r| ==> s[i] in cs
    ensures r == [] || r[0] !in cs
  {
    if s != [] && s[0] in cs then
      var r := TrimStart(s[1..], cs);
      assert r == s[|s| - |r|..] by {
        assert s[1..][|s| - 1 - |r|..] == s[|s| - |r|..];
      }
      assert forall i :: 1 <= i < |s| - |r| ==> s[i] == s[1..][i - 1];
      r
    else s
  }

  /** Strips the trailing bytes that belong to `cs`. */
  function TrimEnd(s: Bytes, cs: set<byte>): (r: Bytes)
    ensures |r| <= |s| && r == s[..|r|]
    ensures forall i :: |r| <= i < |s| ==> s[i] in cs
    ensures r == [] || r[|r| - 1] !in cs
  {
    if s != [] && s[|s| - 1] in cs then TrimEnd(s[..|s| - 1], cs) else s
  }

  /** PHP's `trim($s, $cs)`: strips bytes of `cs` from both ends. */
  function TrimChars(s: Bytes, cs: set<byte>): (r: Bytes)
    ensures |r| <= |s|
    ensures r == [] || (r[0] !in cs && r[|r| - 1] !in cs)
    ensures (forall i :: 0 <= i < |s| ==> s[i] in cs) ==> r == []
    ensures forall b :: b in r ==> b in s
  {
    var t := TrimStart(s, cs);
    var r := TrimEnd(t, cs);
    TrimBothEnds(s, cs, t, r);
    TrimAllStripped(s, cs, t, r);
    TrimIsSlice(s, cs, t, r);
    SliceKeepsBytes(s, |s| - |t|, |s| - |t| + |r|);
    r
  }

  /** Every byte of `s` before `i` and from `j` on belongs to `cs`. */
  ghost predicate StrippedAround(s: Bytes, cs: set<byte>, i: int, j: int) {
    0 <= i <= j <= |s| &&
    (forall k :: 0 <= k < i ==> s[k] in cs) && (forall k :: j <= k < |s| ==> s[k] in cs)
  }

  /** Trimming only removes bytes of `cs` from the two ends: the result is a slice of `s`. */
  lemma TrimCharsIsInfix(s: Bytes, cs: set<byte>)
    ensures exists i, j :: StrippedAround(s, cs, i, j) && TrimChars(s, cs) == s[i..j]
  {
    var t := TrimStart(s, cs);
    var r := TrimEnd(t, cs);
    var i, j := |s| - |t|, |s| - |t| + |r|;
    TrimIsSlice(s, cs, t, r);
    SuffixKeepsTail(s, t, |r|, cs);
    assert StrippedAround(s, cs, i, j);
  }

  /** Neither end of the trimmed result is a stripped byte. */
  lemma TrimBothEnds(s: Bytes, cs: set<byte>, t: Bytes, r: Bytes)
    requires t == TrimStart(s, cs) && r == TrimEnd(t, cs)
    ensures r == [] || (r[0] !in cs && r[|r| - 1] !in cs)
  {
    assert r == [] || r[0] == t[0];
  }

  /** A string made only of stripped bytes trims to nothing. */
  lemma TrimAllStripped(s: Bytes, cs: set<byte>, t: Bytes, r: Bytes)
    requires t == TrimStart(s, cs) && r == TrimEnd(t, cs)
    ensures (forall i :: 0 <= i < |s| ==> s[i] in cs) ==> r == []
  {
    if t != [] {
      assert t[0] == s[|s| - |t|];
    }
  }

  /** The two trimming passes leave a slice of the input. */
  lemma TrimIsSlice(s: Bytes, cs: set<byte>, t: Bytes, r: Bytes)
    requires t == TrimStart(s, cs) && r == TrimEnd(t, cs)
    ensures |s| - |t| + |r| <= |s| && r == s[|s| - |t|..|s| - |t| + |r|]
  {
    SuffixThenPrefix(s, t, r);
  }

  /** A prefix of a suffix is a slice. */
  lemma SuffixThenPrefix(s: Bytes, t: Bytes, r: Bytes)
    requires |t| <= |s| && t == s[|s| - |t|..] && |r| <= |t| && r == t[..|r|]
    ensures r == s[|s| - |t|..|s| - |t| + |r|]
  {
    assert s[|s| - |t|..|s| - |t| + |r|] == s[|s| - |t|..][..|r|];
  }

  /** The bytes of a suffix from position `m` on are the bytes of the whole from its offset plus `m` on. */
  lemma SuffixKeepsTail(s: Bytes, t: Bytes, m: int, cs: set<byte>)
    requires |t| <= |s| && t == s[|s| - |t|..] && 0 <= m <= |t|
    requires forall k :: m <= k < |t| ==> t[k] in cs
    ensures forall k :: |s| - |t| + m <= k < |s| ==> s[k] in cs
  {
    forall k | |s| - |t| + m <= k < |s|
      ensures s[k] in cs
    {
      assert s[k] == t[k - (|s| - |t|)];
    }
  }

  /** A slice holds only bytes of the whole. */
  lemma SliceKeepsBytes(s: Bytes, i: int, j: int)
    requires 0 <= i <= j <= |s|
    ensures forall b :: b in s[i..j] ==> b in s
  {
    forall b | b in s[i..j]
      ensures b in s
    {
      var k :| 0 <= k < j - i && s[i..j][k] == b;
      assert s[i + k] == b;
    }
  }

  /** PHP's `trim($s)` with its default set of stripped bytes. */
  function Trim(s: Bytes): Bytes {
    TrimChars(s, WHITESPACE)
  }

  /** Trimming twice is trimming once. */
  lemma {:induction false} TrimCharsIdempotent(s: Bytes, cs: set<byte>)
    ensures TrimChars(TrimChars(s, cs), cs) == TrimChars(s, cs)
  {
    var r := TrimChars(s, cs);
    assert TrimStart(r, cs) == r;
    assert TrimEnd(r, cs) == r;
  }

  /** A byte missing from `s` is missing from every trimmed form of it. */
  lemma TrimCharsKeepsAbsence(s: Bytes, cs: set<byte>, b: byte)
    requires b !in s
    ensures b !in TrimChars(s, cs)
  {
  }

  /** PHP's `strpos($h, $n) !== false`: `n` occurs somewhere in `h`. */
  function Contains(h: Bytes, n: Bytes): (b: bool)
    ensures b <==> exists i :: 0 <= i <= |h| && n <= h[i..]
  {
    if n <= h then
      assert h[0..] == h;
      true
    else if h == [] then false
    else
      var r := Contains(h[1..], n);
      assert forall i :: 1 <= i <= |h| ==> h[i..] == h[1..][i - 1..];
      assert r ==> exists i :: 0 <= i <= |h| && n <= h[i..] by {
        if r {
          var j :| 0 <= j <= |h[1..]| && n <= h[1..][j..];
          assert h[j + 1..] == h[1..][j..];
        }
      }
      r
  }

  /** A needle whose first byte is nowhere in the haystack does not occur in it. */
  lemma AbsentFirstByte(h: Bytes, n: Bytes)
    requires n != [] && n[0] !in h
    ensures !Contains(h, n)
  {
    forall i | 0 <= i <= |h|
      ensures !(n <= h[i..])
    {
      if i < |h| {
        assert h[i..][0] == h[i];
      }
    }
  }

  /** Index of the first occurrence of byte `b` in `s`. */
  function IndexOf(s: Bytes, b: byte): (r: Option<nat>)
    ensures r.None? <==> b !in s
    ensures r.Some? ==> r.value < |s| && s[r.value] == b && b !in s[..r.value]
  {
    if s == [] then None
    else if s[0] == b then Some(0)
    else
      match IndexOf(s[1..], b)
      case None => None
      case Some(k) =>
        assert s[..k + 1] == [s[0]] + s[1..][..k];
        Some(k + 1)
  }

  /** The first `n` bytes of `s`, or all of `s` when it is shorter: `substr($s, 0, $n)`. */
  function Prefix(s: Bytes, n: nat): (r: Bytes)
    ensures |r| == if |s| < n then |s| else n
    ensures r <= s
  {
    if |s| <= n then s else s[..n]
  }

  /** The value of one decimal digit byte; other bytes count as 0. */
  function DigitValue(b: byte): nat {
    if ZERO <= b <= ZERO + 9 then b as int - ZERO as int else 0
  }

  /** Reference reading of a digit string, most significant digit first. */
  function DecimalValue(s: Bytes): nat
    decreases |s|
  {
    if s == [] then 0 else 10 * DecimalValue(s[..|s| - 1]) + DigitValue(s[|s| - 1])
  }

  /**
   * The decimal digits of `n`, as PHP converts an integer to a string: they
   * read back as `n`, and only 0 itself starts with a zero.
   */
  function Digits(n: nat): (r: Bytes)
    ensures r != []
    ensures forall i :: 0 <= i < |r| ==> ZERO <= r[i] <= ZERO + 9
    ensures DecimalValue(r) == n
    ensures r[0] == ZERO <==> n == 0
    ensures n == 0 ==> r == [ZERO]
  {
    if n < 10 then [(ZERO as int + n) as byte]
    else
      var init := Digits(n / 10);
      var r := init + [(ZERO as int + n % 10) as byte];
      assert r[..|r| - 1] == init;
      r
  }

  /** PHP's string conversion of an integer ("-" for negative numbers). */
  function IntToBytes(n: int): (r: Bytes)
    ensures r != []
    ensures r[0] == 45 <==> n < 0
    ensures forall i :: (if n < 0 then 1 else 0) <= i < |r| ==> ZERO <= r[i] <= ZERO + 9
    ensures n >= 0 ==> DecimalValue(r) == n
    ensures n < 0 ==> |r| >= 2 && DecimalValue(r[1..]) == -n && r[1] != ZERO
    ensures n >= 0 && r[0] == ZERO ==> r == [ZERO]
  {
    if n < 0 then [45] + Digits(-n) else Digits(n)
  }
}
