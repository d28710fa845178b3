/**
 * Byte-level building blocks of the wire format: bytes, little-endian integers
 * (`int.from_bytes` / `int.to_bytes` with byteorder='little'), Python's clamping
 * slice `s[i:j]`, ASCII encoding and decoding, and `str.strip('\x00')`.
 */
module Bytes {

  import opened Wrappers

  /** A Python `bytes` element. */
  type Byte = b: int | 0 <= b < 256

  const NUL: char := 0 as char

  function Pow256(n: nat): (r: nat)
    ensures r >= 1
  {
    if n == 0 then 1 else 256 * Pow256(n - 1)
  }

  lemma {:induction false} Pow256Monotone(m: nat, n: nat)
    requires m <= n
    ensures Pow256(m) <= Pow256(n)
  {
    if m < n {
      Pow256Monotone(m, n - 1);
    }
  }

  /** `int.from_bytes(s, 'little')`: the sum of s[i] * 256^i, a number below 256^|s|. */
  function LeValue(s: seq<Byte>): (r: nat)
    ensures r < Pow256(|s|)
  {
    if s == [] then 0
    else
      var rest := LeValue(s[1..]);
      assert rest + 1 <= Pow256(|s| - 1);
      assert 256 * (rest + 1) <= 256 * Pow256(|s| - 1);
      s[0] + 256 * rest
  }

  /**
   * `n.to_bytes(width, 'little')` for the values where Python does not raise
   * OverflowError; decoding the result gives n back.
   */
  function LeBytes(n: nat, width: nat): (r: seq<Byte>)
    requires n < Pow256(width)
    ensures |r| == width && LeValue(r) == n
  {
    if width == 0 then []
    else
      assert n / 256 < Pow256(width - 1);
      [n % 256] + LeBytes(n / 256, width - 1)
  }

  /** Encoding a decoded little-endian number gives the bytes back. */
  lemma {:induction false} LeBytesOfValue(s: seq<Byte>)
    ensures LeValue(s) < Pow256(|s|) && LeBytes(LeValue(s), |s|) == s
  {
    if s != [] {
      LeBytesOfValue(s[1..]);
      assert LeValue(s) % 256 == s[0];
      assert LeValue(s) / 256 == LeValue(s[1..]);
    }
  }

  /** The first byte of the little-endian encoding is the low byte of the number. */
  lemma LeBytesLowByte(n: nat, width: nat)
    requires 0 < width && n < Pow256(width)
    ensures LeBytes(n, width)[0] == n % 256
  {
  }

  /**
   * Python's `s[i:j]` for non-negative bounds: both bounds are clamped to the
   * length and a reversed range is empty, so it never raises.
   */
  function Slice<T>(s: seq<T>, i: nat, j: nat): (r: seq<T>)
    ensures i <= j <= |s| ==> r == s[i..j]
    ensures i <= |s| < j ==> r == s[i..]
    ensures j <= i || |s| <= i ==> r == []
    ensures |r| <= |s|
  {
    var lo := if i < |s| then i else |s|;
    var hi := if j < |s| then j else |s|;
    if lo <= hi then s[lo..hi] else []
  }

  predicate IsAscii(s: string)
  {
    forall i :: 0 <= i < |s| ==> s[i] as int < 128
  }

  /** `bytes(s, 'ascii')`; None where Python raises UnicodeEncodeError. */
  function AsciiEncode(s: string): (r: Option<seq<Byte>>)
    ensures r.Some? <==> IsAscii(s)
    ensures r.Some? ==> |r.value| == |s| && forall i :: 0 <= i < |s| ==> r.value[i] == s[i] as int
  {
    if IsAscii(s) then Some(seq(|s|, i requires 0 <= i < |s| => s[i] as int)) else None
  }

  /** `str(b, 'ascii')`; None where Python raises UnicodeDecodeError. */
  function AsciiDecode(b: seq<Byte>): (r: Option<string>)
    ensures r.Some? <==> forall i :: 0 <= i < |b| ==> b[i] < 128
    ensures r.Some? ==> |r.value| == |b| && forall i :: 0 <= i < |b| ==> r.value[i] as int == b[i]
  {
    if forall i :: 0 <= i < |b| ==> b[i] < 128
    then Some(seq(|b|, i requires 0 <= i < |b| => b[i] as char))
    else None
  }

  lemma AsciiDecodeEncode(s: string)
    requires IsAscii(s)
    ensures AsciiDecode(AsciiEncode(s).value) == Some(s)
  {
    var b := AsciiEncode(s).value;
    assert AsciiDecode(b).value == s;
  }

  /** `s.lstrip('\x00')`: the suffix of s left after its leading NULs. */
  function TrimLeadingNul(s: string): (r: string)
    ensures |r| <= |s| && r == s[|s| - |r|..]
    ensures r != [] ==> r[0] != NUL
  {
    if s != [] && s[0] == NUL then TrimLeadingNul(s[1..]) else s
  }

  /** `s.rstrip('\x00')`: the prefix of s left before its trailing NULs. */
  function TrimTrailingNul(s: string): (r: string)
    ensures |r| <= |s| && r == s[..|r|]
    ensures r != [] ==> r[|r| - 1] != NUL
  {
    if s != [] && s[|s| - 1] == NUL then TrimTrailingNul(s[..|s| - 1]) else s
  }

  /**
   * `s.strip('\x00')`: s with the NULs at both of its ends removed, so a piece
   * of s with no NUL at either end, s itself when s has none there; an ASCII
   * string stays ASCII.
   */
  function StripNul(s: string): (r: string)
    ensures |r| <= |s|
    ensures r != [] ==> r[0] != NUL && r[|r| - 1] != NUL
    ensures (s != [] ==> s[0] != NUL && s[|s| - 1] != NUL) ==> r == s
    ensures IsAscii(s) ==> IsAscii(r)
  {
    var t := TrimLeadingNul(s);
    var r := TrimTrailingNul(t);
    StripNulPiece(s, t, r);
    r
  }

  /**
   * What `StripNul` removes is NULs only, at the two ends: the result is the
   * piece of s after its a leading NULs, and every character after it is NUL.
   */
  lemma StripNulRemovesEndNuls(s: string)
    ensures var r := StripNul(s); var a := |s| - |TrimLeadingNul(s)|;
      && a + |StripNul(s)| <= |s| && r == s[a..a + |r|]
      && (forall i :: 0 <= i < a ==> s[i] == NUL)
      && (forall i :: a + |r| <= i < |s| ==> s[i] == NUL)
  {
    var t := TrimLeadingNul(s);
    TrimLeadingNulPadding(s);
    TrimTrailingNulPadding(t);
    StripNulEnds(s, t, TrimTrailingNul(t));
  }

  /** The NULs removed after the leading ones sit at the end of s. */
  lemma StripNulEnds(s: string, t: string, r: string)
    requires |t| <= |s| && t == s[|s| - |t|..]
    requires |r| <= |t| && r == t[..|r|]
    requires forall i :: |r| <= i < |t| ==> t[i] == NUL
    ensures var a := |s| - |t|; r == s[a..a + |r|] && forall i :: a + |r| <= i < |s| ==> s[i] == NUL
  {
    var a := |s| - |t|;
    forall i | a + |r| <= i < |s| ensures s[i] == NUL {
      assert s[i] == t[i - a];
    }
  }

  /** A prefix of a suffix of s keeps the first character of the suffix and stays ASCII with s. */
  lemma StripNulPiece(s: string, t: string, r: string)
    requires |t| <= |s| && t == s[|s| - |t|..] && (t != [] ==> t[0] != NUL)
    requires |r| <= |t| && r == t[..|r|]
    ensures r != [] ==> r[0] != NUL
    ensures IsAscii(s) ==> IsAscii(r)
  {
    if r != [] {
      assert r[0] == t[0];
    }
    if IsAscii(s) {
      forall i | 0 <= i < |r| ensures r[i] as int < 128 {
        assert r[i] == s[|s| - |t| + i];
      }
    }
  }

  /** What `TrimLeadingNul` removes from a string is NULs only. */
  lemma {:induction false} TrimLeadingNulPadding(s: string)
    ensures forall i :: 0 <= i < |s| - |TrimLeadingNul(s)| ==> s[i] == NUL
  {
    if s != [] && s[0] == NUL {
      TrimLeadingNulPadding(s[1..]);
    }
  }

  /** What `TrimTrailingNul` removes from a string is NULs only. */
  lemma {:induction false} TrimTrailingNulPadding(s: string)
    ensures forall i :: |TrimTrailingNul(s)| <= i < |s| ==> s[i] == NUL
  {
    if s != [] && s[|s| - 1] == NUL {
      TrimTrailingNulPadding(s[..|s| - 1]);
    }
  }
}
