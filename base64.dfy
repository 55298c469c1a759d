/**
 * The base64 encoding of section 4 of RFC 4648, as `base64.b64encode` computes
 * it, together with the strict decoder that is its partner.
 */
module Base64 {
  import opened Common

  /** A base64 digit value. */
  type sextet = x: int | 0 <= x < 64

  const Pad: char := '='

  /**
   * The character that stands for `v` in Table 1 of section 4 of RFC 4648:
   * `A`-`Z`, `a`-`z`, `0`-`9`, then `+` and `/`.
   */
  function DigitFor(v: sextet): (c: char)
    ensures c != Pad
  {
    if v < 26 then ('A' as int + v) as char
    else if v < 52 then ('a' as int + (v - 26)) as char
    else if v < 62 then ('0' as int + (v - 52)) as char
    else if v == 62 then '+'
    else '/'
  }

  /** The value a character stands for, or None when it is not in the alphabet. */
  function ValueOf(c: char): (r: Option<sextet>)
    ensures r.Some? ==> DigitFor(r.value) == c
  {
    if 'A' <= c <= 'Z' then Some(c as int - 'A' as int)
    else if 'a' <= c <= 'z' then Some(c as int - 'a' as int + 26)
    else if '0' <= c <= '9' then Some(c as int - '0' as int + 52)
    else if c == '+' then Some(62)
    else if c == '/' then Some(63)
    else None
  }

  lemma ValueOfDigit(v: sextet)
    ensures ValueOf(DigitFor(v)) == Some(v)
  {
  }

  /**
   * One group of the encoding: 1 to 3 bytes become 4 characters, the bits
   * missing from a short group padded with `=` (section 4 of RFC 4648).
   */
  function EncodeGroup(g: seq<byte>): (q: string)
    requires 1 <= |g| <= 3
    ensures |q| == 4 && q[0] != Pad && q[1] != Pad
    ensures (q[2] == Pad <==> |g| == 1) && (q[3] == Pad <==> |g| < 3)
  {
    var b0, b1, b2 := g[0], if |g| > 1 then g[1] else 0, if |g| > 2 then g[2] else 0;
    [DigitFor(b0 / 4), DigitFor(b0 % 4 * 16 + b1 / 16),
     if |g| > 1 then DigitFor(b1 % 16 * 4 + b2 / 64) else Pad,
     if |g| > 2 then DigitFor(b2 % 64) else Pad]
  }

  /** `base64.b64encode(b)`: one group per three bytes, the last one possibly short. */
  function Encode(b: seq<byte>): string
    decreases |b|
  {
    if |b| == 0 then ""
    else
      var n := if |b| < 3 then |b| else 3;
      EncodeGroup(b[..n]) + Encode(b[n..])
  }

  /** Four characters for every group of three bytes or fewer. */
  lemma {:induction false} EncodeLength(b: seq<byte>)
    ensures |Encode(b)| == 4 * ((|b| + 2) / 3)
    decreases |b|
  {
    if |b| > 0 {
      var n := if |b| < 3 then |b| else 3;
      EncodeStep(b);
      EncodeLength(b[n..]);
      assert |b[n..]| == |b| - n;
      if n < 3 {
        assert (|b| + 2) / 3 == 1 && (|b| - n + 2) / 3 == 0;
      } else {
        assert (|b| + 2) / 3 == (|b| - 3 + 2) / 3 + 1;
      }
    }
  }

  /** One step of Encode: the first group, then the encoding of the rest. */
  lemma EncodeStep(b: seq<byte>)
    requires |b| > 0
    ensures var n := if |b| < 3 then |b| else 3;
      Encode(b) == EncodeGroup(b[..n]) + Encode(b[n..]) && |EncodeGroup(b[..n])| == 4
  {
  }

  /**
   * The partner of EncodeGroup: four characters back to 1 to 3 bytes, or None
   * when a character is outside the alphabet, the padding is misplaced or the
   * bits the padding stands for are not zero.
   */
  function DecodeGroup(q: string): (r: Option<seq<byte>>)
    requires |q| == 4
    ensures r.Some? ==> 1 <= |r.value| <= 3
  {
    var v0, v1 := ValueOf(q[0]), ValueOf(q[1]);
    if v0.None? || v1.None? then None
    else if q[2] == Pad && q[3] == Pad then
      if v1.value % 16 == 0 then Some([v0.value * 4 + v1.value / 16]) else None
    else
      var v2 := ValueOf(q[2]);
      if v2.None? then None
      else if q[3] == Pad then
        if v2.value % 4 == 0 then Some([v0.value * 4 + v1.value / 16, v1.value % 16 * 16 + v2.value / 4])
        else None
      else
        var v3 := ValueOf(q[3]);
        if v3.None? then None
        else Some([v0.value * 4 + v1.value / 16, v1.value % 16 * 16 + v2.value / 4, v2.value % 4 * 64 + v3.value])
  }

  /** The strict decoder: whole groups, only the last of which may be short. */
  function Decode(s: string): Option<seq<byte>>
    decreases |s|
  {
    if |s| == 0 then Some([])
    else if |s| < 4 then None
    else
      match DecodeGroup(s[..4])
      case None => None
      case Some(g) =>
        if |g| < 3 && |s| > 4 then None
        else
          match Decode(s[4..])
          case None => None
          case Some(rest) => Some(g + rest)
  }

  /** Splitting a byte into its high and low parts and joining them again gives it back. */
  lemma SplitJoin(x: int, d: int)
    requires 0 <= x < 256 && (d == 4 || d == 16 || d == 64)
    ensures (x / d) * d + x % d == x
  {
  }

  lemma HighLow(hi: int, lo: int, d: int)
    requires 0 <= lo < d && (d == 4 || d == 16 || d == 64) && 0 <= hi
    ensures (hi * d + lo) / d == hi && (hi * d + lo) % d == lo
  {
  }

  lemma DecodeEncodeGroup(g: seq<byte>)
    requires 1 <= |g| <= 3
    ensures DecodeGroup(EncodeGroup(g)) == Some(g)
  {
    var b0, b1, b2 := g[0], if |g| > 1 then g[1] else 0, if |g| > 2 then g[2] else 0;
    ValueOfDigit(b0 / 4);
    ValueOfDigit(b0 % 4 * 16 + b1 / 16);
    SplitJoin(b0, 4);
    HighLow(b0 % 4, b1 / 16, 16);
    if |g| > 1 {
      ValueOfDigit(b1 % 16 * 4 + b2 / 64);
      SplitJoin(b1, 16);
      HighLow(b1 % 16, b2 / 64, 4);
    }
    if |g| > 2 {
      ValueOfDigit(b2 % 64);
      SplitJoin(b2, 64);
    }
    if |g| == 1 {
      assert g == [b0];
    } else if |g| == 2 {
      assert g == [b0, b1];
    } else {
      assert g == [b0, b1, b2];
    }
  }

  /** Decoding what `base64.b64encode` produced gives the bytes back. */
  lemma {:induction false} DecodeEncode(b: seq<byte>)
    ensures Decode(Encode(b)) == Some(b)
    decreases |b|
  {
    if |b| > 0 {
      var n := if |b| < 3 then |b| else 3;
      var head, tail := EncodeGroup(b[..n]), Encode(b[n..]);
      EncodeStep(b);
      var s := head + tail;
      assert s[..4] == head && s[4..] == tail;
      DecodeEncodeGroup(b[..n]);
      DecodeEncode(b[n..]);
      if n < 3 {
        assert b[n..] == [] && tail == "";
      }
      assert b == b[..n] + b[n..];
    }
  }

  predicate NoPad(s: string) {
    forall i :: 0 <= i < |s| ==> s[i] != Pad
  }

  predicate AllPad(s: string) {
    forall i :: 0 <= i < |s| ==> s[i] == Pad
  }

  /** `s` ends in exactly `k` pads and holds no other. */
  predicate PaddedBy(s: string, k: nat) {
    k <= |s| && NoPad(s[..|s| - k]) && AllPad(s[|s| - k..])
  }

  /** The number of `=` that end the encoding of `n` bytes: 0, 2 or 1 as `n % 3` is 0, 1 or 2. */
  function PadLength(n: nat): nat {
    (3 - n % 3) % 3
  }

  lemma GroupPadding(g: seq<byte>)
    requires 1 <= |g| <= 3
    ensures PaddedBy(EncodeGroup(g), PadLength(|g|))
  {
    var q := EncodeGroup(g);
    if |g| == 1 {
      assert PadLength(1) == 2;
      assert q[..2] == [q[0], q[1]] && q[2..] == [q[2], q[3]];
    } else if |g| == 2 {
      assert PadLength(2) == 1;
      assert q[..3] == [q[0], q[1], q[2]] && q[3..] == [q[3]];
    } else {
      assert PadLength(3) == 0;
      assert q[..4] == [q[0], q[1], q[2], q[3]] && q[4..] == [];
    }
  }

  /** Removing a whole group of three bytes leaves the padding length unchanged. */
  lemma PadLengthStep(n: nat)
    requires n >= 3
    ensures PadLength(n - 3) == PadLength(n)
  {
    assert (n - 3) % 3 == n % 3;
  }

  /** An unpadded head followed by a text ending in `k` pads ends in those `k` pads. */
  lemma PaddingAppend(head: string, tail: string, k: nat)
    requires NoPad(head) && PaddedBy(tail, k)
    ensures PaddedBy(head + tail, k)
  {
    var r := head + tail;
    assert r[..|r| - k] == head + tail[..|tail| - k];
    assert r[|r| - k..] == tail[|tail| - k..];
  }

  /**
   * The padding of section 4 of RFC 4648: the encoding ends in no `=` when the
   * input splits into whole groups of three bytes, in `==` when one byte is left
   * over, in `=` when two are, and holds no `=` anywhere else.
   */
  lemma {:induction false} EncodePadding(b: seq<byte>)
    ensures PaddedBy(Encode(b), PadLength(|b|))
    decreases |b|
  {
    if |b| == 0 {
      assert PadLength(0) == 0;
    } else if |b| <= 3 {
      EncodeShort(b);
      GroupPadding(b);
    } else {
      EncodeStep(b);
      var head, tail := EncodeGroup(b[..3]), Encode(b[3..]);
      EncodePadding(b[3..]);
      PadLengthStep(|b|);
      FullGroupNoPad(b[..3]);
      PaddingAppend(head, tail, PadLength(|b|));
    }
  }

  /** Three bytes or fewer make a single group. */
  lemma EncodeShort(b: seq<byte>)
    requires 1 <= |b| <= 3
    ensures Encode(b) == EncodeGroup(b)
  {
    EncodeStep(b);
    assert b[..|b|] == b && b[|b|..] == [];
  }

  /** A whole group of three bytes holds no padding. */
  lemma FullGroupNoPad(g: seq<byte>)
    requires |g| == 3
    ensures NoPad(EncodeGroup(g))
  {
    GroupPadding(g);
    assert PadLength(3) == 0 && EncodeGroup(g)[..4] == EncodeGroup(g);
  }

  /** Every character of a group is a digit of the alphabet or `=`. */
  lemma GroupAlphabet(g: seq<byte>)
    requires 1 <= |g| <= 3
    ensures forall i :: 0 <= i < 4 ==> ValueOf(EncodeGroup(g)[i]).Some? || EncodeGroup(g)[i] == Pad
  {
    var b0, b1, b2 := g[0], if |g| > 1 then g[1] else 0, if |g| > 2 then g[2] else 0;
    ValueOfDigit(b0 / 4);
    ValueOfDigit(b0 % 4 * 16 + b1 / 16);
    ValueOfDigit(b1 % 16 * 4 + b2 / 64);
    ValueOfDigit(b2 % 64);
  }

  /** The encoding is made of the 64 digits of the alphabet and `=` only. */
  lemma {:induction false} EncodeAlphabet(b: seq<byte>)
    ensures forall i :: 0 <= i < |Encode(b)| ==> ValueOf(Encode(b)[i]).Some? || Encode(b)[i] == Pad
    decreases |b|
  {
    if |b| > 0 {
      var n := if |b| < 3 then |b| else 3;
      var head, tail := EncodeGroup(b[..n]), Encode(b[n..]);
      GroupAlphabet(b[..n]);
      EncodeAlphabet(b[n..]);
      assert Encode(b) == head + tail;
    }
  }
}
