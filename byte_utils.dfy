/**
 * General utility functions for byte vectors of the crypto crate: hex-string
 * readers and writer, a bit printer, all-zero/all-one tests, unsigned
 * comparisons and logical right shifts, in big-endian ("be") and
 * little-endian ("le") byte order.
 *
 * Bytes are `bv8`. A slice the source only reads is a `seq<bv8>`; a slice it
 * writes (`&mut [u8]`) is an `array<bv8>`.
 */
module ByteUtils {
  import opened Wrappers

  // -------------------------------------------------------------------------
  // Errors and orderings

  /** Errors of the `hex` crate's decoder. */
  datatype HexError = OddLength | InvalidHexCharacter(c: char, index: nat)

  /** The errors of the hex readers: the buffer is too short, or the decoder failed. */
  datatype CryptoError = InvalidHexLength | Hex(cause: HexError)

  /** `std::cmp::Ordering`. */
  datatype Ordering = Less | Equal | Greater

  function Min(a: nat, b: nat): nat { if a <= b then a else b }

  /** `n` zero bytes. */
  function Zeros(n: nat): (r: seq<bv8>)
    ensures |r| == n && forall i :: 0 <= i < n ==> r[i] == 0
  {
    seq(n, _ => 0)
  }

  /** `s` in reverse order. */
  function Reverse<T>(s: seq<T>): (r: seq<T>)
    ensures |r| == |s| && forall i :: 0 <= i < |s| ==> r[i] == s[|s| - 1 - i]
  {
    seq(|s|, i requires 0 <= i < |s| => s[|s| - 1 - i])
  }

  // -------------------------------------------------------------------------
  // Base16 (section 8 of RFC 4648)

  predicate IsHexDigit(c: char) {
    '0' <= c <= '9' || 'a' <= c <= 'f' || 'A' <= c <= 'F'
  }

  /** The value of one hex digit; the decoder accepts both letter cases. */
  function DigitValue(c: char): (v: Option<bv8>)
    ensures v.Some? <==> IsHexDigit(c)
    ensures v.Some? ==> v.value < 16
  {
    if '0' <= c <= '9' then Some((c as int - '0' as int) as bv8)
    else if 'a' <= c <= 'f' then Some((c as int - 'a' as int + 10) as bv8)
    else if 'A' <= c <= 'F' then Some((c as int - 'A' as int + 10) as bv8)
    else None
  }

  /** The lowercase digit for a value below 16, as `format!("{:02x}")` writes it. */
  function LowerDigit(n: bv8): (c: char)
    requires n < 16
    ensures IsHexDigit(c) && !('A' <= c <= 'F')
  {
    "0123456789abcdef"[n as int]
  }

  lemma DigitValueOfLowerDigit(n: bv8)
    requires n < 16
    ensures DigitValue(LowerDigit(n)) == Some(n)
  {
  }

  /**
   * `hex::decode`: an odd number of characters is `OddLength`; otherwise
   * each pair of digits, high digit first, makes one byte, and the first
   * character that is not a hex digit is reported with its index.
   */
  function HexDecode(s: string): (r: Result<seq<bv8>, HexError>)
    ensures r.Ok? <==> |s| % 2 == 0 && forall i :: 0 <= i < |s| ==> IsHexDigit(s[i])
    ensures r.Ok? ==> |r.value| == |s| / 2
    ensures r == Err(OddLength) <==> |s| % 2 != 0
  {
    if |s| % 2 != 0 then Err(OddLength) else DecodePairs(s, 0)
  }

  /** Decodes the even-length `s`, whose first character sits at `offset` of the whole input. */
  function DecodePairs(s: string, offset: nat): (r: Result<seq<bv8>, HexError>)
    requires |s| % 2 == 0
    ensures r.Ok? <==> forall i :: 0 <= i < |s| ==> IsHexDigit(s[i])
    ensures r.Ok? ==> |r.value| == |s| / 2
    ensures r.Err? ==> FirstBadDigit(s, offset, r.error)
    decreases |s|
  {
    if s == [] then Ok([])
    else
      match DigitValue(s[0])
      case None => Err(InvalidHexCharacter(s[0], offset))
      case Some(hi) =>
        match DigitValue(s[1])
        case None => Err(InvalidHexCharacter(s[1], offset + 1))
        case Some(lo) =>
          match DecodePairs(s[2..], offset + 2)
          case Err(e) => Err(e)
          case Ok(rest) => Ok([(hi << 4) | lo] + rest)
  }

  /** `e` names the first character of `s` that is not a hex digit, at its index from `offset`. */
  ghost predicate FirstBadDigit(s: string, offset: nat, e: HexError) {
    && e.InvalidHexCharacter?
    && offset <= e.index < offset + |s|
    && e.c == s[e.index - offset]
    && !IsHexDigit(e.c)
    && forall i :: 0 <= i < e.index - offset ==> IsHexDigit(s[i])
  }

  /** The two lowercase digits of one byte, high digit first. */
  function HexPair(b: bv8): (r: string)
    ensures |r| == 2
  {
    [LowerDigit(b >> 4), LowerDigit(b & 0xf)]
  }

  /** Base16 encoding, lowercase: two digits per byte. */
  function HexEncode(x: seq<bv8>): (r: string)
    ensures |r| == 2 * |x|
  {
    if x == [] then [] else HexPair(x[0]) + HexEncode(x[1..])
  }

  lemma {:induction false} HexEncodeDigits(x: seq<bv8>)
    ensures forall i :: 0 <= i < 2 * |x| ==> IsHexDigit(HexEncode(x)[i]) && !('A' <= HexEncode(x)[i] <= 'F')
    ensures forall k :: 0 <= k < |x| ==> HexEncode(x)[2 * k .. 2 * k + 2] == HexPair(x[k])
  {
    if x != [] {
      HexEncodeDigits(x[1..]);
      var r, hp, t := HexEncode(x), HexPair(x[0]), HexEncode(x[1..]);
      assert r == hp + t;
      forall i | 0 <= i < 2 * |x| ensures IsHexDigit(r[i]) && !('A' <= r[i] <= 'F') {
        if i >= 2 {
          assert r[i] == t[i - 2];
        }
      }
      forall k | 0 <= k < |x| ensures r[2 * k .. 2 * k + 2] == HexPair(x[k]) {
        if k > 0 {
          assert x[1..][k - 1] == x[k];
          assert r[2 * k .. 2 * k + 2] == t[2 * (k - 1) .. 2 * (k - 1) + 2];
        } else {
          assert r[..2] == hp;
        }
      }
    }
  }

  lemma {:induction false} HexEncodeSnoc(x: seq<bv8>, b: bv8)
    ensures HexEncode(x + [b]) == HexEncode(x) + HexPair(b)
  {
    if x != [] {
      assert (x + [b])[1..] == x[1..] + [b];
      HexEncodeSnoc(x[1..], b);
    }
  }

  /** Decoding the encoding gives the bytes back: the base16 round trip. */
  lemma {:induction false} HexRoundTrip(x: seq<bv8>)
    ensures HexDecode(HexEncode(x)) == Ok(x)
  {
    PairsRoundTrip(x, 0);
  }

  lemma JoinNibbles(b: bv8)
    ensures b >> 4 < 16 && b & 0xf < 16 && ((b >> 4) << 4) | (b & 0xf) == b
  {
  }

  lemma {:induction false} PairsRoundTrip(x: seq<bv8>, offset: nat)
    ensures DecodePairs(HexEncode(x), offset) == Ok(x)
  {
    if x != [] {
      var b := x[0];
      var s := HexEncode(x);
      var hp, t := HexPair(b), HexEncode(x[1..]);
      assert s == hp + t;
      assert s[0] == hp[0] && s[1] == hp[1] && s[2..] == t;
      PairsRoundTrip(x[1..], offset + 2);
      DecodePairsByte(s, offset, b, x[1..]);
      assert [b] + x[1..] == x;
    }
  }

  /** A string starting with the two digits of `b` decodes to `b` followed by the rest. */
  lemma DecodePairsByte(s: string, offset: nat, b: bv8, rest: seq<bv8>)
    requires |s| >= 2 && |s| % 2 == 0
    requires s[0] == HexPair(b)[0] && s[1] == HexPair(b)[1]
    requires DecodePairs(s[2..], offset + 2) == Ok(rest)
    ensures DecodePairs(s, offset) == Ok([b] + rest)
  {
    HexPairDecodes(b);
    DecodePairsCons(s, offset, b >> 4, b & 0xf, rest);
  }

  /** The two digits of a byte decode to its two nibbles, which join back to the byte. */
  lemma HexPairDecodes(b: bv8)
    ensures DigitValue(HexPair(b)[0]) == Some(b >> 4) && DigitValue(HexPair(b)[1]) == Some(b & 0xf)
    ensures ((b >> 4) << 4) | (b & 0xf) == b
  {
    JoinNibbles(b);
    DigitValueOfLowerDigit(b >> 4);
    DigitValueOfLowerDigit(b & 0xf);
  }

  lemma DecodePairsCons(s: string, offset: nat, hi: bv8, lo: bv8, rest: seq<bv8>)
    requires |s| >= 2 && |s| % 2 == 0
    requires DigitValue(s[0]) == Some(hi) && DigitValue(s[1]) == Some(lo)
    requires DecodePairs(s[2..], offset + 2) == Ok(rest)
    ensures DecodePairs(s, offset) == Ok([(hi << 4) | lo] + rest)
  {
  }

  // -------------------------------------------------------------------------
  // Hex string readers

  /** An odd number of digits is first left-padded with one '0'. */
  function PadOdd(s: string): (r: string)
    ensures |r| % 2 == 0
    ensures |r| == |s| || |r| == |s| + 1
    ensures r[|r| - |s|..] == s && forall i :: 0 <= i < |r| - |s| ==> r[i] == '0'
  {
    if |s| % 2 != 0 then ['0'] + s else s
  }

  /** The bytes both readers take from `s`: `hex::decode` of the padded string. */
  function DecodePadded(s: string): (r: Result<seq<bv8>, CryptoError>)
    ensures r.Ok? <==> forall i :: 0 <= i < |s| ==> IsHexDigit(s[i])
    ensures r.Ok? ==> |r.value| == (|s| + 1) / 2
    ensures r.Err? ==> r.error.Hex? && r.error.cause.InvalidHexCharacter?
  {
    var p := PadOdd(s);
    assert forall i :: 0 <= i < |s| ==> s[i] == p[|p| - |s| + i];
    match HexDecode(p)
    case Ok(v) => Ok(v)
    case Err(e) => Err(Hex(e))
  }

  /**
   * `hexstr_to_bev_u8`: the decoded bytes go to the front of `x` in order and
   * the rest of `x` is zeroed; a decoding error or a buffer too short for the
   * bytes leaves `x` untouched.
   */
  method HexStrToBev(s: string, x: array<bv8>) returns (r: Result<(), CryptoError>)
    modifies x
    ensures match DecodePadded(s)
      case Err(e) => r == Err(e) && x[..] == old(x[..])
      case Ok(v) =>
        if x.Length < |v| then r == Err(InvalidHexLength) && x[..] == old(x[..])
        else r == Ok(()) && x[..] == v + Zeros(x.Length - |v|)
  {
    var d := DecodePadded(s);
    if d.Err? {
      return Err(d.error);
    }
    var v := d.value;
    var nel := x.Length;
    if nel < |v| {
      return Err(InvalidHexLength);
    }
    var ix := 0;
    while ix < |v|
      invariant 0 <= ix <= |v|
      invariant x[..ix] == v[..ix]
    {
      x[ix] := v[ix];
      ix := ix + 1;
    }
    while ix < nel
      invariant |v| <= ix <= nel
      invariant x[..|v|] == v
      invariant forall k :: |v| <= k < ix ==> x[k] == 0
    {
      x[ix] := 0;
      ix := ix + 1;
    }
    assert x[..] == v + Zeros(nel - |v|);
    return Ok(());
  }

  /**
   * `hexstr_to_lev_u8`: the decoded bytes go to the front of `x` in reverse
   * order (least significant first) and the rest of `x` is zeroed; the result
   * is `Ok(true)`. Errors leave `x` untouched.
   */
  method HexStrToLev(s: string, x: array<bv8>) returns (r: Result<bool, CryptoError>)
    modifies x
    ensures match DecodePadded(s)
      case Err(e) => r == Err(e) && x[..] == old(x[..])
      case Ok(v) =>
        if x.Length < |v| then r == Err(InvalidHexLength) && x[..] == old(x[..])
        else r == Ok(true) && x[..] == Reverse(v) + Zeros(x.Length - |v|)
  {
    var d := DecodePadded(s);
    if d.Err? {
      return Err(d.error);
    }
    var v := d.value;
    var nel := x.Length;
    if nel < |v| {
      return Err(InvalidHexLength);
    }
    FillLev(v, x);
    r := Ok(true);
  }

  /**
   * The filling loops of `hexstr_to_lev_u8`: from the top of `x` down, first
   * zeros for the missing bytes, then the bytes of `v` in order.
   */
  method FillLev(v: seq<bv8>, x: array<bv8>)
    requires |v| <= x.Length
    modifies x
    ensures x[..] == Reverse(v) + Zeros(x.Length - |v|)
  {
    var nel := x.Length;
    var ix := nel;
    while ix > |v|
      invariant |v| <= ix <= nel
      invariant forall k :: ix <= k < nel ==> x[k] == 0
    {
      ix := ix - 1;
      x[ix] := 0;
    }
    for n := 0 to |v|
      invariant ix == |v| - n
      invariant forall k :: |v| <= k < nel ==> x[k] == 0
      invariant forall k :: ix <= k < |v| ==> x[k] == v[|v| - 1 - k]
    {
      ix := ix - 1;
      x[ix] := v[n];
    }
    ReversedThenZeros(x[..], v);
  }

  /** A buffer holding `v` backwards and then zeros is `Reverse(v) + Zeros(..)`. */
  lemma ReversedThenZeros(xs: seq<bv8>, v: seq<bv8>)
    requires |v| <= |xs|
    requires forall k :: 0 <= k < |v| ==> xs[k] == v[|v| - 1 - k]
    requires forall k :: |v| <= k < |xs| ==> xs[k] == 0
    ensures xs == Reverse(v) + Zeros(|xs| - |v|)
  {
    var want := Reverse(v) + Zeros(|xs| - |v|);
    forall k | 0 <= k < |xs| ensures xs[k] == want[k] {
      if k < |v| {
        assert want[k] == Reverse(v)[k];
      } else {
        assert want[k] == Zeros(|xs| - |v|)[k - |v|];
      }
    }
  }

  // -------------------------------------------------------------------------
  // Hex writer

  /** `u8v_to_hexstr`: two lowercase hex digits per byte, in order. */
  method U8vToHexStr(x: seq<bv8>) returns (s: string)
    ensures s == HexEncode(x)
  {
    s := "";
    var ix := 0;
    while ix < |x|
      invariant 0 <= ix <= |x|
      invariant s == HexEncode(x[..ix])
    {
      HexEncodeSnoc(x[..ix], x[ix]);
      assert x[..ix + 1] == x[..ix] + [x[ix]];
      s := s + HexPair(x[ix]);
      ix := ix + 1;
    }
    assert x[..ix] == x;
  }

  /**
   * Writing bytes as hex and reading the string back with
   * `hexstr_to_bev_u8` into a buffer of the same length restores them.
   */
  method HexBufferRoundTrip(x: seq<bv8>) returns (buf: array<bv8>, r: Result<(), CryptoError>)
    ensures r == Ok(()) && buf[..] == x
  {
    var s := U8vToHexStr(x);
    HexRoundTrip(x);
    assert PadOdd(s) == s;
    buf := new bv8[|x|];
    r := HexStrToBev(s, buf);
    assert Zeros(0) + [] == [];
    assert x + Zeros(0) == x;
  }

  // -------------------------------------------------------------------------
  // Numeric reading of byte vectors and hex strings

  function Pow16(e: nat): (r: nat)
    ensures r > 0
  {
    if e == 0 then 1 else 16 * Pow16(e - 1)
  }

  function Pow256(e: nat): (r: nat)
    ensures r > 0
  {
    if e == 0 then 1 else 256 * Pow256(e - 1)
  }

  lemma {:induction false} Pow16Twice(n: nat)
    ensures Pow16(2 * n) == Pow256(n)
  {
    if n > 0 {
      Pow16Twice(n - 1);
      assert Pow16(2 * n) == 16 * (16 * Pow16(2 * (n - 1)));
    }
  }

  /** The unsigned number a big-endian byte vector denotes. */
  function BeValue(s: seq<bv8>): nat
  {
    if s == [] then 0 else (s[0] as nat) * Pow256(|s| - 1) + BeValue(s[1..])
  }

  /** The unsigned number a little-endian byte vector denotes. */
  function LeValue(s: seq<bv8>): nat
  {
    if s == [] then 0 else s[0] as nat + 256 * LeValue(s[1..])
  }

  /** The number a string of hex digits denotes, most significant digit first. */
  function HexValue(s: string): nat
    requires forall i :: 0 <= i < |s| ==> IsHexDigit(s[i])
  {
    if s == [] then 0
    else
      var t := s[1..];
      assert forall i :: 0 <= i < |t| ==> t[i] == s[i + 1];
      (DigitValue(s[0]).value as nat) * Pow16(|t|) + HexValue(t)
  }

  lemma {:induction false} BeValueBound(s: seq<bv8>)
    ensures BeValue(s) < Pow256(|s|)
  {
    if s != [] {
      BeValueBound(s[1..]);
      DigitBound(s[0] as nat, Pow256(|s| - 1), BeValue(s[1..]), 256);
    }
  }

  /** A digit below `base` times `p`, plus a rest below `p`, stays below `base * p`. */
  lemma DigitBound(x: nat, p: nat, rest: nat, base: nat)
    requires x < base && rest < p
    ensures x * p + rest < base * p
  {
    MulMonotone(x, base - 1, p);
  }

  lemma {:induction false} BeValueSnoc(s: seq<bv8>, c: bv8)
    ensures BeValue(s + [c]) == 256 * BeValue(s) + c as nat
  {
    if s != [] {
      assert (s + [c])[1..] == s[1..] + [c];
      BeValueSnoc(s[1..], c);
      ShiftDigit(s[0] as nat, Pow256(|s| - 1), BeValue(s[1..]), c as nat);
    }
  }

  lemma ShiftDigit(x: nat, p: nat, rest: nat, c: nat)
    ensures x * (256 * p) + (256 * rest + c) == 256 * (x * p + rest) + c
  {
    assert x * (256 * p) == 256 * (x * p);
  }

  /** A little-endian vector denotes the number its reversal denotes big-endian. */
  lemma {:induction false} LeValueIsReversedBe(s: seq<bv8>)
    ensures LeValue(s) == BeValue(Reverse(s))
  {
    if s != [] {
      LeValueIsReversedBe(s[1..]);
      assert Reverse(s) == Reverse(s[1..]) + [s[0]];
      BeValueSnoc(Reverse(s[1..]), s[0]);
    }
  }

  lemma {:induction false} LeValueZeroTail(t: seq<bv8>, k: nat)
    ensures LeValue(t + Zeros(k)) == LeValue(t)
  {
    if t == [] {
      assert t + Zeros(k) == Zeros(k);
      if k > 0 {
        assert Zeros(k)[1..] == Zeros(k - 1) == [] + Zeros(k - 1);
        LeValueZeroTail([], k - 1);
      }
    } else {
      assert (t + Zeros(k))[1..] == t[1..] + Zeros(k);
      LeValueZeroTail(t[1..], k);
    }
  }

  lemma NibblesValue(hi: bv8, lo: bv8)
    requires hi < 16 && lo < 16
    ensures ((hi << 4) | lo) as nat == 16 * (hi as nat) + lo as nat
  {
  }

  /** The decoded bytes, read big-endian, are the number the hex digits denote. */
  lemma {:induction false} DecodePairsValue(s: string, offset: nat)
    requires |s| % 2 == 0 && DecodePairs(s, offset).Ok?
    ensures BeValue(DecodePairs(s, offset).value) == HexValue(s)
    decreases |s|
  {
    if s != [] {
      var hi, lo := DigitValue(s[0]).value, DigitValue(s[1]).value;
      var w := DecodePairs(s[2..], offset + 2).value;
      DecodePairsCons(s, offset, hi, lo, w);
      DecodePairsValue(s[2..], offset + 2);
      NibblesValue(hi, lo);
      HexValueLeadingPair(s);
      Pow16Twice(|w|);
      var v := [(hi << 4) | lo] + w;
      assert v[1..] == w;
    }
  }

  /** The first two digits of a hex string make one base-256 digit. */
  lemma HexValueLeadingPair(s: string)
    requires |s| >= 2 && forall i :: 0 <= i < |s| ==> IsHexDigit(s[i])
    ensures HexValue(s) == (16 * (DigitValue(s[0]).value as nat) + DigitValue(s[1]).value as nat) * Pow16(|s| - 2) + HexValue(s[2..])
  {
    var h, l, p := DigitValue(s[0]).value as nat, DigitValue(s[1]).value as nat, Pow16(|s| - 2);
    assert s[1..][1..] == s[2..];
    assert HexValue(s[1..]) == l * p + HexValue(s[2..]);
    PairArith(h, l, p, HexValue(s[2..]));
  }

  lemma PairArith(h: nat, l: nat, p: nat, rest: nat)
    ensures h * (16 * p) + (l * p + rest) == (16 * h + l) * p + rest
  {
    assert (16 * h + l) * p == 16 * (h * p) + l * p;
  }

  lemma HexValuePadOdd(s: string)
    requires forall i :: 0 <= i < |s| ==> IsHexDigit(s[i])
    ensures forall i :: 0 <= i < |PadOdd(s)| ==> IsHexDigit(PadOdd(s)[i])
    ensures HexValue(PadOdd(s)) == HexValue(s)
  {
    var p := PadOdd(s);
    if |s| % 2 != 0 {
      assert p == ['0'] + s && p[1..] == s;
      assert forall i :: 1 <= i < |p| ==> p[i] == s[i - 1];
      assert DigitValue(p[0]) == Some(0);
    } else {
      assert p == s;
    }
  }

  /**
   * Both readers keep the number the hex string denotes: the bytes
   * `hexstr_to_bev_u8` puts first in the buffer read big-endian, and the whole
   * buffer `hexstr_to_lev_u8` fills read little-endian.
   */
  lemma HexReadersKeepValue(s: string, n: nat)
    requires DecodePadded(s).Ok? && |DecodePadded(s).value| <= n
    ensures forall i :: 0 <= i < |s| ==> IsHexDigit(s[i])
    ensures BeValue(DecodePadded(s).value) == HexValue(s)
    ensures LeValue(Reverse(DecodePadded(s).value) + Zeros(n - |DecodePadded(s).value|)) == HexValue(s)
  {
    var v := DecodePadded(s).value;
    HexValuePadOdd(s);
    DecodePairsValue(PadOdd(s), 0);
    LeValueZeroTail(Reverse(v), n - |v|);
    LeValueIsReversedBe(Reverse(v));
    assert Reverse(Reverse(v)) == v;
  }

  lemma {:induction false} Pow256Add(a: nat, b: nat)
    ensures Pow256(a + b) == Pow256(a) * Pow256(b)
  {
    if a > 0 {
      Pow256Add(a - 1, b);
      assert Pow256(a + b) == 256 * Pow256(a - 1 + b);
    }
  }

  /** Zero bytes appended to a big-endian vector multiply its value by 256 each. */
  lemma {:induction false} BeValueZeroTail(a: seq<bv8>, k: nat)
    ensures BeValue(a + Zeros(k)) == BeValue(a) * Pow256(k)
  {
    if a == [] {
      assert a + Zeros(k) == Zeros(k);
      BeValueZeroHead(k, []);
      assert Zeros(k) + [] == Zeros(k);
    } else {
      var t := a + Zeros(k);
      assert t[0] == a[0] && t[1..] == a[1..] + Zeros(k);
      BeValueZeroTail(a[1..], k);
      Pow256Add(|a| - 1, k);
      assert |t| - 1 == (|a| - 1) + k;
      assert BeValue(t) == (a[0] as nat) * Pow256((|a| - 1) + k) + BeValue(a[1..] + Zeros(k));
      Distribute(a[0] as nat, Pow256(|a| - 1), Pow256(k), BeValue(a[1..]));
    }
  }

  lemma Distribute(x: nat, p: nat, q: nat, r: nat)
    ensures x * (p * q) + r * q == (x * p + r) * q
  {
  }

  /** Zero bytes put in front of a big-endian vector leave its value alone. */
  lemma {:induction false} BeValueZeroHead(k: nat, a: seq<bv8>)
    ensures BeValue(Zeros(k) + a) == BeValue(a)
  {
    if k == 0 {
      assert Zeros(0) + a == a;
    } else {
      var t := Zeros(k) + a;
      assert t[0] == 0 && t[1..] == Zeros(k - 1) + a;
      BeValueZeroHead(k - 1, a);
    }
  }

  /**
   * As written, `hexstr_to_bev_u8` puts its zero padding after the decoded
   * bytes, at the least significant end: the buffer denotes the hex number
   * times `256` per padding byte, not the number.
   */
  lemma BevPaddingScales(s: string, n: nat)
    requires DecodePadded(s).Ok? && |DecodePadded(s).value| <= n
    ensures forall i :: 0 <= i < |s| ==> IsHexDigit(s[i])
    ensures BeValue(DecodePadded(s).value + Zeros(n - |DecodePadded(s).value|))
         == HexValue(s) * Pow256(n - |DecodePadded(s).value|)
  {
    HexReadersKeepValue(s, n);
    BeValueZeroTail(DecodePadded(s).value, n - |DecodePadded(s).value|);
  }

  /** Reading "1" into a two-byte buffer big-endian gives [0x01, 0x00], which is 256. */
  lemma BevPaddingCounterexample()
    ensures DecodePadded("1") == Ok([0x01])
    ensures [0x01] + Zeros(1) == [0x01, 0x00]
    ensures BeValue([0x01, 0x00]) == 256 && HexValue("1") == 1
  {
    var one: bv8 := 0x01;
    assert one >> 4 == 0 && one & 0xf == 1;
    assert HexEncode([one]) == HexPair(one) + HexEncode([]);
    assert HexEncode([one]) == "01";
    HexRoundTrip([one]);
    assert PadOdd("1") == "01";
  }

  /**
   * The big-endian buffer `hexstr_to_bev_u8` evidently means to fill: the
   * decoded bytes at the least significant end, zeros in front, so that it
   * denotes the number the bytes denote.
   */
  function BevFill(v: seq<bv8>, n: nat): (x: seq<bv8>)
    requires |v| <= n
    ensures |x| == n && x[n - |v|..] == v
    ensures forall i :: 0 <= i < n - |v| ==> x[i] == 0
    ensures BeValue(x) == BeValue(v)
  {
    BeValueZeroHead(n - |v|, v);
    Zeros(n - |v|) + v
  }

  /** The corrected big-endian buffer denotes the number the hex string denotes. */
  lemma BevFillKeepsValue(s: string, n: nat)
    requires DecodePadded(s).Ok? && |DecodePadded(s).value| <= n
    ensures forall i :: 0 <= i < |s| ==> IsHexDigit(s[i])
    ensures BeValue(BevFill(DecodePadded(s).value, n)) == HexValue(s)
  {
    HexReadersKeepValue(s, n);
  }

  // -------------------------------------------------------------------------
  // Unsigned comparison

  /** `ucmp_be`: the first differing byte of the common prefix, scanned from index 0, decides. */
  function UcmpBe(a: seq<bv8>, b: seq<bv8>): (r: Ordering)
    ensures r == Equal <==> a[..Min(|a|, |b|)] == b[..Min(|a|, |b|)]
    decreases |a|
  {
    if a == [] || b == [] then Equal
    else
      PrefixCons(a, b);
      if a[0] < b[0] then Less
      else if a[0] > b[0] then Greater
      else UcmpBe(a[1..], b[1..])
  }

  /** Two common prefixes agree iff their first bytes and the rest of them agree. */
  lemma PrefixCons(a: seq<bv8>, b: seq<bv8>)
    requires a != [] && b != []
    ensures a[..Min(|a|, |b|)] == b[..Min(|a|, |b|)] <==>
      a[0] == b[0] && a[1..][..Min(|a| - 1, |b| - 1)] == b[1..][..Min(|a| - 1, |b| - 1)]
  {
    var m := Min(|a|, |b|);
    var pa, pb := a[..m], b[..m];
    assert pa == [a[0]] + a[1..][..m - 1] && pa[0] == a[0] && pa[1..] == a[1..][..m - 1];
    assert pb == [b[0]] + b[1..][..m - 1] && pb[0] == b[0] && pb[1..] == b[1..][..m - 1];
  }

  /** `ucmp_le`: the first differing byte of the common prefix, scanned from its top index down, decides. */
  function UcmpLe(a: seq<bv8>, b: seq<bv8>): (r: Ordering)
    ensures r == Equal <==> a[..Min(|a|, |b|)] == b[..Min(|a|, |b|)]
  {
    UcmpLeBelow(a, b, Min(|a|, |b|))
  }

  function UcmpLeBelow(a: seq<bv8>, b: seq<bv8>, n: nat): (r: Ordering)
    requires n <= |a| && n <= |b|
    ensures r == Equal <==> a[..n] == b[..n]
  {
    if n == 0 then Equal
    else if a[n - 1] < b[n - 1] then Less
    else if a[n - 1] > b[n - 1] then Greater
    else
      var r := UcmpLeBelow(a, b, n - 1);
      assert a[..n] == a[..n - 1] + [a[n - 1]] && b[..n] == b[..n - 1] + [b[n - 1]];
      r
  }

  /** `ucmp_be` looks at the common prefix only: the longer input's tail never matters. */
  lemma {:induction false} UcmpBeCommonPrefix(a: seq<bv8>, b: seq<bv8>)
    ensures UcmpBe(a, b) == UcmpBe(a[..Min(|a|, |b|)], b[..Min(|a|, |b|)])
    decreases |a|
  {
    var m := Min(|a|, |b|);
    var a2, b2 := a[..m], b[..m];
    if m > 0 {
      assert a2[0] == a[0] && b2[0] == b[0];
      if a[0] == b[0] {
        UcmpBeCommonPrefix(a[1..], b[1..]);
        assert Min(|a| - 1, |b| - 1) == m - 1;
        assert a2[1..] == a[1..][..m - 1];
        assert b2[1..] == b[1..][..m - 1];
      }
    }
  }

  /** For inputs of one length, `ucmp_be` orders them as the big-endian numbers they denote. */
  lemma {:induction false} UcmpBeOrdersValues(a: seq<bv8>, b: seq<bv8>)
    requires |a| == |b|
    ensures UcmpBe(a, b) == Less <==> BeValue(a) < BeValue(b)
    ensures UcmpBe(a, b) == Equal <==> BeValue(a) == BeValue(b)
    ensures UcmpBe(a, b) == Greater <==> BeValue(a) > BeValue(b)
    decreases |a|
  {
    if a != [] {
      if a[0] < b[0] {
        LeadingByteDecides(a, b);
      } else if a[0] > b[0] {
        LeadingByteDecides(b, a);
      } else {
        UcmpBeOrdersValues(a[1..], b[1..]);
      }
    }
  }

  /** Of two big-endian vectors of one length, the one with the smaller first byte is smaller. */
  lemma LeadingByteDecides(a: seq<bv8>, b: seq<bv8>)
    requires |a| == |b| > 0 && a[0] < b[0]
    ensures BeValue(a) < BeValue(b)
  {
    var p := Pow256(|a| - 1);
    BeValueBound(a[1..]);
    BeValueBound(b[1..]);
    ByteOrder(a[0], b[0]);
    LeadingDigitDecides(a[0] as nat, b[0] as nat, p, BeValue(a[1..]), BeValue(b[1..]));
  }

  lemma ByteOrder(x: bv8, y: bv8)
    ensures (x < y <==> x as nat < y as nat) && (x == y <==> x as nat == y as nat)
  {
  }

  /** In a positional number, a smaller leading digit wins whatever follows it. */
  lemma LeadingDigitDecides(x: nat, y: nat, p: nat, rx: nat, ry: nat)
    requires x < y && rx < p && ry < p
    ensures x * p + rx < y * p + ry
  {
    MulMonotone(x + 1, y, p);
  }

  lemma MulMonotone(x: nat, y: nat, p: nat)
    requires x <= y
    ensures x * p <= y * p
  {
  }

  /** `ucmp_le` is `ucmp_be` on the reversed common prefix. */
  lemma {:induction false} UcmpLeIsReversedBe(a: seq<bv8>, b: seq<bv8>, n: nat)
    requires n <= |a| && n <= |b|
    ensures UcmpLeBelow(a, b, n) == UcmpBe(Reverse(a[..n]), Reverse(b[..n]))
  {
    if n > 0 {
      UcmpLeIsReversedBe(a, b, n - 1);
      assert Reverse(a[..n])[1..] == Reverse(a[..n - 1]);
      assert Reverse(b[..n])[1..] == Reverse(b[..n - 1]);
    }
  }

  /** For inputs of one length, `ucmp_le` orders them as the little-endian numbers they denote. */
  lemma UcmpLeOrdersValues(a: seq<bv8>, b: seq<bv8>)
    requires |a| == |b|
    ensures UcmpLe(a, b) == Less <==> LeValue(a) < LeValue(b)
    ensures UcmpLe(a, b) == Equal <==> LeValue(a) == LeValue(b)
    ensures UcmpLe(a, b) == Greater <==> LeValue(a) > LeValue(b)
  {
    assert a[..|a|] == a && b[..|b|] == b;
    UcmpLeIsReversedBe(a, b, |a|);
    UcmpBeOrdersValues(Reverse(a), Reverse(b));
    LeValueIsReversedBe(a);
    LeValueIsReversedBe(b);
  }

  // -------------------------------------------------------------------------
  // Bits

  /** A bit position or shift amount below 8, as the `bv8` a shift takes. */
  function BitPos(n: nat): (r: bv8)
    requires n < 8
    ensures r < 8
  {
    if n == 0 then 0 else if n == 1 then 1 else if n == 2 then 2 else if n == 3 then 3
    else if n == 4 then 4 else if n == 5 then 5 else if n == 6 then 6 else 7
  }

  /** Bit `p` of `x`, counted from the most significant bit. */
  function MsbBit(x: bv8, p: nat): bv8
    requires p < 8
  {
    (x >> BitPos(7 - p)) & 1
  }

  /** Bit `p` of `x`, counted from the least significant bit. */
  function LsbBit(x: bv8, p: nat): bv8
    requires p < 8
  {
    (x >> BitPos(p)) & 1
  }

  /** Bit `i` of a big-endian vector, bit 0 being the most significant bit of `s[0]`. */
  function BeBit(s: seq<bv8>, i: nat): bv8
    requires i < 8 * |s|
  {
    MsbBit(s[i / 8], i % 8)
  }

  /** Bit `i` of a little-endian vector, bit 0 being the least significant bit of `s[0]`. */
  function LeBit(s: seq<bv8>, i: nat): bv8
    requires i < 8 * |s|
  {
    LsbBit(s[i / 8], i % 8)
  }

  function BitChar(b: bv8): char {
    if b == 1 then '1' else '0'
  }

  lemma BitTest(x: bv8, p: nat)
    requires p < 8
    ensures (x & (1 << BitPos(p)) != 0) <==> LsbBit(x, p) == 1
  {
    var pb := BitPos(p);
    assert (x & (1 << pb) != 0) <==> (x >> pb) & 1 == 1;
  }

  /**
   * `print_nbits`: "[" then the first `nbits` bits of `data`, bit `i % 8`
   * (least significant first) of byte `i / 8` as '0' or '1', then "]".
   * Writing into a `String` never fails, so the `fmt::Error` case is absent.
   */
  method PrintNbits(data: seq<bv8>, nbits: nat) returns (r: string)
    requires nbits <= 8 * |data|
    ensures |r| == nbits + 2 && r[0] == '[' && r[nbits + 1] == ']'
    ensures forall i :: 0 <= i < nbits ==> r[i + 1] == BitChar(LeBit(data, i))
  {
    r := "[";
    for i := 0 to nbits
      invariant |r| == i + 1 && r[0] == '['
      invariant forall k :: 0 <= k < i ==> r[k + 1] == BitChar(LeBit(data, k))
    {
      var byte := i / 8;
      var bit := i % 8;
      BitTest(data[byte], bit);
      var num := if 0 != data[byte] & (1 << BitPos(bit)) then '1' else '0';
      r := r + [num];
    }
    r := r + "]";
  }

  // -------------------------------------------------------------------------
  // All-zero and all-one tests

  /**
   * The fold of `is_zero_bits`: every step discards the accumulator and
   * answers for the current byte alone, so only the last byte counts.
   */
  function FoldZeroBits(acc: bool, v: seq<bv8>): (r: bool)
    ensures r == if v == [] then acc else v[|v| - 1] == 0
    decreases |v|
  {
    if v == [] then acc else FoldZeroBits(v[0] == 0, v[1..])
  }

  /** `is_zero_bits` as written: false on an empty slice, else whether the last byte is 0x00. */
  function IsZeroBits(v: seq<bv8>): (r: bool)
    ensures r <==> |v| > 0 && v[|v| - 1] == 0
  {
    FoldZeroBits(false, v)
  }

  /** The fold of `is_one_bits`, which also discards the accumulator. */
  function FoldOneBits(acc: bool, v: seq<bv8>): (r: bool)
    ensures r == if v == [] then acc else v[|v| - 1] == 0xff
    decreases |v|
  {
    if v == [] then acc else FoldOneBits(v[0] == 0xff, v[1..])
  }

  /** `is_one_bits` as written: false on an empty slice, else whether the last byte is 0xff. */
  function IsOneBits(v: seq<bv8>): (r: bool)
    ensures r <==> |v| > 0 && v[|v| - 1] == 0xff
  {
    FoldOneBits(false, v)
  }

  /** Whether every byte of `v` equals `b`. */
  function AllBytes(v: seq<bv8>, b: bv8): (r: bool)
    ensures r <==> forall i :: 0 <= i < |v| ==> v[i] == b
  {
    v == [] || (v[0] == b && AllBytes(v[1..], b))
  }

  /** The evidently intended zero test: a non-empty slice whose every byte is 0x00. */
  function AllZeroBits(v: seq<bv8>): (r: bool)
    ensures r <==> |v| > 0 && forall i :: 0 <= i < |v| ==> v[i] == 0
  {
    |v| > 0 && AllBytes(v, 0)
  }

  /** The evidently intended one test: a non-empty slice whose every byte is 0xff. */
  function AllOneBits(v: seq<bv8>): (r: bool)
    ensures r <==> |v| > 0 && forall i :: 0 <= i < |v| ==> v[i] == 0xff
  {
    |v| > 0 && AllBytes(v, 0xff)
  }

  /** As written, the tests accept every all-zero (all-one) slice, and also slices that are not. */
  lemma ZeroOneBitsCounterexample()
    ensures forall v :: AllZeroBits(v) ==> IsZeroBits(v)
    ensures forall v :: AllOneBits(v) ==> IsOneBits(v)
    ensures IsZeroBits([0x01, 0x00]) && !AllZeroBits([0x01, 0x00])
    ensures IsOneBits([0x00, 0xff]) && !AllOneBits([0x00, 0xff])
  {
    assert [0x01, 0x00][0] != 0 as bv8;
    assert [0x00, 0xff][0] != 0xff as bv8;
  }

  // -------------------------------------------------------------------------
  // Logical right shift

  /** The bits of `prev` that a right shift by `nbits` carries into the next byte; none when `nbits` is 0. */
  function CarryOut(prev: bv8, nbits: nat): bv8
    requires nbits < 8
  {
    if nbits == 0 then 0 else prev << BitPos(8 - nbits)
  }

  /** One byte after the shift: its own bits moved down by `nbits`, under the carry from its neighbour. */
  function ShiftedByte(x: bv8, carry: bv8, nbits: nat): bv8
    requires nbits < 8
  {
    carry | (x >> BitPos(nbits))
  }

  /** Byte `q` of `src` shifted right by `nbits`, under the carry from byte `q - 1` (big-endian). */
  function BeShiftedByte(src: seq<bv8>, q: nat, nbits: nat): bv8
    requires q < |src| && nbits < 8
  {
    ShiftedByte(src[q], if q == 0 then 0 else CarryOut(src[q - 1], nbits), nbits)
  }

  /** Byte `q` of `src` shifted right by `nbits`, under the carry from byte `q + 1` (little-endian). */
  function LeShiftedByte(src: seq<bv8>, q: nat, nbits: nat): bv8
    requires q < |src| && nbits < 8
  {
    ShiftedByte(src[q], if q + 1 < |src| then CarryOut(src[q + 1], nbits) else 0, nbits)
  }

  lemma MsbCore(a: bv8, b: bv8, k: bv8, p: bv8)
    requires k < 8 && p < 8
    ensures (((if k == 0 then 0 else b << (8 - k)) | (a >> k)) >> (7 - p)) & 1
         == if p >= k then (a >> (7 - (p - k))) & 1 else (b >> (7 - (p + 8 - k))) & 1
  {
  }

  lemma MsbGlue(p: nat, k: nat)
    requires p < 8 && k < 8
    ensures k > 0 ==> BitPos(8 - k) == 8 - BitPos(k)
    ensures BitPos(7 - p) == 7 - BitPos(p)
    ensures (p >= k) <==> (BitPos(p) >= BitPos(k))
    ensures p >= k ==> BitPos(7 - (p - k)) == 7 - (BitPos(p) - BitPos(k))
    ensures p < k ==> BitPos(7 - (p + 8 - k)) == 7 - (BitPos(p) + 8 - BitPos(k))
  {
  }

  /** Bit `p` (from the top) of a shifted byte comes from the byte itself or from its carry. */
  lemma MsbShifted(a: bv8, b: bv8, k: nat, p: nat)
    requires k < 8 && p < 8
    ensures MsbBit(ShiftedByte(a, CarryOut(b, k), k), p)
         == if p >= k then MsbBit(a, p - k) else MsbBit(b, p + 8 - k)
  {
    MsbCore(a, b, BitPos(k), BitPos(p));
    MsbGlue(p, k);
  }

  lemma LsbCore(a: bv8, b: bv8, k: bv8, p: bv8)
    requires k < 8 && p < 8
    ensures (((if k == 0 then 0 else b << (8 - k)) | (a >> k)) >> p) & 1
         == if p + k < 8 then (a >> (p + k)) & 1 else (b >> (p + k - 8)) & 1
  {
  }

  lemma LsbGlue(p: nat, k: nat)
    requires p < 8 && k < 8
    ensures k > 0 ==> BitPos(8 - k) == 8 - BitPos(k)
    ensures (p + k < 8) <==> (BitPos(p) + BitPos(k) < 8)
    ensures p + k < 8 ==> BitPos(p + k) == BitPos(p) + BitPos(k)
    ensures p + k >= 8 ==> BitPos(p + k - 8) == BitPos(p) + BitPos(k) - 8
  {
  }

  /** Bit `p` (from the bottom) of a shifted byte comes from the byte itself or from its carry. */
  lemma LsbShifted(a: bv8, b: bv8, k: nat, p: nat)
    requires k < 8 && p < 8
    ensures LsbBit(ShiftedByte(a, CarryOut(b, k), k), p)
         == if p + k < 8 then LsbBit(a, p + k) else LsbBit(b, p + k - 8)
  {
    LsbCore(a, b, BitPos(k), BitPos(p));
    LsbGlue(p, k);
  }

  lemma ZeroBits(p: nat)
    requires p < 8
    ensures MsbBit(0, p) == 0 && LsbBit(0, p) == 0
  {
  }

  /**
   * A big-endian vector `d` whose first `nsh / 8` bytes are zero and whose
   * other bytes are the shifted bytes of `src` holds `src` shifted right by
   * `nsh` bits.
   */
  lemma BeShiftBits(src: seq<bv8>, d: seq<bv8>, nsh: nat)
    requires |d| == |src|
    requires forall q :: 0 <= q < Min(nsh / 8, |src|) ==> d[q] == 0
    requires forall q :: 0 <= q < |src| - Min(nsh / 8, |src|) ==>
      d[q + nsh / 8] == BeShiftedByte(src, q, nsh % 8)
    ensures forall i :: 0 <= i < 8 * |src| ==> BeBit(d, i) == if i < nsh then 0 else BeBit(src, i - nsh)
  {
    forall i | 0 <= i < 8 * |src|
      ensures BeBit(d, i) == if i < nsh then 0 else BeBit(src, i - nsh)
    {
      var j, nb := i / 8, Min(nsh / 8, |src|);
      if j < nb {
        assert d[j] == 0;
        ZeroBits(i % 8);
      } else {
        var q := j - nb;
        assert nb == nsh / 8 && q < |src| - nb;
        assert d[q + nsh / 8] == BeShiftedByte(src, q, nsh % 8);
        BeShiftedBit(src, d[j], nsh, q, i);
      }
    }
  }

  /** One bit of byte `q + nsh / 8` of the big-endian shift. */
  lemma BeShiftedBit(src: seq<bv8>, dj: bv8, nsh: nat, q: nat, i: nat)
    requires q + nsh / 8 < |src| && i / 8 == q + nsh / 8
    requires dj == BeShiftedByte(src, q, nsh % 8)
    ensures MsbBit(dj, i % 8) == if i < nsh then 0 else BeBit(src, i - nsh)
  {
    var p, k := i % 8, nsh % 8;
    Split8(i);
    Split8(nsh);
    var prev: bv8 := if q == 0 then 0 else src[q - 1];
    assert CarryOut(0, k) == 0;
    MsbShifted(src[q], prev, k, p);
    if p >= k {
      BeBitAt(src, i - nsh, q, p - k);
    } else if q > 0 {
      BeBitAt(src, i - nsh, q - 1, p + 8 - k);
    } else {
      ZeroBits(p + 8 - k);
    }
  }

  lemma Split8(x: nat)
    ensures x == 8 * (x / 8) + x % 8 && x % 8 < 8
  {
  }

  lemma Unsplit8(x: nat, j: nat, p: nat)
    requires x == 8 * j + p && p < 8
    ensures x / 8 == j && x % 8 == p
  {
  }

  /** Bit `8 * j + p` of a big-endian vector is bit `p` of byte `j`. */
  lemma BeBitAt(s: seq<bv8>, i: nat, j: nat, p: nat)
    requires j < |s| && p < 8 && i == 8 * j + p
    ensures i < 8 * |s| && BeBit(s, i) == MsbBit(s[j], p)
  {
    Unsplit8(i, j, p);
  }

  /** Bit `8 * j + p` of a little-endian vector is bit `p` of byte `j`. */
  lemma LeBitAt(s: seq<bv8>, i: nat, j: nat, p: nat)
    requires j < |s| && p < 8 && i == 8 * j + p
    ensures i < 8 * |s| && LeBit(s, i) == LsbBit(s[j], p)
  {
    Unsplit8(i, j, p);
  }

  /**
   * A little-endian vector `d` whose last `nsh / 8` bytes are zero and whose
   * other bytes are the shifted bytes of `src` holds `src` shifted right by
   * `nsh` bits.
   */
  lemma LeShiftBits(src: seq<bv8>, d: seq<bv8>, nsh: nat)
    requires |d| == |src|
    requires forall q :: |src| - Min(nsh / 8, |src|) <= q < |src| ==> d[q] == 0
    requires forall q :: 0 <= q < |src| - Min(nsh / 8, |src|) ==>
      d[q] == LeShiftedByte(src, q + nsh / 8, nsh % 8)
    ensures forall i :: 0 <= i < 8 * |src| ==> LeBit(d, i) == if i + nsh < 8 * |src| then LeBit(src, i + nsh) else 0
  {
    forall i | 0 <= i < 8 * |src|
      ensures LeBit(d, i) == if i + nsh < 8 * |src| then LeBit(src, i + nsh) else 0
    {
      var j, nb := i / 8, Min(nsh / 8, |src|);
      if j >= |src| - nb {
        assert d[j] == 0;
        ZeroBits(i % 8);
      } else {
        assert nb == nsh / 8;
        LeShiftedBit(src, d[j], nsh, j, i);
      }
    }
  }

  /** One bit of byte `j` of the little-endian shift. */
  lemma LeShiftedBit(src: seq<bv8>, dj: bv8, nsh: nat, j: nat, i: nat)
    requires j + nsh / 8 < |src| && i / 8 == j
    requires dj == LeShiftedByte(src, j + nsh / 8, nsh % 8)
    ensures LsbBit(dj, i % 8) == if i + nsh < 8 * |src| then LeBit(src, i + nsh) else 0
  {
    var p, k, s := i % 8, nsh % 8, j + nsh / 8;
    Split8(i);
    Split8(nsh);
    var next: bv8 := if s + 1 < |src| then src[s + 1] else 0;
    assert CarryOut(0, k) == 0;
    LsbShifted(src[s], next, k, p);
    if p + k < 8 {
      LeBitAt(src, i + nsh, s, p + k);
    } else if s + 1 < |src| {
      LeBitAt(src, i + nsh, s + 1, p + k - 8);
    } else {
      ZeroBits(p + k - 8);
    }
  }

  /**
   * `ushr_be`, with the carry of a whole-byte shift corrected to zero: the
   * first `min(nsh / 8, len)` bytes of `dst` become zero and `dst` holds `src`
   * shifted right by `nsh` bits, big-endian.
   */
  method UshrBe(src: seq<bv8>, dst: array<bv8>, nsh: nat)
    requires |src| == dst.Length
    modifies dst
    ensures forall j :: 0 <= j < Min(nsh / 8, |src|) ==> dst[j] == 0
    ensures forall i :: 0 <= i < 8 * |src| ==> BeBit(dst[..], i) == if i < nsh then 0 else BeBit(src, i - nsh)
  {
    var len := |src|;
    var nb := if nsh / 8 >= len then len else nsh / 8;
    var nbits := nsh % 8;
    for j := 0 to nb
      invariant forall q :: 0 <= q < j ==> dst[q] == 0
    {
      dst[j] := 0;
    }
    var tmp: bv8 := 0;
    for k := 0 to len - nb
      invariant forall q :: 0 <= q < nb ==> dst[q] == 0
      invariant forall q :: 0 <= q < k ==>
        dst[q + nb] == BeShiftedByte(src, q, nbits)
      invariant tmp == if k == 0 then 0 else CarryOut(src[k - 1], nbits)
    {
      dst[k + nb] := tmp | (src[k] >> BitPos(nbits));
      tmp := CarryOut(src[k], nbits);
    }
    BeShiftBits(src, dst[..], nsh);
  }

  /**
   * `ushr_le`, with the carry of a whole-byte shift corrected to zero: the
   * last `min(nsh / 8, len)` bytes of `dst` become zero and `dst` holds `src`
   * shifted right by `nsh` bits, little-endian.
   */
  method UshrLe(src: seq<bv8>, dst: array<bv8>, nsh: nat)
    requires |src| == dst.Length
    modifies dst
    ensures forall j :: |src| - Min(nsh / 8, |src|) <= j < |src| ==> dst[j] == 0
    ensures forall i :: 0 <= i < 8 * |src| ==> LeBit(dst[..], i) == if i + nsh < 8 * |src| then LeBit(src, i + nsh) else 0
  {
    var len := |src|;
    var nb := if nsh / 8 >= len then len else nsh / 8;
    var nbits := nsh % 8;
    for j := len - nb to len
      invariant forall q :: len - nb <= q < j ==> dst[q] == 0
    {
      dst[j] := 0;
    }
    var tmp: bv8 := 0;
    var k := len - nb;
    while k > 0
      invariant 0 <= k <= len - nb
      invariant forall q :: len - nb <= q < len ==> dst[q] == 0
      invariant forall q :: k <= q < len - nb ==>
        dst[q] == LeShiftedByte(src, q + nb, nbits)
      invariant tmp == if k == len - nb then 0 else CarryOut(src[k + nb], nbits)
    {
      k := k - 1;
      dst[k] := tmp | (src[k + nb] >> BitPos(nbits));
      tmp := CarryOut(src[k + nb], nbits);
    }
    LeShiftBits(src, dst[..], nsh);
  }

  /**
   * `*x << lsh` on a `u8` as a release build computes it: the shift amount is
   * taken modulo 8, so for `lsh == 8` (a whole-byte shift) the byte is kept
   * instead of dropped. A debug build panics there instead.
   */
  function CarryOutAsWritten(prev: bv8, nbits: nat): (r: bv8)
    requires nbits < 8
    ensures nbits != 0 ==> r == CarryOut(prev, nbits)
    ensures nbits == 0 ==> r == prev
  {
    prev << BitPos((8 - nbits) % 8)
  }

  /** `ushr_be` as written, compiled in release mode: the new contents of `dst`. */
  function UshrBeAsWritten(src: seq<bv8>, nsh: nat): (dst: seq<bv8>)
    ensures |dst| == |src|
    ensures forall j :: 0 <= j < Min(nsh / 8, |src|) ==> dst[j] == 0
  {
    var nb, nbits := Min(nsh / 8, |src|), nsh % 8;
    seq(|src|, j requires 0 <= j < |src| =>
      if j < nb then 0
      else ShiftedByte(src[j - nb], if j == nb then 0 else CarryOutAsWritten(src[j - nb - 1], nbits), nbits))
  }

  /** `ushr_le` as written, compiled in release mode: the new contents of `dst`. */
  function UshrLeAsWritten(src: seq<bv8>, nsh: nat): (dst: seq<bv8>)
    ensures |dst| == |src|
    ensures forall j :: |src| - Min(nsh / 8, |src|) <= j < |src| ==> dst[j] == 0
  {
    var nb, nbits := Min(nsh / 8, |src|), nsh % 8;
    seq(|src|, j requires 0 <= j < |src| =>
      if j >= |src| - nb then 0
      else ShiftedByte(src[j + nb], if j + nb + 1 < |src| then CarryOutAsWritten(src[j + nb + 1], nbits) else 0, nbits))
  }

  /** As written, the shifts are right whenever `nsh` is not a multiple of 8. */
  lemma UshrAsWrittenOffByteBoundary(src: seq<bv8>, nsh: nat)
    requires nsh % 8 != 0
    ensures forall i :: 0 <= i < 8 * |src| ==>
      BeBit(UshrBeAsWritten(src, nsh), i) == if i < nsh then 0 else BeBit(src, i - nsh)
    ensures forall i :: 0 <= i < 8 * |src| ==>
      LeBit(UshrLeAsWritten(src, nsh), i) == if i + nsh < 8 * |src| then LeBit(src, i + nsh) else 0
  {
    var nb, nbits := Min(nsh / 8, |src|), nsh % 8;
    var be, le := UshrBeAsWritten(src, nsh), UshrLeAsWritten(src, nsh);
    forall q | 0 <= q < |src| - nb
      ensures be[q + nsh / 8] == BeShiftedByte(src, q, nbits)
      ensures le[q] == LeShiftedByte(src, q + nsh / 8, nbits)
    {
      assert nb == nsh / 8;
      var c := if q == 0 then 0 else CarryOutAsWritten(src[q - 1], nbits);
      assert be[q + nb] == ShiftedByte(src[q], c, nbits);
      var e := if q + nb + 1 < |src| then CarryOutAsWritten(src[q + nb + 1], nbits) else 0;
      assert le[q] == ShiftedByte(src[q + nb], e, nbits);
    }
    BeShiftBits(src, be, nsh);
    LeShiftBits(src, le, nsh);
  }

  /**
   * As written, a shift by 0 bits (or any multiple of 8) ORs each byte with
   * its neighbour: [0x01, 0x02] becomes [0x01, 0x03] big-endian and
   * [0x03, 0x02] little-endian, where both should stay [0x01, 0x02].
   */
  lemma UshrAsWrittenByteAlignedCounterexample()
    ensures UshrBeAsWritten([0x01, 0x02], 0) == [0x01, 0x03]
    ensures BeBit([0x01, 0x03], 15) != BeBit([0x01, 0x02], 15)
    ensures UshrLeAsWritten([0x01, 0x02], 0) == [0x03, 0x02]
    ensures LeBit([0x03, 0x02], 1) != LeBit([0x01, 0x02], 1)
  {
    assert CarryOutAsWritten(0x01, 0) == 0x01 && CarryOutAsWritten(0x02, 0) == 0x02;
    assert ShiftedByte(0x02, 0x01, 0) == 0x03 && ShiftedByte(0x01, 0x02, 0) == 0x03;
    assert ShiftedByte(0x01, 0, 0) == 0x01 && ShiftedByte(0x02, 0, 0) == 0x02;
    var be := UshrBeAsWritten([0x01, 0x02], 0);
    assert be[0] == 0x01 && be[1] == 0x03;
    var le := UshrLeAsWritten([0x01, 0x02], 0);
    assert le[0] == 0x03 && le[1] == 0x02;
  }
}
