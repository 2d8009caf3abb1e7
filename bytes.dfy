/**
 * The byte-string codecs the lock client takes from okio's ByteString:
 * lower-case hex (`hex()`), hex decoding (`decodeHex()`), URL-safe base64
 * with padding (`base64Url()`, section 5 of RFC 4648) and the lenient base64
 * decoder (`decodeBase64()`) that accepts both the standard and the URL-safe
 * alphabet.
 */
module Bytes {
  import opened Wrappers

  newtype byte = x: int | 0 <= x < 256

  /** The byte that ends every response of the lock. */
  const SENTINEL: byte := 0x20

  // ---------------------------------------------------------------- hex

  function HexDigit(n: int): char
    requires 0 <= n < 16
  {
    if n < 10 then ('0' as int + n) as char else ('a' as int + n - 10) as char
  }

  /** The value of one hex digit; either case is accepted, anything else fails. */
  function HexValue(c: char): (r: Option<int>)
    ensures r.Some? ==> 0 <= r.value < 16
    ensures r.Some? <==> ('0' <= c <= '9' || 'a' <= c <= 'f' || 'A' <= c <= 'F')
  {
    if '0' <= c <= '9' then Some(c as int - '0' as int)
    else if 'a' <= c <= 'f' then Some(c as int - 'a' as int + 10)
    else if 'A' <= c <= 'F' then Some(c as int - 'A' as int + 10)
    else None
  }

  /** okio `ByteString.hex()`: two lower-case digits per byte, high nibble first. */
  function Hex(b: seq<byte>): (s: string)
    ensures |s| == 2 * |b|
  {
    if b == [] then ""
    else [HexDigit(b[0] as int / 16), HexDigit(b[0] as int % 16)] + Hex(b[1..])
  }

  /**
   * okio `String.decodeHex()`: an odd length or a character that is not a hex
   * digit makes it throw, which is `None` here.
   */
  function DecodeHex(s: string): (r: Option<seq<byte>>)
    ensures r.Some? ==> 2 * |r.value| == |s|
    decreases |s|
  {
    if |s| % 2 != 0 then None
    else if |s| == 0 then Some([])
    else
      match (HexValue(s[0]), HexValue(s[1]), DecodeHex(s[2..]))
      case (Some(hi), Some(lo), Some(rest)) => Some([(hi * 16 + lo) as byte] + rest)
      case _ => None
  }

  /**
   * Decoding fails exactly on an odd length or a character that is not a
   * hex digit; both letter cases are accepted.
   */
  lemma {:induction false} DecodeHexSome(s: string)
    ensures DecodeHex(s).Some? <==> |s| % 2 == 0 && forall i :: 0 <= i < |s| ==> HexValue(s[i]).Some?
    decreases |s|
  {
    if |s| % 2 == 0 && |s| > 0 {
      var t := s[2..];
      DecodeHexSome(t);
      assert forall i :: 2 <= i < |s| ==> s[i] == t[i - 2];
      if forall i :: 0 <= i < |s| ==> HexValue(s[i]).Some? {
        assert forall i :: 0 <= i < |t| ==> HexValue(t[i]).Some? by {
          forall i | 0 <= i < |t| ensures HexValue(t[i]).Some? {
            assert t[i] == s[i + 2];
          }
        }
      }
    }
  }

  /** Decoding the hex of any byte string gives those bytes back. */
  lemma {:induction false} HexRoundTrip(b: seq<byte>)
    ensures DecodeHex(Hex(b)) == Some(b)
  {
    if b != [] {
      var s := Hex(b);
      var hi, lo := b[0] as int / 16, b[0] as int % 16;
      HexRoundTrip(b[1..]);
      HexDigitValue(hi);
      HexDigitValue(lo);
      assert s[0] == HexDigit(hi) && s[1] == HexDigit(lo) && s[2..] == Hex(b[1..]);
      assert (hi * 16 + lo) as byte == b[0];
      assert DecodeHex(s) == Some([b[0]] + b[1..]);
      assert b == [b[0]] + b[1..];
    }
  }

  lemma HexDigitValue(n: int)
    requires 0 <= n < 16
    ensures HexValue(HexDigit(n)) == Some(n)
  {
  }

  /** The hex string "20" is the hex of the lone sentinel byte and of nothing else. */
  lemma HexIsSentinel(b: seq<byte>)
    ensures Hex(b) == "20" <==> b == [SENTINEL]
  {
    if Hex(b) == "20" {
      HexRoundTrip(b);
      var s := "20";
      assert s[0] == '2' && s[1] == '0' && s[2..] == "";
      assert HexValue(s[0]) == Some(2) && HexValue(s[1]) == Some(0);
      assert DecodeHex(s[2..]) == Some([]);
      assert DecodeHex(s) == Some([(2 * 16 + 0) as byte] + []);
    }
  }

  // ------------------------------------------------------------- base64

  /** The URL-safe alphabet of section 5 of RFC 4648. */
  function UrlSafeChar(n: int): char
    requires 0 <= n < 64
  {
    if n < 26 then ('A' as int + n) as char
    else if n < 52 then ('a' as int + n - 26) as char
    else if n < 62 then ('0' as int + n - 52) as char
    else if n == 62 then '-'
    else '_'
  }

  /** The six bits a character stands for, in either alphabet. */
  function SextetValue(c: char): (r: Option<int>)
    ensures r.Some? ==> 0 <= r.value < 64
  {
    if 'A' <= c <= 'Z' then Some(c as int - 'A' as int)
    else if 'a' <= c <= 'z' then Some(c as int - 'a' as int + 26)
    else if '0' <= c <= '9' then Some(c as int - '0' as int + 52)
    else if c == '+' || c == '-' then Some(62)
    else if c == '/' || c == '_' then Some(63)
    else None
  }

  predicate IsBase64Space(c: char) {
    c == '\n' || c == '\r' || c == ' ' || c == '\t'
  }

  predicate IsSextets(q: seq<int>) {
    forall i :: 0 <= i < |q| ==> 0 <= q[i] < 64
  }

  /** The four sextets of a full group of three bytes. */
  function Quad(b0: byte, b1: byte, b2: byte): (q: seq<int>)
    ensures IsSextets(q) && |q| == 4
  {
    [b0 as int / 4, (b0 as int % 4) * 16 + b1 as int / 16, (b1 as int % 16) * 4 + b2 as int / 64, b2 as int % 64]
  }

  /** Three bytes become four sextets; a last group of one or two bytes, padded with zero bits, becomes two or three. */
  function Sextets(b: seq<byte>): (q: seq<int>)
    ensures IsSextets(q)
    ensures |q| == 4 * (|b| / 3) + (if |b| % 3 == 0 then 0 else |b| % 3 + 1)
  {
    if |b| == 0 then []
    else if |b| == 1 then Quad(b[0], 0, 0)[..2]
    else if |b| == 2 then Quad(b[0], b[1], 0)[..3]
    else
      Quad(b[0], b[1], b[2]) + Sextets(b[3..])
  }

  function UrlSafeChars(q: seq<int>): (s: string)
    requires IsSextets(q)
    ensures |s| == |q|
  {
    if q == [] then "" else [UrlSafeChar(q[0])] + UrlSafeChars(q[1..])
  }

  /** The `=` characters that round a base64 text of `n` bytes up to a multiple of four. */
  function Padding(n: nat): string {
    if n % 3 == 1 then "==" else if n % 3 == 2 then "=" else ""
  }

  /** okio `ByteString.base64Url()`: the URL-safe alphabet, padded with `=`. */
  function Base64Url(b: seq<byte>): string {
    UrlSafeChars(Sextets(b)) + Padding(|b|)
  }

  /** The padding makes every base64url text a whole number of four-character groups. */
  lemma Base64UrlLength(b: seq<byte>)
    ensures |Base64Url(b)| % 4 == 0
  {
    var n, m := |b| / 3, |b| % 3;
    assert |Sextets(b)| == 4 * n + (if m == 0 then 0 else m + 1);
    assert |Padding(|b|)| == if m == 0 then 0 else 3 - m;
    assert |Base64Url(b)| == 4 * n + (if m == 0 then 0 else 4);
  }

  /** The decoder ignores trailing `=` padding and whitespace. */
  function TrimEnd(s: string): (t: string)
    ensures t <= s
    ensures t != [] ==> t[|t| - 1] != '=' && !IsBase64Space(t[|t| - 1])
  {
    if s != [] && (s[|s| - 1] == '=' || IsBase64Space(s[|s| - 1])) then TrimEnd(s[..|s| - 1]) else s
  }

  /** The sextets of a text: whitespace is skipped, any other foreign character fails. */
  function SextetsOf(s: string): (r: Option<seq<int>>)
    ensures r.Some? ==> IsSextets(r.value)
  {
    if s == [] then Some([])
    else if IsBase64Space(s[0]) then SextetsOf(s[1..])
    else
      match (SextetValue(s[0]), SextetsOf(s[1..]))
      case (Some(v), Some(rest)) => Some([v] + rest)
      case _ => None
  }

  /** The three bytes of four sextets. */
  function Triple(q0: int, q1: int, q2: int, q3: int): seq<byte>
    requires 0 <= q0 < 64 && 0 <= q1 < 64 && 0 <= q2 < 64 && 0 <= q3 < 64
  {
    [(q0 * 4 + q1 / 16) as byte, ((q1 % 16) * 16 + q2 / 4) as byte, ((q2 % 4) * 64 + q3) as byte]
  }

  /** Four sextets become three bytes; a leftover of two or three sextets one or two; a leftover of one fails. */
  function Unsextets(q: seq<int>): (r: Option<seq<byte>>)
    requires IsSextets(q)
  {
    if |q| == 0 then Some([])
    else if |q| == 1 then None
    else if |q| == 2 then Some(Triple(q[0], q[1], 0, 0)[..1])
    else if |q| == 3 then Some(Triple(q[0], q[1], q[2], 0)[..2])
    else
      match Unsextets(q[4..])
      case Some(rest) => Some(Triple(q[0], q[1], q[2], q[3]) + rest)
      case None => None
  }

  /** okio `String.decodeBase64()`: `None` where okio returns null. */
  function DecodeBase64(s: string): Option<seq<byte>> {
    match SextetsOf(TrimEnd(s))
    case None => None
    case Some(q) => Unsextets(q)
  }

  lemma {:induction false} UnsextetsSextets(b: seq<byte>)
    ensures Unsextets(Sextets(b)) == Some(b)
  {
    if |b| >= 3 {
      UnsextetsSextets(b[3..]);
      var q := Sextets(b);
      assert q[..4] == Quad(b[0], b[1], b[2]) && q[4..] == Sextets(b[3..]);
      QuadRoundTrip(b[0], b[1], b[2]);
      assert Unsextets(q) == Some(Triple(q[0], q[1], q[2], q[3]) + b[3..]);
      assert b == [b[0], b[1], b[2]] + b[3..];
    } else if |b| == 2 {
      PairRoundTrip(b);
    } else if |b| == 1 {
      SingleRoundTrip(b);
    }
  }

  /** A last group of two bytes survives its three sextets. */
  lemma PairRoundTrip(b: seq<byte>)
    requires |b| == 2
    ensures Unsextets(Sextets(b)) == Some(b)
  {
    var q := Quad(b[0], b[1], 0);
    QuadRoundTrip(b[0], b[1], 0);
    TriplePrefix(q[0], q[1], q[2], q[3]);
    var s := Sextets(b);
    assert s == q[..3];
    assert Unsextets(s) == Some(Triple(s[0], s[1], s[2], 0)[..2]);
    assert b == [b[0], b[1], 0][..2];
  }

  /** A last group of one byte survives its two sextets. */
  lemma SingleRoundTrip(b: seq<byte>)
    requires |b| == 1
    ensures Unsextets(Sextets(b)) == Some(b)
  {
    var q := Quad(b[0], 0, 0);
    QuadRoundTrip(b[0], 0, 0);
    TriplePrefix(q[0], q[1], q[2], q[3]);
    var s := Sextets(b);
    assert s == q[..2];
    assert Unsextets(s) == Some(Triple(s[0], s[1], 0, 0)[..1]);
    assert b == [b[0], 0, 0][..1];
  }

  /** The first bytes of a group depend only on its first sextets. */
  lemma TriplePrefix(q0: int, q1: int, q2: int, q3: int)
    requires 0 <= q0 < 64 && 0 <= q1 < 64 && 0 <= q2 < 64 && 0 <= q3 < 64
    ensures Triple(q0, q1, 0, 0)[..1] == Triple(q0, q1, q2, q3)[..1]
    ensures Triple(q0, q1, q2, 0)[..2] == Triple(q0, q1, q2, q3)[..2]
  {
  }

  /** The bit arithmetic of one full group undoes itself. */
  lemma QuadRoundTrip(b0: byte, b1: byte, b2: byte)
    ensures var q := Quad(b0, b1, b2); Triple(q[0], q[1], q[2], q[3]) == [b0, b1, b2]
  {
  }

  lemma {:induction false} SextetsOfUrlSafeChars(q: seq<int>)
    requires IsSextets(q)
    ensures SextetsOf(UrlSafeChars(q)) == Some(q)
  {
    if q != [] {
      var s := UrlSafeChars(q);
      SextetsOfUrlSafeChars(q[1..]);
      UrlSafeCharValue(q[0]);
      assert s[0] == UrlSafeChar(q[0]);
      assert s[1..] == UrlSafeChars(q[1..]);
      assert q == [q[0]] + q[1..];
    }
  }

  /** Every character of the alphabet stands for its own six bits and is no whitespace. */
  lemma UrlSafeCharValue(n: int)
    requires 0 <= n < 64
    ensures SextetValue(UrlSafeChar(n)) == Some(n) && !IsBase64Space(UrlSafeChar(n))
  {
  }

  /** Trimming a base64url text removes exactly its padding. */
  lemma TrimEndBase64Url(b: seq<byte>)
    ensures TrimEnd(Base64Url(b)) == UrlSafeChars(Sextets(b))
  {
    TrimEndKeepsChars(Sextets(b));
    TrimEndPadding(UrlSafeChars(Sextets(b)), |b|);
  }

  /** A text of alphabet characters has nothing to trim. */
  lemma TrimEndKeepsChars(q: seq<int>)
    requires IsSextets(q)
    ensures TrimEnd(UrlSafeChars(q)) == UrlSafeChars(q)
  {
    var t := UrlSafeChars(q);
    if t != [] {
      UrlSafeCharsAt(q, |t| - 1);
    }
  }

  /** Trimming removes the padding after a text that has nothing to trim. */
  lemma TrimEndPadding(t: string, n: nat)
    requires TrimEnd(t) == t
    ensures TrimEnd(t + Padding(n)) == t
  {
    if n % 3 == 1 {
      assert t + Padding(n) == (t + "=") + "=";
      TrimEndPad(t + "=");
      TrimEndPad(t);
    } else if n % 3 == 2 {
      assert t + Padding(n) == t + "=";
      TrimEndPad(t);
    } else {
      assert t + Padding(n) == t;
    }
  }

  /** One `=` more at the end is trimmed away. */
  lemma TrimEndPad(s: string)
    ensures TrimEnd(s + "=") == TrimEnd(s)
  {
    assert (s + "=")[..|s|] == s;
  }

  lemma {:induction false} UrlSafeCharsAt(q: seq<int>, i: int)
    requires IsSextets(q) && 0 <= i < |q|
    ensures UrlSafeChars(q)[i] == UrlSafeChar(q[i])
  {
    if i > 0 {
      UrlSafeCharsAt(q[1..], i - 1);
    }
  }

  /** Decoding the base64url text of any byte string gives those bytes back. */
  lemma Base64RoundTrip(b: seq<byte>)
    ensures DecodeBase64(Base64Url(b)) == Some(b)
  {
    TrimEndBase64Url(b);
    SextetsOfUrlSafeChars(Sextets(b));
    UnsextetsSextets(b);
  }
}
