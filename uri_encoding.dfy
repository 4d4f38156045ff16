/**
 * `encodeURIComponent`, which the proxy chain applies to the target URL before
 * appending it to a proxy's query string: every character outside the
 * unreserved set `A-Z a-z 0-9 - _ . ! ~ * ' ( )` is replaced by the
 * percent-encoded bytes of its UTF-8 form (section 2.1 of RFC 3986), with
 * upper-case hexadecimal digits. A decoder is given beside it, and the two are
 * proved to be inverse.
 */
module UriEncoding {
  import opened Wrappers

  /** The characters `encodeURIComponent` leaves as they are. */
  predicate IsUnreserved(c: char)
  {
    'A' <= c <= 'Z' || 'a' <= c <= 'z' || '0' <= c <= '9' ||
    c == '-' || c == '_' || c == '.' || c == '!' || c == '~' || c == '*' || c == '\'' || c == '(' || c == ')'
  }

  /** An upper-case hexadecimal digit. */
  predicate IsUpperHex(c: char)
  {
    '0' <= c <= '9' || 'A' <= c <= 'F'
  }

  /** The characters an encoded string can contain. */
  predicate IsEncodedChar(c: char)
  {
    IsUnreserved(c) || c == '%' || IsUpperHex(c)
  }

  // ----- UTF-8 -----

  predicate IsScalar(cp: int)
  {
    0 <= cp < 0xD800 || 0xE000 <= cp < 0x11_0000
  }

  /** The UTF-8 encoding of a code point. */
  function Utf8(cp: nat): (bs: seq<nat>)
    requires cp < 0x11_0000
    ensures 1 <= |bs| <= 4
    ensures forall k :: 0 <= k < |bs| ==> bs[k] < 256
  {
    if cp < 0x80 then [cp]
    else if cp < 0x800 then [0xC0 + cp / 64, 0x80 + cp % 64]
    else if cp < 0x1_0000 then [0xE0 + cp / 4096, 0x80 + (cp / 64) % 64, 0x80 + cp % 64]
    else [0xF0 + cp / 262144, 0x80 + (cp / 4096) % 64, 0x80 + (cp / 64) % 64, 0x80 + cp % 64]
  }

  /** The length of the UTF-8 sequence a lead byte announces; 0 for a byte that cannot lead. */
  function SequenceLength(b0: nat): nat
  {
    if b0 < 0x80 then 1
    else if 0xC0 <= b0 < 0xE0 then 2
    else if 0xE0 <= b0 < 0xF0 then 3
    else if 0xF0 <= b0 < 0xF8 then 4
    else 0
  }

  /** The payload bits of a lead byte of a sequence of n bytes. */
  function LeadBits(b0: nat, n: nat): int
  {
    if n == 1 then b0 else if n == 2 then b0 - 0xC0 else if n == 3 then b0 - 0xE0 else b0 - 0xF0
  }

  // ----- hexadecimal -----

  /** The upper-case hexadecimal digit for d. */
  function HexDigit(d: nat): (c: char)
    requires d < 16
    ensures IsUpperHex(c)
  {
    if d < 10 then ('0' as int + d) as char else ('A' as int + d - 10) as char
  }

  /** The value of a hexadecimal digit of either case. */
  function HexValue(c: char): (r: Option<nat>)
    ensures r.Some? ==> r.value < 16
  {
    if '0' <= c <= '9' then Some(c as int - '0' as int)
    else if 'A' <= c <= 'F' then Some(c as int - 'A' as int + 10)
    else if 'a' <= c <= 'f' then Some(c as int - 'a' as int + 10)
    else None
  }

  lemma HexDigitValue(d: nat)
    requires d < 16
    ensures HexValue(HexDigit(d)) == Some(d)
  {
  }

  // ----- encoding -----

  /** `%XY` for one byte. */
  function PercentByte(b: nat): string
    requires b < 256
  {
    ['%', HexDigit(b / 16), HexDigit(b % 16)]
  }

  function PercentBytes(bs: seq<nat>): (r: string)
    requires forall k :: 0 <= k < |bs| ==> bs[k] < 256
    ensures |r| == 3 * |bs|
    ensures forall k :: 0 <= k < |r| ==> r[k] == '%' || IsUpperHex(r[k])
  {
    if bs == [] then [] else PercentByte(bs[0]) + PercentBytes(bs[1..])
  }

  function EncodeChar(c: char): (r: string)
    ensures forall k :: 0 <= k < |r| ==> IsEncodedChar(r[k])
  {
    if IsUnreserved(c) then [c] else PercentBytes(Utf8(c as nat))
  }

  /** `encodeURIComponent(s)`. */
  function EncodeURIComponent(s: string): (r: string)
    ensures forall k :: 0 <= k < |r| ==> IsEncodedChar(r[k])
    ensures |r| >= |s|
  {
    if s == [] then [] else EncodeChar(s[0]) + EncodeURIComponent(s[1..])
  }

  /** A string of unreserved characters is its own encoding. */
  lemma {:induction false} UnreservedUnchanged(s: string)
    requires forall k :: 0 <= k < |s| ==> IsUnreserved(s[k])
    ensures EncodeURIComponent(s) == s
  {
    if s != [] {
      UnreservedUnchanged(s[1..]);
      assert s == [s[0]] + s[1..];
    }
  }

  /** The query-string delimiters never survive encoding, so the target URL stays one parameter value. */
  lemma NoDelimiters(s: string)
    ensures var r := EncodeURIComponent(s);
      '&' !in r && '=' !in r && '?' !in r && '#' !in r && '/' !in r && ':' !in r
  {
    var r := EncodeURIComponent(s);
    forall c | c in r ensures IsEncodedChar(c) { }
  }

  // ----- decoding -----

  /** The byte written as `%XY` at index i of s. */
  function ByteAt(s: string, i: nat): (r: Option<nat>)
    ensures r.Some? ==> r.value < 256
  {
    if i + 3 <= |s| && s[i] == '%' then
      match (HexValue(s[i + 1]), HexValue(s[i + 2]))
      case (Some(hi), Some(lo)) => Some(16 * hi + lo)
      case _ => None
    else None
  }

  /** Folds `count` continuation bytes, the first at index i, into the code point bits acc. */
  function Continue(s: string, i: nat, count: nat, acc: int): Option<int>
    decreases count
  {
    if count == 0 then Some(acc)
    else
      match ByteAt(s, i)
      case Some(b) => if 0x80 <= b < 0xC0 then Continue(s, i + 3, count - 1, acc * 64 + (b - 0x80)) else None
      case None => None
  }

  /** Percent-decoding with UTF-8 reassembly; None for a malformed escape or byte sequence. */
  function DecodeURIComponent(s: string): Option<string>
    decreases |s|
  {
    if s == [] then Some([])
    else if s[0] != '%' then
      match DecodeURIComponent(s[1..])
      case Some(t) => Some([s[0]] + t)
      case None => None
    else
      match ByteAt(s, 0)
      case None => None
      case Some(b0) =>
        var n := SequenceLength(b0);
        if n == 0 || |s| < 3 * n then None
        else
          match Continue(s, 3, n - 1, LeadBits(b0, n))
          case None => None
          case Some(cp) =>
            if !IsScalar(cp) then None
            else
              match DecodeURIComponent(s[3 * n..])
              case Some(t) => Some([cp as char] + t)
              case None => None
  }

  // ----- the round trip -----

  lemma PercentBytesAt(bs: seq<nat>, rest: string, k: nat)
    requires forall j :: 0 <= j < |bs| ==> bs[j] < 256
    requires k < |bs|
    ensures ByteAt(PercentBytes(bs) + rest, 3 * k) == Some(bs[k])
    decreases k
  {
    if k == 0 {
      var s := PercentBytes(bs) + rest;
      assert s[..3] == PercentByte(bs[0]);
      HexDigitValue(bs[0] / 16);
      HexDigitValue(bs[0] % 16);
    } else {
      PercentBytesAt(bs[1..], rest, k - 1);
      assert PercentBytes(bs) + rest == PercentByte(bs[0]) + (PercentBytes(bs[1..]) + rest);
      var t := PercentBytes(bs[1..]) + rest;
      var s := PercentBytes(bs) + rest;
      assert s[3 * k..] == t[3 * (k - 1)..];
    }
  }

  /** Dropping six bits twice drops twelve, and twelve then six drops eighteen. */
  lemma ShiftSix(x: nat)
    ensures (x / 64) / 64 == x / 4096
    ensures (x / 4096) / 64 == x / 262144
  {
    var q := x / 4096;
    var r := x % 4096;
    assert x == 64 * (64 * q + r / 64) + r % 64;
    var q2 := x / 262144;
    var r2 := x % 262144;
    assert x == 4096 * (64 * q2 + r2 / 4096) + r2 % 4096;
  }

  /** Re-assembling the continuation bytes of Utf8(cp) gives back cp. */
  lemma ContinueUtf8(s: string, cp: nat)
    requires cp < 0x11_0000
    requires var u := Utf8(cp);
      forall k :: 0 <= k < |u| ==> ByteAt(s, 3 * k) == Some(u[k])
    ensures var u := Utf8(cp);
      SequenceLength(u[0]) == |u| && Continue(s, 3, |u| - 1, LeadBits(u[0], |u|)) == Some(cp)
  {
    var u := Utf8(cp);
    if cp < 0x80 {
    } else if cp < 0x800 {
      assert ByteAt(s, 3 * 1) == Some(u[1]);
      ContinueTwo(s, cp);
    } else if cp < 0x1_0000 {
      assert ByteAt(s, 3 * 1) == Some(u[1]) && ByteAt(s, 3 * 2) == Some(u[2]);
      ContinueThree(s, cp);
    } else {
      assert ByteAt(s, 3 * 1) == Some(u[1]) && ByteAt(s, 3 * 2) == Some(u[2]) && ByteAt(s, 3 * 3) == Some(u[3]);
      ContinueFour(s, cp);
    }
  }

  lemma ContinueTwo(s: string, cp: nat)
    requires 0x80 <= cp < 0x800
    requires ByteAt(s, 3) == Some(0x80 + cp % 64)
    ensures Continue(s, 3, 1, cp / 64) == Some(cp)
  {
    assert Continue(s, 6, 0, (cp / 64) * 64 + cp % 64) == Some(cp);
  }

  lemma ContinueThree(s: string, cp: nat)
    requires 0x800 <= cp < 0x1_0000
    requires ByteAt(s, 3) == Some(0x80 + (cp / 64) % 64) && ByteAt(s, 6) == Some(0x80 + cp % 64)
    ensures Continue(s, 3, 2, cp / 4096) == Some(cp)
  {
    ShiftSix(cp);
    var acc := (cp / 4096) * 64 + (cp / 64) % 64;
    assert acc == cp / 64;
    assert Continue(s, 9, 0, acc * 64 + cp % 64) == Some(cp);
  }

  lemma ContinueFour(s: string, cp: nat)
    requires 0x1_0000 <= cp < 0x11_0000
    requires ByteAt(s, 3) == Some(0x80 + (cp / 4096) % 64) && ByteAt(s, 6) == Some(0x80 + (cp / 64) % 64)
    requires ByteAt(s, 9) == Some(0x80 + cp % 64)
    ensures Continue(s, 3, 3, cp / 262144) == Some(cp)
  {
    ShiftSix(cp);
    var acc := (cp / 262144) * 64 + (cp / 4096) % 64;
    assert acc == cp / 4096;
    var acc2 := acc * 64 + (cp / 64) % 64;
    assert acc2 == cp / 64;
    assert Continue(s, 12, 0, acc2 * 64 + cp % 64) == Some(cp);
  }

  /** Decoding the encoding of one character, followed by anything, yields that character first. */
  lemma DecodeEncodedChar(c: char, rest: string)
    ensures DecodeURIComponent(EncodeChar(c) + rest) ==
      match DecodeURIComponent(rest)
      case Some(t) => Some([c] + t)
      case None => None
  {
    var s := EncodeChar(c) + rest;
    if IsUnreserved(c) {
      assert s[0] == c && s[1..] == rest;
    } else {
      var cp := c as nat;
      var u := Utf8(cp);
      var n := |u|;
      assert s == PercentBytes(u) + rest;
      forall k | 0 <= k < n ensures ByteAt(s, 3 * k) == Some(u[k]) {
        PercentBytesAt(u, rest, k);
      }
      ContinueUtf8(s, cp);
      assert s[0] == '%';
      assert s[3 * n..] == rest;
      assert (cp as char) == c;
    }
  }

  /** Decoding undoes encoding, so no two strings share an encoding. */
  lemma {:induction false} DecodeEncode(s: string)
    ensures DecodeURIComponent(EncodeURIComponent(s)) == Some(s)
  {
    if s != [] {
      DecodeEncode(s[1..]);
      DecodeEncodedChar(s[0], EncodeURIComponent(s[1..]));
      assert s == [s[0]] + s[1..];
    }
  }

  /** Encoding is one-to-one. */
  lemma EncodeIsInjective(s: string, t: string)
    requires EncodeURIComponent(s) == EncodeURIComponent(t)
    ensures s == t
  {
    DecodeEncode(s);
    DecodeEncode(t);
  }
}
