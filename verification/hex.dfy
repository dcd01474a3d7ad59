/**
 * Hexadecimal text to bytes, as Python 2's `"hex"` codec (binascii.a2b_hex)
 * decodes it: an odd-length string is refused before any digit is looked at,
 * each pair of characters gives one byte, high nibble first, and digits of
 * either letter case are accepted. EncodeHex, the lower-case encoder, is
 * the decoder's inverse in the round-trip lemmas.
 */
module Hex {
  import opened Results
  import opened Bytes

  /** Why a line could not be decoded. */
  datatype HexError = OddLength | NonHexDigit

  predicate IsHexDigit(c: char) {
    '0' <= c <= '9' || 'a' <= c <= 'f' || 'A' <= c <= 'F'
  }

  predicate AllHexDigits(s: string) {
    forall i :: 0 <= i < |s| ==> IsHexDigit(s[i])
  }

  /** The lower-case hex digit for a nibble. */
  function DigitChar(d: nat): (c: char)
    requires d < 16
    ensures IsHexDigit(c) && !('A' <= c <= 'Z')
  {
    if d < 10 then ('0' as int + d) as char else ('a' as int + d - 10) as char
  }

  /** Maps an upper-case ASCII letter to lower case, every other character to itself. */
  function LowerChar(c: char): (r: char) {
    if 'A' <= c <= 'Z' then (c as int - 'A' as int + 'a' as int) as char else c
  }

  /** `s` with every upper-case ASCII letter in lower case. */
  function LowerCase(s: string): (r: string) {
    seq(|s|, i requires 0 <= i < |s| => LowerChar(s[i]))
  }

  /**
   * The value of one hex digit, or None for any other character (the -1 of
   * binascii's digit conversion).
   */
  function DigitValue(c: char): (d: Option<nat>)
    ensures d.Some? <==> IsHexDigit(c)
    ensures d.Some? ==> d.value < 16
  {
    if '0' <= c <= '9' then Some(c as int - '0' as int)
    else if 'a' <= c <= 'f' then Some(c as int - 'a' as int + 10)
    else if 'A' <= c <= 'F' then Some(c as int - 'A' as int + 10)
    else None
  }

  /** A digit's value is the nibble whose lower-case digit is that character up to case. */
  lemma DigitValueChar(c: char)
    requires IsHexDigit(c)
    ensures DigitChar(DigitValue(c).value) == LowerChar(c)
  {
  }

  /** The byte a pair of hex digits stands for, high nibble first. */
  function PairValue(hi: char, lo: char): (r: int)
    requires IsHexDigit(hi) && IsHexDigit(lo)
  {
    16 * DigitValue(hi).value + DigitValue(lo).value
  }

  /**
   * Decodes one line. It fails with OddLength exactly when the length is
   * odd and with NonHexDigit exactly when the length is even but some
   * character is not a hex digit; otherwise it yields |s|/2 bytes, byte i
   * being the pair s[2i], s[2i+1].
   */
  function DecodeHex(s: string): (r: Result<seq<byte>, HexError>)
    ensures r == Failure(OddLength) <==> |s| % 2 == 1
    ensures r == Failure(NonHexDigit) <==> |s| % 2 == 0 && !AllHexDigits(s)
    ensures r.Success? <==> |s| % 2 == 0 && AllHexDigits(s)
    ensures r.Success? ==> |r.value| == |s| / 2
    ensures r.Success? ==> forall i :: 0 <= i < |r.value| ==> r.value[i] as int == PairValue(s[2 * i], s[2 * i + 1])
  {
    if |s| % 2 == 1 then Failure(OddLength)
    else
      var r := DecodePairs(s, |s| / 2);
      if r.Success? then DecodePairsBytes(s, |s| / 2); r else r
  }

  /** The digit loop of DecodeHex, on a string of `n` character pairs. */
  function DecodePairs(s: string, n: nat): (r: Result<seq<byte>, HexError>)
    requires |s| == 2 * n
    ensures r.Failure? ==> r.error == NonHexDigit
    ensures r.Success? <==> AllHexDigits(s)
    ensures r.Success? ==> |r.value| == n
  {
    if n == 0 then Success([])
    else
      var init := s[..2 * n - 2];
      var prefix := DecodePairs(init, n - 1);
      var hi := DigitValue(s[|s| - 2]);
      var lo := DigitValue(s[|s| - 1]);
      assert AllHexDigits(s) <==> AllHexDigits(init) && hi.Some? && lo.Some? by {
        assert forall k :: 0 <= k < |init| ==> init[k] == s[k];
      }
      if prefix.Failure? then prefix
      else if hi.None? || lo.None? then Failure(NonHexDigit)
      else Success(prefix.value + [(16 * hi.value + lo.value) as byte])
  }

  /** Byte i of a decoded string is the value of its i-th pair of digits. */
  lemma {:induction false} DecodePairsBytes(s: string, n: nat)
    requires |s| == 2 * n && DecodePairs(s, n).Success?
    ensures forall i :: 0 <= i < n ==> DecodePairs(s, n).value[i] as int == PairValue(s[2 * i], s[2 * i + 1])
  {
    if n > 0 {
      var init := s[..2 * n - 2];
      DecodePairsBytes(init, n - 1);
      var r := DecodePairs(s, n).value;
      forall i | 0 <= i < n ensures r[i] as int == PairValue(s[2 * i], s[2 * i + 1]) {
        if i < n - 1 {
          assert r[i] == DecodePairs(init, n - 1).value[i];
          assert init[2 * i] == s[2 * i] && init[2 * i + 1] == s[2 * i + 1];
        }
      }
    }
  }

  /** Writes bytes as lower-case hex, two digits per byte, high nibble first. */
  function EncodeHex(b: seq<byte>): (s: string)
    ensures |s| == 2 * |b|
    ensures AllHexDigits(s)
  {
    if b == [] then []
    else
      var x := b[|b| - 1] as int;
      EncodeHex(b[..|b| - 1]) + [DigitChar(x / 16), DigitChar(x % 16)]
  }

  /** A digit's value is the nibble it was written for. */
  lemma DigitRoundTrip(d: nat)
    requires d < 16
    ensures DigitValue(DigitChar(d)) == Some(d)
  {
  }

  lemma NibbleJoin(x: int)
    requires 0 <= x < 256
    ensures 16 * (x / 16) + x % 16 == x && x / 16 < 16
  {
  }

  lemma NibbleSplit(hi: nat, lo: nat)
    requires hi < 16 && lo < 16
    ensures (16 * hi + lo) / 16 == hi && (16 * hi + lo) % 16 == lo
  {
  }

  /** Decoding what was encoded gives back the bytes. */
  lemma DecodeEncodeHex(b: seq<byte>)
    ensures DecodeHex(EncodeHex(b)) == Success(b)
  {
    var s := EncodeHex(b);
    HalfOfDouble(|b|);
    assert DecodeHex(s) == DecodePairs(s, |b|);
    DecodeEncodePairs(b);
  }

  lemma HalfOfDouble(n: nat)
    ensures (2 * n) % 2 == 0 && (2 * n) / 2 == n
  {
  }

  lemma {:induction false} DecodeEncodePairs(b: seq<byte>)
    ensures DecodePairs(EncodeHex(b), |b|) == Success(b)
  {
    if b != [] {
      var init := b[..|b| - 1];
      var last := b[|b| - 1];
      assert b == init + [last];
      DecodeEncodePairs(init);
      EncodeHexSnoc(init, last);
      ByteDigits(last);
      DecodePairsSnoc(EncodeHex(init), |init|, DigitChar(last as int / 16), DigitChar(last as int % 16));
    }
  }

  /** The two digits EncodeHex writes for a byte decode back to that byte. */
  lemma ByteDigits(x: byte)
    ensures PairValue(DigitChar(x as int / 16), DigitChar(x as int % 16)) == x as int
  {
    NibbleJoin(x as int);
    DigitRoundTrip(x as int / 16);
    DigitRoundTrip(x as int % 16);
  }

  /** One more pair of digits appends one more byte. */
  lemma DecodePairsSnoc(p: string, n: nat, c: char, d: char)
    requires |p| == 2 * n
    requires IsHexDigit(c) && IsHexDigit(d) && DecodePairs(p, n).Success?
    ensures DecodePairs(p + [c, d], n + 1) == Success(DecodePairs(p, n).value + [PairValue(c, d) as byte])
  {
    assert (p + [c, d])[..2 * n] == p;
  }

  /** Re-encoding a decoded line gives the line back, up to letter case. */
  lemma EncodeDecodeHex(s: string, b: seq<byte>)
    requires DecodeHex(s) == Success(b)
    ensures EncodeHex(b) == LowerCase(s)
  {
    EncodeDecodePairs(s, |s| / 2, b);
  }

  lemma {:induction false} EncodeDecodePairs(s: string, n: nat, b: seq<byte>)
    requires |s| == 2 * n
    requires DecodePairs(s, n) == Success(b)
    ensures EncodeHex(b) == LowerCase(s)
  {
    if n > 0 {
      var init := s[..2 * n - 2];
      var prefix := DecodePairs(init, n - 1).value;
      var c, d := s[2 * n - 2], s[2 * n - 1];
      var x := PairValue(c, d) as byte;
      assert b == prefix + [x];
      EncodeDecodePairs(init, n - 1, prefix);
      EncodeHexSnoc(prefix, x);
      PairDigits(c, d);
      LowerCaseSplit(s);
    }
  }

  /** Re-encoding the byte a digit pair stands for gives the pair back in lower case. */
  lemma PairDigits(c: char, d: char)
    requires IsHexDigit(c) && IsHexDigit(d)
    ensures var x := PairValue(c, d); 0 <= x < 256 && DigitChar(x / 16) == LowerChar(c) && DigitChar(x % 16) == LowerChar(d)
  {
    NibbleSplit(DigitValue(c).value, DigitValue(d).value);
    DigitValueChar(c);
    DigitValueChar(d);
  }

  lemma EncodeHexSnoc(p: seq<byte>, x: byte)
    ensures EncodeHex(p + [x]) == EncodeHex(p) + [DigitChar(x as int / 16), DigitChar(x as int % 16)]
  {
    assert (p + [x])[..|p|] == p;
  }

  lemma LowerCaseSplit(s: string)
    requires 2 <= |s|
    ensures LowerCase(s) == LowerCase(s[..|s| - 2]) + [LowerChar(s[|s| - 2]), LowerChar(s[|s| - 1])]
  {
  }
}
