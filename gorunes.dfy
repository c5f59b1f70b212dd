/** The two Go conversions the key decoder applies to a code point:
    rune(x), which truncates a machine integer to a signed 32-bit rune, and
    string(r), which yields the UTF-8 bytes of r (of U+FFFD when r is not a
    Unicode scalar value). A Go string is a sequence of bytes, so text is
    modelled as seq<Byte> and UTF-8 is written out together with its decoder. */
module GoRunes {

  type Byte = x: int | 0 <= x < 256

  datatype Option<T> = None | Some(value: T)

  /** Go's rune is a signed 32-bit integer. */
  const MinRune: int := -0x8000_0000
  const MaxRune: int := 0x7FFF_FFFF
  const RuneModulus: int := 0x1_0000_0000

  /** The replacement character Go substitutes for an invalid rune. */
  const RuneError: int := 0xFFFD

  predicate IsRune(x: int) {
    MinRune <= x <= MaxRune
  }

  /** A Unicode scalar value: a code point that is not a surrogate. */
  predicate IsScalar(r: int) {
    (0 <= r < 0xD800) || (0xE000 <= r < 0x11_0000)
  }

  /** Go's conversion rune(x) of a machine integer: keep the low 32 bits and
      read them as a two's-complement number. */
  function ToRune(x: int): (r: int)
    ensures IsRune(r)
    ensures IsRune(x) ==> r == x
    ensures (x - r) % RuneModulus == 0
  {
    (x - MinRune) % RuneModulus + MinRune
  }

  /** Integers that agree in their low 32 bits convert to the same rune. */
  lemma ToRuneShift(x: int, k: int)
    ensures ToRune(x + k * RuneModulus) == ToRune(x)
  {
  }

  /** A UTF-8 continuation byte, 10xxxxxx. */
  predicate IsContinuation(b: Byte) {
    0x80 <= b < 0xC0
  }

  predicate AllContinuations(s: seq<Byte>) {
    forall i :: 0 <= i < |s| ==> IsContinuation(s[i])
  }

  /** The low six bits of a byte. */
  function Payload(b: Byte): int {
    b as int % 64
  }

  function Pow64(n: nat): (p: nat)
    ensures p >= 1
  {
    if n == 0 then 1 else 64 * Pow64(n - 1)
  }

  /** The n continuation bytes that carry x in base 64, most significant first. */
  function Continuations(x: nat, n: nat): (s: seq<Byte>)
    ensures |s| == n && AllContinuations(s)
  {
    if n == 0 then [] else Continuations(x / 64, n - 1) + [0x80 + x % 64]
  }

  /** The number a run of continuation bytes carries in base 64. */
  function ContinuationValue(s: seq<Byte>): (v: nat)
    ensures v < Pow64(|s|)
  {
    if s == [] then 0 else ContinuationValue(s[..|s| - 1]) * 64 + Payload(s[|s| - 1])
  }

  /** n continuation bytes carry back any number below 64^n. */
  lemma {:induction false} ContinuationValueOf(x: nat, n: nat)
    requires x < Pow64(n)
    ensures ContinuationValue(Continuations(x, n)) == x
  {
    if n > 0 {
      ContinuationValueOf(x / 64, n - 1);
      var s := Continuations(x, n);
      assert s[..|s| - 1] == Continuations(x / 64, n - 1);
    }
  }

  /** A run of continuation bytes is the encoding of the number it carries. */
  lemma {:induction false} ContinuationsOfValue(s: seq<Byte>)
    requires AllContinuations(s)
    ensures Continuations(ContinuationValue(s), |s|) == s
  {
    if s != [] {
      var init, last := s[..|s| - 1], s[|s| - 1];
      assert AllContinuations(init) by {
        forall i | 0 <= i < |init| ensures IsContinuation(init[i]) {
          assert init[i] == s[i];
        }
      }
      ContinuationsOfValue(init);
      var w := ContinuationValue(init);
      var v := w * 64 + Payload(last);
      assert ContinuationValue(s) == v;
      assert v / 64 == w && v % 64 == Payload(last);
      assert IsContinuation(last) && 0x80 + Payload(last) == last;
      assert Continuations(v, |s|) == Continuations(w, |init|) + [last];
      assert s == init + [last];
    }
  }

  /** The UTF-8 encoding of a scalar value (RFC 3629, section 3): a lead byte
      holding the high bits, then continuation bytes with six bits each. */
  function EncodeRune(r: int): (s: seq<Byte>)
    requires IsScalar(r)
    ensures 1 <= |s| <= 4
    ensures |s| == 1 <==> r < 0x80
  {
    if r < 0x80 then [r]
    else if r < 0x800 then [0xC0 + r / 64] + Continuations(r % 64, 1)
    else if r < 0x1_0000 then [0xE0 + r / 4096] + Continuations(r % 4096, 2)
    else [0xF0 + r / 262144] + Continuations(r % 262144, 3)
  }

  /** The value of a lead byte with marker `mark` followed by n continuation
      bytes, when it is at least `least` (shorter forms would be overlong) and a
      scalar value. */
  function DecodeMultiByte(s: seq<Byte>, mark: int, n: nat, least: int): Option<int>
    requires |s| == n + 1 && mark <= s[0]
  {
    var r := (s[0] as int - mark) * Pow64(n) + ContinuationValue(s[1..]);
    if AllContinuations(s[1..]) && least <= r && IsScalar(r) then Some(r) else None
  }

  /** Reads a byte string as exactly one UTF-8 encoded scalar value; None for
      anything else (wrong length, bad lead or continuation byte, overlong
      form, surrogate, or a value beyond U+10FFFF). */
  function DecodeRune(s: seq<Byte>): (r: Option<int>)
    ensures r.Some? ==> IsScalar(r.value)
  {
    if |s| == 1 && s[0] < 0x80 then Some(s[0] as int)
    else if |s| == 2 && 0xC0 <= s[0] < 0xE0 then DecodeMultiByte(s, 0xC0, 1, 0x80)
    else if |s| == 3 && 0xE0 <= s[0] < 0xF0 then DecodeMultiByte(s, 0xE0, 2, 0x800)
    else if |s| == 4 && 0xF0 <= s[0] < 0xF8 then DecodeMultiByte(s, 0xF0, 3, 0x1_0000)
    else None
  }

  /** The 2-byte case of EncodeDecode. */
  lemma EncodeDecode2(r: int)
    requires 0x80 <= r < 0x800 && IsScalar(r)
    ensures DecodeRune(EncodeRune(r)) == Some(r)
  {
    var s := EncodeRune(r);
    var lo := r % 64;
    assert s == [0xC0 + r / 64] + Continuations(lo, 1);
    ContinuationValueOf(lo, 1);
    assert s[1..] == Continuations(lo, 1);
    assert r == (s[0] as int - 0xC0) * 64 + lo;
    assert DecodeRune(s) == DecodeMultiByte(s, 0xC0, 1, 0x80);
  }

  /** The 3-byte case of EncodeDecode. */
  lemma EncodeDecode3(r: int)
    requires 0x800 <= r < 0x1_0000 && IsScalar(r)
    ensures DecodeRune(EncodeRune(r)) == Some(r)
  {
    var s := EncodeRune(r);
    var lo := r % 4096;
    assert s == [0xE0 + r / 4096] + Continuations(lo, 2);
    ContinuationValueOf(lo, 2);
    assert s[1..] == Continuations(lo, 2);
    assert r == (s[0] as int - 0xE0) * 4096 + lo;
    assert DecodeRune(s) == DecodeMultiByte(s, 0xE0, 2, 0x800);
  }

  /** The 4-byte case of EncodeDecode. */
  lemma EncodeDecode4(r: int)
    requires 0x1_0000 <= r < 0x11_0000 && IsScalar(r)
    ensures DecodeRune(EncodeRune(r)) == Some(r)
  {
    var s := EncodeRune(r);
    var lo := r % 262144;
    assert s == [0xF0 + r / 262144] + Continuations(lo, 3);
    ContinuationValueOf(lo, 3);
    assert s[1..] == Continuations(lo, 3);
    assert r == (s[0] as int - 0xF0) * 262144 + lo;
    assert DecodeRune(s) == DecodeMultiByte(s, 0xF0, 3, 0x1_0000);
  }

  /** Decoding recovers every encoded scalar value. */
  lemma EncodeDecode(r: int)
    requires IsScalar(r)
    ensures DecodeRune(EncodeRune(r)) == Some(r)
  {
    if 0x80 <= r < 0x800 {
      EncodeDecode2(r);
    } else if 0x800 <= r < 0x1_0000 {
      EncodeDecode3(r);
    } else if 0x1_0000 <= r {
      EncodeDecode4(r);
    }
  }

  /** The 2-byte case of DecodeEncode. */
  lemma DecodeEncode2(s: seq<Byte>)
    requires |s| == 2 && DecodeRune(s).Some?
    ensures EncodeRune(DecodeRune(s).value) == s
  {
    var tail := s[1..];
    var hi, lo := s[0] as int - 0xC0, ContinuationValue(tail);
    assert DecodeRune(s) == DecodeMultiByte(s, 0xC0, 1, 0x80);
    var r := hi * 64 + lo;
    assert DecodeRune(s).value == r && AllContinuations(tail);
    assert 0 <= hi < 32 && 0 <= lo < 64;
    assert r / 64 == hi && r % 64 == lo;
    ContinuationsOfValue(tail);
    assert EncodeRune(r) == [s[0]] + Continuations(lo, 1);
    assert s == [s[0]] + tail;
  }

  /** The 3-byte case of DecodeEncode. */
  lemma DecodeEncode3(s: seq<Byte>)
    requires |s| == 3 && DecodeRune(s).Some?
    ensures EncodeRune(DecodeRune(s).value) == s
  {
    var tail := s[1..];
    var hi, lo := s[0] as int - 0xE0, ContinuationValue(tail);
    assert DecodeRune(s) == DecodeMultiByte(s, 0xE0, 2, 0x800);
    var r := hi * 4096 + lo;
    assert DecodeRune(s).value == r && AllContinuations(tail);
    assert 0 <= hi < 16 && 0 <= lo < 4096;
    assert r / 4096 == hi && r % 4096 == lo;
    ContinuationsOfValue(tail);
    assert EncodeRune(r) == [s[0]] + Continuations(lo, 2);
    assert s == [s[0]] + tail;
  }

  /** The 4-byte case of DecodeEncode. */
  lemma DecodeEncode4(s: seq<Byte>)
    requires |s| == 4 && DecodeRune(s).Some?
    ensures EncodeRune(DecodeRune(s).value) == s
  {
    var tail := s[1..];
    var hi, lo := s[0] as int - 0xF0, ContinuationValue(tail);
    assert DecodeRune(s) == DecodeMultiByte(s, 0xF0, 3, 0x1_0000);
    var r := hi * 262144 + lo;
    assert DecodeRune(s).value == r && AllContinuations(tail);
    assert 0 <= hi < 8 && 0 <= lo < 262144;
    assert r / 262144 == hi && r % 262144 == lo;
    ContinuationsOfValue(tail);
    assert EncodeRune(r) == [s[0]] + Continuations(lo, 3);
    assert s == [s[0]] + tail;
  }

  /** A byte string that decodes is the one encoding of its value: UTF-8 has
      no second (overlong) spelling of a scalar value. */
  lemma DecodeEncode(s: seq<Byte>)
    requires DecodeRune(s).Some?
    ensures EncodeRune(DecodeRune(s).value) == s
  {
    if |s| == 2 {
      DecodeEncode2(s);
    } else if |s| == 3 {
      DecodeEncode3(s);
    } else if |s| == 4 {
      DecodeEncode4(s);
    }
  }

  /** Go's string(r): the UTF-8 bytes of r when r is a scalar value, and
      those of U+FFFD otherwise. */
  function RuneString(r: int): (s: seq<Byte>)
    ensures 1 <= |s| <= 4
    ensures DecodeRune(s) == Some(if IsScalar(r) then r else RuneError)
    ensures 0 <= r < 0x80 <==> s == [r]
  {
    var c := if IsScalar(r) then r else RuneError;
    EncodeDecode(c);
    EncodeRune(c)
  }
}
