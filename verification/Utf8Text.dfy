/**
 The string helpers under the tree, on the bytes they really work on.  Strings are UTF-8 (section
 3 of RFC 3629); the helpers take byte-wise short cuts for ASCII and otherwise step from one
 character to the next.  They are proved to agree with the operations on characters.
 */
module Utf8Text {
  import opened Strings

  type byte = x: int | 0 <= x < 256

  type Bytes = seq<byte>

  // ---------- the encoding ----------

  function EncodeChar(c: char): (b: Bytes)
    ensures b != [] && |b| == Width(b[0]) && (c as int < 0x80 <==> b[0] < 0x80)
  {
    var v := c as int;
    if v < 0x80 then [v]
    else if v < 0x800 then [0xC0 + v / 64, 0x80 + v % 64]
    else if v < 0x10000 then [0xE0 + v / 4096, 0x80 + v / 64 % 64, 0x80 + v % 64]
    else [0xF0 + v / 262144, 0x80 + v / 4096 % 64, 0x80 + v / 64 % 64, 0x80 + v % 64]
  }

  function Encode(s: string): Bytes {
    if s == [] then [] else EncodeChar(s[0]) + Encode(s[1..])
  }

  /** The number of bytes of a character, told by the first. */
  function Width(b: byte): nat {
    if b < 0x80 then 1 else if b < 0xE0 then 2 else if b < 0xF0 then 3 else 4
  }

  /** The code point at the start of some bytes, read the way a decoder reads it. */
  function CodeAt(b: Bytes): int
    requires b != [] && Width(b[0]) <= |b|
  {
    if b[0] < 0x80 then b[0]
    else if b[0] < 0xE0 then Bits(b[0], 0xC0) * 64 + Bits(b[1], 0x80)
    else if b[0] < 0xF0 then Bits(b[0], 0xE0) * 4096 + Bits(b[1], 0x80) * 64 + Bits(b[2], 0x80)
    else Bits(b[0], 0xF0) * 262144 + Bits(b[1], 0x80) * 4096 + Bits(b[2], 0x80) * 64 + Bits(b[3], 0x80)
  }

  /** The payload of a byte whose marker bits are `marker`. */
  function Bits(b: byte, marker: int): int {
    b - marker
  }

  lemma CodeOfChar(c: char)
    ensures CodeAt(EncodeChar(c)) == c as int
  {
    var v := c as int;
    if v >= 0x10000 {
      FourDigits(v);
    } else if v >= 0x800 {
      ThreeDigits(v);
    }
  }

  lemma ThreeDigits(v: nat)
    ensures v == v / 4096 * 4096 + v / 64 % 64 * 64 + v % 64
  {
    assert v / 4096 == v / 64 / 64;
  }

  lemma FourDigits(v: nat)
    ensures v == v / 262144 * 262144 + v / 4096 % 64 * 4096 + v / 64 % 64 * 64 + v % 64
  {
    assert v / 262144 == v / 4096 / 64;
    ThreeDigits(v);
  }

  /** The first character can be read off the front of an encoding, and the rest follows it. */
  lemma FirstOfEncoding(s: string)
    requires s != []
    ensures Encode(s) != [] && Width(Encode(s)[0]) <= |Encode(s)|
    ensures CodeAt(Encode(s)) == s[0] as int
    ensures Encode(s)[Width(Encode(s)[0])..] == Encode(s[1..])
    ensures Encode(s)[0] < 0x80 <==> s[0] as int < 0x80
  {
    var first, rest := EncodeChar(s[0]), Encode(s[1..]);
    CodeOfChar(s[0]);
    assert Encode(s) == first + rest;
    assert forall i :: 0 <= i < |first| ==> Encode(s)[i] == first[i];
  }

  // ---------- which bytes are text ----------

  predicate Tail(b: byte) { 0x80 <= b < 0xC0 }

  /** The bytes start with a character: the grammar of section 4 of RFC 3629. */
  predicate StartsWithChar(b: Bytes) {
    && b != [] && Width(b[0]) <= |b|
    && if b[0] < 0x80 then true
       else if b[0] < 0xE0 then 0xC2 <= b[0] && Tail(b[1])
       else if b[0] < 0xF0 then
         Tail(b[1]) && Tail(b[2]) && (b[0] == 0xE0 ==> 0xA0 <= b[1]) && (b[0] == 0xED ==> b[1] < 0xA0)
       else
         && b[0] <= 0xF4 && Tail(b[1]) && Tail(b[2]) && Tail(b[3])
         && (b[0] == 0xF0 ==> 0x90 <= b[1]) && (b[0] == 0xF4 ==> b[1] < 0x90)
  }

  predicate WellFormed(b: Bytes)
    decreases |b|
  {
    b == [] || (StartsWithChar(b) && WellFormed(b[Width(b[0])..]))
  }

  lemma CodeInRange(b: Bytes)
    requires StartsWithChar(b)
    ensures 0 <= CodeAt(b) < 0xD800 || 0xE000 <= CodeAt(b) < 0x110000
  {}

  function Decode(b: Bytes): string
    requires WellFormed(b)
    decreases |b|
  {
    if b == [] then []
    else
      CodeInRange(b);
      [CodeAt(b) as char] + Decode(b[Width(b[0])..])
  }

  /** A well-formed character is the encoding of its code point, and of no longer form. */
  lemma CharOfCode(b: Bytes)
    requires StartsWithChar(b)
    ensures 0 <= CodeAt(b) < 0xD800 || 0xE000 <= CodeAt(b) < 0x110000
    ensures 0 < |b| && 0 < Width(b[0]) <= |b|
    ensures EncodeChar(CodeAt(b) as char) == b[..Width(b[0])]
  {
    CodeInRange(b);
    if b[0] >= 0xF0 { FourBytes(b); } else if b[0] >= 0xE0 { ThreeBytes(b); }
  }

  lemma ThreeBytes(b: Bytes)
    requires StartsWithChar(b) && 0xE0 <= b[0] < 0xF0
    ensures 0x800 <= CodeAt(b) < 0x10000
    ensures CodeAt(b) / 4096 == Bits(b[0], 0xE0)
    ensures CodeAt(b) / 64 % 64 == Bits(b[1], 0x80) && CodeAt(b) % 64 == Bits(b[2], 0x80)
  {
    var x, y, z := Bits(b[0], 0xE0), Bits(b[1], 0x80), Bits(b[2], 0x80);
    assert CodeAt(b) / 64 == x * 64 + y;
  }

  lemma FourBytes(b: Bytes)
    requires StartsWithChar(b) && 0xF0 <= b[0]
    ensures 0x10000 <= CodeAt(b) < 0x110000
    ensures CodeAt(b) / 262144 == Bits(b[0], 0xF0) && CodeAt(b) / 4096 % 64 == Bits(b[1], 0x80)
    ensures CodeAt(b) / 64 % 64 == Bits(b[2], 0x80) && CodeAt(b) % 64 == Bits(b[3], 0x80)
  {
    var w, x, y, z := Bits(b[0], 0xF0), Bits(b[1], 0x80), Bits(b[2], 0x80), Bits(b[3], 0x80);
    assert CodeAt(b) / 64 == w * 4096 + x * 64 + y;
    assert CodeAt(b) / 4096 == w * 64 + x;
  }

  lemma EncodedChar(c: char)
    ensures StartsWithChar(EncodeChar(c))
  {}

  /** Well-formed bytes are exactly the encodings of strings, and decoding inverts encoding. */
  lemma {:induction false} DecodeEncode(s: string)
    ensures WellFormed(Encode(s)) && Decode(Encode(s)) == s
  {
    if s != [] {
      FirstOfEncoding(s);
      EncodedChar(s[0]);
      assert forall i :: 0 <= i < |EncodeChar(s[0])| ==> Encode(s)[i] == EncodeChar(s[0])[i];
      DecodeEncode(s[1..]);
    }
  }

  /** The first character of a decoded text, and what is left to decode. */
  lemma DecodeFirst(b: Bytes)
    requires WellFormed(b) && b != []
    ensures 0 < Width(b[0]) <= |b| && WellFormed(b[Width(b[0])..])
    ensures Decode(b) != [] && Decode(b)[1..] == Decode(b[Width(b[0])..])
    ensures EncodeChar(Decode(b)[0]) == b[..Width(b[0])]
  {
    hide CodeAt, EncodeChar;
    CharOfCode(b);
  }

  lemma {:induction false} EncodeDecode(b: Bytes)
    requires WellFormed(b)
    ensures Encode(Decode(b)) == b
    decreases |b|
  {
    hide CodeAt, EncodeChar, StartsWithChar, WellFormed, Decode;
    if b == [] {
      NothingDecodes();
    } else {
      DecodeFirst(b);
      EncodeDecode(b[Width(b[0])..]);
    }
  }

  lemma NothingDecodes()
    ensures WellFormed([]) && Decode([]) == []
  {}

  lemma {:induction false} EncodeConcat(s: string, t: string)
    ensures Encode(s + t) == Encode(s) + Encode(t)
  {
    if s == [] {
      assert s + t == t;
    } else {
      assert (s + t)[1..] == s[1..] + t;
      EncodeConcat(s[1..], t);
    }
  }

  lemma {:induction false} EncodingLength(s: string)
    ensures |s| <= |Encode(s)|
  {
    if s != [] { EncodingLength(s[1..]); }
  }

  // ---------- the helpers ----------

  predicate IsAscii(b: Bytes) {
    forall i :: 0 <= i < |b| ==> b[i] < 0x80
  }

  /** The byte offset of the character with index `n`. */
  function CharIndex(b: Bytes, n: nat): Option<nat>
    decreases n
  {
    if b == [] || |b| < Width(b[0]) then None
    else if n == 0 then Some(0)
    else
      match CharIndex(b[Width(b[0])..], n - 1)
      case None => None
      case Some(i) => Some(Width(b[0]) + i)
  }

  function AdvanceByChars(b: Bytes, n: nat): Bytes {
    if n == 0 then b
    else if n >= |b| then []
    else if IsAscii(b[..n]) then b[n..]
    else
      match CharIndex(b, n)
      case None => []
      case Some(i) => if i <= |b| then b[i..] else []
  }

  function TakeChars(b: Bytes, n: nat): Bytes {
    if n == 0 then []
    else
      match CharIndex(b, n)
      case None => b
      case Some(i) => if i <= |b| then b[..i] else b
  }

  function SharedPrefixCountChars(a: Bytes, b: Bytes): nat
    decreases |a|
  {
    if a == [] || b == [] || |a| < Width(a[0]) || |b| < Width(b[0]) || CodeAt(a) != CodeAt(b) then 0
    else 1 + SharedPrefixCountChars(a[Width(a[0])..], b[Width(b[0])..])
  }

  function SharedPrefixCount(a: Bytes, b: Bytes): nat {
    var common := Lcp(a, b);
    if IsAscii(a[..common]) then common else SharedPrefixCountChars(a, b)
  }

  // ---------- agreement with characters ----------

  /** Offsets of characters are where the prefixes of the string end. */
  lemma {:induction false} CharIndexMeaning(s: string, n: nat)
    ensures CharIndex(Encode(s), n) == if n < |s| then Some(|Encode(s[..n])|) else None
    decreases n
  {
    if s != [] {
      FirstOfEncoding(s);
      if n > 0 {
        CharIndexMeaning(s[1..], n - 1);
        if n < |s| { PrefixEncoding(s, n); }
      }
    }
  }

  lemma PrefixEncoding(s: string, n: nat)
    requires 0 < n < |s|
    ensures |Encode(s[..n])| == Width(EncodeChar(s[0])[0]) + |Encode(s[1..][..n - 1])|
    ensures Encode(s) != [] && Encode(s)[0] == EncodeChar(s[0])[0]
  {
    assert s[..n][1..] == s[1..][..n - 1];
  }

  /** While the bytes are ASCII, bytes are characters. */
  lemma {:induction false} AsciiPrefix(s: string, n: nat)
    requires n <= |Encode(s)| && IsAscii(Encode(s)[..n])
    ensures n <= |s| && Encode(s)[n..] == Encode(s[n..])
    ensures forall i :: 0 <= i < n ==> Encode(s)[i] == s[i] as int
    decreases n
  {
    if n > 0 {
      FirstOfEncoding(s);
      var b := Encode(s);
      assert b[0] == b[..n][0];
      assert b[1..] == Encode(s[1..]);
      assert b[1..][..n - 1] == b[..n][1..];
      AsciiPrefix(s[1..], n - 1);
      assert b[n..] == b[1..][n - 1..];
      assert s[1..][n - 1..] == s[n..];
      forall i | 0 <= i < n ensures b[i] == s[i] as int {
        if i > 0 { assert b[i] == b[1..][i - 1]; }
      }
    }
  }

  /** Advancing drops exactly the characters asked for, all of them if there are fewer. */
  lemma AdvanceMeaning(s: string, n: nat)
    ensures AdvanceByChars(Encode(s), n) == Encode(s[if n < |s| then n else |s|..])
  {
    var b := Encode(s);
    EncodingLength(s);
    if n == 0 {
      assert s[0..] == s;
    } else if n < |b| {
      if IsAscii(b[..n]) {
        AsciiPrefix(s, n);
      } else {
        CharIndexMeaning(s, n);
        if n < |s| { SplitEncoding(s, n); }
      }
    }
  }

  lemma SplitEncoding(s: string, n: nat)
    requires n <= |s|
    ensures Encode(s) == Encode(s[..n]) + Encode(s[n..])
  {
    assert s == s[..n] + s[n..];
    EncodeConcat(s[..n], s[n..]);
  }

  lemma TakeMeaning(s: string, n: nat)
    ensures TakeChars(Encode(s), n) == Encode(s[..if n < |s| then n else |s|])
  {
    CharIndexMeaning(s, n);
    if n < |s| { SplitEncoding(s, n); } else { assert s[..|s|] == s; }
  }

  lemma {:induction false} SharedCharsMeaning(s: string, t: string)
    ensures SharedPrefixCountChars(Encode(s), Encode(t)) == Lcp(s, t)
    decreases |s|
  {
    if s != [] && t != [] {
      FirstOfEncoding(s);
      FirstOfEncoding(t);
      SharedCharsMeaning(s[1..], t[1..]);
    }
  }

  /** The shared count is the number of characters on which two strings agree, short cut or not. */
  lemma SharedMeaning(s: string, t: string)
    ensures SharedPrefixCount(Encode(s), Encode(t)) == Lcp(s, t)
  {
    var a, b := Encode(s), Encode(t);
    var n := Lcp(a, b);
    if IsAscii(a[..n]) {
      AsciiPrefix(s, n);
      AsciiPrefix(t, n);
      forall i | 0 <= i < n ensures s[i] == t[i] {
        assert a[i] == a[..n][i] == b[..n][i] == b[i];
      }
      if n < |s| && n < |t| { NextByteDiffers(s, t, n); }
      LcpUnique(s, t, n);
    } else {
      SharedCharsMeaning(s, t);
    }
  }

  /** Past a shared ASCII prefix, equal characters would have started with equal bytes. */
  lemma NextByteDiffers(s: string, t: string, n: nat)
    requires n < |s| && n < |t| && n <= |Encode(s)| && n <= |Encode(t)|
    requires Encode(s)[n..] == Encode(s[n..]) && Encode(t)[n..] == Encode(t[n..])
    requires n < |Encode(s)| && n < |Encode(t)| ==> Encode(s)[n] != Encode(t)[n]
    ensures s[n] != t[n]
  {
    FirstOfEncoding(s[n..]);
    FirstOfEncoding(t[n..]);
    assert Encode(s)[n] == Encode(s)[n..][0] && Encode(t)[n] == Encode(t)[n..][0];
    assert Encode(s[n..])[0] == EncodeChar(s[n])[0] && Encode(t[n..])[0] == EncodeChar(t[n])[0];
  }

  // ---------- node text ----------

  datatype ByteText = ByteText(text: Bytes, charCount: nat) {
    ghost predicate Holds(s: string) { text == Encode(s) && charCount == |s| }
  }

  function SplitAtChar(x: ByteText, k: nat): (ByteText, ByteText) {
    if k == 0 then (ByteText([], 0), x)
    else if k >= x.charCount then (x, ByteText([], 0))
    else
      var i := match CharIndex(x.text, k) case None => |x.text| case Some(i) => if i <= |x.text| then i else |x.text|;
      (ByteText(x.text[..i], k), ByteText(x.text[i..], x.charCount - k))
  }

  /** The split loses nothing, cuts between characters, and both cached counts are right. */
  lemma SplitMeaning(x: ByteText, s: string, k: nat)
    requires x.Holds(s)
    ensures var m := if k < |s| then k else |s|;
            SplitAtChar(x, k).0.Holds(s[..m]) && SplitAtChar(x, k).1.Holds(s[m..])
    ensures SplitAtChar(x, k).0.text + SplitAtChar(x, k).1.text == x.text
  {
    if 0 < k < |s| {
      CharIndexMeaning(s, k);
      SplitEncoding(s, k);
    } else if k != 0 {
      assert s[..|s|] == s;
    }
  }

  /** The same for any two valid texts, told on their bytes. */
  lemma SharedOnBytes(a: Bytes, b: Bytes)
    requires WellFormed(a) && WellFormed(b)
    ensures SharedPrefixCount(a, b) == Lcp(Decode(a), Decode(b))
  {
    EncodeDecode(a);
    EncodeDecode(b);
    SharedMeaning(Decode(a), Decode(b));
  }

  /** What is left after advancing is again valid text: the cut is between two characters. */
  lemma AdvanceOnBytes(b: Bytes, n: nat)
    requires WellFormed(b)
    ensures WellFormed(AdvanceByChars(b, n))
    ensures Decode(AdvanceByChars(b, n)) == Decode(b)[if n < |Decode(b)| then n else |Decode(b)|..]
  {
    EncodeDecode(b);
    AdvanceMeaning(Decode(b), n);
    DecodeEncode(Decode(b)[if n < |Decode(b)| then n else |Decode(b)|..]);
  }
}
