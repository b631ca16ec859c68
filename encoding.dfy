/**
 * Byte, word and hexadecimal encodings shared by the checkpoint serializers:
 * little-endian assembly of bytes into words, splitting a buffer into
 * fixed-width slots, in-place stores into a buffer, and the fixed-width
 * lower-case hexadecimal text that `std::setw(16) << std::setfill('0') <<
 * std::hex` produces.
 */
module Encoding {

  datatype Option<T> = None | Some(value: T)

  /** Size of one guest memory page in bytes. */
  const PAGE_SIZE: nat := 4096
  const TWO_32: nat := 0x1_0000_0000
  const TWO_64: nat := 0x1_0000_0000_0000_0000

  type byte = x: int | 0 <= x < 256
  type u32 = x: int | 0 <= x < 0x1_0000_0000
  type u64 = x: int | 0 <= x < 0x1_0000_0000_0000_0000

  function Pow256(n: nat): (r: nat)
    ensures r > 0
  {
    if n == 0 then 1 else 256 * Pow256(n - 1)
  }

  function Pow16(n: nat): (r: nat)
    ensures r > 0
  {
    if n == 0 then 1 else 16 * Pow16(n - 1)
  }

  lemma {:induction false} Pow16Twice(n: nat)
    ensures Pow16(2 * n) == Pow256(n)
  {
    if n > 0 {
      Pow16Twice(n - 1);
      assert Pow16(2 * n) == 16 * 16 * Pow16(2 * (n - 1));
    }
  }

  lemma WordBounds()
    ensures Pow256(4) == TWO_32 && Pow256(8) == TWO_64 && Pow16(16) == TWO_64
  {
    Pow16Twice(8);
  }

  // ---------------------------------------------------------------------
  // Little-endian words

  /** The little-endian value of a byte string: `s[0]` is the least significant byte. */
  function LE(s: seq<byte>): (w: nat)
    ensures w < Pow256(|s|)
    decreases |s|
  {
    if s == [] then 0 else s[0] + 256 * LE(s[1..])
  }

  /** The `n` bytes of `w`, least significant first (the high part of `w` is dropped). */
  function ToLE(w: nat, n: nat): (s: seq<byte>)
    ensures |s| == n
  {
    if n == 0 then [] else [w % 256] + ToLE(w / 256, n - 1)
  }

  /** Splitting a word into bytes and reassembling them gives the word back. */
  lemma {:induction false} LEOfToLE(w: nat, n: nat)
    requires w < Pow256(n)
    ensures LE(ToLE(w, n)) == w
  {
    if n > 0 {
      LEOfToLE(w / 256, n - 1);
      assert ToLE(w, n)[1..] == ToLE(w / 256, n - 1);
    }
  }

  /** Assembling bytes into a word and splitting it again gives the bytes back. */
  lemma {:induction false} ToLEOfLE(s: seq<byte>)
    ensures ToLE(LE(s), |s|) == s
    decreases |s|
  {
    if s != [] {
      var w := LE(s);
      assert w % 256 == s[0] && w / 256 == LE(s[1..]);
      ToLEOfLE(s[1..]);
      assert ToLE(w, |s|) == [s[0]] + s[1..];
    }
  }

  // ---------------------------------------------------------------------
  // Buffers as sequences of fixed-width slots

  lemma MulSucc(w: nat, i: nat)
    ensures w * (i + 1) == w * i + w
  {
  }

  lemma MulMono(w: nat, i: nat, n: nat)
    requires i <= n
    ensures w * i <= w * n
  {
  }

  /** Slot `i` of a buffer cut into `width`-byte words: the little-endian value of bytes `width*i ..`. */
  function Slot(bytes: seq<byte>, width: nat, i: nat): (w: nat)
    requires width * (i + 1) <= |bytes|
    ensures w < Pow256(width)
  {
    MulSucc(width, i);
    LE(bytes[width * i .. width * i + width])
  }

  /** The first `n` slots of `width` bytes of the buffer. */
  function Pack(bytes: seq<byte>, width: nat, n: nat): (words: seq<nat>)
    requires width * n <= |bytes|
    ensures |words| == n
  {
    seq(n, i requires 0 <= i < n => SlotOf(bytes, width, n, i))
  }

  function SlotOf(bytes: seq<byte>, width: nat, n: nat, i: nat): nat
    requires i < n && width * n <= |bytes|
  {
    MulMono(width, i + 1, n);
    Slot(bytes, width, i)
  }

  /** The words written out one after another, each as `width` little-endian bytes. */
  function Unpack(words: seq<nat>, width: nat): (bytes: seq<byte>)
    ensures |bytes| == |words| * width
  {
    if words == [] then [] else ToLE(words[0], width) + Unpack(words[1..], width)
  }

  /** A slice of a suffix is a slice of the whole. */
  lemma SliceOfSuffix(s: seq<byte>, a: nat, o: nat, w: nat)
    requires a + o + w <= |s|
    ensures s[a..][o .. o + w] == s[a + o .. a + o + w]
  {
  }

  /** The slots of a buffer are its first slot followed by the slots of the rest. */
  lemma PackCons(bytes: seq<byte>, width: nat, n: nat)
    requires 0 < n && width * n <= |bytes|
    ensures width <= |bytes| && width * (n - 1) <= |bytes| - width
    ensures Pack(bytes, width, n) == [LE(bytes[..width])] + Pack(bytes[width..], width, n - 1)
  {
    MulSucc(width, n - 1);
    var rest := bytes[width..];
    forall i | 1 <= i < n
      ensures Pack(bytes, width, n)[i] == Pack(rest, width, n - 1)[i - 1]
    {
      MulSucc(width, i - 1);
      MulMono(width, i, n - 1);
      SliceOfSuffix(bytes, width, width * (i - 1), width);
    }
  }

  /** A buffer of `n` whole slots is exactly the concatenation of its slots. */
  lemma {:induction false} UnpackPack(bytes: seq<byte>, width: nat, n: nat)
    requires |bytes| == width * n
    ensures Unpack(Pack(bytes, width, n), width) == bytes
  {
    if n > 0 {
      PackCons(bytes, width, n);
      UnpackPack(bytes[width..], width, n - 1);
      ToLEOfLE(bytes[..width]);
      assert bytes == bytes[..width] + bytes[width..];
    }
  }

  /** Words that fit the width survive being written out and read back. */
  lemma {:induction false} PackUnpack(words: seq<nat>, width: nat)
    requires forall i :: 0 <= i < |words| ==> words[i] < Pow256(width)
    ensures Pack(Unpack(words, width), width, |words|) == words
  {
    if words != [] {
      var bytes := Unpack(words, width);
      PackCons(bytes, width, |words|);
      assert bytes[..width] == ToLE(words[0], width);
      assert bytes[width..] == Unpack(words[1..], width);
      LEOfToLE(words[0], width);
      PackUnpack(words[1..], width);
    }
  }

  /** `s` with the bytes at `off .. off+|b|` replaced by `b`: an in-place store of `b`. */
  function Splice(s: seq<byte>, off: nat, b: seq<byte>): (r: seq<byte>)
    requires off + |b| <= |s|
    ensures |r| == |s|
    ensures r[off .. off + |b|] == b
    ensures forall i :: 0 <= i < |s| && !(off <= i < off + |b|) ==> r[i] == s[i]
  {
    s[..off] + b + s[off + |b|..]
  }

  /** A store leaves every byte range it does not overlap as it was. */
  lemma SpliceOutside(s: seq<byte>, off: nat, b: seq<byte>, lo: nat, hi: nat)
    requires off + |b| <= |s| && lo <= hi <= |s|
    requires hi <= off || off + |b| <= lo
    ensures Splice(s, off, b)[lo..hi] == s[lo..hi]
  {
  }

  /** Storing a word into slot `k` changes slot `k` to that word and no other slot. */
  lemma PackAfterStore(t: seq<byte>, width: nat, n: nat, k: nat, w: nat)
    requires width * n <= |t| && k < n && w < Pow256(width)
    ensures width * k + width <= |t|
    ensures Pack(Splice(t, width * k, ToLE(w, width)), width, n) == Pack(t, width, n)[k := w]
  {
    MulSucc(width, k);
    MulMono(width, k + 1, n);
    var b := ToLE(w, width);
    var s := Splice(t, width * k, b);
    forall i | 0 <= i < n
      ensures Pack(s, width, n)[i] == Pack(t, width, n)[k := w][i]
    {
      MulSucc(width, i);
      MulMono(width, i + 1, n);
      if i == k {
        LEOfToLE(w, width);
      } else if i < k {
        MulMono(width, i + 1, k);
        SpliceOutside(t, width * k, b, width * i, width * i + width);
      } else {
        MulMono(width, k + 1, i);
        SpliceOutside(t, width * k, b, width * i, width * i + width);
      }
    }
  }

  /** A store at or beyond offset `width` leaves the first `width` bytes alone. */
  lemma SpliceBeyond(t: seq<byte>, width: nat, off: nat, b: seq<byte>)
    requires width <= off && off + |b| <= |t|
    ensures Splice(t, off, b)[..width] == t[..width]
    ensures Splice(t, off, b)[width..] == Splice(t[width..], off - width, b)
  {
  }

  // ---------------------------------------------------------------------
  // Lower-case hexadecimal text

  predicate IsHexDigit(c: char) {
    '0' <= c <= '9' || 'a' <= c <= 'f'
  }

  predicate IsHex(s: string) {
    forall i :: 0 <= i < |s| ==> IsHexDigit(s[i])
  }

  function HexDigit(d: nat): (c: char)
    requires d < 16
    ensures IsHexDigit(c)
  {
    if d < 10 then ('0' as int + d) as char else ('a' as int + d - 10) as char
  }

  function DigitValue(c: char): (d: nat)
    requires IsHexDigit(c)
    ensures d < 16 && HexDigit(d) == c
  {
    if c <= '9' then c as int - '0' as int else c as int - 'a' as int + 10
  }

  /** `n` as exactly `width` lower-case hex digits, zero-padded on the left. */
  function Hex(n: nat, width: nat): (s: string)
    ensures |s| == width && IsHex(s)
  {
    if width == 0 then "" else Hex(n / 16, width - 1) + [HexDigit(n % 16)]
  }

  /** The value of a string of hex digits, most significant digit first. */
  function ParseHex(s: string): (n: nat)
    requires IsHex(s)
    ensures n < Pow16(|s|)
  {
    if s == [] then 0 else 16 * ParseHex(s[..|s| - 1]) + DigitValue(s[|s| - 1])
  }

  /** Printing a value that fits in `width` digits and reading it back gives the value. */
  lemma {:induction false} ParseHexOfHex(n: nat, width: nat)
    requires n < Pow16(width)
    ensures ParseHex(Hex(n, width)) == n
  {
    if width > 0 {
      var s := Hex(n, width);
      assert s[..width - 1] == Hex(n / 16, width - 1);
      ParseHexOfHex(n / 16, width - 1);
    }
  }

  /** A hex string is the fixed-width printing of its own value: the text format is unambiguous. */
  lemma {:induction false} HexOfParseHex(s: string)
    requires IsHex(s)
    ensures Hex(ParseHex(s), |s|) == s
  {
    if s != [] {
      var init := s[..|s| - 1];
      var n := ParseHex(s);
      assert n / 16 == ParseHex(init) && n % 16 == DigitValue(s[|s| - 1]);
      HexOfParseHex(init);
      assert s == init + [s[|s| - 1]];
    }
  }

  /** The line `std::setw(16) << std::setfill('0') << std::hex << w` prints for a 64-bit value. */
  function Hex16(w: u64): (s: string)
    ensures |s| == 16 && IsHex(s)
  {
    Hex(w, 16)
  }

  /** A printed word reads back as the word. */
  lemma Hex16Parses(w: u64)
    ensures ParseHex(Hex16(w)) == w
  {
    WordBounds();
    ParseHexOfHex(w, 16);
  }
}
