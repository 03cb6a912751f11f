/** The hexadecimal codec.  Memory is one array of bytes and strings are given
    by their offsets, so that source and destination may overlap. */
module Hex {

  type byte = x: int | 0 <= x < 256

  // character codes
  const ZERO: byte := 48
  const NINE: byte := 57
  const UPPER_A: byte := 65
  const UPPER_F: byte := 70
  const LOWER_A: byte := 97
  const LOWER_F: byte := 102
  const LOWER_Z: byte := 122

  /** The digit chr2hex writes for a nibble. */
  function Digit(v: int): byte
    requires 0 <= v < 16
  {
    (if v < 10 then ZERO else UPPER_A - 10) + v
  }

  /** toupper in the C locale */
  function ToUpper(c: byte): byte
  {
    if LOWER_A <= c <= LOWER_Z then c - 32 else c
  }

  function HexVal(c: byte): (v: int)
    ensures 0 <= v < 16
  {
    var u := ToUpper(c);
    if ZERO <= u <= NINE then u - ZERO
    else if UPPER_A <= u <= UPPER_F then u - UPPER_A + 10
    else 0
  }

  predicate IsHex(c: byte)
  {
    ZERO <= c <= NINE || UPPER_A <= c <= UPPER_F || LOWER_A <= c <= LOWER_F
  }

  /** The characters "0" to "9", "A" to "F" and "a" to "f" have their values,
      and every other character has the value 0. */
  lemma HexDigits(c: byte)
    ensures '0' as int <= c <= '9' as int ==> HexVal(c) == c - '0' as int
    ensures 'A' as int <= c <= 'F' as int ==> HexVal(c) == c - 'A' as int + 10
    ensures 'a' as int <= c <= 'f' as int ==> HexVal(c) == c - 'a' as int + 10
    ensures IsHex(c)
            <==> '0' as int <= c <= '9' as int || 'A' as int <= c <= 'F' as int || 'a' as int <= c <= 'f' as int
    ensures !IsHex(c) ==> HexVal(c) == 0
  {
  }

  // ----- base 16, section 8 of RFC 4648 -----

  /** Two upper-case digits for each byte, the high nibble first. */
  function Encode(bytes: seq<byte>): (digits: seq<byte>)
    ensures |digits| == 2 * |bytes|
  {
    if bytes == [] then [] else [Digit(bytes[0] / 16), Digit(bytes[0] % 16)] + Encode(bytes[1..])
  }

  /** One byte for each two characters; a lone last one is the high nibble. */
  function Decode(digits: seq<byte>): (bytes: seq<byte>)
    ensures |bytes| == (|digits| + 1) / 2
  {
    if digits == [] then []
    else if |digits| == 1 then [16 * HexVal(digits[0])]
    else [16 * HexVal(digits[0]) + HexVal(digits[1])] + Decode(digits[2..])
  }

  /** The lower-case letters of digits in upper case. */
  function Upper(digits: seq<byte>): (upper: seq<byte>)
    ensures |upper| == |digits|
    ensures forall i :: 0 <= i < |digits| ==>
      upper[i] == if 'a' as int <= digits[i] <= 'z' as int then digits[i] - 'a' as int + 'A' as int else digits[i]
  {
    seq(|digits|, i requires 0 <= i < |digits| => ToUpper(digits[i]))
  }

  const ALPHABET: string := "0123456789ABCDEF"

  /** The digits are the base-16 alphabet in order, and are read back in either
      case as their place in it; every other character counts as 0. */
  lemma DigitsAreTheAlphabet(c: byte)
    ensures forall v :: 0 <= v < 16 ==> Digit(v) as char == ALPHABET[v]
    ensures IsHex(c) <==> ToUpper(c) as char in ALPHABET
    ensures if IsHex(c) then ToUpper(c) as char == ALPHABET[HexVal(c)] else HexVal(c) == 0
  {
    var v := HexVal(c);
    assert IsHex(c) ==> ToUpper(c) as char == ALPHABET[v];
  }

  /** Digits 2i and 2i+1 are the high and the low nibble of byte i. */
  lemma {:induction false} EncodeAt(bytes: seq<byte>, i: nat)
    requires i < |bytes|
    ensures Encode(bytes)[2 * i] == Digit(bytes[i] / 16) && Encode(bytes)[2 * i + 1] == Digit(bytes[i] % 16)
    ensures 16 * HexVal(Encode(bytes)[2 * i]) + HexVal(Encode(bytes)[2 * i + 1]) == bytes[i]
  {
    if i > 0 {
      EncodeAt(bytes[1..], i - 1);
    }
  }

  lemma {:induction false} DecodeEncode(bytes: seq<byte>)
    ensures Decode(Encode(bytes)) == bytes
  {
    if bytes != [] {
      DecodeEncode(bytes[1..]);
      assert Encode(bytes)[2..] == Encode(bytes[1..]);
    }
  }

  lemma NibbleDigits(c: byte, d: byte)
    requires IsHex(c) && IsHex(d)
    ensures Digit((16 * HexVal(c) + HexVal(d)) / 16) == ToUpper(c)
    ensures Digit((16 * HexVal(c) + HexVal(d)) % 16) == ToUpper(d)
  {
  }

  /** A valid hexadecimal string comes back in upper case, padded with '0' to
      an even length. */
  lemma {:induction false} EncodeDecode(digits: seq<byte>)
    requires forall k :: 0 <= k < |digits| ==>
               || '0' as int <= digits[k] <= '9' as int
               || 'A' as int <= digits[k] <= 'F' as int || 'a' as int <= digits[k] <= 'f' as int
    ensures Encode(Decode(digits)) == Upper(digits) + if |digits| % 2 == 1 then ['0' as int] else []
  {
    if |digits| == 1 {
      LoneDigit(digits[0]);
      assert digits == [digits[0]];
    } else if digits != [] {
      var rest := digits[2..];
      assert |rest| % 2 == |digits| % 2;
      EncodeDecode(rest);
      FirstPair(digits, if |digits| % 2 == 1 then [ZERO] else []);
    }
  }

  lemma FirstPair(digits: seq<byte>, pad: seq<byte>)
    requires |digits| >= 2 && IsHex(digits[0]) && IsHex(digits[1])
    requires Encode(Decode(digits[2..])) == Upper(digits[2..]) + pad
    ensures Encode(Decode(digits)) == Upper(digits) + pad
  {
    DecodePair(digits);
    EncodePair(digits[0], digits[1], Decode(digits));
    UpperPair(digits, pad);
  }

  lemma DecodePair(digits: seq<byte>)
    requires |digits| >= 2
    ensures Decode(digits)[0] == 16 * HexVal(digits[0]) + HexVal(digits[1])
    ensures Decode(digits)[1..] == Decode(digits[2..])
  {
  }

  lemma UpperPair(digits: seq<byte>, pad: seq<byte>)
    requires |digits| >= 2
    ensures Upper(digits) + pad == [ToUpper(digits[0]), ToUpper(digits[1])] + (Upper(digits[2..]) + pad)
  {
  }

  lemma LoneDigit(c: byte)
    requires IsHex(c)
    ensures Encode(Decode([c])) == Upper([c]) + [ZERO]
  {
    EncodePair(c, ZERO, Decode([c]));
  }

  lemma EncodePair(c: byte, d: byte, bytes: seq<byte>)
    requires IsHex(c) && IsHex(d) && bytes != [] && bytes[0] == 16 * HexVal(c) + HexVal(d)
    ensures Encode(bytes) == [ToUpper(c), ToUpper(d)] + Encode(bytes[1..])
  {
    NibbleDigits(c, d);
  }

  // ----- the loops over memory -----

  /** What hexstr2byte does to memory, one output byte at a time. */
  function Decoded(mem: seq<byte>, src: nat, dst: nat, n: int): (mem': seq<byte>)
    requires n > 0 ==> src + n <= |mem| && 2 * dst + n <= 2 * |mem|
    ensures |mem'| == |mem|
    decreases n
  {
    if n <= 0 then mem else
      var high := mem[dst := 16 * HexVal(mem[src])];
      if n == 1 then high else
        Decoded(high[dst := high[dst] + HexVal(high[src + 1])], src + 2, dst + 1, n - 2)
  }

  method HexStr2Byte(mem: array<byte>, src: nat, dst: nat, n: int)
    requires n > 0 ==> src + n <= mem.Length && 2 * dst + n <= 2 * mem.Length
    modifies mem
    ensures mem[..] == Decoded(old(mem[..]), src, dst, n)
  {
    var s: nat, d: nat, left := src, dst, n - 1;
    while left >= 0
      invariant left >= 0 ==> s + left < mem.Length && 2 * d + left + 1 <= 2 * mem.Length
      invariant Decoded(mem[..], s, d, left + 1) == Decoded(old(mem[..]), src, dst, n)
      decreases left
    {
      ghost var before := mem[..];
      mem[d] := 16 * HexVal(mem[s]);
      s := s + 1;
      left := left - 1;
      assert mem[..] == before[d := 16 * HexVal(before[s - 1])];
      if left >= 0 {
        ghost var high := mem[..];
        mem[d] := mem[d] + HexVal(mem[s]);
        assert mem[..] == high[d := high[d] + HexVal(high[s])];
        s := s + 1;
      }
      d := d + 1;
      left := left - 1;
    }
  }

  ghost predicate Spliced(mem: seq<byte>, mem': seq<byte>, dst: nat, bytes: seq<byte>)
  {
    && |mem'| == |mem| && dst + |bytes| <= |mem|
    && forall k :: 0 <= k < |mem| ==> mem'[k] == if dst <= k < dst + |bytes| then bytes[k - dst] else mem[k]
  }

  lemma SplicedIs(mem: seq<byte>, mem': seq<byte>, dst: nat, bytes: seq<byte>)
    ensures Spliced(mem, mem', dst, bytes)
            <==> dst + |bytes| <= |mem| && mem' == mem[..dst] + bytes + mem[dst + |bytes|..]
  {
    if dst + |bytes| <= |mem| {
      var spliced := mem[..dst] + bytes + mem[dst + |bytes|..];
      assert Spliced(mem, spliced, dst, bytes);
      if Spliced(mem, mem', dst, bytes) {
        assert mem' == spliced;
      }
    }
  }

  /** Memory after one round of the loop. */
  function OneRound(mem: seq<byte>, src: nat, dst: nat): (next: seq<byte>)
    requires src + 2 <= |mem| && dst < |mem|
    ensures |next| == |mem|
  {
    var high := mem[dst := 16 * HexVal(mem[src])];
    high[dst := high[dst] + HexVal(high[src + 1])]
  }

  lemma DecodeRound(mem: seq<byte>, src: nat, dst: nat, n: nat)
    requires src + n <= |mem| && dst < |mem| && n >= 2
    requires dst <= src || src + n <= dst
    ensures var next := OneRound(mem, src, dst);
            Decode(mem[src..src + n]) == [next[dst]] + Decode(next[src + 2..src + n])
  {
    assert OneRound(mem, src, dst)[src + 2..src + n] == mem[src..src + n][2..];
  }

  lemma DecodedRound(mem: seq<byte>, src: nat, dst: nat, n: nat)
    requires src + n <= |mem| && 2 * dst + n <= 2 * |mem| && n >= 2
    requires dst <= src || src + n <= dst
    requires var next := OneRound(mem, src, dst);
             Spliced(next, Decoded(next, src + 2, dst + 1, n - 2), dst + 1, Decode(next[src + 2..src + n]))
    ensures Spliced(mem, Decoded(mem, src, dst, n), dst, Decode(mem[src..src + n]))
  {
    var next := OneRound(mem, src, dst);
    DecodeRound(mem, src, dst, n);
    SplicedFirst(mem, next, Decoded(next, src + 2, dst + 1, n - 2), dst, Decode(next[src + 2..src + n]));
  }

  /** Decoding forward, in place or onto a lower address, is safe: the
      destination receives the decoded source and nothing else changes. */
  lemma {:induction false} DecodedIsDecode(mem: seq<byte>, src: nat, dst: nat, n: nat)
    requires src + n <= |mem| && 2 * dst + n <= 2 * |mem|
    requires dst <= src || src + n <= dst
    ensures Spliced(mem, Decoded(mem, src, dst, n), dst, Decode(mem[src..src + n]))
    decreases n
  {
    if n >= 2 {
      var next := OneRound(mem, src, dst);
      DecodedIsDecode(next, src + 2, dst + 1, n - 2);
      assert next[src + 2..src + 2 + (n - 2)] == next[src + 2..src + n];
      DecodedRound(mem, src, dst, n);
    } else if n == 1 {
      assert mem[src..src + 1] == [mem[src]];
    }
  }

  lemma SplicedFirst(mem: seq<byte>, next: seq<byte>, mem': seq<byte>, dst: nat, rest: seq<byte>)
    requires |next| == |mem| && dst < |mem| && Spliced(next, mem', dst + 1, rest)
    requires forall k :: 0 <= k < |mem| && k != dst ==> next[k] == mem[k]
    ensures Spliced(mem, mem', dst, [next[dst]] + rest)
  {
  }

  /** Cells below the destination are not written. */
  lemma {:induction false} DecodedBelow(mem: seq<byte>, src: nat, dst: nat, n: nat, k: nat)
    requires src + n <= |mem| && 2 * dst + n <= 2 * |mem| && k < dst
    ensures Decoded(mem, src, dst, n)[k] == mem[k]
    decreases n
  {
    if n >= 2 {
      DecodedBelow(OneRound(mem, src, dst), src + 2, dst + 1, n - 2, k);
    }
  }

  /** The first output byte is final after its round. */
  lemma DecodedFirst(mem: seq<byte>, src: nat, dst: nat, n: nat)
    requires src + n <= |mem| && 2 * dst + n <= 2 * |mem| && n >= 1
    ensures Decoded(mem, src, dst, n)[dst]
            == if n == 1 then 16 * HexVal(mem[src]) else OneRound(mem, src, dst)[dst]
  {
    if n >= 2 {
      DecodedBelow(OneRound(mem, src, dst), src + 2, dst + 1, n - 2, dst);
    }
  }

  /** The nibble of b that comes from an even (high) or odd (low) character. */
  function Nibble(b: byte, low: bool): int { if low then b % 16 else b / 16 }

  function Place(i: nat, low: bool): nat { 2 * i + if low then 1 else 0 }

  /** A source cell that is not yet overwritten and holds no digit makes the
      nibble decoded from it 0. */
  lemma {:induction false} DecodedZero(mem: seq<byte>, src: nat, dst: nat, n: nat, i: nat, low: bool)
    requires src + n <= |mem| && 2 * dst + n <= 2 * |mem| && Place(i, low) < n && src + Place(i, low) < dst
    requires HexVal(mem[src + Place(i, low)]) == 0
    ensures Nibble(Decoded(mem, src, dst, n)[dst + i], low) == 0
    decreases n
  {
    if i == 0 {
      DecodedFirst(mem, src, dst, n);
    } else {
      DecodedZero(OneRound(mem, src, dst), src + 2, dst + 1, n - 2, i - 1, low);
    }
  }

  /** The memory that shows a forward overlap: only digits 'F'. */
  function AllF(n: nat): (mem: seq<byte>)
    ensures |mem| == n
  {
    seq(n, i => UPPER_F)
  }

  lemma {:induction false} DecodeAllF(digits: seq<byte>, i: nat, low: bool)
    requires Place(i, low) < |digits| && forall k :: 0 <= k < |digits| ==> digits[k] == UPPER_F
    ensures Nibble(Decode(digits)[i], low) == 15
    decreases |digits|
  {
    if i > 0 {
      DecodeAllF(digits[2..], i - 1, low);
    }
  }

  /** Decoding onto a higher address inside the source reads a byte it has
      already overwritten with 0xFF, or with 0xF0 if it is the next one. */
  lemma OverlapReadsGarbage(size: nat, src: nat, dst: nat, n: nat, i: nat, low: bool)
    requires src + n <= size && 2 * dst + n <= 2 * size
    requires dst == src + Place(i, low) && 0 < Place(i, low) < n
    ensures Nibble(Decoded(AllF(size), src, dst, n)[dst + i], low) == 0
  {
    var mem := AllF(size);
    var next := OneRound(mem, src, dst);
    if i == 0 {
      DecodedFirst(mem, src, dst, n);
      assert next[dst] == 240;
    } else {
      assert next[dst] == 255;
      DecodedZero(next, src + 2, dst + 1, n - 2, i - 1, low);
    }
  }

  lemma DecodedOverlapFails(size: nat, src: nat, dst: nat, n: nat)
    requires src + n <= size && 2 * dst + n <= 2 * size
    requires src < dst < src + n
    ensures !Spliced(AllF(size), Decoded(AllF(size), src, dst, n), dst, Decode(AllF(size)[src..src + n]))
  {
    var i, low := (dst - src) / 2, (dst - src) % 2 == 1;
    assert Place(i, low) == dst - src;
    OverlapReadsGarbage(size, src, dst, n, i, low);
    DecodeAllF(AllF(size)[src..src + n], i, low);
    assert dst <= dst + i < dst + |Decode(AllF(size)[src..src + n])|;
  }

  /** For given places, decoding is right for every memory if and only if the
      destination does not start inside the source, other than at its head. */
  lemma DecodedExact(size: nat, src: nat, dst: nat, n: nat)
    requires src + n <= size && 2 * dst + n <= 2 * size
    ensures (forall mem: seq<byte> :: |mem| == size ==>
               Spliced(mem, Decoded(mem, src, dst, n), dst, Decode(mem[src..src + n])))
            <==> dst <= src || src + n <= dst
  {
    if dst <= src || src + n <= dst {
      forall mem: seq<byte> | |mem| == size
        ensures Spliced(mem, Decoded(mem, src, dst, n), dst, Decode(mem[src..src + n]))
      {
        DecodedIsDecode(mem, src, dst, n);
      }
    } else {
      DecodedOverlapFails(size, src, dst, n);
    }
  }

  // ----- encoding -----

  method Chr2Hex(c: byte, mem: array<byte>, hex: nat)
    requires hex + 2 <= mem.Length
    modifies mem
    ensures mem[..] == old(mem[..])[hex := Digit(c / 16)][hex + 1 := Digit(c % 16)]
  {
    var val := c / 16;
    mem[hex] := (if val < 10 then ZERO else UPPER_A - 10) + val;
    val := c % 16;
    mem[hex + 1] := (if val < 10 then ZERO else UPPER_A - 10) + val;
  }

  /** Memory after the digits of one byte are written. */
  function DigitsOut(mem: seq<byte>, src: nat, dst: nat): (next: seq<byte>)
    requires src < |mem| && dst + 2 <= |mem|
    ensures |next| == |mem|
  {
    mem[dst := Digit(mem[src] / 16)][dst + 1 := Digit(mem[src] % 16)]
  }

  /** What byte2hexstr does to memory, one source byte at a time. */
  function Encoded(mem: seq<byte>, src: nat, dst: nat, n: int): (mem': seq<byte>)
    requires n > 0 ==> src + n <= |mem| && dst + 2 * n <= |mem|
    ensures |mem'| == |mem|
    decreases n
  {
    if n <= 0 then mem else Encoded(DigitsOut(mem, src, dst), src + 1, dst + 2, n - 1)
  }

  /** No digit is written over a byte that is still to be read: the digits lie
      behind the source, or end at most one byte into it per byte read. */
  predicate EncodePlaces(src: nat, dst: nat, n: nat) { src + n <= dst || dst + n <= src + 1 }

  method Byte2HexStr(mem: array<byte>, src: nat, dst: nat, n: int)
    requires n > 0 ==> src + n <= mem.Length && dst + 2 * n <= mem.Length
    modifies mem
    ensures mem[..] == Encoded(old(mem[..]), src, dst, n)
    ensures n > 0 && EncodePlaces(src, dst, n) ==> Spliced(old(mem[..]), mem[..], dst, Encode(old(mem[src..src + n])))
  {
    ghost var before := mem[..];
    var s: nat, d: nat, left := src, dst, n - 1;
    while left >= 0
      invariant left >= 0 ==> s + left < mem.Length && d + 2 * left + 2 <= mem.Length
      invariant Encoded(mem[..], s, d, left + 1) == Encoded(before, src, dst, n)
      decreases left
    {
      Chr2Hex(mem[s], mem, d);
      s := s + 1;
      d := d + 2;
      left := left - 1;
    }
    if n > 0 && EncodePlaces(src, dst, n) {
      EncodedIsEncode(before, src, dst, n);
      assert before[src..src + n] == old(mem[src..src + n]);
    }
  }

  /** From such places the destination receives the digits of the source, and
      nothing else changes. */
  lemma {:induction false} EncodedIsEncode(mem: seq<byte>, src: nat, dst: nat, n: nat)
    requires src + n <= |mem| && dst + 2 * n <= |mem| && EncodePlaces(src, dst, n)
    ensures Spliced(mem, Encoded(mem, src, dst, n), dst, Encode(mem[src..src + n]))
    decreases n
  {
    if n > 0 {
      var next := DigitsOut(mem, src, dst);
      EncodedIsEncode(next, src + 1, dst + 2, n - 1);
      assert mem[src..src + n][1..] == next[src + 1..src + 1 + (n - 1)];
      SplicedPair(mem, next, Encoded(mem, src, dst, n), dst, Encode(mem[src..src + n][1..]));
    }
  }

  lemma SplicedPair(mem: seq<byte>, next: seq<byte>, mem': seq<byte>, dst: nat, rest: seq<byte>)
    requires |next| == |mem| && dst + 2 <= |mem| && Spliced(next, mem', dst + 2, rest)
    requires forall k :: 0 <= k < |mem| && k != dst && k != dst + 1 ==> next[k] == mem[k]
    ensures Spliced(mem, mem', dst, [next[dst], next[dst + 1]] + rest)
  {
  }

  /** Digits once written are never written again. */
  lemma {:induction false} EncodedBelow(mem: seq<byte>, src: nat, dst: nat, n: nat, k: nat)
    requires src + n <= |mem| && dst + 2 * n <= |mem| && k < dst
    ensures Encoded(mem, src, dst, n)[k] == mem[k]
    decreases n
  {
    if n > 0 {
      EncodedBelow(DigitsOut(mem, src, dst), src + 1, dst + 2, n - 1, k);
    }
  }

  /** A source cell that will not be written again is encoded as it is now; if
      it holds a digit, the high nibble is less than 8. */
  lemma {:induction false} EncodedStale(mem: seq<byte>, src: nat, dst: nat, n: nat, j: nat)
    requires src + n <= |mem| && dst + 2 * n <= |mem| && j < n
    requires src + j < dst && mem[src + j] <= UPPER_F
    ensures HexVal(Encoded(mem, src, dst, n)[dst + 2 * j]) < 8
    decreases n
  {
    var next := DigitsOut(mem, src, dst);
    if j == 0 {
      EncodedBelow(next, src + 1, dst + 2, n - 1, dst);
    } else {
      EncodedStale(next, src + 1, dst + 2, n - 1, j - 1);
    }
  }

  /** A source byte that lies on the digits of an earlier one is lost. */
  lemma {:induction false} EncodedLost(mem: seq<byte>, src: nat, dst: nat, n: nat, j: nat)
    requires src + n <= |mem| && dst + 2 * n <= |mem|
    requires dst <= src + j < dst + 2 * j && j < n
    ensures HexVal(Encoded(mem, src, dst, n)[dst + 2 * j]) < 8
    decreases n
  {
    var next := DigitsOut(mem, src, dst);
    if src + j < dst + 2 {
      EncodedStale(next, src + 1, dst + 2, n - 1, j - 1);
    } else {
      EncodedLost(next, src + 1, dst + 2, n - 1, j - 1);
    }
  }

  lemma EncodedOverlapFails(size: nat, src: nat, dst: nat, n: nat)
    requires src + n <= size && dst + 2 * n <= size && !EncodePlaces(src, dst, n)
    ensures var mem := AllOnes(size);
            !Spliced(mem, Encoded(mem, src, dst, n), dst, Encode(mem[src..src + n]))
  {
    var mem := AllOnes(size);
    EncodedLost(mem, src, dst, n, n - 1);
    EncodeAt(mem[src..src + n], n - 1);
    assert dst <= dst + 2 * (n - 1) < dst + |Encode(mem[src..src + n])|;
  }

  function AllOnes(n: nat): (mem: seq<byte>)
    ensures |mem| == n
  {
    seq(n, i => 255)
  }

  /** For given places, encoding is right for every memory if and only if no
      digit is written over a byte still to be read. */
  lemma EncodedExact(size: nat, src: nat, dst: nat, n: nat)
    requires src + n <= size && dst + 2 * n <= size
    ensures (forall mem: seq<byte> :: |mem| == size ==>
               Spliced(mem, Encoded(mem, src, dst, n), dst, Encode(mem[src..src + n])))
            <==> EncodePlaces(src, dst, n)
  {
    if EncodePlaces(src, dst, n) {
      forall mem: seq<byte> | |mem| == size
        ensures Spliced(mem, Encoded(mem, src, dst, n), dst, Encode(mem[src..src + n]))
      {
        EncodedIsEncode(mem, src, dst, n);
      }
    } else {
      EncodedOverlapFails(size, src, dst, n);
    }
  }

  /** Encoding n bytes and decoding the digits in place gives the bytes back. */
  method RoundTrip(bytes: seq<byte>) returns (back: seq<byte>)
    ensures back == bytes
  {
    var n := |bytes|;
    var mem := new byte[3 * n](i requires 0 <= i < 3 * n => if i < n then bytes[i] else 0);
    assert mem[0..n] == bytes;
    Byte2HexStr(mem, 0, n, n);
    ghost var digits := mem[..];
    assert digits[n..n + 2 * n] == Encode(bytes);
    HexStr2Byte(mem, n, n, 2 * n);
    RoundTripMemory(digits, n, bytes);
    back := mem[n..2 * n];
  }

  lemma RoundTripMemory(digits: seq<byte>, n: nat, bytes: seq<byte>)
    requires |digits| == 3 * n && |bytes| == n && digits[n..n + 2 * n] == Encode(bytes)
    ensures Decoded(digits, n, n, 2 * n)[n..2 * n] == bytes
  {
    DecodedIsDecode(digits, n, n, 2 * n);
    DecodeEncode(bytes);
  }
}
