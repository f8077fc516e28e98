/**
 * Base64 as defined in section 4 of RFC 4648: every 3 bytes (24 bits) become 4 characters
 * of the 64-character alphabet, 6 bits each, most significant first; a final group of 1
 * or 2 bytes is completed with zero bits and padded with `=`.
 * Node's `Buffer.from(payload, 'base64')` agrees with `Decode` on every string that
 * `Decode` accepts. `Buffer#toString` and `Buffer.from(string)` use UTF-8, which maps
 * ASCII (characters and bytes below 128) one to one; that is the part modelled here.
 */
module Base64 {
  import opened Wrappers

  type byte = x: int | 0 <= x < 256
  type sextet = x: int | 0 <= x < 64

  /** The characters of the alphabet of Table 1 of RFC 4648 (the pad character excluded). */
  predicate IsAlphabetChar(c: char) {
    'A' <= c <= 'Z' || 'a' <= c <= 'z' || '0' <= c <= '9' || c == '+' || c == '/'
  }

  /** The encoding of a 6-bit value (Table 1 of RFC 4648). */
  function CharOf(x: sextet): (c: char)
    ensures IsAlphabetChar(c)
    ensures ValueOf(c) == x
  {
    if x < 26 then ('A' as int + x) as char
    else if x < 52 then ('a' as int + (x - 26)) as char
    else if x < 62 then ('0' as int + (x - 52)) as char
    else if x == 62 then '+'
    else '/'
  }

  /** The 6-bit value an alphabet character stands for. */
  function ValueOf(c: char): (x: sextet)
    requires IsAlphabetChar(c)
  {
    if 'A' <= c <= 'Z' then c as int - 'A' as int
    else if 'a' <= c <= 'z' then c as int - 'a' as int + 26
    else if '0' <= c <= '9' then c as int - '0' as int + 52
    else if c == '+' then 62
    else 63
  }

  lemma CharOfValueOf(c: char)
    requires IsAlphabetChar(c)
    ensures CharOf(ValueOf(c)) == c
  {
  }

  /** The 4 characters of 3 bytes: the top 6 bits of `b0`, its low 2 bits with the top 4 of `b1`, and so on. */
  function EncodeGroup(b0: byte, b1: byte, b2: byte): (q: string)
    ensures |q| == 4
    ensures forall i | 0 <= i < 4 :: IsAlphabetChar(q[i])
  {
    [CharOf(b0 / 4), CharOf(b0 % 4 * 16 + b1 / 16), CharOf(b1 % 16 * 4 + b2 / 64), CharOf(b2 % 64)]
  }

  /** The 4 characters for a final single byte: 12 bits (4 of them zero), then two pad characters. */
  function EncodeOneByte(b0: byte): (q: string)
    ensures |q| == 4
    ensures forall i | 0 <= i < 4 :: IsAlphabetChar(q[i]) || q[i] == '='
  {
    [CharOf(b0 / 4), CharOf(b0 % 4 * 16), '=', '=']
  }

  /** The 4 characters for two final bytes: 18 bits (2 of them zero), then one pad character. */
  function EncodeTwoBytes(b0: byte, b1: byte): (q: string)
    ensures |q| == 4
    ensures forall i | 0 <= i < 4 :: IsAlphabetChar(q[i]) || q[i] == '='
  {
    [CharOf(b0 / 4), CharOf(b0 % 4 * 16 + b1 / 16), CharOf(b1 % 16 * 4), '=']
  }

  /** One more full group of input makes one more quantum of output. */
  lemma GroupCountStep(k: nat)
    ensures (k + 5) / 3 == (k + 2) / 3 + 1
  {
  }

  /** Encoding a non-empty input gives a positive whole number of quanta. */
  lemma QuantumCount(n: nat)
    requires n > 0
    ensures 4 * ((n + 2) / 3) % 4 == 0 && 4 * ((n + 2) / 3) > 0
  {
  }

  /** Adding a quantum keeps a length a multiple of 4. */
  lemma QuantumCountStep(k: nat)
    requires k % 4 == 0
    ensures (k + 4) % 4 == 0
  {
  }

  /** Encoding of a byte sequence: full groups first, then a padded final group of 1 or 2 bytes. */
  function Encode(b: seq<byte>): (s: string)
    ensures |s| == 4 * ((|b| + 2) / 3)
    ensures forall i | 0 <= i < |s| :: IsAlphabetChar(s[i]) || s[i] == '='
  {
    if |b| == 0 then ""
    else if |b| == 1 then EncodeOneByte(b[0])
    else if |b| == 2 then EncodeTwoBytes(b[0], b[1])
    else
      var q, rest := EncodeGroup(b[0], b[1], b[2]), Encode(b[3..]);
      GroupCountStep(|b[3..]|);
      assert forall i | 4 <= i < |q + rest| :: (q + rest)[i] == rest[i - 4];
      q + rest
  }

  /** The 3 bytes that 4 sextets carry, most significant bits first. */
  function DecodeGroup(c0: sextet, c1: sextet, c2: sextet, c3: sextet): (b: seq<byte>)
    ensures |b| == 3
  {
    [c0 * 4 + c1 / 16, c1 % 16 * 16 + c2 / 4, c2 % 4 * 64 + c3]
  }

  /**
   * A well-formed encoding: a multiple of 4 characters, each from the alphabet except
   * that the last two may be pads, and a pad in the second-to-last place is followed by
   * another.
   */
  predicate WellFormed(s: string) {
    && |s| % 4 == 0
    && (forall i | 0 <= i < |s| :: IsAlphabetChar(s[i]) || (s[i] == '=' && |s| - 2 <= i))
    && (|s| >= 2 && s[|s| - 2] == '=' ==> s[|s| - 1] == '=')
  }

  /** The number of pad characters closing a string: two, one or none. */
  function PadCount(s: string): nat {
    if |s| >= 2 && s[|s| - 2] == '=' && s[|s| - 1] == '=' then 2
    else if |s| >= 1 && s[|s| - 1] == '=' then 1
    else 0
  }

  /** Decoding of the last quantum, which alone may carry one or two pad characters. */
  function DecodeFinal(q: string): (r: Option<seq<byte>>)
    requires |q| == 4
    ensures r.Some? ==> 1 <= |r.value| <= 3
    ensures r.Some? <==> WellFormed(q)
    ensures r.Some? ==> |r.value| == 3 - PadCount(q)
  {
    if IsAlphabetChar(q[0]) && IsAlphabetChar(q[1]) && IsAlphabetChar(q[2]) && IsAlphabetChar(q[3]) then
      Some(DecodeGroup(ValueOf(q[0]), ValueOf(q[1]), ValueOf(q[2]), ValueOf(q[3])))
    else if IsAlphabetChar(q[0]) && IsAlphabetChar(q[1]) && IsAlphabetChar(q[2]) && q[3] == '=' then
      Some(DecodeGroup(ValueOf(q[0]), ValueOf(q[1]), ValueOf(q[2]), 0)[..2])
    else if IsAlphabetChar(q[0]) && IsAlphabetChar(q[1]) && q[2] == '=' && q[3] == '=' then
      Some(DecodeGroup(ValueOf(q[0]), ValueOf(q[1]), 0, 0)[..1])
    else None
  }

  /**
   * Decoding of a well-formed encoding: a multiple of 4 characters, all from the
   * alphabet except for at most two pad characters closing the last quantum.
   * Anything else is refused with `None`.
   */
  function Decode(s: string): (r: Option<seq<byte>>)
    ensures |s| % 4 != 0 ==> r.None?
    ensures r.Some? <==> WellFormed(s)
    ensures r.Some? ==> |r.value| == 3 * (|s| / 4) - PadCount(s)
    decreases |s|
  {
    if |s| == 0 then Some([])
    else if |s| % 4 != 0 then None
    else if |s| == 4 then DecodeFinal(s)
    else
      WellFormedStep(s);
      if IsAlphabetChar(s[0]) && IsAlphabetChar(s[1]) && IsAlphabetChar(s[2]) && IsAlphabetChar(s[3]) then
        match Decode(s[4..])
        case None => None
        case Some(rest) =>
          QuantumLength(|s|);
          Some(DecodeGroup(ValueOf(s[0]), ValueOf(s[1]), ValueOf(s[2]), ValueOf(s[3])) + rest)
      else None
  }

  /** Past the first quantum, well-formedness is that of the rest, and the pads are the rest's. */
  lemma WellFormedStep(s: string)
    requires |s| >= 8 && |s| % 4 == 0
    ensures WellFormed(s) <==>
      IsAlphabetChar(s[0]) && IsAlphabetChar(s[1]) && IsAlphabetChar(s[2]) && IsAlphabetChar(s[3]) && WellFormed(s[4..])
    ensures PadCount(s) == PadCount(s[4..])
  {
    var t := s[4..];
    assert forall i | 4 <= i < |s| :: s[i] == t[i - 4];
  }

  /** One quantum more carries three bytes more. */
  lemma QuantumLength(n: nat)
    requires n >= 4 && n % 4 == 0
    ensures 3 * (n / 4) == 3 + 3 * ((n - 4) / 4)
  {
  }

  /** Division by 4 undoes multiplication by 4 and leaves the added remainder. */
  lemma Div4(k: nat, r: nat)
    requires r < 4
    ensures (k * 4 + r) / 4 == k && (k * 4 + r) % 4 == r
  {
  }

  /** Division by 16 undoes multiplication by 16 and leaves the added remainder. */
  lemma Div16(k: nat, r: nat)
    requires r < 16
    ensures (k * 16 + r) / 16 == k && (k * 16 + r) % 16 == r
  {
  }

  /** The sextets of 3 bytes carry them back: decoding an encoded group is the identity. */
  lemma DecodeEncodeGroup(b0: byte, b1: byte, b2: byte)
    ensures var q := EncodeGroup(b0, b1, b2);
      DecodeGroup(ValueOf(q[0]), ValueOf(q[1]), ValueOf(q[2]), ValueOf(q[3])) == [b0, b1, b2]
  {
    var c0, c1, c2, c3 := b0 / 4, b0 % 4 * 16 + b1 / 16, b1 % 16 * 4 + b2 / 64, b2 % 64;
    Div16(b0 % 4, b1 / 16);
    Div4(b1 % 16, b2 / 64);
    assert c0 * 4 + c1 / 16 == b0;
    assert c1 % 16 * 16 + c2 / 4 == b1;
    assert c2 % 4 * 64 + c3 == b2;
  }

  /** The two sextets of a single byte carry it back. */
  lemma DecodeEncodeOneByte(b0: byte)
    ensures var q := EncodeOneByte(b0);
      DecodeGroup(ValueOf(q[0]), ValueOf(q[1]), 0, 0)[..1] == [b0]
  {
    var c0, c1 := b0 / 4, b0 % 4 * 16;
    Div16(b0 % 4, 0);
    assert c0 * 4 + c1 / 16 == b0;
  }

  /** The three sextets of two bytes carry them back. */
  lemma DecodeEncodeTwoBytes(b0: byte, b1: byte)
    ensures var q := EncodeTwoBytes(b0, b1);
      DecodeGroup(ValueOf(q[0]), ValueOf(q[1]), ValueOf(q[2]), 0)[..2] == [b0, b1]
  {
    var c0, c1, c2 := b0 / 4, b0 % 4 * 16 + b1 / 16, b1 % 16 * 4;
    var q := EncodeTwoBytes(b0, b1);
    assert ValueOf(q[0]) == c0 && ValueOf(q[1]) == c1 && ValueOf(q[2]) == c2;
    Div16(b0 % 4, b1 / 16);
    Div4(b1 % 16, 0);
    assert c0 * 4 + c1 / 16 == b0;
    assert c1 % 16 * 16 + c2 / 4 == b1;
    assert DecodeGroup(c0, c1, c2, 0)[..2] == [c0 * 4 + c1 / 16, c1 % 16 * 16 + c2 / 4];
  }

  /** A quantum closed by two pad characters decodes to one byte. */
  lemma DecodeFinalPadTwo(q: string)
    requires |q| == 4
    requires IsAlphabetChar(q[0]) && IsAlphabetChar(q[1]) && q[2] == '=' && q[3] == '='
    ensures Decode(q) == Some(DecodeGroup(ValueOf(q[0]), ValueOf(q[1]), 0, 0)[..1])
  {
  }

  /** A quantum closed by one pad character decodes to two bytes. */
  lemma DecodeFinalPadOne(q: string)
    requires |q| == 4
    requires IsAlphabetChar(q[0]) && IsAlphabetChar(q[1]) && IsAlphabetChar(q[2]) && q[3] == '='
    ensures Decode(q) == Some(DecodeGroup(ValueOf(q[0]), ValueOf(q[1]), ValueOf(q[2]), 0)[..2])
  {
  }

  /** A lone quantum of alphabet characters decodes to its three bytes. */
  lemma DecodeLastQuantum(q: string)
    requires |q| == 4
    requires IsAlphabetChar(q[0]) && IsAlphabetChar(q[1]) && IsAlphabetChar(q[2]) && IsAlphabetChar(q[3])
    ensures Decode(q) == Some(DecodeGroup(ValueOf(q[0]), ValueOf(q[1]), ValueOf(q[2]), ValueOf(q[3])))
  {
  }

  /** A quantum of alphabet characters followed by more characters that decode. */
  lemma DecodeQuantumThen(s: string)
    requires |s| % 4 == 0 && |s| > 4
    requires IsAlphabetChar(s[0]) && IsAlphabetChar(s[1]) && IsAlphabetChar(s[2]) && IsAlphabetChar(s[3])
    requires Decode(s[4..]).Some?
    ensures Decode(s) == Some(DecodeGroup(ValueOf(s[0]), ValueOf(s[1]), ValueOf(s[2]), ValueOf(s[3])) + Decode(s[4..]).value)
  {
  }

  /** The round trip for a single byte. */
  lemma DecodeEncodeLengthOne(b: seq<byte>)
    requires |b| == 1
    ensures Decode(Encode(b)) == Some(b)
  {
    var s := Encode(b);
    assert s == EncodeOneByte(b[0]);
    DecodeFinalPadTwo(s);
    DecodeEncodeOneByte(b[0]);
    assert b == [b[0]];
  }

  /** The round trip for two bytes. */
  lemma DecodeEncodeLengthTwo(b: seq<byte>)
    requires |b| == 2
    ensures Decode(Encode(b)) == Some(b)
  {
    var s := Encode(b);
    assert s == EncodeTwoBytes(b[0], b[1]);
    DecodeFinalPadOne(s);
    DecodeEncodeTwoBytes(b[0], b[1]);
    assert b == [b[0], b[1]];
  }

  /** The round trip for three bytes. */
  lemma DecodeEncodeLengthThree(b: seq<byte>)
    requires |b| == 3
    ensures Decode(Encode(b)) == Some(b)
  {
    var s := Encode(b);
    var q := EncodeGroup(b[0], b[1], b[2]);
    assert Encode(b[3..]) == "";
    assert s == q;
    DecodeLastQuantum(s);
    DecodeEncodeGroup(b[0], b[1], b[2]);
    assert b == [b[0], b[1], b[2]];
  }

  /** An encoded group in front of a non-empty encoding of `rest` decodes to the group's bytes and then `rest`. */
  lemma DecodeGroupThen(b0: byte, b1: byte, b2: byte, tail: string, rest: seq<byte>)
    requires |tail| % 4 == 0 && |tail| > 0
    requires Decode(tail) == Some(rest)
    ensures Decode(EncodeGroup(b0, b1, b2) + tail) == Some([b0, b1, b2] + rest)
  {
    var q := EncodeGroup(b0, b1, b2);
    var s := q + tail;
    assert s[0] == q[0] && s[1] == q[1] && s[2] == q[2] && s[3] == q[3];
    assert s[4..] == tail;
    assert |s| == |tail| + 4;
    QuantumCountStep(|tail|);
    DecodeQuantumThen(s);
    DecodeEncodeGroup(b0, b1, b2);
  }

  /** The first three bytes and the rest. */
  lemma SplitThree(b: seq<byte>)
    requires |b| >= 3
    ensures b == [b[0], b[1], b[2]] + b[3..]
  {
  }

  /** Past three bytes, the encoding is that of the first three followed by that of the rest. */
  lemma EncodeLonger(b: seq<byte>)
    requires |b| > 3
    ensures Encode(b) == EncodeGroup(b[0], b[1], b[2]) + Encode(b[3..])
  {
  }

  /** The round trip for more than three bytes, given the round trip for all but the first three. */
  lemma DecodeEncodeLonger(b: seq<byte>)
    requires |b| > 3
    requires Decode(Encode(b[3..])) == Some(b[3..])
    ensures Decode(Encode(b)) == Some(b)
  {
    var tail := Encode(b[3..]);
    EncodeLonger(b);
    QuantumCount(|b[3..]|);
    DecodeGroupThen(b[0], b[1], b[2], tail, b[3..]);
    SplitThree(b);
  }

  /** Round trip: decoding an encoding gives back exactly the bytes that were encoded. */
  lemma {:induction false} DecodeEncode(b: seq<byte>)
    ensures Decode(Encode(b)) == Some(b)
    decreases |b|
  {
    if |b| == 1 {
      DecodeEncodeLengthOne(b);
    } else if |b| == 2 {
      DecodeEncodeLengthTwo(b);
    } else if |b| == 3 {
      DecodeEncodeLengthThree(b);
    } else if |b| > 3 {
      DecodeEncode(b[3..]);
      DecodeEncodeLonger(b);
    }
  }

  /** Every byte is below 128: the bytes are ASCII, and UTF-8 reads each as one character. */
  predicate IsAscii(b: seq<byte>) {
    forall i | 0 <= i < |b| :: b[i] < 128
  }

  /** Every character is below 128. */
  predicate IsAsciiString(s: string) {
    forall i | 0 <= i < |s| :: s[i] as int < 128
  }

  /** ASCII bytes read back as a string, one character per byte (`Buffer#toString` on ASCII input). */
  function BytesToString(b: seq<byte>): (s: string)
    requires IsAscii(b)
    ensures |s| == |b|
    ensures forall i | 0 <= i < |s| :: s[i] as int == b[i]
    ensures IsAsciiString(s)
  {
    seq(|b|, i requires 0 <= i < |b| => b[i] as char)
  }

  /** An ASCII string as bytes, one byte per character (`Buffer.from(string)` on ASCII input). */
  function StringToBytes(s: string): (b: seq<byte>)
    requires IsAsciiString(s)
    ensures |b| == |s|
    ensures IsAscii(b)
    ensures BytesToString(b) == s
  {
    seq(|s|, i requires 0 <= i < |s| => s[i] as int)
  }
}
