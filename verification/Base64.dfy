/** Base64 and Base64URL of `src/base64.cpp` (sections 4 and 5 of RFC 4648, strict in the sense of its section 3.5). */
module Base64 {
  import opened Bytes
  import opened Errors

  type sextet = x: int | 0 <= x < 64

  function Letters(first: char, n: nat): (s: string)
    requires first as int + n <= 128
    ensures |s| == n
  {
    seq(n, i requires 0 <= i < n => (first as int + i) as char)
  }

  /** A to Z, a to z, 0 to 9, plus and slash. */
  const ALPHABET: string := Letters('A', 26) + Letters('a', 26) + Letters('0', 10) + ['+', '/']

  /** `decode_char`: -1 for a character outside the alphabet. */
  function DecodeChar(ch: char): (r: int)
    ensures -1 <= r < 64
  {
    if 'A' <= ch <= 'Z' then ch as int - 'A' as int
    else if 'a' <= ch <= 'z' then ch as int - 'a' as int + 26
    else if '0' <= ch <= '9' then ch as int - '0' as int + 52
    else if ch == '+' then 62
    else if ch == '/' then 63
    else -1
  }

  predicate InAlphabet(ch: char)
  {
    DecodeChar(ch) >= 0
  }

  function EncodeSextet(x: sextet): (ch: char)
    ensures InAlphabet(ch) && ch != '=' && DecodeChar(ch) == x
  {
    ALPHABET[x]
  }

  lemma EncodeDecodedChar(ch: char)
    requires InAlphabet(ch)
    ensures EncodeSextet(DecodeChar(ch)) == ch && ch != '='
  {
  }

  // ---------- Bits ----------

  lemma SmallPowers()
    ensures Pow2(2) == 4 && Pow2(4) == 16 && Pow2(6) == 64
  {
  }

  lemma Or2(a: nat, b: nat)
    requires b < 4
    ensures BitOr(a * 4, b) == a * 4 + b
  {
    SmallPowers();
    BitOrDisjoint(a, b, 2);
  }

  lemma Or4(a: nat, b: nat)
    requires b < 16
    ensures BitOr(a * 16, b) == a * 16 + b
  {
    SmallPowers();
    BitOrDisjoint(a, b, 4);
  }

  lemma Or6(a: nat, b: nat)
    requires b < 64
    ensures BitOr(a * 64, b) == a * 64 + b
  {
    SmallPowers();
    BitOrDisjoint(a, b, 6);
  }

  // ---------- Groups ----------

  function Sextet0(b0: byte): sextet
  {
    b0 / 4 % 64
  }

  function Sextet1(b0: byte, b1: byte): sextet
  {
    BitOr(b0 * 16, b1 / 16) % 64
  }

  function Sextet2(b1: byte, b2: byte): sextet
  {
    BitOr(b1 * 4, b2 / 64) % 64
  }

  function Sextet3(b2: byte): sextet
  {
    b2 % 64
  }

  function Byte0(c0: sextet, c1: sextet): byte
  {
    Or2(c0, c1 / 16);
    BitOr(c0 * 4, c1 / 16)
  }

  function Byte1(c1: sextet, c2: sextet): byte
  {
    Or4(c1 % 16, c2 / 4);
    BitOr(c1 % 16 * 16, c2 / 4)
  }

  function Byte2(c2: sextet, c3: sextet): byte
  {
    Or6(c2 % 4, c3);
    BitOr(c2 % 4 * 64, c3)
  }

  /** The 24 bits of three bytes. */
  function Bits24(b0: byte, b1: byte, b2: byte): nat
  {
    var x0: int, x1: int, x2: int := b0, b1, b2;
    x0 * 0x1_0000 + x1 * 0x100 + x2
  }

  /** The 24 bits of four sextets. */
  function SextetBits24(c0: sextet, c1: sextet, c2: sextet, c3: sextet): nat
  {
    var x0: int, x1: int, x2: int, x3: int := c0, c1, c2, c3;
    x0 * 0x4_0000 + x1 * 0x1000 + x2 * 0x40 + x3
  }

  lemma SextetValues(b0: byte, b1: byte, b2: byte)
    ensures Sextet0(b0) == b0 / 4
    ensures Sextet1(b0, b1) == b0 % 4 * 16 + b1 / 16
    ensures Sextet2(b1, b2) == b1 % 16 * 4 + b2 / 64
  {
    Or4(b0, b1 / 16);
    Or2(b1, b2 / 64);
    LowBitsKept(b0 / 4, b0 % 4 * 16 + b1 / 16);
    LowBitsKept(b1 / 16, b1 % 16 * 4 + b2 / 64);
  }

  lemma LowBitsKept(high: nat, low: nat)
    requires low < 64
    ensures (high * 64 + low) % 64 == low
  {
  }

  /** The four sextets are the 24-bit group cut every six bits, as section 4 of RFC 4648 asks. */
  lemma EncodedGroup(b0: byte, b1: byte, b2: byte)
    ensures SextetBits24(Sextet0(b0), Sextet1(b0, b1), Sextet2(b1, b2), Sextet3(b2)) == Bits24(b0, b1, b2)
  {
    hide Sextet1, Sextet2;
    SextetValues(b0, b1, b2);
    var q0, q1, q2 := b0 / 4, b1 / 16, b2 / 64;
    var r0, r1, r2 := b0 % 4, b1 % 16, b2 % 64;
    assert b0 == q0 * 4 + r0 && b1 == q1 * 16 + r1 && b2 == q2 * 64 + r2;
  }

  /** The three bytes are the same 24 bits cut every eight. */
  lemma DecodedGroup(c0: sextet, c1: sextet, c2: sextet, c3: sextet)
    ensures Bits24(Byte0(c0, c1), Byte1(c1, c2), Byte2(c2, c3)) == SextetBits24(c0, c1, c2, c3)
  {
    Or2(c0, c1 / 16);
    Or4(c1 % 16, c2 / 4);
    Or6(c2 % 4, c3);
  }

  lemma Bits24Injective(b0: byte, b1: byte, b2: byte, d0: byte, d1: byte, d2: byte)
    requires Bits24(b0, b1, b2) == Bits24(d0, d1, d2)
    ensures b0 == d0 && b1 == d1 && b2 == d2
  {
  }

  lemma SextetBits24Injective(c0: sextet, c1: sextet, c2: sextet, c3: sextet, d0: sextet, d1: sextet, d2: sextet,
                              d3: sextet)
    requires SextetBits24(c0, c1, c2, c3) == SextetBits24(d0, d1, d2, d3)
    ensures c0 == d0 && c1 == d1 && c2 == d2 && c3 == d3
  {
  }

  /** Decoding undoes encoding on one group. */
  lemma GroupRoundTrip(b0: byte, b1: byte, b2: byte)
    ensures var c0, c1, c2, c3 := Sextet0(b0), Sextet1(b0, b1), Sextet2(b1, b2), Sextet3(b2);
            Byte0(c0, c1) == b0 && Byte1(c1, c2) == b1 && Byte2(c2, c3) == b2
  {
    var c0, c1, c2, c3 := Sextet0(b0), Sextet1(b0, b1), Sextet2(b1, b2), Sextet3(b2);
    EncodedGroup(b0, b1, b2);
    DecodedGroup(c0, c1, c2, c3);
    Bits24Injective(Byte0(c0, c1), Byte1(c1, c2), Byte2(c2, c3), b0, b1, b2);
  }

  /** And encoding undoes decoding. */
  lemma SextetRoundTrip(c0: sextet, c1: sextet, c2: sextet, c3: sextet)
    ensures var b0, b1, b2 := Byte0(c0, c1), Byte1(c1, c2), Byte2(c2, c3);
            Sextet0(b0) == c0 && Sextet1(b0, b1) == c1 && Sextet2(b1, b2) == c2 && Sextet3(b2) == c3
  {
    var b0, b1, b2 := Byte0(c0, c1), Byte1(c1, c2), Byte2(c2, c3);
    DecodedGroup(c0, c1, c2, c3);
    EncodedGroup(b0, b1, b2);
    SextetBits24Injective(Sextet0(b0), Sextet1(b0, b1), Sextet2(b1, b2), Sextet3(b2), c0, c1, c2, c3);
  }

  // ---------- Encoding ----------

  /** The four characters of the first group of a non-empty input. */
  function EncodedFirst(input: bytes): (s: string)
    requires input != []
    ensures |s| == 4
  {
    var b0 := input[0];
    var b1 := if |input| > 1 then input[1] else 0;
    var b2 := if |input| > 2 then input[2] else 0;
    [EncodeSextet(Sextet0(b0)),
     EncodeSextet(Sextet1(b0, b1)),
     if |input| > 1 then EncodeSextet(Sextet2(b1, b2)) else '=',
     if |input| > 2 then EncodeSextet(Sextet3(b2)) else '=']
  }

  function AfterFirst(input: bytes): bytes
    requires input != []
  {
    if |input| > 3 then input[3..] else []
  }

  function Encoding(input: bytes): (s: string)
    decreases |input|
  {
    if input == [] then [] else EncodedFirst(input) + Encoding(AfterFirst(input))
  }

  lemma {:induction false} EncodingSize(input: bytes)
    ensures |Encoding(input)| == (|input| + 2) / 3 * 4
    decreases |input|
  {
    hide EncodedFirst;
    if input == [] {
    } else {
      EncodingSize(AfterFirst(input));
      if |input| > 3 {
        OneGroupLess(|input|);
      }
    }
  }

  lemma OneGroupLess(n: nat)
    requires n > 3
    ensures (n + 2) / 3 == 1 + (n - 3 + 2) / 3
  {
  }

  // ---------- The validator ----------

  /** How many `=` characters, at most two, end the text. */
  function Padding(s: string): (p: nat)
    ensures p <= 2 && p <= |s|
  {
    if |s| >= 2 && s[|s| - 2] == '=' && s[|s| - 1] == '=' then 2
    else if |s| >= 1 && s[|s| - 1] == '=' then 1
    else 0
  }

  ghost predicate AllInAlphabet(s: string)
  {
    forall i :: 0 <= i < |s| ==> InAlphabet(s[i])
  }

  /** Whole groups of alphabet characters, up to two of the last group replaced by padding. */
  ghost predicate ValidText(s: string)
  {
    |s| % 4 == 0 && AllInAlphabet(s[..|s| - Padding(s)])
  }

  /** A character outside the alphabet that is not part of the padding makes a text invalid. */
  lemma RejectedAt(s: string, i: nat)
    requires i < |s| - Padding(s) && !InAlphabet(s[i])
    ensures !ValidText(s)
  {
    assert s[..|s| - Padding(s)][i] == s[i];
  }

  /** `reject_invalid_base64`. */
  method RejectInvalidBase64(input: string) returns (r: Outcome)
    ensures r == if ValidText(input) then Done else Thrown(InvalidEncoding)
  {
    if |input| % 4 != 0 {
      return Thrown(InvalidEncoding);
    }
    var seenPadding := false;
    var padding := 0;
    var i := 0;
    while i < |input|
      invariant 0 <= i <= |input| && padding <= 2 && padding <= i
      invariant seenPadding <==> padding > 0
      invariant forall k :: 0 <= k < i - padding ==> InAlphabet(input[k])
      invariant forall k :: i - padding <= k < i ==> input[k] == '='
    {
      var ch := input[i];
      if ch == '=' {
        seenPadding := true;
        padding := padding + 1;
        if padding > 2 {
          RejectedAt(input, i - 2);
          return Thrown(InvalidEncoding);
        }
        i := i + 1;
        continue;
      }
      if seenPadding {
        RejectedAt(input, i - 1);
        return Thrown(InvalidEncoding);
      }
      if DecodeChar(ch) < 0 {
        RejectedAt(input, i);
        return Thrown(InvalidEncoding);
      }
      i := i + 1;
    }
    if padding > 0 && |input| < 4 {
      return Thrown(InvalidEncoding);
    }
    assert |input| - padding <= |input| - Padding(input) ==> padding == Padding(input);
    return Done;
  }

  // ---------- Decoding ----------

  /** What the decoding loop takes a character for. */
  function SextetOf(ch: char): sextet
  {
    if InAlphabet(ch) then DecodeChar(ch) else 0
  }

  /** The one to three bytes of one group. */
  function DecodedBytes(group: string): (r: bytes)
    requires |group| == 4
  {
    var c0, c1, c2, c3 := SextetOf(group[0]), SextetOf(group[1]), SextetOf(group[2]), SextetOf(group[3]);
    [Byte0(c0, c1)]
    + (if group[2] != '=' then [Byte1(c1, c2)] else [])
    + (if group[3] != '=' then [Byte2(c2, c3)] else [])
  }

  /** What the decoding loop produces. */
  function Decoded(s: string): bytes
    requires |s| % 4 == 0
  {
    if s == [] then [] else DecodedBytes(s[..4]) + Decoded(s[4..])
  }

  /** `base64_decode`: the canonical check encodes the result again and compares. */
  ghost function Decoding(s: string): Result<bytes>
  {
    if !ValidText(s) then Err(InvalidEncoding)
    else if Encoding(Decoded(s)) != s then Err(InvalidEncoding)
    else Ok(Decoded(s))
  }

  /** The bits of the last sextet that no byte is made of: the low four before `==`, the low two before `=`. */
  predicate UnusedBitsZero(s: string)
  {
    match Padding(s)
    case 2 => |s| >= 3 && SextetOf(s[|s| - 3]) % 16 == 0
    case 1 => |s| >= 2 && SextetOf(s[|s| - 2]) % 4 == 0
    case _ => true
  }

  lemma ValidTail(s: string)
    requires ValidText(s) && |s| > 4
    ensures ValidText(s[4..]) && Padding(s[4..]) == Padding(s) && UnusedBitsZero(s[4..]) == UnusedBitsZero(s)
    ensures AllInAlphabet(s[..4])
  {
    var t := s[4..];
    assert forall i :: 0 <= i < |t| - Padding(t) ==> t[i] == s[..|s| - Padding(s)][i + 4];
    assert forall i :: 0 <= i < 4 ==> s[i] == s[..|s| - Padding(s)][i];
  }

  /**
    One group: its decoding has the expected size, and encodes to the group again exactly when no unused bit
    is set.
   */
  lemma LastGroup(g: string)
    requires |g| == 4 && ValidText(g)
    ensures |DecodedBytes(g)| == 3 - Padding(g)
    ensures EncodedFirst(DecodedBytes(g)) == g <==> UnusedBitsZero(g)
  {
    hide Byte0, Byte1, Byte2, Sextet0, Sextet1, Sextet2, Sextet3, DecodeChar, EncodeSextet;
    PaddingIsNoSextet();
    var front := g[..4 - Padding(g)];
    assert forall i :: 0 <= i < |front| ==> g[i] == front[i];
    var c0, c1, c2, c3 := SextetOf(g[0]), SextetOf(g[1]), SextetOf(g[2]), SextetOf(g[3]);
    var b := DecodedBytes(g);
    EncodeDecodedChar(g[0]);
    EncodeDecodedChar(g[1]);
    match Padding(g)
    case 0 =>
      EncodeDecodedChar(g[2]);
      EncodeDecodedChar(g[3]);
      SextetRoundTrip(c0, c1, c2, c3);
    case 1 =>
      EncodeDecodedChar(g[2]);
      Reencoded1(c0, c1, c2);
      assert b == [Byte0(c0, c1), Byte1(c1, c2)];
    case _ =>
      Reencoded2(c0, c1);
      assert b == [Byte0(c0, c1)];
  }

  lemma ByteValues(c0: sextet, c1: sextet, c2: sextet)
    ensures Byte0(c0, c1) == c0 * 4 + c1 / 16 && Byte1(c1, c2) == c1 % 16 * 16 + c2 / 4
  {
    Or2(c0, c1 / 16);
    Or4(c1 % 16, c2 / 4);
  }

  /** Encoding two decoded bytes again clears the low two bits of the third sextet. */
  lemma Reencoded1(c0: sextet, c1: sextet, c2: sextet)
    ensures var b0, b1 := Byte0(c0, c1), Byte1(c1, c2);
            Sextet0(b0) == c0 && Sextet1(b0, b1) == c1 && Sextet2(b1, 0) == c2 / 4 * 4
  {
    hide Byte0, Byte1, Sextet0, Sextet1, Sextet2;
    ByteValues(c0, c1, c2);
    SextetValues(Byte0(c0, c1), Byte1(c1, c2), 0);
    LowPart(c0, c1 / 16, 4);
    LowPart(c1 % 16, c2 / 4, 16);
  }

  lemma LowPart(high: nat, low: nat, unit: nat)
    requires low < unit && unit in {4, 16}
    ensures (high * unit + low) / unit == high && (high * unit + low) % unit == low
  {
  }

  /** Encoding one decoded byte again clears the low four bits of the second sextet. */
  lemma Reencoded2(c0: sextet, c1: sextet)
    ensures var b0 := Byte0(c0, c1);
            Sextet0(b0) == c0 && Sextet1(b0, 0) == c1 / 16 * 16
  {
    hide Byte0, Byte1, Sextet0, Sextet1, Sextet2;
    ByteValues(c0, c1, 0);
    SextetValues(Byte0(c0, c1), 0, 0);
    LowPart(c0, c1 / 16, 4);
  }

  lemma FullGroup(g: string)
    requires |g| == 4 && AllInAlphabet(g)
    ensures ValidText(g) && Padding(g) == 0 && |DecodedBytes(g)| == 3 && EncodedFirst(DecodedBytes(g)) == g
  {
    assert forall i :: 0 <= i < 4 ==> g[i] != '=';
    LastGroup(g);
  }

  /** The size the source reserves is the true size of the result. */
  lemma {:induction false} DecodedSize(s: string)
    requires ValidText(s)
    ensures |Decoded(s)| == |s| / 4 * 3 - Padding(s)
    decreases |s|
  {
    hide DecodedBytes;
    if s == [] {
    } else if |s| == 4 {
      assert s[..4] == s;
      LastGroup(s);
    } else {
      ValidTail(s);
      FullGroup(s[..4]);
      DecodedSize(s[4..]);
    }
  }

  /** Among the texts that pass the validator the canonical check rejects exactly those with an unused bit set. */
  lemma {:induction false} CanonicalCheckExact(s: string)
    requires ValidText(s)
    ensures Encoding(Decoded(s)) == s <==> UnusedBitsZero(s)
    decreases |s|
  {
    hide DecodedBytes, EncodedFirst, UnusedBitsZero;
    if s == [] {
      EmptyText();
    } else if |s| == 4 {
      assert s[..4] == s && s[4..] == [];
      LastGroup(s);
      var b := DecodedBytes(s);
      assert Decoded(s) == b + Decoded([]);
      assert b + [] == b && Encoding(b) == EncodedFirst(b);
    } else {
      ValidTail(s);
      FullGroup(s[..4]);
      CanonicalCheckExact(s[4..]);
      EncodingOfThree(DecodedBytes(s[..4]), Decoded(s[4..]));
      assert s == s[..4] + s[4..];
    }
  }

  lemma EmptyText()
    ensures UnusedBitsZero([])
  {
  }

  lemma EncodingOfThree(group: bytes, rest: bytes)
    requires |group| == 3
    ensures Encoding(group + rest) == EncodedFirst(group) + Encoding(rest)
  {
    var all := group + rest;
    assert AfterFirst(all) == rest;
    assert EncodedFirst(all) == EncodedFirst(group);
  }

  /** What encoding produces passes the validator, and decodes to what was encoded. */
  lemma {:induction false} EncodingDecodes(b: bytes)
    ensures ValidText(Encoding(b)) && Decoded(Encoding(b)) == b
    decreases |b|
  {
    hide EncodedFirst, DecodedBytes, ValidText, AllInAlphabet;
    if b == [] {
      NothingIsValid();
    } else {
      EncodingDecodes(AfterFirst(b));
      EncodedFirstDecodes(b);
      var first, rest := EncodedFirst(b), Encoding(AfterFirst(b));
      assert Encoding(b) == first + rest;
      assert b == (if |b| > 3 then b[..3] else b) + AfterFirst(b);
      assert rest == [] || |b| >= 3;
      hide Encoding;
      ValidJoin(first, rest);
      DecodedJoin(first, rest);
    }
  }

  lemma NothingIsValid()
    ensures Encoding([]) == [] && ValidText([]) && Decoded([]) == []
  {
  }

  lemma DecodedJoin(first: string, rest: string)
    requires |first| == 4 && |rest| % 4 == 0
    ensures |first + rest| % 4 == 0 && Decoded(first + rest) == DecodedBytes(first) + Decoded(rest)
  {
    assert (first + rest)[..4] == first && (first + rest)[4..] == rest;
    hide DecodedBytes;
  }

  lemma EncodedFirstDecodes(b: bytes)
    requires b != []
    ensures var g := EncodedFirst(b);
            && DecodedBytes(g) == (if |b| > 3 then b[..3] else b)
            && ValidText(g) && (|b| >= 3 ==> AllInAlphabet(g))
  {
    hide Sextet0, Sextet1, Sextet2, Sextet3, Byte0, Byte1, Byte2, EncodeSextet, DecodeChar;
    var b0 := b[0];
    var b1 := if |b| > 1 then b[1] else 0;
    var b2 := if |b| > 2 then b[2] else 0;
    GroupRoundTrip(b0, b1, b2);
    NoSextetBits();
    PaddingIsNoSextet();
    var g := EncodedFirst(b);
    assert InAlphabet(g[0]) && InAlphabet(g[1]);
    assert |b| > 1 ==> InAlphabet(g[2]);
    assert |b| > 2 ==> InAlphabet(g[3]);
    assert AllInAlphabet(g[..4 - Padding(g)]);
  }

  lemma NoSextetBits()
    ensures Sextet2(0, 0) == 0 && Sextet3(0) == 0
  {
  }

  lemma PaddingIsNoSextet()
    ensures !InAlphabet('=') && SextetOf('=') == 0
  {
  }

  lemma ValidJoin(first: string, rest: string)
    requires |first| == 4 && ValidText(first) && ValidText(rest)
    requires rest == [] || AllInAlphabet(first)
    ensures ValidText(first + rest)
  {
    var s := first + rest;
    if rest == [] {
      assert s == first;
    } else {
      assert Padding(s) == Padding(rest);
      forall i | 0 <= i < |s| - Padding(s)
        ensures InAlphabet(s[i])
      {
        if i >= 4 {
          assert s[i] == rest[..|rest| - Padding(rest)][i - 4];
        }
      }
    }
  }

  /** Decoding accepts exactly the image of encoding, and inverts it there. */
  lemma DecodingExact(s: string, b: bytes)
    ensures Decoding(s) == Ok(b) <==> s == Encoding(b)
  {
    EncodingDecodes(b);
  }

  lemma EncodingInjective(a: bytes, b: bytes)
    requires Encoding(a) == Encoding(b)
    ensures a == b
  {
    EncodingDecodes(a);
    EncodingDecodes(b);
  }

  // ---------- The loops ----------

  /** `base64_encode`. */
  method Base64Encode(input: bytes) returns (output: string)
    ensures output == Encoding(input) && TextIs(input, output)
  {
    EncodingExact(input, Encoding(input));
    hide Sextet0, Sextet1, Sextet2, Sextet3, EncodeSextet, Encoding, TextIs;
    output := [];
    var i := 0;
    assert input[0..] == input;
    while i < |input|
      invariant output + Encoding(if i <= |input| then input[i..] else []) == Encoding(input)
      decreases |input| - i
    {
      var hasB1 := i + 1 < |input|;
      var hasB2 := i + 2 < |input|;
      var b0 := input[i];
      var b1 := if hasB1 then input[i + 1] else 0;
      var b2 := if hasB2 then input[i + 2] else 0;
      ghost var rest := input[i..];
      EncodingNext(output, rest);
      output := output + [EncodeSextet(Sextet0(b0))]
                + [EncodeSextet(Sextet1(b0, b1))]
                + [if hasB1 then EncodeSextet(Sextet2(b1, b2)) else '=']
                + [if hasB2 then EncodeSextet(Sextet3(b2)) else '='];
      i := i + 3;
      assert AfterFirst(rest) == if i <= |input| then input[i..] else [];
    }
    EncodingOfNothing();
    assert (if i <= |input| then input[i..] else []) == [];
    assert output + [] == output;
  }

  lemma EncodingOfNothing()
    ensures Encoding([]) == []
  {
  }

  /** What four more characters do to the output. */
  lemma EncodingNext(output: string, rest: bytes)
    requires rest != []
    ensures var g := EncodedFirst(rest);
            output + [g[0]] + [g[1]] + [g[2]] + [g[3]] + Encoding(AfterFirst(rest)) == output + Encoding(rest)
  {
    hide EncodedFirst;
    var g := EncodedFirst(rest);
    assert output + [g[0]] + [g[1]] + [g[2]] + [g[3]] == output + g;
    Joined(output, g, Encoding(AfterFirst(rest)));
  }

  lemma Joined<T>(a: seq<T>, b: seq<T>, c: seq<T>)
    ensures (a + b) + c == a + (b + c)
  {
  }

  /** `src/base64.cpp:181-197`: the decoding loop. */
  method DecodeGroups(input: string) returns (output: bytes)
    requires |input| % 4 == 0
    ensures output == Decoded(input)
  {
    hide Byte0, Byte1, Byte2, DecodeChar;
    output := [];
    var i := 0;
    while i < |input|
      invariant 0 <= i <= |input| && i % 4 == 0
      invariant output + Decoded(input[i..]) == Decoded(input)
    {
      var c0, c1 := SextetOf(input[i]), SextetOf(input[i + 1]);
      var c2 := if input[i + 2] == '=' then 0 else SextetOf(input[i + 2]);
      var c3 := if input[i + 3] == '=' then 0 else SextetOf(input[i + 3]);
      ghost var before, group := output, input[i..][..4];
      PaddingIsNoSextet();
      output := output + [Byte0(c0, c1)];
      if input[i + 2] != '=' {
        output := output + [Byte1(c1, c2)];
      }
      if input[i + 3] != '=' {
        output := output + [Byte2(c2, c3)];
      }
      assert output == before + DecodedBytes(group);
      DecodedNext(input[i..], before);
      assert input[i..][4..] == input[i + 4..];
      i := i + 4;
    }
  }

  lemma DecodedNext(s: string, before: bytes)
    requires s != [] && |s| % 4 == 0
    ensures before + Decoded(s) == before + DecodedBytes(s[..4]) + Decoded(s[4..])
  {
    assert Decoded(s) == DecodedBytes(s[..4]) + Decoded(s[4..]);
    hide DecodedBytes, Decoded;
    Joined(before, DecodedBytes(s[..4]), Decoded(s[4..]));
  }

  /** `base64_decode`. */
  method Base64Decode(input: string) returns (r: Result<bytes>)
    ensures r == Decoding(input)
    ensures forall b :: r == Ok(b) <==> input == Encoding(b)
    ensures forall b :: r == Ok(b) <==> TextIs(b, input)
    ensures r.Err? ==> r.error == InvalidEncoding
  {
    hide TextIs;
    forall b
      ensures Decoding(input) == Ok(b) <==> input == Encoding(b)
      ensures input == Encoding(b) <==> TextIs(b, input)
    {
      DecodingExact(input, b);
      EncodingExact(b, input);
    }
    var valid := RejectInvalidBase64(input);
    if valid.Thrown? {
      return Err(valid.error);
    }
    if input == [] {
      assert Decoded(input) == [] && Encoding([]) == input;
      return Ok([]);
    }
    var padding :=
      if |input| >= 2 && input[|input| - 2..] == "==" then 2 else if input[|input| - 1..] == "=" then 1 else 0;
    var decodedSize := |input| / 4 * 3 - padding;
    DecodedSize(input);
    var output := DecodeGroups(input);
    assert |output| == decodedSize;
    var again := Base64Encode(output);
    if again != input {
      return Err(InvalidEncoding);
    }
    return Ok(output);
  }

  // ---------- Base64URL ----------

  predicate InUrlAlphabet(ch: char)
  {
    'A' <= ch <= 'Z' || 'a' <= ch <= 'z' || '0' <= ch <= '9' || ch == '-' || ch == '_'
  }

  function ToUrlChar(ch: char): char
  {
    if ch == '+' then '-' else if ch == '/' then '_' else ch
  }

  function FromUrlChar(ch: char): char
  {
    if ch == '-' then '+' else if ch == '_' then '/' else ch
  }

  function ToUrl(s: string): (t: string)
    ensures |t| == |s|
  {
    seq(|s|, i requires 0 <= i < |s| => ToUrlChar(s[i]))
  }

  function FromUrl(s: string): (t: string)
    ensures |t| == |s|
  {
    seq(|s|, i requires 0 <= i < |s| => FromUrlChar(s[i]))
  }

  function Unpadded(s: string): string
  {
    if s != [] && s[|s| - 1] == '=' then Unpadded(s[..|s| - 1]) else s
  }

  function Padded(s: string): string
    decreases 4 - |s| % 4 + if |s| % 4 == 0 then 0 else 4
  {
    if |s| % 4 == 0 then s else Padded(s + ['='])
  }

  function UrlEncoding(b: bytes): string
  {
    Unpadded(ToUrl(Encoding(b)))
  }

  ghost predicate UrlValid(s: string)
  {
    |s| % 4 != 1 && forall i :: 0 <= i < |s| ==> InUrlAlphabet(s[i])
  }

  /** `base64url_decode`, with both canonical checks. */
  ghost function UrlDecoding(s: string): Result<bytes>
  {
    if !UrlValid(s) then Err(InvalidEncoding)
    else match Decoding(Padded(FromUrl(s)))
         case Err(e) => Err(e)
         case Ok(b) => if UrlEncoding(b) != s then Err(InvalidEncoding) else Ok(b)
  }

  function Pads(n: nat): (pads: string)
    ensures |pads| == n && forall i :: 0 <= i < n ==> pads[i] == '='
  {
    seq(n, _ => '=')
  }

  function PadCount(n: nat): nat
  {
    (4 - n % 4) % 4
  }

  lemma OnePadLess(n: nat)
    requires n % 4 != 0
    ensures PadCount(n) == PadCount(n + 1) + 1
  {
  }

  lemma {:induction false} PaddedIs(s: string)
    ensures Padded(s) == s + Pads(PadCount(|s|))
    decreases PadCount(|s|)
  {
    if |s| % 4 == 0 {
      assert PadCount(|s|) == 0;
    } else {
      OnePadLess(|s|);
      PaddedIs(s + ['=']);
      assert s + ['='] + Pads(PadCount(|s| + 1)) == s + Pads(PadCount(|s|));
    }
  }

  ghost predicate EndsInData(s: string)
  {
    s != [] ==> s[|s| - 1] != '='
  }

  lemma {:induction false} UnpaddedPads(s: string, pads: string)
    requires EndsInData(s) && forall i :: 0 <= i < |pads| ==> pads[i] == '='
    ensures Unpadded(s + pads) == s
  {
    if pads == [] {
      assert s + pads == s;
    } else {
      assert (s + pads)[..|s + pads| - 1] == s + pads[..|pads| - 1];
      UnpaddedPads(s, pads[..|pads| - 1]);
    }
  }

  lemma UrlChars(ch: char)
    ensures InUrlAlphabet(ch) ==> ToUrlChar(FromUrlChar(ch)) == ch && InAlphabet(FromUrlChar(ch))
    ensures InAlphabet(ch) ==> FromUrlChar(ToUrlChar(ch)) == ch && InUrlAlphabet(ToUrlChar(ch))
    ensures InAlphabet(ch) || InUrlAlphabet(ch) ==> ch != '='
    ensures InUrlAlphabet(ch) ==> ch != '+' && ch != '/'
  {
  }

  lemma TextSplit(s: string)
    requires |s| % 4 == 0
    ensures var data := s[..|s| - Padding(s)]; s == data + Pads(Padding(s)) && Padded(data) == s
  {
    var data := s[..|s| - Padding(s)];
    assert s == data + Pads(Padding(s));
    PaddedIs(data);
    assert PadCount(|data|) == Padding(s);
  }

  lemma UrlData(data: string)
    requires AllInAlphabet(data)
    ensures forall i :: 0 <= i < |data| ==> InUrlAlphabet(ToUrl(data)[i])
    ensures FromUrl(ToUrl(data)) == data && EndsInData(ToUrl(data))
  {
    forall i | 0 <= i < |data|
      ensures InUrlAlphabet(ToUrl(data)[i]) && ToUrl(data)[i] != '=' && FromUrl(ToUrl(data))[i] == data[i]
    {
      UrlChars(data[i]);
      UrlChars(ToUrl(data)[i]);
    }
  }

  lemma ToUrlPads(data: string, n: nat)
    ensures ToUrl(data + Pads(n)) == ToUrl(data) + Pads(n)
  {
  }

  /** The data characters of an encoding, in the URL alphabet, and its padding. */
  lemma UrlForm(s: string)
    requires ValidText(s)
    ensures var data := s[..|s| - Padding(s)];
            && Unpadded(ToUrl(s)) == ToUrl(data) && UrlValid(ToUrl(data))
            && FromUrl(ToUrl(data)) == data && Padded(data) == s
  {
    hide DecodeChar, Padded, Padding, ToUrl, FromUrl, Unpadded;
    var data, pads := s[..|s| - Padding(s)], Pads(Padding(s));
    TextSplit(s);
    UrlData(data);
    ToUrlPads(data, Padding(s));
    UnpaddedPads(ToUrl(data), pads);
  }

  /** The second canonical check never fires. */
  lemma SecondCheckRedundant(s: string, b: bytes)
    requires UrlValid(s) && Decoding(Padded(FromUrl(s))) == Ok(b)
    ensures UrlEncoding(b) == s
  {
    var t := FromUrl(s);
    DecodingExact(Padded(t), b);
    forall i | 0 <= i < |s|
      ensures ToUrl(t)[i] == s[i] && t[i] != '='
    {
      UrlChars(s[i]);
      UrlChars(t[i]);
    }
    assert ToUrl(t) == s;
    PaddedIs(t);
    var pads := Pads(PadCount(|t|));
    ToUrlPads(t, PadCount(|t|));
    if s != [] {
      UrlChars(s[|s| - 1]);
    }
    UnpaddedPads(s, pads);
  }

  /** Base64URL decoding accepts exactly the image of Base64URL encoding, and inverts it there. */
  lemma UrlDecodingExact(s: string, b: bytes)
    ensures UrlDecoding(s) == Ok(b) <==> s == UrlEncoding(b)
  {
    if s == UrlEncoding(b) {
      EncodingDecodes(b);
      UrlForm(Encoding(b));
      DecodingExact(Encoding(b), b);
    }
  }

  lemma UrlEncodingInjective(a: bytes, b: bytes)
    requires UrlEncoding(a) == UrlEncoding(b)
    ensures a == b
  {
    UrlDecodingExact(UrlEncoding(a), a);
    UrlDecodingExact(UrlEncoding(a), b);
  }

  lemma PaddingOfFirst(b: bytes)
    requires b != []
    ensures |b| <= 3 ==> Padding(EncodedFirst(b)) == 3 - |b|
  {
    hide Sextet0, Sextet1, Sextet2, Sextet3, DecodeChar;
  }

  lemma NoPadding()
    ensures Padding(Encoding([])) == 0
  {
  }

  lemma PaddingOfTail(front: string, rest: string)
    requires |rest| >= 2
    ensures Padding(front + rest) == Padding(rest)
  {
  }

  /** The padding of an encoding. */
  lemma {:induction false} EncodingPadding(b: bytes)
    ensures Padding(Encoding(b)) == (3 - |b| % 3) % 3
    decreases |b|
  {
    hide EncodedFirst, Padding;
    if |b| > 3 {
      var rest := AfterFirst(b);
      EncodingPadding(rest);
      EncodingSize(rest);
      assert Encoding(b) == EncodedFirst(b) + Encoding(rest);
      hide Encoding;
      PaddingOfTail(EncodedFirst(b), Encoding(rest));
      ThreeLess(|b|);
    } else if b != [] {
      PaddingOfFirst(b);
      EncodingOfNothing();
      assert EncodedFirst(b) + [] == EncodedFirst(b);
    } else {
      NoPadding();
    }
  }

  lemma ThreeLess(n: nat)
    requires n > 3
    ensures (n - 3) % 3 == n % 3 && (n - 3 + 2) / 3 * 4 >= 4
  {
  }

  lemma DataSize(n: nat)
    ensures (n + 2) / 3 * 4 - (3 - n % 3) % 3 == (4 * n + 2) / 3
  {
    var q, r := n / 3, n % 3;
    assert n == 3 * q + r;
    assert 4 * n + 2 == 3 * (4 * q) + (4 * r + 2);
  }

  lemma UrlEncodingShape(b: bytes)
    ensures |UrlEncoding(b)| == (4 * |b| + 2) / 3
    ensures forall i :: 0 <= i < |UrlEncoding(b)| ==> UrlEncoding(b)[i] !in {'=', '+', '/'}
  {
    hide Encoding, Padding, ToUrl, Unpadded, Padded, FromUrl, ToUrlChar, FromUrlChar, DecodeChar;
    EncodingDecodes(b);
    EncodingSize(b);
    EncodingPadding(b);
    UrlForm(Encoding(b));
    DataSize(|b|);
    forall i | 0 <= i < |UrlEncoding(b)|
      ensures UrlEncoding(b)[i] !in {'=', '+', '/'}
    {
      UrlChars(UrlEncoding(b)[i]);
    }
  }

  // ---------- The table and the text of RFC 4648 ----------

  /** The table of section 4 of RFC 4648: A to Z, a to z, 0 to 9, plus, slash, by their codes. */
  function Letter(x: sextet): int
  {
    if x < 26 then 65 + x
    else if x < 52 then 97 + (x - 26)
    else if x < 62 then 48 + (x - 52)
    else if x == 62 then 43
    else 47
  }

  /** The table of section 5: minus and underline instead of plus and slash. */
  function UrlLetter(x: sextet): int
  {
    if x == 62 then 45 else if x == 63 then 95 else Letter(x)
  }

  lemma EncodeSextetTable(x: sextet)
    ensures EncodeSextet(x) as int == Letter(x)
    ensures ToUrlChar(EncodeSextet(x)) as int == UrlLetter(x)
  {
  }

  lemma DecodeCharTable(ch: char)
    ensures DecodeChar(ch) >= 0 ==> ch as int == Letter(DecodeChar(ch))
    ensures DecodeChar(ch) < 0 ==> forall x: sextet :: ch as int != Letter(x)
  {
  }

  function ByteAt(b: bytes, i: nat): byte
  {
    if i < |b| then b[i] else 0
  }

  /** The 24 bits of group `g`, zeros behind the end of the input. */
  function Group24(b: bytes, g: nat): nat
  {
    Bits24(ByteAt(b, 3 * g), ByteAt(b, 3 * g + 1), ByteAt(b, 3 * g + 2))
  }

  /** Sextet `k` of a group, the most significant one first. */
  function SextetAt(b: bytes, g: nat, k: nat): sextet
    requires k < 4
  {
    var bits := Group24(b, g);
    if k == 0 then bits / 0x4_0000 % 64
    else if k == 1 then bits / 0x1000 % 64
    else if k == 2 then bits / 64 % 64
    else bits % 64
  }

  /** The text of section 4 of RFC 4648: four characters a group, `=` (61) for sextets without any input bit. */
  ghost predicate TextIs(b: bytes, s: string)
  {
    && |s| == (|b| + 2) / 3 * 4
    && forall i :: 0 <= i < |s| ==>
         s[i] as int == if 3 * (i / 4) + i % 4 > |b| then 61 else Letter(SextetAt(b, i / 4, i % 4))
  }

  /** The text of section 5 without padding. */
  ghost predicate UrlTextIs(b: bytes, s: string)
  {
    && |s| == (4 * |b| + 2) / 3
    && forall i :: 0 <= i < |s| ==> s[i] as int == UrlLetter(SextetAt(b, i / 4, i % 4))
  }

  lemma SextetsOfGroup(c0: sextet, c1: sextet, c2: sextet, c3: sextet)
    ensures var bits := SextetBits24(c0, c1, c2, c3);
            && bits / 0x4_0000 % 64 == c0 && bits / 0x1000 % 64 == c1 && bits / 64 % 64 == c2 && bits % 64 == c3
  {
    var x0: int, x1: int, x2: int, x3: int := c0, c1, c2, c3;
    var bits := SextetBits24(c0, c1, c2, c3);
    var high, middle := x0 * 64 + x1, (x0 * 64 + x1) * 64 + x2;
    assert bits == middle * 64 + x3;
    Digit(middle, x3);
    Digit(high, x2);
    Digit(x0, x1);
    TwoDigits(bits);
  }

  lemma Digit(high: nat, low: nat)
    requires low < 64
    ensures (high * 64 + low) / 64 == high && (high * 64 + low) % 64 == low
  {
  }

  lemma TwoDigits(bits: nat)
    ensures bits / 0x1000 == bits / 64 / 64 && bits / 0x4_0000 == bits / 64 / 64 / 64
  {
  }

  lemma FirstGroupAt(b: bytes, k: nat)
    requires b != [] && k < 4
    ensures EncodedFirst(b)[k] as int == if k > |b| then 61 else Letter(SextetAt(b, 0, k))
    ensures EncodedFirst(b)[k] == if k > |b| then '=' else EncodeSextet(SextetAt(b, 0, k))
  {
    hide Sextet0, Sextet1, Sextet2, Sextet3, SextetBits24, Bits24, EncodeSextet;
    var b0, b1, b2 := ByteAt(b, 0), ByteAt(b, 1), ByteAt(b, 2);
    EncodedGroup(b0, b1, b2);
    SextetsOfGroup(Sextet0(b0), Sextet1(b0, b1), Sextet2(b1, b2), Sextet3(b2));
    EncodeSextetTable(SextetAt(b, 0, k));
  }

  lemma LaterGroupAt(b: bytes, g: nat, k: nat)
    requires |b| > 3 && k < 4
    ensures SextetAt(b, g + 1, k) == SextetAt(b[3..], g, k)
  {
  }

  lemma {:induction false} EncodingAt(b: bytes, g: nat, k: nat)
    requires g < (|b| + 2) / 3 && k < 4
    ensures |Encoding(b)| == (|b| + 2) / 3 * 4
    ensures Encoding(b)[4 * g + k] == if 3 * g + k > |b| then '=' else EncodeSextet(SextetAt(b, g, k))
    decreases |b|
  {
    hide EncodedFirst, SextetAt, EncodeSextet;
    EncodingSize(b);
    assert b != [];
    if g == 0 {
      FirstGroupAt(b, k);
    } else {
      EncodingSize(AfterFirst(b));
      EncodingAt(AfterFirst(b), g - 1, k);
      LaterGroupAt(b, g - 1, k);
    }
  }

  lemma CharExact(b: bytes, i: nat)
    requires i < (|b| + 2) / 3 * 4
    ensures |Encoding(b)| == (|b| + 2) / 3 * 4
    ensures Encoding(b)[i] as int == if 3 * (i / 4) + i % 4 > |b| then 61 else Letter(SextetAt(b, i / 4, i % 4))
  {
    hide Encoding, SextetAt, EncodeSextet, Letter;
    EncodingAt(b, i / 4, i % 4);
    assert 4 * (i / 4) + i % 4 == i;
    EncodeSextetTable(SextetAt(b, i / 4, i % 4));
  }

  /** The encoding is the text of the RFC. */
  lemma EncodingExact(b: bytes, s: string)
    ensures s == Encoding(b) <==> TextIs(b, s)
  {
    hide Encoding, SextetAt, Letter;
    EncodingSize(b);
    forall i | 0 <= i < |Encoding(b)|
      ensures Encoding(b)[i] as int == if 3 * (i / 4) + i % 4 > |b| then 61 else Letter(SextetAt(b, i / 4, i % 4))
    {
      CharExact(b, i);
    }
    if TextIs(b, s) {
      assert forall i :: 0 <= i < |s| ==> s[i] as int == Encoding(b)[i] as int;
    }
  }

  lemma UrlCharExact(b: bytes, i: nat)
    requires i < (4 * |b| + 2) / 3
    ensures |UrlEncoding(b)| == (4 * |b| + 2) / 3
    ensures UrlEncoding(b)[i] as int == UrlLetter(SextetAt(b, i / 4, i % 4))
  {
    hide Encoding, SextetAt, EncodeSextet, Letter, ToUrlChar, Unpadded, Padding, DecodeChar, FromUrl, Padded;
    UrlEncodingShape(b);
    EncodingDecodes(b);
    EncodingSize(b);
    UrlForm(Encoding(b));
    InputBits(|b|, i);
    EncodingAt(b, i / 4, i % 4);
    assert 4 * (i / 4) + i % 4 == i;
    EncodeSextetTable(SextetAt(b, i / 4, i % 4));
    assert UrlEncoding(b) == ToUrl(Encoding(b)[..|Encoding(b)| - Padding(Encoding(b))]);
  }

  lemma InputBits(n: nat, i: nat)
    requires i < (4 * n + 2) / 3
    ensures 3 * (i / 4) + i % 4 <= n && i / 4 < (n + 2) / 3
  {
    var g, k := i / 4, i % 4;
    assert i == 4 * g + k && 3 * i < 4 * n + 2;
  }

  /** The Base64URL encoding is the unpadded text of the RFC. */
  lemma UrlEncodingExact(b: bytes, s: string)
    ensures s == UrlEncoding(b) <==> UrlTextIs(b, s)
  {
    hide UrlEncoding, SextetAt, UrlLetter;
    UrlEncodingShape(b);
    forall i | 0 <= i < |UrlEncoding(b)|
      ensures UrlEncoding(b)[i] as int == UrlLetter(SextetAt(b, i / 4, i % 4))
    {
      UrlCharExact(b, i);
    }
    if UrlTextIs(b, s) {
      assert forall i :: 0 <= i < |s| ==> s[i] as int == UrlEncoding(b)[i] as int;
    }
  }

  /** `base64url_encode`. */
  method Base64UrlEncode(input: bytes) returns (output: string)
    ensures output == UrlEncoding(input) && UrlTextIs(input, output)
  {
    UrlEncodingExact(input, UrlEncoding(input));
    hide UrlTextIs;
    output := Base64Encode(input);
    ghost var encoded := output;
    var i := 0;
    while i < |output|
      invariant 0 <= i <= |output| == |encoded|
      invariant forall k :: 0 <= k < i ==> output[k] == ToUrlChar(encoded[k])
      invariant forall k :: i <= k < |output| ==> output[k] == encoded[k]
    {
      if output[i] == '+' {
        output := output[i := '-'];
      } else if output[i] == '/' {
        output := output[i := '_'];
      }
      i := i + 1;
    }
    assert output == ToUrl(encoded);
    while output != [] && output[|output| - 1] == '='
      invariant Unpadded(output) == UrlEncoding(input)
    {
      output := output[..|output| - 1];
    }
  }

  /** `reject_invalid_base64url`. */
  method RejectInvalidBase64Url(input: string) returns (r: Outcome)
    ensures r == if UrlValid(input) then Done else Thrown(InvalidEncoding)
  {
    if |input| % 4 == 1 {
      return Thrown(InvalidEncoding);
    }
    for i := 0 to |input|
      invariant forall k :: 0 <= k < i ==> InUrlAlphabet(input[k])
    {
      if !InUrlAlphabet(input[i]) {
        return Thrown(InvalidEncoding);
      }
    }
    return Done;
  }

  /** `base64url_decode`. */
  method Base64UrlDecode(input: string) returns (r: Result<bytes>)
    ensures r == UrlDecoding(input)
    ensures forall b :: r == Ok(b) <==> input == UrlEncoding(b)
    ensures forall b :: r == Ok(b) <==> UrlTextIs(b, input)
    ensures r.Err? ==> r.error == InvalidEncoding
  {
    hide Decoding, UrlEncoding, DecodeChar, UrlTextIs, TextIs;
    forall b
      ensures UrlDecoding(input) == Ok(b) <==> input == UrlEncoding(b)
      ensures input == UrlEncoding(b) <==> UrlTextIs(b, input)
    {
      UrlDecodingExact(input, b);
      UrlEncodingExact(b, input);
    }
    var valid := RejectInvalidBase64Url(input);
    if valid.Thrown? {
      return Err(valid.error);
    }
    var padded: string := [];
    for i := 0 to |input|
      invariant padded == FromUrl(input)[..i]
    {
      var ch := input[i];
      if ch == '-' {
        padded := padded + ['+'];
      } else if ch == '_' {
        padded := padded + ['/'];
      } else {
        padded := padded + [ch];
      }
    }
    assert padded == FromUrl(input);
    while |padded| % 4 != 0
      invariant Padded(padded) == Padded(FromUrl(input))
      decreases (4 - |padded| % 4) % 4
    {
      padded := padded + ['='];
    }
    var output := Base64Decode(padded);
    if output.Err? {
      return output;
    }
    var again := Base64UrlEncode(output.value);
    if again != input {
      return Err(InvalidEncoding);
    }
    return output;
  }
}
