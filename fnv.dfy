/**
 * The repository path hash: 32-bit FNV-1a (section 2 of the IETF draft
 * draft-eastlake-fnv, "The FNV Non-Cryptographic Hash Algorithm") over the
 * UTF-8 bytes of the path, rendered as an unsigned decimal numeral.
 */
module Fnv {
  import opened Outcomes
  import opened GoText

  /** A byte of a Go `[]byte`. */
  newtype uint8 = x: int | 0 <= x < 256

  // ---------------------------------------------------------------------------
  // []byte(s): the UTF-8 bytes of a string
  // ---------------------------------------------------------------------------

  /** The UTF-8 encoding of one Unicode scalar value: one to four bytes. */
  function EncodeChar(c: char): (r: seq<uint8>)
    ensures 1 <= |r| <= 4
  {
    var n := c as int;
    if n < 0x80 then [n as uint8]
    else if n < 0x800 then [(0xC0 + n / 0x40) as uint8, (0x80 + n % 0x40) as uint8]
    else if n < 0x1_0000 then
      [(0xE0 + n / 0x1000) as uint8, (0x80 + n / 0x40 % 0x40) as uint8, (0x80 + n % 0x40) as uint8]
    else
      [(0xF0 + n / 0x4_0000) as uint8, (0x80 + n / 0x1000 % 0x40) as uint8,
       (0x80 + n / 0x40 % 0x40) as uint8, (0x80 + n % 0x40) as uint8]
  }

  /** `[]byte(s)`: the UTF-8 encoding of a string. */
  function Utf8(s: string): seq<uint8>
  {
    if s == [] then [] else EncodeChar(s[0]) + Utf8(s[1..])
  }

  predicate IsContinuation(b: uint8)
  {
    0x80 <= b < 0xC0
  }

  /** The scalar value `n` as a character, when `n` is one and at least `least` (no overlong form). */
  function ScalarAtLeast(n: int, least: int): Option<char>
  {
    if 0 <= least <= n < 0x11_0000 && !(0xD800 <= n < 0xE000) then Some(n as char) else None
  }

  /** Decodes the first character of `b`, giving the character and the number of bytes it took. */
  function DecodeChar(b: seq<uint8>): (r: Option<(char, nat)>)
    ensures r.Some? ==> 1 <= r.value.1 <= |b|
  {
    if b == [] then None
    else if b[0] < 0x80 then Some((b[0] as int as char, 1))
    else if 0xC0 <= b[0] < 0xE0 && |b| >= 2 && IsContinuation(b[1]) then
      var n := (b[0] as int - 0xC0) * 0x40 + (b[1] as int - 0x80);
      match ScalarAtLeast(n, 0x80) case Some(c) => Some((c, 2)) case None => None
    else if 0xE0 <= b[0] < 0xF0 && |b| >= 3 && IsContinuation(b[1]) && IsContinuation(b[2]) then
      var n := (b[0] as int - 0xE0) * 0x1000 + (b[1] as int - 0x80) * 0x40 + (b[2] as int - 0x80);
      match ScalarAtLeast(n, 0x800) case Some(c) => Some((c, 3)) case None => None
    else if 0xF0 <= b[0] < 0xF8 && |b| >= 4 && IsContinuation(b[1]) && IsContinuation(b[2]) && IsContinuation(b[3]) then
      var n := (b[0] as int - 0xF0) * 0x4_0000 + (b[1] as int - 0x80) * 0x1000
               + (b[2] as int - 0x80) * 0x40 + (b[3] as int - 0x80);
      match ScalarAtLeast(n, 0x1_0000) case Some(c) => Some((c, 4)) case None => None
    else None
  }

  /** Decodes well-formed UTF-8; `None` for anything else. */
  function Utf8Decode(b: seq<uint8>): Option<string>
    decreases |b|
  {
    if b == [] then Some("")
    else match DecodeChar(b)
      case None => None
      case Some((c, k)) =>
        match Utf8Decode(b[k..])
        case None => None
        case Some(s) => Some([c] + s)
  }

  /** Decoding the encoding of a character, whatever follows it, gives back that character. */
  lemma DecodeEncodeChar(c: char, rest: seq<uint8>)
    ensures DecodeChar(EncodeChar(c) + rest) == Some((c, |EncodeChar(c)|))
  {
    var n := c as int;
    if n < 0x80 {
      assert (EncodeChar(c) + rest)[0] as int == n;
    } else if n < 0x800 {
      DecodeEncodeTwo(c, rest);
    } else if n < 0x1_0000 {
      DecodeEncodeThree(c, rest);
    } else {
      DecodeEncodeFour(c, rest);
    }
  }

  lemma DecodeEncodeTwo(c: char, rest: seq<uint8>)
    requires 0x80 <= c as int < 0x800
    ensures DecodeChar(EncodeChar(c) + rest) == Some((c, 2))
  {
  }

  lemma DecodeEncodeThree(c: char, rest: seq<uint8>)
    requires 0x800 <= c as int < 0x1_0000
    ensures DecodeChar(EncodeChar(c) + rest) == Some((c, 3))
  {
  }

  lemma DecodeEncodeFour(c: char, rest: seq<uint8>)
    requires 0x1_0000 <= c as int
    ensures DecodeChar(EncodeChar(c) + rest) == Some((c, 4))
  {
    var n := c as int;
    var b := EncodeChar(c) + rest;
    var q0, q1, q2, q3 := n / 0x4_0000, n / 0x1000 % 0x40, n / 0x40 % 0x40, n % 0x40;
    assert b[0] as int == 0xF0 + q0 && b[1] as int == 0x80 + q1 && b[2] as int == 0x80 + q2 && b[3] as int == 0x80 + q3;
    Digits64(n);
    assert ScalarAtLeast((b[0] as int - 0xF0) * 0x4_0000 + (b[1] as int - 0x80) * 0x1000
                         + (b[2] as int - 0x80) * 0x40 + (b[3] as int - 0x80), 0x1_0000) == Some(c);
  }

  /** A number split into four base-64 digits, as UTF-8 spreads a scalar value over four bytes. */
  lemma Digits64(n: nat)
    ensures n / 0x4_0000 * 0x4_0000 + n / 0x1000 % 0x40 * 0x1000 + n / 0x40 % 0x40 * 0x40 + n % 0x40 == n
  {
    var a := n / 0x40;
    assert a * 0x40 + n % 0x40 == n;
    var b := a / 0x40;
    assert b * 0x40 + a % 0x40 == a;
    assert b == n / 0x1000;
    var c := b / 0x40;
    assert c * 0x40 + b % 0x40 == b;
    assert c == n / 0x4_0000;
  }

  /** UTF-8 encoding loses nothing: decoding it gives back the string. */
  lemma {:induction false} Utf8RoundTrip(s: string)
    ensures Utf8Decode(Utf8(s)) == Some(s)
  {
    if s != [] {
      var e := EncodeChar(s[0]);
      var b := Utf8(s);
      DecodeEncodeChar(s[0], Utf8(s[1..]));
      assert b[|e|..] == Utf8(s[1..]);
      Utf8RoundTrip(s[1..]);
      assert [s[0]] + s[1..] == s;
    }
  }

  /** So two paths with the same bytes are the same path. */
  lemma Utf8Injective(s: string, t: string)
    requires Utf8(s) == Utf8(t)
    ensures s == t
  {
    Utf8RoundTrip(s);
    Utf8RoundTrip(t);
  }

  // ---------------------------------------------------------------------------
  // 32-bit FNV-1a
  // ---------------------------------------------------------------------------

  /** The 32-bit FNV offset basis, 2166136261. */
  const OffsetBasis32: bv32 := 0x811C_9DC5
  /** The 32-bit FNV prime, 16777619. */
  const Prime32: bv32 := 0x0100_0193

  /** One FNV-1a round: exclusive-or the byte in, then multiply by the prime modulo 2^32. */
  function Step(h: bv32, b: uint8): bv32
  {
    (h ^ (b as bv32)) * Prime32
  }

  /** The hash state after feeding `data`, one byte at a time, to a hash in state `h`. */
  function Fold(h: bv32, data: seq<uint8>): bv32
    decreases data
  {
    if data == [] then h else Fold(Step(h, data[0]), data[1..])
  }

  /**
   * 32-bit FNV-1a of a byte string: the offset basis for no bytes, and one more round
   * over the hash of all but the last byte otherwise.
   */
  function Fnv1a32(data: seq<uint8>): (r: bv32)
    ensures data == [] ==> r == OffsetBasis32
    ensures data != [] ==> r == Step(Fold(OffsetBasis32, data[..|data| - 1]), data[|data| - 1])
  {
    if data == [] then OffsetBasis32
    else
      var init, last := data[..|data| - 1], data[|data| - 1];
      FoldConcat(OffsetBasis32, init, [last]);
      assert init + [last] == data;
      Fold(OffsetBasis32, data)
  }

  /** Feeding `a` and then `b` is the same as feeding `a + b`: the hash is a fold over bytes. */
  lemma {:induction false} FoldConcat(h: bv32, a: seq<uint8>, b: seq<uint8>)
    ensures Fold(h, a + b) == Fold(Fold(h, a), b)
    decreases a
  {
    if a != [] {
      var ab := a + b;
      assert ab != [] && ab[0] == a[0] && ab[1..] == a[1..] + b;
      assert Fold(h, ab) == Fold(Step(h, a[0]), a[1..] + b);
      FoldConcat(Step(h, a[0]), a[1..], b);
      assert Fold(h, a) == Fold(Step(h, a[0]), a[1..]);
    } else {
      assert a + b == b;
    }
  }

  /** The draft's test vectors for FNV-1a 32: "", "a" and "foobar". */
  lemma TestVectors()
    ensures OffsetBasis32 as int == 2166136261 && Prime32 as int == 16777619
    ensures Fnv1a32([]) == 0x811C_9DC5
    ensures Fnv1a32([0x61]) == 0xE40C_292C
    ensures Fnv1a32([0x66, 0x6F, 0x6F, 0x62, 0x61, 0x72]) == 0xBF9C_F968
  {
    assert Step(OffsetBasis32, 0x61) == 0xE40C_292C;
    assert Fold(0xE40C_292C, []) == 0xE40C_292C;
    var h1 := Step(OffsetBasis32, 0x66);
    var h2 := Step(h1, 0x6F);
    var h3 := Step(h2, 0x6F);
    var h4 := Step(h3, 0x62);
    var h5 := Step(h4, 0x61);
    var h6 := Step(h5, 0x72);
    assert h1 == 0xE30C_2799;
    assert h2 == 0x6222_E842;
    assert h3 == 0xA9F3_7ED7;
    assert h4 == 0x3F50_76EF;
    assert h5 == 0x39AA_A18A;
    assert h6 == 0xBF9C_F968;
    assert Fold(h6, []) == h6;
    assert Fold(h5, [0x72]) == h6;
    assert Fold(h4, [0x61, 0x72]) == h6;
    assert Fold(h3, [0x62, 0x61, 0x72]) == h6;
    assert Fold(h2, [0x6F, 0x62, 0x61, 0x72]) == h6;
    assert Fold(h1, [0x6F, 0x6F, 0x62, 0x61, 0x72]) == h6;
  }

  /** The hasher returned by Go's `fnv.New32a()`. */
  class Hash32a {
    var sum: bv32
    /** The bytes written so far. */
    ghost var written: seq<uint8>

    /** The sum is the FNV-1a 32 hash of the bytes written so far. */
    ghost predicate Valid()
      reads this
    {
      sum == Fnv1a32(written)
    }

    constructor ()
      ensures sum == OffsetBasis32 && written == [] && Valid()
    {
      sum := OffsetBasis32;
      written := [];
    }

    /** `hash.Write(data)`: feeds the bytes to the hasher, one at a time. */
    method Write(data: seq<uint8>)
      modifies this
      ensures sum == Fold(old(sum), data) && written == old(written) + data
      ensures old(Valid()) ==> Valid()
    {
      var i := 0;
      while i < |data|
        invariant 0 <= i <= |data|
        invariant sum == Fold(old(sum), data[..i]) && written == old(written)
      {
        FoldConcat(old(sum), data[..i], [data[i]]);
        assert data[..i + 1] == data[..i] + [data[i]];
        sum := Step(sum, data[i]);
        i := i + 1;
      }
      assert data[..i] == data;
      FoldConcat(OffsetBasis32, written, data);
      written := written + data;
    }

    /** `hash.Sum32()`: the hash of everything written since the hasher was made. */
    function Sum32(): (r: bv32)
      reads this
      ensures Valid() ==> r == Fnv1a32(written)
    {
      sum
    }
  }

  // ---------------------------------------------------------------------------
  // The path hash
  // ---------------------------------------------------------------------------

  /** The path hash: FNV-1a 32 of the path's UTF-8 bytes, as a decimal numeral. */
  function PathHash(path: string): (r: string)
    ensures r != "" && AllDigits(r) && DecimalValue(r) == Fnv1a32(Utf8(path)) as int
  {
    DecimalValueOfFormat(Fnv1a32(Utf8(path)) as int);
    FormatInt(Fnv1a32(Utf8(path)) as int)
  }

  /** `getHashFromString(s)`: a fresh FNV-1a 32 hasher fed the bytes of `s`, its sum in decimal. */
  method GetHashFromString(s: string) returns (r: string)
    ensures r == PathHash(s)
  {
    var hash := new Hash32a();
    hash.Write(Utf8(s));
    r := FormatInt(hash.Sum32() as int);
  }

  /**
   * The path hash denotes a 32-bit value, and as a string of digits it holds neither
   * `-`, `|` nor a newline.
   */
  lemma PathHashIsDecimal(path: string)
    ensures DecimalValue(PathHash(path)) < 0x1_0000_0000
    ensures '-' !in PathHash(path) && '|' !in PathHash(path) && '\n' !in PathHash(path)
  {
  }
}
