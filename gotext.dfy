/**
 * The parts of Go's `strings` and `strconv` packages that the migrator relies on:
 * `strings.Split` with a one-character separator, `strings.Contains`,
 * `strings.Fields`, `strconv.ParseInt(s, 10, 64)` and `strconv.Itoa`. `Join`, the
 * inverse of `Split`, is not called by the migrator: it lays out git's
 * newline-separated output and states the round trips. Go strings are modelled as
 * sequences of characters.
 */
module GoText {
  import opened Outcomes

  // ---------------------------------------------------------------------------
  // strings.Split, and Join, its inverse
  // ---------------------------------------------------------------------------

  /** `strings.Split(s, sep)`: the pieces of `s` between occurrences of `sep`. */
  function Split(s: string, sep: char): (r: seq<string>)
    ensures |r| >= 1
    ensures forall i :: 0 <= i < |r| ==> sep !in r[i]
  {
    if s == [] then [""]
    else
      var t := Split(s[1..], sep);
      if s[0] == sep then [""] + t
      else [[s[0]] + t[0]] + t[1..]
  }

  /** Joins `parts` with `sep` between them, as `strings.Join` would: the text starts with the first part, and is empty without parts. */
  function Join(parts: seq<string>, sep: char): (r: string)
    ensures |parts| > 0 ==> parts[0] <= r
    ensures |parts| == 0 ==> r == ""
  {
    if |parts| == 0 then ""
    else if |parts| == 1 then parts[0]
    else parts[0] + [sep] + Join(parts[1..], sep)
  }

  /** Joining the pieces again gives back the string that was split. */
  lemma {:induction false} JoinSplit(s: string, sep: char)
    ensures Join(Split(s, sep), sep) == s
  {
    if s != [] {
      var t := Split(s[1..], sep);
      JoinSplit(s[1..], sep);
      if s[0] == sep {
        assert ([""] + t)[1..] == t;
      } else if |t| > 1 {
        var r := [[s[0]] + t[0]] + t[1..];
        assert r[1..] == t[1..];
      }
    }
  }

  /** A string without the separator is a single piece. */
  lemma {:induction false} SplitWithoutSep(s: string, sep: char)
    requires sep !in s
    ensures Split(s, sep) == [s]
  {
    if s != [] {
      SplitWithoutSep(s[1..], sep);
      assert [s[0]] + s[1..] == s;
    }
  }

  /** Splitting `a + sep + b` where `a` holds no separator peels off `a`. */
  lemma {:induction false} SplitAfterPiece(a: string, sep: char, b: string)
    requires sep !in a
    ensures Split(a + [sep] + b, sep) == [a] + Split(b, sep)
  {
    var s := a + [sep] + b;
    if a == [] {
      assert s[1..] == b;
    } else {
      assert s[1..] == a[1..] + [sep] + b;
      SplitAfterPiece(a[1..], sep, b);
      assert [a[0]] + a[1..] == a;
    }
  }

  /** Splitting a join of separator-free pieces gives back the pieces. */
  lemma {:induction false} SplitJoin(parts: seq<string>, sep: char)
    requires |parts| >= 1
    requires forall i :: 0 <= i < |parts| ==> sep !in parts[i]
    ensures Split(Join(parts, sep), sep) == parts
  {
    if |parts| == 1 {
      SplitWithoutSep(parts[0], sep);
    } else {
      SplitJoin(parts[1..], sep);
      SplitAfterPiece(parts[0], sep, Join(parts[1..], sep));
    }
  }

  /** Every character of a piece is a character of the string that was split. */
  lemma {:induction false} SplitPieceChars(s: string, sep: char, i: nat, c: char)
    requires i < |Split(s, sep)| && c in Split(s, sep)[i]
    ensures c in s
  {
    var t := Split(s[1..], sep);
    if s[0] == sep {
      SplitPieceChars(s[1..], sep, i - 1, c);
    } else if i == 0 {
      if c != s[0] {
        SplitPieceChars(s[1..], sep, 0, c);
      }
    } else {
      SplitPieceChars(s[1..], sep, i, c);
    }
  }

  // ---------------------------------------------------------------------------
  // strings.Contains
  // ---------------------------------------------------------------------------

  /** `strings.Contains(s, sub)`: a text contains its prefixes and nothing longer than itself. */
  function Contains(s: string, sub: string): (r: bool)
    ensures r ==> |sub| <= |s|
    ensures sub <= s ==> r
    decreases |s|
  {
    if |sub| > |s| then false
    else if s[..|sub|] == sub then true
    else Contains(s[1..], sub)
  }

  /** `sub` occurs in `s` starting at position `i`. */
  predicate OccursAt(s: string, sub: string, i: int)
  {
    0 <= i <= |s| - |sub| && s[i..i + |sub|] == sub
  }

  /** `Contains` holds exactly when `sub` occurs at some position of `s`. */
  lemma {:induction false} ContainsIffOccurs(s: string, sub: string)
    ensures Contains(s, sub) <==> exists i :: OccursAt(s, sub, i)
  {
    if |sub| <= |s| && s[..|sub|] != sub {
      ContainsIffOccurs(s[1..], sub);
      if Contains(s[1..], sub) {
        var i :| OccursAt(s[1..], sub, i);
        assert OccursAt(s, sub, i + 1);
      }
      if exists i :: OccursAt(s, sub, i) {
        var i :| OccursAt(s, sub, i);
        assert i != 0;
        assert OccursAt(s[1..], sub, i - 1);
      }
    } else if |sub| <= |s| {
      assert OccursAt(s, sub, 0);
    }
  }

  /** A string contains every one of its infixes. */
  lemma ContainsInfix(a: string, sub: string, b: string)
    ensures Contains(a + sub + b, sub)
  {
    var s := a + sub + b;
    assert OccursAt(s, sub, |a|);
    ContainsIffOccurs(s, sub);
  }

  // ---------------------------------------------------------------------------
  // strings.Fields
  // ---------------------------------------------------------------------------

  /** Go's `unicode.IsSpace`: the ASCII white space, NEL, NBSP and Unicode's White_Space. */
  predicate IsSpace(c: char)
    ensures '!' <= c <= '~' ==> !IsSpace(c)
    ensures IsSpace(c) ==> c <= '\U{3000}'
  {
    || c == '\t' || c == '\n' || c == '\U{000B}' || c == '\U{000C}' || c == '\r' || c == ' '
    || c == '\U{0085}' || c == '\U{00A0}' || c == '\U{1680}'
    || ('\U{2000}' <= c <= '\U{200A}')
    || c == '\U{2028}' || c == '\U{2029}' || c == '\U{202F}' || c == '\U{205F}' || c == '\U{3000}'
  }

  predicate NoSpace(s: string)
  {
    forall i :: 0 <= i < |s| ==> !IsSpace(s[i])
  }

  /** The longest prefix of `s` that holds no space. */
  function Word(s: string): (w: string)
    ensures |w| <= |s| && w == s[..|w|]
    ensures NoSpace(w)
    ensures |w| < |s| ==> IsSpace(s[|w|])
  {
    if s == [] || IsSpace(s[0]) then "" else [s[0]] + Word(s[1..])
  }

  /** `strings.Fields(s)`: the maximal runs of non-space characters of `s`, in order. */
  function Fields(s: string): (r: seq<string>)
    ensures forall i :: 0 <= i < |r| ==> r[i] != "" && NoSpace(r[i])
    decreases |s|
  {
    if s == [] then []
    else if IsSpace(s[0]) then Fields(s[1..])
    else
      var w := Word(s);
      [w] + Fields(s[|w|..])
  }

  /** A space-free word followed by nothing or by a space is the first word. */
  lemma {:induction false} WordOf(w: string, rest: string)
    requires NoSpace(w)
    requires rest == [] || IsSpace(rest[0])
    ensures Word(w + rest) == w
  {
    if w != [] {
      assert (w + rest)[1..] == w[1..] + rest;
      WordOf(w[1..], rest);
    } else {
      assert w + rest == rest;
    }
  }

  /** Splitting a space-separated list of non-empty words into fields gives back the words. */
  lemma {:induction false} FieldsOfJoin(ws: seq<string>)
    requires forall i :: 0 <= i < |ws| ==> ws[i] != "" && NoSpace(ws[i])
    ensures Fields(Join(ws, ' ')) == ws
  {
    if |ws| == 1 {
      WordOf(ws[0], "");
      assert ws[0] + "" == ws[0];
      assert ws[0][|ws[0]|..] == "";
    } else if |ws| > 1 {
      var rest := [' '] + Join(ws[1..], ' ');
      var s := ws[0] + rest;
      assert Join(ws, ' ') == s;
      WordOf(ws[0], rest);
      assert s[|ws[0]|..] == rest;
      assert rest[1..] == Join(ws[1..], ' ');
      FieldsOfJoin(ws[1..]);
    }
  }

  /** Trailing white space adds no field. */
  lemma FieldsTrailingSpace(s: string, c: char)
    requires IsSpace(c)
    ensures Fields(s + [c]) == Fields(s)
  {
    FieldsAroundSpace(s, c, []);
    assert s + [c] + [] == s + [c];
  }

  /** A white-space character separates the fields before it from those after it. */
  lemma {:induction false} FieldsAroundSpace(s: string, c: char, rest: string)
    requires IsSpace(c)
    ensures Fields(s + [c] + rest) == Fields(s) + Fields(rest)
    decreases |s|
  {
    var t := s + [c] + rest;
    if s == [] {
      assert t[1..] == rest;
    } else if IsSpace(s[0]) {
      assert t[1..] == s[1..] + [c] + rest;
      FieldsAroundSpace(s[1..], c, rest);
    } else {
      var w := Word(s);
      WordBeforeSpace(s, c, rest);
      assert t[|w|..] == s[|w|..] + [c] + rest;
      FieldsAroundSpace(s[|w|..], c, rest);
    }
  }

  /** What follows a space does not change the first word before it. */
  lemma {:induction false} WordBeforeSpace(s: string, c: char, rest: string)
    requires IsSpace(c)
    ensures Word(s + [c] + rest) == Word(s)
  {
    if s == [] {
      assert (s + [c] + rest)[0] == c;
    } else if !IsSpace(s[0]) {
      assert (s + [c] + rest)[1..] == s[1..] + [c] + rest;
      WordBeforeSpace(s[1..], c, rest);
    }
  }

  // ---------------------------------------------------------------------------
  // Decimal numerals: strconv.ParseInt(s, 10, 64) and strconv.Itoa
  // ---------------------------------------------------------------------------

  const MinInt64: int := -0x8000_0000_0000_0000
  const MaxInt64: int := 0x7FFF_FFFF_FFFF_FFFF

  /** Whether `n` fits in Go's `int64`. */
  predicate IsInt64(n: int)
  {
    MinInt64 <= n <= MaxInt64
  }

  predicate IsDigit(c: char)
  {
    '0' <= c <= '9'
  }

  predicate AllDigits(s: string)
  {
    forall i :: 0 <= i < |s| ==> IsDigit(s[i])
  }

  function DigitValue(c: char): nat
    requires IsDigit(c)
  {
    c as int - '0' as int
  }

  function DigitChar(d: nat): (c: char)
    requires d < 10
    ensures IsDigit(c) && DigitValue(c) == d
  {
    ('0' as int + d) as char
  }

  /** The value of a string of decimal digits, most significant first; leading zeros allowed. */
  function DecimalValue(digits: string): nat
    requires AllDigits(digits)
  {
    if digits == [] then 0
    else DecimalValue(digits[..|digits| - 1]) * 10 + DigitValue(digits[|digits| - 1])
  }

  /** The shortest decimal numeral of `n`. */
  function FormatNat(n: nat): (r: string)
    ensures r != [] && AllDigits(r)
  {
    if n < 10 then [DigitChar(n)] else FormatNat(n / 10) + [DigitChar(n % 10)]
  }

  /**
   * `strconv.Itoa(n)`: the decimal numeral of `n`, with a leading `-` when negative;
   * so it holds only digits and that sign.
   */
  function FormatInt(n: int): (r: string)
    ensures n >= 0 ==> r != [] && AllDigits(r)
    ensures n < 0 ==> |r| >= 2 && r[0] == '-' && AllDigits(r[1..])
    ensures forall i :: 0 <= i < |r| ==> IsDigit(r[i]) || r[i] == '-'
  {
    if n < 0 then "-" + FormatNat(-n) else FormatNat(n)
  }

  /**
   * `strconv.ParseInt(s, 10, 64)`: an optional `+` or `-` sign followed by one or more
   * decimal digits whose value fits in `int64`; anything else is an error (`None`).
   */
  function ParseInt64(s: string): (r: Option<int>)
    ensures r.Some? ==> IsInt64(r.value)
  {
    if s == [] then None
    else
      var signed := s[0] == '+' || s[0] == '-';
      var body := if signed then s[1..] else s;
      if body == [] || !AllDigits(body) then None
      else
        var magnitude: int := DecimalValue(body);
        var v: int := if s[0] == '-' then -magnitude else magnitude;
        if IsInt64(v) then Some(v) else None
  }

  /** Reading back the numeral of `n` gives `n`. */
  lemma {:induction false} DecimalValueOfFormat(n: nat)
    ensures DecimalValue(FormatNat(n)) == n
  {
    if n >= 10 {
      var r := FormatNat(n);
      assert r[..|r| - 1] == FormatNat(n / 10);
      DecimalValueOfFormat(n / 10);
    }
  }

  /** `ParseInt64` inverts `FormatInt` on the whole `int64` range. */
  lemma ParseFormatInt(n: int)
    requires IsInt64(n)
    ensures ParseInt64(FormatInt(n)) == Some(n)
  {
    var s := FormatInt(n);
    if n < 0 {
      assert s[1..] == FormatNat(-n);
      DecimalValueOfFormat(-n);
    } else {
      DecimalValueOfFormat(n);
    }
  }

  /** `n` zeros. */
  function Zeros(n: nat): (r: string)
    ensures |r| == n && AllDigits(r)
    ensures forall i :: 0 <= i < n ==> r[i] == '0'
  {
    if n == 0 then [] else Zeros(n - 1) + ['0']
  }

  /** Leading zeros do not change the value of a numeral. */
  lemma {:induction false} LeadingZerosIgnored(z: nat, digits: string)
    requires AllDigits(digits)
    ensures DecimalValue(Zeros(z) + digits) == DecimalValue(digits)
    decreases z + |digits|
  {
    var s := Zeros(z) + digits;
    if digits == [] {
      assert s == Zeros(z);
      if z > 0 {
        assert s[..|s| - 1] == Zeros(z - 1) + [];
        LeadingZerosIgnored(z - 1, []);
      }
    } else {
      var init := digits[..|digits| - 1];
      assert s[..|s| - 1] == Zeros(z) + init;
      assert s[|s| - 1] == digits[|digits| - 1];
      LeadingZerosIgnored(z, init);
    }
  }

  /** The sign written before a numeral: none, `+` or `-`. */
  datatype Sign = NoSign | Plus | Minus

  function SignText(sign: Sign): string
  {
    match sign
    case NoSign => ""
    case Plus => "+"
    case Minus => "-"
  }

  /** The value of a magnitude under a sign. */
  function Signed(sign: Sign, n: nat): int
  {
    if sign == Minus then -(n as int) else n
  }

  /**
   * `ParseInt` reads a signed numeral in range as its value. The asserts name the
   * digits that follow the sign; without them the solver does not close the proof.
   */
  lemma ParseSigned(sign: Sign, digits: string)
    requires digits != [] && AllDigits(digits) && IsInt64(Signed(sign, DecimalValue(digits)))
    ensures ParseInt64(SignText(sign) + digits) == Some(Signed(sign, DecimalValue(digits)))
  {
    if sign == NoSign {
      assert SignText(sign) + digits == digits;
    } else {
      assert (SignText(sign) + digits)[1..] == digits;
    }
  }

  /** The numeral of `n` after `z` leading zeros and the sign. */
  function Padded(sign: Sign, z: nat, n: nat): string
  {
    SignText(sign) + (Zeros(z) + FormatNat(n))
  }

  /** A padded numeral is digits after an optional sign. */
  lemma PaddedChars(sign: Sign, z: nat, n: nat)
    ensures AllDigits(Zeros(z) + FormatNat(n))
    ensures forall i :: 0 <= i < |Padded(sign, z, n)| ==>
              Padded(sign, z, n)[i] == '+' || Padded(sign, z, n)[i] == '-' || IsDigit(Padded(sign, z, n)[i])
  {
  }

  /**
   * `ParseInt` accepts a numeral with an optional sign and any number of leading zeros,
   * with the value of its shortest form: `+017` and `0017` read as 17, `-007` as -7 and
   * `-0` as 0.
   */
  lemma PaddedParse(sign: Sign, z: nat, n: nat)
    requires IsInt64(Signed(sign, n))
    ensures ParseInt64(Padded(sign, z, n)) == Some(Signed(sign, n))
  {
    var f := FormatNat(n);
    PaddedChars(sign, z, n);
    LeadingZerosIgnored(z, f);
    DecimalValueOfFormat(n);
    ParseSigned(sign, Zeros(z) + f);
  }
}
