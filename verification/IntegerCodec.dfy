/** utils.encode_integer and utils.decode_integer, with the float division of the encoder. */
module IntegerCodec {
  import opened Arithmetic
  import opened Wrappers

  // ----- The alphabet -----

  /** The characters of NUMBER2CHAR after the digits and the two cases of the alphabet. */
  const SYMBOLS := "[]{};:,./<>?|+=-_()*&^%$#@!`~"
  const ALPHABET_LENGTH := 91

  /** NUMBER2CHAR[d]. */
  function NumberToChar(d: nat): char
    requires d < ALPHABET_LENGTH
  {
    if d < 10 then ('0' as int + d) as char
    else if d < 36 then ('A' as int + d - 10) as char
    else if d < 62 then ('a' as int + d - 36) as char
    else SYMBOLS[d - 62]
  }

  /** CHAR2NUMBER.get(c). */
  function CharToNumber(c: char): Option<nat> {
    if '0' <= c <= '9' then Some(c as int - '0' as int)
    else if 'A' <= c <= 'Z' then Some(c as int - 'A' as int + 10)
    else if 'a' <= c <= 'z' then Some(c as int - 'a' as int + 36)
    else match c
      case '[' => Some(62) case ']' => Some(63) case '{' => Some(64) case '}' => Some(65) case ';' => Some(66)
      case ':' => Some(67) case ',' => Some(68) case '.' => Some(69) case '/' => Some(70) case '<' => Some(71)
      case '>' => Some(72) case '?' => Some(73) case '|' => Some(74) case '+' => Some(75) case '=' => Some(76)
      case '-' => Some(77) case '_' => Some(78) case '(' => Some(79) case ')' => Some(80) case '*' => Some(81)
      case '&' => Some(82) case '^' => Some(83) case '%' => Some(84) case '$' => Some(85) case '#' => Some(86)
      case '@' => Some(87) case '!' => Some(88) case '`' => Some(89) case '~' => Some(90)
      case _ => None
  }

  lemma AlphabetRoundTrip(d: nat)
    requires d < ALPHABET_LENGTH
    ensures CharToNumber(NumberToChar(d)) == Some(d)
  {
    if d >= 62 {
      SymbolRoundTrip(d - 62);
    }
  }

  /** The alphabet: the digits, the capital letters, the small letters, and the symbols. */
  lemma AlphabetIs(d: nat)
    requires d < 91
    ensures d < ALPHABET_LENGTH
    ensures NumberToChar(d) ==
            if d < 10 then "0123456789"[d]
            else if d < 36 then "ABCDEFGHIJKLMNOPQRSTUVWXYZ"[d - 10]
            else if d < 62 then "abcdefghijklmnopqrstuvwxyz"[d - 36]
            else "[]{};:,./<>?|+=-_()*&^%$#@!`~"[d - 62]
  {
    DigitChars(d);
    CapitalChars(d);
    SmallChars(d);
  }

  lemma DigitChars(d: nat)
    ensures d < 10 ==> ('0' as int + d) as char == "0123456789"[d]
  {
  }

  lemma CapitalChars(d: nat)
    ensures 10 <= d < 36 ==> ('A' as int + d - 10) as char == "ABCDEFGHIJKLMNOPQRSTUVWXYZ"[d - 10]
  {
  }

  lemma SmallChars(d: nat)
    ensures 36 <= d < 62 ==> ('a' as int + d - 36) as char == "abcdefghijklmnopqrstuvwxyz"[d - 36]
  {
  }

  lemma SymbolRoundTrip(i: nat)
    requires i < 29
    ensures CharToNumber(SYMBOLS[i]) == Some(62 + i)
  {
    if i < 12 {
      LowerSymbols(i);
    } else {
      UpperSymbols(i);
    }
  }

  lemma LowerSymbols(i: nat)
    requires i < 12
    ensures CharToNumber(SYMBOLS[i]) == Some(62 + i)
  {
    if i < 6 {
      assert SYMBOLS[0] == '[' && SYMBOLS[1] == ']' && SYMBOLS[2] == '{' && SYMBOLS[3] == '}' && SYMBOLS[4] == ';' &&
             SYMBOLS[5] == ':';
    } else {
      assert SYMBOLS[6] == ',' && SYMBOLS[7] == '.' && SYMBOLS[8] == '/' && SYMBOLS[9] == '<' && SYMBOLS[10] == '>' &&
             SYMBOLS[11] == '?';
    }
  }

  lemma UpperSymbols(i: nat)
    requires 12 <= i < 29
    ensures CharToNumber(SYMBOLS[i]) == Some(62 + i)
  {
    if i < 18 {
      assert SYMBOLS[12] == '|' && SYMBOLS[13] == '+' && SYMBOLS[14] == '=' && SYMBOLS[15] == '-' &&
             SYMBOLS[16] == '_' && SYMBOLS[17] == '(';
    } else if i < 24 {
      assert SYMBOLS[18] == ')' && SYMBOLS[19] == '*' && SYMBOLS[20] == '&' && SYMBOLS[21] == '^' &&
             SYMBOLS[22] == '%' && SYMBOLS[23] == '$';
    } else {
      assert SYMBOLS[24] == '#' && SYMBOLS[25] == '@' && SYMBOLS[26] == '!' && SYMBOLS[27] == '`' && SYMBOLS[28] == '~';
    }
  }

  // ----- The float division -----

  /** 2^53: every integer up to here is a double. */
  const EXACT := 0x20_0000_0000_0000

  /** The greatest double that does not exceed `q`; from 2^53 on, doubles are twice the doubles of the lower half. */
  function DoubleBelow(q: nat): (r: nat)
    ensures r <= q && (q >= 1 ==> r >= 1)
    ensures q <= EXACT ==> r == q
  {
    if q < EXACT then q else 2 * DoubleBelow(q / 2)
  }

  /** The least double that is not below `q`. */
  function DoubleAbove(q: nat): (r: nat)
    ensures r >= q
    ensures q <= EXACT ==> r == q
  {
    if q <= EXACT then q else 2 * DoubleAbove((q + 1) / 2)
  }

  /** The significand of DoubleBelow(q), whose last bit decides ties. */
  function Significand(q: nat): nat {
    if q < EXACT then q else Significand(q / 2)
  }

  /** The double nearest to `q`, ties to the even significand. */
  function RoundToDouble(q: nat): (r: nat)
    ensures q <= EXACT ==> r == q
    ensures q >= 1 ==> r < 2 * q
  {
    var low, high := DoubleBelow(q), DoubleAbove(q);
    if q - low < high - q || (q - low == high - q && Significand(q) % 2 == 0) then low else high
  }

  /** An integer with at most 53 significant bits. */
  predicate IsDouble(x: nat) {
    x < EXACT || (x % 2 == 0 && IsDouble(x / 2))
  }

  /** DoubleBelow is the greatest double up to `q`, and DoubleAbove the least one from `q` on. */
  lemma {:induction false} DoublesAround(q: nat, x: nat)
    ensures IsDouble(DoubleBelow(q)) && IsDouble(DoubleAbove(q))
    ensures IsDouble(x) && x <= q ==> x <= DoubleBelow(q)
    ensures IsDouble(x) && x >= q ==> x >= DoubleAbove(q)
    decreases q
  {
    if q > EXACT {
      DoublesAround(q / 2, x / 2);
      DoublesAround((q + 1) / 2, x / 2);
      SmallDouble(x);
      HalfBelow(q);
    } else {
      assert IsDouble(EXACT) by { assert IsDouble(EXACT / 2); }
    }
  }

  lemma HalfBelow(q: nat)
    requires q >= EXACT
    ensures DoubleBelow(q) >= EXACT
    decreases q
  {
    if q / 2 >= EXACT {
      HalfBelow(q / 2);
    } else {
      assert DoubleBelow(q / 2) == q / 2;
    }
  }

  lemma SmallDouble(x: nat)
    ensures IsDouble(x) && x >= EXACT ==> x % 2 == 0 && IsDouble(x / 2)
  {
  }

  /** No double is nearer to the quotient than the one it is rounded to. */
  lemma RoundsToNearest(q: nat, x: nat)
    ensures IsDouble(RoundToDouble(q))
    ensures IsDouble(x) ==> var r := RoundToDouble(q);
                            (if r <= q then q - r else r - q) <= (if x <= q then q - x else x - q)
  {
    DoublesAround(q, x);
  }

  /** Halfway between two doubles the even significand wins, whether it is the lower or the upper one. */
  lemma TiesToEven()
    ensures RoundToDouble(0x20_0000_0000_0001) == 0x20_0000_0000_0000
    ensures RoundToDouble(0x20_0000_0000_0003) == 0x20_0000_0000_0004
  {
    var q := EXACT + 3;
    assert q / 2 == EXACT / 2 + 1 && (q + 1) / 2 == EXACT / 2 + 2;
    assert DoubleBelow(q) == EXACT + 2 && DoubleAbove(q) == EXACT + 4 && Significand(q) == EXACT / 2 + 1;
    assert DoubleBelow(EXACT + 1) == EXACT && DoubleAbove(EXACT + 1) == EXACT + 2 &&
           Significand(EXACT + 1) == EXACT / 2;
  }

  // ----- Encoding -----

  lemma DivFacts(n: nat, base: nat)
    requires base >= 2
    ensures n == base * (n / base) + n % base && 2 * (n / base) <= n
  {
    var q := n / base;
    assert n == base * q + n % base;
    assert 2 * q <= base * q by { MulMonotone(2, base, q); }
  }

  /** int((n - d) / base): the exact quotient, rounded to a double. */
  function FloatQuotient(n: nat, base: nat): (r: nat)
    requires base >= 2
    ensures n > 0 ==> r < n
    ensures n / base <= EXACT ==> r == n / base
  {
    DivFacts(n, base);
    RoundToDouble(n / base)
  }

  function Digits(n: nat, base: nat): string
    requires 2 <= base <= ALPHABET_LENGTH
  {
    if n == 0 then "" else Digits(FloatQuotient(n, base), base) + [NumberToChar(n % base)]
  }

  lemma DigitsUnfold(n: nat, base: nat, tail: string)
    requires 2 <= base <= ALPHABET_LENGTH && n > 0
    ensures Digits(n, base) + tail == Digits(FloatQuotient(n, base), base) + ([NumberToChar(n % base)] + tail)
  {
    Regroup(Digits(FloatQuotient(n, base), base), NumberToChar(n % base), tail);
  }

  lemma Regroup(front: string, c: char, tail: string)
    ensures (front + [c]) + tail == front + ([c] + tail) && [c] + "" == [c]
  {
  }

  /** What encode_integer returns; None for a negative number, whose loop never runs. */
  function Encoded(n: int, base: nat): Option<string>
    requires 2 <= base <= ALPHABET_LENGTH
  {
    if n == 0 then Some("0") else if n < 0 then None else Some(Digits(n, base))
  }

  method EncodeInteger(n: int, base: nat) returns (result: Option<string>)
    requires 2 <= base <= ALPHABET_LENGTH
    ensures result == Encoded(n, base)
    ensures (n == 0 ==> result == Some("0")) && (n < 0 ==> result == None) && (n > 0 ==> result.Some?)
  {
    if n == 0 {
      return Some("0");
    }
    result := None;
    ghost var tail := "";
    var rest := n;
    while rest > 0
      invariant result == if tail == "" then None else Some(tail)
      invariant n > 0 ==> rest >= 0 && Digits(n, base) == Digits(rest, base) + tail
      invariant n < 0 ==> rest == n && tail == ""
      invariant n > 0 && rest == 0 ==> tail != ""
    {
      var d := rest % base;
      DigitsUnfold(rest, base, tail);
      Regroup("", NumberToChar(d), tail);
      result := Some(if result.Some? then [NumberToChar(d)] + result.value else [NumberToChar(d)]);
      tail := [NumberToChar(d)] + tail;
      rest := FloatQuotient(rest, base);
    }
    assert "" + tail == tail;
  }

  // ----- Decoding -----

  function Pow(base: nat, e: nat): nat {
    if e == 0 then 1 else base * Pow(base, e - 1)
  }

  predicate IsEncoded(s: string) {
    forall i :: 0 <= i < |s| ==> CharToNumber(s[i]).Some?
  }

  /** The number that the digits denote in the base. */
  function Value(s: string, base: nat): nat
    requires IsEncoded(s)
  {
    if s == "" then 0 else Value(s[..|s| - 1], base) * base + CharToNumber(s[|s| - 1]).value
  }

  /** decode_integer; the failure is the KeyError for a character outside the alphabet. */
  method DecodeInteger(s: string, base: nat) returns (r: Result<nat, char>)
    ensures r.Success? <==> IsEncoded(s)
    ensures r.Success? ==> r.value == Value(s, base)
  {
    var result := 0;
    var i: nat := |s|;
    while i > 0
      invariant 0 <= i <= |s|
      invariant IsEncoded(s[..|s| - i])
      invariant result == Value(s[..|s| - i], base) * Pow(base, i)
    {
      var c := s[|s| - i];
      var prefix := s[..|s| - i];
      i := i - 1;
      assert s[..|s| - i] == prefix + [c] && (prefix + [c])[..|prefix|] == prefix;
      var d := CharToNumber(c);
      if d.None? {
        return Failure(c);
      }
      PowStep(Value(prefix, base), d.value, base, i);
      result := result + Term(d.value, base, i);
    }
    assert s[..|s|] == s;
    return Success(result);
  }

  /** What one character adds. */
  function Term(d: nat, base: nat, i: nat): (r: nat)
    ensures r == d * Pow(base, i)
  {
    if i == 0 then d else if i == 1 then d * base else d * Pow(base, i)
  }

  lemma PowStep(v: nat, d: nat, base: nat, i: nat)
    ensures v * Pow(base, i + 1) + d * Pow(base, i) == (v * base + d) * Pow(base, i)
  {
    var p := Pow(base, i);
    assert v * (base * p) == (v * base) * p;
  }

  // ----- The round trip and its bound -----

  lemma {:induction false} DigitsEncoded(n: nat, base: nat)
    requires 2 <= base <= ALPHABET_LENGTH
    ensures IsEncoded(Digits(n, base))
    decreases n
  {
    if n > 0 {
      DigitsEncoded(FloatQuotient(n, base), base);
      AlphabetRoundTrip(n % base);
    }
  }

  lemma DigitsStep(n: nat, base: nat)
    requires 2 <= base <= ALPHABET_LENGTH && n > 0
    ensures IsEncoded(Digits(n, base)) && IsEncoded(Digits(FloatQuotient(n, base), base))
    ensures Value(Digits(n, base), base) == Value(Digits(FloatQuotient(n, base), base), base) * base + n % base
  {
    DigitsEncoded(n, base);
    DigitsEncoded(FloatQuotient(n, base), base);
    AlphabetRoundTrip(n % base);
    var front := Digits(FloatQuotient(n, base), base);
    assert Digits(n, base)[..|front|] == front;
  }

  lemma Recompose(v: nat, q: nat, base: nat, d: nat, n: nat)
    requires v == q && n == base * q + d
    ensures v * base + d == n
  {
  }

  lemma {:induction false} DigitsRoundTrip(n: nat, base: nat)
    requires 2 <= base <= ALPHABET_LENGTH && n / base <= EXACT
    ensures IsEncoded(Digits(n, base)) && Value(Digits(n, base), base) == n
    decreases n
  {
    if n > 0 {
      DivFacts(n, base);
      var q := FloatQuotient(n, base);
      DivFacts(q, base);
      DigitsRoundTrip(q, base);
      DigitsStep(n, base);
      Recompose(Value(Digits(q, base), base), n / base, base, n % base, n);
    }
  }

  /** The encoding of a positive number does not start with the digit 0. */
  lemma {:induction false} NoLeadingZero(n: nat, base: nat)
    requires 2 <= base <= ALPHABET_LENGTH && n > 0
    ensures Digits(n, base) != "" && Digits(n, base)[0] != '0'
    decreases n
  {
    DivFacts(n, base);
    var q := FloatQuotient(n, base);
    if q > 0 {
      NoLeadingZero(q, base);
    } else {
      QuotientZero(n / base);
      AlphabetRoundTrip(n % base);
    }
  }

  lemma QuotientZero(q: nat)
    requires RoundToDouble(q) == 0
    ensures q == 0
  {
  }

  /** Decoding gives back every number below base * (2^53 + 1). */
  lemma RoundTrip(n: nat, base: nat)
    requires 2 <= base <= ALPHABET_LENGTH && n < base * (EXACT + 1)
    ensures Encoded(n, base).Some? && IsEncoded(Encoded(n, base).value)
    ensures Value(Encoded(n, base).value, base) == n
  {
    if n == 0 {
      assert Value("0", base) == 0 by { assert "0"[..0] == ""; }
    } else {
      QuotientBound(n, base, EXACT + 1);
      DigitsRoundTrip(n, base);
    }
  }

  lemma QuotientBound(n: nat, base: nat, bound: nat)
    requires base >= 2 && n < base * bound
    ensures n / base < bound
  {
    DivFacts(n, base);
    if n / base >= bound {
      MulMonotone(bound, n / base, base);
    }
  }

  /** The bound cannot be raised: the first number above it decodes to a smaller one, because its quotient is not a
      double. */
  lemma FirstFailure(base: nat)
    requires 2 <= base <= ALPHABET_LENGTH
    ensures var n := base * (EXACT + 1);
            && IsEncoded(Digits(n, base)) && Encoded(n, base) == Some(Digits(n, base))
            && Value(Digits(n, base), base) == n - base
  {
    var n := base * (EXACT + 1);
    DivFacts(n, base);
    MulDiv(base, EXACT + 1);
    assert DoubleBelow(EXACT + 1) == EXACT && DoubleAbove(EXACT + 1) == EXACT + 2 &&
           Significand(EXACT + 1) == EXACT / 2;
    assert FloatQuotient(n, base) == EXACT;
    QuotientBound(EXACT, base, EXACT + 1);
    DigitsRoundTrip(EXACT, base);
    DigitsStep(n, base);
  }

  /** A number is decoded exactly when the float quotient is decoded to the exact one. */
  lemma RoundTripStep(n: nat, base: nat)
    requires 2 <= base <= ALPHABET_LENGTH && n > 0
    ensures IsEncoded(Digits(n, base)) && IsEncoded(Digits(FloatQuotient(n, base), base))
    ensures Value(Digits(n, base), base) == n <==> Value(Digits(FloatQuotient(n, base), base), base) == n / base
  {
    DigitsStep(n, base);
    DivFacts(n, base);
    SameProduct(Value(Digits(FloatQuotient(n, base), base), base), n / base, base);
  }

  lemma SameProduct(v: nat, q: nat, base: nat)
    requires base >= 2
    ensures v * base == base * q <==> v == q
  {
    assert v * base - base * q == base * (v - q);
    MulSign(base, v - q);
  }

  /** Up to where the quotient is below the bound: exactly the numbers whose quotient is a double are decoded. */
  lemma RoundTripExactly(n: nat, base: nat)
    requires 2 <= base <= ALPHABET_LENGTH && n > 0 && FloatQuotient(n, base) < base * (EXACT + 1)
    ensures IsEncoded(Digits(n, base))
    ensures Value(Digits(n, base), base) == n <==> RoundToDouble(n / base) == n / base
  {
    RoundTripStep(n, base);
    QuotientBound(FloatQuotient(n, base), base, EXACT + 1);
    DigitsRoundTrip(FloatQuotient(n, base), base);
  }

  lemma RoundsUp()
    ensures RoundToDouble(223216342557260886) == 223216342557260896
  {
    assert DoubleBelow(6975510704914402) == 6975510704914402;
    assert DoubleBelow(13951021409828805) == 13951021409828804;
    assert DoubleBelow(27902042819657610) == 27902042819657608;
    assert DoubleBelow(55804085639315221) == 55804085639315216;
    assert DoubleBelow(111608171278630443) == 111608171278630432;
    assert DoubleBelow(223216342557260886) == 223216342557260864;
    assert DoubleAbove(6975510704914403) == 6975510704914403;
    assert DoubleAbove(13951021409828806) == 13951021409828806;
    assert DoubleAbove(27902042819657611) == 27902042819657612;
    assert DoubleAbove(55804085639315222) == 55804085639315224;
    assert DoubleAbove(111608171278630443) == 111608171278630448;
    assert DoubleAbove(223216342557260886) == 223216342557260896;
  }

  lemma RoundsDown()
    ensures RoundToDouble(22321634255726089) == 22321634255726088
  {
    assert DoubleBelow(5580408563931522) == 5580408563931522;
    assert DoubleBelow(11160817127863044) == 11160817127863044;
    assert DoubleBelow(22321634255726089) == 22321634255726088;
    assert DoubleAbove(5580408563931523) == 5580408563931523;
    assert DoubleAbove(11160817127863045) == 11160817127863046;
    assert DoubleAbove(22321634255726089) == 22321634255726092;
  }

  /** Further on two roundings can cancel: this quotient is not a double, and yet the number is decoded. */
  lemma RoundingsCancel()
    ensures var n := 2_232_163_425_572_608_863;
            && RoundToDouble(n / 10) != n / 10
            && IsEncoded(Digits(n, 10)) && Value(Digits(n, 10), 10) == n
  {
    var n, q, d := 2_232_163_425_572_608_863, 223_216_342_557_260_886, 223_216_342_557_260_896;
    RoundsUp();
    RoundTripStep(n, 10);
    var r, e := 22_321_634_255_726_089, 22_321_634_255_726_088;
    RoundsDown();
    DigitsStep(d, 10);
    DigitsRoundTrip(e, 10);
  }

  /** Different numbers below the bound have different encodings. */
  lemma Injective(m: nat, n: nat, base: nat)
    requires 2 <= base <= ALPHABET_LENGTH && m < base * (EXACT + 1) && n < base * (EXACT + 1)
    requires Encoded(m, base) == Encoded(n, base)
    ensures m == n
  {
    RoundTrip(m, base);
    RoundTrip(n, base);
  }
}
