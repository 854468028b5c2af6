/** Byte strings, the ASCII helpers and the decimal notation every other module relies on. */
module Bytes {

  newtype byte = x: int | 0 <= x < 256

  type bytes = seq<byte>

  datatype Option<+T> = None | Some(value: T)

  const CR: byte := 13
  const LF: byte := 10
  const MINUS: byte := 45
  const ZERO: byte := 48
  const CRLF: bytes := [CR, LF]

  function UpperByte(b: byte): byte {
    if 97 <= b <= 122 then b - 32 else b
  }

  /** `bytes.upper()`: only ASCII letters change. */
  function Upper(raw: bytes): bytes {
    seq(|raw|, i requires 0 <= i < |raw| => UpperByte(raw[i]))
  }

  /** `raw` spells the upper-case word `word`, each letter in either case. */
  predicate Spells(raw: bytes, word: string) {
    |raw| == |word| && forall i :: 0 <= i < |raw| ==>
      raw[i] as int == word[i] as int || raw[i] as int == word[i] as int + 32
  }

  lemma UpperSpells(raw: bytes, word: string)
    requires forall i :: 0 <= i < |word| ==> 'A' <= word[i] <= 'Z'
    ensures Upper(raw) == Ascii(word) <==> Spells(raw, word)
  {
    if Upper(raw) == Ascii(word) {
      forall i | 0 <= i < |raw| ensures raw[i] as int == word[i] as int || raw[i] as int == word[i] as int + 32 {
        assert Upper(raw)[i] == Ascii(word)[i];
      }
    }
    if Spells(raw, word) {
      forall i | 0 <= i < |raw| ensures Upper(raw)[i] == Ascii(word)[i] { }
      assert |Upper(raw)| == |Ascii(word)|;
    }
  }

  /** The text of an error message as bytes; every message of the program is ASCII. */
  function Ascii(text: string): bytes {
    seq(|text|, i requires 0 <= i < |text| => if text[i] as int < 128 then text[i] as int as byte else 63)
  }

  // -- Sequences without repetition ----------------------------------------

  ghost predicate NoDup<T>(xs: seq<T>) {
    forall i, j :: 0 <= i < j < |xs| ==> xs[i] != xs[j]
  }

  function Elements<T>(xs: seq<T>): set<T> {
    set x | x in xs
  }

  lemma NoElements<T>(xs: seq<T>)
    requires |xs| == 0
    ensures Elements(xs) == {}
  {
  }

  lemma ElementsOfCons<T>(xs: seq<T>)
    requires |xs| > 0
    ensures Elements(xs) == {xs[0]} + Elements(xs[1..])
  {
    assert xs == [xs[0]] + xs[1..];
  }

  lemma NoDupPop<T>(xs: seq<T>)
    requires NoDup(xs) && |xs| > 0
    ensures NoDup(xs[..|xs| - 1]) && xs[|xs| - 1] !in xs[..|xs| - 1]
  {
  }

  lemma NoDupAppend<T>(xs: seq<T>, x: T)
    requires NoDup(xs) && x !in xs
    ensures NoDup(xs + [x])
  {
  }

  lemma {:induction false} CardinalityOfNoDup<T>(xs: seq<T>)
    requires NoDup(xs)
    ensures |Elements(xs)| == |xs|
  {
    if |xs| == 0 {
    } else {
      var rest := xs[..|xs| - 1];
      CardinalityOfNoDup(rest);
      var last := xs[|xs| - 1];
      assert xs == rest + [last];
      assert last !in Elements(rest);
      assert Elements(xs) == Elements(rest) + {last};
    }
  }

  // -- Decimal notation ----------------------------------------------------

  predicate IsDigit(b: byte) {
    48 <= b <= 57
  }

  /** `bytes.isdigit()` without its demand that there be at least one byte. */
  predicate AllDigits(raw: bytes) {
    forall i :: 0 <= i < |raw| ==> IsDigit(raw[i])
  }

  /** The decimal digits of `n`, as `b"%d" % n` prints a natural number. */
  function Digits(n: nat): (r: bytes)
    ensures |r| > 0 && AllDigits(r)
    ensures r[0] == ZERO <==> n == 0
    ensures n < 10 <==> |r| == 1
  {
    if n < 10 then [(48 + n) as byte] else Digits(n / 10) + [(48 + n % 10) as byte]
  }

  /** The number a run of digits denotes, leading zeros included; the empty run is 0. */
  function DigitsValue(raw: bytes): nat
    requires AllDigits(raw)
  {
    if |raw| == 0 then 0
    else DigitsValue(raw[..|raw| - 1]) * 10 + (raw[|raw| - 1] as int - 48)
  }

  lemma {:induction false} DigitsRoundTrip(n: nat)
    ensures DigitsValue(Digits(n)) == n
  {
    var d := Digits(n);
    if n < 10 {
      assert d[..0] == [];
    } else {
      DigitsRoundTrip(n / 10);
      assert d[..|d| - 1] == Digits(n / 10);
    }
  }

  /** Digits without a superfluous leading zero are the only spelling of their number. */
  lemma {:induction false} DigitsCanonical(raw: bytes)
    requires |raw| > 0 && AllDigits(raw)
    requires raw[0] != ZERO || |raw| == 1
    ensures Digits(DigitsValue(raw)) == raw
    ensures raw[0] != ZERO ==> DigitsValue(raw) > 0
  {
    var front, last := raw[..|raw| - 1], raw[|raw| - 1] as int - 48;
    if |raw| == 1 {
      assert front == [];
    } else {
      DigitsCanonical(front);
      var v := DigitsValue(front);
      assert DigitsValue(raw) == v * 10 + last;
      assert (v * 10 + last) / 10 == v && (v * 10 + last) % 10 == last;
      assert raw == front + [raw[|raw| - 1]];
    }
  }

  /** `str(n).encode("ascii")`. */
  function Render(n: int): (r: bytes)
    ensures |r| > 0
    ensures r[0] == MINUS <==> n < 0
  {
    if n < 0 then [MINUS] + Digits(-n) else Digits(n)
  }

  /** An optional '-', then ASCII digits and nothing else: how lengths and deadlines are read. */
  function ParseCount(raw: bytes): Option<int> {
    var negative := |raw| > 0 && raw[0] == MINUS;
    var digits := if negative then raw[1..] else raw;
    if |digits| == 0 || !AllDigits(digits) then None
    else
      var magnitude: int := DigitsValue(digits);
      Some(if negative then -magnitude else magnitude)
  }

  lemma ParseCountOfDigits(digits: bytes)
    requires |digits| > 0 && AllDigits(digits)
    ensures ParseCount(digits) == Some(DigitsValue(digits))
    ensures ParseCount([MINUS] + digits) == Some(-(DigitsValue(digits) as int))
  {
    var signed := [MINUS] + digits;
    assert signed[0] == MINUS && signed[1..] == digits;
    assert IsDigit(digits[0]);
  }

  lemma ParseCountRender(n: int)
    ensures ParseCount(Render(n)) == Some(n)
  {
    var digits := Digits(if n < 0 then -n else n);
    ParseCountOfDigits(digits);
    DigitsRoundTrip(if n < 0 then -n else n);
  }

  /** An optional '-' and then digits, of which there must be one. */
  predicate IsCount(raw: bytes) {
    var first := if |raw| > 0 && raw[0] == 45 then 1 else 0;
    |raw| > first && forall i :: first <= i < |raw| ==> 48 <= raw[i] <= 57
  }

  lemma DigitsAreACount(raw: bytes, digits: bytes)
    requires (raw == digits && (|raw| == 0 || raw[0] != 45)) || raw == [45] + digits
    ensures IsCount(raw) <==> |digits| > 0 && AllDigits(digits)
  {
    var first := |raw| - |digits|;
    assert forall i :: 0 <= i < |digits| ==> digits[i] == raw[first + i];
    assert forall i :: first <= i < |raw| ==> raw[i] == digits[i - first];
  }

  /** A count is read exactly when it is spelled as one, and a leading zero does not matter. */
  lemma CountsAreSpelled(raw: bytes)
    ensures ParseCount(raw).Some? <==> IsCount(raw)
    ensures IsCount(raw) && raw[0] != 45 ==> ParseCount([48] + raw) == ParseCount(raw)
    ensures IsCount(raw) && raw[0] == 45 ==> ParseCount([45, 48] + raw[1..]) == ParseCount(raw)
  {
    hide IsCount;
    var digits := if |raw| > 0 && raw[0] == MINUS then raw[1..] else raw;
    DigitsAreACount(raw, digits);
    if |digits| > 0 && AllDigits(digits) {
      hide AllDigits, ParseCount;
      LeadingZero(digits);
      ParseCountOfDigits(digits);
      ParseCountOfDigits([48] + digits);
      assert [45, 48] + digits == [MINUS] + ([48] + digits);
    }
  }

  lemma {:induction false} LeadingZero(digits: bytes)
    requires AllDigits(digits)
    ensures AllDigits([48] + digits) && DigitsValue([48] + digits) == DigitsValue(digits)
  {
    var padded := [48] + digits;
    if |digits| == 0 {
      assert padded[..0] == [];
    } else {
      LeadingZero(digits[..|digits| - 1]);
      assert padded[..|padded| - 1] == [48] + digits[..|digits| - 1];
    }
  }

  lemma RenderHasNoCr(n: int)
    ensures CR !in Render(n)
  {
  }

  // -- Canonical 64-bit integers -------------------------------------------

  const INT64_MIN: int := -0x8000_0000_0000_0000
  const INT64_MAX: int := 0x7fff_ffff_ffff_ffff

  /** The language of the regular expression `0|-?[1-9][0-9]*`. */
  predicate IsCanonicalInteger(raw: bytes) {
    var digits := if |raw| > 0 && raw[0] == MINUS then raw[1..] else raw;
    raw == [ZERO] || (|digits| > 0 && digits[0] != ZERO && AllDigits(digits))
  }

  /** `parse_int`: `None` stands for `NotAnIntegerError`. */
  function ParseInt(raw: bytes): Option<int> {
    if !IsCanonicalInteger(raw) then None
    else
      var parsed := ParseCount(raw);
      if parsed.Some? && INT64_MIN <= parsed.value <= INT64_MAX then parsed else None
  }

  /** A canonical spelling is the rendering of the number it denotes. */
  lemma CanonicalIsRendering(raw: bytes)
    requires IsCanonicalInteger(raw)
    ensures ParseCount(raw).Some? && raw == Render(ParseCount(raw).value)
  {
    hide Digits, DigitsValue, ParseCount;
    if raw == [ZERO] {
      ParseCountOfDigits(raw);
      DigitsCanonical(raw);
    } else if raw[0] == MINUS {
      assert raw == [MINUS] + raw[1..];
      ParseCountOfDigits(raw[1..]);
      DigitsCanonical(raw[1..]);
    } else {
      ParseCountOfDigits(raw);
      DigitsCanonical(raw);
    }
  }

  lemma RenderingIsCanonical(n: int)
    ensures IsCanonicalInteger(Render(n))
  {
    var digits := Digits(if n < 0 then -n else n);
    if n < 0 {
      assert ([MINUS] + digits)[1..] == digits;
    }
    if n == 0 {
      assert digits == [ZERO];
    }
  }

  /** `parse_int` accepts exactly the renderings of the signed 64-bit integers, and inverts them. */
  lemma ParseIntInvertsRender(raw: bytes, n: int)
    ensures ParseInt(raw) == Some(n)
       <==> -9_223_372_036_854_775_808 <= n <= 9_223_372_036_854_775_807 && raw == Render(n)
  {
    hide Render, IsCanonicalInteger, ParseCount;
    ParseCountRender(n);
    RenderingIsCanonical(n);
    if IsCanonicalInteger(raw) {
      CanonicalIsRendering(raw);
    }
  }
}
