/**
 * The numeric text the editor deals with: Python's `int()` and `float()` on an
 * entry's text, and `str()` of an integer when an entry is filled from the blob.
 *
 * Both conversions ignore surrounding whitespace: the ASCII characters of C's
 * `isspace` (tab, line feed, vertical tab, form feed, carriage return and
 * space) and the non-ASCII characters Python's `str.isspace` accepts. The
 * ASCII separators U+001C to U+001F, which `str.isspace` also accepts, are
 * not stripped. The grammars of the stripped text are Python's
 * without `_` separators and with ASCII digits only:
 *   integer: sign? digit+
 *   float:   sign? (digit+ ('.' digit*)? | '.' digit+) (('e' | 'E') sign? digit+)?
 *          | sign? ('inf' | 'infinity' | 'nan'), in any letter case
 *
 * `int()` also refuses text with more than `MaxIntDigits` digits.
 */
module Numbers {
  import opened Wrappers

  predicate IsDigit(c: char)
  {
    '0' <= c <= '9'
  }

  predicate IsDigits(s: string)
  {
    |s| > 0 && forall i | 0 <= i < |s| :: IsDigit(s[i])
  }

  predicate IsSign(c: char)
  {
    c == '+' || c == '-'
  }

  /**
   * The whitespace `int()` and `float()` strip: C's `isspace` on ASCII, and
   * `str.isspace` beyond it, whose characters the conversions first turn into
   * a space.
   */
  predicate IsSpace(c: char)
  {
    var k := c as int;
    || k == 0x20 || 0x09 <= k <= 0x0D || k == 0x85 || k == 0xA0
    || k == 0x1680 || 0x2000 <= k <= 0x200A || k == 0x2028 || k == 0x2029
    || k == 0x202F || k == 0x205F || k == 0x3000
  }

  function TrimStart(s: string): (r: string)
    ensures |r| <= |s|
  {
    if s != [] && IsSpace(s[0]) then TrimStart(s[1..]) else s
  }

  function TrimEnd(s: string): (r: string)
    ensures |r| <= |s|
  {
    if s != [] && IsSpace(s[|s| - 1]) then TrimEnd(s[..|s| - 1]) else s
  }

  /** `s.strip()`: the text without leading and trailing whitespace. */
  function Strip(s: string): string
  {
    TrimEnd(TrimStart(s))
  }

  /** Text that neither starts nor ends with whitespace is its own stripped form. */
  lemma StripPlain(s: string)
    requires s != [] && !IsSpace(s[0]) && !IsSpace(s[|s| - 1])
    ensures Strip(s) == s
  {
  }

  /** The text after an optional leading sign. */
  function Unsigned(s: string): (r: string)
    ensures |r| <= |s|
  {
    if |s| > 0 && IsSign(s[0]) then s[1..] else s
  }

  function DigitValue(c: char): int
  {
    c as int - '0' as int
  }

  function DigitChar(d: nat): (c: char)
    requires d < 10
    ensures IsDigit(c) && DigitValue(c) == d
  {
    ('0' as int + d) as char
  }

  /** The value of a digit string read in base ten. */
  function DigitsValue(s: string): int
  {
    if s == [] then 0 else DigitsValue(s[..|s| - 1]) * 10 + DigitValue(s[|s| - 1])
  }

  /** Python's `int(s)`, None where it raises ValueError. */
  function ParseInt(s: string): Option<int>
  {
    var u := Strip(s);
    var t := Unsigned(u);
    if !IsIntText(s) || |t| > MaxIntDigits then None
    else if u[0] == '-' then Some(-DigitsValue(t))
    else Some(DigitsValue(t))
  }

  /**
   * The most digits `int()` converts from text: CPython (from 3.11, and the
   * security releases of 3.7 to 3.10) raises ValueError beyond its default
   * `sys.get_int_max_str_digits()`.
   */
  const MaxIntDigits := 4300

  /** `s` is written as an integer: sign? digit+ once stripped. */
  predicate IsIntText(s: string)
  {
    IsDigits(Unsigned(Strip(s)))
  }

  /**
   * The states of a scan of float text: after nothing, a sign, integer
   * digits, a dot with no digit yet, fraction digits (or digits and a dot),
   * the exponent mark, the exponent's sign, exponent digits.
   */
  datatype FloatState = Start | Signed | IntPart | BareDot | Fraction | ExpMark | ExpSigned | ExpDigits

  /** The states in which the text read so far is a complete float. */
  predicate Accepting(st: FloatState)
  {
    st == IntPart || st == Fraction || st == ExpDigits
  }

  /** The state after reading `c` in state `st`, None where `c` cannot follow. */
  function FloatStep(st: FloatState, c: char): Option<FloatState>
  {
    match st
    case Start | Signed =>
      if st == Start && IsSign(c) then Some(Signed)
      else if IsDigit(c) then Some(IntPart)
      else if c == '.' then Some(BareDot)
      else None
    case IntPart =>
      if IsDigit(c) then Some(IntPart)
      else if c == '.' then Some(Fraction)
      else if c == 'e' || c == 'E' then Some(ExpMark)
      else None
    case BareDot => if IsDigit(c) then Some(Fraction) else None
    case Fraction =>
      if IsDigit(c) then Some(Fraction)
      else if c == 'e' || c == 'E' then Some(ExpMark)
      else None
    case ExpMark =>
      if IsSign(c) then Some(ExpSigned) else if IsDigit(c) then Some(ExpDigits) else None
    case ExpSigned | ExpDigits => if IsDigit(c) then Some(ExpDigits) else None
  }

  /** The scan of `s` from state `st` ends in an accepting state. */
  predicate FloatScan(s: string, st: FloatState)
  {
    if s == [] then Accepting(st)
    else
      match FloatStep(st, s[0])
      case None => false
      case Some(next) => FloatScan(s[1..], next)
  }

  function LowerChar(c: char): char
  {
    if 'A' <= c <= 'Z' then (c as int + 32) as char else c
  }

  /** `s` with its ASCII capitals in lower case. */
  function Lower(s: string): (r: string)
    ensures |r| == |s|
  {
    if s == [] then [] else [LowerChar(s[0])] + Lower(s[1..])
  }

  /** The names of the special floats, which `float()` reads in any letter case. */
  predicate IsSpecialFloat(s: string)
  {
    Lower(s) in {"inf", "infinity", "nan"}
  }

  /** Python's `float(s)` succeeds (within the grammar above). */
  predicate IsFloatText(s: string)
  {
    var u := Strip(s);
    FloatScan(u, Start) || IsSpecialFloat(Unsigned(u))
  }

  /** Trimming the end of a text that does not start with whitespace keeps its first character. */
  lemma {:induction false} TrimEndKeepsHead(s: string)
    requires s != [] && !IsSpace(s[0])
    ensures TrimEnd(s) != [] && TrimEnd(s)[0] == s[0]
    decreases |s|
  {
    if IsSpace(s[|s| - 1]) {
      TrimEndKeepsHead(s[..|s| - 1]);
    }
  }

  /**
   * The ASCII separators U+001C to U+001F are not whitespace to the
   * conversions: any text that starts with one is refused by both `int()`
   * and `float()`.
   */
  lemma SeparatorsAreNotStripped(s: string)
    requires s != [] && 0x1C <= s[0] as int <= 0x1F
    ensures ParseInt(s) == None
    ensures !IsFloatText(s)
  {
    var u := Strip(s);
    assert TrimStart(s) == s;
    TrimEndKeepsHead(s);
    assert u[0] == s[0];
    assert Lower(u)[0] == u[0];
  }

  /** Python's `str(n)` for a non-negative integer: its decimal digits. */
  function NatToString(n: nat): (s: string)
    ensures |s| > 0
  {
    if n < 10 then [DigitChar(n)] else NatToString(n / 10) + [DigitChar(n % 10)]
  }

  /** Python's `str(n)` for an integer. */
  function IntToString(n: int): string
  {
    if n < 0 then "-" + NatToString(-n) else NatToString(n)
  }

  function Abs(n: int): nat
  {
    if n < 0 then -n else n
  }

  /** `n` has few enough digits for `int()` to read it back from text. */
  predicate WithinDigitLimit(n: int)
  {
    |NatToString(Abs(n))| <= MaxIntDigits
  }

  /** The decimal rendering consists of digits that read back as the number. */
  lemma {:induction false} NatToStringReadsBack(n: nat)
    ensures IsDigits(NatToString(n)) && DigitsValue(NatToString(n)) == n
  {
    if n >= 10 {
      NatToStringReadsBack(n / 10);
      var s := NatToString(n);
      assert s[..|s| - 1] == NatToString(n / 10);
      assert s[|s| - 1] == DigitChar(n % 10);
    }
  }

  /** `str(n)` is integer text whose digits are those of `|n|`. */
  lemma ShowIsIntText(n: int)
    ensures Strip(IntToString(n)) == IntToString(n)
    ensures Unsigned(IntToString(n)) == NatToString(Abs(n))
    ensures IsIntText(IntToString(n))
  {
    var s := IntToString(n);
    NatToStringReadsBack(Abs(n));
    if n < 0 {
      var d := NatToString(-n);
      assert s[|s| - 1] == d[|d| - 1];
      StripPlain(s);
      assert Unsigned(s) == d;
    } else {
      StripPlain(s);
      assert !IsSign(s[0]);
    }
  }

  /**
   * `int(str(n)) == n` for every `n` within the digit limit; beyond it the
   * conversion raises.
   */
  lemma ParseIntShow(n: int)
    ensures WithinDigitLimit(n) ==> ParseInt(IntToString(n)) == Some(n)
    ensures !WithinDigitLimit(n) ==> ParseInt(IntToString(n)) == None
  {
    ShowIsIntText(n);
    NatToStringReadsBack(Abs(n));
  }

  /** A digit string is at least as long as the decimal rendering of its value. */
  lemma {:induction false} DigitsLength(t: string)
    requires forall i | 0 <= i < |t| :: IsDigit(t[i])
    ensures DigitsValue(t) >= 0
    ensures t != [] ==> |NatToString(DigitsValue(t))| <= |t|
    decreases |t|
  {
    if t != [] {
      var u := t[..|t| - 1];
      DigitsLength(u);
      var v := DigitsValue(t);
      if v >= 10 {
        assert u != [];
        assert v / 10 == DigitsValue(u);
      }
    }
  }

  /** Every integer `int()` yields is one whose `str()` it can read back. */
  lemma ParseIntWithinLimit(s: string)
    requires ParseInt(s).Some?
    ensures WithinDigitLimit(ParseInt(s).value)
  {
    DigitsLength(Unsigned(Strip(s)));
  }

  /** Digits read after integer digits keep the scan in the integer part. */
  lemma {:induction false} DigitsScan(t: string)
    requires forall i | 0 <= i < |t| :: IsDigit(t[i])
    ensures FloatScan(t, IntPart)
  {
    if t != [] {
      DigitsScan(t[1..]);
    }
  }

  /**
   * Every text written as an integer is accepted by `float()`, which has no
   * digit limit; so is, in particular, every text `int()` accepts.
   */
  lemma IntTextIsFloatText(s: string)
    requires IsIntText(s)
    ensures IsFloatText(s)
  {
    var u := Strip(s);
    var t := Unsigned(u);
    DigitsScan(t[1..]);
    if IsSign(u[0]) {
      assert u[1..][1..] == t[1..];
    }
  }

  /** A lone sign, and the empty text, are neither integers nor floats. */
  lemma BareSignIsNotANumber(s: string)
    requires s == "" || s == "-" || s == "+"
    ensures ParseInt(s).None? && !IsFloatText(s)
  {
    if s != "" {
      StripPlain(s);
      assert FloatStep(Start, s[0]) == Some(Signed) && s[1..] == [];
      assert !FloatScan(s[1..], Signed);
      assert FloatScan(s, Start) == FloatScan(s[1..], Signed);
    }
  }
}
