/**
 * Characters, maximal runs of a character class, and the decimal literals that the
 * signal parser captures and converts with `int()` and `float()`.
 */
module Text {

  /** The character classes the signal patterns use (`\s`, `\d`, `[\d.]`, `\w`, `.`). */
  datatype CharClass = Space | Digit | DigitOrDot | Word | NotNewline

  /**
   * Python's white space, as `\s` in a text pattern and `str.strip()` see it: the
   * ASCII controls 9 to 13 and 28 to 31, the space, and the Unicode spaces and
   * separators (next line, no-break space, the ogham mark, the typographic spaces,
   * the line and paragraph separators, and the narrow, mathematical and ideographic spaces).
   */
  predicate IsSpace(c: char) {
    var n := c as int;
    || 9 <= n <= 13 || 28 <= n <= 32 || n == 0x85 || n == 0xA0 || n == 0x1680
    || 0x2000 <= n <= 0x200A || n == 0x2028 || n == 0x2029 || n == 0x202F || n == 0x205F || n == 0x3000
  }

  predicate IsDigit(c: char) {
    '0' <= c <= '9'
  }

  predicate IsLetter(c: char) {
    ('a' <= c <= 'z') || ('A' <= c <= 'Z')
  }

  predicate InClass(c: char, k: CharClass) {
    match k
    case Space => IsSpace(c)
    case Digit => IsDigit(c)
    case DigitOrDot => IsDigit(c) || c == '.'
    case Word => IsLetter(c) || IsDigit(c) || c == '_'
    case NotNewline => c != '\n'
  }

  predicate AllIn(s: seq<char>, k: CharClass) {
    forall i :: 0 <= i < |s| ==> InClass(s[i], k)
  }

  /** `lit` occurs in `text` starting at position `p`. */
  predicate HasAt(text: seq<char>, p: nat, lit: seq<char>) {
    p + |lit| <= |text| && text[p..p + |lit|] == lit
  }

  /**
   * The end of the longest run of class `k` starting at `p`: a greedy quantifier
   * such as `\s*` or `\d+` consumes exactly `text[p..q]`.
   */
  function Skip(text: seq<char>, p: nat, k: CharClass): (q: nat)
    requires p <= |text|
    ensures p <= q <= |text|
    ensures forall i :: p <= i < q ==> InClass(text[i], k)
    ensures q == |text| || !InClass(text[q], k)
    decreases |text| - p
  {
    if p == |text| || !InClass(text[p], k) then p else Skip(text, p + 1, k)
  }

  /** A greedy run never stops inside a prefix it fully covers, whatever follows. */
  lemma {:induction false} SkipOverRun(text: seq<char>, p: nat, q: nat, k: CharClass)
    requires p <= q <= |text|
    requires forall i :: p <= i < q ==> InClass(text[i], k)
    ensures Skip(text, p, k) == Skip(text, q, k)
    decreases q - p
  {
    if p < q {
      SkipOverRun(text, p + 1, q, k);
    }
  }

  /** A run of class `k` that ends at `q` (at the end of the text or before a character outside `k`) is what `Skip` consumes. */
  lemma SkipExact(text: seq<char>, p: nat, q: nat, k: CharClass)
    requires p <= q <= |text|
    requires forall i :: p <= i < q ==> InClass(text[i], k)
    requires q == |text| || !InClass(text[q], k)
    ensures Skip(text, p, k) == q
  {
    SkipOverRun(text, p, q, k);
  }

  /** Python's `str.strip()`: leading and trailing white space removed, the middle kept verbatim. */
  function Strip(s: seq<char>): (r: seq<char>)
    ensures exists i, j :: 0 <= i <= j <= |s| && r == s[i..j] && AllIn(s[..i], Space) && AllIn(s[j..], Space)
    ensures r != [] ==> !IsSpace(r[0]) && !IsSpace(r[|r| - 1])
    ensures AllIn(s, Space) <==> r == []
  {
    var i := Skip(s, 0, Space);
    var j := TrimEnd(s, i);
    assert AllIn(s[..i], Space) && AllIn(s[j..], Space);
    assert AllIn(s, Space) ==> i == |s|;
    s[i..j]
  }

  /** The end of `s` once trailing white space after position `i` is dropped. */
  function TrimEnd(s: seq<char>, i: nat): (j: nat)
    requires i <= |s|
    ensures i <= j <= |s|
    ensures forall k :: j <= k < |s| ==> IsSpace(s[k])
    ensures j > i ==> !IsSpace(s[j - 1])
    decreases |s| - i
  {
    if |s| == i then i
    else if IsSpace(s[|s| - 1]) then TrimEnd(s[..|s| - 1], i)
    else |s|
  }

  /** Number of occurrences of `c` in `s`. */
  function Count(s: seq<char>, c: char): nat {
    if s == [] then 0 else Count(s[..|s| - 1], c) + (if s[|s| - 1] == c then 1 else 0)
  }

  lemma {:induction false} CountZero(s: seq<char>, c: char)
    ensures Count(s, c) == 0 <==> forall i :: 0 <= i < |s| ==> s[i] != c
  {
    if s != [] {
      CountZero(s[..|s| - 1], c);
      assert forall i :: 0 <= i < |s| - 1 ==> s[..|s| - 1][i] == s[i];
    }
  }

  /** Number of decimal digits in `s`. */
  function DigitCount(s: seq<char>): nat {
    if s == [] then 0 else DigitCount(s[..|s| - 1]) + (if IsDigit(s[|s| - 1]) then 1 else 0)
  }

  /**
   * A run of digits and dots that Python's `float()` accepts: at most one dot and at
   * least one digit. `"."`, `".."` and `"1.2.3"` are not.
   */
  predicate IsFloatLiteral(s: seq<char>) {
    AllIn(s, DigitOrDot) && Count(s, '.') <= 1 && DigitCount(s) >= 1
  }

  /** The absolute value, as Python's `abs()` on a number. */
  function Abs(x: real): real {
    if x < 0.0 then -x else x
  }

  /** A float literal with an explicit sign in front, as the percentage column carries. */
  predicate IsSignedFloatLiteral(s: seq<char>) {
    |s| >= 1 && (s[0] == '+' || s[0] == '-') && IsFloatLiteral(s[1..])
  }

  function DigitValue(c: char): nat
    requires IsDigit(c)
  {
    (c as int - '0' as int) as nat
  }

  /** The value `int()` gives a run of decimal digits (the empty run gives 0). */
  function DigitsValue(s: seq<char>): nat
    requires AllIn(s, Digit)
  {
    if s == [] then 0 else DigitsValue(s[..|s| - 1]) * 10 + DigitValue(s[|s| - 1])
  }

  /** No digit of `s` is other than '0' (dots are ignored). */
  predicate AllZero(s: seq<char>) {
    forall i :: 0 <= i < |s| ==> s[i] == '0' || s[i] == '.'
  }

  /** A digit run is worth zero exactly when every digit in it is '0'. */
  lemma {:induction false} DigitsValueZero(s: seq<char>)
    requires AllIn(s, Digit)
    ensures DigitsValue(s) == 0 <==> AllZero(s)
  {
    if s != [] {
      DigitsValueZero(s[..|s| - 1]);
      assert forall i :: 0 <= i < |s| - 1 ==> s[..|s| - 1][i] == s[i];
    }
  }

  function Pow10(n: nat): (r: nat)
    ensures r >= 1
  {
    if n == 0 then 1 else 10 * Pow10(n - 1)
  }

  /** Position of the first `c` in `s`, or `|s|` when there is none. */
  function IndexOf(s: seq<char>, c: char): (d: nat)
    ensures d <= |s|
    ensures forall i :: 0 <= i < d ==> s[i] != c
    ensures d < |s| ==> s[d] == c
  {
    if s == [] then 0 else if s[0] == c then 0 else 1 + IndexOf(s[1..], c)
  }

  /** The digits of a float literal before its dot (all of them when there is no dot). */
  function WholeDigits(s: seq<char>): seq<char> {
    s[..IndexOf(s, '.')]
  }

  /** The digits of a float literal after its dot (none when there is no dot). */
  function FractionDigits(s: seq<char>): seq<char> {
    var d := IndexOf(s, '.');
    if d < |s| then s[d + 1..] else []
  }

  /** The digits of a float literal with its dot (if any) taken out. */
  function DropDot(s: seq<char>): seq<char> {
    WholeDigits(s) + FractionDigits(s)
  }

  /**
   * The exact value of a float literal: its digits read as one integer and scaled by
   * ten to the number of digits after the dot ("1." is 1, ".5" is one half).
   */
  function DecimalValue(s: seq<char>): (r: real)
    requires IsFloatLiteral(s)
    ensures r >= 0.0
    ensures r == 0.0 <==> AllZero(s)
  {
    DropDotDigits(s);
    DigitsValueZero(DropDot(s));
    var n := DigitsValue(DropDot(s)) as real;
    var scale := Pow10(|FractionDigits(s)|) as real;
    Quotient(n, scale);
    n / scale
  }

  lemma Quotient(n: real, scale: real)
    requires n >= 0.0 && scale >= 1.0
    ensures n / scale >= 0.0
    ensures n / scale == 0.0 <==> n == 0.0
  {
  }

  /** Taking the one dot out of a float literal leaves digits only, zero exactly when the literal is. */
  lemma DropDotDigits(s: seq<char>)
    requires IsFloatLiteral(s)
    ensures AllIn(DropDot(s), Digit)
    ensures AllZero(DropDot(s)) <==> AllZero(s)
  {
    var whole, frac := WholeDigits(s), FractionDigits(s);
    DotSplit(s);
    DigitsConcat(whole, frac);
    AllZeroConcat(whole, frac);
    if IndexOf(s, '.') < |s| {
      assert s == (whole + ['.']) + frac;
      AllZeroConcat(whole + ['.'], frac);
      AllZeroConcat(whole, ['.']);
    } else {
      assert s == whole;
    }
  }

  lemma AllZeroConcat(a: seq<char>, b: seq<char>)
    ensures AllZero(a + b) <==> AllZero(a) && AllZero(b)
  {
    assert forall i :: 0 <= i < |a| ==> (a + b)[i] == a[i];
    assert forall i :: 0 <= i < |b| ==> (a + b)[|a| + i] == b[i];
  }

  /** Counting over a split: the part before `d`, the character at `d`, and the rest. */
  lemma {:induction false} CountSplit(s: seq<char>, d: nat, c: char)
    requires d < |s| && s[d] == c
    requires forall i :: 0 <= i < d ==> s[i] != c
    ensures Count(s, c) == 1 + Count(s[d + 1..], c)
    decreases |s|
  {
    if |s| == d + 1 {
      CountZero(s[..d], c);
      assert s[..|s| - 1] == s[..d];
      assert s[d + 1..] == [];
    } else {
      var t := s[..|s| - 1];
      CountSplit(t, d, c);
      assert t[d + 1..] == s[d + 1..][..|s[d + 1..]| - 1];
    }
  }

  lemma DigitsConcat(a: seq<char>, b: seq<char>)
    requires AllIn(a, Digit) && AllIn(b, Digit)
    ensures AllIn(a + b, Digit)
  {
    assert forall i :: 0 <= i < |a + b| ==> (a + b)[i] == if i < |a| then a[i] else b[i - |a|];
  }

  lemma ShiftDigit(whole: nat, scale: nat, rest: nat, digit: nat)
    ensures (whole * scale + rest) * 10 + digit == whole * (10 * scale) + (rest * 10 + digit)
  {
  }

  /** Reading digits one after the other: the digits of `a` are worth `10^|b|` times more than those of `b`. */
  lemma {:induction false} DigitsValueAppend(a: seq<char>, b: seq<char>)
    requires AllIn(a, Digit) && AllIn(b, Digit)
    ensures AllIn(a + b, Digit)
    ensures DigitsValue(a + b) == DigitsValue(a) * Pow10(|b|) + DigitsValue(b)
    decreases |b|
  {
    DigitsConcat(a, b);
    if b != [] {
      var b' := b[..|b| - 1];
      var last := b[|b| - 1];
      assert (a + b)[..|a + b| - 1] == a + b';
      assert (a + b)[|a + b| - 1] == last;
      DigitsValueAppend(a, b');
      assert DigitsValue(a + b) == DigitsValue(a + b') * 10 + DigitValue(last);
      assert DigitsValue(b) == DigitsValue(b') * 10 + DigitValue(last);
      assert Pow10(|b|) == 10 * Pow10(|b'|);
      ShiftDigit(DigitsValue(a), Pow10(|b'|), DigitsValue(b'), DigitValue(last));
    } else {
      assert a + b == a;
    }
  }

  lemma CastSum(n: nat, w: nat, p: nat, f: nat)
    requires n == w * p + f
    ensures n as real == w as real * p as real + f as real
  {
  }

  lemma ScaleDown(n: real, w: real, f: real, p: real)
    requires p >= 1.0 && n == w * p + f
    ensures n / p == w + f / p
  {
  }

  /** `n = w*p + f` read as reals and divided by `p`. */
  lemma Shifted(n: nat, w: nat, p: nat, f: nat)
    requires p >= 1 && n == w * p + f
    ensures n as real / p as real == w as real + f as real / p as real
  {
    CastSum(n, w, p, f);
    ScaleDown(n as real, w as real, f as real, p as real);
  }

  /** Digits split around a dot: the value over `10^|frac|` is the whole part plus the fraction. */
  lemma DecimalFromParts(whole: seq<char>, frac: seq<char>)
    requires AllIn(whole, Digit) && AllIn(frac, Digit)
    ensures AllIn(whole + frac, Digit)
    ensures DigitsValue(whole + frac) as real / Pow10(|frac|) as real
            == DigitsValue(whole) as real + DigitsValue(frac) as real / Pow10(|frac|) as real
  {
    DigitsValueAppend(whole, frac);
    Shifted(DigitsValue(whole + frac), DigitsValue(whole), Pow10(|frac|), DigitsValue(frac));
  }

  /**
   * The value of a float literal read the usual way: the digits before the dot give the
   * whole part and the `n` digits after it add that number over `10^n`.
   */
  lemma DecimalValueParts(s: seq<char>)
    requires IsFloatLiteral(s)
    ensures AllIn(WholeDigits(s), Digit) && AllIn(FractionDigits(s), Digit)
    ensures DecimalValue(s)
            == DigitsValue(WholeDigits(s)) as real
               + DigitsValue(FractionDigits(s)) as real / Pow10(|FractionDigits(s)|) as real
  {
    DotSplit(s);
    DecimalFromParts(WholeDigits(s), FractionDigits(s));
  }

  /** Both sides of the dot of a float literal are digits only. */
  lemma DotSplit(s: seq<char>)
    requires IsFloatLiteral(s)
    ensures AllIn(WholeDigits(s), Digit) && AllIn(FractionDigits(s), Digit)
  {
    var d := IndexOf(s, '.');
    var whole, frac := WholeDigits(s), FractionDigits(s);
    assert forall i :: 0 <= i < |whole| ==> whole[i] == s[i];
    if d < |s| {
      CountSplit(s, d, '.');
      CountZero(frac, '.');
      assert forall i :: 0 <= i < |frac| ==> frac[i] == s[d + 1 + i];
    }
  }

  /** The entry price of the worked example, `0.0241`, is a float literal. */
  lemma FloatLiteralExample()
    ensures IsFloatLiteral("0.0241") && IndexOf("0.0241", '.') == 1
  {
    var s := "0.0241";
    assert s[..5] == "0.024" && "0.024"[..4] == "0.02" && "0.02"[..3] == "0.0";
    assert "0.0"[..2] == "0." && "0."[..1] == "0" && "0"[..0] == [];
    assert DigitCount("0.") == 1 && DigitCount("0.0") == 2 && DigitCount("0.02") == 3;
    assert Count("0.", '.') == 1 && Count("0.0", '.') == 1 && Count("0.02", '.') == 1;
  }

  /** Its digits after the dot read as the integer 241. */
  lemma FractionDigitsExample()
    ensures AllIn("0241", Digit) && DigitsValue("0241") == 241
  {
    assert "0241"[..3] == "024" && "024"[..2] == "02" && "02"[..1] == "0" && "0"[..0] == [];
    assert DigitsValue("0") == 0 && DigitsValue("02") == 2 && DigitsValue("024") == 24;
  }

  /** The entry price of the worked example, `0.0241`, is read exactly. */
  lemma DecimalValueExample()
    ensures IsFloatLiteral("0.0241") && DecimalValue("0.0241") == 0.0241
  {
    var s := "0.0241";
    FloatLiteralExample();
    FractionDigitsExample();
    DecimalValueParts(s);
    assert FractionDigits(s) == "0241" && WholeDigits(s) == "0";
    assert DigitsValue("0") == 0;
    assert Pow10(4) == 10000;
  }

  /** The value `float()` gives a signed literal. */
  function SignedValue(s: seq<char>): (r: real)
    requires IsSignedFloatLiteral(s)
    ensures s[0] == '+' ==> r >= 0.0
    ensures s[0] == '-' ==> r <= 0.0
    ensures Abs(r) == DecimalValue(s[1..])
  {
    var v := DecimalValue(s[1..]);
    if s[0] == '-' then -v else v
  }
}
