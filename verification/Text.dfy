/** Byte strings, and the few standard-library string operations the source relies on.

    A text is a sequence of bytes; each byte is written as the character with that code.
    Every separator the protocol looks for is ASCII, so working on bytes and working on
    UTF-8 characters find the same positions. */
module Text {

  type Bytes = seq<char>

  datatype Option<+T> = None | Some(value: T)

  datatype Result<+T, +E> = Ok(value: T) | Err(error: E) {
    predicate IsFailure() {
      Err?
    }

    function PropagateFailure<U>(): Result<U, E>
      requires Err?
    {
      Err(error)
    }

    function Extract(): T
      requires Ok?
    {
      value
    }
  }

  /** Position of the first `c`, or the length when there is none. */
  function IndexOf(s: Bytes, c: char): (i: nat)
    ensures i <= |s|
    ensures i < |s| ==> s[i] == c
    ensures forall k :: 0 <= k < i ==> s[k] != c
  {
    if s == [] || s[0] == c then 0 else 1 + IndexOf(s[1..], c)
  }

  lemma IndexOfAfter(p: Bytes, c: char, rest: Bytes)
    requires c !in p
    ensures IndexOf(p + [c] + rest, c) == |p|
  {
    var s := p + [c] + rest;
    assert s[|p|] == c;
    assert forall k :: 0 <= k < |p| ==> s[k] == p[k];
  }

  /** `str::split_once` with a one-byte separator. */
  function SplitOnce(s: Bytes, c: char): (r: Option<(Bytes, Bytes)>)
    ensures r.None? <==> c !in s
    ensures r.Some? ==> s == r.value.0 + [c] + r.value.1 && c !in r.value.0
  {
    var i := IndexOf(s, c);
    if i == |s| then None else Some((s[..i], s[i + 1..]))
  }

  lemma SplitOnceJoined(p: Bytes, c: char, rest: Bytes)
    requires c !in p
    ensures SplitOnce(p + [c] + rest, c) == Some((p, rest))
  {
    IndexOfAfter(p, c, rest);
    var s := p + [c] + rest;
    assert s[..|p|] == p && s[|p| + 1..] == rest;
  }

  /** `str::strip_prefix`. */
  function StripPrefix(s: Bytes, prefix: Bytes): (r: Option<Bytes>)
    ensures r.Some? <==> prefix <= s
    ensures r.Some? ==> s == prefix + r.value
  {
    if prefix <= s then Some(s[|prefix|..]) else None
  }

  function Last(s: Bytes): char
    requires s != []
  {
    s[|s| - 1]
  }

  lemma Assoc(a: Bytes, b: Bytes, c: Bytes)
    ensures a + b + c == a + (b + c)
  {
  }

  lemma Reslice(s: Bytes, i: nat, n: nat)
    requires i + n <= |s|
    ensures s[i..][..n] == s[i..i + n] && s[i..][n..] == s[i + n..]
  {
  }

  // ── Decimal numbers ────────────────────────────────────────────────────────

  predicate IsDigit(c: char) {
    '0' <= c <= '9'
  }

  predicate AllDigits(s: Bytes) {
    forall i :: 0 <= i < |s| ==> IsDigit(s[i])
  }

  function DigitValue(c: char): (d: nat)
    requires IsDigit(c)
    ensures d < 10
  {
    c as int - '0' as int
  }

  function DigitChar(d: nat): (c: char)
    requires d < 10
    ensures IsDigit(c) && DigitValue(c) == d
  {
    (d + '0' as int) as char
  }

  function DecimalValue(s: Bytes): nat
    requires AllDigits(s)
  {
    if s == [] then 0 else 10 * DecimalValue(s[..|s| - 1]) + DigitValue(Last(s))
  }

  /** Rust's decimal `Display` of an unsigned integer. */
  function Decimal(n: nat): (s: Bytes)
    ensures s != [] && AllDigits(s)
    ensures DecimalValue(s) == n
  {
    if n < 10 then
      var s := [DigitChar(n)];
      assert s[..|s| - 1] == [];
      s
    else
      var s := Decimal(n / 10) + [DigitChar(n % 10)];
      assert s[..|s| - 1] == Decimal(n / 10);
      s
  }

  function Pow10(k: nat): (r: nat)
    ensures r >= 1
  {
    if k == 0 then 1 else 10 * Pow10(k - 1)
  }

  /** A number below 10^k prints with at most k digits. */
  lemma {:induction false} DecimalLength(n: nat, k: nat)
    requires k >= 1 && n < Pow10(k)
    ensures |Decimal(n)| <= k
  {
    if n >= 10 {
      DecimalLength(n / 10, k - 1);
    }
  }

  /** A numeral never prints longer than any digit string with the same value. */
  lemma {:induction false} DecimalShortest(s: Bytes)
    requires s != [] && AllDigits(s)
    ensures |Decimal(DecimalValue(s))| <= |s|
  {
    var init := s[..|s| - 1];
    var n := DecimalValue(s);
    if n >= 10 {
      assert n / 10 == DecimalValue(init);
      assert init != [];
      DecimalShortest(init);
    }
  }

  /** Left-pad with zeros to a minimum width. */
  function ZeroPad(s: Bytes, width: nat): (r: Bytes)
    decreases width - |s|
  {
    if |s| >= width then s else ZeroPad(['0'] + s, width)
  }

  lemma {:induction false} LeadingZero(s: Bytes)
    requires AllDigits(s)
    ensures AllDigits(['0'] + s) && DecimalValue(['0'] + s) == DecimalValue(s)
  {
    var z := ['0'] + s;
    if s == [] {
      assert z[..|z| - 1] == [];
    } else {
      assert z[..|z| - 1] == ['0'] + s[..|s| - 1];
      LeadingZero(s[..|s| - 1]);
    }
  }

  lemma {:induction false} ZeroPadValue(s: Bytes, width: nat)
    requires AllDigits(s)
    ensures AllDigits(ZeroPad(s, width)) && DecimalValue(ZeroPad(s, width)) == DecimalValue(s)
    ensures |ZeroPad(s, width)| == if |s| >= width then |s| else width
    decreases width - |s|
  {
    if |s| < width {
      LeadingZero(s);
      ZeroPadValue(['0'] + s, width);
    }
  }

  lemma {:induction false} ZeroPadOuter(s: Bytes, width: nat)
    requires |s| < width
    ensures ZeroPad(s, width) == ['0'] + ZeroPad(s, width - 1)
    decreases width - |s|
  {
    if |s| + 1 < width {
      ZeroPadOuter(['0'] + s, width);
    }
  }

  /** A digit string without leading zeros is the numeral of its value. */
  lemma {:induction false} NumeralOfValue(s: Bytes)
    requires s != [] && AllDigits(s) && (|s| == 1 || s[0] != '0')
    ensures Decimal(DecimalValue(s)) == s
  {
    var init := s[..|s| - 1];
    assert s == init + [Last(s)];
    if |s| > 1 {
      NumeralOfValue(init);
      assert DecimalValue(init) >= 1 by {
        assert DecimalValue(init) == 0 ==> init == "0";
      }
    }
  }

  /** A digit string is the numeral of its value with leading zeros. */
  lemma {:induction false} DigitsArePadded(s: Bytes)
    requires s != [] && AllDigits(s)
    ensures s == ZeroPad(Decimal(DecimalValue(s)), |s|)
  {
    if |s| == 1 || s[0] != '0' {
      NumeralOfValue(s);
    } else {
      var t := s[1..];
      assert s == ['0'] + t;
      LeadingZero(t);
      DecimalShortest(t);
      DigitsArePadded(t);
      ZeroPadOuter(Decimal(DecimalValue(t)), |s|);
    }
  }

  const U32_MAX: nat := 0xFFFF_FFFF

  const USIZE_MAX: nat := 0xFFFF_FFFF_FFFF_FFFF

  /** `str::parse` for an unsigned integer type with maximum `max`: one leading `+` and
      leading zeros are allowed, everything else must be digits, and overflow is an error. */
  function ParseUnsigned(s: Bytes, max: nat): (r: Option<nat>)
    ensures r.Some? ==> r.value <= max && |Decimal(r.value)| <= |s|
    ensures r.Some? ==> forall i :: 0 <= i < |s| ==> IsDigit(s[i]) || s[i] == '+'
  {
    var digits := if s != [] && s[0] == '+' then s[1..] else s;
    if digits == [] || !AllDigits(digits) || DecimalValue(digits) > max then None
    else
      DecimalShortest(digits);
      Some(DecimalValue(digits))
  }

  /** The numeral of `n`, padded with zeros, after a `+` or not. */
  function NumberText(n: nat, plus: bool, width: nat): Bytes {
    (if plus then "+" else "") + ZeroPad(Decimal(n), width)
  }

  ghost predicate IsNumeral(s: Bytes, n: nat) {
    exists plus, width :: s == NumberText(n, plus, width)
  }

  /** A number is parsed from exactly its numeral, with or without one `+` and leading zeros. */
  lemma ParseUnsignedExactly(s: Bytes, max: nat, n: nat)
    ensures ParseUnsigned(s, max) == Some(n) <==> n <= max && IsNumeral(s, n)
  {
    hide Decimal, ZeroPad, DecimalValue;
    if ParseUnsigned(s, max) == Some(n) {
      var plus := s[0] == '+';
      var digits := if plus then s[1..] else s;
      DigitsArePadded(digits);
      assert s == NumberText(n, plus, |digits|);
    }
    if plus, width :| n <= max && s == NumberText(n, plus, width) {
      ZeroPadValue(Decimal(n), width);
      var digits := ZeroPad(Decimal(n), width);
      assert s == if plus then ['+'] + digits else digits;
    }
  }

  lemma ParseDecimal(n: nat, max: nat)
    requires n <= max
    ensures ParseUnsigned(Decimal(n), max) == Some(n)
  {
    assert Decimal(n)[0] != '+';
  }

  lemma DecimalOfUsize(n: nat)
    requires n <= USIZE_MAX
    ensures |Decimal(n)| <= 20
  {
    assert Pow10(20) == 100_000_000_000_000_000_000 by {
      assert Pow10(5) == 100_000;
      assert Pow10(10) == 10_000_000_000;
      assert Pow10(15) == 1_000_000_000_000_000;
    }
    DecimalLength(n, 20);
  }
}
