/** The TIMESTAMP recogniser of section 6.2.3 of RFC 5424, with second 60 admitted. */
module Timestamp {
  import opened Text

  function TwoDigits(s: Bytes): (n: nat)
    requires |s| == 2 && AllDigits(s)
    ensures n < 100
  {
    DigitValue(s[0]) * 10 + DigitValue(s[1])
  }

  // ── The grammar ────────────────────────────────────────────────────────────

  /** Two digits whose value lies in `lo..=hi`. */
  predicate TwoDigitsIn(s: Bytes, lo: nat, hi: nat) {
    |s| == 2 && AllDigits(s) && lo <= TwoDigits(s) <= hi
  }

  predicate FullDate(s: Bytes) {
    && |s| == 10
    && AllDigits(s[..4]) && s[4] == '-'
    && TwoDigitsIn(s[5..7], 1, 12) && s[7] == '-'
    && TwoDigitsIn(s[8..], 1, 31)
  }

  predicate PartialTime(s: Bytes) {
    && |s| == 8
    && TwoDigitsIn(s[..2], 0, 23) && s[2] == ':'
    && TwoDigitsIn(s[3..5], 0, 59) && s[5] == ':'
    && TwoDigitsIn(s[6..], 0, 60)
  }

  /** Empty, or a dot and one to six digits. */
  predicate Fraction(s: Bytes) {
    s == [] || (2 <= |s| <= 7 && s[0] == '.' && AllDigits(s[1..]))
  }

  /** `Z`, or a signed `hh:mm` offset. */
  predicate Zone(s: Bytes) {
    || s == "Z"
    || (&& |s| == 6 && (s[0] == '+' || s[0] == '-')
        && TwoDigitsIn(s[1..3], 0, 23) && s[3] == ':' && TwoDigitsIn(s[4..], 0, 59))
  }

  /** date `T` time fraction zone, split `k` bytes after the seconds. */
  predicate SplitsAt(s: Bytes, k: nat) {
    && 19 + k <= |s|
    && FullDate(s[..10]) && s[10] == 'T' && PartialTime(s[11..19])
    && Fraction(s[19..19 + k]) && Zone(s[19 + k..])
  }

  predicate IsTimestamp(s: Bytes) {
    exists k: nat | k <= 7 :: SplitsAt(s, k)
  }

  // ── The recogniser ─────────────────────────────────────────────────────────

  /** The structural test and the range tests on the first nineteen bytes. */
  method CheckDateTime(b: Bytes) returns (ok: bool)
    requires |b| >= 20
    ensures ok <==> FullDate(b[..10]) && b[10] == 'T' && PartialTime(b[11..19])
  {
    var d, t := b[..10], b[11..19];
    assert d[..4] == b[..4] && d[5..7] == b[5..7] && d[8..] == b[8..10];
    assert t[..2] == b[11..13] && t[3..5] == b[14..16] && t[6..] == b[17..19];
    if !AllDigits(b[..4]) || b[4] != '-' || !AllDigits(b[5..7]) || b[7] != '-' || !AllDigits(b[8..10])
       || b[10] != 'T'
       || !AllDigits(b[11..13]) || b[13] != ':' || !AllDigits(b[14..16]) || b[16] != ':' || !AllDigits(b[17..19]) {
      return false;
    }
    var month, day := TwoDigits(b[5..7]), TwoDigits(b[8..10]);
    var hour, minute, second := TwoDigits(b[11..13]), TwoDigits(b[14..16]), TwoDigits(b[17..19]);
    if !(1 <= month <= 12) {
      return false;
    }
    if !(1 <= day <= 31) {
      return false;
    }
    if hour > 23 {
      return false;
    }
    if minute > 59 {
      return false;
    }
    if second > 60 {
      return false;
    }
    return true;
  }

  /** The zone test at the cursor, including the check that nothing follows. */
  method CheckZone(b: Bytes, start: nat) returns (ok: bool)
    requires start <= |b|
    ensures ok <==> Zone(b[start..])
  {
    var z := b[start..];
    var pos := start;
    if pos >= |b| {
      return false;
    }
    if b[pos] == 'Z' {
      pos := pos + 1;
    } else if b[pos] == '+' || b[pos] == '-' {
      pos := pos + 1;
      if pos + 5 > |b| {
        return false;
      }
      assert z[1..3] == b[pos..pos + 2];
      assert |z| == 6 ==> z[4..] == b[pos + 3..pos + 5];
      if !AllDigits(b[pos..pos + 2]) || b[pos + 2] != ':' || !AllDigits(b[pos + 3..pos + 5]) {
        return false;
      }
      var tzHour, tzMin := TwoDigits(b[pos..pos + 2]), TwoDigits(b[pos + 3..pos + 5]);
      if tzHour > 23 || tzMin > 59 {
        return false;
      }
      pos := pos + 5;
    } else {
      return false;
    }
    return pos == |b|;
  }

  /** A valid split puts the zone where the digit run after the dot stops. */
  lemma SplitIsMaximal(b: Bytes, k: nat, pos: nat)
    requires |b| >= 20 && b[19] == '.' && SplitsAt(b, k)
    requires 20 <= pos <= |b| && AllDigits(b[20..pos])
    requires pos == |b| || !IsDigit(b[pos])
    ensures pos == 19 + k
  {
    var f, z := b[19..19 + k], b[19 + k..];
    assert z[0] == b[19 + k];
    assert forall j :: 20 <= j < 19 + k ==> b[j] == f[1..][j - 20];
    assert forall j :: 20 <= j < pos ==> b[j] == b[20..pos][j - 20];
    assert !IsDigit(b[19 + k]) && b[19 + k] != '.';
  }

  /** The fraction test: where the zone must start, or nothing when the fraction is malformed. */
  method ScanFraction(b: Bytes) returns (end: Option<nat>)
    requires |b| >= 20
    ensures end.Some? ==> 19 <= end.value <= 26 && end.value <= |b| && Fraction(b[19..end.value])
    ensures forall k: nat :: k <= 7 && SplitsAt(b, k) ==> end == Some(19 + k)
  {
    var pos := 19;
    if b[pos] == '.' {
      pos := pos + 1;
      var fracStart := pos;
      while pos < |b| && IsDigit(b[pos])
        invariant fracStart <= pos <= |b|
        invariant AllDigits(b[fracStart..pos])
      {
        assert b[fracStart..pos + 1] == b[fracStart..pos] + [b[pos]];
        pos := pos + 1;
      }
      forall k: nat | k <= 7 && SplitsAt(b, k)
        ensures pos == 19 + k
      {
        SplitIsMaximal(b, k, pos);
      }
      var fracLen := pos - fracStart;
      if !(1 <= fracLen <= 6) {
        return None;
      }
      assert b[19..pos][1..] == b[fracStart..pos];
      return Some(pos);
    }
    assert forall k: nat :: k <= 7 && SplitsAt(b, k) ==> Fraction(b[19..19 + k]);
    return Some(pos);
  }

  /** `validate_timestamp`: the cursor-based recogniser accepts exactly the grammar. */
  method ValidateTimestamp(b: Bytes) returns (ok: bool)
    ensures ok <==> IsTimestamp(b)
  {
    if |b| < 20 {
      return false;
    }
    var head := CheckDateTime(b);
    if !head {
      return false;
    }
    var end := ScanFraction(b);
    if end.None? {
      return false;
    }
    ok := CheckZone(b, end.value);
    if ok {
      assert SplitsAt(b, end.value - 19);
    }
  }

  // ── Consequences used by the message parser ────────────────────────────────

  lemma DateHasNoSpace(d: Bytes)
    requires FullDate(d)
    ensures ' ' !in d
  {
    assert d == d[..4] + [d[4]] + d[5..7] + [d[7]] + d[8..];
  }

  lemma TimeHasNoSpace(t: Bytes)
    requires PartialTime(t)
    ensures ' ' !in t
  {
    assert t == t[..2] + [t[2]] + t[3..5] + [t[5]] + t[6..];
  }

  lemma ZoneHasNoSpace(z: Bytes)
    requires Zone(z)
    ensures ' ' !in z
  {
    assert z == "Z" || z == [z[0]] + z[1..3] + [z[3]] + z[4..];
  }

  lemma FractionHasNoSpace(f: Bytes)
    requires Fraction(f)
    ensures ' ' !in f
  {
    assert f == [] || f == ['.'] + f[1..];
  }

  lemma TimestampHasNoSpace(s: Bytes)
    requires IsTimestamp(s)
    ensures ' ' !in s && s != "-"
  {
    hide FullDate, PartialTime, Fraction, Zone;
    var k: nat :| k <= 7 && SplitsAt(s, k);
    DateHasNoSpace(s[..10]);
    TimeHasNoSpace(s[11..19]);
    FractionHasNoSpace(s[19..19 + k]);
    ZoneHasNoSpace(s[19 + k..]);
    assert s == s[..10] + [s[10]] + s[11..19] + s[19..19 + k] + s[19 + k..];
  }
}
