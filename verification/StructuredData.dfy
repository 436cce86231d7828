/** STRUCTURED-DATA (section 6.3 of RFC 5424): the scanner that finds where it ends, the
    validator of its content, and what the two make of the grammar. */
module StructuredData {
  import opened Text

  // ── Where the structured data ends ─────────────────────────────────────────

  /** The scanner's position: between two elements, or inside one with its two flags. */
  datatype Scan = Between | Inside(inValue: bool, escaped: bool)

  /** One byte read by the scanner; between elements only `[` is read. */
  function Read(st: Scan, c: char): Scan
    requires st.Inside? || c == '['
  {
    match st
    case Between => Inside(false, false)
    case Inside(v, true) => Inside(v, false)
    case Inside(v, false) =>
      if c == '\\' then Inside(v, true)
      else if c == '"' then Inside(!v, false)
      else if c == ']' && !v then Between
      else st
  }

  /** Where the scanner stops between elements when it reads `s` from `i` in state `st`;
      `None` when the text ends inside an element. */
  function FindEnd(s: Bytes, i: nat, st: Scan): (r: Option<nat>)
    requires i <= |s|
    ensures r.Some? ==> i <= r.value <= |s|
    decreases |s| - i
  {
    if i == |s| then
      if st.Between? then Some(i) else None
    else if st.Between? && s[i] != '[' then Some(i)
    else FindEnd(s, i + 1, Read(st, s[i]))
  }

  /** The state after reading `s[i..j]`, or `None` when the scanner stops before `j`. */
  function After(s: Bytes, i: nat, j: nat, st: Scan): Option<Scan>
    requires i <= j <= |s|
    decreases j - i
  {
    if i == j then Some(st)
    else if st.Between? && s[i] != '[' then None
    else After(s, i + 1, j, Read(st, s[i]))
  }

  /** `find_structured_data_end`: nested loops with the `escaped` and `in_param_value` flags. */
  method FindStructuredDataEnd(s: Bytes) returns (r: Option<nat>)
    ensures r == FindEnd(s, 0, Between)
  {
    var i := 0;
    while i < |s| && s[i] == '['
      invariant i <= |s|
      invariant FindEnd(s, 0, Between) == FindEnd(s, i, Between)
      decreases |s| - i
    {
      i := i + 1;
      var inParamValue, escaped := false, false;
      while true
        invariant i <= |s|
        invariant FindEnd(s, 0, Between) == FindEnd(s, i, Inside(inParamValue, escaped))
        decreases |s| - i
      {
        if i >= |s| {
          return None;
        }
        if escaped {
          escaped := false;
          i := i + 1;
          continue;
        }
        if s[i] == '\\' {
          escaped := true;
        } else if s[i] == '"' {
          inParamValue := !inParamValue;
        } else if s[i] == ']' && !inParamValue {
          i := i + 1;
          break;
        }
        i := i + 1;
      }
    }
    return Some(i);
  }

  /** Reading `p` at `i` gives the same states in every text that holds `p` there. */
  lemma {:induction false} AfterElsewhere(s: Bytes, i: nat, j: nat, t: Bytes, st: Scan)
    requires i <= j <= |s| && j <= |t| && s[..j] == t[..j]
    ensures After(s, i, j, st) == After(t, i, j, st)
    decreases j - i
  {
    if i < j {
      assert s[i] == s[..j][i] == t[i];
      if st.Inside? || s[i] == '[' {
        AfterElsewhere(s, i + 1, j, t, Read(st, s[i]));
      }
    }
  }

  lemma {:induction false} FindEndAfter(s: Bytes, i: nat, j: nat, st: Scan)
    requires i <= j <= |s| && After(s, i, j, st).Some?
    ensures FindEnd(s, i, st) == FindEnd(s, j, After(s, i, j, st).value)
    decreases j - i
  {
    if i < j {
      FindEndAfter(s, i + 1, j, Read(st, s[i]));
    }
  }

  lemma {:induction false} AfterJoin(s: Bytes, i: nat, j: nat, k: nat, st: Scan)
    requires i <= j <= k <= |s| && After(s, i, j, st).Some?
    ensures After(s, i, k, st) == After(s, j, k, After(s, i, j, st).value)
    decreases j - i
  {
    if i < j {
      AfterJoin(s, i + 1, j, k, Read(st, s[i]));
    }
  }

  /** At the end found the scanner is between elements, on no `[`, and behind a `]`. */
  lemma {:induction false} EndIsBetween(s: Bytes, i: nat, st: Scan)
    requires i <= |s| && FindEnd(s, i, st).Some?
    ensures var n := FindEnd(s, i, st).value;
            && After(s, i, n, st) == Some(Between)
            && (n < |s| ==> s[n] != '[')
            && (n > i ==> s[n - 1] == ']')
            && (st.Inside? ==> n > i)
    decreases |s| - i
  {
    if i < |s| && (st.Inside? || s[i] == '[') {
      EndIsBetween(s, i + 1, Read(st, s[i]));
    }
  }

  /** The end found depends only on the bytes before it and on the next byte not being `[`. */
  lemma FindEndOfPrefix(s: Bytes, n: nat, t: Bytes)
    requires FindEnd(s, 0, Between) == Some(n)
    requires n <= |t| && t[..n] == s[..n]
    requires n == |t| || t[n] != '['
    ensures FindEnd(t, 0, Between) == Some(n)
  {
    EndIsBetween(s, 0, Between);
    AfterElsewhere(s, 0, n, t, Between);
    FindEndAfter(t, 0, n, Between);
  }

  // ── The content validator ──────────────────────────────────────────────────

  predicate IsNameChar(c: char) {
    33 as char <= c <= 126 as char && c != '=' && c != ']' && c != '"'
  }

  /** `validate_sd_name`: 1 to 32 visible ASCII characters other than `=`, `]` and `"`. */
  predicate IsSdName(s: Bytes)
    ensures IsSdName(s) <==>
              s != [] && |s| < 33 && forall i :: 0 <= i < |s| ==> '!' <= s[i] <= '~' && s[i] !in {'=', ']', '"'}
  {
    1 <= |s| <= 32 && forall i :: 0 <= i < |s| ==> IsNameChar(s[i])
  }

  method ValidateSdName(s: Bytes) returns (ok: bool)
    ensures ok == IsSdName(s)
  {
    if s == [] {
      return false;
    }
    if |s| > 32 {
      return false;
    }
    for i := 0 to |s|
      invariant forall k :: 0 <= k < i ==> IsNameChar(s[k])
    {
      if !(33 as char <= s[i] <= 126 as char) || s[i] == '=' || s[i] == ']' || s[i] == '"' {
        return false;
      }
    }
    return true;
  }

  /** The first position from `i` that holds either stop byte. */
  function Until(s: Bytes, i: nat, a: char, b: char): (n: nat)
    requires i <= |s|
    ensures i <= n <= |s|
    ensures forall k :: i <= k < n ==> s[k] != a && s[k] != b
    ensures n < |s| ==> s[n] == a || s[n] == b
    decreases |s| - i
  {
    if i == |s| || s[i] == a || s[i] == b then i else Until(s, i + 1, a, b)
  }

  /** Just past the quote that closes the PARAM-VALUE read from `i`. */
  function SkipValue(s: Bytes, i: nat, escaped: bool): (r: Option<nat>)
    requires i <= |s|
    ensures r.Some? ==> i < r.value <= |s|
    decreases |s| - i
  {
    if i == |s| then None
    else if escaped then SkipValue(s, i + 1, false)
    else if s[i] == '\\' then SkipValue(s, i + 1, true)
    else if s[i] == '"' then Some(i + 1)
    else SkipValue(s, i + 1, false)
  }

  /** How far a part of the validator gets: on to a position, to an error, or to a string slice
      that starts inside a character, which panics. */
  datatype Step = Next(value: nat) | Refused | Panicked

  /** A byte inside a multi-byte character of UTF-8. */
  predicate IsContinuation(c: char) {
    0x80 <= c as int <= 0xBF
  }

  /** Its two highest bits are `10`. */
  lemma ContinuationBits(c: char)
    ensures IsContinuation(c) <==> c as int / 64 == 2
  {
  }

  /** `str::is_char_boundary`. */
  predicate IsBoundary(s: Bytes, i: nat)
    requires i <= |s|
  {
    0 < i < |s| ==> !IsContinuation(s[i])
  }

  /** The slice from `i` to the stop byte or end at `n`, checked as a name. */
  function SkipName(s: Bytes, i: nat, n: nat): Step
    requires i <= n <= |s|
  {
    if !IsBoundary(s, i) then Panicked else if IsSdName(s[i..n]) then Next(n) else Refused
  }

  /** Past one `NAME="VALUE"` entry that starts at `i`. */
  function SkipParam(s: Bytes, i: nat): (r: Step)
    requires i <= |s|
    ensures r.Next? ==> i < r.value <= |s|
  {
    var n := Until(s, i, '=', ']');
    if n == |s| || s[n] != '=' then Refused
    else if !SkipName(s, i, n).Next? then SkipName(s, i, n)
    else if n + 1 == |s| || s[n + 1] != '"' then Refused
    else
      match SkipValue(s, n + 2, false)
      case Some(end) => Next(end)
      case None => Refused
  }

  /** Past the parameters; a space directly before `]` is stepped over. */
  function SkipParams(s: Bytes, i: nat): (r: Step)
    requires i <= |s|
    ensures r.Next? ==> i <= r.value <= |s|
    decreases |s| - i
  {
    if i == |s| || s[i] != ' ' then Next(i)
    else if i + 1 < |s| && s[i + 1] == ']' then Next(i + 1)
    else
      var r := SkipParam(s, i + 1);
      if r.Next? then SkipParams(s, r.value) else r
  }

  /** One outer turn of the validator: the byte at the cursor is stepped over unchecked. */
  function SkipElement(s: Bytes, i: nat): (r: Step)
    requires i < |s|
    ensures r.Next? ==> i < r.value <= |s|
  {
    var n := Until(s, i + 1, ' ', ']');
    if !SkipName(s, i + 1, n).Next? then SkipName(s, i + 1, n)
    else
      var r := SkipParams(s, n);
      if r.Next? && r.value < |s| && s[r.value] == ']' then Next(r.value + 1) else r
  }

  /** The cursor positions at which the validator's outer loop starts a turn, from `i` on,
      also those of a text that it goes on to refuse. */
  function Started(s: Bytes, i: nat): seq<nat>
    requires i <= |s|
    decreases |s| - i
  {
    if i == |s| then []
    else [i] + if SkipElement(s, i).Next? then Started(s, SkipElement(s, i).value) else []
  }

  /** What becomes of the text from `i` on. */
  function SkipAll(s: Bytes, i: nat): (r: Step)
    requires i <= |s|
    ensures r.Next? ==> r.value == |s|
    decreases |s| - i
  {
    if i == |s| then Next(i)
    else if SkipElement(s, i).Next? then SkipAll(s, SkipElement(s, i).value)
    else SkipElement(s, i)
  }

  /** The turns of an accepted text, from `i` on; `None` when the content is not accepted. */
  function Turns(s: Bytes, i: nat): Option<seq<nat>>
    requires i <= |s|
  {
    if SkipAll(s, i).Next? then Some(Started(s, i)) else None
  }

  /** What `validate_structured_data_content` does. */
  function CheckContent(sd: Bytes): Step {
    if sd == "-" then Next(|sd|) else SkipAll(sd, 0)
  }

  predicate ContentOk(sd: Bytes) {
    CheckContent(sd).Next?
  }

  /** The validator's cursor loop up to a stop byte. */
  method ScanUntil(s: Bytes, start: nat, a: char, b: char) returns (pos: nat)
    requires start <= |s|
    ensures pos == Until(s, start, a, b)
  {
    pos := start;
    while pos < |s| && s[pos] != a && s[pos] != b
      invariant start <= pos <= |s|
      invariant Until(s, start, a, b) == Until(s, pos, a, b)
    {
      pos := pos + 1;
    }
  }

  /** The validator's loop over one PARAM-VALUE. */
  method ScanValue(s: Bytes, start: nat) returns (end: Option<nat>)
    requires start <= |s|
    ensures end == SkipValue(s, start, false)
  {
    var pos, escaped := start, false;
    while true
      invariant start <= pos <= |s|
      invariant SkipValue(s, start, false) == SkipValue(s, pos, escaped)
      decreases |s| - pos
    {
      if pos >= |s| {
        return None;
      }
      var byte := s[pos];
      pos := pos + 1;
      if escaped {
        escaped := false;
      } else if byte == '\\' {
        escaped := true;
      } else if byte == '"' {
        return Some(pos);
      }
    }
  }

  /** The slice and the name check. */
  method ScanName(s: Bytes, start: nat, end: nat) returns (r: Step)
    requires start <= end <= |s|
    ensures r == SkipName(s, start, end)
  {
    if 0 < start < |s| && IsContinuation(s[start]) {
      return Panicked;
    }
    var ok := ValidateSdName(s[start..end]);
    return if ok then Next(end) else Refused;
  }

  /** The validator's loop over the parameters of one element. */
  method ScanParams(s: Bytes, start: nat) returns (end: Step)
    requires start <= |s|
    ensures end == SkipParams(s, start)
  {
    hide SkipName;
    var pos := start;
    while pos < |s| && s[pos] == ' '
      invariant start <= pos <= |s|
      invariant SkipParams(s, start) == SkipParams(s, pos)
    {
      pos := pos + 1;
      if pos < |s| && s[pos] == ']' {
        break;
      }
      var nameStart := pos;
      pos := ScanUntil(s, pos, '=', ']');
      if pos >= |s| || s[pos] != '=' {
        return Refused;
      }
      var name := ScanName(s, nameStart, pos);
      if !name.Next? {
        return name;
      }
      pos := pos + 1;
      if pos >= |s| || s[pos] != '"' {
        return Refused;
      }
      pos := pos + 1;
      var valueEnd := ScanValue(s, pos);
      if valueEnd.None? {
        return Refused;
      }
      pos := valueEnd.value;
    }
    return Next(pos);
  }

  /** One turn of the validator's outer loop. */
  method ScanElement(s: Bytes, start: nat) returns (end: Step)
    requires start < |s|
    ensures end == SkipElement(s, start)
  {
    var pos := start + 1;
    pos := ScanUntil(s, pos, ' ', ']');
    var id := ScanName(s, start + 1, pos);
    if !id.Next? {
      return id;
    }
    end := ScanParams(s, pos);
    if end.Next? && end.value < |s| && s[end.value] == ']' {
      end := Next(end.value + 1);
    }
  }

  /** `validate_structured_data_content`. */
  method ValidateContent(sd: Bytes) returns (r: Step)
    ensures r == CheckContent(sd)
  {
    if sd == "-" {
      return Next(|sd|);
    }
    var pos := 0;
    while pos < |sd|
      invariant 0 <= pos <= |sd|
      invariant SkipAll(sd, 0) == SkipAll(sd, pos)
    {
      var end := ScanElement(sd, pos);
      if !end.Next? {
        return end;
      }
      pos := end.value;
    }
    return Next(|sd|);
  }

  // ── When the validator panics ──────────────────────────────────────────────

  /** Continuation bytes follow only bytes that are not ASCII, as in every UTF-8 text. */
  predicate IsWellCut(s: Bytes) {
    forall i :: 0 <= i < |s| && IsContinuation(s[i]) ==> i > 0 && s[i - 1] as int >= 0x80
  }

  /** The turn at `t` slices the SD-ID from inside a character. */
  predicate CutsCharacter(s: Bytes, t: nat) {
    t + 1 < |s| && IsContinuation(s[t + 1])
  }

  /** Names of parameters follow a space, so their slices never panic. */
  lemma {:induction false} ParamsNeverPanic(s: Bytes, i: nat)
    requires i <= |s| && IsWellCut(s)
    ensures !SkipParams(s, i).Panicked?
    decreases |s| - i
  {
    if i < |s| && s[i] == ' ' && SkipParam(s, i + 1).Next? {
      ParamsNeverPanic(s, SkipParam(s, i + 1).value);
    }
  }

  lemma TurnPanics(s: Bytes, i: nat)
    requires i < |s| && IsWellCut(s)
    ensures SkipElement(s, i).Panicked? <==> CutsCharacter(s, i)
  {
    ParamsNeverPanic(s, Until(s, i + 1, ' ', ']'));
  }

  /** A completed turn cuts no character, in any text. */
  lemma NextIsUncut(s: Bytes, i: nat)
    requires i < |s| && SkipElement(s, i).Next?
    ensures !CutsCharacter(s, i)
  {
  }

  lemma {:induction false} PanicsFrom(s: Bytes, i: nat)
    requires i <= |s| && IsWellCut(s)
    ensures SkipAll(s, i).Panicked? <==> exists t :: t in Started(s, i) && CutsCharacter(s, t)
    decreases |s| - i
  {
    hide SkipElement, CutsCharacter, IsWellCut;
    if i < |s| {
      TurnPanics(s, i);
      if SkipElement(s, i).Next? {
        NextIsUncut(s, i);
        PanicsFrom(s, SkipElement(s, i).value);
      }
    }
  }

  /** On a UTF-8 text the validator panics if and only if one of the turns it starts is on a byte
      that a continuation byte follows. */
  lemma PanicsExactly(sd: Bytes)
    requires IsWellCut(sd)
    ensures CheckContent(sd).Panicked? <==> exists t :: t in Started(sd, 0) && CutsCharacter(sd, t)
  {
    hide SkipAll, Started;
    PanicsFrom(sd, 0);
  }

  /** An accepted text, whatever its bytes, starts no such turn. */
  lemma {:induction false} AcceptedUncut(s: Bytes, i: nat)
    requires i <= |s| && Turns(s, i).Some?
    ensures forall t :: t in Turns(s, i).value ==> !CutsCharacter(s, t)
    decreases |s| - i
  {
    hide SkipElement, CutsCharacter;
    if i < |s| {
      NextIsUncut(s, i);
      AcceptedUncut(s, SkipElement(s, i).value);
    }
  }
}
