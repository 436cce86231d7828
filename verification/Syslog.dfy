/** RFC 5424 messages: the parser, the printer, and when they undo each other. */
module Syslog {
  import opened Text
  import opened Timestamp
  import opened StructuredData

  /** The errors of the parser, and `Panic` for the case in which it does not return one because
      the structured-data validator panics. */
  datatype ParseError =
    | InvalidPriority(value: Bytes)
    | MalformedHeader(expected: string)
    | InvalidField(field: string)
    | Panic

  /** Facilities and severities by their numeric codes. */
  type Facility = n: nat | n < 24
  type Severity = n: nat | n < 8

  datatype Priority = Priority(facility: Facility, severity: Severity) {
    function AsInteger(): (n: nat)
      ensures n <= 191
    {
      facility * 8 + severity
    }
  }

  function PriorityFromInteger(pri: nat): (r: Result<Priority, ParseError>)
    ensures r.Ok? <==> pri <= 191
    ensures r.Ok? ==> r.value.AsInteger() == pri
  {
    if pri > 191 then Err(InvalidPriority(Decimal(pri))) else Ok(Priority(pri / 8, pri % 8))
  }

  lemma PriorityRoundTrip(p: Priority)
    ensures PriorityFromInteger(p.AsInteger()) == Ok(p)
  {
  }

  datatype SyslogMessage = SyslogMessage(
    priority: Priority,
    timestamp: Option<Bytes>,
    hostname: Option<Bytes>,
    appName: Option<Bytes>,
    procId: Option<Bytes>,
    msgId: Option<Bytes>,
    structuredData: Bytes,
    msg: Bytes
  )

  // ── Printing ───────────────────────────────────────────────────────────────

  function FieldText(field: Option<Bytes>): Bytes {
    if field.Some? then field.value else "-"
  }

  function Field(field: Option<Bytes>, rest: Bytes): Bytes {
    FieldText(field) + " " + rest
  }

  function Body(sd: Bytes, msg: Bytes): Bytes {
    sd + if msg == [] then [] else " " + msg
  }

  /** The five space-terminated header fields, and what follows them. */
  function Header(m: SyslogMessage, rest: Bytes): Bytes {
    Field(m.timestamp, Field(m.hostname, Field(m.appName, Field(m.procId, Field(m.msgId, rest)))))
  }

  /** The `Display` implementation: the RFC 5424 wire form. */
  function Display(m: SyslogMessage): Bytes {
    "<" + Decimal(m.priority.AsInteger()) + ">1 " + Header(m, Body(m.structuredData, m.msg))
  }

  // ── Parsing ────────────────────────────────────────────────────────────────

  predicate IsTrimmed(c: char) {
    c == '\n' || c == '\r' || c == '\0'
  }

  function TrimEnd(s: Bytes): (r: Bytes)
    ensures r <= s
    ensures r != [] ==> !IsTrimmed(Last(r))
    ensures s != [] && !IsTrimmed(Last(s)) ==> r == s
  {
    if s != [] && IsTrimmed(Last(s)) then TrimEnd(s[..|s| - 1]) else s
  }

  /** `<PRI>1 `: the priority and the text after the version. */
  function ParsePri(s: Bytes): (r: Result<(Priority, Bytes), ParseError>)
    ensures r != Err(Panic)
  {
    var afterLt := StripPrefix(s, "<");
    if afterLt.None? then Err(MalformedHeader("<"))
    else
      var pri := SplitOnce(afterLt.value, '>');
      if pri.None? then Err(MalformedHeader(">"))
      else
        var n := ParseUnsigned(pri.value.0, 255);
        if n.None? then Err(InvalidPriority(pri.value.0))
        else
          var priority :- PriorityFromInteger(n.value);
          var rest := StripPrefix(pri.value.1, "1 ");
          if rest.None? then Err(MalformedHeader("VERSION")) else Ok((priority, rest.value))
  }

  function NilToOption(s: Bytes): Option<Bytes> {
    if s == "-" then None else Some(s)
  }

  /** A header field that survives being printed: nil, or free of spaces and not `-`. */
  predicate IsClean(field: Option<Bytes>) {
    field.Some? ==> ' ' !in field.value && field.value != "-"
  }

  function SplitHeaderField(s: Bytes, name: string): (r: Result<(Option<Bytes>, Bytes), ParseError>)
    ensures r.Ok? ==> s == Field(r.value.0, r.value.1) && IsClean(r.value.0)
    ensures r != Err(Panic)
  {
    var parts := SplitOnce(s, ' ');
    if parts.None? then Err(MalformedHeader(name))
    else Ok((NilToOption(parts.value.0), parts.value.1))
  }

  /** The MSG after the structured data: nothing unless a space follows. */
  function MsgOf(rest: Bytes): Bytes {
    if rest != [] && rest[0] == ' ' then rest[1..] else []
  }

  /** `parse_structured_data_and_msg`. */
  function ParseBody(s: Bytes): (r: Result<(Bytes, Bytes), ParseError>)
    ensures r != Err(Panic)
  {
    if s != [] && s[0] == '-' then
      Ok(("-", MsgOf(s[1..])))
    else if s == [] || s[0] != '[' then Err(MalformedHeader("STRUCTURED-DATA"))
    else
      var end := FindEnd(s, 0, Between);
      if end.None? then Err(MalformedHeader("]"))
      else Ok((s[..end.value], MsgOf(s[end.value..])))
  }

  /** `validate_printusascii_field`: 1 to `maxLen` visible ASCII characters. */
  predicate IsPrintUsAscii(s: Bytes, maxLen: nat)
    ensures IsPrintUsAscii(s, maxLen) <==>
              s != [] && |s| <= maxLen && forall i :: 0 <= i < |s| ==> '!' <= s[i] <= '~'
  {
    1 <= |s| <= maxLen && forall i :: 0 <= i < |s| ==> 33 as char <= s[i] <= 126 as char
  }

  method ValidatePrintUsAscii(s: Bytes, maxLen: nat) returns (ok: bool)
    ensures ok == IsPrintUsAscii(s, maxLen)
  {
    if s == [] {
      return false;
    }
    if |s| > maxLen {
      return false;
    }
    for i := 0 to |s|
      invariant forall k :: 0 <= k < i ==> 33 as char <= s[k] <= 126 as char
    {
      if !(33 as char <= s[i] <= 126 as char) {
        return false;
      }
    }
    return true;
  }

  predicate NilOr(field: Option<Bytes>, ok: Bytes -> bool) {
    field.Some? ==> ok(field.value)
  }

  /** The content and range checks of the header fields, in the source's order. */
  function HeaderError(m: SyslogMessage): (r: Option<ParseError>)
    ensures r != Some(Panic)
  {
    if !NilOr(m.timestamp, IsTimestamp) then Some(InvalidField("TIMESTAMP"))
    else if !NilOr(m.hostname, s => IsPrintUsAscii(s, 255)) then Some(InvalidField("HOSTNAME"))
    else if !NilOr(m.appName, s => IsPrintUsAscii(s, 48)) then Some(InvalidField("APP-NAME"))
    else if !NilOr(m.procId, s => IsPrintUsAscii(s, 128)) then Some(InvalidField("PROCID"))
    else if !NilOr(m.msgId, s => IsPrintUsAscii(s, 32)) then Some(InvalidField("MSGID"))
    else None
  }

  /** All content checks; `None` when all pass. */
  function ContentError(m: SyslogMessage): Option<ParseError> {
    if HeaderError(m).Some? then HeaderError(m)
    else
      match CheckContent(m.structuredData)
      case Next(_) => None
      case Refused => Some(InvalidField("STRUCTURED-DATA"))
      case Panicked => Some(Panic)
  }

  /** The message before its content checks. */
  function ParseShape(raw: Bytes): (r: Result<SyslogMessage, ParseError>)
  {
    var (priority, s) :- ParsePri(TrimEnd(raw));
    var (timestamp, s) :- SplitHeaderField(s, "TIMESTAMP");
    var (hostname, s) :- SplitHeaderField(s, "HOSTNAME");
    var (appName, s) :- SplitHeaderField(s, "APP-NAME");
    var (procId, s) :- SplitHeaderField(s, "PROCID");
    var (msgId, s) :- SplitHeaderField(s, "MSGID");
    var (structuredData, msg) :- ParseBody(s);
    Ok(SyslogMessage(priority, timestamp, hostname, appName, procId, msgId, structuredData, msg))
  }

  /** `SyslogMessage::parse`. */
  function Parse(raw: Bytes): (r: Result<SyslogMessage, ParseError>)
  {
    var m :- ParseShape(raw);
    var e := ContentError(m);
    if e.Some? then Err(e.value) else Ok(m)
  }

  // ── The messages the parser can produce ────────────────────────────────────

  predicate IsSdText(sd: Bytes) {
    sd == "-" || (sd != [] && sd[0] == '[' && FindEnd(sd, 0, Between) == Some(|sd|))
  }

  predicate IsMsgText(msg: Bytes) {
    msg != [] ==> !IsTrimmed(Last(msg))
  }

  predicate IsHeaderClean(m: SyslogMessage) {
    IsClean(m.timestamp) && IsClean(m.hostname) && IsClean(m.appName) && IsClean(m.procId) && IsClean(m.msgId)
  }

  /** Clean in shape: what `ParseShape` can produce. */
  predicate IsShaped(m: SyslogMessage) {
    IsHeaderClean(m) && IsSdText(m.structuredData) && IsMsgText(m.msg)
  }

  /** The printable messages: each header field is nil or valid text other than `-`, the
      structured data is `-` or a complete, accepted run of elements, and MSG does not end
      in a byte that the parser trims. */
  predicate IsPrintable(m: SyslogMessage) {
    && (m.timestamp.Some? ==> IsTimestamp(m.timestamp.value))
    && (m.hostname.Some? ==> m.hostname.value != "-" && IsPrintUsAscii(m.hostname.value, 255))
    && (m.appName.Some? ==> m.appName.value != "-" && IsPrintUsAscii(m.appName.value, 48))
    && (m.procId.Some? ==> m.procId.value != "-" && IsPrintUsAscii(m.procId.value, 128))
    && (m.msgId.Some? ==> m.msgId.value != "-" && IsPrintUsAscii(m.msgId.value, 32))
    && IsSdText(m.structuredData) && ContentOk(m.structuredData)
    && IsMsgText(m.msg)
  }

  lemma PrintableIsShaped(m: SyslogMessage)
    ensures IsPrintable(m) <==> IsShaped(m) && ContentError(m).None?
  {
    if m.timestamp.Some? && IsTimestamp(m.timestamp.value) {
      TimestampHasNoSpace(m.timestamp.value);
    }
  }

  // ── Each part of the parser, without reference to how it reads ─────────────

  predicate AreTrimmed(tail: Bytes) {
    forall i :: 0 <= i < |tail| ==> tail[i] == '\n' || tail[i] == '\r' || tail[i] == '\0'
  }

  /** `text` is `raw` without the line breaks and NULs at its end. */
  predicate TrimsTo(raw: Bytes, text: Bytes) {
    && text <= raw && AreTrimmed(raw[|text|..])
    && (text != [] ==> text[|text| - 1] != '\n' && text[|text| - 1] != '\r' && text[|text| - 1] != '\0')
  }

  lemma {:induction false} TrimEndTrims(raw: Bytes)
    ensures TrimsTo(raw, TrimEnd(raw))
  {
    if raw != [] && IsTrimmed(Last(raw)) {
      var init, text := raw[..|raw| - 1], TrimEnd(raw);
      TrimEndTrims(init);
      assert raw[|text|..] == init[|text|..] + [Last(raw)];
    }
  }

  lemma TrimmedEnd(raw: Bytes, text: Bytes)
    requires TrimsTo(raw, text)
    ensures forall i :: |text| <= i < |raw| ==> IsTrimmed(raw[i])
    ensures text != [] ==> !IsTrimmed(raw[|text| - 1])
  {
    assert forall i :: |text| <= i < |raw| ==> raw[i] == raw[|text|..][i - |text|];
  }

  lemma TrimExactly(raw: Bytes, text: Bytes)
    ensures TrimEnd(raw) == text <==> TrimsTo(raw, text)
  {
    hide TrimEnd;
    TrimEndTrims(raw);
    TrimmedEnd(raw, TrimEnd(raw));
    if TrimsTo(raw, text) {
      TrimmedEnd(raw, text);
      assert |text| == |TrimEnd(raw)|;
      assert raw[..|text|] == text == TrimEnd(raw);
    }
  }

  /** `text` is a valid PRI, the version `1`, a space, and `rest`. */
  ghost predicate HasPri(text: Bytes, p: Priority, rest: Bytes) {
    exists d :: IsNumeral(d, p.AsInteger()) && text == "<" + d + ">1 " + rest
  }

  lemma PriConcat(d: Bytes, rest: Bytes)
    ensures "<" + d + ">1 " + rest == "<" + (d + ['>'] + ("1 " + rest))
  {
    Assoc("<", d, ">1 ");
    Assoc("<", d + ">1 ", rest);
    Assoc(d, ">1 ", rest);
    Assoc(d, ['>'], "1 " + rest);
    assert ">1 " + rest == ['>'] + ("1 " + rest);
  }

  lemma Stripped(prefix: Bytes, rest: Bytes)
    ensures StripPrefix(prefix + rest, prefix) == Some(rest)
  {
  }

  lemma PriPrinted(d: Bytes, p: Priority, rest: Bytes)
    requires ParseUnsigned(d, 255) == Some(p.AsInteger())
    ensures ParsePri("<" + d + ">1 " + rest) == Ok((p, rest))
  {
    hide ParseUnsigned, SplitOnce, PriorityFromInteger, StripPrefix;
    var tail := "1 " + rest;
    PriConcat(d, rest);
    Stripped("<", d + ['>'] + tail);
    assert '>' !in d;
    SplitOnceJoined(d, '>', tail);
    PriorityRoundTrip(p);
    Stripped("1 ", rest);
  }

  lemma PriRead(s: Bytes) returns (d: Bytes)
    requires ParsePri(s).Ok?
    ensures ParseUnsigned(d, 255) == Some(ParsePri(s).value.0.AsInteger())
    ensures s == "<" + d + ">1 " + ParsePri(s).value.1
  {
    hide ParseUnsigned, PriorityFromInteger, SplitOnce, StripPrefix;
    var (_, rest) := ParsePri(s).value;
    d := SplitOnce(StripPrefix(s, "<").value, '>').value.0;
    PriConcat(d, rest);
  }

  lemma PriExactly(s: Bytes, p: Priority, rest: Bytes)
    ensures ParsePri(s) == Ok((p, rest)) <==> HasPri(s, p, rest)
  {
    hide ParsePri, ParseUnsigned, IsNumeral;
    if ParsePri(s) == Ok((p, rest)) {
      var d := PriRead(s);
      ParseUnsignedExactly(d, 255, p.AsInteger());
    }
    if d :| IsNumeral(d, p.AsInteger()) && s == "<" + d + ">1 " + rest {
      ParseUnsignedExactly(d, 255, p.AsInteger());
      PriPrinted(d, p, rest);
    }
  }

  lemma FieldPrinted(field: Option<Bytes>, rest: Bytes, name: string)
    requires IsClean(field)
    ensures SplitHeaderField(Field(field, rest), name) == Ok((field, rest))
  {
    SplitOnceJoined(FieldText(field), ' ', rest);
  }

  lemma FieldMissing(s: Bytes, name: string)
    ensures ' ' !in s ==> SplitHeaderField(s, name) == Err(MalformedHeader(name))
    ensures ' ' in s ==> SplitHeaderField(s, name).Ok?
  {
  }

  /** What may follow the structured data: a space and MSG; or a text that starts with no space,
      and after elements with no `[`, which is dropped. */
  predicate IsAfter(sd: Bytes, after: Bytes, msg: Bytes) {
    || after == " " + msg
    || (msg == [] && (after == [] || (after[0] != ' ' && (sd == "-" || after[0] != '['))))
  }

  lemma BodyPrinted(sd: Bytes, after: Bytes, msg: Bytes)
    requires IsSdText(sd) && IsAfter(sd, after, msg)
    ensures ParseBody(sd + after) == Ok((sd, msg))
  {
    var s := sd + after;
    assert s[..|sd|] == sd && s[|sd|..] == after;
    assert MsgOf(after) == msg;
    if sd != "-" {
      FindEndOfPrefix(sd, |sd|, s);
    }
  }

  lemma BodyRead(s: Bytes)
    requires ParseBody(s).Ok?
    ensures var (sd, msg) := ParseBody(s).value;
            && sd <= s && sd != [] && IsSdText(sd) && IsAfter(sd, s[|sd|..], msg)
  {
    if s[0] == '[' {
      var n := FindEnd(s, 0, Between).value;
      EndIsBetween(s, 0, Between);
      FindEndOfPrefix(s, n, s[..n]);
      assert n > 0;
    }
  }

  // ── The shape of a text ────────────────────────────────────────────────────

  /** `raw`, trimmed, is a valid PRI and version, the header fields of `m`, its structured data, and
      what may follow before its MSG. */
  ghost predicate ReadsAs(raw: Bytes, m: SyslogMessage, after: Bytes) {
    && IsAfter(m.structuredData, after, m.msg)
    && exists text :: TrimsTo(raw, text) && HasPri(text, m.priority, Header(m, m.structuredData + after))
  }

  lemma ShapePrintedAs(raw: Bytes, m: SyslogMessage, after: Bytes)
    requires IsHeaderClean(m) && IsSdText(m.structuredData) && ReadsAs(raw, m, after)
    ensures ParseShape(raw) == Ok(m)
  {
    hide ParsePri, SplitHeaderField, ParseBody, IsClean, TrimEnd, Field, TrimsTo, HasPri;
    var body := m.structuredData + after;
    var text :| TrimsTo(raw, text) && HasPri(text, m.priority, Header(m, body));
    TrimExactly(raw, text);
    PriExactly(text, m.priority, Header(m, body));
    var f1 := Field(m.msgId, body);
    var f2 := Field(m.procId, f1);
    var f3 := Field(m.appName, f2);
    var f4 := Field(m.hostname, f3);
    FieldPrinted(m.timestamp, f4, "TIMESTAMP");
    FieldPrinted(m.hostname, f3, "HOSTNAME");
    FieldPrinted(m.appName, f2, "APP-NAME");
    FieldPrinted(m.procId, f1, "PROCID");
    FieldPrinted(m.msgId, body, "MSGID");
    BodyPrinted(m.structuredData, after, m.msg);
  }

  /** The text after the priority is the printed header and the rest left for the body. */
  lemma HeaderRead(raw: Bytes) returns (rest: Bytes)
    requires ParseShape(raw).Ok?
    ensures var m := ParseShape(raw).value;
            && IsHeaderClean(m)
            && ParsePri(TrimEnd(raw)) == Ok((m.priority, Header(m, rest)))
            && ParseBody(rest) == Ok((m.structuredData, m.msg))
  {
    hide SplitHeaderField, ParsePri, ParseBody, IsClean, TrimEnd;
    var (_, s1) := ParsePri(TrimEnd(raw)).value;
    var (_, s2) := SplitHeaderField(s1, "TIMESTAMP").value;
    var (_, s3) := SplitHeaderField(s2, "HOSTNAME").value;
    var (_, s4) := SplitHeaderField(s3, "APP-NAME").value;
    var (_, s5) := SplitHeaderField(s4, "PROCID").value;
    rest := SplitHeaderField(s5, "MSGID").value.1;
    var body := ParseBody(rest).value;
    assert body == (body.0, body.1);
  }

  lemma ShapeReadAs(raw: Bytes) returns (after: Bytes)
    requires ParseShape(raw).Ok?
    ensures var m := ParseShape(raw).value;
            IsHeaderClean(m) && IsSdText(m.structuredData) && ReadsAs(raw, m, after)
  {
    hide ParseShape, ParsePri, ParseBody, TrimEnd, HasPri, TrimsTo, Header, IsHeaderClean;
    var m := ParseShape(raw).value;
    var rest := HeaderRead(raw);
    TrimExactly(raw, TrimEnd(raw));
    PriExactly(TrimEnd(raw), m.priority, Header(m, rest));
    BodyRead(rest);
    after := rest[|m.structuredData|..];
    assert rest == m.structuredData + after;
  }

  // ── Printing and parsing back ──────────────────────────────────────────────

  lemma FieldEnd(field: Option<Bytes>, rest: Bytes)
    requires rest != []
    ensures Field(field, rest) != [] && Last(Field(field, rest)) == Last(rest)
  {
  }

  lemma HeaderEnd(m: SyslogMessage, rest: Bytes)
    requires rest != []
    ensures Header(m, rest) != [] && Last(Header(m, rest)) == Last(rest)
    ensures forall r :: |Header(m, r)| - |r| == |Header(m, rest)| - |rest|
  {
    var f1 := Field(m.msgId, rest);
    var f2 := Field(m.procId, f1);
    var f3 := Field(m.appName, f2);
    var f4 := Field(m.hostname, f3);
    FieldEnd(m.msgId, rest);
    FieldEnd(m.procId, f1);
    FieldEnd(m.appName, f2);
    FieldEnd(m.hostname, f3);
    FieldEnd(m.timestamp, f4);
  }

  lemma DisplayNotTrimmed(m: SyslogMessage)
    requires IsSdText(m.structuredData) && IsMsgText(m.msg)
    ensures TrimsTo(Display(m), Display(m))
  {
    var sd, body := m.structuredData, Body(m.structuredData, m.msg);
    assert !IsTrimmed(Last(sd)) by {
      if sd != "-" {
        EndIsBetween(sd, 0, Between);
      }
    }
    assert body != [] && Last(body) == if m.msg == [] then Last(sd) else Last(m.msg);
    HeaderEnd(m, body);
    assert Last(Display(m)) == Last(body);
  }

  lemma PlainNumber(n: nat)
    ensures IsNumeral(Decimal(n), n)
  {
    assert Decimal(n) == NumberText(n, false, 0);
  }

  lemma ShapePrinted(m: SyslogMessage)
    requires IsShaped(m)
    ensures ParseShape(Display(m)) == Ok(m)
  {
    hide TrimsTo, IsNumeral, ParseShape, Header, Decimal, IsSdText;
    DisplayNotTrimmed(m);
    PlainNumber(m.priority.AsInteger());
    var after := if m.msg == [] then [] else " " + m.msg;
    assert Display(m) == "<" + Decimal(m.priority.AsInteger()) + ">1 " + Header(m, m.structuredData + after);
    assert HasPri(Display(m), m.priority, Header(m, m.structuredData + after));
    ShapePrintedAs(Display(m), m, after);
  }

  lemma PriLength(s: Bytes)
    requires ParsePri(s).Ok?
    ensures var (p, rest) := ParsePri(s).value;
            |Decimal(p.AsInteger())| + 4 + |rest| <= |s| && (rest != [] ==> Last(rest) == Last(s))
  {
    hide ParseUnsigned, ParsePri, Decimal;
    var d := PriRead(s);
  }

  lemma ShapeRead(raw: Bytes)
    requires ParseShape(raw).Ok?
    ensures IsShaped(ParseShape(raw).value)
    ensures |Display(ParseShape(raw).value)| <= |raw|
  {
    hide ParseShape, ParsePri, ParseBody, TrimEnd, Decimal, IsClean;
    var s := TrimEnd(raw);
    var m := ParseShape(raw).value;
    var s6 := HeaderRead(raw);
    PriLength(s);
    BodyRead(s6);
    HeaderEnd(m, s6);
    var body := Body(m.structuredData, m.msg);
    assert |Header(m, body)| - |body| == |Header(m, s6)| - |s6|;
  }

  // ── Main results ───────────────────────────────────────────────────────────

  /** The parser accepts exactly the texts that read as a printable message: `<`, the priority with
      or without a `+` and leading zeros, `>1 `, the five fields each with a space, the structured
      data, a MSG after one more space or a text that is dropped, and at the end any line breaks
      and NULs. */
  lemma AcceptsExactly(raw: Bytes, m: SyslogMessage)
    ensures Parse(raw) == Ok(m) <==> IsPrintable(m) && exists after :: ReadsAs(raw, m, after)
  {
    hide ParseShape, IsPrintable, ContentError, ReadsAs;
    PrintableIsShaped(m);
    if Parse(raw) == Ok(m) {
      var after := ShapeReadAs(raw);
      ShapeRead(raw);
    }
    if after :| IsPrintable(m) && ReadsAs(raw, m, after) {
      ShapePrintedAs(raw, m, after);
    }
  }

  // ── What it refuses, and how ───────────────────────────────────────────────

  /** Header fields one after another, each with its space, and what follows. */
  function Fields(fs: seq<Option<Bytes>>, rest: Bytes): Bytes {
    if fs == [] then rest else Field(fs[0], Fields(fs[1..], rest))
  }

  /** `d` is no 8-bit number, or one over 191; `v` is what the error shows. */
  ghost predicate IsNoPriority(d: Bytes, v: Bytes) {
    || (v == d && forall n :: n <= 255 ==> !IsNumeral(d, n))
    || exists n :: 191 < n <= 255 && v == Decimal(n) && IsNumeral(d, n)
  }

  /** The PRI or the version is what `e` says is wrong with the trimmed text. */
  ghost predicate IsPriError(text: Bytes, e: ParseError) {
    match e
    case MalformedHeader(x) =>
      || (x == "<" && !("<" <= text))
      || (x == ">" && "<" <= text && '>' !in text)
      || (x == "VERSION" && exists d, n, s ::
            IsNumeral(d, n) && n <= 191 && text == "<" + d + ">" + s && !("1 " <= s))
    case InvalidPriority(v) =>
      exists d, s :: text == "<" + d + ">" + s && '>' !in d && IsNoPriority(d, v)
    case _ => false
  }

  /** After the header fields `fs`, the text `s` lacks what `x` names. */
  predicate Lacks(fs: seq<Option<Bytes>>, s: Bytes, x: string) {
    || (|fs| < 5 && ' ' !in s && x == ["TIMESTAMP", "HOSTNAME", "APP-NAME", "PROCID", "MSGID"][|fs|])
    || (|fs| == 5 && x == "STRUCTURED-DATA" && !("-" <= s) && !("[" <= s))
    || (|fs| == 5 && x == "]" && "[" <= s && FindEnd(s, 0, Between).None?)
  }

  /** The trimmed text has a bad PRI or version, or ends too early after some header fields. */
  ghost predicate IsShapeError(text: Bytes, e: ParseError) {
    || IsPriError(text, e)
    || (e.MalformedHeader? && exists p, fs, s ::
          HasPri(text, p, Fields(fs, s)) && (forall f :: f in fs ==> IsClean(f)) && Lacks(fs, s, e.expected))
  }

  predicate IsFieldOk(field: Option<Bytes>, maxLen: nat) {
    field.Some? ==> IsPrintUsAscii(field.value, maxLen)
  }

  /** The first thing wrong with the content of `m`, in the order of the fields. */
  predicate IsFault(m: SyslogMessage, e: ParseError) {
    var time := m.timestamp.Some? ==> IsTimestamp(m.timestamp.value);
    var host := time && IsFieldOk(m.hostname, 255);
    var app := host && IsFieldOk(m.appName, 48);
    var pid := app && IsFieldOk(m.procId, 128);
    var id := pid && IsFieldOk(m.msgId, 32);
    || (e == InvalidField("TIMESTAMP") && !time)
    || (e == InvalidField("HOSTNAME") && time && !host)
    || (e == InvalidField("APP-NAME") && host && !app)
    || (e == InvalidField("PROCID") && app && !pid)
    || (e == InvalidField("MSGID") && pid && !id)
    || (e == InvalidField("STRUCTURED-DATA") && id && CheckContent(m.structuredData) == Refused)
    || (e == Panic && id && CheckContent(m.structuredData) == Panicked)
  }

  lemma NumeralHasNoGt(d: Bytes, n: nat)
    requires IsNumeral(d, n)
    ensures '>' !in d
  {
    hide ParseUnsigned, NumberText;
    ParseUnsignedExactly(d, n, n);
  }

  /** The text before the first `>` is determined. */
  lemma PriUnique(d: Bytes, s: Bytes, d': Bytes, s': Bytes)
    requires '>' !in d && '>' !in d' && "<" + d + ">" + s == "<" + d' + ">" + s'
    ensures d == d' && s == s'
  {
    assert ("<" + d + ">" + s)[1..] == d + ['>'] + s;
    assert ("<" + d' + ">" + s')[1..] == d' + ['>'] + s';
    SplitOnceJoined(d, '>', s);
    SplitOnceJoined(d', '>', s');
  }

  /** `ParsePri` once the PRI is cut out. */
  lemma PriCut(d: Bytes, s: Bytes)
    requires '>' !in d
    ensures var n := ParseUnsigned(d, 255);
            ParsePri("<" + d + ">" + s) ==
            if n.None? then Err(InvalidPriority(d))
            else if n.value > 191 then Err(InvalidPriority(Decimal(n.value)))
            else if "1 " <= s then Ok((Priority(n.value / 8, n.value % 8), s[2..]))
            else Err(MalformedHeader("VERSION"))
  {
    hide ParseUnsigned, SplitOnce, Decimal;
    var text := "<" + d + ">" + s;
    assert text == "<" + (d + ['>'] + s);
    Stripped("<", d + ['>'] + s);
    SplitOnceJoined(d, '>', s);
  }

  lemma CutErrors(d: Bytes, s: Bytes, e: ParseError)
    requires '>' !in d
    ensures IsPriError("<" + d + ">" + s, e)
       <==> || (e.InvalidPriority? && IsNoPriority(d, e.value))
            || (e == MalformedHeader("VERSION") && !("1 " <= s)
                && exists n :: n <= 191 && IsNumeral(d, n))
  {
    hide IsNumeral, IsNoPriority;
    var text := "<" + d + ">" + s;
    assert text[|d| + 1] == '>';
    forall d', s' | text == "<" + d' + ">" + s' && '>' !in d' ensures d' == d && s' == s {
      PriUnique(d, s, d', s');
    }
    forall d', n | IsNumeral(d', n) ensures '>' !in d' {
      NumeralHasNoGt(d', n);
    }
  }

  lemma NoPriorityExactly(d: Bytes, v: Bytes)
    ensures var n := ParseUnsigned(d, 255);
            && (IsNoPriority(d, v) <==> if n.None? then v == d else n.value > 191 && v == Decimal(n.value))
            && ((exists k :: k <= 191 && IsNumeral(d, k)) <==> n.Some? && n.value <= 191)
  {
    hide ParseUnsigned, IsNumeral, Decimal;
    forall k ensures IsNumeral(d, k) && k <= 255 <==> ParseUnsigned(d, 255) == Some(k) {
      ParseUnsignedExactly(d, 255, k);
    }
    var n := ParseUnsigned(d, 255);
    assert n.Some? ==> IsNumeral(d, n.value);
  }

  lemma PriUncut(text: Bytes, e: ParseError)
    requires !("<" <= text) || '>' !in text
    ensures ParsePri(text) == Err(MalformedHeader(if "<" <= text then ">" else "<"))
    ensures IsPriError(text, e) <==> e == MalformedHeader(if "<" <= text then ">" else "<")
  {
    hide IsNumeral, IsNoPriority, SplitOnce;
    forall d: Bytes, s: Bytes ensures "<" <= "<" + d + ">" + s && '>' in "<" + d + ">" + s {
      assert ("<" + d + ">" + s)[|d| + 1] == '>';
    }
    if "<" <= text {
      assert '>' !in StripPrefix(text, "<").value;
    }
  }

  lemma PriFailsExactly(text: Bytes, e: ParseError)
    ensures ParsePri(text) == Err(e) <==> IsPriError(text, e)
  {
    hide ParseUnsigned, IsNumeral, IsNoPriority, Decimal;
    if "<" <= text && '>' in text {
      var i := IndexOf(text, '>');
      var d, s := text[1..i], text[i + 1..];
      assert text == "<" + d + ">" + s;
      PriCut(d, s);
      CutErrors(d, s, e);
      if e.InvalidPriority? {
        NoPriorityExactly(d, e.value);
      } else {
        NoPriorityExactly(d, d);
      }
    } else {
      PriUncut(text, e);
    }
  }

  lemma {:induction false} FieldsSnoc(fs: seq<Option<Bytes>>, f: Option<Bytes>, rest: Bytes)
    ensures Fields(fs + [f], rest) == Fields(fs, Field(f, rest))
  {
    if fs == [] {
      assert [f][1..] == [] && fs + [f] == [f];
    } else {
      assert (fs + [f])[1..] == fs[1..] + [f];
      FieldsSnoc(fs[1..], f, rest);
    }
  }

  /** The first of some fields is split off. */
  lemma Peeled(fs: seq<Option<Bytes>>, s: Bytes, name: string)
    requires fs != [] && forall f :: f in fs ==> IsClean(f)
    ensures SplitHeaderField(Fields(fs, s), name) == Ok((fs[0], Fields(fs[1..], s)))
    ensures forall f :: f in fs[1..] ==> IsClean(f)
  {
    hide IsClean, Field, SplitHeaderField;
    FieldPrinted(fs[0], Fields(fs[1..], s), name);
  }

  lemma LacksFails(raw: Bytes, p: Priority, fs: seq<Option<Bytes>>, s: Bytes, x: string)
    requires ParsePri(TrimEnd(raw)) == Ok((p, Fields(fs, s)))
    requires (forall f :: f in fs ==> IsClean(f)) && Lacks(fs, s, x)
    ensures ParseShape(raw) == Err(MalformedHeader(x))
  {
    hide ParsePri, SplitHeaderField, TrimEnd, IsClean, Field, FindEnd;
    if |fs| > 0 { Peeled(fs, s, "TIMESTAMP"); }
    if |fs| > 1 { Peeled(fs[1..], s, "HOSTNAME"); }
    if |fs| > 2 { Peeled(fs[1..][1..], s, "APP-NAME"); }
    if |fs| > 3 { Peeled(fs[1..][1..][1..], s, "PROCID"); }
    if |fs| > 4 { Peeled(fs[1..][1..][1..][1..], s, "MSGID"); }
    if |fs| < 5 {
      FieldMissing(s, x);
    }
  }

  /** One more field split off, or none left. */
  lemma NextField(rest: Bytes, fs: seq<Option<Bytes>>, s: Bytes, name: string)
    returns (fs': seq<Option<Bytes>>, s': Bytes)
    requires rest == Fields(fs, s) && forall f :: f in fs ==> IsClean(f)
    ensures var r := SplitHeaderField(s, name);
            if ' ' in s then r.Ok? && s' == r.value.1 && |fs'| == |fs| + 1
            else r == Err(MalformedHeader(name)) && s' == s && fs' == fs
    ensures rest == Fields(fs', s') && forall f :: f in fs' ==> IsClean(f)
  {
    hide Field, IsClean, SplitOnce;
    fs', s' := fs, s;
    if ' ' in s {
      var (f, t) := SplitHeaderField(s, name).value;
      FieldsSnoc(fs, f, t);
      fs', s' := fs + [f], t;
    }
  }

  lemma BodyFails(s: Bytes, fs: seq<Option<Bytes>>)
    requires ParseBody(s).Err? && |fs| == 5
    ensures ParseBody(s).error.MalformedHeader? && Lacks(fs, s, ParseBody(s).error.expected)
  {
    hide FindEnd;
  }

  lemma NoFields(rest: Bytes)
    ensures Fields([], rest) == rest
  {
  }

  lemma ShapeLacks(raw: Bytes) returns (fs: seq<Option<Bytes>>, s: Bytes)
    requires ParsePri(TrimEnd(raw)).Ok? && ParseShape(raw).Err?
    ensures ParsePri(TrimEnd(raw)).value.1 == Fields(fs, s) && forall f :: f in fs ==> IsClean(f)
    ensures ParseShape(raw).error.MalformedHeader? && Lacks(fs, s, ParseShape(raw).error.expected)
  {
    hide ParsePri, TrimEnd, SplitHeaderField, ParseBody, IsClean, FindEnd, Fields;
    var rest := ParsePri(TrimEnd(raw)).value.1;
    fs, s := [], rest;
    assert rest == Fields(fs, s) by { NoFields(rest); }
    var names := ["TIMESTAMP", "HOSTNAME", "APP-NAME", "PROCID", "MSGID"];
    fs, s := NextField(rest, fs, s, names[0]);
    if |fs| == 1 { fs, s := NextField(rest, fs, s, names[1]); }
    if |fs| == 2 { fs, s := NextField(rest, fs, s, names[2]); }
    if |fs| == 3 { fs, s := NextField(rest, fs, s, names[3]); }
    if |fs| == 4 { fs, s := NextField(rest, fs, s, names[4]); }
    if |fs| == 5 {
      BodyFails(s, fs);
    }
  }

  lemma PriHasNone(text: Bytes)
    requires ParsePri(text).Err?
    ensures forall p, rest :: !HasPri(text, p, rest)
  {
    hide ParsePri, HasPri;
    forall p, rest ensures !HasPri(text, p, rest) {
      PriExactly(text, p, rest);
    }
  }

  lemma ShapeFailsExactly(raw: Bytes, text: Bytes, e: ParseError)
    requires TrimsTo(raw, text)
    ensures ParseShape(raw) == Err(e) <==> IsShapeError(text, e)
  {
    TrimExactly(raw, text);
    PriFailsExactly(text, e);
    hide ParsePri, TrimEnd, TrimsTo, IsPriError, HasPri, Fields, Lacks, IsClean;
    if ParsePri(text).Err? {
      PriHasNone(text);
      assert ParseShape(raw) == Err(ParsePri(text).error);
    } else {
      var (p, rest) := ParsePri(text).value;
      PriExactly(text, p, rest);
      if ParseShape(raw) == Err(e) {
        hide ParseShape;
        var fs, s := ShapeLacks(raw);
        assert HasPri(text, p, Fields(fs, s)) && (forall f :: f in fs ==> IsClean(f)) && Lacks(fs, s, e.expected);
      }
      if p', fs, s :| && e.MalformedHeader? && HasPri(text, p', Fields(fs, s)) && (forall f :: f in fs ==> IsClean(f))
                      && Lacks(fs, s, e.expected) {
        PriExactly(text, p', Fields(fs, s));
        LacksFails(raw, p', fs, s, e.expected);
      }
    }
  }

  lemma FaultExactly(m: SyslogMessage, e: ParseError)
    ensures ContentError(m) == Some(e) <==> IsFault(m, e)
  {
    hide CheckContent, IsTimestamp, IsPrintUsAscii;
  }

  /** The parser fails with `e`, or panics, if and only if the trimmed text has the defect that `e`
      names: a bad PRI or version, a missing field, structured data that does not start or does not
      end, or, in a text of the right shape, a field whose content is the first that is wrong. */
  lemma ParseFailsExactly(raw: Bytes, text: Bytes, e: ParseError)
    requires TrimsTo(raw, text)
    ensures Parse(raw) == Err(e)
       <==> || IsShapeError(text, e)
            || exists m, after ::
                 IsHeaderClean(m) && IsSdText(m.structuredData) && ReadsAs(raw, m, after) && IsFault(m, e)
  {
    ShapeFailsExactly(raw, text, e);
    hide ParseShape, IsShapeError, ReadsAs, IsFault, ContentError, IsHeaderClean, IsSdText, TrimsTo;
    if ParseShape(raw).Ok? {
      var m := ParseShape(raw).value;
      var after := ShapeReadAs(raw);
      FaultExactly(m, e);
    }
    if m, after :| IsHeaderClean(m) && IsSdText(m.structuredData) && ReadsAs(raw, m, after) && IsFault(m, e) {
      ShapePrintedAs(raw, m, after);
      FaultExactly(m, e);
    }
  }

  /** Whatever the parser accepts is printable, and prints no longer than it came. */
  lemma ParsedIsPrintable(raw: Bytes)
    requires Parse(raw).Ok?
    ensures IsPrintable(Parse(raw).value)
    ensures |Display(Parse(raw).value)| <= |raw|
  {
    hide ParseShape, Display, IsPrintable, ContentError;
    ShapeRead(raw);
    PrintableIsShaped(Parse(raw).value);
  }

  /** Printing and parsing gives a message back if and only if the message is printable. */
  lemma DisplayParse(m: SyslogMessage)
    ensures Parse(Display(m)) == Ok(m) <==> IsPrintable(m)
  {
    hide ParseShape, Display, IsPrintable, ContentError, IsShaped;
    PrintableIsShaped(m);
    if IsPrintable(m) {
      ShapePrinted(m);
    } else if Parse(Display(m)).Ok? {
      ParsedIsPrintable(Display(m));
    }
  }

  /** Parse, print and parse again: the second parse gives the first one's message. */
  lemma ParsePrintParse(raw: Bytes)
    requires Parse(raw).Ok?
    ensures Parse(Display(Parse(raw).value)) == Parse(raw)
  {
    hide Parse, Display, IsPrintable;
    ParsedIsPrintable(raw);
    DisplayParse(Parse(raw).value);
  }

  // ── When the parser panics ─────────────────────────────────────────────────

  predicate EndsWith(s: Bytes, t: Bytes) {
    |t| <= |s| && s[|s| - |t|..] == t
  }

  lemma EndsWithin(s: Bytes, t: Bytes, u: Bytes)
    requires EndsWith(s, t) && EndsWith(t, u)
    ensures EndsWith(s, u)
  {
    assert s[|s| - |u|..] == s[|s| - |t|..][|t| - |u|..];
  }

  lemma FieldEndsWith(field: Option<Bytes>, rest: Bytes)
    ensures EndsWith(Field(field, rest), rest)
  {
  }

  lemma HeaderEndsWith(m: SyslogMessage, rest: Bytes)
    ensures EndsWith(Header(m, rest), rest)
  {
    hide EndsWith, Field;
    var f1 := Field(m.msgId, rest);
    var f2 := Field(m.procId, f1);
    var f3 := Field(m.appName, f2);
    var f4 := Field(m.hostname, f3);
    FieldEndsWith(m.msgId, rest);
    FieldEndsWith(m.procId, f1);
    FieldEndsWith(m.appName, f2);
    FieldEndsWith(m.hostname, f3);
    FieldEndsWith(m.timestamp, f4);
    EndsWithin(f2, f1, rest);
    EndsWithin(f3, f2, rest);
    EndsWithin(f4, f3, rest);
    EndsWithin(Header(m, rest), f4, rest);
  }

  lemma PriEndsWith(s: Bytes)
    requires ParsePri(s).Ok?
    ensures EndsWith(s, ParsePri(s).value.1)
  {
    hide ParseUnsigned, PriorityFromInteger, SplitOnce, StripPrefix;
    var afterLt := StripPrefix(s, "<").value;
    var pri := SplitOnce(afterLt, '>').value;
    var rest := ParsePri(s).value.1;
    assert EndsWith(s, afterLt) && EndsWith(afterLt, pri.1) && EndsWith(pri.1, rest);
    hide EndsWith;
    EndsWithin(s, afterLt, pri.1);
    EndsWithin(s, pri.1, rest);
  }

  lemma WellCutPart(s: Bytes, k: nat, t: Bytes)
    requires IsWellCut(s) && k + |t| <= |s| && s[k..k + |t|] == t && t != [] && !IsContinuation(t[0])
    ensures IsWellCut(t)
  {
    assert forall i :: 0 <= i < |t| ==> t[i] == s[k + i];
  }

  lemma ShapeNeverPanics(raw: Bytes)
    ensures ParseShape(raw) != Err(Panic)
  {
    hide ParsePri, SplitHeaderField, ParseBody, TrimEnd;
  }

  lemma PartOf(raw: Bytes, s: Bytes, rest: Bytes, sd: Bytes)
    requires s <= raw && EndsWith(s, rest) && sd <= rest
    ensures raw[|s| - |rest|..|s| - |rest| + |sd|] == sd
  {
    var k := |s| - |rest|;
    assert forall i :: 0 <= i < |sd| ==> sd[i] == rest[i] == s[k + i] == raw[k + i];
  }

  /** The structured data is a part of the text and starts with an ASCII byte, so it is cut no
      worse than the text. */
  lemma DataWellCut(raw: Bytes)
    requires IsWellCut(raw) && ParseShape(raw).Ok?
    ensures IsWellCut(ParseShape(raw).value.structuredData)
  {
    hide ParseShape, ParsePri, TrimEnd, Header, IsWellCut, EndsWith, IsAfter, ParseBody;
    var m, s := ParseShape(raw).value, TrimEnd(raw);
    var rest := HeaderRead(raw);
    PriEndsWith(s);
    HeaderEndsWith(m, rest);
    EndsWithin(s, Header(m, rest), rest);
    BodyRead(rest);
    var k, sd := |s| - |rest|, m.structuredData;
    PartOf(raw, s, rest, sd);
    WellCutPart(raw, k, sd);
  }

  /** The text has the shape of a message with valid header fields, and the validator of its
      structured data starts a turn on a byte that a continuation byte follows. */
  ghost predicate CutsInData(raw: Bytes) {
    && ParseShape(raw).Ok? && HeaderError(ParseShape(raw).value).None?
    && var sd := ParseShape(raw).value.structuredData;
       exists t :: t in Started(sd, 0) && CutsCharacter(sd, t)
  }

  /** That is exactly when the parser panics on a UTF-8 text. */
  lemma ParsePanicsExactly(raw: Bytes)
    requires IsWellCut(raw)
    ensures Parse(raw) == Err(Panic) <==> CutsInData(raw)
  {
    hide HeaderError, CheckContent, Started, IsWellCut, CutsCharacter;
    ShapeNeverPanics(raw);
    hide ParseShape;
    if ParseShape(raw).Ok? {
      DataWellCut(raw);
      PanicsExactly(ParseShape(raw).value.structuredData);
    }
  }

  lemma WireHeader(m: SyslogMessage)
    requires m == SyslogMessage(Priority(1, 5), None, Some("h"), Some("a"), Some("p"), Some("i"), "-", "x")
    ensures Header(m, Body("-", "x")) == "- h a p i - x"
  {
    var f1 := Field(Some("i"), Body("-", "x"));
    assert f1 == "i - x";
    var f2 := Field(Some("p"), f1);
    assert f2 == "p i - x";
    var f3 := Field(Some("a"), f2);
    assert f3 == "a p i - x";
    var f4 := Field(Some("h"), f3);
    assert f4 == "h a p i - x";
  }

  lemma WireText(m: SyslogMessage)
    requires m == SyslogMessage(Priority(1, 5), None, Some("h"), Some("a"), Some("p"), Some("i"), "-", "x")
    ensures Display(m) == "<13>1 - h a p i - x"
  {
    assert Decimal(13) == "13" by {
      assert Decimal(1) == "1";
    }
    WireHeader(m);
    hide Decimal, Header, Body;
    assert "<" + "13" + ">1 " + "- h a p i - x" == "<13>1 - h a p i - x";
  }

  /** The order of the fields on the wire, on one message in full. */
  lemma WireExample()
    ensures Parse("<13>1 - h a p i - x")
         == Ok(SyslogMessage(Priority(1, 5), None, Some("h"), Some("a"), Some("p"), Some("i"), "-", "x"))
  {
    var m := SyslogMessage(Priority(1, 5), None, Some("h"), Some("a"), Some("p"), Some("i"), "-", "x");
    assert IsPrintable(m);
    WireText(m);
    DisplayParse(m);
  }
}
