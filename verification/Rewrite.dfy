/** Sender rewriting: logfenced's own identity in the header, the original sender kept as an
    SD-ELEMENT, and what a receiver of the printed message makes of it. */
module Rewrite {
  import opened Text
  import opened Timestamp
  import opened StructuredData
  import opened SdGrammar
  import opened Syslog

  predicate NeedsEscape(c: char) {
    c == '"' || c == '\\' || c == ']'
  }

  function EscapeByte(c: char): Bytes {
    if NeedsEscape(c) then ['\\', c] else [c]
  }

  function Escape(s: Bytes): Bytes {
    if s == [] then [] else EscapeByte(s[0]) + Escape(s[1..])
  }

  /** Reading a PARAM-VALUE back, by section 6.3.3 of RFC 5424. */
  function Unescape(v: Bytes): Bytes {
    if v == [] then []
    else if v[0] == '\\' && |v| > 1 && (v[1] == '"' || v[1] == '\\' || v[1] == ']') then [v[1]] + Unescape(v[2..])
    else [v[0]] + Unescape(v[1..])
  }

  lemma {:induction false} EscapeSnoc(s: Bytes, c: char)
    ensures Escape(s + [c]) == Escape(s) + EscapeByte(c)
  {
    if s == [] {
      assert s + [c] == [c];
      assert Escape([]) == [];
    } else {
      assert (s + [c])[1..] == s[1..] + [c];
      EscapeSnoc(s[1..], c);
    }
  }

  lemma {:induction false} UnescapeEscape(s: Bytes)
    ensures Unescape(Escape(s)) == s
  {
    if s != [] {
      UnescapeEscape(s[1..]);
      var e, rest := EscapeByte(s[0]), Escape(s[1..]);
      assert (e + rest)[|e|..] == rest;
    }
  }

  /** The PARAM-VALUE of section 6.3.3 of RFC 5424, from `i` on: every `"` and `]` is escaped, and
      a backslash stands only before one of these or another backslash. */
  predicate IsEscapedFrom(v: Bytes, i: nat)
    requires i <= |v|
    decreases |v| - i
  {
    if i == |v| then true
    else if v[i] == '\\' then
      i + 2 <= |v| && (v[i + 1] == '"' || v[i + 1] == '\\' || v[i + 1] == ']') && IsEscapedFrom(v, i + 2)
    else v[i] != '"' && v[i] != ']' && IsEscapedFrom(v, i + 1)
  }

  lemma {:induction false} EscapedFrom(s: Bytes, k: nat, v: Bytes)
    requires k <= |v| && v[k..] == Escape(s)
    ensures IsEscapedFrom(v, k)
    decreases |s|
  {
    if s != [] {
      var e, rest := EscapeByte(s[0]), Escape(s[1..]);
      assert v[k..][|e|..] == v[k + |e|..];
      assert v[k..][..|e|] == e;
      assert v[k] == v[k..][0] == e[0];
      assert |e| == 2 ==> v[k + 1] == v[k..][1] == e[1];
      EscapedFrom(s[1..], k + |e|, v);
    }
  }

  lemma {:induction false} EscapedIsValueFrom(v: Bytes, i: nat)
    requires i <= |v| && IsEscapedFrom(v, i)
    ensures IsValueFrom(v, i)
    decreases |v| - i
  {
    if i < |v| {
      EscapedIsValueFrom(v, if v[i] == '\\' then i + 2 else i + 1);
    }
  }

  /** An escaped text is a PARAM-VALUE in the strict sense, and so for the scanners. */
  lemma EscapedIsValue(s: Bytes)
    ensures IsEscapedFrom(Escape(s), 0) && IsValueFrom(Escape(s), 0)
  {
    EscapedFrom(s, 0, Escape(s));
    EscapedIsValueFrom(Escape(s), 0);
  }

  /** `escape_sd_param`: pushes onto the output byte by byte. */
  method EscapeSdParam(s: Bytes) returns (out: Bytes)
    ensures out == Escape(s)
    ensures Unescape(out) == s && IsEscapedFrom(out, 0)
  {
    out := [];
    assert s[..0] == [];
    for i := 0 to |s|
      invariant out == Escape(s[..i])
    {
      assert s[..i + 1] == s[..i] + [s[i]];
      EscapeSnoc(s[..i], s[i]);
      if s[i] == '"' || s[i] == '\\' || s[i] == ']' {
        out := out + ['\\'];
        out := out + [s[i]];
      } else {
        out := out + [s[i]];
      }
    }
    assert s[..|s|] == s;
    UnescapeEscape(s);
    EscapedIsValue(s);
  }

  // ── The rewrite ────────────────────────────────────────────────────────────

  const SRC_ID: Bytes := "logfence-src@65944"

  function Attribute(name: Bytes, value: Bytes): Bytes {
    " " + name + "=\"" + Escape(value) + "\""
  }

  /** The element as the source formats it: `[logfence-src@65944 hostname="…" app="…" pid="…"]`. */
  function SrcText(host: Bytes, app: Bytes, pid: Bytes): Bytes {
    "[" + SRC_ID + Attribute("hostname", host) + Attribute("app", app) + Attribute("pid", pid) + "]"
  }

  function SrcTextOf(m: SyslogMessage): Bytes {
    SrcText(FieldText(m.hostname), FieldText(m.appName), FieldText(m.procId))
  }

  /** `rewrite_sender`, with the process id as a parameter. */
  function RewriteSender(m: SyslogMessage, localHostname: Bytes, pid: nat): (w: SyslogMessage)
    ensures (w.priority, w.timestamp, w.msgId, w.msg) == (m.priority, m.timestamp, m.msgId, m.msg)
    ensures m.structuredData <= w.structuredData || m.structuredData == "-"
  {
    var newSd :=
      if m.structuredData == "-" then SrcTextOf(m) else m.structuredData + " " + SrcTextOf(m);
    m.(hostname := Some(localHostname),
       appName := Some("logfenced"),
       procId := Some(Decimal(pid)),
       structuredData := newSd)
  }

  // ── The element it adds ────────────────────────────────────────────────────

  function SrcElement(host: Bytes, app: Bytes, pid: Bytes): Element {
    Element(SRC_ID,
            [Param("hostname", Escape(host)), Param("app", Escape(app)), Param("pid", Escape(pid))],
            false)
  }

  lemma SrcParams(a: Param, b: Param, c: Param)
    ensures RenderParams([a, b, c]) == RenderParam(a) + RenderParam(b) + RenderParam(c)
  {
    assert [a, b, c][1..] == [b, c] && [b, c][1..] == [c] && [c][1..] == [];
    assert RenderParams([c]) == RenderParam(c);
    assert RenderParams([b, c]) == RenderParam(b) + RenderParam(c);
  }

  lemma SrcConcat(o: Bytes, id: Bytes, a: Bytes, b: Bytes, c: Bytes, close: Bytes)
    ensures o + id + a + b + c + close == o + id + (a + b + c) + "" + close
  {
    Assoc(o + id, a, b);
    Assoc(o + id, a + b, c);
    assert o + id + (a + b + c) + "" == o + id + (a + b + c);
  }

  lemma SrcTextRenders(host: Bytes, app: Bytes, pid: Bytes)
    ensures SrcText(host, app, pid) == RenderElement(SrcElement(host, app, pid))
  {
    hide Escape, RenderParams;
    var a, b, c := Param("hostname", Escape(host)), Param("app", Escape(app)), Param("pid", Escape(pid));
    SrcParams(a, b, c);
    assert Attribute("hostname", host) == RenderParam(a);
    assert Attribute("app", app) == RenderParam(b);
    assert Attribute("pid", pid) == RenderParam(c);
    SrcConcat("[", SRC_ID, RenderParam(a), RenderParam(b), RenderParam(c), "]");
  }

  lemma SrcNames()
    ensures IsSdName(SRC_ID) && '\\' !in SRC_ID
    ensures IsSdName("hostname") && IsSdName("app") && IsSdName("pid")
  {
  }

  lemma SrcElementIsElement(host: Bytes, app: Bytes, pid: Bytes)
    ensures IsElement(SrcElement(host, app, pid)) && '\\' !in SRC_ID
  {
    var e := SrcElement(host, app, pid);
    EscapedIsValue(host);
    EscapedIsValue(app);
    EscapedIsValue(pid);
    SrcNames();
    hide IsSdName, IsValueFrom, Escape;
    assert IsParam(e.params[0]) && IsParam(e.params[1]) && IsParam(e.params[2]);
  }

  lemma SingleRun(e: Element)
    ensures RenderRun([e]) == RenderElement(e)
  {
    hide RenderElement;
    assert [e][1..] == [] && RenderRun([]) == [];
    assert RenderElement(e) + [] == RenderElement(e);
  }

  /** The added element alone is acceptable structured data. */
  lemma SrcTextIsSd(host: Bytes, app: Bytes, pid: Bytes)
    ensures var s := SrcText(host, app, pid);
            && IsSdText(s) && ContentOk(s) && s != "-" && s != [] && Last(s) == ']'
  {
    hide SrcText, FindEnd, RenderParams;
    var e := SrcElement(host, app, pid);
    SrcTextRenders(host, app, pid);
    SrcElementIsElement(host, app, pid);
    var run := RenderRun([e]);
    SingleRun(e);
    ScannersAgree([e], []);
    assert run + [] == run;
  }

  /** The identity logfenced writes is always valid header text. */
  lemma OwnIdentity(pid: nat)
    requires pid < 0x1_0000_0000
    ensures IsPrintUsAscii("logfenced", 48) && "logfenced" != "-"
    ensures IsPrintUsAscii(Decimal(pid), 128) && Decimal(pid) != "-"
  {
    DecimalOfUsize(pid);
    assert IsDigit(Decimal(pid)[0]);
  }

  // ── What the receiver parses ───────────────────────────────────────────────

  /** Printing and parsing gives the rewritten message back if and only if the original had
      no structured data and the local hostname is valid HOSTNAME text other than `-`. */
  lemma RewriteRoundTrip(m: SyslogMessage, host: Bytes, pid: nat)
    requires IsPrintable(m) && pid < 0x1_0000_0000
    ensures Parse(Display(RewriteSender(m, host, pid))) == Ok(RewriteSender(m, host, pid))
       <==> m.structuredData == "-" && host != "-" && IsPrintUsAscii(host, 255)
  {
    hide SrcText, ContentOk, IsTimestamp, Decimal, Display, Parse;
    var w := RewriteSender(m, host, pid);
    DisplayParse(w);
    OwnIdentity(pid);
    if m.structuredData == "-" {
      SrcTextIsSd(FieldText(m.hostname), FieldText(m.appName), FieldText(m.procId));
    } else {
      FindEndOfPrefix(m.structuredData, |m.structuredData|, w.structuredData);
    }
  }

  /** The message a receiver parses when there was structured data: the original structured
      data, and a MSG that starts with the new element. */
  function SeenByReceiver(m: SyslogMessage, host: Bytes, pid: nat): SyslogMessage {
    RewriteSender(m, host, pid).(
      structuredData := m.structuredData,
      msg := SrcTextOf(m) + if m.msg == [] then [] else " " + m.msg)
  }

  lemma SpaceEndsField(sd: Bytes, src: Bytes, msg: Bytes)
    requires src != []
    ensures Body(sd + " " + src, msg) == Body(sd, src + if msg == [] then [] else " " + msg)
  {
    var more := if msg == [] then [] else " " + msg;
    assert sd + " " + src + more == sd + (" " + (src + more));
  }

  lemma SeenIsPrintable(m: SyslogMessage, host: Bytes, pid: nat)
    requires IsPrintable(m) && pid < 0x1_0000_0000
    requires host != "-" && IsPrintUsAscii(host, 255)
    ensures IsPrintable(SeenByReceiver(m, host, pid))
  {
    hide SrcText, IsSdText, ContentOk, IsTimestamp, Decimal;
    OwnIdentity(pid);
    SrcTextIsSd(FieldText(m.hostname), FieldText(m.appName), FieldText(m.procId));
    var src := SrcTextOf(m);
    var msg := src + if m.msg == [] then [] else " " + m.msg;
    assert Last(msg) == if m.msg == [] then ']' else Last(m.msg);
  }

  /** What a receiver makes of the rewritten message, for any valid local hostname: without
      structured data the message itself, with it the element moves into MSG, and a hostname
      of `-` is read as none. */
  function Seen(m: SyslogMessage, host: Bytes, pid: nat): SyslogMessage {
    (if m.structuredData == "-" then RewriteSender(m, host, pid) else SeenByReceiver(m, host, pid)).(
      hostname := NilToOption(host))
  }

  lemma RewriteSeen(m: SyslogMessage, host: Bytes, pid: nat)
    requires IsPrintable(m) && IsPrintUsAscii(host, 255) && pid < 0x1_0000_0000
    ensures Parse(Display(RewriteSender(m, host, pid))) == Ok(Seen(m, host, pid))
  {
    hide SrcText, Parse, IsSdText, ContentOk, Body, IsTimestamp, Decimal;
    var w, seen := RewriteSender(m, host, pid), Seen(m, host, pid);
    OwnIdentity(pid);
    SrcTextIsSd(FieldText(m.hostname), FieldText(m.appName), FieldText(m.procId));
    if m.structuredData != "-" {
      SpaceEndsField(m.structuredData, SrcTextOf(m), m.msg);
      SeenIsPrintable(m, "h", pid);
    }
    assert IsPrintable(seen);
    assert Display(w) == Display(seen);
    DisplayParse(seen);
  }

  /** One element, and unescaping its three values, which are escaped in full, gives the sender of
      `m`. */
  predicate IsSenderOf(es: seq<Element>, m: SyslogMessage) {
    && |es| == 1 && es[0].id == "logfence-src@65944" && |es[0].params| == 3
    && (forall i :: 0 <= i < 3 ==> IsEscapedFrom(es[0].params[i].value, 0))
    && es[0].params[0].name == "hostname" && Unescape(es[0].params[0].value) == FieldText(m.hostname)
    && es[0].params[1].name == "app" && Unescape(es[0].params[1].value) == FieldText(m.appName)
    && es[0].params[2].name == "pid" && Unescape(es[0].params[2].value) == FieldText(m.procId)
  }

  /** The text can be read as SD-ELEMENTs, and however it is read it names the sender of `m`. */
  ghost predicate NamesSender(src: Bytes, m: SyslogMessage) {
    && (exists es: seq<Element> :: IsRun(es) && src == RenderRun(es))
    && (forall es: seq<Element> :: IsRun(es) && src == RenderRun(es) ==> IsSenderOf(es, m))
  }

  lemma SrcIsSender(m: SyslogMessage)
    ensures IsSenderOf([SrcElement(FieldText(m.hostname), FieldText(m.appName), FieldText(m.procId))], m)
  {
    hide Escape, Unescape, IsEscapedFrom;
    var h, a, p := FieldText(m.hostname), FieldText(m.appName), FieldText(m.procId);
    EscapedIsValue(h);
    EscapedIsValue(a);
    EscapedIsValue(p);
    UnescapeEscape(h);
    UnescapeEscape(a);
    UnescapeEscape(p);
    var e := SrcElement(h, a, p);
    assert e.params[0].name == "hostname" && e.params[1].name == "app" && e.params[2].name == "pid";
  }

  lemma SrcNamesSender(m: SyslogMessage)
    ensures NamesSender(SrcTextOf(m), m)
  {
    hide SrcText, SrcElement, IsSenderOf, RenderRun, IsElement;
    var e := SrcElement(FieldText(m.hostname), FieldText(m.appName), FieldText(m.procId));
    SrcIsSender(m);
    SrcTextRenders(FieldText(m.hostname), FieldText(m.appName), FieldText(m.procId));
    SrcElementIsElement(FieldText(m.hostname), FieldText(m.appName), FieldText(m.procId));
    SingleRun(e);
    assert IsRun([e]) && SrcTextOf(m) == RenderRun([e]);
    forall es: seq<Element> | IsRun(es) && SrcTextOf(m) == RenderRun(es) ensures IsSenderOf(es, m) {
      RunInjective(es, [e]);
    }
  }

  /** `w` is `m` with logfenced's identity in the header, and the original sender can be read back,
      in only one way, from the text added to the structured data; nothing else differs. */
  ghost predicate IsRewritten(m: SyslogMessage, host: Bytes, pid: nat, w: SyslogMessage) {
    && w == m.(hostname := Some(host), appName := Some("logfenced"), procId := Some(Decimal(pid)),
               structuredData := w.structuredData)
    && exists src: Bytes ::
         && w.structuredData == (if m.structuredData == "-" then src else m.structuredData + " " + src)
         && NamesSender(src, m)
  }

  lemma RewriteKeepsSender(m: SyslogMessage, host: Bytes, pid: nat)
    ensures IsRewritten(m, host, pid, RewriteSender(m, host, pid))
  {
    hide SrcText, NamesSender, Decimal;
    SrcNamesSender(m);
  }

  /** With structured data, the space before the new element ends the field: the receiver
      sees the original structured data, and the element becomes the start of MSG. */
  lemma RewriteWithStructuredData(m: SyslogMessage, host: Bytes, pid: nat)
    requires IsPrintable(m) && m.structuredData != "-" && pid < 0x1_0000_0000
    requires host != "-" && IsPrintUsAscii(host, 255)
    ensures Parse(Display(RewriteSender(m, host, pid))) == Ok(SeenByReceiver(m, host, pid))
  {
    hide Parse, Display, IsPrintable, SrcTextOf, Decimal;
    RewriteSeen(m, host, pid);
  }
}
