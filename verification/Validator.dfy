/** Validation of the JSON payload and its preparation for forwarding: the CEE cookie policy
    and the optional canonical form. */
module Validator {
  import opened Text
  import opened Syslog
  import opened Json

  /** The JSON library: text to tree and tree to text. */
  datatype JsonLib = JsonLib(parse: Bytes -> Option<Json>, render: Json -> Bytes)

  /** The tree prints to text that parses back to it, that does not start with `@`, and that does
      not end in a line break or NUL. */
  predicate PrintsBack(lib: JsonLib, j: Json) {
    var t := lib.render(j);
    lib.parse(t) == Some(j) && t != [] && t[0] != '@' && !IsTrimmed(Last(t))
  }

  /** What is assumed of it, and only of the texts at hand: if the text is JSON, it does not start
      with `@`, its tree has no duplicate keys, and the sorted form of the tree prints back. */
  predicate IsLawfulOn(lib: JsonLib, s: Bytes) {
    lib.parse(s).Some? ==>
      && s != [] && s[0] != '@'
      && IsMap(lib.parse(s).value)
      && PrintsBack(lib, SortedValue(lib.parse(s).value))
  }

  /** The assumption can be met: for every tree without duplicate keys, in particular for every
      such object, some library is lawful on all texts and parses one of them to it. */
  lemma LawfulExists(j: Json)
    requires IsMap(j)
    ensures exists lib: JsonLib, s: Bytes :: lib.parse(s) == Some(j) && forall t: Bytes :: IsLawfulOn(lib, t)
  {
    hide SortedValue, IsMap;
    var sorted := SortedValue(j);
    var lib := JsonLib(s => if s == "{j}" then Some(j) else if s == "{s}" then Some(sorted) else None, _ => "{s}");
    SortedIsSame(j);
    SortedFixedPoint(j);
    assert lib.parse("{j}") == Some(j) && lib.parse("{s}") == Some(sorted);
    assert forall t: Bytes :: IsLawfulOn(lib, t);
  }

  datatype ValidationMode = Strict | Warn | Off

  datatype CeeMode = Never | Optional | Always

  datatype Discriminator = Discriminator(field: Bytes, schemas: map<Bytes, Json -> bool>)

  datatype Validator = Validator(
    mode: ValidationMode,
    schemas: seq<Json -> bool>,
    discriminator: Option<Discriminator>,
    inputCee: CeeMode,
    outputCee: CeeMode,
    canonicalJson: bool
  )

  datatype ValidationError =
    | NotJson
    | NotObject
    | SchemaRejected
    | UnexpectedCeeCookie
    | MissingCeeCookie

  const CEE_COOKIE: Bytes := "@cee:"

  predicate HasCookie(s: Bytes) {
    CEE_COOKIE <= s
  }

  /** The payload without one leading cookie. */
  function Bare(s: Bytes): (r: Bytes)
    ensures if "@cee:" <= s then s == "@cee:" + r else r == s
  {
    if HasCookie(s) then s[|CEE_COOKIE|..] else s
  }

  /** The first entry with this key, as a string. */
  function StringField(es: seq<Entry>, key: Bytes): Option<Bytes> {
    if es == [] then None
    else if es[0].key == key then (if es[0].value.String? then Some(es[0].value.s) else None)
    else StringField(es[1..], key)
  }

  /** `e` is the first entry with its key. */
  predicate IsFirst(es: seq<Entry>, e: Entry) {
    exists i :: 0 <= i < |es| && es[i] == e && forall j :: 0 <= j < i ==> es[j].key != e.key
  }

  lemma {:induction false} StringFieldExactly(es: seq<Entry>, key: Bytes, s: Bytes)
    ensures StringField(es, key) == Some(s) <==> IsFirst(es, Entry(key, String(s)))
  {
    var e := Entry(key, String(s));
    if es != [] && es[0].key != key {
      var rest := es[1..];
      StringFieldExactly(rest, key, s);
      if i :| 0 <= i < |rest| && rest[i] == e && forall j :: 0 <= j < i ==> rest[j].key != key {
        assert es[i + 1] == e && forall j :: 0 <= j < i + 1 ==> es[j].key != key;
      }
      if i :| 0 <= i < |es| && es[i] == e && forall j :: 0 <= j < i ==> es[j].key != key {
        assert rest[i - 1] == e && forall j :: 0 <= j < i - 1 ==> rest[j] == es[j + 1];
      }
    } else if es != [] {
      assert es[0] == e ==> IsFirst(es, e);
    }
  }

  /** With unique keys, which a JSON map guarantees, this is a lookup. */
  lemma StringFieldLookup(es: seq<Entry>, key: Bytes, s: Bytes)
    requires HasUniqueKeys(es)
    ensures StringField(es, key) == Some(s) <==> Entry(key, String(s)) in es
  {
    StringFieldExactly(es, key, s);
    var e := Entry(key, String(s));
    if i :| 0 <= i < |es| && es[i] == e {
      assert forall j :: 0 <= j < i ==> es[j].key != e.key;
    }
  }

  /** `schema_matches`: the discriminator's schema when it selects one, else any schema. */
  predicate SchemaMatches(v: Validator, value: Json)
    requires value.Object?
  {
    var selected :=
      if v.discriminator.None? then None else StringField(value.entries, v.discriminator.value.field);
    if selected.Some? && selected.value in v.discriminator.value.schemas then
      v.discriminator.value.schemas[selected.value](value)
    else
      |v.schemas| == 0 || exists i | 0 <= i < |v.schemas| :: v.schemas[i](value)
  }

  /** The object holds the discriminator field with a string `s` for which there is a schema. */
  predicate Selects(v: Validator, value: Json, s: Bytes)
    requires value.Object?
  {
    && v.discriminator.Some? && s in v.discriminator.value.schemas
    && IsFirst(value.entries, Entry(v.discriminator.value.field, String(s)))
  }

  /** The schema selected by the discriminator accepts the object; or none is selected, and there
      are no plain schemas or one of them accepts it. */
  ghost predicate Conforms(v: Validator, value: Json)
    requires value.Object?
  {
    && (forall s :: Selects(v, value, s) ==> v.discriminator.value.schemas[s](value))
    && ((forall s :: !Selects(v, value, s)) ==>
          v.schemas == [] || exists i :: 0 <= i < |v.schemas| && v.schemas[i](value))
  }

  lemma SchemaMatchesExactly(v: Validator, value: Json)
    requires value.Object?
    ensures SchemaMatches(v, value) <==> Conforms(v, value)
  {
    hide StringField, IsFirst;
    if v.discriminator.Some? {
      var field := v.discriminator.value.field;
      forall s ensures StringField(value.entries, field) == Some(s)
                  <==> IsFirst(value.entries, Entry(field, String(s)))
      {
        StringFieldExactly(value.entries, field, s);
      }
      var selected := StringField(value.entries, field);
      if selected.Some? && selected.value in v.discriminator.value.schemas {
        assert Selects(v, value, selected.value);
      }
    }
  }

  /** `Validator::validate`. */
  function Validate(lib: JsonLib, v: Validator, m: SyslogMessage): (r: Result<(), ValidationError>)
  {
    if v.inputCee.Never? && HasCookie(m.msg) then Err(UnexpectedCeeCookie)
    else if v.inputCee.Always? && !HasCookie(m.msg) then Err(MissingCeeCookie)
    else
      match lib.parse(Bare(m.msg))
      case None => Err(NotJson)
      case Some(value) =>
        if !value.Object? then Err(NotObject)
        else if v.mode.Off? || SchemaMatches(v, value) then Ok(())
        else if v.mode.Strict? then Err(SchemaRejected)
        else Ok(())
  }

  /** `canonicalize_json`. */
  function CanonicalizeJson(lib: JsonLib, s: Bytes): Option<Bytes> {
    match lib.parse(s)
    case None => None
    case Some(value) => Some(lib.render(SortedValue(value)))
  }

  /** `prepare_for_forwarding`: the new MSG is computed only when something changes. */
  function Prepare(lib: JsonLib, v: Validator, m: SyslogMessage): SyslogMessage {
    var hasCookie := HasCookie(m.msg);
    var bareJson := Bare(m.msg);
    var candidate := if v.canonicalJson then CanonicalizeJson(lib, bareJson) else None;
    var canonical := if candidate.Some? && candidate.value == bareJson then None else candidate;
    var effective := if canonical.Some? then canonical.value else bareJson;
    var newMsg :=
      match v.outputCee
      case Never => if !hasCookie && canonical.None? then None else Some(effective)
      case Optional =>
        if canonical.None? then None
        else Some(if hasCookie then CEE_COOKIE + canonical.value else canonical.value)
      case Always => if hasCookie && canonical.None? then None else Some(CEE_COOKIE + effective);
    if newMsg.Some? then m.(msg := newMsg.value) else m
  }

  // ── What validation establishes ────────────────────────────────────────────

  predicate CookieAllowed(mode: CeeMode, s: Bytes) {
    (mode.Never? ==> !("@cee:" <= s)) && (mode.Always? ==> "@cee:" <= s)
  }

  /** The outcome of validation, case by case and in the source's order. */
  ghost predicate IsVerdict(lib: JsonLib, v: Validator, m: SyslogMessage, r: Result<(), ValidationError>) {
    var bare := if "@cee:" <= m.msg then m.msg[5..] else m.msg;
    var j := lib.parse(bare);
    match r
    case Err(UnexpectedCeeCookie) => v.inputCee.Never? && "@cee:" <= m.msg
    case Err(MissingCeeCookie) => v.inputCee.Always? && !("@cee:" <= m.msg)
    case Err(NotJson) => CookieAllowed(v.inputCee, m.msg) && j.None?
    case Err(NotObject) => CookieAllowed(v.inputCee, m.msg) && j.Some? && !j.value.Object?
    case Err(SchemaRejected) =>
      CookieAllowed(v.inputCee, m.msg) && j.Some? && j.value.Object? && v.mode.Strict? && !Conforms(v, j.value)
    case Ok(_) =>
      && CookieAllowed(v.inputCee, m.msg) && j.Some? && j.value.Object?
      && (v.mode.Strict? ==> Conforms(v, j.value))
  }

  /** Each outcome is given exactly when it is the verdict: a message passes if and only if its
      cookie is allowed, its payload is a JSON object, and in strict mode the object conforms. */
  lemma ValidateExactly(lib: JsonLib, v: Validator, m: SyslogMessage, r: Result<(), ValidationError>)
    ensures Validate(lib, v, m) == r <==> IsVerdict(lib, v, m, r)
  {
    hide SchemaMatches, Conforms;
    var j := lib.parse(Bare(m.msg));
    if r.Ok? {
      assert r.value == ();
    }
    if j.Some? && j.value.Object? {
      SchemaMatchesExactly(v, j.value);
    }
  }

  // ── What preparation does ──────────────────────────────────────────────────

  /** The JSON text that is forwarded. */
  function ForwardedJson(lib: JsonLib, v: Validator, s: Bytes): Bytes {
    var c := if v.canonicalJson then CanonicalizeJson(lib, Bare(s)) else None;
    if c.Some? then c.value else Bare(s)
  }

  predicate WantsCookie(v: Validator, s: Bytes) {
    v.outputCee.Always? || (v.outputCee.Optional? && HasCookie(s))
  }

  lemma CookieJoined(s: Bytes)
    ensures HasCookie(CEE_COOKIE + s) && Bare(CEE_COOKIE + s) == s
  {
  }

  /** Preparation in one line: cookie or not, then the JSON text. */
  lemma PreparedMsg(lib: JsonLib, v: Validator, m: SyslogMessage)
    ensures var json := ForwardedJson(lib, v, m.msg);
            Prepare(lib, v, m) == m.(msg := if WantsCookie(v, m.msg) then CEE_COOKIE + json else json)
  {
    assert HasCookie(m.msg) ==> m.msg == CEE_COOKIE + Bare(m.msg);
  }

  lemma ForwardedParses(lib: JsonLib, v: Validator, s: Bytes)
    requires IsLawfulOn(lib, Bare(s)) && lib.parse(Bare(s)).Some?
    ensures var j, json := lib.parse(Bare(s)).value, ForwardedJson(lib, v, s);
            && !HasCookie(json)
            && lib.parse(json) == Some(if v.canonicalJson then SortedValue(j) else j)
            && IsMap(j) && Same(j, lib.parse(json).value)
  {
    var j := lib.parse(Bare(s)).value;
    SortedIsSame(j);
    CanonicalFormComplete(j, j);
    var json := ForwardedJson(lib, v, s);
  }

  lemma PreparedHasJson(lib: JsonLib, v: Validator, m: SyslogMessage)
    requires IsLawfulOn(lib, Bare(m.msg)) && lib.parse(Bare(m.msg)).Some?
    ensures var p := Prepare(lib, v, m);
            && Bare(p.msg) == ForwardedJson(lib, v, m.msg)
            && HasCookie(p.msg) == WantsCookie(v, m.msg)
            && !HasCookie(Bare(p.msg))
  {
    PreparedMsg(lib, v, m);
    ForwardedParses(lib, v, m.msg);
    CookieJoined(ForwardedJson(lib, v, m.msg));
  }

  // ── Main results ───────────────────────────────────────────────────────────

  /** Of a validated message only MSG changes; its cookie follows the output policy, with
      never a second one behind it; its JSON is the input's up to key order, and sorted when
      canonical output is on; and preparing it again changes nothing. */
  lemma PrepareValidated(lib: JsonLib, v: Validator, m: SyslogMessage)
    requires IsLawfulOn(lib, Bare(m.msg)) && Validate(lib, v, m).Ok?
    ensures var p := Prepare(lib, v, m);
            && p == m.(msg := p.msg)
            && CookieAllowed(v.outputCee, p.msg) && !HasCookie(Bare(p.msg))
            && (v.outputCee.Optional? ==> HasCookie(p.msg) == HasCookie(m.msg))
            && lib.parse(Bare(m.msg)).Some? && lib.parse(Bare(p.msg)).Some?
            && Same(lib.parse(Bare(m.msg)).value, lib.parse(Bare(p.msg)).value)
            && (if v.canonicalJson then IsCanonical(lib.parse(Bare(p.msg)).value) else Bare(p.msg) == Bare(m.msg))
            && Prepare(lib, v, p) == p
  {
    var p := Prepare(lib, v, m);
    PreparedMsg(lib, v, m);
    PreparedHasJson(lib, v, m);
    ForwardedParses(lib, v, m.msg);
    var j := lib.parse(Bare(m.msg)).value;
    SortedIsCanonical(j);
    SortedFixedPoint(j);
    PreparedMsg(lib, v, p);
    assert ForwardedJson(lib, v, p.msg) == ForwardedJson(lib, v, m.msg);
  }

  /** With canonical output, two validated messages are forwarded with the same JSON text if
      and only if their payloads differ only in the order of object keys. */
  lemma CanonicalOutput(lib: JsonLib, v: Validator, m: SyslogMessage, n: SyslogMessage)
    requires IsLawfulOn(lib, Bare(m.msg)) && IsLawfulOn(lib, Bare(n.msg))
    requires v.canonicalJson && Validate(lib, v, m).Ok? && Validate(lib, v, n).Ok?
    ensures Bare(Prepare(lib, v, m).msg) == Bare(Prepare(lib, v, n).msg)
       <==> Same(lib.parse(Bare(m.msg)).value, lib.parse(Bare(n.msg)).value)
  {
    PreparedHasJson(lib, v, m);
    PreparedHasJson(lib, v, n);
    ForwardedParses(lib, v, m.msg);
    ForwardedParses(lib, v, n.msg);
    CanonicalFormComplete(lib.parse(Bare(m.msg)).value, lib.parse(Bare(n.msg)).value);
  }

  /** A validated printable message stays printable, so its wire form parses back to it. */
  lemma PreparedIsPrintable(lib: JsonLib, v: Validator, m: SyslogMessage)
    requires IsLawfulOn(lib, Bare(m.msg)) && Validate(lib, v, m).Ok? && IsPrintable(m)
    ensures IsPrintable(Prepare(lib, v, m))
    ensures Parse(Display(Prepare(lib, v, m))) == Ok(Prepare(lib, v, m))
  {
    hide Display, Parse, Prepare, SortedValue;
    var p := Prepare(lib, v, m);
    var json := ForwardedJson(lib, v, m.msg);
    var j := lib.parse(Bare(m.msg)).value;
    PreparedMsg(lib, v, m);
    ForwardedParses(lib, v, m.msg);
    SortedIsSame(j);
    assert json != [] && !IsTrimmed(Last(json));
    assert Last(CEE_COOKIE + json) == Last(json);
    DisplayParse(p);
  }
}
