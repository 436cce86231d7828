/** The SD-ELEMENT grammar of section 6.3 of RFC 5424 as trees, and what the two
    STRUCTURED-DATA scanners do on every rendering of it. The trees cover the grammar and two
    liberties of the scanners: a bare `]` in a value, and one space before a closing `]`. */
module SdGrammar {
  import opened Text
  import opened StructuredData

  datatype Param = Param(name: Bytes, value: Bytes)

  /** `pad` is the one space before `]` that the validator also lets through. */
  datatype Element = Element(id: Bytes, params: seq<Param>, pad: bool)

  function RenderParam(p: Param): Bytes {
    " " + p.name + "=\"" + p.value + "\""
  }

  function RenderParams(ps: seq<Param>): Bytes {
    if ps == [] then [] else RenderParam(ps[0]) + RenderParams(ps[1..])
  }

  function RenderPad(pad: bool): Bytes {
    if pad then " " else ""
  }

  function RenderElement(e: Element): (s: Bytes)
    ensures s != [] && s[0] == '['
  {
    "[" + e.id + RenderParams(e.params) + RenderPad(e.pad) + "]"
  }

  function RenderRun(es: seq<Element>): Bytes {
    if es == [] then [] else RenderElement(es[0]) + RenderRun(es[1..])
  }

  /** From `i` on, every quote is escaped and no escape is left open. A bare `]` is let
      through as well, which section 6.3.3 does not allow, so this covers every PARAM-VALUE. */
  predicate IsValueFrom(v: Bytes, i: nat)
    requires i <= |v|
    decreases |v| - i
  {
    if i == |v| then true
    else if v[i] == '\\' then i + 2 <= |v| && IsValueFrom(v, i + 2)
    else v[i] != '"' && IsValueFrom(v, i + 1)
  }

  predicate IsParam(p: Param) {
    IsSdName(p.name) && IsValueFrom(p.value, 0)
  }

  predicate IsElement(e: Element) {
    IsSdName(e.id) && forall k :: 0 <= k < |e.params| ==> IsParam(e.params[k])
  }

  predicate IsRun(es: seq<Element>) {
    forall k :: 0 <= k < |es| ==> IsElement(es[k])
  }

  /** One turn of the validator: a byte it does not look at, the content of an element, and the
      closing bracket, if there is one. */
  datatype Turn = Turn(lead: char, element: Element, closed: bool)

  function RenderClose(closed: bool): Bytes {
    if closed then "]" else ""
  }

  function RenderTurn(t: Turn): (s: Bytes)
    ensures s != [] && s[0] == t.lead
  {
    [t.lead] + t.element.id + RenderParams(t.element.params) + RenderPad(t.element.pad) + RenderClose(t.closed)
  }

  function RenderTurns(ts: seq<Turn>): Bytes {
    if ts == [] then [] else RenderTurn(ts[0]) + RenderTurns(ts[1..])
  }

  predicate IsTurn(t: Turn) {
    IsElement(t.element) && (t.element.pad ==> t.closed)
  }

  /** The bracket is left out only at the end of the text, or after a parameter when neither a space
      nor a bracket follows. */
  predicate IsTurnAt(ts: seq<Turn>, k: nat)
    requires k < |ts|
  {
    && IsTurn(ts[k])
    && (ts[k].closed || k + 1 == |ts| || (ts[k].element.params != [] && ts[k + 1].lead !in {' ', ']'}))
  }

  predicate AreTurns(ts: seq<Turn>) {
    forall k :: 0 <= k < |ts| ==> IsTurnAt(ts, k)
  }

  /** An odd number of backslashes at the end. */
  predicate EndsEscaping(s: Bytes) {
    s != [] && Last(s) == '\\' && !EndsEscaping(s[..|s| - 1])
  }

  /** The element's closing `]` directly follows an open backslash of its SD-ID. */
  predicate Dangling(e: Element) {
    e.params == [] && !e.pad && EndsEscaping(e.id)
  }

  /** Where the elements of a run start. */
  function Starts(es: seq<Element>, at: nat): seq<nat> {
    if es == [] then [] else [at] + Starts(es[1..], at + |RenderElement(es[0])|)
  }

  // ── Text at a position ─────────────────────────────────────────────────────

  predicate Holds(s: Bytes, i: nat, p: Bytes) {
    i + |p| <= |s| && s[i..i + |p|] == p
  }

  lemma HoldsSplit(s: Bytes, i: nat, p: Bytes, q: Bytes)
    requires Holds(s, i, p + q)
    ensures Holds(s, i, p) && Holds(s, i + |p|, q)
  {
    var t := s[i..i + |p| + |q|];
    assert t[..|p|] == s[i..i + |p|] && t[|p|..] == s[i + |p|..i + |p| + |q|];
  }

  lemma HoldsAt(s: Bytes, i: nat, p: Bytes, k: nat)
    requires Holds(s, i, p) && k < |p|
    ensures s[i + k] == p[k]
  {
    assert s[i..i + |p|][k] == s[i + k];
  }

  lemma HoldsParts(s: Bytes, i: nat, a: Bytes, b: Bytes, c: Bytes, d: Bytes, e: Bytes)
    requires Holds(s, i, a + b + c + d + e)
    ensures Holds(s, i, a) && Holds(s, i + |a|, b) && Holds(s, i + |a| + |b|, c)
    ensures Holds(s, i + |a| + |b| + |c|, d) && Holds(s, i + |a| + |b| + |c| + |d|, e)
  {
    HoldsSplit(s, i, a + b + c + d, e);
    HoldsSplit(s, i, a + b + c, d);
    HoldsSplit(s, i, a + b, c);
    HoldsSplit(s, i, a, b);
  }

  lemma Cut(s: Bytes, i: nat, j: nat, k: nat)
    requires i <= j <= k <= |s|
    ensures s[i..k] == s[i..j] + s[j..k]
  {
  }

  lemma SliceParts(s: Bytes, i: nat, j: nat, k: nat, l: nat, m: nat, n: nat)
    requires i <= j <= k <= l <= m <= n <= |s|
    ensures s[i..n] == s[i..j] + s[j..k] + s[k..l] + s[l..m] + s[m..n]
  {
    Cut(s, i, m, n);
    Cut(s, i, l, m);
    Cut(s, i, k, l);
    Cut(s, i, j, k);
  }

  // ── The scanner for the end ────────────────────────────────────────────────

  lemma {:induction false} NameRead(s: Bytes, i: nat, p: Bytes)
    requires Holds(s, i, p) && forall k :: 0 <= k < |p| ==> IsNameChar(p[k])
    ensures After(s, i, i + |p|, Inside(false, false)) == Some(Inside(false, EndsEscaping(p)))
  {
    if p != [] {
      var init := p[..|p| - 1];
      assert p == init + [Last(p)];
      HoldsSplit(s, i, init, [Last(p)]);
      NameRead(s, i, init);
      HoldsAt(s, i + |init|, [Last(p)], 0);
      AfterJoin(s, i, i + |init|, i + |p|, Inside(false, false));
      assert After(s, i + |p|, i + |p|, Inside(false, EndsEscaping(p))).Some?;
    }
  }

  lemma {:induction false} ValueRead(s: Bytes, i: nat, v: Bytes, k: nat)
    requires Holds(s, i, v) && k <= |v| && IsValueFrom(v, k)
    ensures After(s, i + k, i + |v|, Inside(true, false)) == Some(Inside(true, false))
    ensures i + |v| < |s| && s[i + |v|] == '"' ==> SkipValue(s, i + k, false) == Some(i + |v| + 1)
    decreases |v| - k
  {
    if k < |v| {
      HoldsAt(s, i, v, k);
      if v[k] == '\\' {
        ValueRead(s, i, v, k + 2);
      } else {
        ValueRead(s, i, v, k + 1);
      }
    }
  }

  lemma ParamLayout(s: Bytes, i: nat, p: Param)
    requires Holds(s, i, RenderParam(p))
    ensures var v := i + 1 + |p.name| + 2;
            && v + |p.value| < |s| && |RenderParam(p)| == v - i + |p.value| + 1
            && s[i] == ' ' && Holds(s, i + 1, p.name)
            && s[v - 2] == '=' && s[v - 1] == '"' && Holds(s, v, p.value)
            && s[v + |p.value|] == '"'
  {
    var v := i + 1 + |p.name| + 2;
    HoldsParts(s, i, " ", p.name, "=\"", p.value, "\"");
    HoldsAt(s, i, " ", 0);
    HoldsAt(s, v - 2, "=\"", 0);
    HoldsAt(s, v - 2, "=\"", 1);
    HoldsAt(s, v + |p.value|, "\"", 0);
  }

  /** Whatever escape is open before a parameter is spent on its leading space. */
  lemma ParamRead(s: Bytes, i: nat, p: Param, escaped: bool)
    requires Holds(s, i, RenderParam(p)) && IsParam(p)
    ensures After(s, i, i + |RenderParam(p)|, Inside(false, escaped)) == Some(Inside(false, false))
  {
    hide RenderParam, EndsEscaping;
    var n, v := i + 1, i + 1 + |p.name| + 2;
    ParamLayout(s, i, p);
    assert After(s, i, n, Inside(false, escaped)) == Some(Inside(false, false));
    NameRead(s, n, p.name);
    AfterJoin(s, i, n, v - 2, Inside(false, escaped));
    AfterJoin(s, i, v - 2, v, Inside(false, escaped));
    assert After(s, v - 2, v, Inside(false, EndsEscaping(p.name))) == Some(Inside(true, false)) by {
      assert After(s, v - 1, v, Inside(false, false)) == Some(Inside(true, false));
    }
    ValueRead(s, v, p.value, 0);
    AfterJoin(s, i, v, v + |p.value|, Inside(false, escaped));
    AfterJoin(s, i, v + |p.value|, v + |p.value| + 1, Inside(false, escaped));
  }

  lemma {:induction false} ParamsRead(s: Bytes, i: nat, ps: seq<Param>, escaped: bool)
    requires Holds(s, i, RenderParams(ps)) && forall k :: 0 <= k < |ps| ==> IsParam(ps[k])
    ensures After(s, i, i + |RenderParams(ps)|, Inside(false, escaped))
         == Some(Inside(false, ps == [] && escaped))
    decreases |ps|
  {
    if ps != [] {
      var j := i + |RenderParam(ps[0])|;
      HoldsSplit(s, i, RenderParam(ps[0]), RenderParams(ps[1..]));
      ParamRead(s, i, ps[0], escaped);
      ParamsRead(s, j, ps[1..], false);
      AfterJoin(s, i, j, i + |RenderParams(ps)|, Inside(false, escaped));
    }
  }

  lemma ElementLayout(s: Bytes, i: nat, e: Element)
    requires Holds(s, i, RenderElement(e))
    ensures var n := i + 1 + |e.id|;
            var m := n + |RenderParams(e.params)|;
            var c := m + |RenderPad(e.pad)|;
            && c < |s| && |RenderElement(e)| == c - i + 1
            && s[i] == '[' && Holds(s, i + 1, e.id) && Holds(s, n, RenderParams(e.params))
            && (e.pad ==> s[m] == ' ') && s[c] == ']'
  {
    hide RenderParams;
    var ps, pad := RenderParams(e.params), RenderPad(e.pad);
    var m := i + 1 + |e.id| + |ps|;
    HoldsParts(s, i, "[", e.id, ps, pad, "]");
    HoldsAt(s, i, "[", 0);
    HoldsAt(s, m + |pad|, "]", 0);
    if e.pad {
      HoldsAt(s, m, pad, 0);
    }
  }

  lemma ClosingRead(s: Bytes, m: nat, pad: bool, escaped: bool)
    requires var c := m + |RenderPad(pad)|;
             c < |s| && (pad ==> s[m] == ' ') && s[c] == ']'
    ensures After(s, m, m + |RenderPad(pad)| + 1, Inside(false, escaped))
         == Some(if escaped && !pad then Inside(false, false) else Between)
  {
    var c := m + |RenderPad(pad)|;
    if pad {
      assert After(s, m + 1, c + 1, Inside(false, false)) == Some(Between);
    }
  }

  /** An element brings the scanner back between elements unless its closing bracket is
      escaped, and then it stays inside; also when it was still inside before. */
  lemma ElementRead(s: Bytes, i: nat, e: Element, st: Scan)
    requires Holds(s, i, RenderElement(e)) && IsElement(e)
    requires st == Between || st == Inside(false, false)
    ensures After(s, i, i + |RenderElement(e)|, st)
         == Some(if Dangling(e) then Inside(false, false) else Between)
  {
    hide RenderElement, RenderParams, RenderPad, EndsEscaping, IsParam;
    ElementLayout(s, i, e);
    var n := i + 1 + |e.id|;
    var m := n + |RenderParams(e.params)|;
    var c := m + |RenderPad(e.pad)|;
    assert After(s, i, i + 1, st) == Some(Inside(false, false));
    NameRead(s, i + 1, e.id);
    AfterJoin(s, i, i + 1, n, st);
    ParamsRead(s, n, e.params, EndsEscaping(e.id));
    AfterJoin(s, i, n, m, st);
    AfterJoin(s, i, m, c + 1, st);
    ClosingRead(s, m, e.pad, e.params == [] && EndsEscaping(e.id));
  }

  lemma {:induction false} RunRead(s: Bytes, i: nat, es: seq<Element>, st: Scan)
    requires es != [] && IsRun(es) && Holds(s, i, RenderRun(es))
    requires st == Between || st == Inside(false, false)
    ensures After(s, i, i + |RenderRun(es)|, st)
         == Some(if Dangling(es[|es| - 1]) then Inside(false, false) else Between)
    decreases |es|
  {
    hide RenderElement, IsElement, Dangling, After;
    var j := i + |RenderElement(es[0])|;
    HoldsSplit(s, i, RenderElement(es[0]), RenderRun(es[1..]));
    ElementRead(s, i, es[0], st);
    if |es| > 1 {
      RunRead(s, j, es[1..], After(s, i, j, st).value);
      AfterJoin(s, i, j, i + |RenderRun(es)|, st);
    }
  }

  // ── The end of any text ────────────────────────────────────────────────────

  /** The quotes in `s[lo..j]` that no backslash escapes. */
  function Quotes(s: Bytes, lo: nat, j: nat): nat
    requires lo <= j <= |s|
  {
    if lo == j then 0
    else Quotes(s, lo, j - 1) + if s[j - 1] == '"' && !EndsEscaping(s[lo..j - 1]) then 1 else 0
  }

  /** At `j` is a bracket, neither escaped nor quoted in what follows position `i`. */
  predicate Closes(s: Bytes, i: nat, j: nat)
    requires i < j < |s|
  {
    s[j] == ']' && !EndsEscaping(s[i + 1..j]) && Quotes(s, i + 1, j) % 2 == 0
  }

  /** The element that starts at `i` ends with the bracket at `j`. */
  predicate EndsElement(s: Bytes, i: nat, j: nat) {
    i < j < |s| && Closes(s, i, j) && forall k :: i < k < j ==> !Closes(s, i, k)
  }

  lemma EscapingNext(s: Bytes, lo: nat, j: nat)
    requires lo <= j < |s|
    ensures EndsEscaping(s[lo..j + 1]) <==> s[j] == '\\' && !EndsEscaping(s[lo..j])
  {
    assert s[lo..j + 1][..j - lo] == s[lo..j];
  }

  lemma NotEscaping()
    ensures !EndsEscaping([])
  {
  }

  lemma LastRead(s: Bytes, j: nat, st: Scan)
    requires j < |s| && st.Inside?
    ensures After(s, j, j + 1, st) == Some(Read(st, s[j]))
  {
    assert After(s, j + 1, j + 1, Read(st, s[j])) == Some(Read(st, s[j]));
  }

  lemma {:induction false} NeverCloses(s: Bytes, i: nat, n: nat)
    requires i < n <= |s| && forall j: nat :: !EndsElement(s, i, j)
    ensures forall k :: i < k < n ==> !Closes(s, i, k)
    decreases n
  {
    hide Closes;
    if i + 1 < n {
      NeverCloses(s, i, n - 1);
      assert !EndsElement(s, i, n - 1);
    }
  }

  /** Inside an element that has not ended, the two flags say whether a quote and an escape are
      open. */
  lemma {:induction false} InsideState(s: Bytes, i: nat, j: nat)
    requires i < j <= |s| && forall k :: i < k < j ==> !Closes(s, i, k)
    ensures After(s, i + 1, j, Inside(false, false))
         == Some(Inside(Quotes(s, i + 1, j) % 2 == 1, EndsEscaping(s[i + 1..j])))
    decreases j
  {
    hide EndsEscaping;
    var lo := i + 1;
    if lo == j {
      assert s[lo..j] == [];
      NotEscaping();
    } else {
      InsideState(s, i, j - 1);
      AfterJoin(s, lo, j - 1, j, Inside(false, false));
      EscapingNext(s, lo, j - 1);
      assert !Closes(s, i, j - 1);
      LastRead(s, j - 1, Inside(Quotes(s, lo, j - 1) % 2 == 1, EndsEscaping(s[lo..j - 1])));
    }
  }

  /** On every text: the scanner stops where no element starts, goes on behind the first closing
      bracket of an element that is neither escaped nor quoted, and finds no end without one. */
  lemma FindEndExactly(s: Bytes, i: nat)
    requires i <= |s|
    ensures i == |s| || s[i] != '[' ==> FindEnd(s, i, Between) == Some(i)
    ensures i < |s| && s[i] == '[' ==>
              forall j: nat :: EndsElement(s, i, j) ==> FindEnd(s, i, Between) == FindEnd(s, j + 1, Between)
    ensures i < |s| && s[i] == '[' && (forall j: nat :: !EndsElement(s, i, j)) ==> FindEnd(s, i, Between) == None
  {
    hide EndsEscaping, Quotes;
    if i < |s| && s[i] == '[' {
      assert FindEnd(s, i, Between) == FindEnd(s, i + 1, Inside(false, false));
      forall j: nat | EndsElement(s, i, j) ensures FindEnd(s, i, Between) == FindEnd(s, j + 1, Between) {
        InsideState(s, i, j);
        FindEndAfter(s, i + 1, j, Inside(false, false));
      }
      if forall j: nat :: !EndsElement(s, i, j) {
        NeverCloses(s, i, |s|);
        InsideState(s, i, |s|);
        FindEndAfter(s, i + 1, |s|, Inside(false, false));
      }
    }
  }

  // ── The content validator ──────────────────────────────────────────────────

  /** A name ends at the first stop byte after it. */
  lemma NameUntil(s: Bytes, i: nat, name: Bytes, a: char, b: char)
    requires Holds(s, i, name) && IsSdName(name) && !IsNameChar(a) && !IsNameChar(b)
    requires i + |name| == |s| || s[i + |name|] == a || s[i + |name|] == b
    ensures Until(s, i, a, b) == i + |name|
  {
    var n := i + |name|;
    assert forall k :: i <= k < n ==> s[k] == s[i..n][k - i];
  }

  lemma ParamSkipped(s: Bytes, i: nat, p: Param)
    requires Holds(s, i, RenderParam(p)) && IsParam(p)
    ensures s[i] == ' ' && i + 1 < |s| && s[i + 1] != ']'
    ensures SkipParam(s, i + 1) == Next(i + |RenderParam(p)|)
  {
    hide RenderParam, IsValueFrom, SkipValue, After;
    ParamLayout(s, i, p);
    var n := i + 1 + |p.name|;
    NameUntil(s, i + 1, p.name, '=', ']');
    ValueRead(s, n + 2, p.value, 0);
    assert s[i + 1] == s[i + 1..n][0] && IsNameChar(s[i + 1]);
    assert SkipName(s, i + 1, n) == Next(n);
  }

  /** Where parameters end: at no space, or, padded, at a space before `]`. */
  predicate EndsParams(s: Bytes, m: nat, pad: bool) {
    if pad then m + 1 < |s| && s[m] == ' ' && s[m + 1] == ']' else m == |s| || (m < |s| && s[m] != ' ')
  }

  lemma {:induction false} ParamsSkipped(s: Bytes, i: nat, ps: seq<Param>, pad: bool)
    requires Holds(s, i, RenderParams(ps)) && forall k :: 0 <= k < |ps| ==> IsParam(ps[k])
    requires EndsParams(s, i + |RenderParams(ps)|, pad)
    ensures SkipParams(s, i) == Next(i + |RenderParams(ps)| + |RenderPad(pad)|)
    ensures ps != [] || pad ==> s[i] == ' '
    decreases |ps|
  {
    hide RenderParam, IsParam, SkipParam;
    if ps != [] {
      HoldsSplit(s, i, RenderParam(ps[0]), RenderParams(ps[1..]));
      ParamSkipped(s, i, ps[0]);
      ParamsSkipped(s, i + |RenderParam(ps[0])|, ps[1..], pad);
    }
  }

  lemma TurnEnds(s: Bytes, i: nat, n: nat, c: nat)
    requires i + 1 <= n <= c <= |s|
    requires Until(s, i + 1, ' ', ']') == n && IsSdName(s[i + 1..n]) && SkipParams(s, n) == Next(c)
    ensures SkipElement(s, i) == Next(if c < |s| && s[c] == ']' then c + 1 else c)
  {
    hide Until, SkipParams;
    var id := s[i + 1..n];
    assert s[i + 1] == id[0] && IsNameChar(id[0]);
    assert SkipName(s, i + 1, n) == Next(n);
  }

  lemma TurnLayout(s: Bytes, i: nat, t: Turn)
    requires Holds(s, i, RenderTurn(t))
    ensures var n := i + 1 + |t.element.id|;
            var m := n + |RenderParams(t.element.params)|;
            var c := m + |RenderPad(t.element.pad)|;
            && |RenderTurn(t)| == c - i + |RenderClose(t.closed)| && c + |RenderClose(t.closed)| <= |s|
            && Holds(s, i + 1, t.element.id) && Holds(s, n, RenderParams(t.element.params))
            && (t.element.pad ==> s[m] == ' ') && (t.closed ==> s[c] == ']')
  {
    hide RenderParams;
    var ps, pad, close := RenderParams(t.element.params), RenderPad(t.element.pad), RenderClose(t.closed);
    var m := i + 1 + |t.element.id| + |ps|;
    HoldsParts(s, i, [t.lead], t.element.id, ps, pad, close);
    if t.element.pad {
      HoldsAt(s, m, pad, 0);
    }
    if t.closed {
      HoldsAt(s, m + |pad|, close, 0);
    }
  }

  lemma NoneRendered(ps: seq<Param>)
    ensures ps == [] <==> RenderParams(ps) == []
  {
  }

  lemma TurnSkipped(s: Bytes, i: nat, t: Turn)
    requires Holds(s, i, RenderTurn(t)) && IsTurn(t)
    requires var j := i + |RenderTurn(t)|;
             t.closed || j == |s| || (t.element.params != [] && s[j] != ' ' && s[j] != ']')
    ensures SkipElement(s, i) == Next(i + |RenderTurn(t)|)
  {
    hide RenderTurn, RenderParams, SkipElement, SkipParams, IsParam;
    TurnLayout(s, i, t);
    var e := t.element;
    var n := i + 1 + |e.id|;
    ParamsSkipped(s, n, e.params, e.pad);
    NoneRendered(e.params);
    NameUntil(s, i + 1, e.id, ' ', ']');
    TurnEnds(s, i, n, n + |RenderParams(e.params)| + |RenderPad(e.pad)|);
  }

  lemma ElementIsTurn(e: Element)
    ensures RenderElement(e) == RenderTurn(Turn('[', e, true))
  {
    hide RenderParams, RenderPad;
  }

  lemma ElementSkipped(s: Bytes, i: nat, e: Element)
    requires Holds(s, i, RenderElement(e)) && IsElement(e)
    ensures SkipElement(s, i) == Next(i + |RenderElement(e)|)
  {
    hide RenderElement, RenderTurn, SkipElement, IsElement;
    ElementIsTurn(e);
    TurnSkipped(s, i, Turn('[', e, true));
  }

  // ── Renderings determine their trees ───────────────────────────────────────

  lemma ParamHeld(s: Bytes, i: nat, p: Param)
    requires Holds(s, i, RenderParam(p)) && IsParam(p)
    ensures var (n, j) := (Until(s, i + 1, '=', ']'), SkipParam(s, i + 1));
            j.Next? && n + 3 <= j.value <= |s| && p == Param(s[i + 1..n], s[n + 2..j.value - 1])
  {
    hide RenderParam, IsValueFrom, SkipParam;
    ParamSkipped(s, i, p);
    ParamLayout(s, i, p);
    NameUntil(s, i + 1, p.name, '=', ']');
  }

  lemma ParamInjective(s: Bytes, i: nat, p: Param, q: Param)
    requires Holds(s, i, RenderParam(p)) && IsParam(p) && Holds(s, i, RenderParam(q)) && IsParam(q)
    ensures p == q
  {
    hide RenderParam, IsParam, SkipParam, Holds;
    ParamHeld(s, i, p);
    ParamHeld(s, i, q);
  }

  predicate AreParams(ps: seq<Param>) {
    forall k :: 0 <= k < |ps| ==> IsParam(ps[k])
  }

  /** At `m` comes the padding, and then `]`. */
  predicate ClosesAt(s: Bytes, m: nat, pad: bool) {
    m + |RenderPad(pad)| < |s| && (pad ==> s[m] == ' ') && s[m + |RenderPad(pad)|] == ']'
  }

  /** `s` holds at `i` these parameters, this padding, and then `]`. */
  predicate HoldsParams(s: Bytes, i: nat, ps: seq<Param>, pad: bool) {
    Holds(s, i, RenderParams(ps)) && AreParams(ps) && ClosesAt(s, i + |RenderParams(ps)|, pad)
  }

  lemma HoldsParamsTail(s: Bytes, i: nat, ps: seq<Param>, pad: bool)
    requires HoldsParams(s, i, ps, pad) && ps != []
    ensures Holds(s, i, RenderParam(ps[0])) && IsParam(ps[0])
    ensures HoldsParams(s, i + |RenderParam(ps[0])|, ps[1..], pad)
  {
    hide IsParam, RenderParam, ClosesAt, Holds;
    var p, rest := RenderParam(ps[0]), RenderParams(ps[1..]);
    assert RenderParams(ps) == p + rest;
    HoldsSplit(s, i, p, rest);
    assert i + |p| + |rest| == i + |RenderParams(ps)|;
  }

  /** After no parameters comes ` ]` or `]`, before a parameter neither. */
  lemma NoParams(s: Bytes, i: nat, ps: seq<Param>, pad: bool)
    requires HoldsParams(s, i, ps, pad)
    ensures i < |s| && (s[i] == ']' || (i + 1 < |s| && s[i] == ' '))
    ensures ps == [] <==> s[i] == ']' || s[i + 1] == ']'
    ensures ps == [] ==> (pad <==> s[i] == ' ')
  {
    hide IsParam, SkipParam, SkipParams;
    if ps != [] {
      HoldsParamsTail(s, i, ps, pad);
      ParamSkipped(s, i, ps[0]);
    }
  }

  lemma {:induction false} ParamsInjective(
    s: Bytes, i: nat, ps: seq<Param>, pad: bool, qs: seq<Param>, pad': bool)
    requires HoldsParams(s, i, ps, pad) && HoldsParams(s, i, qs, pad')
    ensures ps == qs && pad == pad'
    decreases |ps|
  {
    hide HoldsParams, IsParam, RenderParam, Holds;
    NoParams(s, i, ps, pad);
    NoParams(s, i, qs, pad');
    if ps != [] {
      HoldsParamsTail(s, i, ps, pad);
      HoldsParamsTail(s, i, qs, pad');
      ParamInjective(s, i, ps[0], qs[0]);
      ParamsInjective(s, i + |RenderParam(ps[0])|, ps[1..], pad, qs[1..], pad');
      assert ps == [ps[0]] + ps[1..] && qs == [qs[0]] + qs[1..];
    }
  }

  lemma ElementHeld(s: Bytes, i: nat, e: Element)
    requires Holds(s, i, RenderElement(e)) && IsElement(e)
    ensures var n := i + 1 + |e.id|;
            n <= |s| && s[i + 1..n] == e.id && Until(s, i + 1, ' ', ']') == n && HoldsParams(s, n, e.params, e.pad)
  {
    hide RenderElement, RenderParams, RenderPad, IsParam;
    ElementLayout(s, i, e);
    NoParams(s, i + 1 + |e.id|, e.params, e.pad);
    NameUntil(s, i + 1, e.id, ' ', ']');
  }

  lemma ElementInjective(s: Bytes, i: nat, e: Element, f: Element)
    requires Holds(s, i, RenderElement(e)) && IsElement(e) && Holds(s, i, RenderElement(f)) && IsElement(f)
    ensures e == f
  {
    hide RenderElement, IsElement, Holds, HoldsParams;
    ElementHeld(s, i, e);
    ElementHeld(s, i, f);
    ParamsInjective(s, i + 1 + |e.id|, e.params, e.pad, f.params, f.pad);
  }

  lemma {:induction false} RunInjectiveAt(s: Bytes, i: nat, es: seq<Element>, fs: seq<Element>)
    requires IsRun(es) && IsRun(fs) && Holds(s, i, RenderRun(es)) && Holds(s, i, RenderRun(fs))
    requires i + |RenderRun(es)| == |s| == i + |RenderRun(fs)|
    ensures es == fs
    decreases |es|
  {
    hide RenderElement, IsElement;
    if es != [] && fs != [] {
      HoldsSplit(s, i, RenderElement(es[0]), RenderRun(es[1..]));
      HoldsSplit(s, i, RenderElement(fs[0]), RenderRun(fs[1..]));
      ElementInjective(s, i, es[0], fs[0]);
      RunInjectiveAt(s, i + |RenderElement(es[0])|, es[1..], fs[1..]);
      assert es == [es[0]] + es[1..] && fs == [fs[0]] + fs[1..];
    }
  }

  /** A text renders at most one run of SD-ELEMENTs. */
  lemma RunInjective(es: seq<Element>, fs: seq<Element>)
    requires IsRun(es) && IsRun(fs) && RenderRun(es) == RenderRun(fs)
    ensures es == fs
  {
    hide RenderRun, IsRun;
    var s := RenderRun(es);
    assert s[0..|s|] == s;
    RunInjectiveAt(s, 0, es, fs);
  }

  // ── Whole runs ─────────────────────────────────────────────────────────────

  lemma {:induction false} RunTurns(s: Bytes, i: nat, es: seq<Element>)
    requires IsRun(es) && Holds(s, i, RenderRun(es)) && |s| == i + |RenderRun(es)|
    ensures Turns(s, i) == Some(Starts(es, i))
    decreases |es|
  {
    hide SkipElement, RenderElement, IsElement;
    if es != [] {
      var j := i + |RenderElement(es[0])|;
      HoldsSplit(s, i, RenderElement(es[0]), RenderRun(es[1..]));
      ElementSkipped(s, i, es[0]);
      RunTurns(s, j, es[1..]);
    }
  }

  predicate OnBracket(s: Bytes, i: nat, t: nat) {
    t < |s| && s[t] == '[' && (t == i || (0 < t && s[t - 1] == ']'))
  }

  lemma {:induction false} StartsAligned(s: Bytes, i: nat, es: seq<Element>)
    requires Holds(s, i, RenderRun(es))
    ensures forall t :: t in Starts(es, i) ==> OnBracket(s, i, t)
    decreases |es|
  {
    hide RenderElement, RenderParams, RenderPad;
    if es != [] {
      var j := i + |RenderElement(es[0])|;
      HoldsSplit(s, i, RenderElement(es[0]), RenderRun(es[1..]));
      ElementLayout(s, i, es[0]);
      StartsAligned(s, j, es[1..]);
      forall t | t in Starts(es, i) ensures OnBracket(s, i, t) {
        if t != i {
          assert t in Starts(es[1..], j);
        }
      }
    }
  }

  // ── The two scanners together ──────────────────────────────────────────────

  lemma EndAfterRun(s: Bytes, n: nat, dangling: bool)
    requires n <= |s| && (n == |s| || s[n] == ' ')
    requires After(s, 0, n, Between) == Some(if dangling then Inside(false, false) else Between)
    ensures FindEnd(s, 0, Between) == Some(n) <==> !dangling
  {
    FindEndAfter(s, 0, n, Between);
    if dangling && FindEnd(s, n, Inside(false, false)).Some? {
      EndIsBetween(s, n, Inside(false, false));
    }
  }

  lemma EndOnGrammar(es: seq<Element>, rest: Bytes)
    requires es != [] && IsRun(es)
    requires rest == [] || rest[0] == ' '
    ensures FindEnd(RenderRun(es) + rest, 0, Between) == Some(|RenderRun(es)|) <==> !Dangling(es[|es| - 1])
  {
    hide RenderRun, IsRun, Dangling, FindEnd, After;
    var run := RenderRun(es);
    var s := run + rest;
    assert s[0..|run|] == run;
    RunRead(s, 0, es, Between);
    EndAfterRun(s, |run|, Dangling(es[|es| - 1]));
  }

  /** On every non-empty run of SD-ELEMENTs the content validator accepts, starting each
      outer turn exactly at an element's `[`. The end scanner stops exactly at the end of
      the run if and only if the closing bracket of the last element is not escaped. */
  lemma ScannersOnGrammar(es: seq<Element>, rest: Bytes)
    requires es != [] && IsRun(es)
    requires rest == [] || rest[0] == ' '
    ensures var run := RenderRun(es);
            && ContentOk(run)
            && Turns(run, 0) == Some(Starts(es, 0))
            && (forall t :: t in Starts(es, 0) ==> t < |run| && run[t] == '[')
            && (FindEnd(run + rest, 0, Between) == Some(|run|) <==> !Dangling(es[|es| - 1]))
  {
    hide RenderRun, IsRun, Dangling, FindEnd, SkipAll, Started, Starts;
    var run := RenderRun(es);
    assert run[0..|run|] == run;
    RunTurns(run, 0, es);
    StartsAligned(run, 0, es);
    EndOnGrammar(es, rest);
  }

  /** When no SD-ID holds a backslash, which section 6.3.2 would allow, the scanners agree. */
  lemma ScannersAgree(es: seq<Element>, rest: Bytes)
    requires es != [] && IsRun(es) && forall k :: 0 <= k < |es| ==> '\\' !in es[k].id
    requires rest == [] || rest[0] == ' '
    ensures FindEnd(RenderRun(es) + rest, 0, Between) == Some(|RenderRun(es)|)
    ensures ContentOk(RenderRun(es))
  {
    ScannersOnGrammar(es, rest);
  }

  // ── Accepted texts are renderings ──────────────────────────────────────────

  /** Every turn starts on a `[` that opens the text or follows a `]`, and the text ends
      with `]`: what the validator relies on but does not test. */
  predicate Aligned(s: Bytes, turns: seq<nat>) {
    && s != [] && Last(s) == ']'
    && forall t :: t in turns ==> t < |s| && s[t] == '[' && (t == 0 || s[t - 1] == ']')
  }

  lemma {:induction false} ValueFound(s: Bytes, i: nat, k: nat, j: nat)
    requires i <= k <= |s| && SkipValue(s, k, false) == Some(j)
    ensures s[j - 1] == '"' && IsValueFrom(s[i..j - 1], k - i)
    decreases |s| - k
  {
    if s[k] == '\\' {
      ValueFound(s, i, k + 2, j);
    } else if s[k] != '"' {
      ValueFound(s, i, k + 1, j);
    }
  }

  lemma ByteAt(s: Bytes, i: nat, c: char)
    requires i < |s| && s[i] == c
    ensures s[i..i + 1] == [c]
  {
  }

  lemma ParamFound(s: Bytes, i: nat, j: nat) returns (p: Param)
    requires i < |s| && s[i] == ' ' && SkipParam(s, i + 1) == Next(j)
    ensures IsParam(p) && s[i..j] == RenderParam(p) && s[j - 1] == '"'
  {
    hide SkipValue, IsSdName, IsValueFrom, Until;
    var n := Until(s, i + 1, '=', ']');
    ValueFound(s, n + 2, n + 2, j);
    p := Param(s[i + 1..n], s[n + 2..j - 1]);
    SliceParts(s, i, i + 1, n, n + 2, j - 1, j);
    ByteAt(s, i, ' ');
    ByteAt(s, n, '=');
    ByteAt(s, n + 1, '"');
    Cut(s, n, n + 1, n + 2);
    ByteAt(s, j - 1, '"');
  }

  lemma {:induction false} ParamsFound(s: Bytes, i: nat, r: nat) returns (ps: seq<Param>, pad: bool)
    requires i <= |s| && SkipParams(s, i) == Next(r)
    ensures forall k :: 0 <= k < |ps| ==> IsParam(ps[k])
    ensures s[i..r] == RenderParams(ps) + RenderPad(pad)
    ensures EndsParams(s, r - |RenderPad(pad)|, pad)
    ensures if ps == [] && !pad then r == i else r > i && s[r - 1] != ']'
    decreases |s| - i
  {
    hide SkipParam, IsParam, RenderParam;
    if i == |s| || s[i] != ' ' {
      ps, pad := [], false;
    } else if i + 1 < |s| && s[i + 1] == ']' {
      ps, pad := [], true;
    } else {
      var j := SkipParam(s, i + 1).value;
      var p := ParamFound(s, i, j);
      var rest;
      rest, pad := ParamsFound(s, j, r);
      ps := [p] + rest;
      assert ps[1..] == rest;
      Cut(s, i, j, r);
      Assoc(RenderParam(p), RenderParams(rest), RenderPad(pad));
    }
  }

  lemma SliceOfSlice(s: Bytes, n: nat, m: nat, r: nat, a: Bytes, b: Bytes)
    requires n <= m <= r <= |s| && m == n + |a| && s[n..r] == a + b
    ensures s[n..m] == a && s[m..r] == b
  {
    Cut(s, n, m, r);
    assert (a + b)[..|a|] == a && (a + b)[|a|..] == b;
    assert s[n..r][..|a|] == s[n..m] && s[n..r][|a|..] == s[m..r];
  }

  lemma TurnJoined(s: Bytes, i: nat, n: nat, r: nat, j: nat, t: Turn)
    requires i < n <= r <= j <= |s| && s[i] == t.lead && s[i + 1..n] == t.element.id
    requires s[n..r] == RenderParams(t.element.params) + RenderPad(t.element.pad)
    requires j == r + |RenderClose(t.closed)| && (t.closed ==> s[r] == ']')
    ensures s[i..j] == RenderTurn(t)
  {
    hide RenderParams, RenderPad;
    var ps, pad := RenderParams(t.element.params), RenderPad(t.element.pad);
    var m := n + |ps|;
    SliceOfSlice(s, n, m, r, ps, pad);
    SliceParts(s, i, i + 1, n, m, r, j);
    ByteAt(s, i, t.lead);
    if t.closed {
      ByteAt(s, r, ']');
    } else {
      assert s[r..j] == [];
    }
  }

  lemma TurnFound(s: Bytes, i: nat, j: nat) returns (t: Turn)
    requires i < |s| && SkipElement(s, i) == Next(j)
    ensures IsTurn(t) && t.lead == s[i] && s[i..j] == RenderTurn(t)
    ensures t.closed || j == |s| || (t.element.params != [] && s[j] != ' ' && s[j] != ']')
    ensures t.closed <==> s[j - 1] == ']'
  {
    hide RenderTurn, RenderParams, SkipParams, IsParam;
    var n := Until(s, i + 1, ' ', ']');
    var id, r := s[i + 1..n], SkipParams(s, n).value;
    var ps, pad := ParamsFound(s, n, r);
    t := Turn(s[i], Element(id, ps, pad), r < |s| && s[r] == ']');
    assert s[n - 1] == id[|id| - 1] && IsNameChar(s[n - 1]);
    TurnJoined(s, i, n, r, j, t);
  }

  lemma ElementFound(s: Bytes, i: nat, j: nat) returns (e: Element)
    requires i < |s| && SkipElement(s, i) == Next(j) && s[i] == '[' && s[j - 1] == ']'
    ensures IsElement(e) && s[i..j] == RenderElement(e)
  {
    hide RenderElement, RenderTurn, SkipElement, IsElement;
    var t := TurnFound(s, i, j);
    e := t.element;
    ElementIsTurn(e);
  }

  // ── All accepted texts ─────────────────────────────────────────────────────

  lemma TurnsFront(ts: seq<Turn>)
    requires ts != [] && AreTurns(ts)
    ensures IsTurn(ts[0]) && AreTurns(ts[1..])
    ensures RenderTurns(ts[1..]) != [] ==> |ts| > 1 && RenderTurns(ts[1..])[0] == ts[1].lead
  {
    hide RenderTurn, IsTurn;
    var rest := ts[1..];
    assert IsTurnAt(ts, 0);
    forall k | 0 <= k < |rest| ensures IsTurnAt(rest, k) {
      assert IsTurnAt(ts, k + 1);
    }
  }

  lemma {:induction false} TurnsAccepted(s: Bytes, i: nat, ts: seq<Turn>)
    requires AreTurns(ts) && Holds(s, i, RenderTurns(ts)) && |s| == i + |RenderTurns(ts)|
    ensures SkipAll(s, i).Next?
    decreases |ts|
  {
    hide SkipElement, RenderTurn, IsTurn;
    if ts != [] {
      var j := i + |RenderTurn(ts[0])|;
      HoldsSplit(s, i, RenderTurn(ts[0]), RenderTurns(ts[1..]));
      TurnsFront(ts);
      assert IsTurnAt(ts, 0);
      if j < |s| {
        HoldsAt(s, j, RenderTurns(ts[1..]), 0);
      }
      TurnSkipped(s, i, ts[0]);
      TurnsAccepted(s, j, ts[1..]);
    }
  }

  lemma TurnsCons(t: Turn, rest: seq<Turn>)
    requires IsTurn(t) && AreTurns(rest)
    requires t.closed || rest == [] || (t.element.params != [] && rest[0].lead !in {' ', ']'})
    ensures AreTurns([t] + rest) && RenderTurns([t] + rest) == RenderTurn(t) + RenderTurns(rest)
  {
    hide IsTurn, RenderTurn;
    var ts := [t] + rest;
    assert ts[1..] == rest;
    forall k | 0 <= k < |ts| ensures IsTurnAt(ts, k) {
      if k > 0 {
        assert IsTurnAt(rest, k - 1);
      }
    }
  }

  lemma NoTurns()
    ensures AreTurns([]) && RenderTurns([]) == []
  {
  }

  lemma {:induction false} AcceptedTurns(s: Bytes, i: nat) returns (ts: seq<Turn>)
    requires i <= |s| && SkipAll(s, i).Next?
    ensures AreTurns(ts) && s[i..] == RenderTurns(ts)
    ensures i < |s| ==> ts != [] && ts[0].lead == s[i]
    ensures i == |s| ==> ts == []
    decreases |s| - i
  {
    hide SkipElement, RenderTurn, IsTurn, AreTurns;
    if i == |s| {
      ts := [];
      NoTurns();
    } else {
      var j := SkipElement(s, i).value;
      var t := TurnFound(s, i, j);
      var rest := AcceptedTurns(s, j);
      TurnsCons(t, rest);
      ts := [t] + rest;
      Cut(s, i, j, |s|);
      assert s[i..|s|] == s[i..] && s[j..|s|] == s[j..];
    }
  }

  /** The validator accepts a text if and only if it is `-` or a sequence of turns: each some byte, an
      SD-ID, parameters and, except where they may be missing, a closing bracket. Aligned texts are
      those in which every turn starts with `[` and is closed. */
  lemma AcceptedExactly(s: Bytes)
    ensures ContentOk(s) <==> s == "-" || exists ts: seq<Turn> :: AreTurns(ts) && s == RenderTurns(ts)
  {
    hide SkipAll, AreTurns, RenderTurns;
    if SkipAll(s, 0).Next? {
      var ts := AcceptedTurns(s, 0);
      assert s[0..] == s;
    }
    if ts: seq<Turn> :| AreTurns(ts) && s == RenderTurns(ts) {
      assert s[0..|s|] == s;
      TurnsAccepted(s, 0, ts);
    }
  }

  lemma AlignedTurns(s: Bytes, i: nat, j: nat)
    requires i < |s| && SkipElement(s, i) == Next(j) && Turns(s, i).Some? && Aligned(s, Turns(s, i).value)
    ensures s[i] == '[' && s[j - 1] == ']'
    ensures Turns(s, j).Some? && Aligned(s, Turns(s, j).value)
  {
    var later := Turns(s, j).value;
    assert Turns(s, i).value == [i] + later;
    assert forall t :: t in later ==> t in [i] + later;
    assert i in [i] + later;
    assert j < |s| ==> later[0] == j;
    assert j < |s| ==> j in later;
  }

  lemma {:induction false} RunFound(s: Bytes, i: nat) returns (es: seq<Element>)
    requires i <= |s| && Turns(s, i).Some? && Aligned(s, Turns(s, i).value)
    ensures IsRun(es) && s[i..] == RenderRun(es)
    decreases |s| - i
  {
    hide RenderElement, IsElement, Aligned, SkipElement;
    if i == |s| {
      es := [];
    } else {
      var j := SkipElement(s, i).value;
      AlignedTurns(s, i, j);
      var e := ElementFound(s, i, j);
      var rest := RunFound(s, j);
      es := [e] + rest;
      assert es[1..] == rest;
      Cut(s, i, j, |s|);
      assert s[i..|s|] == s[i..] && s[j..|s|] == s[j..];
    }
  }

  lemma {:induction false} RunEndsClosed(es: seq<Element>)
    requires es != []
    ensures RenderRun(es) != [] && Last(RenderRun(es)) == ']'
  {
    if |es| > 1 {
      RunEndsClosed(es[1..]);
    }
  }

  /** The validator accepts a text with its cursor aligned on the elements if and only if the
      text renders a non-empty run of SD-ELEMENTs. */
  lemma AcceptedExactlyRuns(s: Bytes)
    ensures Turns(s, 0).Some? && Aligned(s, Turns(s, 0).value)
       <==> exists es: seq<Element> :: es != [] && IsRun(es) && s == RenderRun(es)
  {
    hide Turns, IsRun, Starts, Last, RenderElement;
    if Turns(s, 0).Some? && Aligned(s, Turns(s, 0).value) {
      var es := RunFound(s, 0);
      assert s[0..] == s;
      assert es != [] && IsRun(es) && s == RenderRun(es);
    }
    if es: seq<Element> :| es != [] && IsRun(es) && s == RenderRun(es) {
      assert s[0..|s|] == s;
      RunTurns(s, 0, es);
      StartsAligned(s, 0, es);
      RunEndsClosed(es);
    }
  }

  /** After a whole element's parameters, two bytes that the end scanner reads over. */
  predicate IsUnaligned(s: Bytes, x: char, y: char) {
    s == "[id a=\"b\"" + [x, y] + "]" && {x, y} !! {' ', '"', '\\', ']'}
  }

  lemma UnalignedEnd(s: Bytes, x: char, y: char)
    requires IsUnaligned(s, x, y)
    ensures FindEnd(s, 0, Between) == Some(|s|)
  {
    var p := Param("a", "b");
    assert Holds(s, 3, RenderParam(p));
    ParamRead(s, 3, p, false);
    hide RenderParam;
    assert After(s, 1, 3, Inside(false, false)) == Some(Inside(false, false)) by {
      assert After(s, 2, 3, Inside(false, false)) == Some(Inside(false, false));
    }
    FindEndAfter(s, 1, 3, Inside(false, false));
    FindEndAfter(s, 3, 9, Inside(false, false));
    assert FindEnd(s, 11, Inside(false, false)) == Some(12);
  }

  lemma UnalignedFirst(s: Bytes, x: char, y: char)
    requires IsUnaligned(s, x, y)
    ensures SkipElement(s, 0) == Next(9)
  {
    assert Holds(s, 3, RenderParam(Param("a", "b")));
    ParamSkipped(s, 3, Param("a", "b"));
    assert SkipParams(s, 9) == Next(9);
    assert SkipParams(s, 3) == Next(9);
    NameUntil(s, 1, "id", ' ', ']');
  }

  lemma UnalignedSecond(s: Bytes)
    requires IsUnaligned(s, 'c', 'd')
    ensures SkipElement(s, 9) == Next(12)
  {
    assert s[10..11] == "d";
    NameUntil(s, 10, "d", ' ', ']');
    assert SkipParams(s, 11) == Next(11);
  }

  /** Unaligned content is accepted too: after `"b"` the validator starts a turn on `c`. The end
      scanner hands it the whole text, which no run of SD-ELEMENTs renders. */
  lemma UnalignedAccepted()
    ensures var s := "[id a=\"b\"cd]";
            && FindEnd(s, 0, Between) == Some(|s|)
            && Turns(s, 0) == Some([0, 9]) && ContentOk(s)
            && !exists es: seq<Element> :: es != [] && IsRun(es) && s == RenderRun(es)
  {
    hide SkipElement, FindEnd, RenderRun;
    var s := "[id a=\"b\"cd]";
    UnalignedFirst(s, 'c', 'd');
    UnalignedSecond(s);
    UnalignedEnd(s, 'c', 'd');
    assert Started(s, 9) == [9] && SkipAll(s, 9).Next?;
    assert [0] + [9] == [0, 9];
    AcceptedExactlyRuns(s);
    assert 9 in [0, 9] && s[9] == 'c';
  }

  lemma CutSecond(s: Bytes)
    requires IsUnaligned(s, '\U{C3}', '\U{A9}')
    ensures SkipElement(s, 9) == Panicked && IsWellCut(s)
  {
    assert IsContinuation(s[10]);
  }

  /** And a two-byte character there makes it panic: the turn starts on the first byte, and the
      slice of the SD-ID on the second one. */
  lemma PanicExample()
    ensures var s := "[id a=\"b\"\U{C3}\U{A9}]";
            && IsWellCut(s) && FindEnd(s, 0, Between) == Some(|s|)
            && Started(s, 0) == [0, 9] && CheckContent(s) == Panicked
  {
    hide SkipElement, FindEnd, IsWellCut;
    var s := "[id a=\"b\"\U{C3}\U{A9}]";
    UnalignedFirst(s, '\U{C3}', '\U{A9}');
    UnalignedEnd(s, '\U{C3}', '\U{A9}');
    CutSecond(s);
    assert Started(s, 9) == [9] && SkipAll(s, 9) == Panicked;
    assert [0] + [9] == [0, 9];
  }

  /** The escape in `[a\\]` hides the bracket from one scanner and not from the other. */
  lemma DanglingExample()
    ensures FindEnd("[a\\]", 0, Between).None? && ContentOk("[a\\]")
  {
    var s := "[a\\]";
    assert FindEnd(s, 3, Inside(false, true)).None?;
    assert FindEnd(s, 1, Inside(false, false)).None?;
    assert s[1..3] == "a\\";
    assert Until(s, 3, ' ', ']') == 3;
    assert SkipElement(s, 0) == Next(4);
  }
}
