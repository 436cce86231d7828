/** JSON trees and their canonical form: object keys sorted at every level. */
module Json {
  import opened Text

  /** Numbers are kept as their printed text. Objects keep the order of their entries. */
  datatype Json =
    | Null
    | Bool(b: bool)
    | Number(text: Bytes)
    | String(s: Bytes)
    | Array(items: seq<Json>)
    | Object(entries: seq<Entry>)

  datatype Entry = Entry(key: Bytes, value: Json)

  // ── The order on keys ──────────────────────────────────────────────────────

  /** Lexicographic order on bytes, the order of Rust's `String`. */
  predicate Less(a: Bytes, b: Bytes) {
    if b == [] then false
    else if a == [] then true
    else if a[0] != b[0] then a[0] < b[0]
    else Less(a[1..], b[1..])
  }

  /** The same order without recursion: a proper prefix comes first, and otherwise the first bytes
      that differ decide. */
  predicate Precedes(a: Bytes, b: Bytes) {
    a < b || exists k :: 0 <= k < |a| && k < |b| && a[..k] == b[..k] && a[k] < b[k]
  }

  lemma DifferAt(a: Bytes, b: Bytes, k: nat)
    requires k < |a| && k < |b| && a[..k] == b[..k] && a[k] < b[k]
    ensures Precedes(a, b)
  {
  }

  lemma PrecedesCons(c: char, x: Bytes, y: Bytes)
    requires Precedes(x, y)
    ensures Precedes([c] + x, [c] + y)
  {
    var a, b := [c] + x, [c] + y;
    if !(x < y) {
      var k :| 0 <= k < |x| && k < |y| && x[..k] == y[..k] && x[k] < y[k];
      assert a[..k + 1] == [c] + x[..k] && b[..k + 1] == [c] + y[..k];
      DifferAt(a, b, k + 1);
    }
  }

  lemma PrecedesTail(a: Bytes, b: Bytes)
    requires a != [] && b != [] && a[0] == b[0] && Precedes(a, b)
    ensures Precedes(a[1..], b[1..])
  {
    var x, y := a[1..], b[1..];
    if !(a < b) {
      var k :| 0 <= k < |a| && k < |b| && a[..k] == b[..k] && a[k] < b[k];
      assert x[..k - 1] == a[..k][1..] && y[..k - 1] == b[..k][1..];
      DifferAt(x, y, k - 1);
    }
  }

  lemma {:induction false} LessExactly(a: Bytes, b: Bytes)
    ensures Less(a, b) <==> Precedes(a, b)
  {
    if a != [] && b != [] {
      if a[0] == b[0] {
        LessExactly(a[1..], b[1..]);
        assert a == [a[0]] + a[1..] && b == [a[0]] + b[1..];
        if Less(a, b) {
          PrecedesCons(a[0], a[1..], b[1..]);
        } else if Precedes(a, b) {
          PrecedesTail(a, b);
        }
      } else {
        assert forall k :: 0 < k <= |a| && k <= |b| ==> a[..k][0] != b[..k][0];
        if a[0] < b[0] {
          DifferAt(a, b, 0);
        }
      }
    }
  }

  lemma {:induction false} LessTotal(a: Bytes, b: Bytes)
    ensures a == b || Less(a, b) || Less(b, a)
    ensures !(Less(a, b) && Less(b, a)) && (a == b ==> !Less(a, b))
  {
    if a != [] && b != [] && a[0] == b[0] {
      LessTotal(a[1..], b[1..]);
      assert a == [a[0]] + a[1..] && b == [b[0]] + b[1..];
    }
  }

  lemma {:induction false} LessTransitive(a: Bytes, b: Bytes, c: Bytes)
    requires Less(a, b) && Less(b, c)
    ensures Less(a, c)
  {
    if a != [] && a[0] == b[0] && b[0] == c[0] {
      LessTransitive(a[1..], b[1..], c[1..]);
    }
  }

  // ── Sorting ────────────────────────────────────────────────────────────────

  /** Insertion into a `BTreeMap`, seen as its entries in key order. */
  function Insert(m: seq<Entry>, e: Entry): seq<Entry> {
    if m == [] then [e]
    else if m[0].key == e.key then [e] + m[1..]
    else if Less(e.key, m[0].key) then [e] + m
    else [m[0]] + Insert(m[1..], e)
  }

  /** Collecting entries into a `BTreeMap`: a later entry replaces an equal key. */
  function Collect(es: seq<Entry>): seq<Entry> {
    if es == [] then [] else Insert(Collect(es[..|es| - 1]), es[|es| - 1])
  }

  /** `sorted_value`. */
  function SortedValue(v: Json): Json {
    match v
    case Object(es) =>
      Object(Collect(seq(|es|, i requires 0 <= i < |es| => Entry(es[i].key, SortedValue(es[i].value)))))
    case Array(items) => Array(seq(|items|, i requires 0 <= i < |items| => SortedValue(items[i])))
    case _ => v
  }

  function SortedEntries(es: seq<Entry>): seq<Entry> {
    seq(|es|, i requires 0 <= i < |es| => Entry(es[i].key, SortedValue(es[i].value)))
  }

  // ── What canonical means ───────────────────────────────────────────────────

  predicate IsSorted(es: seq<Entry>) {
    forall i, j :: 0 <= i < j < |es| ==> Less(es[i].key, es[j].key)
  }

  predicate IsIncreasing(es: seq<Entry>) {
    forall i, j :: 0 <= i < j < |es| ==> Precedes(es[i].key, es[j].key)
  }

  lemma SortedIncreases(es: seq<Entry>)
    ensures IsSorted(es) <==> IsIncreasing(es)
  {
    hide Less, Precedes;
    forall i, j | 0 <= i < j < |es|
      ensures Less(es[i].key, es[j].key) <==> Precedes(es[i].key, es[j].key)
    {
      LessExactly(es[i].key, es[j].key);
    }
  }

  predicate HasUniqueKeys(es: seq<Entry>) {
    forall i, j :: 0 <= i < j < |es| ==> es[i].key != es[j].key
  }

  /** Keys strictly increase, bytewise, in every object at every depth. */
  predicate IsCanonical(v: Json) {
    match v
    case Object(es) => IsIncreasing(es) && forall i :: 0 <= i < |es| ==> IsCanonical(es[i].value)
    case Array(items) => forall i :: 0 <= i < |items| ==> IsCanonical(items[i])
    case _ => true
  }

  /** No object, at any depth, holds a key twice: what a JSON map guarantees. */
  predicate IsMap(v: Json) {
    match v
    case Object(es) => HasUniqueKeys(es) && forall i :: 0 <= i < |es| ==> IsMap(es[i].value)
    case Array(items) => forall i :: 0 <= i < |items| ==> IsMap(items[i])
    case _ => true
  }

  ghost function Keys(es: seq<Entry>): set<Bytes> {
    set i | 0 <= i < |es| :: es[i].key
  }

  /** Equal up to the order of keys: arrays agree item by item, objects have the same keys
      with values that agree. */
  ghost predicate Same(v: Json, w: Json) {
    match (v, w)
    case (Object(a), Object(b)) =>
      && Keys(a) == Keys(b)
      && forall i, j :: 0 <= i < |a| && 0 <= j < |b| && a[i].key == b[j].key ==> Same(a[i].value, b[j].value)
    case (Array(a), Array(b)) => |a| == |b| && forall i :: 0 <= i < |a| ==> Same(a[i], b[i])
    case _ => v == w
  }

  // ── Collecting sorts and keeps the entries ─────────────────────────────────

  lemma HeadSorted(e: Entry, tail: seq<Entry>)
    requires IsSorted(tail) && forall x :: x in tail ==> Less(e.key, x.key)
    ensures IsSorted([e] + tail)
    ensures forall x :: x in [e] + tail <==> x == e || x in tail
  {
    var m := [e] + tail;
    assert forall j :: 1 <= j < |m| ==> m[j] == tail[j - 1] && m[j] in tail;
  }

  lemma {:induction false} InsertSorted(m: seq<Entry>, e: Entry)
    requires IsSorted(m)
    ensures IsSorted(Insert(m, e))
    ensures forall x :: x in Insert(m, e) <==> x == e || (x in m && x.key != e.key)
  {
    if m != [] {
      var tail := m[1..];
      assert m == [m[0]] + tail;
      assert forall x :: x in m <==> x == m[0] || x in tail;
      assert forall x :: x in tail ==> Less(m[0].key, x.key);
      LessTotal(m[0].key, e.key);
      if m[0].key == e.key {
        forall x | x in tail ensures x.key != e.key { LessTotal(x.key, e.key); }
        HeadSorted(e, tail);
      } else if Less(e.key, m[0].key) {
        forall x | x in m ensures Less(e.key, x.key) && x.key != e.key {
          if x != m[0] { LessTransitive(e.key, m[0].key, x.key); }
          LessTotal(x.key, e.key);
        }
        HeadSorted(e, m);
      } else {
        InsertSorted(tail, e);
        HeadSorted(m[0], Insert(tail, e));
      }
    }
  }

  lemma {:induction false} CollectSorted(es: seq<Entry>)
    ensures IsSorted(Collect(es))
    ensures HasUniqueKeys(es) ==> forall x :: x in Collect(es) <==> x in es
  {
    if es != [] {
      var init, last := es[..|es| - 1], es[|es| - 1];
      assert es == init + [last];
      CollectSorted(init);
      InsertSorted(Collect(init), last);
      if HasUniqueKeys(es) {
        assert forall x :: x in init ==> x.key != last.key;
      }
    }
  }

  lemma HeadsEqual(a: seq<Entry>, b: seq<Entry>)
    requires a != [] && b != [] && IsSorted(a) && IsSorted(b) && a[0] in b && b[0] in a
    ensures a[0] == b[0]
  {
    LessTotal(a[0].key, b[0].key);
  }

  lemma NotHead(a: seq<Entry>, x: Entry)
    requires a != [] && IsSorted(a)
    ensures x in a[1..] <==> x in a && x != a[0]
  {
    LessTotal(a[0].key, a[0].key);
    assert a == [a[0]] + a[1..];
  }

  /** Two increasing sequences with the same entries are equal. */
  lemma {:induction false} SortedUnique(a: seq<Entry>, b: seq<Entry>)
    requires IsSorted(a) && IsSorted(b) && forall x :: x in a <==> x in b
    ensures a == b
  {
    assert b != [] ==> b[0] in b;
    if a != [] {
      assert a[0] in a && a[0] in b;
      assert b[0] in b && b[0] in a;
      HeadsEqual(a, b);
      forall x ensures x in a[1..] <==> x in b[1..] {
        NotHead(a, x);
        NotHead(b, x);
      }
      SortedUnique(a[1..], b[1..]);
      assert a == [a[0]] + a[1..] && b == [b[0]] + b[1..];
    }
  }

  // ── Sorting a whole tree ───────────────────────────────────────────────────

  lemma SortedObject(es: seq<Entry>)
    ensures SortedValue(Object(es)) == Object(Collect(SortedEntries(es)))
  {
    assert SortedEntries(es)
        == seq(|es|, i requires 0 <= i < |es| => Entry(es[i].key, SortedValue(es[i].value)));
  }

  lemma {:induction false} CollectFrom(es: seq<Entry>)
    ensures forall x :: x in Collect(es) ==> x in es
  {
    if es != [] {
      var init, last := es[..|es| - 1], es[|es| - 1];
      CollectFrom(init);
      CollectSorted(init);
      InsertSorted(Collect(init), last);
      assert es == init + [last];
    }
  }

  /** The result is canonical, whatever the input. */
  lemma {:induction false} SortedIsCanonical(v: Json)
    ensures IsCanonical(SortedValue(v))
  {
    match v
    case Object(es) =>
      var sorted := SortedEntries(es);
      SortedObject(es);
      forall i | 0 <= i < |es| ensures IsCanonical(sorted[i].value) {
        SortedIsCanonical(es[i].value);
      }
      CollectSorted(sorted);
      CollectFrom(sorted);
      assert forall x :: x in sorted ==> IsCanonical(x.value);
      var all := Collect(sorted);
      SortedIncreases(all);
      assert forall i :: 0 <= i < |all| ==> all[i] in all;
    case Array(items) =>
      forall i | 0 <= i < |items| ensures IsCanonical(SortedValue(items[i])) {
        SortedIsCanonical(items[i]);
      }
    case _ =>
  }

  lemma EntriesInto(a: seq<Entry>, b: seq<Entry>)
    requires HasUniqueKeys(b)
    requires forall x :: x in SortedEntries(a) ==> x in SortedEntries(b)
    ensures Keys(a) <= Keys(b)
    ensures forall i, j :: 0 <= i < |a| && 0 <= j < |b| && a[i].key == b[j].key
                           ==> SortedValue(a[i].value) == SortedValue(b[j].value)
  {
    var sa, sb := SortedEntries(a), SortedEntries(b);
    forall i | 0 <= i < |a|
      ensures exists k :: 0 <= k < |b| && b[k].key == a[i].key && SortedValue(b[k].value) == SortedValue(a[i].value)
    {
      assert sa[i] in sa && sa[i] in sb;
      var k :| 0 <= k < |sb| && sb[k] == sa[i];
      assert b[k].key == a[i].key;
    }
  }

  /** Objects with the same canonical form have the same keys with the same sorted values. */
  lemma SameEntries(a: seq<Entry>, b: seq<Entry>)
    requires HasUniqueKeys(a) && HasUniqueKeys(b) && SortedValue(Object(a)) == SortedValue(Object(b))
    ensures Keys(a) == Keys(b)
    ensures forall i, j :: 0 <= i < |a| && 0 <= j < |b| && a[i].key == b[j].key
                           ==> SortedValue(a[i].value) == SortedValue(b[j].value)
  {
    var sa, sb := SortedEntries(a), SortedEntries(b);
    SortedObject(a);
    SortedObject(b);
    CollectSorted(sa);
    CollectSorted(sb);
    EntriesInto(a, b);
    EntriesInto(b, a);
  }

  /** Equal canonical forms mean equal up to key order. */
  lemma {:induction false} SortedEqualIsSame(v: Json, w: Json)
    requires IsMap(v) && IsMap(w) && SortedValue(v) == SortedValue(w)
    ensures Same(v, w)
  {
    match (v, w)
    case (Object(a), Object(b)) =>
      SameEntries(a, b);
      forall i, j | 0 <= i < |a| && 0 <= j < |b| && a[i].key == b[j].key
        ensures Same(a[i].value, b[j].value)
      {
        SortedEqualIsSame(a[i].value, b[j].value);
      }
    case (Array(a), Array(b)) =>
      var sa, sb := SortedValue(v).items, SortedValue(w).items;
      forall i | 0 <= i < |a| ensures Same(a[i], b[i]) {
        assert sa[i] == sb[i];
        SortedEqualIsSame(a[i], b[i]);
      }
    case _ =>
  }

  lemma KeysInto(a: seq<Entry>, b: seq<Entry>)
    requires Keys(a) <= Keys(b)
    requires forall i, j :: 0 <= i < |a| && 0 <= j < |b| && a[i].key == b[j].key
                            ==> SortedValue(a[i].value) == SortedValue(b[j].value)
    ensures forall x :: x in SortedEntries(a) ==> x in SortedEntries(b)
  {
    var sa, sb := SortedEntries(a), SortedEntries(b);
    forall x | x in sa ensures x in sb {
      var i :| 0 <= i < |sa| && sa[i] == x;
      assert a[i].key in Keys(a);
      var j :| 0 <= j < |b| && b[j].key == a[i].key;
      assert sb[j] == x;
    }
  }

  /** Values equal up to key order have the same canonical form. */
  lemma {:induction false} SameIsSortedEqual(v: Json, w: Json)
    requires IsMap(v) && IsMap(w) && Same(v, w)
    ensures SortedValue(v) == SortedValue(w)
  {
    match (v, w)
    case (Object(a), Object(b)) =>
      forall i, j | 0 <= i < |a| && 0 <= j < |b| && a[i].key == b[j].key
        ensures SortedValue(a[i].value) == SortedValue(b[j].value)
      {
        SameIsSortedEqual(a[i].value, b[j].value);
      }
      KeysInto(a, b);
      KeysInto(b, a);
      var sa, sb := SortedEntries(a), SortedEntries(b);
      SortedObject(a);
      SortedObject(b);
      CollectSorted(sa);
      CollectSorted(sb);
      SortedUnique(Collect(sa), Collect(sb));
    case (Array(a), Array(b)) =>
      forall i | 0 <= i < |a| ensures SortedValue(a[i]) == SortedValue(b[i]) {
        SameIsSortedEqual(a[i], b[i]);
      }
      assert SortedValue(v).items == SortedValue(w).items;
    case _ =>
  }

  lemma {:induction false} CanonicalIsMap(v: Json)
    requires IsCanonical(v)
    ensures IsMap(v)
  {
    match v
    case Object(es) =>
      forall i, j | 0 <= i < j < |es| ensures es[i].key != es[j].key {
        SortedIncreases(es);
        LessTotal(es[i].key, es[j].key);
      }
      forall i | 0 <= i < |es| ensures IsMap(es[i].value) {
        CanonicalIsMap(es[i].value);
      }
    case Array(items) =>
      forall i | 0 <= i < |items| ensures IsMap(items[i]) {
        CanonicalIsMap(items[i]);
      }
    case _ =>
  }

  lemma {:induction false} CanonicalIsSorted(v: Json)
    requires IsCanonical(v)
    ensures SortedValue(v) == v
  {
    match v
    case Object(es) =>
      forall i | 0 <= i < |es| ensures SortedValue(es[i].value) == es[i].value {
        CanonicalIsSorted(es[i].value);
      }
      assert SortedEntries(es) == es;
      CanonicalIsMap(v);
      SortedObject(es);
      CollectSorted(es);
      SortedIncreases(es);
      SortedUnique(Collect(es), es);
    case Array(items) =>
      forall i | 0 <= i < |items| ensures SortedValue(items[i]) == items[i] {
        CanonicalIsSorted(items[i]);
      }
      assert SortedValue(v).items == items;
    case _ =>
  }

  // ── Main results ───────────────────────────────────────────────────────────

  /** The canonical form is complete: two trees have the same one if and only if they differ
      only in the order of object keys, at any depths. */
  lemma CanonicalFormComplete(v: Json, w: Json)
    requires IsMap(v) && IsMap(w)
    ensures SortedValue(v) == SortedValue(w) <==> Same(v, w)
  {
    if SortedValue(v) == SortedValue(w) {
      SortedEqualIsSame(v, w);
    }
    if Same(v, w) {
      SameIsSortedEqual(v, w);
    }
  }

  /** Sorting leaves a tree alone exactly when it is canonical; in particular twice is once. */
  lemma SortedFixedPoint(v: Json)
    ensures SortedValue(v) == v <==> IsCanonical(v)
    ensures SortedValue(SortedValue(v)) == SortedValue(v)
  {
    SortedIsCanonical(v);
    CanonicalIsSorted(SortedValue(v));
    if IsCanonical(v) {
      CanonicalIsSorted(v);
    }
  }

  /** Sorting changes nothing but the order of keys. */
  lemma SortedIsSame(v: Json)
    requires IsMap(v)
    ensures Same(v, SortedValue(v)) && IsMap(SortedValue(v))
  {
    SortedFixedPoint(v);
    SortedIsCanonical(v);
    CanonicalIsMap(SortedValue(v));
    SortedEqualIsSame(v, SortedValue(v));
  }
}
