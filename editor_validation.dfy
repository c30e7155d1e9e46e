/** The editor's parse-tree validator (`Validation.ts` of the editor core
    package): structural equality of JSON-like values, sorting and
    de-duplication of diagnostics, duplicate-name counting, literal
    validation, the instantiate-order check, pointer compatibility, the
    enum "previous values" rule and the operation classifiers. */
module EditorValidation {
  import opened Wrappers
  import opened Operations
  import opened Strings
  import opened CoreIR
  import PT = ParseTreeMappings
  import JsNumbers

  // ----- deep_equal -----

  /** A JavaScript value as `deep_equal` sees it. Arrays are objects whose
      keys are their indices; `entries` lists `Object.keys` in order, and
      keys are distinct as in every JavaScript object. */
  datatype JsValue =
    | JsUndefined
    | JsNull
    | JsBool(b: bool)
    | JsNum(n: int)
    | JsString(s: string)
    | JsObject(entries: seq<(string, JsValue)>)

  /** `typeof v === 'object'`, which also holds for `null`. */
  predicate IsObjectType(v: JsValue) { v.JsNull? || v.JsObject? }

  /** Property access `obj[key]`: `undefined` for a missing key. */
  function Get(entries: seq<(string, JsValue)>, key: string): (r: JsValue)
    ensures r == JsUndefined || exists i :: 0 <= i < |entries| && entries[i].0 == key && r == entries[i].1
  {
    if |entries| == 0 then JsUndefined
    else if entries[0].0 == key then entries[0].1
    else Get(entries[1..], key)
  }

  /** `deep_equal`. `Object.keys(null)` throws when exactly one side is
      `null`; that is the `Err` case. */
  function DeepEqual(a: JsValue, b: JsValue): Result<bool>
    decreases a, 1
  {
    if !IsObjectType(a) || !IsObjectType(b) then Ok(a == b)
    else if a.JsNull? && b.JsNull? then Ok(true)
    else if a.JsNull? || b.JsNull? then Err("Object.keys called on null")
    else if |a.entries| != |b.entries| then Ok(false)
    else DeepEqualFrom(a, b, 0)
  }

  /** The loop over `keys1` of `deep_equal`, from the `i`-th key on. */
  function DeepEqualFrom(a: JsValue, b: JsValue, i: nat): Result<bool>
    requires a.JsObject? && b.JsObject? && i <= |a.entries|
    decreases a, 0, |a.entries| - i
  {
    if i == |a.entries| then Ok(true)
    else if a.entries[i].0 == "source_location" then DeepEqualFrom(a, b, i + 1)
    else
      var r :- DeepEqual(a.entries[i].1, Get(b.entries, a.entries[i].0));
      if !r then Ok(false) else DeepEqualFrom(a, b, i + 1)
  }

  /** Two objects that `deep_equal` accepts have the same number of keys. */
  lemma DeepEqualKeyCount(a: JsValue, b: JsValue)
    requires a.JsObject? && b.JsObject?
    requires DeepEqual(a, b) == Ok(true)
    ensures |a.entries| == |b.entries|
  {
  }

  /** `v` with the value of every `source_location` key, at any depth,
      replaced by `undefined`. */
  function Strip(v: JsValue): JsValue
    decreases v
  {
    match v
    case JsObject(es) =>
      JsObject(seq(|es|, i requires 0 <= i < |es| =>
        (es[i].0, if es[i].0 == "source_location" then JsUndefined else Strip(es[i].1))))
    case _ => v
  }

  lemma {:induction false} GetStrip(es: seq<(string, JsValue)>, key: string)
    requires key != "source_location"
    ensures Get(Strip(JsObject(es)).entries, key) == Strip(Get(es, key))
  {
    if |es| > 0 && es[0].0 != key {
      GetStrip(es[1..], key);
      assert Strip(JsObject(es)).entries[1..] == Strip(JsObject(es[1..])).entries;
    }
  }

  /** `deep_equal` does not look at the values of `source_location` keys:
      its result is the same once they are all erased. */
  lemma {:induction false} DeepEqualIgnoresSourceLocation(a: JsValue, b: JsValue)
    ensures DeepEqual(Strip(a), Strip(b)) == DeepEqual(a, b)
    decreases a, 1
  {
    if a.JsObject? && b.JsObject? && |a.entries| == |b.entries| {
      DeepEqualFromStrip(a, b, 0);
    }
  }

  lemma {:induction false} DeepEqualFromStrip(a: JsValue, b: JsValue, i: nat)
    requires a.JsObject? && b.JsObject? && i <= |a.entries|
    ensures DeepEqualFrom(Strip(a), Strip(b), i) == DeepEqualFrom(a, b, i)
    decreases a, 0, |a.entries| - i
  {
    if i < |a.entries| {
      DeepEqualFromStrip(a, b, i + 1);
      var key := a.entries[i].0;
      if key != "source_location" {
        GetStrip(b.entries, key);
        DeepEqualIgnoresSourceLocation(a.entries[i].1, Get(b.entries, key));
      }
    }
  }

  /** Keys are distinct in every object, at any depth. */
  predicate WellFormedValue(v: JsValue)
    decreases v
  {
    v.JsObject? ==>
      (forall i, j :: 0 <= i < j < |v.entries| ==> v.entries[i].0 != v.entries[j].0)
      && forall i :: 0 <= i < |v.entries| ==> WellFormedValue(v.entries[i].1)
  }

  lemma {:induction false} GetDistinct(es: seq<(string, JsValue)>, i: nat)
    requires i < |es|
    requires forall j, k :: 0 <= j < k < |es| ==> es[j].0 != es[k].0
    ensures Get(es, es[i].0) == es[i].1
  {
    if i > 0 {
      assert es[0].0 != es[i].0;
      GetDistinct(es[1..], i - 1);
    }
  }

  /** Every value is `deep_equal` to itself. */
  lemma {:induction false} DeepEqualReflexive(v: JsValue)
    requires WellFormedValue(v)
    ensures DeepEqual(v, v) == Ok(true)
    decreases v, 1
  {
    if v.JsObject? {
      DeepEqualFromReflexive(v, 0);
    }
  }

  lemma {:induction false} DeepEqualFromReflexive(v: JsValue, i: nat)
    requires v.JsObject? && WellFormedValue(v) && i <= |v.entries|
    ensures DeepEqualFrom(v, v, i) == Ok(true)
    decreases v, 0, |v.entries| - i
  {
    if i < |v.entries| {
      DeepEqualFromReflexive(v, i + 1);
      if v.entries[i].0 != "source_location" {
        GetDistinct(v.entries, i);
        DeepEqualReflexive(v.entries[i].1);
      }
    }
  }

  /** `deep_equal` treats a key missing from the second object like a key
      whose value is `undefined`, so it is not symmetric. */
  lemma DeepEqualNotSymmetric()
    ensures var a := JsObject([("a", JsUndefined)]);
            var b := JsObject([("b", JsNum(1))]);
            DeepEqual(a, b) == Ok(true) && DeepEqual(b, a) == Ok(false)
  {
    var a := JsObject([("a", JsUndefined)]);
    var b := JsObject([("b", JsNum(1))]);
    assert DeepEqualFrom(a, b, 1) == Ok(true);
    assert DeepEqualFrom(b, a, 1) == Ok(true);
  }

  /** Structural equality that compares in both directions, so a key
      missing on either side counts. A `null` met on one side only throws in
      either direction. */
  function MutuallyDeepEqual(a: JsValue, b: JsValue): (r: Result<bool>)
    ensures r == Ok(true) <==> DeepEqual(a, b) == Ok(true) && DeepEqual(b, a) == Ok(true)
    ensures r.Err? <==> DeepEqual(a, b).Err? || DeepEqual(b, a).Err?
  {
    match (DeepEqual(a, b), DeepEqual(b, a))
    case (Ok(x), Ok(y)) => Ok(x && y)
    case _ => Err("Object.keys called on null")
  }

  /** The two-way comparison does not depend on the order of its arguments,
      and tells the two objects of `DeepEqualNotSymmetric` apart. */
  lemma MutuallyDeepEqualSymmetric(a: JsValue, b: JsValue)
    ensures MutuallyDeepEqual(a, b) == MutuallyDeepEqual(b, a)
    ensures var x := JsObject([("a", JsUndefined)]);
            var y := JsObject([("b", JsNum(1))]);
            MutuallyDeepEqual(x, y) == Ok(false) && MutuallyDeepEqual(y, x) == Ok(false)
  {
    DeepEqualNotSymmetric();
  }

  /** Like `deep_equal`, the two-way comparison holds of every value and
      itself. */
  lemma MutuallyDeepEqualReflexive(v: JsValue)
    requires WellFormedValue(v)
    ensures MutuallyDeepEqual(v, v) == Ok(true)
  {
    DeepEqualReflexive(v);
  }

  // ----- Diagnostics -----

  datatype Position = Position(line: int, column: int)

  /** A diagnostic. The source and severity enumerations are kept as their
      values (a string and a number); `related_information` is always
      empty where diagnostics are created. */
  datatype Diagnostic = Diagnostic(uri: string, start: Position, end: Position, source: string, severity: int, message: string)

  /** An object literal with the given keys and values, in order. */
  function MakeObject(keys: seq<string>, values: seq<JsValue>): (r: JsValue)
    requires |keys| == |values|
    ensures r.JsObject? && |r.entries| == |keys|
  {
    JsObject(seq(|keys|, i requires 0 <= i < |keys| => (keys[i], values[i])))
  }

  /** Distinct keys, none of them `source_location`. */
  predicate PlainKeys(keys: seq<string>) {
    (forall i, j :: 0 <= i < j < |keys| ==> keys[i] != keys[j])
    && forall i :: 0 <= i < |keys| ==> keys[i] != "source_location"
  }

  /** The values from position `i` on are pairwise `deep_equal`. */
  function AllDeepEqual(vs: seq<JsValue>, ws: seq<JsValue>, i: nat): bool
    decreases |vs| - i
  {
    i >= |vs| || i >= |ws| || (DeepEqual(vs[i], ws[i]) == Ok(true) && AllDeepEqual(vs, ws, i + 1))
  }

  lemma {:induction false} AllDeepEqualEach(vs: seq<JsValue>, ws: seq<JsValue>, i: nat)
    requires |vs| == |ws| && i <= |vs|
    requires forall j :: 0 <= j < |vs| ==> DeepEqual(vs[j], ws[j]).Ok?
    ensures AllDeepEqual(vs, ws, i) <==> forall j :: i <= j < |vs| ==> DeepEqual(vs[j], ws[j]).value
    decreases |vs| - i
  {
    if i < |vs| {
      AllDeepEqualEach(vs, ws, i + 1);
    }
  }

  lemma {:induction false} MakeObjectFrom(keys: seq<string>, vs: seq<JsValue>, ws: seq<JsValue>, i: nat)
    requires |keys| == |vs| == |ws| && PlainKeys(keys) && i <= |keys|
    requires forall j :: 0 <= j < |keys| ==> DeepEqual(vs[j], ws[j]).Ok?
    ensures DeepEqualFrom(MakeObject(keys, vs), MakeObject(keys, ws), i) == Ok(AllDeepEqual(vs, ws, i))
    decreases |keys| - i
  {
    if i < |keys| {
      MakeObjectFrom(keys, vs, ws, i + 1);
      GetDistinct(MakeObject(keys, ws).entries, i);
    }
  }

  /** Two objects with the same plain keys are `deep_equal` iff their values
      are, position by position. */
  lemma MakeObjectDeepEqual(keys: seq<string>, vs: seq<JsValue>, ws: seq<JsValue>)
    requires |keys| == |vs| == |ws| && PlainKeys(keys)
    requires forall j :: 0 <= j < |keys| ==> DeepEqual(vs[j], ws[j]).Ok?
    ensures DeepEqual(MakeObject(keys, vs), MakeObject(keys, ws))
         == Ok(forall j :: 0 <= j < |keys| ==> DeepEqual(vs[j], ws[j]).value)
  {
    MakeObjectFrom(keys, vs, ws, 0);
    AllDeepEqualEach(vs, ws, 0);
  }

  const PositionKeys: seq<string> := ["line", "column"]
  const RangeKeys: seq<string> := ["start", "end"]
  const LocationKeys: seq<string> := ["uri", "range"]
  const DiagnosticKeys: seq<string> := ["location", "source", "severity", "message", "related_information"]

  function PositionToJs(p: Position): JsValue {
    MakeObject(PositionKeys, [JsNum(p.line), JsNum(p.column)])
  }

  function LocationToJs(d: Diagnostic): JsValue {
    MakeObject(LocationKeys, [JsString(d.uri),
      MakeObject(RangeKeys, [PositionToJs(d.start), PositionToJs(d.end)])])
  }

  /** The object the editor builds for a diagnostic. */
  function DiagnosticToJs(d: Diagnostic): JsValue {
    MakeObject(DiagnosticKeys,
      [LocationToJs(d), JsString(d.source), JsNum(d.severity), JsString(d.message), JsObject([])])
  }

  /** `deep_equal` on two diagnostics. */
  predicate SameDiagnostic(a: Diagnostic, b: Diagnostic) {
    DeepEqual(DiagnosticToJs(a), DiagnosticToJs(b)) == Ok(true)
  }

  lemma KeysArePlain()
    ensures PlainKeys(PositionKeys) && PlainKeys(RangeKeys) && PlainKeys(LocationKeys) && PlainKeys(DiagnosticKeys)
  {
    assert DiagnosticKeys[0] != DiagnosticKeys[1] && DiagnosticKeys[0] != DiagnosticKeys[2];
    assert DiagnosticKeys[0] != DiagnosticKeys[3] && DiagnosticKeys[0] != DiagnosticKeys[4];
    assert DiagnosticKeys[1] != DiagnosticKeys[2] && DiagnosticKeys[1] != DiagnosticKeys[3];
    assert DiagnosticKeys[1] != DiagnosticKeys[4] && DiagnosticKeys[2] != DiagnosticKeys[3];
    assert DiagnosticKeys[2] != DiagnosticKeys[4] && DiagnosticKeys[3] != DiagnosticKeys[4];
  }

  lemma PairAllDeepEqual(v0: JsValue, v1: JsValue, w0: JsValue, w1: JsValue)
    ensures AllDeepEqual([v0, v1], [w0, w1], 0) == (DeepEqual(v0, w0) == Ok(true) && DeepEqual(v1, w1) == Ok(true))
  {
    assert AllDeepEqual([v0, v1], [w0, w1], 1) == (DeepEqual(v1, w1) == Ok(true));
  }

  lemma PairObjectsFrom(keys: seq<string>, v0: JsValue, v1: JsValue, w0: JsValue, w1: JsValue)
    requires |keys| == 2 && PlainKeys(keys)
    requires DeepEqual(v0, w0).Ok? && DeepEqual(v1, w1).Ok?
    ensures DeepEqualFrom(MakeObject(keys, [v0, v1]), MakeObject(keys, [w0, w1]), 0) == Ok(AllDeepEqual([v0, v1], [w0, w1], 0))
  {
    var vs, ws := [v0, v1], [w0, w1];
    assert forall j :: 0 <= j < 2 ==> DeepEqual(vs[j], ws[j]).Ok? by {
      assert vs[0] == v0 && vs[1] == v1 && ws[0] == w0 && ws[1] == w1;
    }
    MakeObjectFrom(keys, vs, ws, 0);
  }

  /** Two-key objects are `deep_equal` iff both values are. */
  lemma PairDeepEqual(keys: seq<string>, v0: JsValue, v1: JsValue, w0: JsValue, w1: JsValue)
    requires |keys| == 2 && PlainKeys(keys)
    requires DeepEqual(v0, w0).Ok? && DeepEqual(v1, w1).Ok?
    ensures DeepEqual(MakeObject(keys, [v0, v1]), MakeObject(keys, [w0, w1]))
         == Ok(DeepEqual(v0, w0).value && DeepEqual(v1, w1).value)
  {
    PairAllDeepEqual(v0, v1, w0, w1);
    PairObjectsFrom(keys, v0, v1, w0, w1);
    DeepEqualOfObjects(MakeObject(keys, [v0, v1]), MakeObject(keys, [w0, w1]));
  }

  /** On two objects with as many keys, `deep_equal` is its loop over the keys. */
  lemma DeepEqualOfObjects(a: JsValue, b: JsValue)
    requires a.JsObject? && b.JsObject? && |a.entries| == |b.entries|
    ensures DeepEqual(a, b) == DeepEqualFrom(a, b, 0)
  {
  }

  lemma PositionDeepEqual(p: Position, q: Position)
    ensures DeepEqual(PositionToJs(p), PositionToJs(q)) == Ok(p == q)
  {
    KeysArePlain();
    PairDeepEqual(PositionKeys, JsNum(p.line), JsNum(p.column), JsNum(q.line), JsNum(q.column));
  }

  lemma LocationDeepEqual(d: Diagnostic, e: Diagnostic)
    ensures DeepEqual(LocationToJs(d), LocationToJs(e)) == Ok(d.uri == e.uri && d.start == e.start && d.end == e.end)
  {
    KeysArePlain();
    PositionDeepEqual(d.start, e.start);
    PositionDeepEqual(d.end, e.end);
    PairDeepEqual(RangeKeys, PositionToJs(d.start), PositionToJs(d.end), PositionToJs(e.start), PositionToJs(e.end));
    var range, otherRange := MakeObject(RangeKeys, [PositionToJs(d.start), PositionToJs(d.end)]),
      MakeObject(RangeKeys, [PositionToJs(e.start), PositionToJs(e.end)]);
    PairDeepEqual(LocationKeys, JsString(d.uri), range, JsString(e.uri), otherRange);
  }

  /** The values of two diagnostic objects, position by position. */
  lemma DiagnosticValuesDeepEqual(d: Diagnostic, e: Diagnostic)
    ensures var vs := [LocationToJs(d), JsString(d.source), JsNum(d.severity), JsString(d.message), JsObject([])];
      var ws := [LocationToJs(e), JsString(e.source), JsNum(e.severity), JsString(e.message), JsObject([])];
      (forall j :: 0 <= j < 5 ==> DeepEqual(vs[j], ws[j]).Ok?) && (AllDeepEqual(vs, ws, 0) <==> d == e)
  {
    LocationDeepEqual(d, e);
    var vs := [LocationToJs(d), JsString(d.source), JsNum(d.severity), JsString(d.message), JsObject([])];
    var ws := [LocationToJs(e), JsString(e.source), JsNum(e.severity), JsString(e.message), JsObject([])];
    assert DeepEqual(vs[4], ws[4]) == Ok(true);
    assert AllDeepEqual(vs, ws, 4);
    assert AllDeepEqual(vs, ws, 3) == (d.message == e.message);
    assert AllDeepEqual(vs, ws, 2) == (d.severity == e.severity && d.message == e.message);
    assert AllDeepEqual(vs, ws, 1) == (d.source == e.source && d.severity == e.severity && d.message == e.message);
  }

  /** On diagnostics, `deep_equal` is equality. */
  lemma SameDiagnosticIsEquality(d: Diagnostic, e: Diagnostic)
    ensures SameDiagnostic(d, e) <==> d == e
  {
    KeysArePlain();
    var vs := [LocationToJs(d), JsString(d.source), JsNum(d.severity), JsString(d.message), JsObject([])];
    var ws := [LocationToJs(e), JsString(e.source), JsNum(e.severity), JsString(e.message), JsObject([])];
    DiagnosticValuesDeepEqual(d, e);
    MakeObjectFrom(DiagnosticKeys, vs, ws, 0);
    DeepEqualOfObjects(DiagnosticToJs(d), DiagnosticToJs(e));
  }

  // ----- sort_and_remove_duplicates -----

  /** The comparator of `sort_and_remove_duplicates`: `a` sorts no later
      than `b` by start line, then start column. */
  predicate NotAfter(a: Diagnostic, b: Diagnostic) {
    a.start.line < b.start.line || (a.start.line == b.start.line && a.start.column <= b.start.column)
  }

  predicate SortedByStart(s: seq<Diagnostic>) {
    forall i, j :: 0 <= i < j < |s| ==> NotAfter(s[i], s[j])
  }

  /** Insertion of `d` after every element that does not sort after it,
      which keeps equal keys in their original order. */
  function InsertByStart(s: seq<Diagnostic>, d: Diagnostic): (r: seq<Diagnostic>)
    ensures multiset(r) == multiset(s) + multiset{d}
  {
    if |s| == 0 then [d]
    else if !NotAfter(s[|s| - 1], d) then
      var r := InsertByStart(s[..|s| - 1], d) + [s[|s| - 1]];
      assert s == s[..|s| - 1] + [s[|s| - 1]];
      r
    else s + [d]
  }

  lemma {:induction false} InsertSorted(s: seq<Diagnostic>, d: Diagnostic)
    requires SortedByStart(s)
    ensures SortedByStart(InsertByStart(s, d))
  {
    if |s| > 0 && !NotAfter(s[|s| - 1], d) {
      var init, last := s[..|s| - 1], s[|s| - 1];
      InsertSorted(init, d);
      var r := InsertByStart(init, d);
      forall k | 0 <= k < |r|
        ensures NotAfter(r[k], last)
      {
        assert r[k] in multiset(r);
        if r[k] != d {
          assert r[k] in multiset(init);
          var i :| 0 <= i < |init| && init[i] == r[k];
          assert s[i] == r[k];
        }
      }
    }
  }

  /** The stable sort `Array.prototype.sort` performs with that comparator. */
  function SortByStart(ds: seq<Diagnostic>): (r: seq<Diagnostic>)
    ensures multiset(r) == multiset(ds)
    ensures SortedByStart(r)
  {
    if |ds| == 0 then []
    else
      assert ds == ds[..|ds| - 1] + [ds[|ds| - 1]];
      InsertSorted(SortByStart(ds[..|ds| - 1]), ds[|ds| - 1]);
      InsertByStart(SortByStart(ds[..|ds| - 1]), ds[|ds| - 1])
  }

  /** `findIndex` with `deep_equal` over the unique list. */
  function FindSame(s: seq<Diagnostic>, d: Diagnostic): (r: int)
    ensures -1 <= r < |s|
    ensures r == -1 <==> forall k :: 0 <= k < |s| ==> !SameDiagnostic(s[k], d)
    ensures r >= 0 ==> SameDiagnostic(s[r], d)
  {
    if |s| == 0 then -1
    else if SameDiagnostic(s[0], d) then 0
    else
      var k := FindSame(s[1..], d);
      if k == -1 then -1 else k + 1
  }

  /** No diagnostic occurs twice. */
  predicate Distinct(s: seq<Diagnostic>) {
    forall i, j :: 0 <= i < j < |s| ==> s[i] != s[j]
  }

  /** `findIndex` finds nothing only for a diagnostic not yet kept. */
  lemma NotFoundIsAbsent(s: seq<Diagnostic>, d: Diagnostic)
    requires FindSame(s, d) == -1
    ensures d !in s
  {
    if d in s {
      var k :| 0 <= k < |s| && s[k] == d;
      SameDiagnosticIsEquality(s[k], d);
    }
  }

  lemma AppendDistinct(s: seq<Diagnostic>, d: Diagnostic)
    requires Distinct(s) && d !in s
    ensures Distinct(s + [d])
  {
  }

  /** Distinct diagnostics are never `deep_equal`. */
  lemma DistinctNoneSame(s: seq<Diagnostic>)
    requires Distinct(s)
    ensures forall i, j :: 0 <= i < j < |s| ==> !SameDiagnostic(s[i], s[j])
  {
    forall i, j | 0 <= i < j < |s|
      ensures !SameDiagnostic(s[i], s[j])
    {
      SameDiagnosticIsEquality(s[i], s[j]);
    }
  }

  /** One step of `sort_and_remove_duplicates`: `d` is kept unless a
      `deep_equal` diagnostic already is. */
  method KeepIfNew(r: seq<Diagnostic>, d: Diagnostic) returns (kept: seq<Diagnostic>)
    requires Distinct(r)
    ensures Distinct(kept)
    ensures kept == if d in r then r else r + [d]
  {
    var found := FindSame(r, d);
    if found == -1 {
      NotFoundIsAbsent(r, d);
      AppendDistinct(r, d);
      kept := r + [d];
    } else {
      SameDiagnosticIsEquality(r[found], d);
      kept := r;
    }
  }

  /** The first occurrence of every element, in order. */
  function KeepFirst(s: seq<Diagnostic>): seq<Diagnostic> {
    if |s| == 0 then []
    else
      var kept := KeepFirst(s[..|s| - 1]);
      if s[|s| - 1] in kept then kept else kept + [s[|s| - 1]]
  }

  lemma KeepFirstStep(s: seq<Diagnostic>, i: nat)
    requires i < |s|
    ensures KeepFirst(s[..i + 1]) == if s[i] in KeepFirst(s[..i]) then KeepFirst(s[..i]) else KeepFirst(s[..i]) + [s[i]]
  {
    assert s[..i + 1][..i] == s[..i];
  }

  /** The filter keeps every element once and nothing else, and keeps a
      sorted list sorted. */
  lemma {:induction false} KeepFirstProperties(s: seq<Diagnostic>)
    ensures Distinct(KeepFirst(s))
    ensures forall x :: x in KeepFirst(s) <==> x in s
    ensures SortedByStart(s) ==> SortedByStart(KeepFirst(s))
  {
    if |s| > 0 {
      var init, last := s[..|s| - 1], s[|s| - 1];
      KeepFirstProperties(init);
      assert s == init + [last];
      var kept := KeepFirst(init);
      if last !in kept {
        AppendDistinct(kept, last);
        if SortedByStart(s) {
          forall k | 0 <= k < |kept| ensures NotAfter(kept[k], last) {
            assert kept[k] in kept && kept[k] in init;
            var j :| 0 <= j < |init| && init[j] == kept[k];
            assert s[j] == kept[k];
          }
        }
      }
    }
  }

  /** `sort_and_remove_duplicates`: the diagnostics ordered by start
      position, each kept once, no two of them `deep_equal`; among equal
      start positions the stable sort keeps the input order, and the first
      of several equal diagnostics is the one kept. */
  method SortAndRemoveDuplicates(ds: seq<Diagnostic>) returns (r: seq<Diagnostic>)
    ensures r == KeepFirst(SortByStart(ds))
    ensures SortedByStart(r)
    ensures forall i, j :: 0 <= i < j < |r| ==> !SameDiagnostic(r[i], r[j])
    ensures forall d :: d in r <==> d in ds
  {
    var sorted := SortByStart(ds);
    r := [];
    for i := 0 to |sorted|
      invariant r == KeepFirst(sorted[..i])
    {
      KeepFirstStep(sorted, i);
      KeepFirstProperties(sorted[..i]);
      r := KeepIfNew(r, sorted[i]);
    }
    assert sorted[..|sorted|] == sorted;
    KeepFirstProperties(sorted);
    DistinctNoneSame(r);
    assert forall d :: d in sorted <==> d in multiset(sorted);
  }

  // ----- is_import_alias_duplicate / is_declaration_duplicate -----

  /** The counting loop shared by `is_import_alias_duplicate` (over the
      import aliases) and `is_declaration_duplicate` (over the declaration
      names): `name` is a duplicate iff it occurs at two positions. */
  method IsDuplicate(names: seq<string>, name: string) returns (r: bool)
    ensures r <==> exists i, j :: 0 <= i < j < |names| && names[i] == name && names[j] == name
  {
    var count := 0;
    for k := 0 to |names|
      invariant count == Occurrences(names[..k], name)
    {
      assert names[..k + 1][..k] == names[..k];
      if names[k] == name {
        count := count + 1;
      }
    }
    assert names[..|names|] == names;
    OccurrencesAboveOne(names, name);
    r := count > 1;
  }

  // ----- validate_constant_expression -----

  /** The diagnostics `validate_constant_expression` can report, as tags. */
  datatype ConstantIssue =
    | NotAConstant
    | BitCountNotANumber
    | BitCountOutOfRange
    | FractionalInteger
    | UnsupportedFloatWidth
    | UnexpectedNumberSuffix
    | UnexpectedStringSuffix

  /** `validate_constant_expression` on the word of a constant node. */
  function ValidateConstant(w: PT.Word): (r: Option<ConstantIssue>)
    ensures w.wordType == PT.Alphanumeric ==> (r.None? <==> w.value == "true" || w.value == "false")
    ensures w.wordType == PT.StringWord ==> (r.None? <==> PT.ScannedSuffix(w) == "" || PT.ScannedSuffix(w) == "c")
    ensures w.wordType == PT.Comment || w.wordType == PT.ScannedType ==> r.None?
  {
    match w.wordType
    case Alphanumeric =>
      if w.value != "true" && w.value != "false" then Some(NotAConstant) else None
    case Number =>
      var suffix := PT.ScannedSuffix(w);
      if |suffix| == 0 || suffix[0] == 'i' || suffix[0] == 'u' then
        var bits := if |suffix| > 0 then JsNumbers.Number(suffix[1..]) else JsNumbers.Finite(32.0);
        if bits.NaN? then Some(BitCountNotANumber)
        else if bits.Infinity? || bits.value < 1.0 || bits.value > 64.0 then Some(BitCountOutOfRange)
        else if FirstIndexOf(w.value[..|w.value| - |suffix|], '.') != -1 then Some(FractionalInteger)
        else None
      else if suffix[0] == 'f' then
        if !PT.IsFloatWidth(JsNumbers.Number(suffix[1..])) then Some(UnsupportedFloatWidth) else None
      else Some(UnexpectedNumberSuffix)
    case StringWord =>
      var suffix := PT.ScannedSuffix(w);
      if |suffix| > 0 && suffix != "c" then Some(UnexpectedStringSuffix) else None
    case _ => None
  }

  /** The scanner splits a number word printed as digits plus a suffix
      back into the two. */
  lemma ScannedNumber(data: string, suffix: string)
    requires NoLetters(data) && (|suffix| == 0 || IsLetter(suffix[0]))
    ensures var w := PT.Word(data + suffix, PT.Number);
      PT.ScannedSuffix(w) == suffix && w.value[..|w.value| - |suffix|] == data
  {
    PT.FirstLetterOf(data, suffix);
    assert (data + suffix)[|data|..] == suffix;
    assert (data + suffix)[..|data|] == data;
  }

  lemma IntegerWordValidation(data: string, suffix: string, bits: int)
    requires NoLetters(data) && |suffix| > 0 && (suffix[0] == 'i' || suffix[0] == 'u')
    requires suffix[1..] == PT.IntToString(bits)
    ensures ValidateConstant(PT.Word(data + suffix, PT.Number)) ==
        if bits < 1 || bits > 64 then Some(BitCountOutOfRange)
        else if '.' in data then Some(FractionalInteger)
        else None
  {
    PT.JsNumberOfInt(bits);
    IntegerWidthValidation(data, suffix, bits);
  }

  /** An `i`/`u` word whose width JavaScript reads as a whole number is
      checked against 1..64 and then for a fractional part. */
  lemma IntegerWidthValidation(data: string, suffix: string, bits: int)
    requires NoLetters(data) && |suffix| > 0 && (suffix[0] == 'i' || suffix[0] == 'u')
    requires JsNumbers.Number(suffix[1..]) == JsNumbers.Finite(bits as real)
    ensures ValidateConstant(PT.Word(data + suffix, PT.Number)) ==
        if bits < 1 || bits > 64 then Some(BitCountOutOfRange)
        else if '.' in data then Some(FractionalInteger)
        else None
  {
    ScannedNumber(data, suffix);
  }

  /** JavaScript's `Number` also reads a hexadecimal width, so `1i0x10` is
      accepted as a 16-bit integer. */
  lemma HexadecimalWidthValidation(data: string, kind: char, digits: string)
    requires NoLetters(data) && (kind == 'i' || kind == 'u')
    requires |digits| > 0 && JsNumbers.AllRadixDigits(digits, 16)
    ensures var bits := JsNumbers.RadixValue(digits, 16);
      ValidateConstant(PT.Word(data + ([kind] + ("0x" + digits)), PT.Number)) ==
        if bits < 1 || bits > 64 then Some(BitCountOutOfRange)
        else if '.' in data then Some(FractionalInteger)
        else None
  {
    var suffix := [kind] + ("0x" + digits);
    JsNumbers.HexadecimalValue("", digits, "");
    assert suffix[1..] == "" + ("0x" + digits) + "";
    IntegerWidthValidation(data, suffix, JsNumbers.RadixValue(digits, 16));
  }

  /** A printed integer constant validates iff its bit count is in 1..64
      and its digits have no fractional part. */
  lemma PrintedIntegerValidation(bits: int, signed: bool, data: string)
    requires NoLetters(data)
    ensures var w := PT.ConstantToWord(PT.ConstantExpression(IntegerType(bits, signed), data)).value;
      ValidateConstant(w) ==
        if bits < 1 || bits > 64 then Some(BitCountOutOfRange)
        else if '.' in data then Some(FractionalInteger)
        else None
  {
    var c := PT.ConstantExpression(IntegerType(bits, signed), data);
    if signed && bits == 32 {
      assert PT.ConstantToWord(c).value == PT.Word(data + "", PT.Number);
      ScannedNumber(data, "");
    } else {
      var suffix := (if signed then "i" else "u") + PT.IntToString(bits);
      assert PT.ConstantToWord(c).value == PT.Word(data + suffix, PT.Number);
      assert suffix[1..] == PT.IntToString(bits);
      IntegerWordValidation(data, suffix, bits);
    }
  }

  /** Printed Float16, Float32 and Float64 constants validate. */
  lemma PrintedFloatValidation(t: FundamentalType, data: string)
    requires t == Float16 || t == Float32 || t == Float64
    requires NoLetters(data)
    ensures ValidateConstant(PT.ConstantToWord(PT.ConstantExpression(FundamentalTypeReference(t), data)).value).None?
  {
    var suffix := PT.FloatSuffix(t);
    var c := PT.ConstantExpression(FundamentalTypeReference(t), data);
    assert PT.ConstantToWord(c) == Ok(PT.Word(data + suffix, PT.Number));
    PT.FloatWidthDigits(t);
    ScannedNumber(data, suffix);
    FloatSuffixAccepted(PT.Word(data + suffix, PT.Number));
  }

  /** A number word with a suffix `f16`, `f32` or `f64` is accepted. */
  lemma FloatSuffixAccepted(w: PT.Word)
    requires w.wordType == PT.Number
    requires var suffix := PT.ScannedSuffix(w);
      |suffix| > 0 && suffix[0] == 'f' && PT.IsFloatWidth(JsNumbers.Number(suffix[1..]))
    ensures ValidateConstant(w).None?
  {
  }

  /** Printed string and C-string constants validate. */
  lemma PrintedStringValidation(data: string, isCString: bool)
    ensures var t := if isCString then PointerType([FundamentalTypeReference(CChar)], false) else FundamentalTypeReference(String);
      ValidateConstant(PT.ConstantToWord(PT.ConstantExpression(t, data)).value).None?
  {
    var tail := if isCString then "c" else "";
    PT.ClosingQuote(data, tail);
    assert isCString ==> "\"" + data + "\"c" == "\"" + data + "\"" + tail;
    assert !isCString ==> "\"" + data + "\"" == "\"" + data + "\"" + tail;
  }

  /** A number word whose scanned suffix starts with `c` is rejected. */
  lemma CSuffixRejected(w: PT.Word)
    requires w.wordType == PT.Number
    requires |PT.ScannedSuffix(w)| > 0 && PT.ScannedSuffix(w)[0] == 'c'
    ensures ValidateConstant(w) == Some(UnexpectedNumberSuffix)
  {
  }

  /** The editor's validator rejects every C-typed number the editor's own
      printer produces (`cc` ... `cb`), although the parser accepts them. */
  lemma PrintedCConstantRejected(t: FundamentalType, data: string)
    requires HasCSuffix(t) && NoLetters(data)
    ensures var c := PT.ConstantExpression(FundamentalTypeReference(t), data);
      && ValidateConstant(PT.ConstantToWord(c).value) == Some(UnexpectedNumberSuffix)
      && PT.NodeToConstant(PT.ConstantToWord(c).value) == Ok(c)
  {
    var suffix := PT.CTypeSuffix(t);
    PT.CConstantWord(t, data);
    ScannedNumber(data, suffix);
    CSuffixRejected(PT.Word(data + suffix, PT.Number));
    PT.CConstantRoundTrip(t, data);
  }

  /** `validate_constant_expression` as the parser's suffix table implies:
      a number with a `c` suffix is accepted exactly when the suffix names a
      C type; every other word is validated as before. */
  function ValidateConstantWithCTypes(w: PT.Word): (r: Option<ConstantIssue>)
    ensures w.wordType == PT.Number && |PT.ScannedSuffix(w)| > 0 && PT.ScannedSuffix(w)[0] == 'c' ==>
      (r.None? <==> PT.CSuffixType(PT.ScannedSuffix(w)).Some?)
    ensures w.wordType != PT.Number || |PT.ScannedSuffix(w)| == 0 || PT.ScannedSuffix(w)[0] != 'c' ==>
      r == ValidateConstant(w)
  {
    var suffix := PT.ScannedSuffix(w);
    if w.wordType == PT.Number && |suffix| > 0 && suffix[0] == 'c' then
      if PT.CSuffixType(suffix).Some? then None else Some(UnexpectedNumberSuffix)
    else ValidateConstant(w)
  }

  /** On numbers with a `c` suffix the corrected validator accepts exactly
      what the parser accepts. */
  lemma CSuffixValidationMatchesParser(data: string, suffix: string)
    requires NoLetters(data) && |suffix| > 0 && suffix[0] == 'c'
    ensures ValidateConstantWithCTypes(PT.Word(data + suffix, PT.Number)).None?
        <==> PT.NumberToConstant(PT.Word(data + suffix, PT.Number)).Ok?
  {
    ScannedNumber(data, suffix);
    PT.NumberWord(data, suffix);
  }

  /** Every C-typed constant the printer produces passes the corrected
      validator and parses back to itself. */
  lemma PrintedCConstantAccepted(t: FundamentalType, data: string)
    requires HasCSuffix(t) && NoLetters(data)
    ensures var c := PT.ConstantExpression(FundamentalTypeReference(t), data);
      && ValidateConstantWithCTypes(PT.ConstantToWord(c).value) == None
      && PT.NodeToConstant(PT.ConstantToWord(c).value) == Ok(c)
  {
    var suffix := PT.CTypeSuffix(t);
    PT.CConstantWord(t, data);
    ScannedNumber(data, suffix);
    assert PT.CSuffixType(suffix) == Some(t);
    PT.CConstantRoundTrip(t, data);
  }

  // ----- validate_that_instantiate_members_are_sorted -----

  /** The declaration indices of the instantiate members, up to the first
      member that has no name node or names no declared member. */
  function MemberIndices(expected: seq<string>, given: seq<Option<string>>): (r: seq<int>)
    ensures |r| <= |given|
  {
    if |given| == 0 || given[0].None? || IndexOf(expected, given[0].value) == -1 then []
    else [IndexOf(expected, given[0].value)] + MemberIndices(expected, given[1..])
  }

  /** Position `t` of the member indices, or where they stop. */
  lemma {:induction false} MemberIndexAt(expected: seq<string>, given: seq<Option<string>>, t: nat)
    requires t < |given|
    ensures var r := MemberIndices(expected, given);
      if t < |r| then given[t].Some? && r[t] == IndexOf(expected, given[t].value) && r[t] >= 0
      else t == |r| ==> given[t].None? || IndexOf(expected, given[t].value) == -1
  {
    if t > 0 && given[0].Some? && IndexOf(expected, given[0].value) != -1 {
      MemberIndexAt(expected, given[1..], t - 1);
    }
  }

  /** `validate_that_instantiate_members_are_sorted`: an error (`true`)
      iff the declaration indices of the members, read up to the first
      unknown one, step down somewhere. */
  method InstantiateMembersUnsorted(expected: seq<string>, given: seq<Option<string>>) returns (unsorted: bool)
    ensures unsorted <==> !NonDecreasing(MemberIndices(expected, given))
  {
    ghost var indices := MemberIndices(expected, given);
    var currentIndex := 0;
    var k := 0;
    while k < |given|
      invariant k <= |indices|
      invariant NonDecreasing(indices[..k])
      invariant currentIndex == if k == 0 then 0 else indices[k - 1]
    {
      MemberIndexAt(expected, given, k);
      if given[k].None? {
        assert |indices| == k && indices == indices[..k];
        return false;
      }
      var foundIndex := IndexOf(expected, given[k].value);
      if foundIndex == -1 {
        assert |indices| == k && indices == indices[..k];
        return false;
      }
      assert k < |indices| && indices[k] == foundIndex;
      if foundIndex < currentIndex {
        assert indices[k - 1] > indices[k];
        return true;
      }
      NonDecreasingSnoc(indices, k);
      currentIndex := foundIndex;
      k := k + 1;
    }
    assert |indices| == k && indices == indices[..k];
    return false;
  }

  /** With every member known, the check accepts exactly the member lists
      in declaration order. */
  lemma InstantiateOrderAllKnown(expected: seq<string>, given: seq<Option<string>>)
    requires forall t :: 0 <= t < |given| ==> given[t].Some? && given[t].value in expected
    ensures var xs := MemberIndices(expected, given);
      |xs| == |given| && (NonDecreasing(xs) <==> forall i, j :: 0 <= i < j < |xs| ==> xs[i] <= xs[j])
  {
    var xs := MemberIndices(expected, given);
    if |xs| < |given| {
      MemberIndexAt(expected, given, |xs|);
      IndexOfFirst(expected, given[|xs|].value);
    }
    NonDecreasingIsSorted(xs);
  }

  // ----- are_compatible_pointer_types -----

  predicate IsPointerType(t: seq<CoreTypeReference>) { |t| > 0 && t[0].CorePointerType? }

  predicate IsNullPointerType(t: seq<CoreTypeReference>) { |t| > 0 && t[0].CoreNullPointerType? }

  /** `are_compatible_pointer_types`. */
  function AreCompatiblePointerTypes(first: seq<CoreTypeReference>, second: seq<CoreTypeReference>): (r: bool)
    ensures r ==> (IsPointerType(first) || IsNullPointerType(first)) && (IsPointerType(second) || IsNullPointerType(second))
    ensures r ==> first == second || IsNullPointerType(first) || IsNullPointerType(second)
  {
    var isFirstPointer := IsPointerType(first) || IsNullPointerType(first);
    var isSecondPointer := IsPointerType(second) || IsNullPointerType(second);
    if !isFirstPointer || !isSecondPointer then false
    else if first == second then true
    else IsNullPointerType(first) || IsNullPointerType(second)
  }

  /** The relation is symmetric, reflexive on pointers, and relates null
      to every pointer. */
  lemma PointerCompatibility(a: seq<CoreTypeReference>, b: seq<CoreTypeReference>)
    ensures AreCompatiblePointerTypes(a, b) == AreCompatiblePointerTypes(b, a)
    ensures IsPointerType(a) || IsNullPointerType(a) ==> AreCompatiblePointerTypes(a, a)
    ensures IsNullPointerType(a) && (IsPointerType(b) || IsNullPointerType(b)) ==> AreCompatiblePointerTypes(a, b)
    ensures IsPointerType(a) && IsPointerType(b) ==> (AreCompatiblePointerTypes(a, b) <==> a == b)
  {
  }

  // ----- validate_enum_values_use_previous_values -----

  /** An enum member: its value name (if the parse tree has one) and the
      variable names its value expression uses (`None` without one). */
  datatype EnumMember = EnumMember(name: Option<string>, references: Option<seq<string>>)

  datatype EnumIssueKind = UnknownValue | NotAPreviousValue

  /** A reported use of `variable` in the value of member `memberIndex`. */
  datatype EnumIssue = EnumIssue(memberIndex: nat, variable: string, kind: EnumIssueKind)

  /** `enum_value_names`: the names that exist, in member order. */
  function ValueNames(members: seq<EnumMember>): seq<string> {
    if |members| == 0 then []
    else ValueNames(members[..|members| - 1]) + (if members[|members| - 1].name.Some? then [members[|members| - 1].name.value] else [])
  }

  /** The issue, if any, of one use of `v` in the value of member `m`. */
  function ReferenceIssue(names: seq<string>, m: nat, v: string): seq<EnumIssue> {
    var index := IndexOf(names, v);
    if index == -1 then [EnumIssue(m, v, UnknownValue)]
    else if index >= m then [EnumIssue(m, v, NotAPreviousValue)]
    else []
  }

  function ReferenceIssues(names: seq<string>, m: nat, vs: seq<string>): seq<EnumIssue> {
    if |vs| == 0 then [] else ReferenceIssues(names, m, vs[..|vs| - 1]) + ReferenceIssue(names, m, vs[|vs| - 1])
  }

  function MemberIssues(names: seq<string>, m: nat, member: EnumMember): seq<EnumIssue> {
    if member.references.None? then [] else ReferenceIssues(names, m, member.references.value)
  }

  /** The issues of members `0 .. n-1`, in order. */
  function EnumIssues(names: seq<string>, members: seq<EnumMember>, n: nat): seq<EnumIssue>
    requires n <= |members|
  {
    if n == 0 then [] else EnumIssues(names, members, n - 1) + MemberIssues(names, n - 1, members[n - 1])
  }

  /** The inner loop of `validate_enum_values_use_previous_values`: the
      uses of `vs` in the value of member `memberIndex`. */
  method ReferenceDiagnostics(names: seq<string>, memberIndex: nat, vs: seq<string>) returns (r: seq<EnumIssue>)
    ensures r == ReferenceIssues(names, memberIndex, vs)
  {
    r := [];
    for j := 0 to |vs|
      invariant r == ReferenceIssues(names, memberIndex, vs[..j])
    {
      assert vs[..j + 1][..j] == vs[..j];
      var index := IndexOf(names, vs[j]);
      if index == -1 {
        r := r + [EnumIssue(memberIndex, vs[j], UnknownValue)];
      } else if index >= memberIndex {
        r := r + [EnumIssue(memberIndex, vs[j], NotAPreviousValue)];
      }
    }
    assert vs[..|vs|] == vs;
  }

  /** `validate_enum_values_use_previous_values`. */
  method ValidateEnumValues(members: seq<EnumMember>) returns (r: seq<EnumIssue>)
    ensures r == EnumIssues(ValueNames(members), members, |members|)
  {
    var names := ValueNames(members);
    r := [];
    for memberIndex := 0 to |members|
      invariant r == EnumIssues(names, members, memberIndex)
    {
      var member := members[memberIndex];
      if member.references.None? {
        continue;
      }
      var issues := ReferenceDiagnostics(names, memberIndex, member.references.value);
      r := r + issues;
    }
  }

  lemma {:induction false} ReferenceIssuesEmpty(names: seq<string>, m: nat, vs: seq<string>)
    ensures ReferenceIssues(names, m, vs) == [] <==> forall j :: 0 <= j < |vs| ==> 0 <= IndexOf(names, vs[j]) < m
  {
    if |vs| > 0 {
      ReferenceIssuesEmpty(names, m, vs[..|vs| - 1]);
    }
  }

  /** Every variable the value of member `m` uses is found among `names`
      before position `m`. */
  predicate UsesEarlierNames(names: seq<string>, m: nat, member: EnumMember) {
    member.references.Some? ==>
      forall j :: 0 <= j < |member.references.value| ==> 0 <= IndexOf(names, member.references.value[j]) < m
  }

  /** A member has no issues iff it uses only earlier names. */
  lemma MemberIssuesEmpty(names: seq<string>, m: nat, member: EnumMember)
    ensures MemberIssues(names, m, member) == [] <==> UsesEarlierNames(names, m, member)
  {
    if member.references.Some? {
      ReferenceIssuesEmpty(names, m, member.references.value);
    }
  }

  /** Members `0 .. n-1` each use only earlier names. */
  predicate AllUseEarlierNames(names: seq<string>, members: seq<EnumMember>, n: nat)
    requires n <= |members|
  {
    n == 0 || (AllUseEarlierNames(names, members, n - 1) && UsesEarlierNames(names, n - 1, members[n - 1]))
  }

  lemma {:induction false} EnumIssuesEmpty(names: seq<string>, members: seq<EnumMember>, n: nat)
    requires n <= |members|
    ensures EnumIssues(names, members, n) == [] <==> AllUseEarlierNames(names, members, n)
  {
    if n > 0 {
      EnumIssuesEmpty(names, members, n - 1);
      MemberIssuesEmpty(names, n - 1, members[n - 1]);
      var before := EnumIssues(names, members, n - 1);
      var last := MemberIssues(names, n - 1, members[n - 1]);
      assert EnumIssues(names, members, n) == before + last;
      assert |before + last| == |before| + |last|;
    }
  }

  lemma {:induction false} AllUseEarlierNamesEach(names: seq<string>, members: seq<EnumMember>, n: nat)
    requires n <= |members|
    ensures AllUseEarlierNames(names, members, n) <==> forall m :: 0 <= m < n ==> UsesEarlierNames(names, m, members[m])
  {
    if n > 0 {
      AllUseEarlierNamesEach(names, members, n - 1);
    }
  }

  lemma {:induction false} ValueNamesAllNamed(members: seq<EnumMember>)
    requires forall m :: 0 <= m < |members| ==> members[m].name.Some?
    ensures |ValueNames(members)| == |members|
    ensures forall m :: 0 <= m < |members| ==> ValueNames(members)[m] == members[m].name.value
  {
    if |members| > 0 {
      ValueNamesAllNamed(members[..|members| - 1]);
    }
  }

  /** When every member has a name, an enum passes the check iff each value
      expression uses only names of members declared strictly earlier. */
  lemma EnumValuesUsePreviousValues(members: seq<EnumMember>)
    requires forall m :: 0 <= m < |members| ==> members[m].name.Some?
    ensures EnumIssues(ValueNames(members), members, |members|) == [] <==>
      forall m, j :: 0 <= m < |members| && members[m].references.Some? && 0 <= j < |members[m].references.value| ==>
        exists i :: 0 <= i < m && members[i].name == Some(members[m].references.value[j])
  {
    var names := ValueNames(members);
    ValueNamesAllNamed(members);
    EnumIssuesEmpty(names, members, |members|);
    AllUseEarlierNamesEach(names, members, |members|);
    forall m, j | 0 <= m < |members| && members[m].references.Some? && 0 <= j < |members[m].references.value|
      ensures 0 <= IndexOf(names, members[m].references.value[j]) < m <==>
              exists i :: 0 <= i < m && members[i].name == Some(members[m].references.value[j])
    {
      var v := members[m].references.value[j];
      var index := IndexOf(names, v);
      IndexOfFirst(names, v);
      if exists i :: 0 <= i < m && members[i].name == Some(v) {
        var i :| 0 <= i < m && members[i].name == Some(v);
        assert names[i] == v;
      }
      if 0 <= index < m {
        assert members[index].name == Some(v);
      }
    }
  }

  // ----- Operation classifiers -----

  predicate IsNumericBinaryOperation(op: BinaryOperation) { op in {Add, Subtract, Multiply, Divide, Modulus} }
  predicate IsLogicalBinaryOperation(op: BinaryOperation) { op in {LogicalAnd, LogicalOr} }
  predicate IsComparisonBinaryOperation(op: BinaryOperation) {
    op in {Equal, NotEqual, LessThan, LessThanOrEqualTo, GreaterThan, GreaterThanOrEqualTo}
  }
  predicate IsBitwiseBinaryOperation(op: BinaryOperation) { op in {BitwiseAnd, BitwiseOr, BitwiseXor} }
  predicate IsBitShiftBinaryOperation(op: BinaryOperation) { op in {BitShiftLeft, BitShiftRight} }
  predicate IsNumericUnaryOperation(op: UnaryOperation) { op in {Minus, PreIncrement, PostIncrement, PreDecrement, PostDecrement} }
  predicate IsLogicalUnaryOperation(op: UnaryOperation) { op == Not }

  /** The number of binary classifiers that accept `op`. */
  function BinaryClassCount(op: BinaryOperation): nat {
    (if IsNumericBinaryOperation(op) then 1 else 0) + (if IsLogicalBinaryOperation(op) then 1 else 0)
    + (if IsComparisonBinaryOperation(op) then 1 else 0) + (if IsBitwiseBinaryOperation(op) then 1 else 0)
    + (if IsBitShiftBinaryOperation(op) then 1 else 0)
  }

  /** Every binary operation but `Has` is in exactly one class; `Has` is in
      none. The unary classes are disjoint. */
  lemma ClassifiersPartition(op: BinaryOperation, u: UnaryOperation)
    ensures BinaryClassCount(op) == if op == Has then 0 else 1
    ensures !(IsNumericUnaryOperation(u) && IsLogicalUnaryOperation(u))
    ensures u in {BitwiseNot, Indirection, AddressOf} <==> !IsNumericUnaryOperation(u) && !IsLogicalUnaryOperation(u)
  {
  }
}
