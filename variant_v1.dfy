/** variant.go, the earlier variants: `convert` takes the arbitrary value as a
    pointer (absent or present) and the rule, and some kinds panic instead of
    failing. css.go folds these variants over its rules. */
module VariantV1 {
  import opened Rules
  import opened Wrappers
  import Util

  /** Every variant kind variant.go defines, registered or not. */
  datatype Variant =
    | PseudoClass(name: string)
    | PseudoElement(name: string, value: string)
    | DoublePseudoElement(name: string)
    | Media(name: string, value: string)
    | Supports
    | CustomSupports(name: string, value: string)
    | Breakpoint(name: string, value: string)

  /** What a `convert` call does: return rules (nil as the empty sequence), or panic. */
  datatype Converted = Returned(rules: seq<Css>) | Panicked

  /** `base()`: the name the variant is registered under. */
  function Base(v: Variant): string {
    match v
    case PseudoClass(n) => n
    case PseudoElement(n, _) => n
    case DoublePseudoElement(n) => n
    case Media(n, _) => n
    case Supports => "supports"
    case CustomSupports(n, _) => "supports-" + n
    case Breakpoint(n, _) => n
  }

  /** Whether the kind panics for this arbitrary value: the pseudo-class and
      pseudo-element kinds on a present one, `supports` on an absent one (a nil
      dereference). */
  predicate Panics(v: Variant, arb: Option<string>) {
    ((v.PseudoClass? || v.PseudoElement?) && arb.Some?) || (v.Supports? && arb.None?)
  }

  /** `convert(arbitraryValue, c)`. */
  function Convert(v: Variant, arb: Option<string>, c: Css): (r: Converted)
    ensures r.Panicked? <==> Panics(v, arb)
    ensures r.Returned? ==> |r.rules| <= 2
    ensures r.Returned? ==> (|r.rules| == 2 <==> v.DoublePseudoElement?)
    ensures r.Returned? ==> (r.rules == [] <==> v.Breakpoint? && arb.Some?)
    ensures r.Returned? ==> forall i :: 0 <= i < |r.rules| ==>
      r.rules[i].selector == c.selector && r.rules[i].declarations == c.declarations
  {
    match v
    case PseudoClass(n) =>
      if arb.Some? then Panicked else Returned([c.(pseudoClasses := c.pseudoClasses + [n])])
    case PseudoElement(n, _) =>
      if arb.Some? then Panicked else Returned([c.(pseudoElements := c.pseudoClasses + [n])])
    case DoublePseudoElement(n) =>
      var first := c.(pseudoElements := c.pseudoElements + [n]);
      Returned([first, DeepCopy(first).(childCombinator := "*")])
    case Media(_, value) => Returned([c.(mediaQueries := c.pseudoElements + [value])])
    case Supports =>
      if arb.None? then Panicked else Returned([c.(supportsStatements := c.supportsStatements + [arb.value])])
    case CustomSupports(_, value) => Returned([c.(supportsStatements := c.supportsStatements + [value])])
    case Breakpoint(_, value) =>
      if arb.Some? then Returned([]) else Returned([c.(mediaQueries := c.mediaQueries + ["min-width: " + value])])
  }

  /** What each kind changes when it returns one rule; putting the changed
      field back gives the input. The pseudo-element and media kinds build the
      new list from a different field, dropping the old contents. */
  lemma ConvertChanges(v: Variant, arb: Option<string>, c: Css)
    ensures v.PseudoClass? && arb.None? ==> var r := Convert(v, arb, c).rules;
      r[0].pseudoClasses == c.pseudoClasses + [v.name] && r[0].(pseudoClasses := c.pseudoClasses) == c
    ensures v.PseudoElement? && arb.None? ==> var r := Convert(v, arb, c).rules;
      r[0].pseudoElements == c.pseudoClasses + [v.name] && r[0].(pseudoElements := c.pseudoElements) == c
    ensures v.Media? ==> var r := Convert(v, arb, c).rules;
      r[0].mediaQueries == c.pseudoElements + [v.value] && r[0].(mediaQueries := c.mediaQueries) == c
    ensures v.Supports? && arb.Some? ==> var r := Convert(v, arb, c).rules;
      r[0].supportsStatements == c.supportsStatements + [arb.value]
      && r[0].(supportsStatements := c.supportsStatements) == c
    ensures v.CustomSupports? ==> var r := Convert(v, arb, c).rules;
      r[0].supportsStatements == c.supportsStatements + [v.value]
      && r[0].(supportsStatements := c.supportsStatements) == c
    ensures v.Breakpoint? && arb.None? ==> var r := Convert(v, arb, c).rules;
      r[0].mediaQueries == c.mediaQueries + ["min-width: " + v.value]
      && r[0].(mediaQueries := c.mediaQueries) == c
    ensures v.DoublePseudoElement? ==> var r := Convert(v, arb, c).rules;
      r[0].pseudoElements == c.pseudoElements + [v.name] && r[0].(pseudoElements := c.pseudoElements) == c
      && r[1] == r[0].(childCombinator := "*")
  {
  }

  // ---------------------------------------------------------------- registries

  const PseudoClassVariants: seq<Variant> := [PseudoClass("hover"), PseudoClass("focus")]

  /** `PseudoElementNameSameAsValue(n)`. */
  function SameAsValue(n: string): (v: Variant)
    ensures v.PseudoElement? && v.name == n && v.value == n
  {
    PseudoElement(n, n)
  }

  const PseudoElementVariants: seq<Variant> := [
    SameAsValue("before"), SameAsValue("after"), SameAsValue("placeholder"),
    PseudoElement("file", "file-selector-button"), SameAsValue("first-line"),
    SameAsValue("backdrop")]

  const MarkerVariant := DoublePseudoElement("marker")

  /** What `variantMapFromArrs(arr)` returns: each variant under its base, a
      later element overwriting an earlier one with the same base. */
  function VariantMap(arr: seq<Variant>): map<string, Variant>
    decreases |arr|
  {
    if arr == [] then map[] else VariantMap(arr[..|arr| - 1])[Base(arr[|arr| - 1]) := arr[|arr| - 1]]
  }

  /** An element whose base no later element shares is what its base maps to. */
  lemma {:induction false} VariantMapLast(arr: seq<Variant>, i: nat)
    requires i < |arr|
    requires forall j :: i < j < |arr| ==> Base(arr[j]) != Base(arr[i])
    ensures Base(arr[i]) in VariantMap(arr) && VariantMap(arr)[Base(arr[i])] == arr[i]
    decreases |arr|
  {
    if i < |arr| - 1 {
      var init := arr[..|arr| - 1];
      assert init[i] == arr[i];
      forall j | i < j < |init| ensures Base(init[j]) != Base(init[i]) {
        assert init[j] == arr[j];
      }
      VariantMapLast(init, i);
    }
  }

  /** Every key is the base of some element, and maps to such an element. */
  lemma {:induction false} VariantMapKeys(arr: seq<Variant>, key: string)
    requires key in VariantMap(arr)
    ensures exists i :: 0 <= i < |arr| && Base(arr[i]) == key && VariantMap(arr)[key] == arr[i]
    decreases |arr|
  {
    var last := |arr| - 1;
    if Base(arr[last]) != key {
      var init := arr[..last];
      VariantMapKeys(init, key);
      var i :| 0 <= i < |init| && Base(init[i]) == key && VariantMap(init)[key] == init[i];
      assert arr[i] == init[i];
    }
  }

  /** `variantMapFromArrs`. */
  method VariantMapFromArrs(arr: seq<Variant>) returns (m: map<string, Variant>)
    ensures m == VariantMap(arr)
  {
    m := map[];
    for i := 0 to |arr|
      invariant m == VariantMap(arr[..i])
    {
      assert arr[..i + 1][..i] == arr[..i];
      m := m[Base(arr[i]) := arr[i]];
    }
    assert arr[..|arr|] == arr;
  }

  /** The breakpoint variants of a breakpoint table, keyed by their names. */
  function BreakpointMap(bps: map<string, string>): (m: map<string, Variant>)
    ensures m.Keys == bps.Keys
    ensures forall k :: k in m ==> m[k] == Breakpoint(k, bps[k])
  {
    map k | k in bps :: Breakpoint(k, bps[k])
  }

  /** `genBreakpointsVariant`: one breakpoint per table entry, in the map's
      iteration order, which Go leaves unspecified. */
  method GenBreakpointsVariant(bps: map<string, string>) returns (arr: seq<Variant>)
    ensures |arr| == |bps|
    ensures forall i :: 0 <= i < |arr| ==> arr[i].Breakpoint? && arr[i].name in bps && arr[i].value == bps[arr[i].name]
    ensures forall k :: k in bps ==> Breakpoint(k, bps[k]) in arr
    ensures forall i, j :: 0 <= i < j < |arr| ==> arr[i].name != arr[j].name
  {
    arr := [];
    var todo := bps.Keys;
    while todo != {}
      invariant todo <= bps.Keys
      invariant |arr| + |todo| == |bps|
      invariant forall i :: 0 <= i < |arr| ==> arr[i].Breakpoint? && arr[i].name in bps - todo && arr[i].value == bps[arr[i].name]
      invariant forall k :: k in bps && k !in todo ==> Breakpoint(k, bps[k]) in arr
      invariant forall i, j :: 0 <= i < j < |arr| ==> arr[i].name != arr[j].name
      decreases todo
    {
      var k :| k in todo;
      arr := arr + [Breakpoint(k, bps[k])];
      todo := todo - {k};
    }
  }

  /** Distinct-named breakpoints, in any order, give the breakpoint map. */
  lemma BreakpointsAsMap(bps: map<string, string>, arr: seq<Variant>)
    requires |arr| == |bps|
    requires forall i :: 0 <= i < |arr| ==> arr[i].Breakpoint? && arr[i].name in bps && arr[i].value == bps[arr[i].name]
    requires forall k :: k in bps ==> Breakpoint(k, bps[k]) in arr
    requires forall i, j :: 0 <= i < j < |arr| ==> arr[i].name != arr[j].name
    ensures VariantMap(arr) == BreakpointMap(bps)
  {
    var m := VariantMap(arr);
    forall k | k in m ensures k in bps && m[k] == Breakpoint(k, bps[k]) {
      VariantMapKeys(arr, k);
    }
    forall k | k in bps ensures k in m {
      var i :| 0 <= i < |arr| && arr[i] == Breakpoint(k, bps[k]);
      VariantMapLast(arr, i);
    }
  }

  /** The registry `MakeVariants` builds for a breakpoint table. The media,
      `supports` and custom-supports kinds are not registered. */
  function AllVariants(bps: map<string, string>): map<string, Variant> {
    Util.Merge([VariantMap(PseudoClassVariants), VariantMap(PseudoElementVariants),
                VariantMap([MarkerVariant]), BreakpointMap(bps)])
  }

  /** `MakeVariants`. */
  method MakeVariants(bps: map<string, string>) returns (m: map<string, Variant>)
    ensures m == AllVariants(bps)
  {
    var pc := VariantMapFromArrs(PseudoClassVariants);
    var pe := VariantMapFromArrs(PseudoElementVariants);
    var mk := VariantMapFromArrs([MarkerVariant]);
    var arr := GenBreakpointsVariant(bps);
    var bp := VariantMapFromArrs(arr);
    BreakpointsAsMap(bps, arr);
    m := Util.ConcatMaps([pc, pe, mk, bp]);
  }

  /** No registered variant panics when given no arbitrary value, which is all
      css.go ever passes. */
  lemma {:induction false} RegisteredNeverPanic(bps: map<string, string>, k: string)
    requires k in AllVariants(bps)
    ensures !Panics(AllVariants(bps)[k], None)
  {
    var ms := [VariantMap(PseudoClassVariants), VariantMap(PseudoElementVariants),
               VariantMap([MarkerVariant]), BreakpointMap(bps)];
    Util.MergeFrom(ms, k);
    var i :| 0 <= i < |ms| && k in ms[i] && AllVariants(bps)[k] == ms[i][k];
    if i == 0 {
      VariantMapKeys(PseudoClassVariants, k);
    } else if i == 1 {
      VariantMapKeys(PseudoElementVariants, k);
    } else if i == 2 {
      VariantMapKeys([MarkerVariant], k);
    }
  }

  /** A breakpoint named like another variant replaces it; otherwise `focus` is
      the pseudo-class and `marker` the double pseudo-element. */
  lemma AllVariantsLookup(bps: map<string, string>)
    ensures forall k :: k in bps ==> k in AllVariants(bps) && AllVariants(bps)[k] == Breakpoint(k, bps[k])
    ensures "focus" !in bps ==> "focus" in AllVariants(bps) && AllVariants(bps)["focus"] == PseudoClass("focus")
    ensures "marker" !in bps ==> "marker" in AllVariants(bps) && AllVariants(bps)["marker"] == MarkerVariant
  {
    var ms := [VariantMap(PseudoClassVariants), VariantMap(PseudoElementVariants),
               VariantMap([MarkerVariant]), BreakpointMap(bps)];
    forall k | k in bps ensures k in AllVariants(bps) && AllVariants(bps)[k] == Breakpoint(k, bps[k]) {
      Util.MergeLast(ms, 3, k);
    }
    if "focus" !in bps {
      VariantMapLast(PseudoClassVariants, 1);
      assert "focus" !in ms[1] && "focus" !in ms[2] by {
        if "focus" in ms[1] { VariantMapKeys(PseudoElementVariants, "focus"); }
        if "focus" in ms[2] { VariantMapKeys([MarkerVariant], "focus"); }
      }
      Util.MergeLast(ms, 0, "focus");
    }
    if "marker" !in bps {
      VariantMapLast([MarkerVariant], 0);
      Util.MergeLast(ms, 2, "marker");
    }
  }
}
