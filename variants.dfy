/** The variants registered in main.go: each turns one rule into the rules it
    stands for, and is registered under its `base()` name. */
module Variants {
  import opened Rules
  import Util

  /** The registered variant kinds. `MediaVariant` and `supportsVariant` are not
      among them: their `convert` does not have the shape the interface asks for. */
  datatype Variant =
    | PseudoClass(name: string)
    | PseudoElement(name: string, value: string)
    | DoublePseudoElement(name: string)
    | CustomSupports(name: string, value: string)
    | Breakpoint(name: string, value: string)

  /** `base()`: the name the variant is registered under. */
  function Base(v: Variant): string {
    match v
    case PseudoClass(n) => n
    case PseudoElement(n, _) => n
    case DoublePseudoElement(n) => n
    case CustomSupports(n, _) => "supports" + n
    case Breakpoint(n, _) => n
  }

  /** `convert(arbitraryValue, slashText, c)`. The slash text is never used. */
  function Convert(v: Variant, arb: string, slash: string, c: Css): (r: seq<Css>)
    ensures |r| <= 2
    ensures |r| == 2 <==> v.DoublePseudoElement?
    ensures r == [] <==> v.Breakpoint? && arb != ""
    ensures forall i :: 0 <= i < |r| ==> r[i].selector == c.selector && r[i].declarations == c.declarations
  {
    match v
    case PseudoClass(n) => [c.(pseudoClasses := c.pseudoClasses + [n])]
    case PseudoElement(n, _) => [c.(pseudoElements := c.pseudoClasses + [n])]
    case DoublePseudoElement(n) =>
      var first := c.(pseudoElements := c.pseudoElements + [n]);
      [first, DeepCopy(first).(childCombinator := "*")]
    case CustomSupports(_, value) => [c.(supportsStatements := c.supportsStatements + [value])]
    case Breakpoint(_, value) =>
      if arb != "" then [] else [c.(mediaQueries := c.mediaQueries + ["min-width: " + value])]
  }

  /** What each kind changes; putting the changed field back gives the input. */
  lemma ConvertChanges(v: Variant, arb: string, slash: string, c: Css)
    ensures v.PseudoClass? ==> var r := Convert(v, arb, slash, c);
      r[0].pseudoClasses == c.pseudoClasses + [v.name] && r[0].(pseudoClasses := c.pseudoClasses) == c
    ensures v.PseudoElement? ==> var r := Convert(v, arb, slash, c);
      r[0].pseudoElements == c.pseudoClasses + [v.name] && r[0].(pseudoElements := c.pseudoElements) == c
    ensures v.CustomSupports? ==> var r := Convert(v, arb, slash, c);
      r[0].supportsStatements == c.supportsStatements + [v.value]
      && r[0].(supportsStatements := c.supportsStatements) == c
    ensures v.Breakpoint? && arb == "" ==> var r := Convert(v, arb, slash, c);
      r[0].mediaQueries == c.mediaQueries + ["min-width: " + v.value]
      && r[0].(mediaQueries := c.mediaQueries) == c
    ensures v.DoublePseudoElement? ==> var r := Convert(v, arb, slash, c);
      r[0].pseudoElements == c.pseudoElements + [v.name] && r[0].(pseudoElements := c.pseudoElements) == c
      && r[1] == r[0].(childCombinator := "*")
  {
  }

  /** The slash text has no effect on any variant. */
  lemma ConvertIgnoresSlash(v: Variant, arb: string, s1: string, s2: string, c: Css)
    ensures Convert(v, arb, s1, c) == Convert(v, arb, s2, c)
  {
  }

  /** Every kind but the marker leaves the child combinator alone: setting it
      before the variant or after it gives the same rules. */
  lemma ConvertCommutes(v: Variant, arb: string, slash: string, c: Css, x: string)
    requires !v.DoublePseudoElement?
    ensures |Convert(v, arb, slash, c.(childCombinator := x))| == |Convert(v, arb, slash, c)|
    ensures forall i :: 0 <= i < |Convert(v, arb, slash, c)| ==>
      Convert(v, arb, slash, c.(childCombinator := x))[i] == Convert(v, arb, slash, c)[i].(childCombinator := x)
  {
  }

  // ---------------------------------------------------------------- registries

  const PseudoClassVariants: seq<Variant> := [
    PseudoClass("hover"), PseudoClass("focus"), PseudoClass("focus-within"),
    PseudoClass("focus-visible"), PseudoClass("active"), PseudoClass("visited"),
    PseudoClass("target")]

  /** `PseudoElementNameSameAsValue(n)`. */
  function SameAsValue(n: string): (v: Variant)
    ensures v.PseudoElement? && v.name == n && v.value == n
  {
    PseudoElement(n, n)
  }

  const PseudoElementVariants: seq<Variant> := [
    SameAsValue("before"), SameAsValue("after"), SameAsValue("placeholder"),
    PseudoElement("file", "file-selector-button"), SameAsValue("first-line"),
    SameAsValue("backdrop")]

  const MarkerVariant := DoublePseudoElement("marker")

  /** What `variantMapFromArrs(arr)` returns: each variant under its base, a
      later element overwriting an earlier one with the same base. */
  function VariantMap(arr: seq<Variant>): map<string, Variant>
    decreases |arr|
  {
    if arr == [] then map[] else VariantMap(arr[..|arr| - 1])[Base(arr[|arr| - 1]) := arr[|arr| - 1]]
  }

  /** Every variant's base is a key, and a key's value is the last variant with that base. */
  lemma {:induction false} VariantMapLast(arr: seq<Variant>, i: nat)
    requires i < |arr|
    requires forall j :: i < j < |arr| ==> Base(arr[j]) != Base(arr[i])
    ensures Base(arr[i]) in VariantMap(arr) && VariantMap(arr)[Base(arr[i])] == arr[i]
    decreases |arr|
  {
    if i < |arr| - 1 {
      var init := arr[..|arr| - 1];
      assert init[i] == arr[i];
      forall j | i < j < |init| ensures Base(init[j]) != Base(init[i]) {
        assert init[j] == arr[j];
      }
      VariantMapLast(init, i);
    }
  }

  /** Every key is the base of some element. */
  lemma {:induction false} VariantMapKeys(arr: seq<Variant>, key: string)
    requires key in VariantMap(arr)
    ensures exists i :: 0 <= i < |arr| && Base(arr[i]) == key && VariantMap(arr)[key] == arr[i]
    decreases |arr|
  {
    var last := |arr| - 1;
    if Base(arr[last]) != key {
      var init := arr[..last];
      VariantMapKeys(init, key);
      var i :| 0 <= i < |init| && Base(init[i]) == key && VariantMap(init)[key] == init[i];
      assert arr[i] == init[i];
    }
  }

  /** `variantMapFromArrs`. */
  method VariantMapFromArrs(arr: seq<Variant>) returns (m: map<string, Variant>)
    ensures m == VariantMap(arr)
  {
    m := map[];
    for i := 0 to |arr|
      invariant m == VariantMap(arr[..i])
    {
      assert arr[..i + 1][..i] == arr[..i];
      m := m[Base(arr[i]) := arr[i]];
    }
    assert arr[..|arr|] == arr;
  }

  /** The breakpoint variants of a breakpoint table, keyed by their names. */
  function BreakpointMap(bps: map<string, string>): (m: map<string, Variant>)
    ensures m.Keys == bps.Keys
    ensures forall k :: k in m ==> m[k] == Breakpoint(k, bps[k])
  {
    map k | k in bps :: Breakpoint(k, bps[k])
  }

  /** `genBreakpointsVariant`: one breakpoint variant per table entry, in the
      map's iteration order, which Go leaves unspecified. */
  method GenBreakpointsVariant(bps: map<string, string>) returns (arr: seq<Variant>)
    ensures |arr| == |bps|
    ensures forall i :: 0 <= i < |arr| ==> arr[i].Breakpoint? && arr[i].name in bps && arr[i].value == bps[arr[i].name]
    ensures forall k :: k in bps ==> Breakpoint(k, bps[k]) in arr
    ensures forall i, j :: 0 <= i < j < |arr| ==> arr[i].name != arr[j].name
  {
    arr := [];
    var todo := bps.Keys;
    while todo != {}
      invariant todo <= bps.Keys
      invariant |arr| + |todo| == |bps|
      invariant forall i :: 0 <= i < |arr| ==> arr[i].Breakpoint? && arr[i].name in bps - todo && arr[i].value == bps[arr[i].name]
      invariant forall k :: k in bps && k !in todo ==> Breakpoint(k, bps[k]) in arr
      invariant forall i, j :: 0 <= i < j < |arr| ==> arr[i].name != arr[j].name
      decreases todo
    {
      var k :| k in todo;
      arr := arr + [Breakpoint(k, bps[k])];
      todo := todo - {k};
    }
  }

  /** The map of distinct-named breakpoints, in any order, is the breakpoint map. */
  lemma BreakpointsAsMap(bps: map<string, string>, arr: seq<Variant>)
    requires |arr| == |bps|
    requires forall i :: 0 <= i < |arr| ==> arr[i].Breakpoint? && arr[i].name in bps && arr[i].value == bps[arr[i].name]
    requires forall k :: k in bps ==> Breakpoint(k, bps[k]) in arr
    requires forall i, j :: 0 <= i < j < |arr| ==> arr[i].name != arr[j].name
    ensures VariantMap(arr) == BreakpointMap(bps)
  {
    var m := VariantMap(arr);
    forall k | k in m ensures k in bps && m[k] == Breakpoint(k, bps[k]) {
      VariantMapKeys(arr, k);
    }
    forall k | k in bps ensures k in m {
      var i :| 0 <= i < |arr| && arr[i] == Breakpoint(k, bps[k]);
      VariantMapLast(arr, i);
    }
  }

  /** The registry `MakeVariants` builds for a breakpoint table. */
  function AllVariants(bps: map<string, string>): map<string, Variant> {
    Util.Merge([VariantMap(PseudoClassVariants), VariantMap(PseudoElementVariants),
                VariantMap([MarkerVariant]), BreakpointMap(bps)])
  }

  /** `MakeVariants`. */
  method MakeVariants(bps: map<string, string>) returns (m: map<string, Variant>)
    ensures m == AllVariants(bps)
  {
    var pc := VariantMapFromArrs(PseudoClassVariants);
    var pe := VariantMapFromArrs(PseudoElementVariants);
    var mk := VariantMapFromArrs([MarkerVariant]);
    var arr := GenBreakpointsVariant(bps);
    var bp := VariantMapFromArrs(arr);
    BreakpointsAsMap(bps, arr);
    m := Util.ConcatMaps([pc, pe, mk, bp]);
  }

  /** A breakpoint named like another variant replaces it; otherwise `hover` and
      `marker` are the pseudo-class and the double pseudo-element. */
  lemma AllVariantsLookup(bps: map<string, string>)
    ensures forall k :: k in bps ==> k in AllVariants(bps) && AllVariants(bps)[k] == Breakpoint(k, bps[k])
    ensures "hover" !in bps ==> "hover" in AllVariants(bps) && AllVariants(bps)["hover"] == PseudoClass("hover")
    ensures "marker" !in bps ==> "marker" in AllVariants(bps) && AllVariants(bps)["marker"] == MarkerVariant
  {
    var ms := [VariantMap(PseudoClassVariants), VariantMap(PseudoElementVariants),
               VariantMap([MarkerVariant]), BreakpointMap(bps)];
    forall k | k in bps ensures k in AllVariants(bps) && AllVariants(bps)[k] == Breakpoint(k, bps[k]) {
      Util.MergeLast(ms, 3, k);
    }
    if "hover" !in bps {
      VariantMapLast(PseudoClassVariants, 0);
      assert "hover" !in ms[1] && "hover" !in ms[2] by {
        if "hover" in ms[1] { VariantMapKeys(PseudoElementVariants, "hover"); }
        if "hover" in ms[2] { VariantMapKeys([MarkerVariant], "hover"); }
      }
      Util.MergeLast(ms, 0, "hover");
    }
    if "marker" !in bps {
      VariantMapLast([MarkerVariant], 0);
      Util.MergeLast(ms, 2, "marker");
    }
  }
}
