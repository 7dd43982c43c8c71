/** css.go, the earliest compiler: the whole remaining input is one class
    string, split on `:` into variant groups and a base class; variant.go's
    variants are folded over the base rule, and rules render with tab-indented
    declarations inside unindented `@media` wrappers. */
module CssV1 {
  import opened Rules
  import opened Wrappers
  import opened GoStrings
  import opened ByteReader
  import Render
  import Compiler
  import Fold
  import VariantV1

  // ---------------------------------------------------------------- rendering

  /** The selector with every `:` backslash-escaped; brackets are left alone. */
  function EscapeColons(s: string): string {
    ReplaceAll(s, ':', "\\:")
  }

  /** The first line of a rule: `.`, the escaped selector, the child combinator,
      the pseudo-classes and pseudo-elements, and ` {`. */
  function Header(c: Css): string {
    var pc := if |c.pseudoClasses| >= 1 then ":" + Join(c.pseudoClasses, ":") else "";
    var pe := if |c.pseudoElements| >= 1 then "::" + Join(c.pseudoElements, "::") else "";
    var cc := if c.childCombinator != "" then " " + c.childCombinator else "";
    "." + EscapeColons(c.selector) + cc + pc + pe + " {"
  }

  function DeclarationLine(d: Declaration): string {
    "\t" + d.property + ": " + d.value + ";"
  }

  function DeclarationLines(ds: seq<Declaration>): (r: seq<string>)
    ensures |r| == |ds|
    ensures forall i :: 0 <= i < |ds| ==> r[i] == DeclarationLine(ds[i])
  {
    seq(|ds|, i requires 0 <= i < |ds| => DeclarationLine(ds[i]))
  }

  /** The rule before media wrapping. */
  function Block(c: Css): string {
    Render.Unlines([Header(c)] + DeclarationLines(c.declarations) + ["}"])
  }

  function OpenerLines(ms: seq<string>): (r: seq<string>)
    ensures |r| == |ms|
    ensures forall i :: 0 <= i < |ms| ==> r[i] == "@media (" + ms[i] + ") {"
  {
    seq(|ms|, i requires 0 <= i < |ms| => "@media (" + ms[i] + ") {")
  }

  /** What css.go's `wrapInMedias(ms, s)` returns: one opener per condition,
      the text unchanged, one closer per condition. */
  function Wrapped(ms: seq<string>, s: string): string {
    Render.Unlines(OpenerLines(ms)) + s + Repeat("}\n", |ms|)
  }

  /** What css.go's `CSS.String` returns. */
  function RenderRule(c: Css): string {
    Wrapped(c.mediaQueries, Block(c))
  }

  function Texts(cs: seq<Css>): (r: seq<string>)
    ensures |r| == |cs|
    ensures forall i :: 0 <= i < |cs| ==> r[i] == RenderRule(cs[i])
  {
    seq(|cs|, i requires 0 <= i < |cs| => RenderRule(cs[i]))
  }

  /** What `CSSArrToString` returns. */
  function RenderAll(cs: seq<Css>): string {
    Render.Concat(Texts(cs))
  }

  function CssOf(cs: seq<OrderedCss>): (r: seq<Css>)
    ensures |r| == |cs|
    ensures forall i :: 0 <= i < |cs| ==> r[i] == cs[i].css
  {
    seq(|cs|, i requires 0 <= i < |cs| => cs[i].css)
  }

  /** Unescaping gives the selector back when it holds no backslash. */
  lemma {:induction false} UnescapeColons(s: string)
    requires '\\' !in s
    ensures Render.Unescape(EscapeColons(s)) == s
  {
    if s != [] {
      UnescapeColons(s[1..]);
      var e := EscapeColons(s);
      if s[0] == ':' {
        assert e == "\\:" + EscapeColons(s[1..]);
        assert e[2..] == EscapeColons(s[1..]);
      } else {
        assert e == [s[0]] + EscapeColons(s[1..]);
        assert e[1..] == EscapeColons(s[1..]);
      }
      assert s == [s[0]] + s[1..];
    }
  }

  /** Brackets in the selector come out as they are. */
  lemma BracketsKept(a: string, b: string)
    ensures EscapeColons(a + "[" + b + "]") == EscapeColons(a) + "[" + EscapeColons(b) + "]"
  {
    ReplaceAllAppend(a + "[" + b, "]", ':', "\\:");
    ReplaceAllAppend(a + "[", b, ':', "\\:");
    ReplaceAllAppend(a, "[", ':', "\\:");
  }

  /** With no conditions the text comes back unchanged, whatever it is. */
  lemma WrapNoMedia(s: string)
    ensures Wrapped([], s) == s
  {
    assert OpenerLines([]) == [];
  }

  lemma {:induction false} RepeatSnoc(x: string, n: nat)
    ensures Repeat(x, n) + x == Repeat(x, n + 1)
  {
    if n > 0 {
      RepeatSnoc(x, n - 1);
    }
  }

  /** Wrapping in [m] + ms is wrapping in ms inside one `@media (m)` block, with
      no indentation added: the first condition is the outermost. */
  lemma WrapNests(m: string, ms: seq<string>, s: string)
    ensures Wrapped([m] + ms, s) == "@media (" + m + ") {\n" + Wrapped(ms, s) + "}\n"
  {
    var head := "@media (" + m + ") {";
    assert OpenerLines([m] + ms) == [head] + OpenerLines(ms);
    Render.UnlinesAppend([head], OpenerLines(ms));
    Render.UnlinesSingle(head);
    RepeatSnoc("}\n", |ms|);
  }

  /** A rule without media conditions renders as its block alone. */
  lemma RenderWithoutMedia(c: Css)
    requires c.mediaQueries == []
    ensures RenderRule(c) == Block(c)
  {
    WrapNoMedia(Block(c));
  }

  /** A rule's block is the header line, one tab-indented line per declaration
      in order, and `}`. */
  lemma BlockLines(c: Css)
    requires '\n' !in Header(c)
    requires forall i :: 0 <= i < |c.declarations| ==> '\n' !in DeclarationLine(c.declarations[i])
    ensures Render.LinesOf(Block(c)) == [Header(c)] + DeclarationLines(c.declarations) + ["}"]
  {
    Render.LinesOfUnlines([Header(c)] + DeclarationLines(c.declarations) + ["}"]);
  }

  lemma RenderAllAppend(a: seq<Css>, b: seq<Css>)
    ensures RenderAll(a + b) == RenderAll(a) + RenderAll(b)
  {
    assert Texts(a + b) == Texts(a) + Texts(b) by {
      forall i | 0 <= i < |a + b| ensures Texts(a + b)[i] == (Texts(a) + Texts(b))[i] {
        if i < |a| {
          assert (a + b)[i] == a[i];
        } else {
          assert (a + b)[i] == b[i - |a|];
        }
      }
    }
    Render.ConcatAppend(Texts(a), Texts(b));
  }

  /** `Comparator`: every two rules compare as equal, so sorting with it
      keeps the rules in the order they were produced. */
  function Comparator(a: OrderedCss, b: OrderedCss): (r: int)
    ensures r == 0
  {
    0
  }

  // ---------------------------------------------------------------- the class string

  /** `isLowerAlnum` as written: a disjunction that every byte satisfies. */
  predicate IsLowerAlnum(b: char) {
    b >= 'a' || b <= 'z' || b >= '0' || b <= '9'
  }

  lemma EveryByteLowerAlnum(b: char)
    ensures IsLowerAlnum(b)
  {
  }

  /** The transform a variant applies in css.go: always with no arbitrary
      value. A panic, which the fold rules out first, is shown as no rules. */
  function ConvNil(v: VariantV1.Variant): Css -> seq<Css> {
    c => match VariantV1.Convert(v, None, c)
      case Returned(rs) => rs
      case Panicked => []
  }

  /** What a class string gives: rules, `nil`, or a panic in a variant. */
  datatype Outcome = Produced(rules: seq<OrderedCss>) | Nil | Crashed

  /** The variant fold over the groups `names`, already in the order they are
      applied. A variant's panic does not depend on the rule it is given, so a
      panicking variant panics on the first rule of the step. */
  function Resolve(vm: map<string, VariantV1.Variant>, names: seq<string>, cs: seq<OrderedCss>): Outcome
    decreases |names|
  {
    if names == [] then Produced(cs)
    else if names[0] !in vm then Nil
    else if VariantV1.Panics(vm[names[0]], None) then Crashed
    else match Fold.StepAll(ConvNil(vm[names[0]]), cs)
      case None => Nil
      case Some(next) => Resolve(vm, names[1..], next)
  }

  /** The variant groups of a class string, in the order they are applied:
      from the second-to-last group down to the first. */
  function VariantGroups(s: string): (r: seq<string>)
    ensures |r| == |Split(s, ':')| - 1
    ensures forall i :: 0 <= i < |r| ==> r[i] == Split(s, ':')[|Split(s, ':')| - 2 - i]
  {
    var groups := Split(s, ':');
    Compiler.Reverse(groups[..|groups| - 1])
  }

  /** The base class of a class string: its last group. */
  function BaseGroup(s: string): string {
    var groups := Split(s, ':');
    groups[|groups| - 1]
  }

  /** What `createCSSFromClassString(s)` returns. */
  function Create(s: string, vm: map<string, VariantV1.Variant>, bs: map<string, OrderedCss>): Outcome {
    if BaseGroup(s) !in bs then Nil
    else
      var base := bs[BaseGroup(s)];
      Resolve(vm, VariantGroups(s), [OrderedCss(base.css.(selector := s), base.order)])
  }

  /** A group that is not a key of the registry. */
  predicate Unknown(vm: map<string, VariantV1.Variant>, g: string) {
    g !in vm
  }

  /** The number of groups naming the marker-like variant, which forks every rule. */
  function Forking(vm: map<string, VariantV1.Variant>, names: seq<string>): nat
    decreases |names|
  {
    if names == [] then 0
    else (if names[0] in vm && vm[names[0]].DoublePseudoElement? then 1 else 0) + Forking(vm, names[1..])
  }

  /** A variant that does not panic gives, with no arbitrary value, two rules
      for the marker and one otherwise, keeping the selector. */
  lemma ConvNilLength(v: VariantV1.Variant)
    requires !VariantV1.Panics(v, None)
    ensures forall c: Css :: (|ConvNil(v)(c)| == if v.DoublePseudoElement? then 2 else 1)
    ensures Fold.KeepsSelector(ConvNil(v))
  {
  }

  lemma StepFacts(v: VariantV1.Variant, cs: seq<OrderedCss>, sel: string, o: int)
    requires !VariantV1.Panics(v, None)
    requires cs != []
    requires forall j :: 0 <= j < |cs| ==> cs[j].css.selector == sel && cs[j].order == o
    ensures Fold.StepAll(ConvNil(v), cs).Some?
    ensures |Fold.StepAll(ConvNil(v), cs).value| == |cs| * (if v.DoublePseudoElement? then 2 else 1)
    ensures forall j :: 0 <= j < |Fold.StepAll(ConvNil(v), cs).value| ==>
      Fold.StepAll(ConvNil(v), cs).value[j].css.selector == sel && Fold.StepAll(ConvNil(v), cs).value[j].order == o
  {
    var conv := ConvNil(v);
    var n := if v.DoublePseudoElement? then 2 else 1;
    ConvNilLength(v);
    Fold.StepShape(conv, cs);
    Fold.StepUniform(conv, cs, sel, o);
    Fold.ForksUniform(conv, cs, n);
  }

  /** The fold panics only through a panicking variant, and yields `nil` only
      through an unknown group. */
  lemma {:induction false} ResolveFails(vm: map<string, VariantV1.Variant>, names: seq<string>, cs: seq<OrderedCss>, sel: string, o: int)
    requires cs != []
    requires forall j :: 0 <= j < |cs| ==> cs[j].css.selector == sel && cs[j].order == o
    ensures Resolve(vm, names, cs).Crashed? ==> exists i :: 0 <= i < |names| && names[i] in vm && VariantV1.Panics(vm[names[i]], None)
    ensures Resolve(vm, names, cs).Nil? ==> exists i :: 0 <= i < |names| && Unknown(vm, names[i])
    ensures (forall i :: 0 <= i < |names| ==> names[i] in vm && !VariantV1.Panics(vm[names[i]], None))
      <==> Resolve(vm, names, cs).Produced?
    decreases |names|
  {
    if names != [] && names[0] in vm && !VariantV1.Panics(vm[names[0]], None) {
      var v := vm[names[0]];
      StepFacts(v, cs, sel, o);
      var step := Fold.StepAll(ConvNil(v), cs);
      ResolveFails(vm, names[1..], step.value, sel, o);
      if Resolve(vm, names, cs).Crashed? {
        var i :| 0 <= i < |names[1..]| && names[1..][i] in vm && VariantV1.Panics(vm[names[1..][i]], None);
        assert names[i + 1] == names[1..][i];
      }
      if Resolve(vm, names, cs).Nil? {
        var i :| 0 <= i < |names[1..]| && Unknown(vm, names[1..][i]);
        assert names[i + 1] == names[1..][i];
      }
      if forall i :: 0 <= i < |names| ==> names[i] in vm && !VariantV1.Panics(vm[names[i]], None) {
        forall i | 0 <= i < |names[1..]| ensures names[1..][i] in vm && !VariantV1.Panics(vm[names[1..][i]], None) {
          assert names[1..][i] == names[i + 1];
        }
      }
      if Resolve(vm, names, cs).Produced? {
        forall i | 0 <= i < |names| ensures names[i] in vm && !VariantV1.Panics(vm[names[i]], None) {
          if i > 0 { assert names[i] == names[1..][i - 1]; }
        }
      }
    }
  }

  /** On success the slice doubles once per marker, and every rule keeps the
      shared selector and order. */
  lemma {:induction false} ResolveSize(vm: map<string, VariantV1.Variant>, names: seq<string>, cs: seq<OrderedCss>, sel: string, o: int)
    requires cs != []
    requires forall j :: 0 <= j < |cs| ==> cs[j].css.selector == sel && cs[j].order == o
    ensures Resolve(vm, names, cs).Produced? ==> |Resolve(vm, names, cs).rules| == |cs| * Compiler.Pow2(Forking(vm, names))
    ensures Resolve(vm, names, cs).Produced? ==> forall i :: 0 <= i < |Resolve(vm, names, cs).rules| ==>
      Resolve(vm, names, cs).rules[i].css.selector == sel && Resolve(vm, names, cs).rules[i].order == o
    decreases |names|
  {
    if names != [] && names[0] in vm && !VariantV1.Panics(vm[names[0]], None) {
      var v := vm[names[0]];
      StepFacts(v, cs, sel, o);
      var step := Fold.StepAll(ConvNil(v), cs);
      ResolveSize(vm, names[1..], step.value, sel, o);
      var k := Compiler.Pow2(Forking(vm, names[1..]));
      var f := if v.DoublePseudoElement? then 2 else 1;
      assert Compiler.Pow2(Forking(vm, names)) == f * k;
      Compiler.Scale(|step.value|, |cs|, f, k);
    }
  }

  /** `createCSSFromClassString` gives rules exactly when the base group is a
      base class and every variant group is a registered variant that does not
      panic; then there are 2^k rules for k markers, each selected by the whole
      string with the base rule's order. */
  lemma CreateShape(s: string, vm: map<string, VariantV1.Variant>, bs: map<string, OrderedCss>)
    ensures Create(s, vm, bs).Produced? <==>
      BaseGroup(s) in bs && forall i :: 0 <= i < |VariantGroups(s)| ==>
        VariantGroups(s)[i] in vm && !VariantV1.Panics(vm[VariantGroups(s)[i]], None)
    ensures Create(s, vm, bs).Crashed? ==>
      exists i :: 0 <= i < |VariantGroups(s)| && VariantGroups(s)[i] in vm && VariantV1.Panics(vm[VariantGroups(s)[i]], None)
    ensures Create(s, vm, bs).Produced? ==>
      var r := Create(s, vm, bs).rules;
      |r| == Compiler.Pow2(Forking(vm, VariantGroups(s)))
      && forall i :: 0 <= i < |r| ==> r[i].css.selector == s && r[i].order == bs[BaseGroup(s)].order
  {
    if BaseGroup(s) in bs {
      var base := bs[BaseGroup(s)];
      var cs := [OrderedCss(base.css.(selector := s), base.order)];
      ResolveFails(vm, VariantGroups(s), cs, s, base.order);
      ResolveSize(vm, VariantGroups(s), cs, s, base.order);
    }
  }

  /** What `ParseString(s)` returns, or a panic: the whole input is one class
      string, and an empty input or a class string without rules gives none. */
  function ParseLine(s: string, vm: map<string, VariantV1.Variant>, bs: map<string, OrderedCss>): Outcome {
    if s == [] then Produced([])
    else match Create(s, vm, bs)
      case Produced(r) => Produced(r)
      case Nil => Produced([])
      case Crashed => Crashed
  }

  /** With variant.go's registry no class string panics, whatever the base
      classes and breakpoints. */
  lemma RegistryNeverCrashes(s: string, bps: map<string, string>, bs: map<string, OrderedCss>)
    ensures ParseLine(s, VariantV1.AllVariants(bps), bs).Produced?
  {
    var vm := VariantV1.AllVariants(bps);
    CreateShape(s, vm, bs);
    if Create(s, vm, bs).Crashed? {
      var i :| 0 <= i < |VariantGroups(s)| && VariantGroups(s)[i] in vm && VariantV1.Panics(vm[VariantGroups(s)[i]], None);
      VariantV1.RegisteredNeverPanic(bps, VariantGroups(s)[i]);
    }
  }

  /** A string with no `:` is looked up whole. */
  lemma PlainClass(s: string, vm: map<string, VariantV1.Variant>, bs: map<string, OrderedCss>)
    requires s != [] && ':' !in s
    ensures ParseLine(s, vm, bs)
         == Produced(if s in bs then [OrderedCss(bs[s].css.(selector := s), bs[s].order)] else [])
  {
    SplitJoin([s], ':');
    assert Join([s], ":") == s;
  }

  // ---------------------------------------------------------------- methods

  /** css.go's `wrapInMedias`. */
  method WrapInMedias(ms: seq<string>, s: string) returns (out: string)
    ensures out == Wrapped(ms, s)
  {
    out := "";
    for i := 0 to |ms|
      invariant out == Render.Unlines(OpenerLines(ms)[..i])
    {
      Render.UnlinesStep(OpenerLines(ms), i);
      out := out + ("@media (" + ms[i] + ") {\n");
    }
    assert OpenerLines(ms)[..|ms|] == OpenerLines(ms);
    out := out + s;
    ghost var body := out;
    for i := 0 to |ms|
      invariant out == body + Repeat("}\n", i)
    {
      RepeatSnoc("}\n", i);
      out := out + "}\n";
    }
  }

  lemma DeclarationStep(h: string, ds: seq<Declaration>, i: nat, b: string)
    requires i < |ds| && b == Render.Unlines(([h] + DeclarationLines(ds))[..i + 1])
    ensures b + ("\t" + ds[i].property + ": " + ds[i].value + ";\n")
         == Render.Unlines(([h] + DeclarationLines(ds))[..i + 2])
  {
    Render.UnlinesStep([h] + DeclarationLines(ds), i + 1);
  }

  lemma HeaderIs(c: Css, selector: string, cc: string, pc: string, pe: string)
    requires selector == "." + ReplaceAll(c.selector, ':', "\\:")
    requires cc == (if c.childCombinator != "" then " " + c.childCombinator else "")
    requires pc == (if |c.pseudoClasses| >= 1 then ":" + Join(c.pseudoClasses, ":") else "")
    requires pe == (if |c.pseudoElements| >= 1 then "::" + Join(c.pseudoElements, "::") else "")
    ensures selector + cc + pc + pe + " {" == Header(c)
  {
  }

  lemma BlockFinish(c: Css, b: string)
    requires b == Render.Unlines([Header(c)] + DeclarationLines(c.declarations))
    ensures b + "}\n" == Block(c)
  {
    Render.UnlinesAppend([Header(c)] + DeclarationLines(c.declarations), ["}"]);
    Render.UnlinesSingle("}");
  }

  /** css.go's `CSS.String`. */
  method CssString(c: Css) returns (s: string)
    ensures s == RenderRule(c)
  {
    var pc := "";
    if |c.pseudoClasses| >= 1 {
      pc := ":" + Join(c.pseudoClasses, ":");
    }
    var pe := "";
    if |c.pseudoElements| >= 1 {
      pe := "::" + Join(c.pseudoElements, "::");
    }
    var selector := "." + ReplaceAll(c.selector, ':', "\\:");
    var cc := "";
    if c.childCombinator != "" {
      cc := " " + c.childCombinator;
    }
    HeaderIs(c, selector, cc, pc, pe);
    var h := selector + cc + pc + pe + " {";
    Render.UnlinesSingle(h);
    var b := h + "\n";
    ghost var ls := [Header(c)] + DeclarationLines(c.declarations);
    assert ls[..1] == [Header(c)];
    for i := 0 to |c.declarations|
      invariant b == Render.Unlines(ls[..i + 1])
    {
      DeclarationStep(Header(c), c.declarations, i, b);
      b := b + ("\t" + c.declarations[i].property + ": " + c.declarations[i].value + ";\n");
    }
    assert ls[..|c.declarations| + 1] == ls;
    BlockFinish(c, b);
    b := b + "}\n";
    s := WrapInMedias(c.mediaQueries, b);
  }

  lemma RenderStep(cs: seq<Css>, i: nat, s: string, one: string)
    requires i < |cs| && s == Render.Concat(Texts(cs)[..i]) && one == RenderRule(cs[i])
    ensures s + one == Render.Concat(Texts(cs)[..i + 1])
  {
    assert Texts(cs)[..i + 1][..i] == Texts(cs)[..i];
  }

  /** `CSSArrToString`: the rendered rules one after another. */
  method CssArrToString(cs: seq<Css>) returns (s: string)
    ensures s == RenderAll(cs)
  {
    s := "";
    for i := 0 to |cs|
      invariant s == Render.Concat(Texts(cs)[..i])
    {
      var one := CssString(cs[i]);
      RenderStep(cs, i, s, one);
      s := s + one;
    }
    assert Texts(cs)[..|cs|] == Texts(cs);
  }

  /** css.go's `OrderedCSSArrToString`: the rules rendered without their orders. */
  method OrderedCssArrToString(cs: seq<OrderedCss>) returns (s: string)
    ensures s == RenderAll(CssOf(cs))
  {
    s := "";
    for i := 0 to |cs|
      invariant s == Render.Concat(Texts(CssOf(cs))[..i])
    {
      var one := CssString(cs[i].css);
      RenderStep(CssOf(cs), i, s, one);
      s := s + one;
    }
    assert Texts(CssOf(cs))[..|cs|] == Texts(CssOf(cs));
  }

  /** `ReadNextClass`: every byte passes `isLowerAlnum`, so the whole
      remaining input is read. */
  method ReadNextClass(r: Reader) returns (cls: string)
    requires r.Valid()
    modifies r
    ensures r.Valid()
    ensures cls == old(r.Rest()) && r.Rest() == []
  {
    ghost var s := r.Rest();
    cls := "";
    var writeStarted := false;
    while true
      invariant r.Valid()
      invariant s == cls + r.Rest()
      decreases |r.Rest()|
    {
      var b, ok := r.ReadByte();
      if !ok {
        break;
      }
      EveryByteLowerAlnum(b);
      if IsLowerAlnum(b) || b == '-' || b == ':' {
        cls := cls + [b];
        writeStarted := true;
      } else {
        // the `else if writeStarted` exit is never taken
        assert false;
      }
    }
  }

  /** The fold from the group at k on: an unknown group gives `nil`, and a
      panicking variant the panic. */
  lemma ResolveAt(vm: map<string, VariantV1.Variant>, names: seq<string>, k: nat, cs: seq<OrderedCss>)
    requires k < |names|
    ensures names[k] !in vm ==> Resolve(vm, names[k..], cs) == Nil
    ensures names[k] in vm && VariantV1.Panics(vm[names[k]], None) ==> Resolve(vm, names[k..], cs) == Crashed
  {
    assert names[k..][0] == names[k];
  }

  /** A known variant that does not panic: a failed step gives `nil`, and
      otherwise the fold goes on from the next group over the step's rules. */
  lemma GroupStep(vm: map<string, VariantV1.Variant>, names: seq<string>, k: nat, cs: seq<OrderedCss>,
                  step: Option<seq<OrderedCss>>)
    requires k < |names| && names[k] in vm && !VariantV1.Panics(vm[names[k]], None) && cs != []
    requires step == Fold.StepAll(ConvNil(vm[names[k]]), cs)
    ensures step.None? ==> Resolve(vm, names[k..], cs) == Nil
    ensures step.Some? ==> step.value != [] && Resolve(vm, names[k..], cs) == Resolve(vm, names[k + 1..], step.value)
  {
    assert names[k..][0] == names[k] && names[k..][1..] == names[k + 1..];
    Fold.StepShape(ConvNil(vm[names[k]]), cs);
  }

  /** `createCSSFromClassString`. */
  method CreateCssFromClassString(s: string, vm: map<string, VariantV1.Variant>, bs: map<string, OrderedCss>)
    returns (res: Outcome)
    ensures res == Create(s, vm, bs)
  {
    var groups := Split(s, ':');
    if groups[|groups| - 1] !in bs {
      return Nil;
    }
    var css := bs[groups[|groups| - 1]];
    css := css.(css := css.css.(selector := s));
    var csses := [css];
    ghost var names := VariantGroups(s);
    ghost var k := 0;
    assert names[0..] == names;
    var i := |groups| - 2;
    while i >= 0
      invariant -1 <= i <= |groups| - 2 && k == |groups| - 2 - i
      invariant csses != []
      invariant Resolve(vm, names[k..], csses) == Create(s, vm, bs)
      decreases i + 1
    {
      ResolveAt(vm, names, k, csses);
      assert names[k] == groups[i];
      var group := groups[i];
      if group !in vm {
        return Nil;
      }
      var variant := vm[group];
      if VariantV1.Convert(variant, None, csses[0].css).Panicked? {
        return Crashed;
      }
      var step := Fold.ApplyStep(ConvNil(variant), csses);
      GroupStep(vm, names, k, csses, step);
      if step.None? {
        return Nil;
      }
      csses := step.value;
      i := i - 1;
      k := k + 1;
    }
    assert names[k..] == [];
    assert Resolve(vm, [], csses) == Produced(csses);
    return Produced(csses);
  }

  /** css.go's `ProduceNextCSS`: the class string is the whole rest, so at most
      one call yields rules, and every call leaves the input consumed. */
  method ProduceNextCss(r: Reader, vm: map<string, VariantV1.Variant>, bs: map<string, OrderedCss>)
    returns (res: Outcome)
    requires r.Valid()
    modifies r
    ensures r.Valid() && r.Rest() == []
    ensures res == (if old(r.Rest()) == [] then Nil else Create(old(r.Rest()), vm, bs))
  {
    ghost var s := r.Rest();
    var first := true;
    while true
      invariant r.Valid()
      invariant first ==> r.Rest() == s
      invariant !first ==> r.Rest() == [] && s != [] && Create(s, vm, bs).Nil?
      decreases |r.Rest()|, if first then 1 else 0
    {
      var rf := ReadNextClass(r);
      if rf == "" {
        return Nil;
      }
      var out := CreateCssFromClassString(rf, vm, bs);
      if !out.Nil? {
        return out;
      }
      first := false;
    }
  }

  /** css.go's `ParseString`: rules, or a panic raised by a variant. */
  method ParseString(s: string, vm: map<string, VariantV1.Variant>, bs: map<string, OrderedCss>)
    returns (res: Outcome)
    ensures res == ParseLine(s, vm, bs)
  {
    var r := new Reader(s);
    var csses: seq<OrderedCss> := [];
    var first := true;
    while true
      invariant r.Valid()
      invariant first ==> r.Rest() == s && csses == []
      invariant !first ==> r.Rest() == [] && ParseLine(s, vm, bs) == Produced(csses)
      decreases |r.Rest()|, if first then 1 else 0
    {
      var out := ProduceNextCss(r, vm, bs);
      if out.Crashed? {
        return Crashed;
      }
      if out.Nil? {
        return Produced(csses);
      }
      csses := csses + out.rules;
      first := false;
    }
  }
}
