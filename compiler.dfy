/** main.go's compiler proper: a parsed class token becomes rules, the base
    rule looked up by the class part, then the variants folded over it
    innermost first; `ParseString` does this for every token of a line. */
module Compiler {
  import opened Rules
  import opened Wrappers
  import opened Tokenizer
  import opened ByteReader
  import opened Variants
  import BaseClasses
  import Fold

  /** The base rule of a class part: with no arbitrary text (`[]` included) the
      name is looked up among the base classes, otherwise among the classes
      that take arbitrary values, which build the rule from the text. */
  function BaseRule(p: Part, bs: map<string, OrderedCss>, arbs: map<string, BaseClasses.ArbitraryClass>): Option<OrderedCss> {
    if p.arbitraryText == "" then
      if p.name in bs then Some(bs[p.name]) else None
    else if p.name in arbs then Some(BaseClasses.ArbitraryValue(arbs[p.name], p.arbitraryText))
    else None
  }

  /** The transform a variant applies, given its arbitrary text; the slash
      text passed is always empty. */
  function Conv(v: Variant, arb: string): Css -> seq<Css> {
    c => Convert(v, arb, "", c)
  }

  /** `slices.Reverse`. */
  function Reverse<T>(s: seq<T>): (r: seq<T>)
    ensures |r| == |s| && forall i :: 0 <= i < |s| ==> r[i] == s[|s| - 1 - i]
  {
    seq(|s|, i requires 0 <= i < |s| => s[|s| - 1 - i])
  }

  /** The variant fold over `vars`, already in the order they are applied. */
  function Resolve(vm: map<string, Variant>, vars: seq<Part>, cs: seq<OrderedCss>): Option<seq<OrderedCss>>
    decreases |vars|
  {
    if vars == [] then Some(cs)
    else if vars[0].name !in vm then None
    else match Fold.StepAll(Conv(vm[vars[0].name], vars[0].arbitraryText), cs)
      case None => None
      case Some(next) => Resolve(vm, vars[1..], next)
  }

  /** What `createCSSFromClassInformation(c, selector, vs, bs)` returns. */
  function CreateCss(ci: ClassInfo, selector: string, vm: map<string, Variant>,
                     bs: map<string, OrderedCss>, arbs: map<string, BaseClasses.ArbitraryClass>): Option<seq<OrderedCss>> {
    match BaseRule(ci.classPart, bs, arbs)
    case None => None
    case Some(base) => Resolve(vm, Reverse(ci.variants), [OrderedCss(base.css.(selector := selector), base.order)])
  }

  // ---------------------------------------------------------------- properties of the fold

  /** A variant part that makes the whole token fail: unknown, or a breakpoint
      given arbitrary text. */
  predicate Rejects(vm: map<string, Variant>, p: Part) {
    p.name !in vm || (vm[p.name].Breakpoint? && p.arbitraryText != "")
  }

  /** The number of parts naming the marker-like variant, which forks every rule. */
  function Forking(vm: map<string, Variant>, vars: seq<Part>): nat
    decreases |vars|
  {
    if vars == [] then 0
    else (if vars[0].name in vm && vm[vars[0].name].DoublePseudoElement? then 1 else 0) + Forking(vm, vars[1..])
  }

  function Pow2(n: nat): (r: nat)
    ensures r >= 1
  {
    if n == 0 then 1 else 2 * Pow2(n - 1)
  }

  /** Every transform's result has one length whatever rule it is given: two
      for the marker, none for a breakpoint with arbitrary text, else one. */
  lemma ConvLength(v: Variant, arb: string)
    ensures forall c: Css :: (|Conv(v, arb)(c)| ==
      if v.DoublePseudoElement? then 2 else if v.Breakpoint? && arb != "" then 0 else 1)
  {
  }

  lemma ConvKeepsSelector(v: Variant, arb: string)
    ensures Fold.KeepsSelector(Conv(v, arb))
  {
  }

  /** One variant's step over a non-empty slice of rules sharing a selector
      and an order: it fails exactly for a breakpoint given arbitrary text, and
      otherwise doubles the slice for the marker and keeps it as long for the
      rest, keeping the selector and the order. */
  lemma StepFacts(v: Variant, arb: string, cs: seq<OrderedCss>, sel: string, o: int)
    requires cs != []
    requires forall j :: 0 <= j < |cs| ==> cs[j].css.selector == sel && cs[j].order == o
    ensures Fold.StepAll(Conv(v, arb), cs).None? <==> v.Breakpoint? && arb != ""
    ensures Fold.StepAll(Conv(v, arb), cs).Some? ==>
      var next := Fold.StepAll(Conv(v, arb), cs).value;
      |next| == |cs| * (if v.DoublePseudoElement? then 2 else 1)
      && forall j :: 0 <= j < |next| ==> next[j].css.selector == sel && next[j].order == o
  {
    var conv := Conv(v, arb);
    var n := if v.DoublePseudoElement? then 2 else if v.Breakpoint? && arb != "" then 0 else 1;
    ConvLength(v, arb);
    ConvKeepsSelector(v, arb);
    Fold.StepShape(conv, cs);
    Fold.StepUniform(conv, cs, sel, o);
    Fold.ForksUniform(conv, cs, n);
    assert |conv(cs[0].css)| == n;
  }

  lemma RejectsTail(vm: map<string, Variant>, vars: seq<Part>)
    requires vars != [] && !Rejects(vm, vars[0])
    ensures (exists i :: 0 <= i < |vars| && Rejects(vm, vars[i]))
        <==> (exists i :: 0 <= i < |vars[1..]| && Rejects(vm, vars[1..][i]))
  {
    forall i | 1 <= i < |vars| ensures vars[i] == vars[1..][i - 1] {}
  }

  /** The fold over a non-empty slice fails exactly when some part rejects;
      otherwise the slice doubles once per marker, and a shared selector and
      order survive. */
  lemma ResolveShape(vm: map<string, Variant>, vars: seq<Part>, cs: seq<OrderedCss>, sel: string, o: int)
    requires cs != []
    requires forall j :: 0 <= j < |cs| ==> cs[j].css.selector == sel && cs[j].order == o
    ensures Resolve(vm, vars, cs).None? <==> exists i :: 0 <= i < |vars| && Rejects(vm, vars[i])
    ensures Resolve(vm, vars, cs).Some? ==> |Resolve(vm, vars, cs).value| == |cs| * Pow2(Forking(vm, vars))
    ensures Resolve(vm, vars, cs).Some? ==> forall i :: 0 <= i < |Resolve(vm, vars, cs).value| ==>
      Resolve(vm, vars, cs).value[i].css.selector == sel && Resolve(vm, vars, cs).value[i].order == o
  {
    ResolveFails(vm, vars, cs, sel, o);
    ResolveSize(vm, vars, cs, sel, o);
  }

  lemma {:induction false} ResolveFails(vm: map<string, Variant>, vars: seq<Part>, cs: seq<OrderedCss>, sel: string, o: int)
    requires cs != []
    requires forall j :: 0 <= j < |cs| ==> cs[j].css.selector == sel && cs[j].order == o
    ensures Resolve(vm, vars, cs).None? <==> exists i :: 0 <= i < |vars| && Rejects(vm, vars[i])
    decreases |vars|
  {
    if vars != [] && vars[0].name in vm {
      var v := vm[vars[0].name];
      StepFacts(v, vars[0].arbitraryText, cs, sel, o);
      var step := Fold.StepAll(Conv(v, vars[0].arbitraryText), cs);
      if step.Some? {
        ResolveFails(vm, vars[1..], step.value, sel, o);
        RejectsTail(vm, vars);
      }
    }
  }

  lemma {:induction false} ResolveSize(vm: map<string, Variant>, vars: seq<Part>, cs: seq<OrderedCss>, sel: string, o: int)
    requires cs != []
    requires forall j :: 0 <= j < |cs| ==> cs[j].css.selector == sel && cs[j].order == o
    ensures Resolve(vm, vars, cs).Some? ==> |Resolve(vm, vars, cs).value| == |cs| * Pow2(Forking(vm, vars))
    ensures Resolve(vm, vars, cs).Some? ==> forall i :: 0 <= i < |Resolve(vm, vars, cs).value| ==>
      Resolve(vm, vars, cs).value[i].css.selector == sel && Resolve(vm, vars, cs).value[i].order == o
    decreases |vars|
  {
    if vars != [] && vars[0].name in vm {
      var v := vm[vars[0].name];
      StepFacts(v, vars[0].arbitraryText, cs, sel, o);
      var step := Fold.StepAll(Conv(v, vars[0].arbitraryText), cs);
      if step.Some? {
        ResolveSize(vm, vars[1..], step.value, sel, o);
        var k := Pow2(Forking(vm, vars[1..]));
        var f := if v.DoublePseudoElement? then 2 else 1;
        assert Pow2(Forking(vm, vars)) == f * k;
        Scale(|step.value|, |cs|, f, k);
      }
    }
  }

  lemma Scale(n: nat, m: nat, f: nat, k: nat)
    requires n == m * f
    ensures n * k == m * (f * k)
  {
  }

  /** `createCSSFromClassInformation` yields rules exactly when the base rule
      exists and no variant rejects; then there are 2^k rules for k markers,
      each with the whole token as selector and the base rule's order. */
  lemma CreateCssShape(ci: ClassInfo, tok: string, vm: map<string, Variant>,
                       bs: map<string, OrderedCss>, arbs: map<string, BaseClasses.ArbitraryClass>)
    ensures CreateCss(ci, tok, vm, bs, arbs).Some? <==>
      BaseRule(ci.classPart, bs, arbs).Some? && forall i :: 0 <= i < |ci.variants| ==> !Rejects(vm, ci.variants[i])
    ensures CreateCss(ci, tok, vm, bs, arbs).Some? ==>
      var r := CreateCss(ci, tok, vm, bs, arbs).value;
      |r| == Pow2(Forking(vm, Reverse(ci.variants)))
      && forall i :: 0 <= i < |r| ==> r[i].css.selector == tok && r[i].order == BaseRule(ci.classPart, bs, arbs).value.order
  {
    var b := BaseRule(ci.classPart, bs, arbs);
    if b.Some? {
      var rev := Reverse(ci.variants);
      ResolveShape(vm, rev, [OrderedCss(b.value.css.(selector := tok), b.value.order)], tok, b.value.order);
      assert (exists i :: 0 <= i < |rev| && Rejects(vm, rev[i]))
         <==> (exists i :: 0 <= i < |ci.variants| && Rejects(vm, ci.variants[i])) by {
        forall i | 0 <= i < |ci.variants| ensures ci.variants[i] == rev[|rev| - 1 - i] {}
      }
    }
  }

  /** The names a run of pseudo-class variants adds, in application order. */
  function PseudoNames(vm: map<string, Variant>, vars: seq<Part>): seq<string>
    requires forall i :: 0 <= i < |vars| ==> vars[i].name in vm
  {
    seq(|vars|, i requires 0 <= i < |vars| && vars[i].name in vm => vm[vars[i].name].name)
  }

  lemma PseudoStep(v: Variant, arb: string, r: OrderedCss)
    requires v.PseudoClass?
    ensures Fold.StepAll(Conv(v, arb), [r]) == Some([OrderedCss(r.css.(pseudoClasses := r.css.pseudoClasses + [v.name]), r.order)])
  {
    var conv := Conv(v, arb);
    var r' := OrderedCss(r.css.(pseudoClasses := r.css.pseudoClasses + [v.name]), r.order);
    assert conv(r.css) == [r'.css];
    assert Fold.AllConvert(conv, [r]);
    assert Fold.Firsts(conv, [r]) == [r'];
    assert [r][..0] == [];
    assert Fold.Seconds(conv, [r]) == [];
    assert Fold.StepAll(conv, [r]) == Some(Fold.Firsts(conv, [r]) + Fold.Seconds(conv, [r]));
    assert Fold.Firsts(conv, [r]) + Fold.Seconds(conv, [r]) == [r'];
  }

  /** Pseudo-class variants append their names one by one to the rule. */
  lemma {:induction false} ResolvePseudoClasses(vm: map<string, Variant>, vars: seq<Part>, r: OrderedCss)
    requires forall i :: 0 <= i < |vars| ==> vars[i].name in vm && vm[vars[i].name].PseudoClass?
    ensures Resolve(vm, vars, [r]) ==
      Some([OrderedCss(r.css.(pseudoClasses := r.css.pseudoClasses + PseudoNames(vm, vars)), r.order)])
    decreases |vars|
  {
    if vars != [] {
      var v := vm[vars[0].name];
      var r' := OrderedCss(r.css.(pseudoClasses := r.css.pseudoClasses + [v.name]), r.order);
      PseudoStep(v, vars[0].arbitraryText, r);
      ResolvePseudoClasses(vm, vars[1..], r');
      assert PseudoNames(vm, vars) == [v.name] + PseudoNames(vm, vars[1..]);
      assert r'.css.pseudoClasses + PseudoNames(vm, vars[1..]) == r.css.pseudoClasses + PseudoNames(vm, vars);
    } else {
      assert PseudoNames(vm, vars) == [];
      assert r.css.pseudoClasses + [] == r.css.pseudoClasses;
      assert r.css.(pseudoClasses := r.css.pseudoClasses) == r.css;
    }
  }

  /** Variants are applied in reverse: `a:b:c` gives the pseudo-classes of b
      then a, after the base rule's own. */
  lemma PseudoClassOrder(a: string, b: string, base: Part, tok: string, vm: map<string, Variant>,
                         bs: map<string, OrderedCss>, arbs: map<string, BaseClasses.ArbitraryClass>)
    requires a in vm && vm[a] == PseudoClass(a) && b in vm && vm[b] == PseudoClass(b)
    requires BaseRule(base, bs, arbs).Some?
    ensures var r := BaseRule(base, bs, arbs).value;
      CreateCss(ClassInfo([Part(a, "", ""), Part(b, "", "")], base), tok, vm, bs, arbs)
      == Some([OrderedCss(r.css.(selector := tok, pseudoClasses := r.css.pseudoClasses + [b, a]), r.order)])
  {
    var vars := [Part(a, "", ""), Part(b, "", "")];
    var r := BaseRule(base, bs, arbs).value;
    assert Reverse(vars) == [Part(b, "", ""), Part(a, "", "")];
    ResolvePseudoClasses(vm, Reverse(vars), OrderedCss(r.css.(selector := tok), r.order));
    assert PseudoNames(vm, Reverse(vars)) == [b, a];
  }

  /** The slash text of the class part plays no part in the result. */
  lemma SlashIgnored(vs: seq<Part>, p: Part, slash: string, tok: string, vm: map<string, Variant>,
                     bs: map<string, OrderedCss>, arbs: map<string, BaseClasses.ArbitraryClass>)
    ensures CreateCss(ClassInfo(vs, p.(slashText := slash)), tok, vm, bs, arbs) == CreateCss(ClassInfo(vs, p), tok, vm, bs, arbs)
  {
  }

  /** `name-[]` is the plain lookup of the name without its last byte: empty
      arbitrary text is no arbitrary text. */
  lemma EmptyBrackets(n: string, tok: string, vm: map<string, Variant>,
                      bs: map<string, OrderedCss>, arbs: map<string, BaseClasses.ArbitraryClass>)
    requires Plain(n)
    ensures Parse(n + "[" + "]").Some?
    ensures CreateCss(Parse(n + "[" + "]").value, tok, vm, bs, arbs)
         == if DropLast(n) in bs then Some([OrderedCss(bs[DropLast(n)].css.(selector := tok), bs[DropLast(n)].order)]) else None
  {
    ParseArbitraryClass(n, "");
    assert n + "[" + "" + "]" == n + "[" + "]";
  }

  // ---------------------------------------------------------------- the marker's two branches

  /** No known variant among `vars` is the marker. */
  predicate MarkerFree(vm: map<string, Variant>, vars: seq<Part>) {
    forall i :: 0 <= i < |vars| && vars[i].name in vm ==> !vm[vars[i].name].DoublePseudoElement?
  }

  lemma ConvCommutes(v: Variant, arb: string)
    requires !v.DoublePseudoElement?
    ensures Fold.CommutesWithStar(Conv(v, arb))
  {
    forall c: Css
      ensures |Conv(v, arb)(c.(childCombinator := "*"))| == |Conv(v, arb)(c)|
      ensures forall i :: 0 <= i < |Conv(v, arb)(c)| ==>
        Conv(v, arb)(c.(childCombinator := "*"))[i] == Conv(v, arb)(c)[i].(childCombinator := "*")
    {
      ConvertCommutes(v, arb, "", c, "*");
    }
  }

  /** Variants that are not the marker give both branches of a fork the same
      changes, so each rule of the second half stays its partner with `*`. */
  lemma {:induction false} ResolveKeepsPairs(vm: map<string, Variant>, vars: seq<Part>, cs: seq<OrderedCss>, n: nat)
    requires Fold.Paired(cs, n) && MarkerFree(vm, vars)
    ensures Resolve(vm, vars, cs).Some? ==> Fold.Paired(Resolve(vm, vars, cs).value, n)
    decreases |vars|
  {
    if vars != [] && vars[0].name in vm {
      var v := vm[vars[0].name];
      var arb := vars[0].arbitraryText;
      var conv := Conv(v, arb);
      assert !v.DoublePseudoElement?;
      match Fold.StepAll(conv, cs)
      case None =>
      case Some(next) =>
        ConvLength(v, arb);
        ConvCommutes(v, arb);
        Fold.StepKeepsPairs(conv, cs, n, if v.Breakpoint? && arb != "" then 0 else 1);
        assert MarkerFree(vm, vars[1..]) by {
          forall i | 0 <= i < |vars[1..]| ensures vars[1..][i] == vars[i + 1] {}
        }
        ResolveKeepsPairs(vm, vars[1..], next, n);
    }
  }

  /** After the marker, each rule and its copy with child combinator `*`
      stay paired through every later variant that is not a marker. */
  lemma ForkStaysPaired(vm: map<string, Variant>, m: Part, vars: seq<Part>, cs: seq<OrderedCss>)
    requires m.name in vm && vm[m.name].DoublePseudoElement?
    requires MarkerFree(vm, vars)
    ensures Resolve(vm, [m] + vars, cs).Some? ==> Fold.Paired(Resolve(vm, [m] + vars, cs).value, |cs|)
  {
    var v := vm[m.name];
    var conv := Conv(v, m.arbitraryText);
    forall c: Css ensures |conv(c)| == 2 && conv(c)[1] == conv(c)[0].(childCombinator := "*") {
      ConvertChanges(v, m.arbitraryText, "", c);
    }
    Fold.ForkPairs(conv, cs);
    assert ([m] + vars)[0] == m && ([m] + vars)[1..] == vars;
    ResolveKeepsPairs(vm, vars, Fold.StepAll(conv, cs).value, |cs|);
  }

  /** A token whose innermost variant is the marker, with no other marker,
      gives exactly two rules, the second the first with child combinator `*`. */
  lemma MarkerPairs(vs: seq<Part>, m: Part, p: Part, tok: string, vm: map<string, Variant>,
                    bs: map<string, OrderedCss>, arbs: map<string, BaseClasses.ArbitraryClass>)
    requires m.name in vm && vm[m.name].DoublePseudoElement?
    requires MarkerFree(vm, vs)
    ensures CreateCss(ClassInfo(vs + [m], p), tok, vm, bs, arbs).Some? ==>
      Fold.Paired(CreateCss(ClassInfo(vs + [m], p), tok, vm, bs, arbs).value, 1)
  {
    var rev := Reverse(vs + [m]);
    assert rev == [m] + Reverse(vs);
    assert MarkerFree(vm, Reverse(vs)) by {
      forall i | 0 <= i < |vs| ensures Reverse(vs)[i] == vs[|vs| - 1 - i] {}
    }
    var b := BaseRule(p, bs, arbs);
    if b.Some? {
      ForkStaysPaired(vm, m, Reverse(vs), [OrderedCss(b.value.css.(selector := tok), b.value.order)]);
    }
  }

  // ---------------------------------------------------------------- the line

  /** The rules of one token; a token that does not parse or resolve gives none. */
  function TokenRules(tok: string, vm: map<string, Variant>, bs: map<string, OrderedCss>,
                      arbs: map<string, BaseClasses.ArbitraryClass>): seq<OrderedCss> {
    match Parse(tok)
    case None => []
    case Some(ci) =>
      match CreateCss(ci, tok, vm, bs, arbs)
      case None => []
      case Some(r) => r
  }

  /** What `ParseString(s, vs, bs)` returns: the rules of each token in turn,
      up to the first empty token. */
  function ParseLine(s: string, vm: map<string, Variant>, bs: map<string, OrderedCss>,
                     arbs: map<string, BaseClasses.ArbitraryClass>): seq<OrderedCss>
    decreases |s|
  {
    var tok := Token(s);
    if tok == [] then [] else TokenRules(tok, vm, bs, arbs) + ParseLine(AfterToken(s), vm, bs, arbs)
  }

  /** A token followed by a delimiter contributes its rules, then the rest of the
      line follows. */
  lemma ParseLineToken(tok: string, d: char, rest: string, vm: map<string, Variant>,
                       bs: map<string, OrderedCss>, arbs: map<string, BaseClasses.ArbitraryClass>)
    requires tok != [] && forall i :: 0 <= i < |tok| ==> !IsDelimiter(tok[i])
    requires IsDelimiter(d)
    ensures ParseLine(tok + [d] + rest, vm, bs, arbs) == TokenRules(tok, vm, bs, arbs) + ParseLine(rest, vm, bs, arbs)
  {
    TokenOf(tok, d, rest);
  }

  /** A delimiter at the start ends the line: two delimiters in a row stop
      everything after them. */
  lemma ParseLineStops(d: char, rest: string, vm: map<string, Variant>,
                       bs: map<string, OrderedCss>, arbs: map<string, BaseClasses.ArbitraryClass>)
    requires IsDelimiter(d)
    ensures ParseLine([d] + rest, vm, bs, arbs) == []
    ensures ParseLine([], vm, bs, arbs) == []
  {
  }

  /** Every rule of a token is selected by the token. */
  lemma TokenRulesSelector(tok: string, vm: map<string, Variant>,
                           bs: map<string, OrderedCss>, arbs: map<string, BaseClasses.ArbitraryClass>)
    ensures forall i :: 0 <= i < |TokenRules(tok, vm, bs, arbs)| ==> TokenRules(tok, vm, bs, arbs)[i].css.selector == tok
  {
    if Parse(tok).Some? {
      CreateCssShape(Parse(tok).value, tok, vm, bs, arbs);
    }
  }

  /** Every rule of a line carries a non-empty, delimiter-free token as its selector. */
  lemma {:induction false} ParseLineSelectors(s: string, vm: map<string, Variant>,
                                              bs: map<string, OrderedCss>, arbs: map<string, BaseClasses.ArbitraryClass>)
    ensures forall i :: 0 <= i < |ParseLine(s, vm, bs, arbs)| ==>
      ValidSelector(ParseLine(s, vm, bs, arbs)[i].css.selector)
    decreases |s|
  {
    var tok := Token(s);
    if tok != [] {
      var rest := ParseLine(AfterToken(s), vm, bs, arbs);
      ParseLineSelectors(AfterToken(s), vm, bs, arbs);
      var t := TokenRules(tok, vm, bs, arbs);
      TokenRulesSelector(tok, vm, bs, arbs);
      assert ValidSelector(tok);
      AllValid(t, rest);
    }
  }

  /** A token: non-empty and free of delimiters. */
  predicate ValidSelector(sel: string) {
    sel != [] && forall k :: 0 <= k < |sel| ==> !IsDelimiter(sel[k])
  }

  lemma AllValid(t: seq<OrderedCss>, rest: seq<OrderedCss>)
    requires forall i :: 0 <= i < |t| ==> ValidSelector(t[i].css.selector)
    requires forall i :: 0 <= i < |rest| ==> ValidSelector(rest[i].css.selector)
    ensures forall i :: 0 <= i < |t + rest| ==> ValidSelector((t + rest)[i].css.selector)
  {
    forall i | 0 <= i < |t + rest| ensures ValidSelector((t + rest)[i].css.selector) {
      if i >= |t| { assert (t + rest)[i] == rest[i - |t|]; }
    }
  }

  /** `v:c` for plain names: one variant, then the class. */
  lemma ParseVariantClass(v: string, cl: string)
    requires Plain(v) && Plain(cl)
    ensures Parse(v + ":" + cl) == Some(ClassInfo([Part(v, "", "")], Part(cl, "", "")))
  {
    ParseVariant(v, cl);
    ParsePlainClass(cl);
    assert [Part(v, "", "")] + [] == [Part(v, "", "")];
  }

  /** A pseudo-class variant over a plain class: the class's rule under the
      pseudo-class, selected by the whole token. */
  lemma PseudoClassToken(v: string, cl: string, vm: map<string, Variant>,
                         bs: map<string, OrderedCss>, arbs: map<string, BaseClasses.ArbitraryClass>)
    requires Plain(v) && Plain(cl) && ValidSelector(v + ":" + cl)
    requires v in vm && vm[v] == PseudoClass(v) && cl in bs
    ensures var r := bs[cl];
      ParseLine(v + ":" + cl, vm, bs, arbs)
      == [OrderedCss(r.css.(selector := v + ":" + cl, pseudoClasses := r.css.pseudoClasses + [v]), r.order)]
  {
    var tok := v + ":" + cl;
    var vars := [Part(v, "", "")];
    ParseVariantClass(v, cl);
    TokenToEnd(tok);
    var r := bs[cl];
    ResolvePseudoClasses(vm, vars, OrderedCss(r.css.(selector := tok), r.order));
    assert PseudoNames(vm, vars) == [v];
    assert Reverse(vars) == vars;
    assert TokenRules(tok, vm, bs, arbs)
        == [OrderedCss(r.css.(selector := tok, pseudoClasses := r.css.pseudoClasses + [v]), r.order)];
  }

  /** `hover:bg-red-500`: the base rule under the hover pseudo-class, selected by
      the whole token. */
  lemma HoverExample(vm: map<string, Variant>, bs: map<string, OrderedCss>, arbs: map<string, BaseClasses.ArbitraryClass>)
    requires "hover" in vm && vm["hover"] == PseudoClass("hover")
    requires "bg-red-500" in bs
    ensures var r := bs["bg-red-500"];
      ParseLine("hover:bg-red-500", vm, bs, arbs)
      == [OrderedCss(r.css.(selector := "hover:bg-red-500", pseudoClasses := r.css.pseudoClasses + ["hover"]), r.order)]
  {
    HoverPieces();
    PseudoClassToken("hover", "bg-red-500", vm, bs, arbs);
  }

  lemma HoverPieces()
    ensures "hover" + ":" + "bg-red-500" == "hover:bg-red-500"
    ensures Plain("hover") && Plain("bg-red-500") && ValidSelector("hover:bg-red-500")
  {
  }

  /** A plain class with no variants is its base rule, selected by the token. */
  lemma PlainClassToken(cl: string, vm: map<string, Variant>, bs: map<string, OrderedCss>,
                        arbs: map<string, BaseClasses.ArbitraryClass>)
    requires Plain(cl) && ValidSelector(cl) && cl in bs
    ensures ParseLine(cl, vm, bs, arbs) == [OrderedCss(bs[cl].css.(selector := cl), bs[cl].order)]
  {
    ParsePlainClass(cl);
    TokenToEnd(cl);
    assert Reverse<Part>([]) == [];
    assert TokenRules(cl, vm, bs, arbs) == [OrderedCss(bs[cl].css.(selector := cl), bs[cl].order)];
  }

  /** `aspect-video` against the registries `MakeBaseClasses` and
      `MakeVariants` build: one rule, `aspect-ratio: 16 / 9` at the aspect
      ratio's order, selected by the token, whatever the palette and the
      breakpoints. */
  lemma AspectVideo(palette: map<string, string>, bps: map<string, string>)
    ensures ParseLine("aspect-video", AllVariants(bps), BaseClasses.BaseClassMap(BaseClasses.MainClasses, palette), BaseClasses.MainArbitrary)
         == [OrderedCss(SingleDeclaration("aspect-ratio", "16 / 9", BaseClasses.AspectRatioOrder).css.(selector := "aspect-video"),
                        BaseClasses.AspectRatioOrder)]
  {
    BaseClasses.AspectVideoIsSixteenNine(palette);
    AspectVideoPieces();
    PlainClassToken("aspect-video", AllVariants(bps), BaseClasses.BaseClassMap(BaseClasses.MainClasses, palette), BaseClasses.MainArbitrary);
  }

  lemma AspectVideoPieces()
    ensures Plain("aspect-video") && ValidSelector("aspect-video")
  {
  }

  // ---------------------------------------------------------------- methods

  /** `createCSSFromClassInformation`. */
  method CreateCssFromClassInformation(ci: ClassInfo, selector: string, vm: map<string, Variant>,
                                       bs: map<string, OrderedCss>, arbs: map<string, BaseClasses.ArbitraryClass>)
    returns (res: Option<seq<OrderedCss>>)
    ensures res == CreateCss(ci, selector, vm, bs, arbs)
  {
    var css: OrderedCss;
    if ci.classPart.arbitraryText == "" {
      if ci.classPart.name !in bs {
        return None;
      }
      css := bs[ci.classPart.name];
    } else {
      if ci.classPart.name !in arbs {
        return None;
      }
      css := BaseClasses.ArbitraryValue(arbs[ci.classPart.name], ci.classPart.arbitraryText);
    }
    css := css.(css := css.css.(selector := selector));
    var csses := [css];
    var vars := Reverse(ci.variants);
    for i := 0 to |vars|
      invariant Resolve(vm, vars[i..], csses) == CreateCss(ci, selector, vm, bs, arbs)
    {
      assert vars[i..][0] == vars[i] && vars[i..][1..] == vars[i + 1..];
      var variant := vars[i];
      if variant.name !in vm {
        return None;
      }
      var v := vm[variant.name];
      var step := Fold.ApplyStep(Conv(v, variant.arbitraryText), csses);
      if step.None? {
        return None;
      }
      csses := step.value;
    }
    return Some(csses);
  }

  /** `ProduceNextCSS`: reads tokens until one yields rules (returned) or an
      empty token ends the line (nothing). */
  method ProduceNextCss(r: Reader, vm: map<string, Variant>, bs: map<string, OrderedCss>,
                        arbs: map<string, BaseClasses.ArbitraryClass>) returns (res: Option<seq<OrderedCss>>)
    requires r.Valid()
    modifies r
    ensures r.Valid()
    ensures res.None? ==> ParseLine(old(r.Rest()), vm, bs, arbs) == []
    ensures res.Some? ==> |r.Rest()| < |old(r.Rest())|
    ensures res.Some? ==> ParseLine(old(r.Rest()), vm, bs, arbs) == res.value + ParseLine(r.Rest(), vm, bs, arbs)
  {
    while true
      invariant r.Valid()
      invariant ParseLine(old(r.Rest()), vm, bs, arbs) == ParseLine(r.Rest(), vm, bs, arbs)
      invariant |r.Rest()| <= |old(r.Rest())|
      decreases |r.Rest()|
    {
      var s := GrabFirstPossibleValidString(r);
      if |s| == 0 {
        return None;
      }
      var ci := ParseStr(s);
      if ci.None? {
        continue;
      }
      var csses := CreateCssFromClassInformation(ci.value, s, vm, bs, arbs);
      if csses.Some? {
        return csses;
      }
    }
  }

  lemma Regroup<T>(a: seq<T>, b: seq<T>, c: seq<T>, x: seq<T>, line: seq<T>)
    requires a + x == line && x == b + c
    ensures (a + b) + c == line
  {
  }

  /** `ParseString`. */
  method ParseString(s: string, vm: map<string, Variant>, bs: map<string, OrderedCss>,
                     arbs: map<string, BaseClasses.ArbitraryClass>) returns (csses: seq<OrderedCss>)
    ensures csses == ParseLine(s, vm, bs, arbs)
  {
    var r := new Reader(s);
    csses := [];
    while true
      invariant r.Valid()
      invariant csses + ParseLine(r.Rest(), vm, bs, arbs) == ParseLine(s, vm, bs, arbs)
      decreases |r.Rest()|
    {
      ghost var before := r.Rest();
      var res := ProduceNextCss(r, vm, bs, arbs);
      if res.None? {
        return;
      }
      Regroup(csses, res.value, ParseLine(r.Rest(), vm, bs, arbs), ParseLine(before, vm, bs, arbs), ParseLine(s, vm, bs, arbs));
      csses := csses + res.value;
    }
  }
}
