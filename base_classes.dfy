/** The base classes of main.go: the class kinds, the maps of class names to
    rules that each kind produces, the arbitrary-value constructors, and the
    registry `MakeBaseClasses` merges. */
module BaseClasses {
  import opened Rules
  import opened GoStrings
  import Util

  /** The kinds of base class. A numerical class is modelled by its keyword
      entries only. */
  datatype BaseClass =
    | ArbitraryValueKeyword(name: string, property: string, defaults: map<string, string>, order: int)
    | Keyword(name: string, property: string, values: map<string, string>, order: int)
    | RandomKeyword(keywords: map<string, string>, property: string, order: int)
    | Numerical(name: string, property: string, keywords: map<string, string>, order: int)
    | Color(name: string, property: string, order: int)

  /** The table a class iterates over; a color class reads the palette. */
  function Table(b: BaseClass, palette: map<string, string>): map<string, string> {
    match b
    case ArbitraryValueKeyword(_, _, d, _) => d
    case Keyword(_, _, vs, _) => vs
    case RandomKeyword(ks, _, _) => ks
    case Numerical(_, _, ks, _) => ks
    case Color(_, _, _) => palette
  }

  /** The class name a table key k becomes. */
  function KeyFor(b: BaseClass, k: string): string {
    match b
    case ArbitraryValueKeyword(n, _, _, _) => if k == "" then n else n + "-" + k
    case RandomKeyword(_, _, _) => k
    case _ => b.name + "-" + k
  }

  lemma DashSuffix(n: string, k1: string, k2: string)
    requires n + "-" + k1 == n + "-" + k2
    ensures k1 == k2
  {
    assert k1 == (n + "-" + k1)[|n| + 1..];
    assert k2 == (n + "-" + k2)[|n| + 1..];
  }

  /** Different table keys give different class names, so no entry overwrites another. */
  lemma KeyForInjective(b: BaseClass, k1: string, k2: string)
    requires KeyFor(b, k1) == KeyFor(b, k2)
    ensures k1 == k2
  {
    match b
    case ArbitraryValueKeyword(n, _, _, _) =>
      if k1 != "" && k2 != "" {
        DashSuffix(n, k1, k2);
      }
    case RandomKeyword(_, _, _) =>
    case _ => DashSuffix(b.name, k1, k2);
  }

  /** The rule of one table entry: one declaration of the class property, the
      class order (the numerical class adds `keywordsOrder`, which is 0). */
  function Entry(b: BaseClass, v: string): (r: OrderedCss)
    ensures r.css.declarations == [Declaration(b.property, v)] && r.order == b.order
  {
    SingleDeclaration(b.property, v, b.order)
  }

  /** The entries the keys ks of table t give: each key under its class name
      with its own rule, and no other class name. */
  function EntriesOf(b: BaseClass, t: map<string, string>, ks: set<string>): (r: map<string, OrderedCss>)
    requires ks <= t.Keys
    ensures forall k :: k in ks ==> KeyFor(b, k) in r && r[KeyFor(b, k)] == Entry(b, t[k])
    ensures forall n :: n in r ==> exists k :: k in ks && KeyFor(b, k) == n
  {
    assert forall k1, k2 :: k1 in ks && k2 in ks && KeyFor(b, k1) == KeyFor(b, k2) ==> k1 == k2 by {
      forall k1, k2 | k1 in ks && k2 in ks && KeyFor(b, k1) == KeyFor(b, k2) ensures k1 == k2 {
        KeyForInjective(b, k1, k2);
      }
    }
    map k | k in ks :: KeyFor(b, k) := Entry(b, t[k])
  }

  /** What `produceMap` returns. */
  function ProducedMap(b: BaseClass, palette: map<string, string>): map<string, OrderedCss> {
    var t := Table(b, palette);
    EntriesOf(b, t, t.Keys)
  }

  /** Exactly one entry per table key: as many entries as keys, every key's
      class name holding that key's rule. */
  lemma ProducedMapEntries(b: BaseClass, palette: map<string, string>)
    ensures forall k :: k in Table(b, palette) ==>
      KeyFor(b, k) in ProducedMap(b, palette)
      && ProducedMap(b, palette)[KeyFor(b, k)] == Entry(b, Table(b, palette)[k])
    ensures |ProducedMap(b, palette)| == |Table(b, palette)|
  {
    var t := Table(b, palette);
    var m := ProducedMap(b, palette);
    var img := set k | k in t.Keys :: KeyFor(b, k);
    assert m.Keys == img by {
      forall n | n in m ensures n in img {
        var k :| k in t.Keys && KeyFor(b, k) == n;
      }
    }
    ImageSize(b, t.Keys);
  }

  /** The set of class names from a set of table keys is as large as the set. */
  lemma {:induction false} ImageSize(b: BaseClass, ks: set<string>)
    ensures |set k | k in ks :: KeyFor(b, k)| == |ks|
    decreases |ks|
  {
    if ks != {} {
      var k :| k in ks;
      var rest := ks - {k};
      ImageSize(b, rest);
      var img := set k' | k' in ks :: KeyFor(b, k');
      var imgRest := set k' | k' in rest :: KeyFor(b, k');
      assert img == imgRest + {KeyFor(b, k)} by {
        forall n | n in img ensures n in imgRest || n == KeyFor(b, k) {
          var k' :| k' in ks && KeyFor(b, k') == n;
          if k' != k {
            assert k' in rest;
          }
        }
        forall n | n in imgRest ensures n in img {
          var k' :| k' in rest && KeyFor(b, k') == n;
        }
      }
      assert KeyFor(b, k) !in imgRest by {
        if KeyFor(b, k) in imgRest {
          var k' :| k' in rest && KeyFor(b, k') == KeyFor(b, k);
          KeyForInjective(b, k', k);
        }
      }
    } else {
      assert (set k | k in ks :: KeyFor(b, k)) == {};
    }
  }

  /** `produceMap`: one entry per table key, in the map's iteration order. */
  method ProduceMap(b: BaseClass, palette: map<string, string>) returns (m: map<string, OrderedCss>)
    ensures m == ProducedMap(b, palette)
  {
    var t := Table(b, palette);
    m := map[];
    var todo := t.Keys;
    ghost var done: set<string> := {};
    while todo != {}
      invariant done + todo == t.Keys && done !! todo
      invariant m == EntriesOf(b, t, done)
      decreases todo
    {
      var k :| k in todo;
      ProduceStep(b, t, done, k);
      m := m[KeyFor(b, k) := Entry(b, t[k])];
      todo := todo - {k};
      done := done + {k};
    }
  }

  /** A map with the entries of the keys ks and no other class name is `EntriesOf`. */
  lemma EntriesUnique(b: BaseClass, t: map<string, string>, ks: set<string>, u: map<string, OrderedCss>)
    requires ks <= t.Keys
    requires forall k :: k in ks ==> KeyFor(b, k) in u && u[KeyFor(b, k)] == Entry(b, t[k])
    requires forall n :: n in u ==> exists k :: k in ks && KeyFor(b, k) == n
    ensures u == EntriesOf(b, t, ks)
  {
    var m := EntriesOf(b, t, ks);
    forall n | n in u ensures n in m && m[n] == u[n] {
      var k :| k in ks && KeyFor(b, k) == n;
    }
    forall n | n in m ensures n in u {
      var k :| k in ks && KeyFor(b, k) == n;
    }
  }

  lemma ProduceStep(b: BaseClass, t: map<string, string>, done: set<string>, k: string)
    requires done <= t.Keys && k in t && k !in done
    ensures EntriesOf(b, t, done)[KeyFor(b, k) := Entry(b, t[k])] == EntriesOf(b, t, done + {k})
  {
    var m := EntriesOf(b, t, done);
    var u := m[KeyFor(b, k) := Entry(b, t[k])];
    forall k' | k' in done + {k} ensures KeyFor(b, k') in u && u[KeyFor(b, k')] == Entry(b, t[k']) {
      if k' != k && KeyFor(b, k') == KeyFor(b, k) {
        KeyForInjective(b, k', k);
      }
    }
    forall n | n in u ensures exists k' :: k' in done + {k} && KeyFor(b, k') == n {
      if n != KeyFor(b, k) {
        var k' :| k' in done && KeyFor(b, k') == n;
      }
    }
    EntriesUnique(b, t, done + {k}, u);
  }

  // ---------------------------------------------------------------- arbitrary values

  /** The classes that accept `[value]` text: the passthrough class (`LOLOLOL`)
      and the keyword, numerical and color classes. */
  datatype ArbitraryClass = Passthrough | Of(b: BaseClass)

  /** `baseForArbitraryValue`. Keyword and random-keyword classes have no
      such method in the source and never appear in an arbitrary registry;
      their cases exist only to make the match total. */
  function BaseForArbitraryValue(a: ArbitraryClass): string {
    match a
    case Passthrough => ""
    case Of(b) => if b.RandomKeyword? then "" else b.name
  }

  /** One declaration read from `property:value`; with any other number of `:`
      separated pieces only the first piece is kept, as the property. */
  function DeclarationOf(s: string): (d: Declaration)
    ensures ':' !in d.property && ':' !in d.value
  {
    var parts := Split(s, ':');
    if |parts| == 2 then Declaration(parts[0], parts[1]) else Declaration(parts[0], "")
  }

  /** The declarations of `LOLOLOL`'s text: one per `;`-separated piece. */
  function PassthroughDeclarations(v: string): (ds: seq<Declaration>)
    ensures |ds| == |Split(v, ';')|
  {
    var pieces := Split(v, ';');
    seq(|pieces|, i requires 0 <= i < |pieces| => DeclarationOf(pieces[i]))
  }

  /** `arbitraryValue(v)`: the passthrough class makes v's declarations with
      order 900; the others make one declaration of v verbatim with the class
      order. `Of` a keyword or random-keyword class has no `arbitraryValue` in
      the source and is never registered; it is covered only to make the
      match total. */
  function ArbitraryValue(a: ArbitraryClass, v: string): (r: OrderedCss)
    ensures a.Of? ==> r == Entry(a.b, v)
    ensures a.Passthrough? ==> r.order == PassthroughOrder && r.css.declarations == PassthroughDeclarations(v)
    ensures r.css.selector == "" && r.css.mediaQueries == [] && r.css.pseudoClasses == []
  {
    match a
    case Passthrough => OrderedCss(EmptyCss.(declarations := PassthroughDeclarations(v)), PassthroughOrder)
    case Of(b) => Entry(b, v)
  }

  /** `LOLOLOL.arbitraryValue`, the loop over the `;`-separated pieces. */
  method PassthroughValue(v: string) returns (r: OrderedCss)
    ensures r == ArbitraryValue(Passthrough, v)
  {
    var declsStrs := Split(v, ';');
    var decls: seq<Declaration> := [];
    for i := 0 to |declsStrs|
      invariant decls == PassthroughDeclarations(v)[..i]
    {
      var parts := Split(declsStrs[i], ':');
      if |parts| == 2 {
        decls := decls + [Declaration(parts[0], parts[1])];
      } else {
        decls := decls + [Declaration(parts[0], "")];
      }
    }
    assert decls == PassthroughDeclarations(v);
    r := OrderedCss(EmptyCss.(declarations := decls), PassthroughOrder);
  }

  /** `property:value` written out. */
  function DeclarationText(d: Declaration): string {
    d.property + ":" + d.value
  }

  function DeclarationTexts(ds: seq<Declaration>): (r: seq<string>)
    ensures |r| == |ds|
    ensures forall i :: 0 <= i < |ds| ==> r[i] == DeclarationText(ds[i])
  {
    seq(|ds|, i requires 0 <= i < |ds| => DeclarationText(ds[i]))
  }

  predicate Clean(s: string) {
    ':' !in s && ';' !in s
  }

  /** Declarations written as `p:v;p:v;…` are read back unchanged, provided no
      property or value holds `:` or `;`. */
  lemma PassthroughRoundTrip(ds: seq<Declaration>)
    requires |ds| >= 1
    requires forall i :: 0 <= i < |ds| ==> Clean(ds[i].property) && Clean(ds[i].value)
    ensures PassthroughDeclarations(Join(DeclarationTexts(ds), ";")) == ds
  {
    var texts := DeclarationTexts(ds);
    forall i | 0 <= i < |texts| ensures ';' !in texts[i] {
      assert texts[i] == ds[i].property + ":" + ds[i].value;
    }
    SplitJoin(texts, ';');
    forall i | 0 <= i < |ds| ensures DeclarationOf(texts[i]) == ds[i] {
      SplitJoin([ds[i].property, ds[i].value], ':');
      assert Join([ds[i].property, ds[i].value], [':']) == texts[i];
    }
  }

  /** A piece with two or more `:` keeps only its property; its value is lost. */
  lemma PassthroughExtraColon(p: string, v: string, w: string)
    requires Clean(p) && Clean(v) && Clean(w)
    ensures DeclarationOf(p + ":" + v + ":" + w) == Declaration(p, "")
  {
    SplitJoin([p, v, w], ':');
    assert Join([v, w], [':']) == v + ":" + w;
    assert Join([p, v, w], [':']) == p + ":" + (v + ":" + w);
    assert p + ":" + v + ":" + w == p + ":" + (v + ":" + w);
  }

  // ---------------------------------------------------------------- main.go's classes

  /** The `iota * 100` order constants. */
  const AspectRatioOrder := 100
  const ColumnsOrder := 200
  const BreakBeforeOrder := 300
  const BreakInsideOrder := 400
  const BreakAfterOrder := 500
  const TextWrapOrder := 600
  const GrowOrder := 700
  const FlexDirectionOrder := 800
  const PassthroughOrder := 900

  /** The table of `grow` (main.go:706). */
  const GrowDefaults: map<string, string> := map[
      "" := "1", "0" := "0"]

  /** The table of `aspectRatio` (main.go:716). */
  const AspectDefaults: map<string, string> := map[
      "auto" := "auto", "square" := "1 / 1", "video" := "16 / 9"]

  /** The table of `columns` (main.go:752). */
  const ColumnsDefaults: map<string, string> := map[
      "1" := "1", "2" := "2", "3" := "3", "4" := "4", "5" := "5", "6" := "6", "7" := "7",
      "8" := "8", "9" := "9", "10" := "10", "11" := "11", "12" := "12", "auto" := "auto",
      "3xs" := "16rem", "2xs" := "18rem", "xs" := "20rem", "sm" := "24rem", "md" := "28rem",
      "lg" := "32rem", "xl" := "36rem"]

  /** The table of `flexWrap` (main.go:800). */
  const FlexWrapValues: map<string, string> := map[
      "wrap" := "wrap", "wrap-reverse" := "wrap-reverse", "nowrap" := "nowrap"]

  /** The table of `flexDirection` (main.go:811). */
  const FlexDirectionValues: map<string, string> := map[
      "row" := "row", "row-reverse" := "row-reverse", "col" := "col",
      "col-reverse" := "col-reverse"]

  /** The table of `breakAfter` (main.go:823). */
  const BreakAfterValues: map<string, string> := map[
      "auto" := "auto", "avoid" := "avoid", "all" := "all", "avoid-page" := "avoid-page",
      "page" := "page", "left" := "left", "right" := "right", "column" := "column"]

  /** The table of `breakBefore` (main.go:838). */
  const BreakBeforeValues: map<string, string> := map[
      "auto" := "auto", "avoid" := "avoid", "all" := "all", "avoid-page" := "avoid-page",
      "page" := "page", "left" := "left", "right" := "right", "column" := "column"]

  /** The table of `breakInside` (main.go:853). */
  const BreakInsideValues: map<string, string> := map[
      "auto" := "auto", "avoid" := "avoid", "avoid-page" := "avoid-page",
      "avoid-column" := "avoid-column"]

  /** The table of `boxDecoration` (main.go:864). */
  const BoxDecorationValues: map<string, string> := map[
      "clone" := "clone", "slice" := "slice"]

  /** The table of `boxSizing` (main.go:873). */
  const BoxSizingValues: map<string, string> := map[
      "border" := "border-box", "content" := "content-box"]

  /** The table of `floats` (main.go:883). */
  const FloatValues: map<string, string> := map[
      "start" := "inline-start", "end" := "inline-end", "left" := "left", "right" := "right",
      "none" := "none"]

  /** The table of `clear` (main.go:895). */
  const ClearValues: map<string, string> := map[
      "start" := "inline-start", "end" := "inline-end", "left" := "left", "right" := "right",
      "both" := "both", "none" := "none"]

  /** The table of `textWrap` (main.go:909). */
  const TextWrapValues: map<string, string> := map[
      "wrap" := "wrap", "nowrap" := "nowrap", "balance" := "balance", "pretty" := "pretty"]

  /** The table of `display` (main.go:941). */
  const DisplayKeywords: map<string, string> := map[
      "block" := "block", "inline-block" := "inline-block", "inline" := "inline",
      "flex" := "flex", "inline-flex" := "inline-flex", "table" := "table",
      "inline-table" := "inline-table", "table-caption" := "table-caption",
      "table-cell" := "table-cell", "table-column" := "table-column",
      "table-column-group" := "table-column-group",
      "table-footer-group" := "table-footer-group",
      "table-header-group" := "table-header-group", "table-row-group" := "table-row-group",
      "table-row" := "table-row", "flow-root" := "flow-root", "grid" := "grid",
      "inline-grid" := "inline-grid", "contents" := "contents", "list-item" := "list-item",
      "hidden" := "none"]

  /** The table of `isolation` (main.go:970). */
  const IsolationKeywords: map<string, string> := map[
      "isolate" := "isolate", "isolation-auto" := "auto"]

  /** The table of `flexBasis` (main.go:1030). */
  const BasisKeywords: map<string, string> := map[
      "auto" := "auto", "full" := "full"]

  const Grow := ArbitraryValueKeyword("grow", "flex-grow", GrowDefaults, GrowOrder)
  const AspectRatio := ArbitraryValueKeyword("aspect", "aspect-ratio", AspectDefaults, AspectRatioOrder)
  const Columns := ArbitraryValueKeyword("columns", "columns", ColumnsDefaults, ColumnsOrder)
  const FlexWrap := Keyword("flex", "flex-wrap", FlexWrapValues, 0)
  const FlexDirection := Keyword("flex", "flex-direction", FlexDirectionValues, FlexDirectionOrder)
  const BreakAfter := Keyword("break-after", "break-after", BreakAfterValues, BreakAfterOrder)
  const BreakBefore := Keyword("break-before", "break-before", BreakBeforeValues, BreakBeforeOrder)
  const BreakInside := Keyword("break-inside", "break-inside", BreakInsideValues, BreakInsideOrder)
  const BoxDecoration := Keyword("box-decoration", "box-decoration-break", BoxDecorationValues, 0)
  const BoxSizing := Keyword("box", "box-sizing", BoxSizingValues, 0)
  const Floats := Keyword("float", "float", FloatValues, 0)
  const Clear := Keyword("float", "float", ClearValues, 0)
  const TextWrap := Keyword("text", "text-wrap", TextWrapValues, TextWrapOrder)
  const Display := RandomKeyword(DisplayKeywords, "display", 0)
  const Isolation := RandomKeyword(IsolationKeywords, "isolation", 0)
  const FlexBasis := Numerical("basis", "flex-basis", BasisKeywords, 0)
  const BackgroundColor := Color("bg", "background-color", 0)
  const TextColor := Color("text", "color", 0)

  /** The producers in the order `MakeBaseClasses` lists them. */
  const MainClasses: seq<BaseClass> := [
    AspectRatio, Columns, BreakAfter, BreakBefore, BreakInside, BoxDecoration, BoxSizing,
    Display, Floats, Clear, Isolation, FlexBasis, FlexDirection, FlexWrap, Grow,
    BackgroundColor, TextColor, TextWrap]

  function ProducedMaps(bs: seq<BaseClass>, palette: map<string, string>): (r: seq<map<string, OrderedCss>>)
    ensures |r| == |bs|
    ensures forall i :: 0 <= i < |bs| ==> r[i] == ProducedMap(bs[i], palette)
  {
    seq(|bs|, i requires 0 <= i < |bs| => ProducedMap(bs[i], palette))
  }

  lemma ProducedMapsStep(classes: seq<BaseClass>, i: nat, palette: map<string, string>)
    requires i < |classes|
    ensures ProducedMaps(classes[..i + 1], palette) == ProducedMaps(classes[..i], palette) + [ProducedMap(classes[i], palette)]
  {
    assert classes[..i + 1][i] == classes[i];
  }

  /** The registry of base classes for a color palette. */
  function BaseClassMap(classes: seq<BaseClass>, palette: map<string, string>): map<string, OrderedCss> {
    Util.Merge(ProducedMaps(classes, palette))
  }

  /** `MakeBaseClasses`: every producer's map, merged left to right. */
  method MakeBaseClasses(classes: seq<BaseClass>, palette: map<string, string>) returns (m: map<string, OrderedCss>)
    ensures m == BaseClassMap(classes, palette)
  {
    var maps: seq<map<string, OrderedCss>> := [];
    for i := 0 to |classes|
      invariant maps == ProducedMaps(classes[..i], palette)
    {
      var one := ProduceMap(classes[i], palette);
      ProducedMapsStep(classes, i, palette);
      maps := maps + [one];
    }
    assert classes[..|classes|] == classes;
    m := Util.ConcatMaps(maps);
  }

  /** `baseClassesArbitrary`: the classes that take `[value]` text, by base name. */
  const MainArbitrary: map<string, ArbitraryClass> := map[
    "" := Passthrough, "aspect" := Of(AspectRatio), "columns" := Of(Columns),
    "basis" := Of(FlexBasis), "grow" := Of(Grow), "bg" := Of(BackgroundColor),
    "text" := Of(TextColor)]

  /** Every entry of the arbitrary registry is keyed by the class's own base
      name and accepts arbitrary values. */
  lemma MainArbitraryKeys()
    ensures forall k :: k in MainArbitrary ==> BaseForArbitraryValue(MainArbitrary[k]) == k
    ensures forall k :: k in MainArbitrary && MainArbitrary[k].Of? ==>
      !MainArbitrary[k].b.RandomKeyword? && !MainArbitrary[k].b.Keyword?
  {
  }

  /** Where the classes the lemmas below look at sit in the registry. */
  lemma MainClassesAt()
    ensures |MainClasses| == 18
    ensures MainClasses[7] == Display && MainClasses[9] == Clear && MainClasses[17] == TextWrap
    ensures MainClasses[8] == Floats && MainClasses[10] == Isolation && MainClasses[11] == FlexBasis
    ensures MainClasses[12] == FlexDirection && MainClasses[13] == FlexWrap && MainClasses[14] == Grow
    ensures MainClasses[15] == BackgroundColor && MainClasses[16] == TextColor
  {
    MainClassesLow();
    MainClassesHigh();
  }

  lemma MainClassesFirst()
    ensures |MainClasses| == 18
    ensures MainClasses[0] == AspectRatio && MainClasses[1] == Columns && MainClasses[2] == BreakAfter
    ensures MainClasses[3] == BreakBefore && MainClasses[4] == BreakInside
    ensures MainClasses[5] == BoxDecoration && MainClasses[6] == BoxSizing
  {
    MainClassesHead();
    MainClassesMiddle();
  }

  lemma MainClassesHead()
    ensures |MainClasses| == 18
    ensures MainClasses[0] == AspectRatio && MainClasses[1] == Columns && MainClasses[2] == BreakAfter
  {
  }

  lemma MainClassesMiddle()
    ensures |MainClasses| == 18
    ensures MainClasses[3] == BreakBefore && MainClasses[4] == BreakInside
    ensures MainClasses[5] == BoxDecoration && MainClasses[6] == BoxSizing
  {
  }

  lemma MainClassesLow()
    ensures |MainClasses| == 18
    ensures MainClasses[7] == Display && MainClasses[8] == Floats && MainClasses[9] == Clear
    ensures MainClasses[10] == Isolation && MainClasses[11] == FlexBasis
  {
  }

  lemma MainClassesHigh()
    ensures |MainClasses| == 18
    ensures MainClasses[12] == FlexDirection && MainClasses[13] == FlexWrap && MainClasses[14] == Grow
    ensures MainClasses[15] == BackgroundColor && MainClasses[16] == TextColor && MainClasses[17] == TextWrap
  {
  }

  /** A class name none of whose table keys produces it is absent. */
  lemma NotProduced(b: BaseClass, palette: map<string, string>, n: string)
    requires forall k :: k in Table(b, palette) ==> KeyFor(b, k) != n
    ensures n !in ProducedMap(b, palette)
  {
  }

  /** A class whose name differs from n at one of the name's places does not
      produce n. */
  lemma NameMismatch(b: BaseClass, palette: map<string, string>, n: string, i: nat)
    requires !b.RandomKeyword? && i < |b.name| && i < |n| && b.name[i] != n[i]
    ensures n !in ProducedMap(b, palette)
  {
    forall k | k in Table(b, palette) ensures KeyFor(b, k) != n {
      assert KeyFor(b, k) == b.name || KeyFor(b, k) == b.name + "-" + k;
      assert (b.name + "-" + k)[i] == b.name[i];
    }
  }

  /** The one entry of registry class i under name n, when no later class
      produces n, is the registry's entry for n. */
  lemma LaterAbsent(classes: seq<BaseClass>, palette: map<string, string>, i: nat, k: string)
    requires i < |classes| && k in Table(classes[i], palette)
    requires forall j :: i < j < |classes| ==> KeyFor(classes[i], k) !in ProducedMap(classes[j], palette)
    ensures KeyFor(classes[i], k) in BaseClassMap(classes, palette)
    ensures BaseClassMap(classes, palette)[KeyFor(classes[i], k)] == Entry(classes[i], Table(classes[i], palette)[k])
  {
    ProducedMapEntries(classes[i], palette);
    Util.MergeLast(ProducedMaps(classes, palette), i, KeyFor(classes[i], k));
  }

  lemma TextWrapAt(palette: map<string, string>)
    ensures 17 < |MainClasses| && "wrap" in Table(MainClasses[17], palette)
    ensures KeyFor(MainClasses[17], "wrap") == "text-wrap"
    ensures Entry(MainClasses[17], Table(MainClasses[17], palette)["wrap"]) == SingleDeclaration("text-wrap", "wrap", TextWrapOrder)
  {
    MainClassesAt();
  }

  /** `text-wrap` is the text-wrap keyword whatever colors the palette holds:
      `textWrap` comes after `textColor`. */
  lemma TextWrapWins(palette: map<string, string>)
    ensures "text-wrap" in BaseClassMap(MainClasses, palette)
    ensures BaseClassMap(MainClasses, palette)["text-wrap"] == SingleDeclaration("text-wrap", "wrap", TextWrapOrder)
  {
    TextWrapAt(palette);
    LaterAbsent(MainClasses, palette, 17, "wrap");
  }

  /** `float-both` exists and comes from `clear`, the later of the two float
      classes; no class after it produces that name. */
  lemma FloatBothFromClear(palette: map<string, string>)
    ensures "float-both" in BaseClassMap(MainClasses, palette)
    ensures BaseClassMap(MainClasses, palette)["float-both"] == SingleDeclaration("float", "both", 0)
  {
    FloatBothAt(palette);
    FloatBothNotLater(palette);
    LaterAbsent(MainClasses, palette, 9, "both");
  }

  lemma FloatBothAt(palette: map<string, string>)
    ensures 9 < |MainClasses| && "both" in Table(MainClasses[9], palette)
    ensures KeyFor(MainClasses[9], "both") == "float-both"
    ensures Entry(MainClasses[9], Table(MainClasses[9], palette)["both"]) == SingleDeclaration("float", "both", 0)
  {
    MainClassesAt();
  }

  lemma FloatBothNotLater(palette: map<string, string>)
    ensures forall j :: 9 < j < |MainClasses| ==> "float-both" !in ProducedMap(MainClasses[j], palette)
  {
    var n := "float-both";
    MainClassesAt();
    forall j | 9 < j < |MainClasses| ensures n !in ProducedMap(MainClasses[j], palette) {
      if j == 10 { NotProduced(Isolation, palette, n); }
      else if j == 11 { NameMismatch(FlexBasis, palette, n, 0); }
      else if j == 12 { NameMismatch(FlexDirection, palette, n, 2); }
      else if j == 13 { NameMismatch(FlexWrap, palette, n, 2); }
      else if j == 14 { NameMismatch(Grow, palette, n, 0); }
      else if j == 15 { NameMismatch(BackgroundColor, palette, n, 0); }
      else if j == 16 { NameMismatch(TextColor, palette, n, 0); }
      else { NameMismatch(TextWrap, palette, n, 0); }
    }
  }

  /** `hidden` is `display: none`: no class after `display` produces that name. */
  lemma HiddenIsDisplayNone(palette: map<string, string>)
    ensures "hidden" in BaseClassMap(MainClasses, palette)
    ensures BaseClassMap(MainClasses, palette)["hidden"] == SingleDeclaration("display", "none", 0)
  {
    HiddenAt(palette);
    HiddenNotLater(palette);
    LaterAbsent(MainClasses, palette, 7, "hidden");
  }

  lemma HiddenAt(palette: map<string, string>)
    ensures 7 < |MainClasses| && "hidden" in Table(MainClasses[7], palette)
    ensures KeyFor(MainClasses[7], "hidden") == "hidden"
    ensures Entry(MainClasses[7], Table(MainClasses[7], palette)["hidden"]) == SingleDeclaration("display", "none", 0)
  {
    MainClassesAt();
  }

  lemma HiddenNotLater(palette: map<string, string>)
    ensures forall j :: 7 < j < |MainClasses| ==> "hidden" !in ProducedMap(MainClasses[j], palette)
  {
    var n := "hidden";
    MainClassesAt();
    forall j | 7 < j < |MainClasses| ensures n !in ProducedMap(MainClasses[j], palette) {
      if j == 8 { NameMismatch(Floats, palette, n, 0); }
      else if j == 9 { NameMismatch(Clear, palette, n, 0); }
      else if j == 10 { NotProduced(Isolation, palette, n); }
      else if j == 11 { NameMismatch(FlexBasis, palette, n, 0); }
      else if j == 12 { NameMismatch(FlexDirection, palette, n, 0); }
      else if j == 13 { NameMismatch(FlexWrap, palette, n, 0); }
      else if j == 14 { NameMismatch(Grow, palette, n, 0); }
      else if j == 15 { NameMismatch(BackgroundColor, palette, n, 0); }
      else if j == 16 { NameMismatch(TextColor, palette, n, 0); }
      else { NameMismatch(TextWrap, palette, n, 0); }
    }
  }

  /** `aspect-video` is the 16 / 9 aspect ratio: `aspectRatio` comes first in
      the registry, and no later class produces that name. */
  lemma AspectVideoIsSixteenNine(palette: map<string, string>)
    ensures "aspect-video" in BaseClassMap(MainClasses, palette)
    ensures BaseClassMap(MainClasses, palette)["aspect-video"] == SingleDeclaration("aspect-ratio", "16 / 9", AspectRatioOrder)
  {
    AspectVideoAt(palette);
    AspectVideoNotLater(palette);
    LaterAbsent(MainClasses, palette, 0, "video");
  }

  lemma AspectVideoAt(palette: map<string, string>)
    ensures 0 < |MainClasses| && "video" in Table(MainClasses[0], palette)
    ensures KeyFor(MainClasses[0], "video") == "aspect-video"
    ensures Entry(MainClasses[0], Table(MainClasses[0], palette)["video"]) == SingleDeclaration("aspect-ratio", "16 / 9", AspectRatioOrder)
  {
    MainClassesFirst();
  }

  lemma AspectVideoNotLater(palette: map<string, string>)
    ensures forall j :: 0 < j < |MainClasses| ==> "aspect-video" !in ProducedMap(MainClasses[j], palette)
  {
    AspectVideoNotBeforeDisplay(palette);
    AspectVideoNotDisplay(palette);
    AspectVideoNotAfterDisplay(palette);
  }

  lemma AspectVideoNotBeforeDisplay(palette: map<string, string>)
    ensures forall j :: 0 < j < 7 <= |MainClasses| ==> "aspect-video" !in ProducedMap(MainClasses[j], palette)
  {
    var n := "aspect-video";
    MainClassesFirst();
    forall j | 0 < j < 7 ensures n !in ProducedMap(MainClasses[j], palette) {
      if j == 1 { NameMismatch(Columns, palette, n, 0); }
      else if j == 2 { NameMismatch(BreakAfter, palette, n, 0); }
      else if j == 3 { NameMismatch(BreakBefore, palette, n, 0); }
      else if j == 4 { NameMismatch(BreakInside, palette, n, 0); }
      else if j == 5 { NameMismatch(BoxDecoration, palette, n, 0); }
      else { NameMismatch(BoxSizing, palette, n, 0); }
    }
  }

  lemma AspectVideoNotDisplay(palette: map<string, string>)
    ensures 7 < |MainClasses| && "aspect-video" !in ProducedMap(MainClasses[7], palette)
  {
    MainClassesLow();
    NotProduced(Display, palette, "aspect-video");
  }

  lemma AspectVideoNotAfterDisplay(palette: map<string, string>)
    ensures forall j :: 7 < j < |MainClasses| ==> "aspect-video" !in ProducedMap(MainClasses[j], palette)
  {
    var n := "aspect-video";
    MainClassesAt();
    forall j | 7 < j < |MainClasses| ensures n !in ProducedMap(MainClasses[j], palette) {
      if j == 8 { NameMismatch(Floats, palette, n, 0); }
      else if j == 9 { NameMismatch(Clear, palette, n, 0); }
      else if j == 10 { NotProduced(Isolation, palette, n); }
      else if j == 11 { NameMismatch(FlexBasis, palette, n, 0); }
      else if j == 12 { NameMismatch(FlexDirection, palette, n, 0); }
      else if j == 13 { NameMismatch(FlexWrap, palette, n, 0); }
      else if j == 14 { NameMismatch(Grow, palette, n, 0); }
      else if j == 15 { NameMismatch(BackgroundColor, palette, n, 0); }
      else if j == 16 { NameMismatch(TextColor, palette, n, 0); }
      else { NameMismatch(TextWrap, palette, n, 0); }
    }
  }
}
