/** The base classes of baseClass.go, the revision `css.go` reads: the same
    class kinds, maps and arbitrary-value constructors as main.go's, but a
    shorter registry of sixteen producers, all orders 0 but `columns`'s 100,
    and an arbitrary registry without the passthrough class. */
module BaseClassV1 {
  import opened Rules
  import B = BaseClasses
  import Util

  /** The `100 * iota` order constants. */
  const AspectRatioOrder := 0
  const ColumnsOrder := 100

  const Grow := B.ArbitraryValueKeyword("grow", "flex-grow", B.GrowDefaults, 0)
  const AspectRatio := B.ArbitraryValueKeyword("aspect", "aspect-ratio", B.AspectDefaults, AspectRatioOrder)
  const Columns := B.ArbitraryValueKeyword("columns", "columns", B.ColumnsDefaults, ColumnsOrder)
  const BreakAfter := B.Keyword("break-after", "break-after", B.BreakAfterValues, 0)
  const BreakBefore := B.Keyword("break-before", "break-before", B.BreakBeforeValues, 0)
  const BreakInside := B.Keyword("break-inside", "break-inside", B.BreakInsideValues, 0)
  const BoxDecoration := B.Keyword("box-decoration", "box-decoration-break", B.BoxDecorationValues, 0)
  const BoxSizing := B.Keyword("box", "box-sizing", B.BoxSizingValues, 0)
  const Floats := B.Keyword("float", "float", B.FloatValues, 0)
  const Clear := B.Keyword("float", "float", B.ClearValues, 0)
  const TextWrap := B.Keyword("text", "text-wrap", B.TextWrapValues, 0)
  const Display := B.RandomKeyword(B.DisplayKeywords, "display", 0)
  const Isolation := B.RandomKeyword(B.IsolationKeywords, "isolation", 0)
  const FlexBasis := B.Numerical("basis", "flex-basis", B.BasisKeywords, 0)
  const BackgroundColor := B.Color("bg", "background-color", 0)
  const TextColor := B.Color("text", "color", 0)

  /** The producers in the order `MakeBaseClasses` lists them. */
  const Classes: seq<B.BaseClass> := [
    AspectRatio, Columns, BreakAfter, BreakBefore, BreakInside, BoxDecoration, BoxSizing,
    Display, Floats, Clear, Isolation, FlexBasis, Grow, BackgroundColor, TextColor, TextWrap]

  /** The registry of base classes for a color palette. */
  function BaseClassMap(palette: map<string, string>): map<string, OrderedCss> {
    B.BaseClassMap(Classes, palette)
  }

  /** `MakeBaseClasses`: the sixteen producers' maps, merged left to right. */
  method MakeBaseClasses(palette: map<string, string>) returns (m: map<string, OrderedCss>)
    ensures m == Util.Merge(B.ProducedMaps(Classes, palette))
  {
    m := B.MakeBaseClasses(Classes, palette);
  }

  /** `baseClassesArbitrary`: the classes that take `[value]` text, by base name. */
  const Arbitrary: map<string, B.ArbitraryClass> := map[
    "aspect" := B.Of(AspectRatio), "columns" := B.Of(Columns), "basis" := B.Of(FlexBasis),
    "grow" := B.Of(Grow), "bg" := B.Of(BackgroundColor), "text" := B.Of(TextColor)]

  /** Every entry of the arbitrary registry is keyed by the class's own base
      name and makes one declaration of the text verbatim; an empty base name
      takes no arbitrary value. */
  lemma ArbitraryKeys(k: string, v: string)
    requires k in Arbitrary
    ensures B.BaseForArbitraryValue(Arbitrary[k]) == k
    ensures Arbitrary[k].Of? && B.ArbitraryValue(Arbitrary[k], v).css.declarations == [Declaration(Arbitrary[k].b.property, v)]
    ensures k != ""
  {
  }

  /** Every rule of the registry has one declaration, and order 100 exactly
      when the `columns` producer makes its name, order 0 otherwise. */
  lemma RegistryOrders(palette: map<string, string>, n: string)
    requires n in BaseClassMap(palette)
    ensures |BaseClassMap(palette)[n].css.declarations| == 1
    ensures BaseClassMap(palette)[n].order == 0 || BaseClassMap(palette)[n].order == ColumnsOrder
    ensures BaseClassMap(palette)[n].order == ColumnsOrder <==> n in B.ProducedMap(Classes[1], palette)
  {
    var i := Producer(palette, n);
    ClassOrders(i);
    if n in B.ProducedMap(Classes[1], palette) {
      ColumnsWins(palette, n);
    }
  }

  /** The producer a registry rule comes from: one declaration, at that
      producer's order. */
  lemma Producer(palette: map<string, string>, n: string) returns (i: nat)
    requires n in BaseClassMap(palette)
    ensures i < |Classes| && n in B.ProducedMap(Classes[i], palette)
    ensures |BaseClassMap(palette)[n].css.declarations| == 1
    ensures BaseClassMap(palette)[n].order == Classes[i].order
  {
    var ms := B.ProducedMaps(Classes, palette);
    Util.MergeFrom(ms, n);
    i :| 0 <= i < |ms| && n in ms[i] && BaseClassMap(palette)[n] == ms[i][n];
    var b := Classes[i];
    var t := B.Table(b, palette);
    var k :| k in t.Keys && B.KeyFor(b, k) == n;
    assert ms[i][n] == B.Entry(b, t[k]);
  }

  /** A name the `columns` producer makes keeps its `columns` rule. */
  lemma ColumnsWins(palette: map<string, string>, n: string)
    requires n in B.ProducedMap(Classes[1], palette)
    ensures n in BaseClassMap(palette) && BaseClassMap(palette)[n].order == ColumnsOrder
  {
    ColumnsShape();
    var b := Classes[1];
    var k :| k in B.Table(b, palette).Keys && B.KeyFor(b, k) == n;
    KeyPrefix(b, k);
    ColumnsNotLater(palette, n);
    B.LaterAbsent(Classes, palette, 1, k);
  }

  lemma ColumnsShape()
    ensures |Classes| == 16 && Classes[1].ArbitraryValueKeyword?
    ensures Classes[1].name == "columns" && Classes[1].order == ColumnsOrder
  {
    ClassesFirst();
  }

  /** The names an arbitrary-value class makes begin with its own name. */
  lemma KeyPrefix(b: B.BaseClass, k: string)
    requires b.ArbitraryValueKeyword? && |b.name| >= 3
    ensures |B.KeyFor(b, k)| >= 3 && B.KeyFor(b, k)[..3] == b.name[..3]
  {
    if k != "" {
      assert B.KeyFor(b, k) == b.name + ("-" + k);
    }
  }

  /** No producer after `columns` makes a name starting `col`. */
  lemma ColumnsNotLater(palette: map<string, string>, n: string)
    requires |n| >= 3 && n[..3] == "columns"[..3]
    ensures forall j :: 1 < j < |Classes| ==> n !in B.ProducedMap(Classes[j], palette)
  {
    assert n[0] == 'c' && n[2] == 'l' by { assert n[..3][0] == n[0] && n[..3][2] == n[2]; }
    ClassesFirst();
    ClassesAt();
    forall j | 1 < j < |Classes| ensures n !in B.ProducedMap(Classes[j], palette) {
      if j == 2 { B.NameMismatch(BreakAfter, palette, n, 0); }
      else if j == 3 { B.NameMismatch(BreakBefore, palette, n, 0); }
      else if j == 4 { B.NameMismatch(BreakInside, palette, n, 0); }
      else if j == 5 { B.NameMismatch(BoxDecoration, palette, n, 0); }
      else if j == 6 { B.NameMismatch(BoxSizing, palette, n, 0); }
      else if j == 7 { DisplayNotCol(palette, n); }
      else if j == 8 { B.NameMismatch(Floats, palette, n, 0); }
      else if j == 9 { B.NameMismatch(Clear, palette, n, 0); }
      else if j == 10 { IsolationNotCol(palette, n); }
      else if j == 11 { B.NameMismatch(FlexBasis, palette, n, 0); }
      else if j == 12 { B.NameMismatch(Grow, palette, n, 0); }
      else if j == 13 { B.NameMismatch(BackgroundColor, palette, n, 0); }
      else if j == 14 { B.NameMismatch(TextColor, palette, n, 0); }
      else { B.NameMismatch(TextWrap, palette, n, 0); }
    }
  }

  lemma DisplayNotCol(palette: map<string, string>, n: string)
    requires |n| >= 3 && n[0] == 'c' && n[2] == 'l'
    ensures n !in B.ProducedMap(Display, palette)
  {
    forall k | k in B.DisplayKeywords ensures B.KeyFor(Display, k) != n {
      assert |k| >= 3 && (k[0] != 'c' || k[2] != 'l');
    }
    B.NotProduced(Display, palette, n);
  }

  lemma IsolationNotCol(palette: map<string, string>, n: string)
    requires |n| >= 1 && n[0] == 'c'
    ensures n !in B.ProducedMap(Isolation, palette)
  {
    forall k | k in B.IsolationKeywords ensures B.KeyFor(Isolation, k) != n {
      assert k[0] == 'i';
    }
    B.NotProduced(Isolation, palette, n);
  }

  /** Only `columns` has a non-zero order. */
  lemma ClassOrders(i: nat)
    requires i < |Classes|
    ensures Classes[i].order == if i == 1 then ColumnsOrder else 0
  {
    ClassesFirst();
    ClassesAt();
  }

  lemma ClassesFirst()
    ensures |Classes| == 16
    ensures Classes[0] == AspectRatio && Classes[1] == Columns && Classes[2] == BreakAfter
    ensures Classes[3] == BreakBefore && Classes[4] == BreakInside
    ensures Classes[5] == BoxDecoration && Classes[6] == BoxSizing
  {
  }

  lemma ClassesAt()
    ensures |Classes| == 16
    ensures Classes[7] == Display && Classes[8] == Floats && Classes[9] == Clear
    ensures Classes[10] == Isolation && Classes[11] == FlexBasis && Classes[12] == Grow
    ensures Classes[13] == BackgroundColor && Classes[14] == TextColor && Classes[15] == TextWrap
  {
  }

  lemma FloatBothAt(palette: map<string, string>)
    ensures 9 < |Classes| && "both" in B.Table(Classes[9], palette)
    ensures B.KeyFor(Classes[9], "both") == "float-both"
    ensures B.Entry(Classes[9], B.Table(Classes[9], palette)["both"]) == SingleDeclaration("float", "both", 0)
  {
    ClassesAt();
  }

  lemma FloatLeftAt(palette: map<string, string>)
    ensures 9 < |Classes| && "left" in B.Table(Classes[9], palette)
    ensures B.KeyFor(Classes[9], "left") == "float-left"
    ensures B.Entry(Classes[9], B.Table(Classes[9], palette)["left"]) == SingleDeclaration("float", "left", 0)
  {
    ClassesAt();
  }

  /** No class after `clear` produces a name starting `fl`. */
  lemma FloatNotLater(palette: map<string, string>, n: string)
    requires |n| >= 2 && n[0] == 'f' && n[1] == 'l'
    ensures forall j :: 9 < j < |Classes| ==> n !in B.ProducedMap(Classes[j], palette)
  {
    ClassesAt();
    forall j | 9 < j < |Classes| ensures n !in B.ProducedMap(Classes[j], palette) {
      if j == 10 { B.NotProduced(Isolation, palette, n); }
      else if j == 11 { B.NameMismatch(FlexBasis, palette, n, 0); }
      else if j == 12 { B.NameMismatch(Grow, palette, n, 0); }
      else if j == 13 { B.NameMismatch(BackgroundColor, palette, n, 0); }
      else if j == 14 { B.NameMismatch(TextColor, palette, n, 0); }
      else { B.NameMismatch(TextWrap, palette, n, 0); }
    }
  }

  /** `clear` comes after `floats` and has the same name, so `float-both`,
      which only `clear` defines, exists. */
  lemma ClearAddsBoth(palette: map<string, string>)
    ensures "float-both" in BaseClassMap(palette)
    ensures BaseClassMap(palette)["float-both"] == SingleDeclaration("float", "both", 0)
  {
    FloatBothAt(palette);
    FloatNotLater(palette, "float-both");
    B.LaterAbsent(Classes, palette, 9, "both");
  }

  /** `float-left`, which both float classes define, is `clear`'s rule. */
  lemma ClearOverridesFloats(palette: map<string, string>)
    ensures "float-left" in BaseClassMap(palette)
    ensures BaseClassMap(palette)["float-left"] == SingleDeclaration("float", "left", 0)
  {
    FloatLeftAt(palette);
    FloatNotLater(palette, "float-left");
    B.LaterAbsent(Classes, palette, 9, "left");
  }

  lemma TextWrapAt(palette: map<string, string>)
    ensures 15 < |Classes| && "wrap" in B.Table(Classes[15], palette)
    ensures B.KeyFor(Classes[15], "wrap") == "text-wrap"
    ensures B.Entry(Classes[15], B.Table(Classes[15], palette)["wrap"]) == SingleDeclaration("text-wrap", "wrap", 0)
  {
    ClassesAt();
  }

  /** `text-wrap` is the text-wrap keyword whatever colors the palette holds:
      `textWrap` is the last producer, after `textColor`. */
  lemma TextWrapWins(palette: map<string, string>)
    ensures "text-wrap" in BaseClassMap(palette)
    ensures BaseClassMap(palette)["text-wrap"] == SingleDeclaration("text-wrap", "wrap", 0)
  {
    TextWrapAt(palette);
    B.LaterAbsent(Classes, palette, 15, "wrap");
  }

  lemma HiddenAt(palette: map<string, string>)
    ensures 7 < |Classes| && "hidden" in B.Table(Classes[7], palette)
    ensures B.KeyFor(Classes[7], "hidden") == "hidden"
    ensures B.Entry(Classes[7], B.Table(Classes[7], palette)["hidden"]) == SingleDeclaration("display", "none", 0)
  {
    ClassesAt();
  }

  lemma HiddenNotLater(palette: map<string, string>)
    ensures forall j :: 7 < j < |Classes| ==> "hidden" !in B.ProducedMap(Classes[j], palette)
  {
    var n := "hidden";
    ClassesAt();
    forall j | 7 < j < |Classes| ensures n !in B.ProducedMap(Classes[j], palette) {
      if j == 8 { B.NameMismatch(Floats, palette, n, 0); }
      else if j == 9 { B.NameMismatch(Clear, palette, n, 0); }
      else if j == 10 { B.NotProduced(Isolation, palette, n); }
      else if j == 11 { B.NameMismatch(FlexBasis, palette, n, 0); }
      else if j == 12 { B.NameMismatch(Grow, palette, n, 0); }
      else if j == 13 { B.NameMismatch(BackgroundColor, palette, n, 0); }
      else if j == 14 { B.NameMismatch(TextColor, palette, n, 0); }
      else { B.NameMismatch(TextWrap, palette, n, 0); }
    }
  }

  /** `hidden` is `display: none`: no class after `display` produces that name. */
  lemma HiddenIsDisplayNone(palette: map<string, string>)
    ensures "hidden" in BaseClassMap(palette)
    ensures BaseClassMap(palette)["hidden"] == SingleDeclaration("display", "none", 0)
  {
    HiddenAt(palette);
    HiddenNotLater(palette);
    B.LaterAbsent(Classes, palette, 7, "hidden");
  }
}
