/** Rendering of rules to CSS text as main.go does it: the escaped selector,
    one indented line per declaration, and nested, indented `@media` wrappers. */
module Render {
  import opened Rules
  import opened GoStrings

  /** The indentation unit. */
  const Indent := "  "

  /** Lines written one after another, each followed by a newline. */
  function Unlines(ls: seq<string>): string
    decreases |ls|
  {
    if ls == [] then "" else Unlines(ls[..|ls| - 1]) + ls[|ls| - 1] + "\n"
  }

  /** The newline-terminated lines of s: the pieces of `strings.Split(s, "\n")`
      without the last one, which is what follows the last newline. */
  function LinesOf(s: string): (r: seq<string>)
    ensures forall i :: 0 <= i < |r| ==> '\n' !in r[i]
  {
    var p := Split(s, '\n');
    p[..|p| - 1]
  }

  predicate NoNewline(ls: seq<string>) {
    forall i :: 0 <= i < |ls| ==> '\n' !in ls[i]
  }

  lemma {:induction false} UnlinesAppend(a: seq<string>, b: seq<string>)
    ensures Unlines(a + b) == Unlines(a) + Unlines(b)
    decreases |b|
  {
    if b == [] {
      assert a + b == a;
    } else {
      var b' := b[..|b| - 1];
      assert (a + b)[..|a + b| - 1] == a + b';
      UnlinesAppend(a, b');
    }
  }

  lemma UnlinesSingle(x: string)
    ensures Unlines([x]) == x + "\n"
  {
    assert [x][..0] == [];
  }

  lemma {:induction false} UnlinesAsJoin(ls: seq<string>)
    ensures Unlines(ls) == Join(ls + [[]], "\n")
    decreases |ls|
  {
    if ls != [] {
      UnlinesAppend([ls[0]], ls[1..]);
      assert [ls[0]] + ls[1..] == ls;
      UnlinesSingle(ls[0]);
      UnlinesAsJoin(ls[1..]);
      assert (ls + [[]])[1..] == ls[1..] + [[]];
    }
  }

  /** Reading the lines back from text made of lines gives the same lines. */
  lemma LinesOfUnlines(ls: seq<string>)
    requires NoNewline(ls)
    ensures LinesOf(Unlines(ls)) == ls
  {
    UnlinesAsJoin(ls);
    SplitJoin(ls + [[]], '\n');
  }

  /** Newline-terminated text is exactly the text of its lines. */
  lemma UnlinesLinesOf(s: string)
    requires s == [] || s[|s| - 1] == '\n'
    ensures Unlines(LinesOf(s)) == s
  {
    var p := Split(s, '\n');
    if s != [] {
      SplitTrailing(s, '\n');
      assert p == p[..|p| - 1] + [[]];
      UnlinesAsJoin(p[..|p| - 1]);
    }
  }

  // ---------------------------------------------------------------- selector

  function EscapeChar(ch: char): string {
    if ch == '[' || ch == ']' || ch == ':' then ['\\', ch] else [ch]
  }

  /** The selector text with `[`, `]` and `:` each preceded by a backslash, by
      three successive replacements as main.go does them. */
  function Escape(s: string): string {
    ReplaceAll(ReplaceAll(ReplaceAll(s, '[', "\\["), ']', "\\]"), ':', "\\:")
  }

  /** Escaping character by character. */
  function EscapeEach(s: string): string {
    if s == [] then "" else EscapeChar(s[0]) + EscapeEach(s[1..])
  }

  function Unescape(s: string): string {
    if s == [] then ""
    else if s[0] == '\\' && |s| >= 2 then [s[1]] + Unescape(s[2..])
    else [s[0]] + Unescape(s[1..])
  }

  /** The three replacements never touch each other's output, so together they
      escape each special byte once. */
  lemma {:induction false} EscapeIsCharwise(s: string)
    ensures Escape(s) == EscapeEach(s)
  {
    if s != [] {
      var c, t := s[..1], s[1..];
      assert s == c + t;
      var r1 := ReplaceAll(c, '[', "\\[");
      var r2 := ReplaceAll(r1, ']', "\\]");
      ReplaceAllAppend(c, t, '[', "\\[");
      ReplaceAllAppend(r1, ReplaceAll(t, '[', "\\["), ']', "\\]");
      ReplaceAllAppend(r2, ReplaceAll(ReplaceAll(t, '[', "\\["), ']', "\\]"), ':', "\\:");
      EscapeIsCharwise(t);
      EscapeOne(s[0]);
    }
  }

  /** The three replacements on one byte escape that byte. */
  lemma EscapeOne(ch: char)
    ensures Escape([ch]) == EscapeChar(ch)
  {
    var r1 := ReplaceAll([ch], '[', "\\[");
    assert r1 == if ch == '[' then "\\[" else [ch];
    var r2 := ReplaceAll(r1, ']', "\\]");
    if ch == '[' {
      assert r1 == ['\\'] + ['['];
      assert r2 == "\\[";
    } else {
      assert r2 == if ch == ']' then "\\]" else [ch];
    }
  }

  /** Unescaping undoes escaping for a selector without backslashes. */
  lemma {:induction false} UnescapeEscape(s: string)
    requires '\\' !in s
    ensures Unescape(Escape(s)) == s
  {
    EscapeIsCharwise(s);
    UnescapeEscapeEach(s);
  }

  lemma {:induction false} UnescapeEscapeEach(s: string)
    requires '\\' !in s
    ensures Unescape(EscapeEach(s)) == s
  {
    if s != [] {
      UnescapeEscapeEach(s[1..]);
      var e := EscapeEach(s);
      assert e == EscapeChar(s[0]) + EscapeEach(s[1..]);
      if s[0] == '[' || s[0] == ']' || s[0] == ':' {
        assert e[2..] == EscapeEach(s[1..]);
      } else {
        assert e[1..] == EscapeEach(s[1..]);
      }
      assert s == [s[0]] + s[1..];
    }
  }

  // ---------------------------------------------------------------- rules

  /** The first line of a rule: `.`, the escaped selector, the child combinator,
      the pseudo-classes and pseudo-elements, and ` {`. */
  function Header(c: Css): string {
    var pc := if |c.pseudoClasses| >= 1 then ":" + Join(c.pseudoClasses, ":") else "";
    var pe := if |c.pseudoElements| >= 1 then "::" + Join(c.pseudoElements, "::") else "";
    var cc := if c.childCombinator != "" then " " + c.childCombinator else "";
    "." + Escape(c.selector) + cc + pc + pe + " {"
  }

  function DeclarationLine(d: Declaration): string {
    Indent + d.property + ": " + d.value + ";"
  }

  function DeclarationLines(ds: seq<Declaration>): (r: seq<string>)
    ensures |r| == |ds|
    ensures forall i :: 0 <= i < |ds| ==> r[i] == DeclarationLine(ds[i])
  {
    seq(|ds|, i requires 0 <= i < |ds| => DeclarationLine(ds[i]))
  }

  /** The rule before media wrapping. */
  function Block(c: Css): string {
    Unlines([Header(c)] + DeclarationLines(c.declarations) + ["}"])
  }

  // ---------------------------------------------------------------- media

  function OpenerLines(ms: seq<string>): (r: seq<string>)
    ensures |r| == |ms|
  {
    seq(|ms|, i requires 0 <= i < |ms| => Repeat(Indent, i) + "@media (" + ms[i] + ") {")
  }

  function IndentLines(ls: seq<string>, n: nat): (r: seq<string>)
    ensures |r| == |ls|
  {
    seq(|ls|, i requires 0 <= i < |ls| => Repeat(Indent, n) + ls[i])
  }

  function CloserLines(k: nat): (r: seq<string>)
    ensures |r| == k
  {
    seq(k, i requires 0 <= i < k => Repeat(Indent, k - i - 1) + "}")
  }

  /** The lines of `wrapInMedias(ms, s)`, for the lines ls of s. */
  function WrapLines(ms: seq<string>, ls: seq<string>): seq<string> {
    OpenerLines(ms) + IndentLines(ls, |ms|) + CloserLines(|ms|)
  }

  /** What `wrapInMedias(ms, s)` returns. */
  function Wrapped(ms: seq<string>, s: string): string {
    Unlines(WrapLines(ms, LinesOf(s)))
  }

  /** Every newline-terminated line of t, indented by n levels. */
  function Indented(t: string, n: nat): string {
    Unlines(IndentLines(LinesOf(t), n))
  }

  /** What `CSS.String` returns. */
  function RenderRule(c: Css): string {
    Wrapped(c.mediaQueries, Block(c))
  }

  /** Texts written one after another. */
  function Concat(ts: seq<string>): string
    decreases |ts|
  {
    if ts == [] then "" else Concat(ts[..|ts| - 1]) + ts[|ts| - 1]
  }

  lemma {:induction false} ConcatAppend(a: seq<string>, b: seq<string>)
    ensures Concat(a + b) == Concat(a) + Concat(b)
    decreases |b|
  {
    if b == [] {
      assert a + b == a;
    } else {
      var b' := b[..|b| - 1];
      assert (a + b)[..|a + b| - 1] == a + b';
      ConcatAppend(a, b');
    }
  }

  /** The text of each rule. */
  function Texts(cs: seq<OrderedCss>): (r: seq<string>)
    ensures |r| == |cs|
    ensures forall i :: 0 <= i < |cs| ==> r[i] == RenderRule(cs[i].css)
  {
    seq(|cs|, i requires 0 <= i < |cs| => RenderRule(cs[i].css))
  }

  /** What `OrderedCSSArrToString` returns. */
  function RenderAll(cs: seq<OrderedCss>): string {
    Concat(Texts(cs))
  }

  /** With no conditions, newline-terminated text comes back unchanged. */
  lemma WrapNoMedia(s: string)
    requires s == [] || s[|s| - 1] == '\n'
    ensures Wrapped([], s) == s
  {
    var ls := LinesOf(s);
    assert Repeat(Indent, 0) == "";
    forall i | 0 <= i < |ls| ensures IndentLines(ls, 0)[i] == ls[i] {
      assert "" + ls[i] == ls[i];
    }
    assert IndentLines(ls, 0) == ls;
    assert WrapLines([], ls) == ls;
    UnlinesLinesOf(s);
  }

  lemma WrapLinesNoNewline(ms: seq<string>, ls: seq<string>)
    requires NoNewline(ms) && NoNewline(ls)
    ensures NoNewline(WrapLines(ms, ls))
  {
    var w := WrapLines(ms, ls);
    forall i | 0 <= i < |w| ensures '\n' !in w[i] {
      var k := |ms|;
      if i < k {
        assert w[i] == Repeat(Indent, i) + "@media (" + ms[i] + ") {";
        NoNewlineRepeat(i);
      } else if i < k + |ls| {
        assert w[i] == Repeat(Indent, k) + ls[i - k];
        NoNewlineRepeat(k);
      } else {
        assert w[i] == Repeat(Indent, k - (i - k - |ls|) - 1) + "}";
        NoNewlineRepeat(k - (i - k - |ls|) - 1);
      }
    }
  }

  lemma {:induction false} NoNewlineRepeat(n: nat)
    ensures '\n' !in Repeat(Indent, n)
  {
    if n > 0 {
      NoNewlineRepeat(n - 1);
    }
  }

  /** Line i of a wrapper: an opener, an indented body line or a closer. */
  lemma WrapLinesAt(ms: seq<string>, ls: seq<string>, i: nat)
    requires i < |WrapLines(ms, ls)|
    ensures i < |ms| ==> WrapLines(ms, ls)[i] == Repeat(Indent, i) + "@media (" + ms[i] + ") {"
    ensures |ms| <= i < |ms| + |ls| ==> WrapLines(ms, ls)[i] == Repeat(Indent, |ms|) + ls[i - |ms|]
    ensures |ms| + |ls| <= i ==> WrapLines(ms, ls)[i] == Repeat(Indent, 2 * |ms| + |ls| - i - 1) + "}"
  {
  }

  lemma IndentOnce(n: nat, x: string)
    ensures Indent + (Repeat(Indent, n) + x) == Repeat(Indent, n + 1) + x
  {
  }

  lemma NestRhsAt(head: string, inner: seq<string>, i: nat)
    requires i < |inner| + 2
    ensures i == 0 ==> ([head] + IndentLines(inner, 1) + ["}"])[i] == head
    ensures 0 < i <= |inner| ==> ([head] + IndentLines(inner, 1) + ["}"])[i] == Indent + inner[i - 1]
    ensures i == |inner| + 1 ==> ([head] + IndentLines(inner, 1) + ["}"])[i] == "}"
  {
    if 0 < i <= |inner| {
      assert Repeat(Indent, 1) == Indent;
    }
  }

  lemma NestLine(m: string, ms: seq<string>, ls: seq<string>, i: nat)
    requires i < |ms| + 1 + |ls| + |ms| + 1
    ensures WrapLines([m] + ms, ls)[i]
         == (["@media (" + m + ") {"] + IndentLines(WrapLines(ms, ls), 1) + ["}"])[i]
  {
    var k := |ms|;
    NestRhsAt("@media (" + m + ") {", WrapLines(ms, ls), i);
    if i == 0 {
      WrapLinesAt([m] + ms, ls, i);
      assert Repeat(Indent, 0) + "@media (" + m + ") {" == "@media (" + m + ") {";
    } else if i <= k {
      NestOpener(m, ms, ls, i);
    } else if i <= k + |ls| {
      NestBody(m, ms, ls, i);
    } else if i <= 2 * k + |ls| {
      NestCloser(m, ms, ls, i);
    } else {
      WrapLinesAt([m] + ms, ls, i);
      assert Repeat(Indent, 0) + "}" == "}";
    }
  }

  lemma NestOpener(m: string, ms: seq<string>, ls: seq<string>, i: nat)
    requires 0 < i <= |ms|
    ensures WrapLines([m] + ms, ls)[i] == Indent + WrapLines(ms, ls)[i - 1]
  {
    WrapLinesAt([m] + ms, ls, i);
    WrapLinesAt(ms, ls, i - 1);
    assert ([m] + ms)[i] == ms[i - 1];
    IndentOnce(i - 1, "@media (" + ms[i - 1] + ") {");
  }

  lemma NestBody(m: string, ms: seq<string>, ls: seq<string>, i: nat)
    requires |ms| < i <= |ms| + |ls|
    ensures WrapLines([m] + ms, ls)[i] == Indent + WrapLines(ms, ls)[i - 1]
  {
    WrapLinesAt([m] + ms, ls, i);
    WrapLinesAt(ms, ls, i - 1);
    IndentOnce(|ms|, ls[i - 1 - |ms|]);
  }

  lemma NestCloser(m: string, ms: seq<string>, ls: seq<string>, i: nat)
    requires |ms| + |ls| < i <= 2 * |ms| + |ls|
    ensures WrapLines([m] + ms, ls)[i] == Indent + WrapLines(ms, ls)[i - 1]
  {
    WrapLinesAt([m] + ms, ls, i);
    WrapLinesAt(ms, ls, i - 1);
    IndentOnce(2 * |ms| + |ls| - i, "}");
  }

  /** The nesting of wrappers, line by line. */
  lemma WrapLinesNest(m: string, ms: seq<string>, ls: seq<string>)
    ensures WrapLines([m] + ms, ls)
         == ["@media (" + m + ") {"] + IndentLines(WrapLines(ms, ls), 1) + ["}"]
  {
    var outer := WrapLines([m] + ms, ls);
    var rhs := ["@media (" + m + ") {"] + IndentLines(WrapLines(ms, ls), 1) + ["}"];
    assert |outer| == |rhs|;
    forall i | 0 <= i < |outer| ensures outer[i] == rhs[i] {
      NestLine(m, ms, ls, i);
    }
  }

  /** Wrapping in [m] + ms is wrapping in ms, indented one level, inside one
      `@media (m)` block: the first condition is the outermost and every level
      adds one indentation unit. */
  lemma WrapNests(m: string, ms: seq<string>, s: string)
    requires '\n' !in m && NoNewline(ms)
    ensures Wrapped([m] + ms, s) == "@media (" + m + ") {\n" + Indented(Wrapped(ms, s), 1) + "}\n"
  {
    var ls := LinesOf(s);
    WrapLinesNoNewline(ms, ls);
    LinesOfUnlines(WrapLines(ms, ls));
    WrapLinesNest(m, ms, ls);
    var head := "@media (" + m + ") {";
    var mid := IndentLines(WrapLines(ms, ls), 1);
    UnlinesAppend([head] + mid, ["}"]);
    UnlinesAppend([head], mid);
    UnlinesSingle(head);
    UnlinesSingle("}");
  }

  /** A rule without media conditions renders as its block alone. */
  lemma RenderWithoutMedia(c: Css)
    requires c.mediaQueries == []
    ensures RenderRule(c) == Block(c)
  {
    var ls := [Header(c)] + DeclarationLines(c.declarations) + ["}"];
    var b := Block(c);
    assert ls == ls[..|ls| - 1] + ["}"];
    assert b == Unlines(ls[..|ls| - 1]) + "}" + "\n";
    WrapNoMedia(b);
  }

  /** The first media condition of a rule is its outermost wrapper. */
  lemma RenderNests(c: Css, m: string)
    requires '\n' !in m && NoNewline(c.mediaQueries)
    ensures RenderRule(c.(mediaQueries := [m] + c.mediaQueries))
         == "@media (" + m + ") {\n" + Indented(RenderRule(c), 1) + "}\n"
  {
    assert Block(c.(mediaQueries := [m] + c.mediaQueries)) == Block(c);
    WrapNests(m, c.mediaQueries, Block(c));
  }

  /** A rule's block is the header line, one line per declaration in order, and `}`. */
  lemma BlockLines(c: Css)
    requires '\n' !in Header(c)
    requires forall i :: 0 <= i < |c.declarations| ==> '\n' !in DeclarationLine(c.declarations[i])
    ensures LinesOf(Block(c)) == [Header(c)] + DeclarationLines(c.declarations) + ["}"]
  {
    LinesOfUnlines([Header(c)] + DeclarationLines(c.declarations) + ["}"]);
  }

  /** Rendering a concatenation renders the two parts one after the other. */
  lemma RenderAllAppend(a: seq<OrderedCss>, b: seq<OrderedCss>)
    ensures RenderAll(a + b) == RenderAll(a) + RenderAll(b)
  {
    assert Texts(a + b) == Texts(a) + Texts(b) by {
      forall i | 0 <= i < |a + b| ensures Texts(a + b)[i] == (Texts(a) + Texts(b))[i] {
        if i < |a| {
          assert (a + b)[i] == a[i];
        } else {
          assert (a + b)[i] == b[i - |a|];
        }
      }
    }
    ConcatAppend(Texts(a), Texts(b));
  }

  // ---------------------------------------------------------------- methods

  lemma UnlinesStep(ls: seq<string>, i: nat)
    requires i < |ls|
    ensures Unlines(ls[..i + 1]) == Unlines(ls[..i]) + ls[i] + "\n"
  {
    assert ls[..i + 1][..i] == ls[..i];
  }

  lemma OpenerStep(ms: seq<string>, i: nat, out: string)
    requires i < |ms| && out == Unlines(OpenerLines(ms)[..i])
    ensures out + (Repeat(Indent, i) + "@media (" + ms[i] + ") {\n") == Unlines(OpenerLines(ms)[..i + 1])
  {
    UnlinesStep(OpenerLines(ms), i);
  }

  lemma BodyStep(ls: seq<string>, k: nat, i: nat, out: string, before: string)
    requires i < |ls| && out == before + Unlines(IndentLines(ls, k)[..i])
    ensures out + (Repeat(Indent, k) + ls[i]) + "\n" == before + Unlines(IndentLines(ls, k)[..i + 1])
  {
    UnlinesStep(IndentLines(ls, k), i);
  }

  lemma CloserStep(k: nat, i: nat, out: string, before: string)
    requires i < k && out == before + Unlines(CloserLines(k)[..i])
    ensures out + (Repeat(Indent, k - i - 1) + "}\n") == before + Unlines(CloserLines(k)[..i + 1])
  {
    UnlinesStep(CloserLines(k), i);
  }

  /** The wrapped text is the openers, then the indented lines, then the closers. */
  lemma WrappedParts(ms: seq<string>, s: string)
    ensures Wrapped(ms, s)
         == Unlines(OpenerLines(ms)) + Unlines(IndentLines(LinesOf(s), |ms|)) + Unlines(CloserLines(|ms|))
  {
    UnlinesAppend(OpenerLines(ms), IndentLines(LinesOf(s), |ms|));
    UnlinesAppend(OpenerLines(ms) + IndentLines(LinesOf(s), |ms|), CloserLines(|ms|));
  }

  /** `wrapInMedias`: openers, the indented body lines, closers. */
  method WrapInMedias(ms: seq<string>, s: string) returns (out: string)
    ensures out == Wrapped(ms, s)
  {
    out := "";
    for i := 0 to |ms|
      invariant out == Unlines(OpenerLines(ms)[..i])
    {
      OpenerStep(ms, i, out);
      out := out + (Repeat(Indent, i) + "@media (" + ms[i] + ") {\n");
    }
    assert OpenerLines(ms)[..|ms|] == OpenerLines(ms);
    var openers := out;
    var lines := Split(s, '\n');
    ghost var body := lines[..|lines| - 1];
    for i := 0 to |lines| - 1
      invariant out == openers + Unlines(IndentLines(body, |ms|)[..i])
    {
      BodyStep(body, |ms|, i, out, openers);
      out := out + (Repeat(Indent, |ms|) + lines[i]);
      if i < |lines| - 1 {
        out := out + "\n";
      }
    }
    assert IndentLines(body, |ms|)[..|body|] == IndentLines(body, |ms|);
    var middle := out;
    for i := 0 to |ms|
      invariant out == middle + Unlines(CloserLines(|ms|)[..i])
    {
      CloserStep(|ms|, i, out, middle);
      out := out + (Repeat(Indent, |ms| - i - 1) + "}\n");
    }
    assert CloserLines(|ms|)[..|ms|] == CloserLines(|ms|);
    WrappedParts(ms, s);
  }

  lemma DeclarationStep(h: string, ds: seq<Declaration>, i: nat, b: string)
    requires i < |ds| && b == Unlines(([h] + DeclarationLines(ds))[..i + 1])
    ensures b + (Indent + ds[i].property + ": " + ds[i].value + ";\n")
         == Unlines(([h] + DeclarationLines(ds))[..i + 2])
  {
    UnlinesStep([h] + DeclarationLines(ds), i + 1);
  }

  /** The header line built by `CSS.String` is `Header`. */
  lemma HeaderText(c: Css, selector: string, cc: string, pc: string, pe: string)
    requires selector == "." + ReplaceAll(ReplaceAll(ReplaceAll(c.selector, '[', "\\["), ']', "\\]"), ':', "\\:")
    requires cc == (if c.childCombinator != "" then " " + c.childCombinator else "")
    requires pc == (if |c.pseudoClasses| >= 1 then ":" + Join(c.pseudoClasses, ":") else "")
    requires pe == (if |c.pseudoElements| >= 1 then "::" + Join(c.pseudoElements, "::") else "")
    ensures selector + cc + pc + pe + " {" == Header(c)
  {
  }

  lemma BlockFinish(c: Css, b: string)
    requires b == Unlines([Header(c)] + DeclarationLines(c.declarations))
    ensures b + "}\n" == Block(c)
  {
    UnlinesAppend([Header(c)] + DeclarationLines(c.declarations), ["}"]);
    UnlinesSingle("}");
  }

  /** `CSS.String`: the header line, one line per declaration, `}`, then the media wrappers. */
  method CssString(c: Css) returns (s: string)
    ensures s == RenderRule(c)
  {
    var pc := "";
    if |c.pseudoClasses| >= 1 {
      pc := ":" + Join(c.pseudoClasses, ":");
    }
    var pe := "";
    if |c.pseudoElements| >= 1 {
      pe := "::" + Join(c.pseudoElements, "::");
    }
    var selector := ReplaceAll(c.selector, '[', "\\[");
    selector := ReplaceAll(selector, ']', "\\]");
    selector := "." + ReplaceAll(selector, ':', "\\:");
    var cc := "";
    if c.childCombinator != "" {
      cc := " " + c.childCombinator;
    }
    HeaderText(c, selector, cc, pc, pe);
    var h := selector + cc + pc + pe + " {";
    UnlinesSingle(h);
    var b := h + "\n";
    ghost var ls := [Header(c)] + DeclarationLines(c.declarations);
    assert ls[..1] == [Header(c)];
    for i := 0 to |c.declarations|
      invariant b == Unlines(ls[..i + 1])
    {
      DeclarationStep(Header(c), c.declarations, i, b);
      b := b + (Indent + c.declarations[i].property + ": " + c.declarations[i].value + ";\n");
    }
    assert ls[..|c.declarations| + 1] == ls;
    BlockFinish(c, b);
    b := b + "}\n";
    s := WrapInMedias(c.mediaQueries, b);
  }

  lemma RenderStep(cs: seq<OrderedCss>, i: nat, s: string, one: string)
    requires i < |cs| && s == Concat(Texts(cs)[..i]) && one == RenderRule(cs[i].css)
    ensures s + one == Concat(Texts(cs)[..i + 1])
  {
    assert Texts(cs)[..i + 1][..i] == Texts(cs)[..i];
  }

  /** `OrderedCSSArrToString`: the rendered rules one after another. */
  method OrderedCssArrToString(cs: seq<OrderedCss>) returns (s: string)
    ensures s == RenderAll(cs)
  {
    s := "";
    for i := 0 to |cs|
      invariant s == Concat(Texts(cs)[..i])
    {
      var one := CssString(cs[i].css);
      RenderStep(cs, i, s, one);
      s := s + one;
    }
    assert Texts(cs)[..|cs|] == Texts(cs);
  }
}
