/** engine.go, the earlier compiler: a token parser without slash modifiers
    that rejects any stray byte after `]`, its own token delimiters (the
    single quote among them), and the same variant fold as main.go over
    variants whose `convert` takes the arbitrary text and the rule. */
module EngineV1 {
  import opened Rules
  import opened Wrappers
  import opened ByteReader
  import Tokenizer
  import Compiler
  import BaseClasses
  import Fold

  /** A variant's `convert(arbitraryText, css)`. */
  type Transform = (string, Css) -> seq<Css>

  /** A parsed part; engine.go's parts have no slash text, so it is always empty. */
  type Part = Tokenizer.Part
  type ClassInfo = Tokenizer.ClassInfo

  // ---------------------------------------------------------------- tokens

  /** The bytes that end a token: main.go's, and the single quote. */
  predicate IsDelimiter(b: char) {
    b == ' ' || b == '\n' || b == '\t' || b == '\'' || b == '\"' || b == '`'
  }

  /** The token at the start of s: the longest prefix without a delimiter. */
  function Token(s: string): (t: string)
    ensures forall i :: 0 <= i < |t| ==> !IsDelimiter(t[i])
    ensures t <= s
    ensures |t| < |s| ==> IsDelimiter(s[|t|])
  {
    if s == [] || IsDelimiter(s[0]) then "" else [s[0]] + Token(s[1..])
  }

  /** What is left once the token and the delimiter after it are read. */
  function AfterToken(s: string): (r: string)
    ensures |Token(s)| < |s| ==> r == s[|Token(s)| + 1..]
    ensures |Token(s)| == |s| ==> r == []
  {
    if s == [] then [] else if IsDelimiter(s[0]) then s[1..] else AfterToken(s[1..])
  }

  lemma {:induction false} TokenOf(t: string, d: char, rest: string)
    requires forall i :: 0 <= i < |t| ==> !IsDelimiter(t[i])
    requires IsDelimiter(d)
    ensures Token(t + [d] + rest) == t && AfterToken(t + [d] + rest) == rest
    decreases |t|
  {
    if t != [] {
      assert (t + [d] + rest)[1..] == t[1..] + [d] + rest;
      TokenOf(t[1..], d, rest);
    }
  }

  // ---------------------------------------------------------------- parts

  /** `parsestr` once the bytes `name` of the pending name are collected and the
      variants vs are parsed, on the unread input s. */
  function ParseFrom(name: string, vs: seq<Part>, s: string): Option<ClassInfo>
    decreases |s|
  {
    if s == [] then
      if name == [] then None else Some(Tokenizer.ClassInfo(vs, Tokenizer.Part(name, "", "")))
    else if s[0] == '[' then
      match Tokenizer.ScanArbitrary(s[1..])
      case None => None
      case Some(sc) =>
        var n := Tokenizer.DropLast(name);
        if sc.rest == [] then Some(Tokenizer.ClassInfo(vs, Tokenizer.Part(n, sc.text, "")))
        else if sc.rest[0] == ':' then ParseFrom("", vs + [Tokenizer.Part(n, sc.text, "")], sc.rest[1..])
        else None
    else if s[0] == ':' then ParseFrom("", vs + [Tokenizer.Part(name, "", "")], s[1..])
    else ParseFrom(name + [s[0]], vs, s[1..])
  }

  /** What `parsestr(s)` returns. */
  function Parse(s: string): Option<ClassInfo> {
    ParseFrom("", [], s)
  }

  /** Bytes other than `:` and `[` (the slash included) only extend the name. */
  predicate NameBytes(n: string) {
    forall i :: 0 <= i < |n| ==> n[i] != ':' && n[i] != '['
  }

  lemma {:induction false} ParseName(acc: string, vs: seq<Part>, n: string, t: string)
    requires NameBytes(n)
    ensures ParseFrom(acc, vs, n + t) == ParseFrom(acc + n, vs, t)
    decreases |n|
  {
    if n != [] {
      assert (n + t)[0] == n[0] && (n + t)[1..] == n[1..] + t;
      assert n[0] != ':' && n[0] != '[';
      assert NameBytes(n[1..]) by {
        forall i | 0 <= i < |n[1..]| ensures n[1..][i] != ':' && n[1..][i] != '[' {
          assert n[1..][i] == n[i + 1];
        }
      }
      ParseName(acc + [n[0]], vs, n[1..], t);
      assert acc + [n[0]] + n[1..] == acc + n;
    } else {
      assert n + t == t && acc + n == acc;
    }
  }

  /** No input parses to a part with slash text. */
  lemma {:induction false} NoSlash(name: string, vs: seq<Part>, s: string)
    requires forall i :: 0 <= i < |vs| ==> vs[i].slashText == ""
    ensures ParseFrom(name, vs, s).Some? ==>
      var ci := ParseFrom(name, vs, s).value;
      ci.classPart.slashText == "" && forall i :: 0 <= i < |ci.variants| ==> ci.variants[i].slashText == ""
    decreases |s|
  {
    if s != [] {
      if s[0] == '[' {
        match Tokenizer.ScanArbitrary(s[1..])
        case None =>
        case Some(sc) =>
          if sc.rest != [] && sc.rest[0] == ':' {
            NoSlash("", vs + [Tokenizer.Part(Tokenizer.DropLast(name), sc.text, "")], sc.rest[1..]);
          }
      } else if s[0] == ':' {
        NoSlash("", vs + [Tokenizer.Part(name, "", "")], s[1..]);
      } else {
        NoSlash(name + [s[0]], vs, s[1..]);
      }
    }
  }

  /** The empty token fails, and so does every token that ends in `:`. */
  lemma {:induction false} TrailingColon(name: string, vs: seq<Part>, t: string)
    ensures ParseFrom(name, vs, t + ":") == None
    decreases |t|
  {
    var s := t + ":";
    if t == [] {
      assert s[1..] == [];
    } else {
      assert s[1..] == t[1..] + ":";
      if s[0] == '[' {
        match Tokenizer.ScanArbitrary(s[1..])
        case None =>
        case Some(sc) =>
          if sc.rest != [] && sc.rest[0] == ':' {
            var k := |sc.text| + 1;
            assert s[1..] == sc.text + "]" + sc.rest;
            assert sc.rest == s[k + 1..];
            if k + 1 < |t| {
              assert sc.rest[1..] == t[k + 2..] + ":" by {
                assert s[k + 2..] == t[k + 2..] + ":";
              }
              TrailingColon("", vs + [Tokenizer.Part(Tokenizer.DropLast(name), sc.text, "")], t[k + 2..]);
            } else {
              assert sc.rest[1..] == [];
            }
          }
      } else if s[0] == ':' {
        TrailingColon("", vs + [Tokenizer.Part(name, "", "")], t[1..]);
      } else {
        TrailingColon(name + [s[0]], vs, t[1..]);
      }
    }
  }

  lemma EmptyFails()
    ensures Parse("") == None
  {
  }

  /** A byte other than `:` after `]` fails the whole token; `/` is no exception. */
  lemma StrayByte(n: string, arb: string, b: char, rest: string)
    requires NameBytes(n) && ']' !in arb && b != ':'
    ensures Parse(n + "[" + arb + "]" + [b] + rest) == None
  {
    assert n + "[" + arb + "]" + [b] + rest == n + ("[" + (arb + "]" + ([b] + rest)));
    ParseName("", [], n, "[" + (arb + "]" + ([b] + rest)));
    Tokenizer.ScanArbitraryOf(arb, [b] + rest);
  }

  /** An unterminated bracket fails the token. */
  lemma Unterminated(n: string, t: string)
    requires NameBytes(n) && ']' !in t
    ensures Parse(n + "[" + t) == None
  {
    assert n + "[" + t == n + ("[" + t);
    ParseName("", [], n, "[" + t);
    assert ("[" + t)[1..] == t;
  }

  // ---------------------------------------------------------------- writing tokens back

  /** A part that parses back: a name without `:` or `[`, and arbitrary text
      without `]`; a class part must not come out as the empty token. */
  predicate WellFormedPart(p: Part, isClass: bool) {
    NameBytes(p.name) && ']' !in p.arbitraryText && p.slashText == ""
    && (isClass ==> p.name != "" || p.arbitraryText != "")
  }

  predicate WellFormed(ci: ClassInfo) {
    WellFormedPart(ci.classPart, true) && forall i :: 0 <= i < |ci.variants| ==> WellFormedPart(ci.variants[i], false)
  }

  /** A part written as a token: the name, and `-[text]` when there is arbitrary text. */
  function UnparsePart(p: Part): string {
    if p.arbitraryText == "" then p.name else p.name + "-" + "[" + p.arbitraryText + "]"
  }

  function UnparseVariants(vs: seq<Part>): string
    decreases |vs|
  {
    if vs == [] then "" else UnparsePart(vs[0]) + ":" + UnparseVariants(vs[1..])
  }

  function Unparse(ci: ClassInfo): string {
    UnparseVariants(ci.variants) + UnparsePart(ci.classPart)
  }

  /** A `:` ends a variant named by the pending bytes. */
  lemma ColonStep(name: string, vs: seq<Part>, rest: string)
    ensures ParseFrom(name, vs, ":" + rest) == ParseFrom("", vs + [Tokenizer.Part(name, "", "")], rest)
  {
    assert (":" + rest)[1..] == rest;
  }

  /** A bracketed text then the end makes the class; then a `:` makes a variant. */
  lemma BracketStep(name: string, vs: seq<Part>, arb: string, rest: string)
    requires ']' !in arb
    ensures ParseFrom(name, vs, "[" + arb + "]") == Some(Tokenizer.ClassInfo(vs, Tokenizer.Part(Tokenizer.DropLast(name), arb, "")))
    ensures ParseFrom(name, vs, "[" + arb + "]" + ":" + rest)
         == ParseFrom("", vs + [Tokenizer.Part(Tokenizer.DropLast(name), arb, "")], rest)
  {
    assert ("[" + arb + "]")[1..] == arb + "]" + "";
    Tokenizer.ScanArbitraryOf(arb, "");
    assert ("[" + arb + "]" + ":" + rest)[1..] == arb + "]" + (":" + rest);
    Tokenizer.ScanArbitraryOf(arb, ":" + rest);
    assert (":" + rest)[1..] == rest;
  }

  lemma DashDropped(n: string)
    ensures Tokenizer.DropLast(n + "-") == n
  {
  }

  /** One variant part is read back, whatever follows it. */
  lemma VariantBack(vs: seq<Part>, p: Part, rest: string)
    requires WellFormedPart(p, false)
    ensures ParseFrom("", vs, UnparsePart(p) + ":" + rest) == ParseFrom("", vs + [p], rest)
  {
    if p.arbitraryText == "" {
      assert UnparsePart(p) + ":" + rest == p.name + (":" + rest);
      ParseName("", vs, p.name, ":" + rest);
      assert "" + p.name == p.name;
      ColonStep(p.name, vs, rest);
    } else {
      var u := "[" + p.arbitraryText + "]" + ":" + rest;
      assert UnparsePart(p) + ":" + rest == p.name + "-" + u;
      NameDash(p.name);
      ParseName("", vs, p.name + "-", u);
      assert "" + (p.name + "-") == p.name + "-";
      BracketStep(p.name + "-", vs, p.arbitraryText, rest);
      DashDropped(p.name);
      assert p == Tokenizer.Part(p.name, p.arbitraryText, "");
    }
  }

  lemma NameDash(n: string)
    requires NameBytes(n)
    ensures NameBytes(n + "-")
  {
    assert forall i :: 0 <= i < |n| ==> (n + "-")[i] == n[i];
  }

  /** The class part is read back at the end of the token. */
  lemma ClassBack(vs: seq<Part>, p: Part)
    requires WellFormedPart(p, true)
    ensures ParseFrom("", vs, UnparsePart(p)) == Some(Tokenizer.ClassInfo(vs, p))
  {
    if p.arbitraryText == "" {
      ParseName("", vs, p.name, "");
      assert p.name + "" == p.name && "" + p.name == p.name;
      assert p == Tokenizer.Part(p.name, "", "");
    } else {
      var u := "[" + p.arbitraryText + "]";
      assert UnparsePart(p) == p.name + "-" + u;
      NameDash(p.name);
      ParseName("", vs, p.name + "-", u);
      assert "" + (p.name + "-") == p.name + "-";
      BracketStep(p.name + "-", vs, p.arbitraryText, "");
      DashDropped(p.name);
      assert p == Tokenizer.Part(p.name, p.arbitraryText, "");
    }
  }

  lemma {:induction false} UnparseFrom(vs: seq<Part>, ws: seq<Part>, c: Part)
    requires WellFormedPart(c, true) && forall i :: 0 <= i < |ws| ==> WellFormedPart(ws[i], false)
    ensures ParseFrom("", vs, UnparseVariants(ws) + UnparsePart(c)) == Some(Tokenizer.ClassInfo(vs + ws, c))
    decreases |ws|
  {
    if ws == [] {
      assert UnparseVariants(ws) + UnparsePart(c) == UnparsePart(c);
      ClassBack(vs, c);
      assert vs + [] == vs;
    } else {
      var rest := UnparseVariants(ws[1..]) + UnparsePart(c);
      assert UnparseVariants(ws) + UnparsePart(c) == UnparsePart(ws[0]) + ":" + rest;
      VariantBack(vs, ws[0], rest);
      TailWellFormed(ws);
      UnparseFrom(vs + [ws[0]], ws[1..], c);
      assert vs + [ws[0]] + ws[1..] == vs + ws;
    }
  }

  lemma TailWellFormed(ws: seq<Part>)
    requires ws != [] && forall i :: 0 <= i < |ws| ==> WellFormedPart(ws[i], false)
    ensures WellFormedPart(ws[0], false) && forall i :: 0 <= i < |ws[1..]| ==> WellFormedPart(ws[1..][i], false)
  {
    forall i | 0 <= i < |ws[1..]| ensures WellFormedPart(ws[1..][i], false) {
      assert ws[1..][i] == ws[i + 1];
    }
  }

  /** Writing a well-formed class token and parsing it gives it back. */
  lemma ParseUnparse(ci: ClassInfo)
    requires WellFormed(ci)
    ensures Parse(Unparse(ci)) == Some(ci)
  {
    UnparseFrom([], ci.variants, ci.classPart);
    assert [] + ci.variants == ci.variants;
  }

  // ---------------------------------------------------------------- the fold

  /** The transform a variant applies, given its arbitrary text. */
  function Conv(t: Transform, arb: string): Css -> seq<Css> {
    c => t(arb, c)
  }

  /** The variant fold over `vars`, already in the order they are applied. */
  function Resolve(tm: map<string, Transform>, vars: seq<Part>, cs: seq<OrderedCss>): Option<seq<OrderedCss>>
    decreases |vars|
  {
    if vars == [] then Some(cs)
    else if vars[0].name !in tm then None
    else match Fold.StepAll(Conv(tm[vars[0].name], vars[0].arbitraryText), cs)
      case None => None
      case Some(next) => Resolve(tm, vars[1..], next)
  }

  /** What engine.go's `createCSSFromClassInformation(c, selector, vs, bs)` returns.
      The base rule is found as main.go finds it. */
  function CreateCss(ci: ClassInfo, selector: string, tm: map<string, Transform>,
                     bs: map<string, OrderedCss>, arbs: map<string, BaseClasses.ArbitraryClass>): Option<seq<OrderedCss>> {
    match Compiler.BaseRule(ci.classPart, bs, arbs)
    case None => None
    case Some(base) => Resolve(tm, Compiler.Reverse(ci.variants), [OrderedCss(base.css.(selector := selector), base.order)])
  }

  /** An unknown variant anywhere fails the fold; otherwise the rules never
      shrink and keep a shared order, whatever the transforms do. */
  lemma {:induction false} ResolveShape(tm: map<string, Transform>, vars: seq<Part>, cs: seq<OrderedCss>, o: int)
    requires forall j :: 0 <= j < |cs| ==> cs[j].order == o
    ensures (exists i :: 0 <= i < |vars| && vars[i].name !in tm) ==> Resolve(tm, vars, cs).None?
    ensures Resolve(tm, vars, cs).Some? ==> |Resolve(tm, vars, cs).value| >= |cs|
    ensures Resolve(tm, vars, cs).Some? ==>
      forall i :: 0 <= i < |Resolve(tm, vars, cs).value| ==> Resolve(tm, vars, cs).value[i].order == o
    decreases |vars|
  {
    if vars != [] && vars[0].name in tm {
      var conv := Conv(tm[vars[0].name], vars[0].arbitraryText);
      Fold.StepOrder(conv, cs, o);
      var step := Fold.StepAll(conv, cs);
      if step.Some? {
        ResolveShape(tm, vars[1..], step.value, o);
        if exists i :: 0 <= i < |vars| && vars[i].name !in tm {
          var i :| 0 <= i < |vars| && vars[i].name !in tm;
          assert vars[1..][i - 1] == vars[i];
        }
      }
    }
  }

  /** Transforms that keep the selector leave every rule selected by the token. */
  lemma {:induction false} ResolveSelector(tm: map<string, Transform>, vars: seq<Part>, cs: seq<OrderedCss>, sel: string, o: int)
    requires forall k :: k in tm ==> forall arb :: Fold.KeepsSelector(Conv(tm[k], arb))
    requires forall j :: 0 <= j < |cs| ==> cs[j].css.selector == sel && cs[j].order == o
    ensures Resolve(tm, vars, cs).Some? ==>
      forall i :: 0 <= i < |Resolve(tm, vars, cs).value| ==>
        Resolve(tm, vars, cs).value[i].css.selector == sel && Resolve(tm, vars, cs).value[i].order == o
    decreases |vars|
  {
    if vars != [] && vars[0].name in tm {
      var conv := Conv(tm[vars[0].name], vars[0].arbitraryText);
      Fold.StepUniform(conv, cs, sel, o);
      var step := Fold.StepAll(conv, cs);
      if step.Some? {
        ResolveSelector(tm, vars[1..], step.value, sel, o);
      }
    }
  }

  /** The token's rules: none without a base rule or with an unknown variant;
      otherwise at least one, all with the base rule's order. */
  lemma CreateCssShape(ci: ClassInfo, tok: string, tm: map<string, Transform>,
                       bs: map<string, OrderedCss>, arbs: map<string, BaseClasses.ArbitraryClass>)
    ensures Compiler.BaseRule(ci.classPart, bs, arbs).None? ==> CreateCss(ci, tok, tm, bs, arbs).None?
    ensures (exists i :: 0 <= i < |ci.variants| && ci.variants[i].name !in tm) ==> CreateCss(ci, tok, tm, bs, arbs).None?
    ensures CreateCss(ci, tok, tm, bs, arbs).Some? ==>
      var r := CreateCss(ci, tok, tm, bs, arbs).value;
      |r| >= 1 && forall i :: 0 <= i < |r| ==> r[i].order == Compiler.BaseRule(ci.classPart, bs, arbs).value.order
  {
    var b := Compiler.BaseRule(ci.classPart, bs, arbs);
    if b.Some? {
      var rev := Compiler.Reverse(ci.variants);
      ResolveShape(tm, rev, [OrderedCss(b.value.css.(selector := tok), b.value.order)], b.value.order);
      if exists i :: 0 <= i < |ci.variants| && ci.variants[i].name !in tm {
        var i :| 0 <= i < |ci.variants| && ci.variants[i].name !in tm;
        assert rev[|rev| - 1 - i] == ci.variants[i];
      }
    }
  }

  /** Transforms that keep the selector give rules all selected by the token. */
  lemma CreateCssSelector(ci: ClassInfo, tok: string, tm: map<string, Transform>,
                          bs: map<string, OrderedCss>, arbs: map<string, BaseClasses.ArbitraryClass>)
    requires forall k :: k in tm ==> forall arb :: Fold.KeepsSelector(Conv(tm[k], arb))
    ensures CreateCss(ci, tok, tm, bs, arbs).Some? ==>
      forall i :: 0 <= i < |CreateCss(ci, tok, tm, bs, arbs).value| ==> CreateCss(ci, tok, tm, bs, arbs).value[i].css.selector == tok
  {
    var b := Compiler.BaseRule(ci.classPart, bs, arbs);
    if b.Some? {
      ResolveSelector(tm, Compiler.Reverse(ci.variants), [OrderedCss(b.value.css.(selector := tok), b.value.order)], tok, b.value.order);
    }
  }

  // ---------------------------------------------------------------- the line

  /** The rules of one token; a token that does not parse or resolve gives none. */
  function TokenRules(tok: string, tm: map<string, Transform>, bs: map<string, OrderedCss>,
                      arbs: map<string, BaseClasses.ArbitraryClass>): seq<OrderedCss> {
    match Parse(tok)
    case None => []
    case Some(ci) =>
      match CreateCss(ci, tok, tm, bs, arbs)
      case None => []
      case Some(r) => r
  }

  /** What engine.go's `ParseString(s, vs, bs)` returns. */
  function ParseLine(s: string, tm: map<string, Transform>, bs: map<string, OrderedCss>,
                     arbs: map<string, BaseClasses.ArbitraryClass>): seq<OrderedCss>
    decreases |s|
  {
    var tok := Token(s);
    if tok == [] then [] else TokenRules(tok, tm, bs, arbs) + ParseLine(AfterToken(s), tm, bs, arbs)
  }

  /** A token followed by a delimiter, the single quote included, contributes
      its rules and then the rest of the line follows. */
  lemma ParseLineToken(tok: string, d: char, rest: string, tm: map<string, Transform>,
                       bs: map<string, OrderedCss>, arbs: map<string, BaseClasses.ArbitraryClass>)
    requires tok != [] && forall i :: 0 <= i < |tok| ==> !IsDelimiter(tok[i])
    requires IsDelimiter(d)
    ensures ParseLine(tok + [d] + rest, tm, bs, arbs) == TokenRules(tok, tm, bs, arbs) + ParseLine(rest, tm, bs, arbs)
  {
    TokenOf(tok, d, rest);
  }

  /** A delimiter at the start ends the line. */
  lemma ParseLineStops(d: char, rest: string, tm: map<string, Transform>,
                       bs: map<string, OrderedCss>, arbs: map<string, BaseClasses.ArbitraryClass>)
    requires IsDelimiter(d)
    ensures ParseLine([d] + rest, tm, bs, arbs) == []
  {
  }

  // ---------------------------------------------------------------- methods

  /** engine.go's `grabFirstPossibleValidString`. */
  method GrabFirstPossibleValidString(r: Reader) returns (tok: string)
    requires r.Valid()
    modifies r
    ensures r.Valid()
    ensures tok == Token(old(r.Rest())) && r.Rest() == AfterToken(old(r.Rest()))
  {
    ghost var s := r.Rest();
    tok := "";
    while true
      invariant r.Valid()
      invariant Token(s) == tok + Token(r.Rest()) && AfterToken(s) == AfterToken(r.Rest())
      decreases |r.Rest()|
    {
      var b, ok := r.ReadByte();
      if !ok || IsDelimiter(b) {
        return;
      }
      tok := tok + [b];
    }
  }

  /** engine.go's `parsestr`; `parseArbitrary` is the same as main.go's. */
  method ParseStr(s: string) returns (res: Option<ClassInfo>)
    ensures res == Parse(s)
  {
    var r := new Reader(s);
    var name := "";
    var variants: seq<Part> := [];
    while true
      invariant r.Valid()
      invariant ParseFrom(name, variants, r.Rest()) == Parse(s)
      decreases |r.Rest()|
    {
      ghost var before := r.Rest();
      var b, ok := r.ReadByte();
      if !ok {
        if |name| == 0 {
          return None;
        }
        return Some(Tokenizer.ClassInfo(variants, Tokenizer.Part(name, "", "")));
      }
      if b == '[' {
        var arb := Tokenizer.ParseArbitrary(r);
        if arb.None? {
          return None;
        }
        Tokenizer.ScanArbitraryOf(arb.value, r.Rest());
        var b2, ok2 := r.ReadByte();
        var n := Tokenizer.DropLast(name);
        name := "";
        if !ok2 {
          return Some(Tokenizer.ClassInfo(variants, Tokenizer.Part(n, arb.value, "")));
        }
        if b2 == ':' {
          variants := variants + [Tokenizer.Part(n, arb.value, "")];
        } else {
          return None;
        }
      } else if b == ':' {
        variants := variants + [Tokenizer.Part(name, "", "")];
        name := "";
      } else {
        name := name + [b];
      }
    }
  }

  /** engine.go's `createCSSFromClassInformation`. */
  method CreateCssFromClassInformation(ci: ClassInfo, selector: string, tm: map<string, Transform>,
                                       bs: map<string, OrderedCss>, arbs: map<string, BaseClasses.ArbitraryClass>)
    returns (res: Option<seq<OrderedCss>>)
    ensures res == CreateCss(ci, selector, tm, bs, arbs)
  {
    var css: OrderedCss;
    if ci.classPart.arbitraryText == "" {
      if ci.classPart.name !in bs {
        return None;
      }
      css := bs[ci.classPart.name];
    } else {
      if ci.classPart.name !in arbs {
        return None;
      }
      css := BaseClasses.ArbitraryValue(arbs[ci.classPart.name], ci.classPart.arbitraryText);
    }
    css := css.(css := css.css.(selector := selector));
    var csses := [css];
    var vars := Compiler.Reverse(ci.variants);
    for i := 0 to |vars|
      invariant Resolve(tm, vars[i..], csses) == CreateCss(ci, selector, tm, bs, arbs)
    {
      assert vars[i..][0] == vars[i] && vars[i..][1..] == vars[i + 1..];
      var variant := vars[i];
      if variant.name !in tm {
        return None;
      }
      var step := Fold.ApplyStep(Conv(tm[variant.name], variant.arbitraryText), csses);
      if step.None? {
        return None;
      }
      csses := step.value;
    }
    return Some(csses);
  }

  /** engine.go's `ProduceNextCSS`. */
  method ProduceNextCss(r: Reader, tm: map<string, Transform>, bs: map<string, OrderedCss>,
                        arbs: map<string, BaseClasses.ArbitraryClass>) returns (res: Option<seq<OrderedCss>>)
    requires r.Valid()
    modifies r
    ensures r.Valid()
    ensures res.None? ==> ParseLine(old(r.Rest()), tm, bs, arbs) == []
    ensures res.Some? ==> |r.Rest()| < |old(r.Rest())|
    ensures res.Some? ==> ParseLine(old(r.Rest()), tm, bs, arbs) == res.value + ParseLine(r.Rest(), tm, bs, arbs)
  {
    while true
      invariant r.Valid()
      invariant ParseLine(old(r.Rest()), tm, bs, arbs) == ParseLine(r.Rest(), tm, bs, arbs)
      invariant |r.Rest()| <= |old(r.Rest())|
      decreases |r.Rest()|
    {
      var s := GrabFirstPossibleValidString(r);
      if |s| == 0 {
        return None;
      }
      var ci := ParseStr(s);
      if ci.None? {
        continue;
      }
      var csses := CreateCssFromClassInformation(ci.value, s, tm, bs, arbs);
      if csses.Some? {
        return csses;
      }
    }
  }

  /** engine.go's `ParseString`. */
  method ParseString(s: string, tm: map<string, Transform>, bs: map<string, OrderedCss>,
                     arbs: map<string, BaseClasses.ArbitraryClass>) returns (csses: seq<OrderedCss>)
    ensures csses == ParseLine(s, tm, bs, arbs)
  {
    var r := new Reader(s);
    csses := [];
    while true
      invariant r.Valid()
      invariant csses + ParseLine(r.Rest(), tm, bs, arbs) == ParseLine(s, tm, bs, arbs)
      decreases |r.Rest()|
    {
      ghost var before := r.Rest();
      var res := ProduceNextCss(r, tm, bs, arbs);
      if res.None? {
        return;
      }
      Compiler.Regroup(csses, res.value, ParseLine(r.Rest(), tm, bs, arbs), ParseLine(before, tm, bs, arbs), ParseLine(s, tm, bs, arbs));
      csses := csses + res.value;
    }
  }
}
