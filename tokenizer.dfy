/** The class-token tokenizer of main.go: splitting the input line into tokens,
    and splitting one token into its variant parts and its class part. Each
    part may carry `[arbitrary]` text and a `/slash` modifier. */
module Tokenizer {
  import opened Wrappers
  import opened ByteReader

  /** `parsedValue`. */
  datatype Part = Part(name: string, arbitraryText: string, slashText: string)

  /** `fullClassInformation`: the variants left to right, then the class. */
  datatype ClassInfo = ClassInfo(variants: seq<Part>, classPart: Part)

  /** The text up to a terminator and what follows the terminator. */
  datatype Scan = Scan(text: string, rest: string)

  /** The text up to the first `:`, whether a `:` ended it, and what follows. */
  datatype SlashScan = SlashScan(text: string, colon: bool, rest: string)

  /** One parsed part, whether a `:` ended it (a variant), and the unread input. */
  datatype Step = Step(part: Part, variant: bool, rest: string)

  // ---------------------------------------------------------------- tokens

  /** The bytes that end a token. */
  predicate IsDelimiter(b: char) {
    b == ' ' || b == '\n' || b == '\t' || b == '\"' || b == '`'
  }

  /** The token at the start of s: the longest prefix without a delimiter. */
  function Token(s: string): (t: string)
    ensures forall i :: 0 <= i < |t| ==> !IsDelimiter(t[i])
    ensures t <= s
    ensures |t| < |s| ==> IsDelimiter(s[|t|])
  {
    if s == [] || IsDelimiter(s[0]) then "" else [s[0]] + Token(s[1..])
  }

  /** What is left once the token and the delimiter after it are read. */
  function AfterToken(s: string): (r: string)
    ensures |Token(s)| < |s| ==> r == s[|Token(s)| + 1..]
    ensures |Token(s)| == |s| ==> r == []
  {
    if s == [] then [] else if IsDelimiter(s[0]) then s[1..] else AfterToken(s[1..])
  }

  // ---------------------------------------------------------------- parts

  /** The arbitrary text after `[`: verbatim up to the first `]`, none if unterminated. */
  function ScanArbitrary(s: string): (r: Option<Scan>)
    ensures r.None? <==> ']' !in s
    ensures r.Some? ==> s == r.value.text + "]" + r.value.rest && ']' !in r.value.text
  {
    if s == [] then None
    else if s[0] == ']' then Some(Scan("", s[1..]))
    else
      match ScanArbitrary(s[1..])
      case None => None
      case Some(sc) => Some(Scan([s[0]] + sc.text, sc.rest))
  }

  /** The slash text: up to the next `:` (which is consumed) or the end. */
  function ScanSlash(s: string): (r: SlashScan)
    ensures ':' !in r.text
    ensures r.colon ==> s == r.text + ":" + r.rest
    ensures !r.colon ==> s == r.text && r.rest == []
  {
    if s == [] then SlashScan("", false, [])
    else if s[0] == ':' then SlashScan("", true, s[1..])
    else
      var sc := ScanSlash(s[1..]);
      SlashScan([s[0]] + sc.text, sc.colon, sc.rest)
  }

  /** The last byte of the pending name dropped, as before an arbitrary value. */
  function DropLast(name: string): string {
    if |name| > 0 then name[..|name| - 1] else name
  }

  /** `parseNextPart` with `name` the bytes of the name collected so far. A part
      that ends the input is the class; one ended by `:` is a variant. */
  function NextPart(name: string, s: string): (r: Option<Step>)
    ensures r.Some? && r.value.variant ==> |r.value.rest| < |s|
    ensures r.Some? && !r.value.variant ==> r.value.rest == []
    decreases |s|
  {
    if s == [] then Some(Step(Part(name, "", ""), false, []))
    else if s[0] == ':' then Some(Step(Part(name, "", ""), true, s[1..]))
    else if s[0] == '[' then
      match ScanArbitrary(s[1..])
      case None => None
      case Some(sc) =>
        var n := DropLast(name);
        if sc.rest == [] then Some(Step(Part(n, sc.text, ""), false, []))
        else if sc.rest[0] == ':' then Some(Step(Part(n, sc.text, ""), true, sc.rest[1..]))
        else if sc.rest[0] == '/' then
          var sl := ScanSlash(sc.rest[1..]);
          if sl.text == "" then None else Some(Step(Part(n, sc.text, sl.text), sl.colon, sl.rest))
        else NextPart(name, sc.rest[1..])
    else if s[0] == '/' then
      var sl := ScanSlash(s[1..]);
      if sl.text == "" then None else Some(Step(Part(name, "", sl.text), sl.colon, sl.rest))
    else NextPart(name + [s[0]], s[1..])
  }

  /** The variants already parsed put in front of what the rest parses to. */
  function Prefixed(vs: seq<Part>, p: Option<ClassInfo>): (r: Option<ClassInfo>)
    ensures r.Some? <==> p.Some?
    ensures r.Some? ==> r.value.variants == vs + p.value.variants && r.value.classPart == p.value.classPart
  {
    match p
    case None => None
    case Some(ci) => Some(ClassInfo(vs + ci.variants, ci.classPart))
  }

  /** `parsestr`: parts up to the first class part; none if any part fails. */
  function Parse(s: string): Option<ClassInfo>
    decreases |s|
  {
    match NextPart("", s)
    case None => None
    case Some(st) =>
      if !st.variant then Some(ClassInfo([], st.part)) else Prefixed([st.part], Parse(st.rest))
  }

  /** Moving the first unread byte b to the collected bytes. */
  lemma Shift(s: string, sb: string, b: char, rest: string, stop: char)
    requires s == sb + ([b] + rest) && stop !in sb && b != stop
    ensures s == (sb + [b]) + rest && stop !in sb + [b]
  {
  }

  /** The scan of text that has its first `]` right after t. */
  lemma {:induction false} ScanArbitraryOf(t: string, u: string)
    requires ']' !in t
    ensures ScanArbitrary(t + "]" + u) == Some(Scan(t, u))
  {
    if t != [] {
      var x := t + "]" + u;
      assert x[0] == t[0] && x[1..] == t[1..] + "]" + u;
      ScanArbitraryOf(t[1..], u);
      assert [t[0]] + t[1..] == t;
    } else {
      assert t + "]" + u == "]" + u;
    }
  }

  lemma PrefixedPrefixed(vs: seq<Part>, ws: seq<Part>, p: Option<ClassInfo>)
    ensures Prefixed(vs, Prefixed(ws, p)) == Prefixed(vs + ws, p)
  {
    if p.Some? {
      assert vs + (ws + p.value.variants) == (vs + ws) + p.value.variants;
    }
  }

  // ---------------------------------------------------------------- properties

  /** A token is exactly the bytes before the first delimiter; the delimiter is consumed. */
  lemma {:induction false} TokenOf(t: string, d: char, rest: string)
    requires forall i :: 0 <= i < |t| ==> !IsDelimiter(t[i])
    requires IsDelimiter(d)
    ensures Token(t + [d] + rest) == t && AfterToken(t + [d] + rest) == rest
  {
    if t == [] {
      assert t + [d] + rest == [d] + rest;
    } else {
      var x := t + [d] + rest;
      assert x[0] == t[0] && x[1..] == t[1..] + [d] + rest;
      TokenOf(t[1..], d, rest);
      assert [t[0]] + t[1..] == t;
    }
  }

  /** Input without delimiters is one token, and nothing is left. */
  lemma {:induction false} TokenToEnd(t: string)
    requires forall i :: 0 <= i < |t| ==> !IsDelimiter(t[i])
    ensures Token(t) == t && AfterToken(t) == []
  {
    if t != [] {
      TokenToEnd(t[1..]);
      assert [t[0]] + t[1..] == t;
    }
  }

  /** A byte that is an ordinary name byte outside brackets. */
  predicate PlainByte(c: char) {
    c != ':' && c != '[' && c != '/'
  }

  predicate Plain(n: string) {
    forall i :: 0 <= i < |n| ==> PlainByte(n[i])
  }

  /** Ordinary bytes are appended to the pending name one by one. */
  lemma {:induction false} NameBytes(acc: string, n: string, t: string)
    requires Plain(n)
    ensures NextPart(acc, n + t) == NextPart(acc + n, t)
    decreases |n|
  {
    if n == [] {
      assert n + t == t && acc + n == acc;
    } else {
      var x := n + t;
      assert x[0] == n[0] && x[1..] == n[1..] + t;
      NameBytes(acc + [n[0]], n[1..], t);
      assert acc + [n[0]] + n[1..] == acc + n;
    }
  }

  /** The empty input, and any plain name, parse to a class part without variants. */
  lemma ParsePlainClass(n: string)
    requires Plain(n)
    ensures Parse(n) == Some(ClassInfo([], Part(n, "", "")))
  {
    NameBytes("", n, "");
    assert n + "" == n && "" + n == n;
  }

  /** A plain name ended by `:` is a variant with no arbitrary or slash text, in
      front of the variants of the rest; the name may be empty. */
  lemma ParseVariant(v: string, rest: string)
    requires Plain(v)
    ensures Parse(v + ":" + rest) == Prefixed([Part(v, "", "")], Parse(rest))
  {
    NameBytes("", v, ":" + rest);
    assert v + ":" + rest == v + (":" + rest) && "" + v == v;
  }

  /** A plain name, a bracket never closed: the token fails. */
  lemma ParseUnterminated(n: string, t: string)
    requires Plain(n) && ']' !in t
    ensures Parse(n + "[" + t) == None
  {
    NameBytes("", n, "[" + t);
    assert n + "[" + t == n + ("[" + t) && "" + n == n;
    assert ("[" + t)[1..] == t;
  }

  /** The fuzz seed `-[0-[`: the bracket is never closed. */
  lemma ParseFuzzSeed()
    ensures Parse("-[0-[") == None
  {
    ParseUnterminated("-", "0-[");
  }

  /** A closed bracket at the end: the class part is named by the pending name
      without its last byte and carries the text verbatim, `:` and `/` included. */
  lemma ParseArbitraryClass(n: string, arb: string)
    requires Plain(n) && ']' !in arb
    ensures Parse(n + "[" + arb + "]") == Some(ClassInfo([], Part(DropLast(n), arb, "")))
  {
    NameBytes("", n, "[" + arb + "]");
    assert n + "[" + arb + "]" == n + ("[" + arb + "]") && "" + n == n;
    assert ("[" + arb + "]")[1..] == arb + "]" + "";
    ScanArbitraryOf(arb, "");
  }

  /** What follows a closed bracket decides the part. */
  lemma BracketThen(acc: string, arb: string, after: string)
    requires ']' !in arb
    ensures after == [] ==> NextPart(acc, "[" + arb + "]" + after) == Some(Step(Part(DropLast(acc), arb, ""), false, []))
    ensures after != [] && after[0] == ':' ==>
      NextPart(acc, "[" + arb + "]" + after) == Some(Step(Part(DropLast(acc), arb, ""), true, after[1..]))
    ensures after != [] && after[0] == '/' ==>
      NextPart(acc, "[" + arb + "]" + after)
      == (var sl := ScanSlash(after[1..]);
          if sl.text == "" then None else Some(Step(Part(DropLast(acc), arb, sl.text), sl.colon, sl.rest)))
    ensures after != [] && after[0] != ':' && after[0] != '/' ==>
      NextPart(acc, "[" + arb + "]" + after) == NextPart(acc, after[1..])
  {
    var x := "[" + arb + "]" + after;
    assert x[0] == '[' && x[1..] == arb + "]" + after;
    ScanArbitraryOf(arb, after);
  }

  /** A `/` outside brackets starts slash text. */
  lemma SlashThen(acc: string, t: string)
    ensures NextPart(acc, "/" + t)
         == (var sl := ScanSlash(t);
             if sl.text == "" then None else Some(Step(Part(acc, "", sl.text), sl.colon, sl.rest)))
  {
    assert ("/" + t)[0] == '/' && ("/" + t)[1..] == t;
  }

  /** Parsing a plain name followed by t is parsing t with that pending name. */
  lemma ParseAfterName(n: string, t: string)
    requires Plain(n)
    ensures Parse(n + t)
         == (match NextPart(n, t)
             case None => None
             case Some(st) => if !st.variant then Some(ClassInfo([], st.part)) else Prefixed([st.part], Parse(st.rest)))
  {
    NameBytes("", n, t);
    assert "" + n == n;
  }

  /** Any byte after `]` other than `:` and `/` is dropped together with the
      arbitrary text, and scanning goes on with the untrimmed pending name. */
  lemma ParseStrayByte(n: string, arb: string, b: char, rest: string)
    requires Plain(n) && ']' !in arb && b != ':' && b != '/'
    ensures Parse(n + "[" + arb + "]" + [b] + rest) == Parse(n + rest)
  {
    assert n + "[" + arb + "]" + [b] + rest == n + ("[" + arb + "]" + ([b] + rest));
    ParseAfterName(n, "[" + arb + "]" + ([b] + rest));
    ParseAfterName(n, rest);
    BracketThen(n, arb, [b] + rest);
    assert ([b] + rest)[1..] == rest;
  }

  /** Empty slash text fails the token, after a plain name and after a bracket. */
  lemma ParseEmptySlash(n: string, arb: string, rest: string)
    requires Plain(n) && ']' !in arb
    ensures Parse(n + "/") == None
    ensures Parse(n + "/:" + rest) == None
    ensures Parse(n + "[" + arb + "]/") == None
  {
    ParseAfterName(n, "/");
    SlashThen(n, "");
    ParseAfterName(n, "/" + (":" + rest));
    assert n + "/:" + rest == n + ("/" + (":" + rest));
    SlashThen(n, ":" + rest);
    assert n + "[" + arb + "]/" == n + ("[" + arb + "]" + "/");
    ParseAfterName(n, "[" + arb + "]" + "/");
    BracketThen(n, arb, "/");
  }

  /** Slash text after a plain name runs to the next `:` or the end. */
  lemma ParseSlashClass(n: string, sl: string)
    requires Plain(n) && sl != "" && ':' !in sl
    ensures Parse(n + "/" + sl) == Some(ClassInfo([], Part(n, "", sl)))
  {
    NameBytes("", n, "/" + sl);
    assert n + "/" + sl == n + ("/" + sl) && "" + n == n;
    assert ("/" + sl)[1..] == sl;
    ScanSlashToEnd(sl);
  }

  lemma {:induction false} ScanSlashToEnd(t: string)
    requires ':' !in t
    ensures ScanSlash(t) == SlashScan(t, false, [])
  {
    if t != [] {
      ScanSlashToEnd(t[1..]);
      assert [t[0]] + t[1..] == t;
    }
  }

  lemma {:induction false} ScanSlashOf(t: string, rest: string)
    requires ':' !in t
    ensures ScanSlash(t + ":" + rest) == SlashScan(t, true, rest)
  {
    if t == [] {
      assert t + ":" + rest == ":" + rest;
    } else {
      var x := t + ":" + rest;
      assert x[0] == t[0] && x[1..] == t[1..] + ":" + rest;
      ScanSlashOf(t[1..], rest);
      assert [t[0]] + t[1..] == t;
    }
  }

  // ---------------------------------------------------------------- round trip

  /** The parts a token can be written back from: a plain name, arbitrary text
      without `]`, slash text without `:`. */
  predicate WellFormedPart(p: Part) {
    Plain(p.name) && ']' !in p.arbitraryText && ':' !in p.slashText
  }

  predicate WellFormed(ci: ClassInfo) {
    WellFormedPart(ci.classPart) && forall i :: 0 <= i < |ci.variants| ==> WellFormedPart(ci.variants[i])
  }

  /** A part written as Tailwind writes it: `name-[text]/slash`. */
  function UnparsePart(p: Part): string {
    var sl := if p.slashText != "" then "/" + p.slashText else "";
    if p.arbitraryText != "" then p.name + "-[" + p.arbitraryText + "]" + sl else p.name + sl
  }

  function UnparseVariants(vs: seq<Part>): string
    decreases |vs|
  {
    if vs == [] then "" else UnparsePart(vs[0]) + ":" + UnparseVariants(vs[1..])
  }

  /** The token for a class: the variants each followed by `:`, then the class part. */
  function Unparse(ci: ClassInfo): string {
    UnparseVariants(ci.variants) + UnparsePart(ci.classPart)
  }

  /** What follows the name of a written part: the optional slash text, then
      ":" + rest for a variant. */
  lemma SlashTail(acc: string, p: Part, variant: bool, rest: string)
    requires ':' !in p.slashText
    ensures var sl := if p.slashText != "" then "/" + p.slashText else "";
      var tail := if variant then ":" + rest else "";
      NextPart(acc, sl + tail) == Some(Step(Part(acc, "", p.slashText), variant, if variant then rest else []))
  {
    var tail := if variant then ":" + rest else "";
    if p.slashText != "" {
      var t := if variant then p.slashText + ":" + rest else p.slashText;
      assert "/" + p.slashText + tail == "/" + t;
      SlashThen(acc, t);
      if variant { ScanSlashOf(p.slashText, rest); } else { ScanSlashToEnd(p.slashText); }
    } else {
      assert "" + tail == tail;
      if variant {
        assert tail[0] == ':' && tail[1..] == rest;
      }
    }
  }

  lemma BracketTail(acc: string, p: Part, variant: bool, rest: string)
    requires ']' !in p.arbitraryText && ':' !in p.slashText
    ensures var sl := if p.slashText != "" then "/" + p.slashText else "";
      var tail := if variant then ":" + rest else "";
      NextPart(acc, "[" + p.arbitraryText + "]" + (sl + tail))
      == Some(Step(Part(DropLast(acc), p.arbitraryText, p.slashText), variant, if variant then rest else []))
  {
    var sl := if p.slashText != "" then "/" + p.slashText else "";
    var tail := if variant then ":" + rest else "";
    BracketThen(acc, p.arbitraryText, sl + tail);
    if p.slashText != "" {
      var t := if variant then p.slashText + ":" + rest else p.slashText;
      assert (sl + tail)[0] == '/' && (sl + tail)[1..] == t;
      if variant { ScanSlashOf(p.slashText, rest); } else { ScanSlashToEnd(p.slashText); }
    } else {
      assert sl + tail == tail;
      if variant {
        assert tail[0] == ':' && tail[1..] == rest;
      }
    }
  }

  /** One written part is read back as that part, followed by ":" + rest for a
      variant and by the end of input for the class. */
  lemma PartRoundTrip(p: Part, variant: bool, rest: string)
    requires WellFormedPart(p)
    ensures NextPart("", UnparsePart(p) + (if variant then ":" + rest else ""))
         == Some(Step(p, variant, if variant then rest else []))
  {
    if p.arbitraryText != "" {
      ArbitraryPartBack(p, variant, rest);
    } else {
      var tail := if variant then ":" + rest else "";
      var sl := if p.slashText != "" then "/" + p.slashText else "";
      assert UnparsePart(p) + tail == p.name + (sl + tail);
      NameBytes("", p.name, sl + tail);
      assert "" + p.name == p.name;
      SlashTail(p.name, p, variant, rest);
    }
  }

  lemma ArbitraryPartBack(p: Part, variant: bool, rest: string)
    requires WellFormedPart(p) && p.arbitraryText != ""
    ensures NextPart("", UnparsePart(p) + (if variant then ":" + rest else ""))
         == Some(Step(p, variant, if variant then rest else []))
  {
    var tail := if variant then ":" + rest else "";
    var sl := if p.slashText != "" then "/" + p.slashText else "";
    var pn := p.name + "-";
    assert Plain(pn) by {
      assert forall i :: 0 <= i < |p.name| ==> pn[i] == p.name[i];
    }
    var br := "[" + p.arbitraryText + "]" + (sl + tail);
    assert UnparsePart(p) == pn + "[" + p.arbitraryText + "]" + sl by {
      assert p.name + "-[" == pn + "[";
    }
    assert UnparsePart(p) + tail == pn + br;
    NameBytes("", pn, br);
    assert "" + pn == pn && DropLast(pn) == p.name;
    BracketTail(pn, p, variant, rest);
  }

  lemma ParseWhenVariant(x: string, v: Part, rest: string)
    requires NextPart("", x) == Some(Step(v, true, rest))
    ensures Parse(x) == Prefixed([v], Parse(rest))
  {
  }

  lemma ParseWhenClass(x: string, c: Part)
    requires NextPart("", x) == Some(Step(c, false, []))
    ensures Parse(x) == Some(ClassInfo([], c))
  {
  }

  lemma UnparseCons(ci: ClassInfo)
    requires ci.variants != []
    ensures Unparse(ci) == UnparsePart(ci.variants[0]) + (":" + Unparse(ClassInfo(ci.variants[1..], ci.classPart)))
  {
  }

  /** Parsing a written-back token gives the same parts. */
  lemma {:induction false} ParseUnparse(ci: ClassInfo)
    requires WellFormed(ci)
    ensures Parse(Unparse(ci)) == Some(ci)
    decreases |ci.variants|
  {
    if ci.variants == [] {
      PartRoundTrip(ci.classPart, false, "");
      assert Unparse(ci) == UnparsePart(ci.classPart) + "";
      ParseWhenClass(Unparse(ci), ci.classPart);
    } else {
      var v := ci.variants[0];
      var ci' := ClassInfo(ci.variants[1..], ci.classPart);
      assert WellFormedPart(v);
      assert WellFormed(ci') by {
        forall i | 0 <= i < |ci'.variants| ensures WellFormedPart(ci'.variants[i]) {
          assert ci'.variants[i] == ci.variants[i + 1];
        }
      }
      ParseUnparse(ci');
      var u := Unparse(ci');
      PartRoundTrip(v, true, u);
      UnparseCons(ci);
      ParseWhenVariant(Unparse(ci), v, u);
      assert [v] + ci'.variants == ci.variants;
    }
  }

  // ---------------------------------------------------------------- methods

  /** `grabFirstPossibleValidString`: bytes up to a delimiter or the end; the
      delimiter is read too. */
  method GrabFirstPossibleValidString(r: Reader) returns (tok: string)
    requires r.Valid()
    modifies r
    ensures r.Valid()
    ensures tok == Token(old(r.Rest())) && r.Rest() == AfterToken(old(r.Rest()))
  {
    ghost var s := r.Rest();
    tok := "";
    while true
      invariant r.Valid()
      invariant Token(s) == tok + Token(r.Rest()) && AfterToken(s) == AfterToken(r.Rest())
      decreases |r.Rest()|
    {
      var b, ok := r.ReadByte();
      if !ok || IsDelimiter(b) {
        return;
      }
      tok := tok + [b];
    }
  }

  /** `parseArbitrary`, called just after the `[`. */
  method ParseArbitrary(r: Reader) returns (res: Option<string>)
    requires r.Valid()
    modifies r
    ensures r.Valid()
    ensures res.None? <==> ']' !in old(r.Rest())
    ensures res.Some? ==> old(r.Rest()) == res.value + "]" + r.Rest() && ']' !in res.value
  {
    ghost var s := r.Rest();
    var sb := "";
    while true
      invariant r.Valid()
      invariant s == sb + r.Rest() && ']' !in sb
      decreases |r.Rest()|
    {
      ghost var before := r.Rest();
      var b, ok := r.ReadByte();
      if !ok {
        assert s == sb;
        return None;
      }
      if b == ']' {
        return Some(sb);
      }
      assert before == [b] + r.Rest();
      Shift(s, sb, b, r.Rest(), ']');
      sb := sb + [b];
    }
  }

  /** `parseSlash`, called just after the `/`. */
  method ParseSlash(r: Reader) returns (text: string, colon: bool)
    requires r.Valid()
    modifies r
    ensures r.Valid()
    ensures SlashScan(text, colon, r.Rest()) == ScanSlash(old(r.Rest()))
  {
    ghost var s := r.Rest();
    text := "";
    while true
      invariant r.Valid()
      invariant ScanSlash(s).text == text + ScanSlash(r.Rest()).text
      invariant ScanSlash(s).colon == ScanSlash(r.Rest()).colon
      invariant ScanSlash(s).rest == ScanSlash(r.Rest()).rest
      decreases |r.Rest()|
    {
      ghost var before := r.Rest();
      var b, ok := r.ReadByte();
      if !ok {
        return text, false;
      }
      if b == ':' {
        return text, true;
      }
      SlashStep(text, before, b);
      text := text + [b];
    }
  }

  /** Moving the first unread byte, not a `:`, to the slash text. */
  lemma SlashStep(text: string, s: string, b: char)
    requires s != [] && s[0] == b && b != ':'
    ensures text + ScanSlash(s).text == (text + [b]) + ScanSlash(s[1..]).text
    ensures ScanSlash(s).colon == ScanSlash(s[1..]).colon && ScanSlash(s).rest == ScanSlash(s[1..]).rest
  {
    var sc := ScanSlash(s[1..]);
    assert ScanSlash(s) == SlashScan([b] + sc.text, sc.colon, sc.rest);
    assert text + ([b] + sc.text) == (text + [b]) + sc.text;
  }

  /** `parseNextPart`. */
  method ParseNextPart(r: Reader) returns (pv: Option<Part>, variant: bool)
    requires r.Valid()
    modifies r
    ensures r.Valid()
    ensures NextPart("", old(r.Rest())).None? ==> pv.None?
    ensures NextPart("", old(r.Rest())).Some? ==>
      pv == Some(NextPart("", old(r.Rest())).value.part)
      && variant == NextPart("", old(r.Rest())).value.variant
      && r.Rest() == NextPart("", old(r.Rest())).value.rest
  {
    ghost var s := r.Rest();
    var name := "";
    while true
      invariant r.Valid()
      invariant NextPart(name, r.Rest()) == NextPart("", s)
      decreases |r.Rest()|
    {
      ghost var before := r.Rest();
      var b, ok := r.ReadByte();
      if !ok {
        return Some(Part(name, "", "")), false;
      }
      if b == ':' {
        return Some(Part(name, "", "")), true;
      }
      if b == '[' {
        var res := ParseArbitrary(r);
        if res.None? {
          return None, false;
        }
        ScanArbitraryOf(res.value, r.Rest());
        ghost var after := r.Rest();
        var b2, ok2 := r.ReadByte();
        var n := DropLast(name);
        if !ok2 {
          return Some(Part(n, res.value, "")), false;
        }
        if b2 == ':' {
          return Some(Part(n, res.value, "")), true;
        }
        if b2 == '/' {
          var slash, colon := ParseSlash(r);
          if slash == "" {
            return None, false;
          }
          return Some(Part(n, res.value, slash)), colon;
        }
        assert NextPart(name, before) == NextPart(name, after[1..]);
      } else if b == '/' {
        var slash, colon := ParseSlash(r);
        if slash == "" {
          return None, false;
        }
        return Some(Part(name, "", slash)), colon;
      } else {
        name := name + [b];
      }
    }
  }

  /** How `parsestr` advances over one part of the input. */
  lemma ParseStep(vs: seq<Part>, before: string)
    ensures NextPart("", before).None? ==> Prefixed(vs, Parse(before)) == None
    ensures NextPart("", before).Some? && !NextPart("", before).value.variant ==>
      Prefixed(vs, Parse(before)) == Some(ClassInfo(vs, NextPart("", before).value.part))
    ensures NextPart("", before).Some? && NextPart("", before).value.variant ==>
      Prefixed(vs, Parse(before))
      == Prefixed(vs + [NextPart("", before).value.part], Parse(NextPart("", before).value.rest))
  {
    match NextPart("", before)
    case None =>
    case Some(st) =>
      if st.variant {
        PrefixedPrefixed(vs, [st.part], Parse(st.rest));
      } else {
        assert vs + [] == vs;
      }
  }

  /** `parsestr`: a fresh reader over s, parts until the class part. */
  method ParseStr(s: string) returns (res: Option<ClassInfo>)
    ensures res == Parse(s)
  {
    var r := new Reader(s);
    var variants: seq<Part> := [];
    assert Prefixed([], Parse(s)) == Parse(s) by {
      if Parse(s).Some? {
        assert [] + Parse(s).value.variants == Parse(s).value.variants;
      }
    }
    while true
      invariant r.Valid()
      invariant Prefixed(variants, Parse(r.Rest())) == Parse(s)
      decreases |r.Rest()|
    {
      ParseStep(variants, r.Rest());
      var pv, variant := ParseNextPart(r);
      if pv.None? {
        return None;
      }
      if variant {
        variants := variants + [pv.value];
      } else {
        return Some(ClassInfo(variants, pv.value));
      }
    }
  }
}
