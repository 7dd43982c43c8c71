/** One step of the variant fold that both main.go and engine.go run in
    `createCSSFromClassInformation`: a transform is applied to every rule
    present when the step starts; each rule is replaced by the transform's
    first result, a second result is appended with the rule's order, and an
    empty result aborts the whole fold. */
module Fold {
  import opened Rules
  import opened Wrappers

  /** Every rule of cs has a non-empty transform result. */
  predicate AllConvert(conv: Css -> seq<Css>, cs: seq<OrderedCss>) {
    forall j :: 0 <= j < |cs| ==> conv(cs[j].css) != []
  }

  /** The rules replaced in place: for each rule, its first result with its order. */
  function Firsts(conv: Css -> seq<Css>, cs: seq<OrderedCss>): (r: seq<OrderedCss>)
    requires AllConvert(conv, cs)
    ensures |r| == |cs|
    ensures forall j :: 0 <= j < |cs| ==> r[j] == OrderedCss(conv(cs[j].css)[0], cs[j].order)
  {
    seq(|cs|, j requires 0 <= j < |cs| && conv(cs[j].css) != [] => OrderedCss(conv(cs[j].css)[0], cs[j].order))
  }

  /** The rules appended: for each rule whose result has exactly two elements,
      in the order of the rules, the second element with the rule's order. */
  function Seconds(conv: Css -> seq<Css>, cs: seq<OrderedCss>): seq<OrderedCss>
    decreases |cs|
  {
    if cs == [] then []
    else
      var last := cs[|cs| - 1];
      var res := conv(last.css);
      Seconds(conv, cs[..|cs| - 1]) + (if |res| == 2 then [OrderedCss(res[1], last.order)] else [])
  }

  /** The number of rules whose result forks into two. */
  function Forks(conv: Css -> seq<Css>, cs: seq<OrderedCss>): nat
    decreases |cs|
  {
    if cs == [] then 0
    else Forks(conv, cs[..|cs| - 1]) + (if |conv(cs[|cs| - 1].css)| == 2 then 1 else 0)
  }

  /** The outcome of one step over the rules cs. */
  function StepAll(conv: Css -> seq<Css>, cs: seq<OrderedCss>): Option<seq<OrderedCss>> {
    if AllConvert(conv, cs) then Some(Firsts(conv, cs) + Seconds(conv, cs)) else None
  }

  lemma {:induction false} SecondsLength(conv: Css -> seq<Css>, cs: seq<OrderedCss>)
    ensures |Seconds(conv, cs)| == Forks(conv, cs)
    decreases |cs|
  {
    if cs != [] {
      SecondsLength(conv, cs[..|cs| - 1]);
    }
  }

  /** A step succeeds exactly when no rule's result is empty; it then keeps
      every rule's place and order, and adds one rule per fork. */
  lemma StepShape(conv: Css -> seq<Css>, cs: seq<OrderedCss>)
    ensures StepAll(conv, cs).None? <==> exists j :: 0 <= j < |cs| && conv(cs[j].css) == []
    ensures StepAll(conv, cs).Some? ==>
      var r := StepAll(conv, cs).value;
      |r| == |cs| + Forks(conv, cs)
      && forall j :: 0 <= j < |cs| ==> r[j] == OrderedCss(conv(cs[j].css)[0], cs[j].order)
  {
    SecondsLength(conv, cs);
  }

  /** A transform that keeps the selector of the rule it is given. */
  ghost predicate KeepsSelector(conv: Css -> seq<Css>) {
    forall c: Css, i :: 0 <= i < |conv(c)| ==> conv(c)[i].selector == c.selector
  }

  /** Rules that all share one selector and one order still do after a step. */
  lemma {:induction false} SecondsUniform(conv: Css -> seq<Css>, cs: seq<OrderedCss>, sel: string, o: int)
    requires KeepsSelector(conv)
    requires forall j :: 0 <= j < |cs| ==> cs[j].css.selector == sel && cs[j].order == o
    ensures forall i :: 0 <= i < |Seconds(conv, cs)| ==>
      Seconds(conv, cs)[i].css.selector == sel && Seconds(conv, cs)[i].order == o
    decreases |cs|
  {
    if cs != [] {
      var init := cs[..|cs| - 1];
      forall j | 0 <= j < |init| ensures init[j].css.selector == sel && init[j].order == o {
        assert init[j] == cs[j];
      }
      SecondsUniform(conv, init, sel, o);
    }
  }

  lemma StepUniform(conv: Css -> seq<Css>, cs: seq<OrderedCss>, sel: string, o: int)
    requires KeepsSelector(conv)
    requires forall j :: 0 <= j < |cs| ==> cs[j].css.selector == sel && cs[j].order == o
    ensures StepAll(conv, cs).Some? ==> forall i :: 0 <= i < |StepAll(conv, cs).value| ==>
      StepAll(conv, cs).value[i].css.selector == sel && StepAll(conv, cs).value[i].order == o
  {
    if StepAll(conv, cs).Some? {
      SecondsUniform(conv, cs, sel, o);
      var f := Firsts(conv, cs);
      var r := StepAll(conv, cs).value;
      forall i | 0 <= i < |r| ensures r[i].css.selector == sel && r[i].order == o {
        if i < |cs| {
          assert r[i] == f[i];
        } else {
          assert r[i] == Seconds(conv, cs)[i - |cs|];
        }
      }
    }
  }

  /** Whatever the transform, a step keeps a shared order and never shrinks the slice. */
  lemma {:induction false} SecondsOrder(conv: Css -> seq<Css>, cs: seq<OrderedCss>, o: int)
    requires forall j :: 0 <= j < |cs| ==> cs[j].order == o
    ensures forall i :: 0 <= i < |Seconds(conv, cs)| ==> Seconds(conv, cs)[i].order == o
    decreases |cs|
  {
    if cs != [] {
      var init := cs[..|cs| - 1];
      forall j | 0 <= j < |init| ensures init[j].order == o {
        assert init[j] == cs[j];
      }
      SecondsOrder(conv, init, o);
    }
  }

  lemma StepOrder(conv: Css -> seq<Css>, cs: seq<OrderedCss>, o: int)
    requires forall j :: 0 <= j < |cs| ==> cs[j].order == o
    ensures StepAll(conv, cs).Some? ==> |StepAll(conv, cs).value| >= |cs|
    ensures StepAll(conv, cs).Some? ==>
      forall i :: 0 <= i < |StepAll(conv, cs).value| ==> StepAll(conv, cs).value[i].order == o
  {
    if StepAll(conv, cs).Some? {
      SecondsOrder(conv, cs, o);
      var f := Firsts(conv, cs);
      var r := StepAll(conv, cs).value;
      forall i | 0 <= i < |r| ensures r[i].order == o {
        if i < |cs| {
          assert r[i] == f[i];
        } else {
          assert r[i] == Seconds(conv, cs)[i - |cs|];
        }
      }
    }
  }

  /** A transform whose results all have the same length n forks every rule
      or none. */
  lemma {:induction false} ForksUniform(conv: Css -> seq<Css>, cs: seq<OrderedCss>, n: nat)
    requires forall c: Css :: |conv(c)| == n
    ensures Forks(conv, cs) == if n == 2 then |cs| else 0
    decreases |cs|
  {
    if cs != [] {
      ForksUniform(conv, cs[..|cs| - 1], n);
    }
  }

  /** When every result forks, the appended rules are the second results, rule by rule. */
  lemma {:induction false} SecondsAllFork(conv: Css -> seq<Css>, cs: seq<OrderedCss>)
    requires forall c: Css :: |conv(c)| == 2
    ensures |Seconds(conv, cs)| == |cs|
    ensures forall i :: 0 <= i < |cs| ==> Seconds(conv, cs)[i] == OrderedCss(conv(cs[i].css)[1], cs[i].order)
    decreases |cs|
  {
    if cs != [] {
      var init := cs[..|cs| - 1];
      SecondsAllFork(conv, init);
      forall i | 0 <= i < |cs| ensures Seconds(conv, cs)[i] == OrderedCss(conv(cs[i].css)[1], cs[i].order) {
        if i < |init| {
          assert init[i] == cs[i];
          assert Seconds(conv, cs)[i] == Seconds(conv, init)[i];
        }
      }
    }
  }

  /** The two branches of a fork: the last n rules are the first n, rule by
      rule, with child combinator `*`. */
  predicate Paired(cs: seq<OrderedCss>, n: nat) {
    |cs| == 2 * n
    && forall i :: 0 <= i < n ==> cs[i + n] == OrderedCss(cs[i].css.(childCombinator := "*"), cs[i].order)
  }

  /** A transform that gives the same rules whether the child combinator is
      set to `*` before it or after it. */
  ghost predicate CommutesWithStar(conv: Css -> seq<Css>) {
    forall c: Css :: |conv(c.(childCombinator := "*"))| == |conv(c)|
      && forall i :: 0 <= i < |conv(c)| ==> conv(c.(childCombinator := "*"))[i] == conv(c)[i].(childCombinator := "*")
  }

  /** A transform whose second result is its first with child combinator `*`
      pairs every rule with its copy. */
  lemma ForkPairs(conv: Css -> seq<Css>, cs: seq<OrderedCss>)
    requires forall c: Css :: |conv(c)| == 2 && conv(c)[1] == conv(c)[0].(childCombinator := "*")
    ensures StepAll(conv, cs).Some? && Paired(StepAll(conv, cs).value, |cs|)
  {
    StepShape(conv, cs);
    SecondsAllFork(conv, cs);
    ForksUniform(conv, cs, 2);
    var r := StepAll(conv, cs).value;
    forall i | 0 <= i < |cs| ensures r[i + |cs|] == OrderedCss(r[i].css.(childCombinator := "*"), r[i].order) {
      assert r[i + |cs|] == Seconds(conv, cs)[i];
    }
  }

  /** A transform that never forks and commutes with `*` keeps paired rules paired. */
  lemma StepKeepsPairs(conv: Css -> seq<Css>, cs: seq<OrderedCss>, n: nat, m: nat)
    requires forall c: Css :: |conv(c)| == m
    requires m < 2 && CommutesWithStar(conv)
    requires Paired(cs, n)
    ensures StepAll(conv, cs).Some? ==> Paired(StepAll(conv, cs).value, n)
  {
    if StepAll(conv, cs).Some? {
      StepShape(conv, cs);
      ForksUniform(conv, cs, m);
      var r := StepAll(conv, cs).value;
      forall i | 0 <= i < n ensures r[i + n] == OrderedCss(r[i].css.(childCombinator := "*"), r[i].order) {
        var c := cs[i].css;
        assert cs[i + n].css == c.(childCombinator := "*");
        assert conv(c) != [];
        assert conv(c.(childCombinator := "*"))[0] == conv(c)[0].(childCombinator := "*");
      }
    }
  }

  // ---------------------------------------------------------------- the loop

  /** The slice after the first j iterations: the first j rules replaced, the
      others untouched, the forks of the first j rules appended. */
  function Partial(conv: Css -> seq<Css>, cs: seq<OrderedCss>, j: nat): seq<OrderedCss>
    requires j <= |cs| && AllConvert(conv, cs[..j])
  {
    Firsts(conv, cs[..j]) + cs[j..] + Seconds(conv, cs[..j])
  }

  lemma PartialAt(conv: Css -> seq<Css>, cs: seq<OrderedCss>, j: nat)
    requires j < |cs| && AllConvert(conv, cs[..j])
    ensures |Partial(conv, cs, j)| > j && Partial(conv, cs, j)[j] == cs[j]
    ensures conv(cs[j].css) == [] ==> !AllConvert(conv, cs)
  {
    assert (Firsts(conv, cs[..j]) + cs[j..])[j] == cs[j..][0];
  }

  lemma PartialStep(conv: Css -> seq<Css>, cs: seq<OrderedCss>, j: nat)
    requires j < |cs| && AllConvert(conv, cs[..j]) && conv(cs[j].css) != []
    ensures AllConvert(conv, cs[..j + 1])
    ensures var res := conv(cs[j].css);
      Partial(conv, cs, j)[j := OrderedCss(res[0], cs[j].order)]
        + (if |res| == 2 then [OrderedCss(res[1], cs[j].order)] else [])
      == Partial(conv, cs, j + 1)
  {
    var res := conv(cs[j].css);
    var pre, pre' := cs[..j], cs[..j + 1];
    assert pre'[..j] == pre;
    assert AllConvert(conv, pre') by {
      forall i | 0 <= i < j + 1 ensures conv(pre'[i].css) != [] {
        if i < j { assert pre'[i] == pre[i]; }
      }
    }
    var f, f' := Firsts(conv, pre), Firsts(conv, pre');
    assert f' == f + [OrderedCss(res[0], cs[j].order)];
    var p := Partial(conv, cs, j);
    assert cs[j..] == [cs[j]] + cs[j + 1..];
    assert p[j := OrderedCss(res[0], cs[j].order)] == f' + cs[j + 1..] + Seconds(conv, pre);
  }

  /** The counted inner loop of `createCSSFromClassInformation`. */
  method ApplyStep(conv: Css -> seq<Css>, cs: seq<OrderedCss>) returns (res: Option<seq<OrderedCss>>)
    ensures res == StepAll(conv, cs)
  {
    var csses := cs;
    var l := |csses|;
    assert cs[..0] == [];
    for j := 0 to l
      invariant AllConvert(conv, cs[..j])
      invariant csses == Partial(conv, cs, j)
    {
      PartialAt(conv, cs, j);
      var c := csses[j];
      var out := conv(c.css);
      if |out| == 0 {
        return None;
      }
      PartialStep(conv, cs, j);
      csses := csses[j := OrderedCss(out[0], c.order)];
      if |out| == 2 {
        csses := csses + [OrderedCss(out[1], c.order)];
      }
    }
    assert cs[..l] == cs && cs[l..] == [];
    assert csses == Firsts(conv, cs) + Seconds(conv, cs);
    return Some(csses);
  }
}
