/** The total order over generated rules (`OrderedCSSLess` in main.go). */
module Order {
  import opened Rules

  /** Go's `<` on strings: byte-wise lexicographic, a proper prefix first. */
  predicate LexLess(a: string, b: string)
    decreases |a|
  {
    if a == [] then b != []
    else if b == [] then false
    else if a[0] != b[0] then a[0] < b[0]
    else LexLess(a[1..], b[1..])
  }

  lemma {:induction false} LexLessIrreflexive(a: string)
    ensures !LexLess(a, a)
    decreases |a|
  {
    if a != [] {
      LexLessIrreflexive(a[1..]);
    }
  }

  lemma {:induction false} LexLessAsymmetric(a: string, b: string)
    ensures LexLess(a, b) ==> !LexLess(b, a)
    decreases |a|
  {
    if a != [] && b != [] && a[0] == b[0] {
      LexLessAsymmetric(a[1..], b[1..]);
    }
  }

  lemma {:induction false} LexLessTotal(a: string, b: string)
    ensures a == b || LexLess(a, b) || LexLess(b, a)
    decreases |a|
  {
    if a != [] && b != [] && a[0] == b[0] {
      LexLessTotal(a[1..], b[1..]);
      if a[1..] == b[1..] {
        assert a == [a[0]] + a[1..] && b == [b[0]] + b[1..];
      }
    }
  }

  lemma {:induction false} LexLessTransitive(a: string, b: string, c: string)
    ensures LexLess(a, b) && LexLess(b, c) ==> LexLess(a, c)
    decreases |a|
  {
    if a != [] && b != [] && c != [] && a[0] == b[0] && b[0] == c[0] {
      LexLessTransitive(a[1..], b[1..], c[1..]);
    }
  }

  /** `OrderedCSSLess`: -1, 0 or 1 comparing first the order, then the selector
      length, then the selector bytes. It is 0 exactly when order and selector
      are both equal. */
  function Compare(a: OrderedCss, b: OrderedCss): (r: int)
    ensures -1 <= r <= 1
    ensures r == 0 <==> a.order == b.order && a.css.selector == b.css.selector
  {
    var sa, sb := a.css.selector, b.css.selector;
    LexLessIrreflexive(sa);
    LexLessTotal(sa, sb);
    if a.order < b.order then -1
    else if a.order > b.order then 1
    else if |sa| < |sb| then -1
    else if |sa| > |sb| then 1
    else if LexLess(sa, sb) then -1
    else if LexLess(sb, sa) then 1
    else 0
  }

  /** The key the comparator orders by, as a strict lexicographic less-than over
      (order, selector length, selector). */
  predicate KeyLess(a: OrderedCss, b: OrderedCss) {
    a.order < b.order
    || (a.order == b.order && |a.css.selector| < |b.css.selector|)
    || (a.order == b.order && |a.css.selector| == |b.css.selector|
        && LexLess(a.css.selector, b.css.selector))
  }

  /** The comparator says -1 exactly when a comes before b by the three keys. */
  lemma CompareIsKeyOrder(a: OrderedCss, b: OrderedCss)
    ensures Compare(a, b) == -1 <==> KeyLess(a, b)
    ensures Compare(a, b) == 1 <==> KeyLess(b, a)
  {
    LexLessAsymmetric(a.css.selector, b.css.selector);
  }

  /** Swapping the arguments negates the result. */
  lemma CompareAntisymmetric(a: OrderedCss, b: OrderedCss)
    ensures Compare(a, b) == -Compare(b, a)
  {
    LexLessAsymmetric(a.css.selector, b.css.selector);
  }

  /** Both the strict and the non-strict order are transitive. */
  lemma CompareTransitive(a: OrderedCss, b: OrderedCss, c: OrderedCss)
    ensures Compare(a, b) < 0 && Compare(b, c) < 0 ==> Compare(a, c) < 0
    ensures Compare(a, b) <= 0 && Compare(b, c) <= 0 ==> Compare(a, c) <= 0
  {
    LexLessTransitive(a.css.selector, b.css.selector, c.css.selector);
    LexLessAsymmetric(a.css.selector, b.css.selector);
    LexLessAsymmetric(b.css.selector, c.css.selector);
    LexLessAsymmetric(a.css.selector, c.css.selector);
  }
}
