/** The intermediate representation of one generated CSS rule. The same three
    record types appear in main.go and in the older css.go. */
module Rules {

  /** One `property: value` pair. */
  datatype Declaration = Declaration(property: string, value: string)

  /** One rule: the selector it is rendered for, the selector-shaping parts that
      variants change, the wrapping conditions and the declarations. */
  datatype Css = Css(
    selector: string,
    groupSelector: string,
    peerSelector: string,
    pseudoClasses: seq<string>,
    pseudoElements: seq<string>,
    childCombinator: string,
    mediaQueries: seq<string>,
    supportsStatements: seq<string>,
    attributeSelectors: seq<string>,
    declarations: seq<Declaration>)

  /** A rule with the integer that decides its place in the output. */
  datatype OrderedCss = OrderedCss(css: Css, order: int)

  /** The zero value of `CSS`. */
  const EmptyCss := Css("", "", "", [], [], "", [], [], [], [])

  /** A rule that sets the one declaration (property, value), as every base class builds it. */
  function SingleDeclaration(property: string, value: string, order: int): (r: OrderedCss)
    ensures r.order == order && r.css.declarations == [Declaration(property, value)]
    ensures r.css.selector == "" && r.css.pseudoClasses == [] && r.css.mediaQueries == []
  {
    OrderedCss(EmptyCss.(declarations := [Declaration(property, value)]), order)
  }

  /** `CSSDeepCopy`: copies every field, the sequences element by element. Under
      value semantics the copy is equal to the original and shares nothing with it. */
  function DeepCopy(c: Css): (r: Css)
    ensures r == c
  {
    Css(c.selector, c.groupSelector, c.peerSelector,
        c.pseudoClasses[..], c.pseudoElements[..], c.childCombinator,
        c.mediaQueries[..], c.supportsStatements[..], c.attributeSelectors[..],
        c.declarations[..])
  }
}
