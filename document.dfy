/** The two query helpers of the parser (`get_node_content`, `get_node_attribute`).
    HTML parsing and CSS selector matching belong to the `scraper` crate; the parsed page is
    represented here by what a query can observe of it: for each selector, the elements it
    matches, in document order. */
module Document {
  import opened Wrappers
  import opened Text

  /** One matched element: its inner HTML and its attributes. */
  datatype Element = Element(innerHtml: string, attributes: map<string, string>)

  /** A parsed page: `matches[sel]` lists the elements `sel` selects, in document order;
      a selector missing from the map selects nothing. */
  datatype Html = Html(matches: map<string, seq<Element>>)

  /** What `doc.select(&sel)` yields, as the page representation records it. */
  function Select(doc: Html, selector: string): (es: seq<Element>)
  {
    if selector in doc.matches then doc.matches[selector] else []
  }

  /** `doc.select(&sel).next()`: the first match in document order, if any. */
  function FirstMatch(doc: Html, selector: string): (r: Option<Element>)
    ensures r.None? <==> Select(doc, selector) == []
    ensures r.Some? ==> r.value == Select(doc, selector)[0]
  {
    var es := Select(doc, selector);
    if es == [] then None else Some(es[0])
  }

  /** `get_node_content`: the trimmed inner HTML of the first match. */
  function GetNodeContent(doc: Html, selector: string): (r: Option<string>)
    ensures r.None? <==> Select(doc, selector) == []
    ensures r.Some? ==> Trimmed(r.value)
    ensures r.Some? ==> r.value == Trim(Select(doc, selector)[0].innerHtml)
  {
    match FirstMatch(doc, selector)
    case None => None
    case Some(e) => Some(Trim(e.innerHtml))
  }

  /** `get_node_attribute`: the raw value of `attribute` on the first match; absent when
      nothing matches or when the first match lacks the attribute. */
  function GetNodeAttribute(doc: Html, selector: string, attribute: string): (r: Option<string>)
    ensures r.Some? <==> Select(doc, selector) != [] && attribute in Select(doc, selector)[0].attributes
    ensures r.Some? ==> r.value == Select(doc, selector)[0].attributes[attribute]
  {
    match FirstMatch(doc, selector)
    case None => None
    case Some(e) => if attribute in e.attributes then Some(e.attributes[attribute]) else None
  }

  /** The first-match rule: elements after the first never influence either query, so a
      later match carrying the attribute does not rescue a first match that lacks it. */
  lemma FirstMatchDecides(doc: Html, selector: string, first: Element, rest: seq<Element>, attribute: string)
    requires Select(doc, selector) == [first] + rest
    ensures GetNodeContent(doc, selector) == Some(Trim(first.innerHtml))
    ensures attribute !in first.attributes ==> GetNodeAttribute(doc, selector, attribute) == None
    ensures attribute in first.attributes ==>
              GetNodeAttribute(doc, selector, attribute) == Some(first.attributes[attribute])
  {
  }
}
