/** The renderer of `Hiccup`: `html()` walks its elements in order and
    appends the HTML of each; a tag array goes through `handle_tag`, which
    scans the tag spec, merges the explicit attribute override, writes the
    opening tag and renders the children. */
module Hiccup {
  import opened Wrappers
  import opened PhpText
  import opened Errors
  import opened Assoc
  import opened Attributes
  import opened TagSpec

  /** The values `html()` accepts, as a closed union. The source tells them
      apart by their runtime shape; here the caller picks the variant, and in
      particular a tag array says outright whether its second element is the
      attribute override (the source takes an array child with no entries or
      a string first key for one).
      - `Null`: PHP `null`, which renders as nothing;
      - `Text`: a scalar, or a `Stringable` given by its string form;
      - `Raw`: a `Hiccup` made by `raw()`, trusted HTML;
      - `Items`: an iterable that is not an array (what the combinators give);
      - `Tag`: a tag array: its spec, the override, and the children;
      - `Template`: a `Template`, given by the node its `hiccup()` returns;
      - `Other`: any other value, with the type text of the error message. */
  datatype Node =
    | Null
    | Text(x: Scalar)
    | Raw(html: string)
    | Items(items: seq<Node>)
    | Tag(spec: string, override: Option<Override>, children: seq<Node>)
    | Template(body: Node)
    | Other(description: string)

  /** The tags that get no closing tag and take no children (compared exactly,
      so `BR` is not one of them). */
  const VoidTags: seq<string> := [
    "area", "base", "br", "col", "command", "embed", "frame", "hr", "img", "input", "keygen",
    "link", "menuitem", "meta", "param", "source", "track", "wbr"]

  /** The number of nodes in a tree, the measure the renderer recurses on. */
  function Size(n: Node): (r: nat)
    ensures r >= 1
  {
    match n
    case Items(items) => 1 + SizeAll(items)
    case Tag(_, _, children) => 1 + SizeAll(children)
    case Template(body) => 1 + Size(body)
    case _ => 1
  }

  function SizeAll(ns: seq<Node>): nat {
    if ns == [] then 0 else SizeAll(ns[..|ns| - 1]) + Size(ns[|ns| - 1])
  }

  lemma SizeSingle(n: Node)
    ensures SizeAll([n]) == Size(n)
  {
    assert [n][..0] == [];
  }

  lemma {:induction false} SizeAllBound(ns: seq<Node>, i: nat)
    requires i < |ns|
    ensures Size(ns[i]) <= SizeAll(ns)
  {
    if i < |ns| - 1 {
      SizeAllBound(ns[..|ns| - 1], i);
    }
  }

  // ---------------------------------------------------------------------------
  // What the renderer produces

  /** `html(...$ns)`: the HTML of every element in order; the first error
      aborts the whole call. An element's key is its position. */
  function RenderAll(ns: seq<Node>): Result<string, Error>
    decreases SizeAll(ns), 1
  {
    if ns == [] then Ok("")
    else
      var before :- RenderAll(ns[..|ns| - 1]);
      var last :- Render(ns[|ns| - 1], |ns| - 1);
      Ok(before + last)
  }

  /** One element of `html()` at the key `key`. */
  function Render(n: Node, key: nat): Result<string, Error>
    decreases Size(n), 0
  {
    match n
    case Null => Ok("")
    case Text(x) => Ok(Escape(StringOf(x)))
    case Raw(h) => Ok(h)
    case Items(items) => RenderItems(items)
    case Tag(spec, override, children) => RenderTag(spec, override, children)
    case Template(body) => Render(body, 0)
    case Other(description) => Err(NotStringable(key, description))
  }

  /** An iterable: `html($item)` for each item, so each at key 0. */
  function RenderItems(items: seq<Node>): Result<string, Error>
    decreases SizeAll(items), 2
  {
    if items == [] then Ok("")
    else
      var before :- RenderItems(items[..|items| - 1]);
      var last :- Render(items[|items| - 1], 0);
      Ok(before + last)
  }

  /** `handle_tag($spec, ...)`: scan the spec, then write the element. */
  function RenderTag(spec: string, override: Option<Override>, children: seq<Node>): Result<string, Error>
    decreases SizeAll(children), 3
  {
    var parsed :- ParseSpec(spec);
    RenderElement(parsed, override, children)
  }

  /** The inline attributes with the explicit override, if any, merged over them. */
  function Overridden(attrs: Attrs, override: Option<Override>): Result<Attrs, Error> {
    if override.Some? then Merge(attrs, override.value) else Ok(attrs)
  }

  /** The rest of `handle_tag`: merge the override, write the opening tag with
      its attributes, then the children and the closing tag, unless the tag is
      void, which takes no children. */
  function RenderElement(parsed: Parsed, override: Option<Override>, children: seq<Node>): Result<string, Error>
    decreases SizeAll(children), 2
  {
    var attrs :- Overridden(parsed.attrs, override);
    var attributes :- AttributesHtml(attrs);
    var open := "<" + parsed.tag + attributes + ">";
    if parsed.tag !in VoidTags then
      var inner :- RenderAll(children);
      Ok(open + inner + "</" + parsed.tag + ">")
    else if children != [] then Err(VoidTagChildren(parsed.tag))
    else Ok(open)
  }

  // ---------------------------------------------------------------------------
  // The renderer as the source writes it

  /** `Hiccup::html`: the loop over the elements appending to `$html`. */
  method Html(elements: seq<Node>) returns (r: Result<string, Error>)
    ensures r == RenderAll(elements)
    decreases SizeAll(elements), 1
  {
    var html := "";
    for key := 0 to |elements|
      invariant RenderAll(elements[..key]) == Ok(html)
    {
      assert elements[..key + 1][..key] == elements[..key];
      SizeAllBound(elements, key);
      var piece: Result<string, Error>;
      match elements[key] {
        case Null =>
          piece := Ok("");
        case Text(x) =>
          piece := Ok(Escape(StringOf(x)));
        case Raw(h) =>
          piece := Ok(h);
        case Items(items) =>
          piece := HtmlItems(items);
        case Tag(spec, override, children) =>
          piece := HandleTag(spec, override, children);
        case Template(body) =>
          SizeSingle(body);
          piece := Html([body]);
          RenderSingle(body);
        case Other(description) =>
          piece := Err(NotStringable(key, description));
      }
      assert piece == Render(elements[key], key);
      if piece.Err? {
        RenderAllFirstError(elements, key);
        return Err(piece.error);
      }
      html := html + piece.value;
    }
    assert elements[..|elements|] == elements;
    r := Ok(html);
  }

  /** The inner loop of `html` over an iterable element. */
  method HtmlItems(items: seq<Node>) returns (r: Result<string, Error>)
    ensures r == RenderItems(items)
    decreases SizeAll(items), 2
  {
    var html := "";
    for i := 0 to |items|
      invariant RenderItems(items[..i]) == Ok(html)
    {
      assert items[..i + 1][..i] == items[..i];
      SizeAllBound(items, i);
      SizeSingle(items[i]);
      var piece := Html([items[i]]);
      RenderSingle(items[i]);
      if piece.Err? {
        RenderItemsFirstError(items, i);
        return Err(piece.error);
      }
      html := html + piece.value;
    }
    assert items[..|items|] == items;
    r := Ok(html);
  }

  /** `Hiccup::handle_tag`: the scan of the spec, then the element. */
  method HandleTag(spec: string, override: Option<Override>, children: seq<Node>) returns (r: Result<string, Error>)
    ensures r == RenderTag(spec, override, children)
    decreases SizeAll(children), 3
  {
    var parsed := ParseTagSpec(spec);
    if parsed.Err? {
      return Err(parsed.error);
    }
    r := WriteElement(parsed.value, override, children);
  }

  /** The rest of `handle_tag`: the override is shifted off and merged,
      `$add_attr` writes the attributes, and the children are rendered unless
      the tag is void. */
  method WriteElement(parsed: Parsed, override: Option<Override>, children: seq<Node>) returns (r: Result<string, Error>)
    ensures r == RenderElement(parsed, override, children)
    decreases SizeAll(children), 2
  {
    var tag, attrs := parsed.tag, parsed.attrs;
    if override.Some? {
      var merged := Merge(attrs, override.value);
      if merged.Err? {
        return Err(merged.error);
      }
      attrs := merged.value;
    }
    var attributes := EmitAttributes(attrs);
    if attributes.Err? {
      return Err(attributes.error);
    }
    var html := "<" + tag + attributes.value + ">";
    if tag !in VoidTags {
      if children != [] {
        var inner := Html(children);
        if inner.Err? {
          return Err(inner.error);
        }
        html := html + inner.value;
      } else {
        assert RenderAll(children) == Ok("");
        assert html + "" == html;
      }
      html := html + "</" + tag + ">";
    } else if children != [] {
      return Err(VoidTagChildren(tag));
    }
    r := Ok(html);
  }

  // ---------------------------------------------------------------------------
  // Properties of the renderer

  /** `html($n)` renders `$n` at key 0. */
  lemma RenderSingle(n: Node)
    ensures RenderAll([n]) == Render(n, 0)
  {
    assert [n][..0] == [];
    if Render(n, 0).Ok? {
      assert "" + Render(n, 0).value == Render(n, 0).value;
    }
  }

  /** The first element that fails decides the error of the whole call. */
  lemma {:induction false} RenderAllFirstError(ns: seq<Node>, i: nat)
    requires i < |ns| && RenderAll(ns[..i]).Ok? && Render(ns[i], i).Err?
    ensures RenderAll(ns) == Err(Render(ns[i], i).error)
  {
    var p := ns[..|ns| - 1];
    if i < |ns| - 1 {
      assert p[..i] == ns[..i];
      RenderAllFirstError(p, i);
    } else {
      assert p == ns[..i];
    }
  }

  lemma {:induction false} RenderItemsFirstError(items: seq<Node>, i: nat)
    requires i < |items| && RenderItems(items[..i]).Ok? && Render(items[i], 0).Err?
    ensures RenderItems(items) == Err(Render(items[i], 0).error)
  {
    var p := items[..|items| - 1];
    if i < |items| - 1 {
      assert p[..i] == items[..i];
      RenderItemsFirstError(p, i);
    } else {
      assert p == items[..i];
    }
  }

  /** The key of an element only shows in the error for a value that is not
      renderable: a successful rendering does not depend on it. */
  lemma KeyIrrelevant(n: Node, k: nat, j: nat)
    ensures Render(n, k).Ok? ==> Render(n, j) == Render(n, k)
    ensures Render(n, k).Err? && !n.Other? ==> Render(n, j) == Render(n, k)
  {
  }

  /** A successful rendering does not depend on the keys, so `html()` of two
      lists one after the other is `html()` of their concatenation. */
  lemma {:induction false} RenderAllAppend(a: seq<Node>, b: seq<Node>)
    requires RenderAll(a).Ok? && RenderAll(b).Ok?
    ensures RenderAll(a + b) == Ok(RenderAll(a).value + RenderAll(b).value)
    decreases |b|
  {
    if b == [] {
      assert a + b == a;
      assert RenderAll(a).value + "" == RenderAll(a).value;
    } else {
      var p, x := b[..|b| - 1], b[|b| - 1];
      RenderAllAppend(a, p);
      KeyIrrelevant(x, |b| - 1, |a + p|);
      RenderAllSnoc(a + p, x);
      assert a + p + [x] == a + b;
      assert RenderAll(a).value + RenderAll(p).value + Render(x, |b| - 1).value
          == RenderAll(a).value + (RenderAll(p).value + Render(x, |b| - 1).value);
    }
  }

  lemma RenderAllSnoc(ns: seq<Node>, x: Node)
    requires RenderAll(ns).Ok? && Render(x, |ns|).Ok?
    ensures RenderAll(ns + [x]) == Ok(RenderAll(ns).value + Render(x, |ns|).value)
  {
    assert (ns + [x])[..|ns|] == ns;
  }

  /** `html()` succeeds exactly when every element renders: one bad element
      anywhere aborts the whole call. */
  lemma {:induction false} RenderAllOk(ns: seq<Node>)
    ensures RenderAll(ns).Ok? <==> forall i :: 0 <= i < |ns| ==> Render(ns[i], i).Ok?
    decreases |ns|
  {
    if ns != [] {
      var p := ns[..|ns| - 1];
      RenderAllOk(p);
      assert forall i :: 0 <= i < |p| ==> p[i] == ns[i];
    }
  }

  /** An iterable renders as its items would as elements of `html()` (only
      the key in an error message differs). */
  lemma {:induction false} ItemsFlatten(items: seq<Node>)
    ensures RenderItems(items).Ok? <==> RenderAll(items).Ok?
    ensures RenderItems(items).Ok? ==> RenderItems(items) == RenderAll(items)
    decreases |items|
  {
    if items != [] {
      var p, x := items[..|items| - 1], items[|items| - 1];
      ItemsFlatten(p);
      KeyIrrelevant(x, 0, |items| - 1);
      KeyIrrelevant(x, |items| - 1, 0);
    }
  }

  /** Text is escaped: decoding the entities gives back its string form, and
      it holds none of `< > " '`, so it can neither open a tag nor close a
      quoted attribute. */
  lemma TextIsEscaped(x: Scalar, key: nat)
    ensures Render(Text(x), key).Ok?
    ensures Unescape(Render(Text(x), key).value) == StringOf(x)
    ensures forall i :: 0 <= i < |Render(Text(x), key).value| ==> Render(Text(x), key).value[i] !in "<>\"'"
  {
    UnescapeEscape(StringOf(x));
    EscapeIsInert(StringOf(x));
  }

  /** A void tag gets no closing tag, and children for it are an error. */
  lemma VoidTagRule(parsed: Parsed, override: Option<Override>, children: seq<Node>)
    requires parsed.tag in VoidTags
    requires Overridden(parsed.attrs, override).Ok? && AttributesHtml(Overridden(parsed.attrs, override).value).Ok?
    ensures var attributes := AttributesHtml(Overridden(parsed.attrs, override).value).value;
      RenderElement(parsed, override, children)
      == if children == [] then Ok("<" + parsed.tag + attributes + ">") else Err(VoidTagChildren(parsed.tag))
  {
  }

  /** Any other tag encloses the HTML of its children, which fail it when
      they fail. */
  lemma NonVoidTagRule(parsed: Parsed, override: Option<Override>, children: seq<Node>)
    requires parsed.tag !in VoidTags
    requires Overridden(parsed.attrs, override).Ok? && AttributesHtml(Overridden(parsed.attrs, override).value).Ok?
    ensures RenderElement(parsed, override, children).Ok? <==> RenderAll(children).Ok?
    ensures RenderAll(children).Ok? ==>
      var attributes := AttributesHtml(Overridden(parsed.attrs, override).value).value;
      RenderElement(parsed, override, children).value
      == "<" + parsed.tag + attributes + ">" + RenderAll(children).value + "</" + parsed.tag + ">"
  {
  }
}
