/** The combinators of `Hiccup` that build nodes for `html()`: `raw`, and the
    generators `each`, `foreach`, `join` and `lines`. A generator is modelled
    by the finite sequence of nodes it yields, wrapped as an `Items` node when
    it is handed to `html()`. */
module Sequences {
  import opened Wrappers
  import opened PhpText
  import opened Hiccup

  /** `Hiccup::raw($html)`: trusted HTML; `null` counts as the empty string. */
  function RawOf(h: Option<string>): Node {
    Raw(h.GetOr(""))
  }

  /** Raw HTML is written verbatim, whatever it holds. */
  lemma RawIsVerbatim(h: Option<string>, key: nat)
    ensures Render(RawOf(h), key) == Ok(if h.Some? then h.value else "")
  {
  }

  /** `Hiccup::each(...$elements)`: yields its arguments, unchanged and in order. */
  function Each(elements: seq<Node>): Node {
    Items(elements)
  }

  /** An `each` renders as `html()` of its arguments would. */
  lemma EachIsHtml(elements: seq<Node>, key: nat)
    ensures Render(Each(elements), key).Ok? <==> RenderAll(elements).Ok?
    ensures RenderAll(elements).Ok? ==> Render(Each(elements), key) == RenderAll(elements)
  {
    ItemsFlatten(elements);
  }

  /** `Hiccup::foreach($items, $action)`: nothing for `null`, otherwise
      `$action($item, $key)` for every entry, in order. */
  function ForEach<K, T>(items: Option<seq<(K, T)>>, action: (T, K) -> Node): Node {
    match items
    case None => Items([])
    case Some(entries) => Items(Actions(entries, action))
  }

  function Actions<K, T>(entries: seq<(K, T)>, action: (T, K) -> Node): seq<Node> {
    if entries == [] then []
    else Actions(entries[..|entries| - 1], action) + [action(entries[|entries| - 1].1, entries[|entries| - 1].0)]
  }

  /** Every entry gives one node, the action applied to its item and its key,
      in the order of the entries. */
  lemma {:induction false} ActionsSpec<K, T>(entries: seq<(K, T)>, action: (T, K) -> Node)
    ensures |Actions(entries, action)| == |entries|
    ensures forall i :: 0 <= i < |entries| ==> Actions(entries, action)[i] == action(entries[i].1, entries[i].0)
    decreases |entries|
  {
    if entries != [] {
      ActionsSpec(entries[..|entries| - 1], action);
    }
  }

  /** A `foreach` over `null` yields nothing; over entries, it yields one
      node per entry, the action applied to that entry's item and key. */
  lemma ForEachYields<K, T>(items: Option<seq<(K, T)>>, action: (T, K) -> Node)
    ensures ForEach(items, action).Items?
    ensures items.None? ==> ForEach(items, action).items == []
    ensures items.Some? ==> |ForEach(items, action).items| == |items.value|
    ensures items.Some? ==> forall i :: 0 <= i < |items.value| ==>
      ForEach(items, action).items[i] == action(items.value[i].1, items.value[i].0)
  {
    if items.Some? {
      ActionsSpec(items.value, action);
    }
  }

  // ---------------------------------------------------------------------------
  // join and lines

  /** The elements that are not `absent` (PHP's `null`), in order. */
  function NonNull<T(==)>(xs: seq<T>, absent: T): seq<T> {
    if xs == [] then []
    else NonNull(xs[..|xs| - 1], absent) + (if xs[|xs| - 1] == absent then [] else [xs[|xs| - 1]])
  }

  /** The separator between every two consecutive nodes. */
  function Interleave<T>(separator: T, ys: seq<T>): seq<T> {
    if |ys| <= 1 then ys
    else Interleave(separator, ys[..|ys| - 1]) + [separator, ys[|ys| - 1]]
  }

  lemma NonNullDrops<T>(xs: seq<T>, absent: T, i: nat)
    requires i < |xs| && xs[i] == absent
    ensures NonNull(xs[..i + 1], absent) == NonNull(xs[..i], absent)
  {
    assert xs[..i + 1][..i] == xs[..i];
  }

  lemma NonNullKeeps<T>(xs: seq<T>, absent: T, i: nat)
    requires i < |xs| && xs[i] != absent
    ensures NonNull(xs[..i + 1], absent) == NonNull(xs[..i], absent) + [xs[i]]
  {
    assert xs[..i + 1][..i] == xs[..i];
  }

  lemma InterleaveNext<T>(separator: T, ys: seq<T>, y: T)
    requires ys != []
    ensures Interleave(separator, ys + [y]) == Interleave(separator, ys) + [separator, y]
  {
    assert (ys + [y])[..|ys|] == ys;
  }

  /** `Hiccup::join($separator, ...$elements)`: the loop with the `$first`
      flag, which skips the elements identical to `absent` (PHP's `null`) and yields the
      separator before every kept element but the first. */
  method Join<T(==)>(separator: T, elements: seq<T>, absent: T) returns (r: seq<T>)
    ensures r == Interleave(separator, NonNull(elements, absent))
  {
    r := [];
    var first := true;
    for i := 0 to |elements|
      invariant first <==> NonNull(elements[..i], absent) == []
      invariant r == Interleave(separator, NonNull(elements[..i], absent))
    {
      if elements[i] == absent {
        NonNullDrops(elements, absent, i);
        continue;
      }
      NonNullKeeps(elements, absent, i);
      if first {
        first := false;
      } else {
        InterleaveNext(separator, NonNull(elements[..i], absent), elements[i]);
        r := r + [separator];
      }
      r := r + [elements[i]];
    }
    assert elements[..|elements|] == elements;
  }

  /** `Hiccup::lines(...$lines)`: `join` with a raw line feed. */
  method Lines(lines: seq<Node>) returns (r: seq<Node>)
    ensures r == Interleave(RawOf(Some("\n")), NonNull(lines, Null))
  {
    r := Join(RawOf(Some("\n")), lines, Null);
  }

  /** `null` elements are dropped and nothing else: the kept elements are the
      non-null ones, in order, and a list without `null` is kept whole. */
  lemma {:induction false} NonNullSpec<T>(xs: seq<T>, absent: T)
    ensures forall i :: 0 <= i < |NonNull(xs, absent)| ==> NonNull(xs, absent)[i] != absent && NonNull(xs, absent)[i] in xs
    ensures forall i :: 0 <= i < |xs| && xs[i] != absent ==> xs[i] in NonNull(xs, absent)
    ensures absent !in xs ==> NonNull(xs, absent) == xs
    decreases |xs|
  {
    if xs != [] {
      var p := xs[..|xs| - 1];
      NonNullSpec(p, absent);
      assert xs == p + [xs[|xs| - 1]];
    }
  }

  /** Dropping `null` keeps the order and the multiplicity of the other
      elements: a single element is kept exactly when it is not `null`, and the
      elements of a concatenation are those of its two parts, in turn. */
  lemma {:induction false} NonNullAppend<T>(xs: seq<T>, ys: seq<T>, absent: T)
    ensures forall x :: NonNull([x], absent) == if x == absent then [] else [x]
    ensures NonNull(xs + ys, absent) == NonNull(xs, absent) + NonNull(ys, absent)
    decreases |ys|
  {
    forall x
      ensures NonNull([x], absent) == if x == absent then [] else [x]
    {
      assert [x][..0] == [];
    }
    if ys == [] {
      assert xs + ys == xs;
    } else {
      var p := ys[..|ys| - 1];
      NonNullAppend(xs, p, absent);
      assert (xs + ys)[..|xs + ys| - 1] == xs + p;
    }
  }

  /** `k` kept elements give `2k - 1` nodes, with the kept elements, in
      order, at the even positions. */
  lemma {:induction false} InterleaveKeeps<T>(separator: T, ys: seq<T>)
    ensures |Interleave(separator, ys)| == if ys == [] then 0 else 2 * |ys| - 1
    ensures forall i :: 0 <= i < |ys| ==> Interleave(separator, ys)[2 * i] == ys[i]
    decreases |ys|
  {
    if |ys| > 1 {
      var n := |ys| - 1;
      var p := ys[..n];
      InterleaveKeeps(separator, p);
      var q := Interleave(separator, p);
      assert Interleave(separator, ys) == q + [separator, ys[n]];
      forall i | 0 <= i < |ys|
        ensures Interleave(separator, ys)[2 * i] == ys[i]
      {
        if i < n {
          assert q[2 * i] == p[i];
        }
      }
    }
  }

  /** The separator sits at every odd position, that is between every two
      consecutive kept elements. */
  lemma {:induction false} InterleaveSeparates<T>(separator: T, ys: seq<T>)
    ensures |Interleave(separator, ys)| == if ys == [] then 0 else 2 * |ys| - 1
    ensures forall i :: 0 <= i < |ys| - 1 ==> Interleave(separator, ys)[2 * i + 1] == separator
    decreases |ys|
  {
    if |ys| > 1 {
      var n := |ys| - 1;
      var p := ys[..n];
      InterleaveSeparates(separator, p);
      var q := Interleave(separator, p);
      assert Interleave(separator, ys) == q + [separator, ys[n]];
      forall i | 0 <= i < n
        ensures Interleave(separator, ys)[2 * i + 1] == separator
      {
        if i < n - 1 {
          assert q[2 * i + 1] == separator;
        }
      }
    }
  }

  // ---------------------------------------------------------------------------
  // Rendering the combinators

  /** The HTML of each item of a list whose items all render. */
  function Pieces(ys: seq<Node>): (r: seq<string>)
    requires RenderItems(ys).Ok?
    ensures |r| == |ys|
  {
    if ys == [] then [] else Pieces(ys[..|ys| - 1]) + [Render(ys[|ys| - 1], 0).value]
  }

  lemma RenderItemsSnoc(ys: seq<Node>, y: Node)
    requires RenderItems(ys).Ok? && Render(y, 0).Ok?
    ensures RenderItems(ys + [y]) == Ok(RenderItems(ys).value + Render(y, 0).value)
  {
    assert (ys + [y])[..|ys|] == ys;
  }

  /** A joined list renders as the HTML of its kept elements joined by the
      HTML of the separator. */
  lemma {:induction false} RenderInterleave(separator: Node, ys: seq<Node>)
    requires Render(separator, 0).Ok? && RenderItems(ys).Ok?
    ensures RenderItems(Interleave(separator, ys)) == Ok(JoinWith(Render(separator, 0).value, Pieces(ys)))
    decreases |ys|
  {
    if |ys| == 1 {
      var v := Render(ys[0], 0).value;
      assert ys[..0] == [];
      assert Pieces(ys) == [] + [v];
      assert "" + v == v;
    } else if |ys| > 1 {
      var s := Render(separator, 0).value;
      var p, y := ys[..|ys| - 1], ys[|ys| - 1];
      RenderInterleave(separator, p);
      var q := Interleave(separator, p);
      var joined := JoinWith(s, Pieces(p));
      RenderItemsSnoc(q, separator);
      RenderItemsSnoc(q + [separator], y);
      assert q + [separator] + [y] == Interleave(separator, ys);
      PiecesSnoc(s, ys);
      assert RenderItems(Interleave(separator, ys)) == Ok(joined + s + Render(y, 0).value);
    }
  }

  lemma PiecesSnoc(s: string, ys: seq<Node>)
    requires |ys| > 1 && RenderItems(ys).Ok?
    ensures JoinWith(s, Pieces(ys)) == JoinWith(s, Pieces(ys[..|ys| - 1])) + s + Render(ys[|ys| - 1], 0).value
  {
    var p := ys[..|ys| - 1];
    assert Pieces(ys)[..|ys| - 1] == Pieces(p);
  }

  lemma RenderItemsSkipsNull(ys: seq<Node>)
    ensures RenderItems(ys + [Null]) == RenderItems(ys)
  {
    assert (ys + [Null])[..|ys|] == ys;
    if RenderItems(ys).Ok? {
      assert RenderItems(ys).value + "" == RenderItems(ys).value;
    }
  }

  lemma RenderItemsCongruent(a: seq<Node>, b: seq<Node>, y: Node)
    requires RenderItems(a) == RenderItems(b)
    ensures RenderItems(a + [y]) == RenderItems(b + [y])
  {
    assert (a + [y])[..|a|] == a;
    assert (b + [y])[..|b|] == b;
  }

  /** `null` elements render as nothing, so dropping them does not change the
      HTML of a list. */
  lemma {:induction false} NonNullRenders(xs: seq<Node>)
    ensures RenderItems(NonNull(xs, Null)) == RenderItems(xs)
    decreases |xs|
  {
    if xs != [] {
      var p, x := xs[..|xs| - 1], xs[|xs| - 1];
      NonNullRenders(p);
      assert xs == p + [x];
      var k := NonNull(p, Null);
      if x == Null {
        assert NonNull(xs, Null) == k + [] == k;
        RenderItemsSkipsNull(p);
      } else {
        assert NonNull(xs, Null) == k + [x];
        RenderItemsCongruent(k, p, x);
      }
    }
  }

  /** What `html(join($separator, ...$elements))` writes: the HTML of the
      non-null elements joined by the HTML of the separator. */
  lemma JoinRenders(separator: Node, elements: seq<Node>)
    requires Render(separator, 0).Ok? && RenderItems(elements).Ok?
    ensures RenderItems(NonNull(elements, Null)).Ok?
    ensures RenderItems(Interleave(separator, NonNull(elements, Null)))
         == Ok(JoinWith(Render(separator, 0).value, Pieces(NonNull(elements, Null))))
  {
    NonNullRenders(elements);
    RenderInterleave(separator, NonNull(elements, Null));
  }

  lemma PlainCharRenders(c: char)
    requires c !in "&<>\"'"
    ensures Render(Text(Str([c])), 0) == Ok([c])
  {
    assert [c][1..] == [];
    assert EscapeChar(c) == [c];
    assert Escape([c]) == [c] + [] == [c];
  }

  /** `join(",", "a", null, "b")` yields `"a"`, `","`, `"b"`. */
  lemma JoinExampleYields()
    ensures Interleave(Text(Str(",")), NonNull([Text(Str("a")), Null, Text(Str("b"))], Null))
         == [Text(Str("a")), Text(Str(",")), Text(Str("b"))]
  {
    var a, c, b := Text(Str("a")), Text(Str(",")), Text(Str("b"));
    var xs := [a, Null, b];
    assert xs[..0] == [];
    NonNullKeeps(xs, Null, 0);
    NonNullDrops(xs, Null, 1);
    NonNullKeeps(xs, Null, 2);
    assert xs[..3] == xs;
    var ys := [a, b];
    assert NonNull(xs, Null) == ys;
    assert ys[..1] == [a];
  }

  lemma RenderItemsThree(x: Node, y: Node, z: Node)
    requires Render(x, 0).Ok? && Render(y, 0).Ok? && Render(z, 0).Ok?
    ensures RenderItems([x, y, z]) == Ok(Render(x, 0).value + Render(y, 0).value + Render(z, 0).value)
  {
    RenderItemsSnoc([], x);
    assert [] + [x] == [x] && "" + Render(x, 0).value == Render(x, 0).value;
    RenderItemsSnoc([x], y);
    assert [x] + [y] == [x, y];
    RenderItemsSnoc([x, y], z);
    assert [x, y] + [z] == [x, y, z];
  }

  /** ... and so writes `a,b`. */
  lemma JoinExample()
    ensures RenderItems(Interleave(Text(Str(",")), NonNull([Text(Str("a")), Null, Text(Str("b"))], Null))) == Ok("a,b")
  {
    JoinExampleYields();
    PlainCharRenders('a');
    PlainCharRenders(',');
    PlainCharRenders('b');
    RenderItemsThree(Text(Str("a")), Text(Str(",")), Text(Str("b")));
    assert "a" + "," + "b" == "a,b";
  }
}
