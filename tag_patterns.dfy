/** The four PCRE patterns `Hiccup::handle_tag` scans a tag spec with, as
    matcher functions. Each is specified against a predicate saying which
    lengths of its lazy groups let the rest of the pattern match: a lazy group
    takes the shortest such length. */
module TagPatterns {
  import opened Wrappers
  import opened PhpText

  /** The characters that may start a token. */
  predicate IsSigil(c: char) {
    c == '#' || c == '.' || c == '['
  }

  /** The end of the greedy `\s*` that starts at `i`: the first position from
      `i` on that does not hold white space. */
  function SkipSpace(s: string, i: nat): (j: nat)
    requires i <= |s|
    ensures i <= j <= |s|
    ensures forall x :: i <= x < j ==> IsSpace(s[x])
    ensures j == |s| || !IsSpace(s[j])
    decreases |s| - i
  {
    if i < |s| && IsSpace(s[i]) then SkipSpace(s, i + 1) else i
  }

  predicate NonSpace(s: string, i: nat, j: nat)
    requires i <= j <= |s|
  {
    forall x :: i <= x < j ==> !IsSpace(s[x])
  }

  /** `\s*(?=[#.[]|$)` at `j`: after the spaces comes a sigil or the end.
      (PCRE's `$` also matches before a final line feed, but the greedy `\s*`
      has then already reached the end.) */
  predicate AtTokenEnd(s: string, j: nat)
    requires j <= |s|
  {
    var e := SkipSpace(s, j);
    e == |s| || IsSigil(s[e])
  }

  /** `(\S*?)\s*(?=[#.[]|$)` matches with a group of length `k` at `p`. */
  predicate RunFits(s: string, p: nat, k: nat)
    requires p <= |s|
  {
    p + k <= |s| && NonSpace(s, p, p + k) && AtTokenEnd(s, p + k)
  }

  /** The lazy group: the least length from `k` on that fits. */
  function ShortestRun(s: string, p: nat, k: nat): (r: Option<nat>)
    requires p + k <= |s| && NonSpace(s, p, p + k)
    ensures r.Some? ==> k <= r.value && RunFits(s, p, r.value)
    ensures r.Some? ==> forall k': nat :: k <= k' < r.value ==> !RunFits(s, p, k')
    ensures r.None? ==> forall k': nat :: k <= k' ==> !RunFits(s, p, k')
    decreases |s| - p - k
  {
    if AtTokenEnd(s, p + k) then Some(k)
    else if p + k < |s| && !IsSpace(s[p + k]) then ShortestRun(s, p, k + 1)
    else None
  }

  /** A lazy run never holds a sigil: at the first one it would already fit. */
  lemma RunHasNoSigil(s: string, p: nat, k: nat, j: nat)
    requires p <= |s| && RunFits(s, p, k) && j < k
    requires forall k': nat :: j <= k' < k ==> !RunFits(s, p, k')
    ensures !IsSigil(s[p + j])
  {
    if IsSigil(s[p + j]) {
      assert RunFits(s, p, j);
    }
  }

  lemma RunHasNoSigils(s: string, p: nat, k: nat)
    requires p <= |s| && RunFits(s, p, k)
    requires forall k': nat :: k' < k ==> !RunFits(s, p, k')
    ensures forall j :: p <= j < p + k ==> !IsSigil(s[j])
  {
    forall j | p <= j < p + k
      ensures !IsSigil(s[j])
    {
      RunHasNoSigil(s, p, k, j - p);
    }
  }

  /** A match of one of the patterns: the capture group(s) and the offset just
      past the whole match. */
  datatype TagMatch = TagMatch(group: string, end: nat)

  /** The tag-name pattern matches with a group of length `k`: the group
      starts after the leading white space. */
  predicate TagNameFits(s: string, k: nat) {
    RunFits(s, SkipSpace(s, 0), k)
  }

  /** `preg_match('/^\s*(\S+?)\s*(?=[#.[]|$)/', $spec)`. */
  function MatchTagName(s: string): (r: Option<TagMatch>)
    ensures r.None? <==> forall k: nat :: 1 <= k ==> !TagNameFits(s, k)
    ensures r.Some? ==>
      var a, k := SkipSpace(s, 0), |r.value.group|;
      && 1 <= k && a + k <= |s| && r.value.group == s[a..a + k]
      && RunFits(s, a, k) && (forall k': nat :: 1 <= k' < k ==> !RunFits(s, a, k'))
      && r.value.end == SkipSpace(s, a + k)
  {
    var a := SkipSpace(s, 0);
    var run := if a < |s| then ShortestRun(s, a, 1) else None;
    if run.Some? then
      var k := run.value;
      assert TagNameFits(s, k);
      Some(TagMatch(s[a..a + k], SkipSpace(s, a + k)))
    else None
  }

  /** `.*?` may not cross a line feed. */
  predicate NoNewline(s: string, i: nat, j: nat)
    requires i <= j <= |s|
  {
    forall x :: i <= x < j ==> s[x] != '\n'
  }

  /** `(.*?)\s*(?=\[|$)` matches with a group of length `m` at `c`. */
  predicate ValueFits(s: string, c: nat, m: nat)
    requires c <= |s|
  {
    c + m <= |s| && NoNewline(s, c, c + m)
    && (var e := SkipSpace(s, c + m); e == |s| || s[e] == '[')
  }

  function ShortestValue(s: string, c: nat, m: nat): (r: Option<nat>)
    requires c + m <= |s| && NoNewline(s, c, c + m)
    ensures r.Some? ==> m <= r.value && ValueFits(s, c, r.value)
    ensures r.Some? ==> forall m': nat :: m <= m' < r.value ==> !ValueFits(s, c, m')
    ensures r.None? ==> forall m': nat :: m <= m' ==> !ValueFits(s, c, m')
    decreases |s| - c - m
  {
    if ValueFits(s, c, m) then Some(m)
    else if c + m < |s| && s[c + m] != '\n' then ShortestValue(s, c, m + 1)
    else None
  }

  /** `(\S+?)\s*]` matches with a name of length `k` at `a`. */
  predicate NameFits(s: string, a: nat, k: nat)
    requires a <= |s|
  {
    1 <= k && a + k <= |s| && NonSpace(s, a, a + k)
    && SkipSpace(s, a + k) < |s| && s[SkipSpace(s, a + k)] == ']'
  }

  /** `(\S+?)\s*](.*?)\s*(?=\[|$)` matches with a name of length `k` and a value
      of length `m`. */
  predicate BracketFits(s: string, a: nat, k: nat, m: nat)
    requires a <= |s|
  {
    NameFits(s, a, k) && ValueFits(s, SkipSpace(s, a + k) + 1, m)
  }

  /** The two lazy groups: PCRE tries every value length for a name length
      before it lengthens the name, so the match is the least pair in
      lexicographic order. */
  function ShortestBracket(s: string, a: nat, k: nat): (r: Option<(nat, nat)>)
    requires 1 <= k && a + k <= |s| && NonSpace(s, a, a + k)
    ensures r.Some? ==> k <= r.value.0 && BracketFits(s, a, r.value.0, r.value.1)
    ensures r.Some? ==> forall k': nat, m': nat :: k <= k' < r.value.0 ==> !BracketFits(s, a, k', m')
    ensures r.Some? ==> forall m': nat :: m' < r.value.1 ==> !BracketFits(s, a, r.value.0, m')
    ensures r.None? ==> forall k': nat, m': nat :: k <= k' ==> !BracketFits(s, a, k', m')
    decreases |s| - a - k
  {
    match ValueFor(s, a, k)
    case Some(m) => Some((k, m))
    case None =>
      if a + k < |s| && !IsSpace(s[a + k]) then
        var r := ShortestBracket(s, a, k + 1);
        MissesExtend(s, a, k, r);
        r
      else
        NameEndsAt(s, a, k);
        None
  }

  /** The lazy value group for the name length `k`, if that name fits. */
  function ValueFor(s: string, a: nat, k: nat): (r: Option<nat>)
    requires a <= |s|
    ensures r.Some? ==> BracketFits(s, a, k, r.value) && forall m': nat :: m' < r.value ==> !BracketFits(s, a, k, m')
    ensures r.None? ==> forall m: nat :: !BracketFits(s, a, k, m)
  {
    if NameFits(s, a, k) then ShortestValue(s, SkipSpace(s, a + k) + 1, 0) else None
  }

  /** Misses at the name length `k` and above it, up to the match found from
      `k + 1` on (or everywhere when there is none), are misses from `k` on. */
  lemma MissesExtend(s: string, a: nat, k: nat, r: Option<(nat, nat)>)
    requires a <= |s| && forall m: nat :: !BracketFits(s, a, k, m)
    requires r.Some? ==> forall k': nat, m': nat :: k + 1 <= k' < r.value.0 ==> !BracketFits(s, a, k', m')
    requires r.None? ==> forall k': nat, m': nat :: k + 1 <= k' ==> !BracketFits(s, a, k', m')
    ensures r.Some? ==> forall k': nat, m': nat :: k <= k' < r.value.0 ==> !BracketFits(s, a, k', m')
    ensures r.None? ==> forall k': nat, m': nat :: k <= k' ==> !BracketFits(s, a, k', m')
  {
  }

  /** A name cannot run past white space or the end of the spec. */
  lemma NameEndsAt(s: string, a: nat, k: nat)
    requires a + k <= |s| && (a + k == |s| || IsSpace(s[a + k]))
    ensures forall k': nat, m': nat :: k < k' ==> !BracketFits(s, a, k', m')
  {
    forall k': nat, m': nat | k < k'
      ensures !BracketFits(s, a, k', m')
    {
      if a + k < |s| {
        assert IsSpace(s[a + k]);
      }
    }
  }

  /** `preg_match('/^#(\S*?)\s*(?=[#.[]|$)/', ...)` (and the same pattern with
      `.`) with the group starting at `p`, just past the sigil: the group is
      the shortest run that the lookahead accepts. */
  function MatchRun(s: string, p: nat): (r: Option<TagMatch>)
    requires p <= |s|
    ensures r.None? <==> forall k: nat :: !RunFits(s, p, k)
    ensures r.Some? ==>
      var k := |r.value.group|;
      && p + k <= |s| && r.value.group == s[p..p + k]
      && RunFits(s, p, k) && (forall k': nat :: k' < k ==> !RunFits(s, p, k'))
      && r.value.end == SkipSpace(s, p + k)
  {
    var run := ShortestRun(s, p, 0);
    if run.Some? then
      var k := run.value;
      Some(TagMatch(s[p..p + k], SkipSpace(s, p + k)))
    else None
  }

  /** An `#id` or `.class` token holds neither white space nor a sigil, and
      after it come only white space and then a sigil or the end. */
  lemma RunShape(s: string, p: nat)
    requires p <= |s| && MatchRun(s, p).Some?
    ensures var g := MatchRun(s, p).value.group;
      forall i :: 0 <= i < |g| ==> !IsSpace(g[i]) && !IsSigil(g[i])
    ensures var e := MatchRun(s, p).value.end; e == |s| || IsSigil(s[e])
  {
    var m := MatchRun(s, p).value;
    RunHasNoSigils(s, p, |m.group|);
  }

  /** A `[name]value` match: the name, the value and the offset past the match. */
  datatype BracketMatch = BracketMatch(name: string, value: string, end: nat)

  /** The match PCRE reports: the least name length and, for it, the least
      value length that fit. */
  ghost predicate IsLeastBracket(s: string, a: nat, k: nat, m: nat)
    requires a <= |s|
  {
    && BracketFits(s, a, k, m)
    && (forall k': nat, m': nat :: k' < k ==> !BracketFits(s, a, k', m'))
    && (forall m': nat :: m' < m ==> !BracketFits(s, a, k, m'))
  }

  /** The groups and the end of the match with a name of length `k` at `a` and
      a value of length `m`. */
  function BracketAt(s: string, a: nat, k: nat, m: nat): (r: BracketMatch)
    requires a <= |s| && BracketFits(s, a, k, m)
    ensures a < r.end <= |s|
  {
    var c := SkipSpace(s, a + k) + 1;
    BracketMatch(s[a..a + k], s[c..c + m], SkipSpace(s, c + m))
  }

  /** The bracket pattern matches at `p`, just past the `[`, with a name of
      length `k` and a value of length `m`. */
  predicate BracketMatchFits(s: string, p: nat, k: nat, m: nat)
    requires p <= |s|
  {
    BracketFits(s, SkipSpace(s, p), k, m)
  }

  /** `preg_match('/^\[\s*(\S+?)\s*](.*?)\s*(?=\[|$)/', ...)` with `p` just past
      the `[`. */
  function MatchBracket(s: string, p: nat): (r: Option<BracketMatch>)
    requires p <= |s|
    ensures r.None? <==> forall k: nat, m: nat :: !BracketMatchFits(s, p, k, m)
    ensures r.Some? ==>
      var a := SkipSpace(s, p);
      && IsLeastBracket(s, a, |r.value.name|, |r.value.value|)
      && r.value == BracketAt(s, a, |r.value.name|, |r.value.value|)
    ensures r.Some? ==> p < r.value.end <= |s|
  {
    var a := SkipSpace(s, p);
    var found := if a < |s| then ShortestBracket(s, a, 1) else None;
    if found.Some? then
      var k, m := found.value.0, found.value.1;
      var b := BracketAt(s, a, k, m);
      assert BracketMatchFits(s, p, k, m);
      assert |b.name| == k && |b.value| == m;
      Some(b)
    else None
  }

  lemma LeastValueHasNoBracket(s: string, a: nat, k: nat, m: nat)
    requires a <= |s| && IsLeastBracket(s, a, k, m)
    ensures var c := SkipSpace(s, a + k) + 1;
      forall x :: c <= x < c + m ==> s[x] != '[' && s[x] != '\n'
  {
    var c := SkipSpace(s, a + k) + 1;
    forall x | c <= x < c + m
      ensures s[x] != '['
    {
      assert !BracketFits(s, a, k, x - c);
      assert NoNewline(s, c, x);
      assert s[x] == '[' ==> SkipSpace(s, x) == x;
    }
  }

  lemma LeastValueIsTrimmed(s: string, a: nat, k: nat, m: nat)
    requires a <= |s| && IsLeastBracket(s, a, k, m)
    ensures var c := SkipSpace(s, a + k) + 1;
      m == 0 || !IsSpace(s[c + m - 1])
  {
    var c := SkipSpace(s, a + k) + 1;
    if m > 0 && IsSpace(s[c + m - 1]) {
      assert SkipSpace(s, c + m - 1) == SkipSpace(s, c + m);
      assert ValueFits(s, c, m - 1);
      assert BracketFits(s, a, k, m - 1);
    }
  }

  /** What a bracket attribute can be: the name is not empty and holds no white
      space; the value holds no `[` and no line feed, does not end in white
      space, and is followed, after white space, by the next `[` or the end of
      the spec, so `#` and `.` after a bracket attribute belong to its value. */
  lemma BracketShape(s: string, p: nat)
    requires p <= |s| && MatchBracket(s, p).Some?
    ensures var b := MatchBracket(s, p).value;
      && b.name != [] && (forall i :: 0 <= i < |b.name| ==> !IsSpace(b.name[i]))
      && (forall i :: 0 <= i < |b.value| ==> b.value[i] != '[' && b.value[i] != '\n')
      && (b.value == [] || !IsSpace(b.value[|b.value| - 1]))
      && (b.end == |s| || s[b.end] == '[')
  {
    var b := MatchBracket(s, p).value;
    LeastBracketShape(s, SkipSpace(s, p), |b.name|, |b.value|);
  }

  lemma LeastBracketShape(s: string, a: nat, k: nat, m: nat)
    requires a <= |s| && IsLeastBracket(s, a, k, m)
    ensures var b := BracketAt(s, a, k, m);
      && b.name != [] && (forall i :: 0 <= i < |b.name| ==> !IsSpace(b.name[i]))
      && (forall i :: 0 <= i < |b.value| ==> b.value[i] != '[' && b.value[i] != '\n')
      && (b.value == [] || !IsSpace(b.value[|b.value| - 1]))
      && (b.end == |s| || s[b.end] == '[')
  {
    LeastValueHasNoBracket(s, a, k, m);
    LeastValueIsTrimmed(s, a, k, m);
  }

  /** A token of the spec after the tag name. */
  datatype Token =
    | Hash(id: string)
    | Dot(name: string)
    | Bracket(name: string, value: string)

  /** A token with the text its pattern matched (`$match[0]`). */
  datatype Lexeme = Lexeme(token: Token, text: string)

  /** The three patterns tried at `off`, in the source's order. Each pattern
      begins with its own literal sigil, so at most one of them can match. The
      token carries the pattern's groups, and its text runs from the sigil to
      the end of the match. */
  function NextToken(s: string, off: nat): (r: Option<Lexeme>)
    requires off < |s|
    ensures r.Some? ==> 0 < |r.value.text| <= |s| - off && r.value.text == s[off..off + |r.value.text|]
    ensures r.Some? <==>
      || ((s[off] == '#' || s[off] == '.') && MatchRun(s, off + 1).Some?)
      || (s[off] == '[' && MatchBracket(s, off + 1).Some?)
    ensures (s[off] == '#' || s[off] == '.') && MatchRun(s, off + 1).Some? ==>
      var m := MatchRun(s, off + 1).value;
      off < m.end <= |s|
      && r == Some(Lexeme(if s[off] == '#' then Hash(m.group) else Dot(m.group), s[off..m.end]))
    ensures s[off] == '[' && MatchBracket(s, off + 1).Some? ==>
      var b := MatchBracket(s, off + 1).value;
      r == Some(Lexeme(Bracket(b.name, b.value), s[off..b.end]))
  {
    if s[off] == '#' || s[off] == '.' then
      match MatchRun(s, off + 1)
      case Some(m) => Some(Lexeme(if s[off] == '#' then Hash(m.group) else Dot(m.group), s[off..m.end]))
      case None => None
    else if s[off] == '[' then
      match MatchBracket(s, off + 1)
      case Some(b) => Some(Lexeme(Bracket(b.name, b.value), s[off..b.end]))
      case None => None
    else None
  }
}
