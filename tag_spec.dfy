/** The scan of a tag spec such as `div#main.note[title]Hello` in
    `Hiccup::handle_tag`: the tag name, then a run of `#id`, `.class` and
    `[name]value` tokens folded into the attribute array. The loop is written
    against any tokeniser that consumes a non-empty piece of the spec, and
    instantiated with the three patterns of the source. */
module TagSpec {
  import opened Wrappers
  import opened PhpText
  import opened Errors
  import opened Assoc
  import opened Attributes
  import opened TagPatterns

  /** Finds the token at an offset of the spec, if one is there. */
  type Tokeniser = (string, nat) -> Option<Lexeme>

  /** Every token `next` finds in `s` is a non-empty piece of `s` at its offset. */
  ghost predicate Consumes(next: Tokeniser, s: string) {
    forall off: nat :: off < |s| && next(s, off).Some? ==>
      0 < |next(s, off).value.text| <= |s| - off
      && next(s, off).value.text == s[off..off + |next(s, off).value.text|]
  }

  /** The three patterns of the source, tried in order. */
  const Tokenise: Tokeniser := (s: string, off: nat) => if off < |s| then NextToken(s, off) else None

  lemma TokeniseConsumes(s: string)
    ensures Consumes(Tokenise, s)
  {
    forall off: nat | off < |s| && Tokenise(s, off).Some?
      ensures 0 < |Tokenise(s, off).value.text| <= |s| - off
      ensures Tokenise(s, off).value.text == s[off..off + |Tokenise(s, off).value.text|]
    {
      assert Tokenise(s, off) == NextToken(s, off);
    }
  }

  // ---------------------------------------------------------------------------
  // Folding the tokens into the attribute array

  /** The effect of one token: a non-empty `#id` sets `id`; a non-empty
      `.name` enables the lowercased class; `[name]value` sets the lowercased
      attribute, except that `[class]` is an error. */
  function Step(attrs: Attrs, t: Token): Result<Attrs, Error> {
    match t
    case Hash(id) => Ok(if id != "" then Put(attrs, "id", Plain(Some(Str(id)))) else attrs)
    case Dot(name) => Ok(if name != "" then AddClass(attrs, Lower(name)) else attrs)
    case Bracket(name, value) =>
      if Lower(name) == "class" then Err(ClassBracketNotAllowed)
      else Ok(Put(attrs, Lower(name), Plain(Some(Str(value)))))
  }

  /** The loop of `handle_tag` from `off` on, with the attributes and the
      matched texts so far. */
  function ScanFrom(next: Tokeniser, s: string, off: nat, attrs: Attrs, trail: seq<string>): Result<Attrs, Error>
    requires off <= |s| && Consumes(next, s)
    decreases |s| - off
  {
    if off == |s| then Ok(attrs)
    else
      match next(s, off)
      case None => Err(InvalidTagSpec(trail, s[off..]))
      case Some(l) =>
        var attrs' :- Step(attrs, l.token);
        ScanFrom(next, s, off + |l.text|, attrs', trail + [l.text])
  }

  /** A scanned tag spec: the tag name and its inline attributes. */
  datatype Parsed = Parsed(tag: string, attrs: Attrs)

  /** The scan of a whole tag spec with the tokeniser `next`. */
  function Parse(next: Tokeniser, s: string): Result<Parsed, Error>
    requires Consumes(next, s)
  {
    match MatchTagName(s)
    case None => Err(InvalidTagName(s))
    case Some(m) =>
      var attrs :- ScanFrom(next, s, m.end, InitialAttrs, [s[..m.end]]);
      Ok(Parsed(m.group, attrs))
  }

  /** The scan of a whole tag spec with the patterns of the source. */
  function ParseSpec(s: string): Result<Parsed, Error> {
    TokeniseConsumes(s);
    Parse(Tokenise, s)
  }

  /** The loop of `handle_tag` from `start` on: try the patterns at the
      offset, fold the token into the attributes, record its text, and stop
      at the end of the spec or at the first error. */
  method ScanTokens(next: Tokeniser, spec: string, start: nat, trail: seq<string>) returns (r: Result<Attrs, Error>)
    requires start <= |spec| && Consumes(next, spec)
    ensures r == ScanFrom(next, spec, start, InitialAttrs, trail)
  {
    var offset, matches, attrs := start, trail, InitialAttrs;
    ghost var outcome := ScanFrom(next, spec, start, InitialAttrs, trail);
    while offset < |spec|
      invariant offset <= |spec|
      invariant ScanFrom(next, spec, offset, attrs, matches) == outcome
      decreases |spec| - offset
    {
      var l := next(spec, offset);
      if l.None? {
        ScanFromStops(next, spec, offset, attrs, matches);
        return Err(InvalidTagSpec(matches, spec[offset..]));
      }
      var step := Step(attrs, l.value.token);
      if step.Err? {
        ScanFromFails(next, spec, offset, attrs, matches);
        return Err(step.error);
      }
      ScanFromSteps(next, spec, offset, attrs, matches);
      attrs := step.value;
      offset := offset + |l.value.text|;
      matches := matches + [l.value.text];
    }
    r := Ok(attrs);
  }

  lemma ScanFromStops(next: Tokeniser, s: string, off: nat, attrs: Attrs, trail: seq<string>)
    requires off < |s| && Consumes(next, s) && next(s, off).None?
    ensures ScanFrom(next, s, off, attrs, trail) == Err(InvalidTagSpec(trail, s[off..]))
  {
  }

  lemma ScanFromFails(next: Tokeniser, s: string, off: nat, attrs: Attrs, trail: seq<string>)
    requires off < |s| && Consumes(next, s) && next(s, off).Some?
    requires Step(attrs, next(s, off).value.token).Err?
    ensures ScanFrom(next, s, off, attrs, trail) == Err(Step(attrs, next(s, off).value.token).error)
  {
  }

  lemma ScanFromSteps(next: Tokeniser, s: string, off: nat, attrs: Attrs, trail: seq<string>)
    requires off < |s| && Consumes(next, s) && next(s, off).Some?
    requires Step(attrs, next(s, off).value.token).Ok?
    ensures off + |next(s, off).value.text| <= |s|
    ensures ScanFrom(next, s, off, attrs, trail)
         == ScanFrom(next, s, off + |next(s, off).value.text|, Step(attrs, next(s, off).value.token).value,
                     trail + [next(s, off).value.text])
  {
  }

  /** The scanning part of `handle_tag`: the tag name, then the loop over
      the tokens with the patterns of the source. */
  method ParseTagSpec(spec: string) returns (r: Result<Parsed, Error>)
    ensures r == ParseSpec(spec)
  {
    var m := MatchTagName(spec);
    if m.None? {
      return Err(InvalidTagName(spec));
    }
    TokeniseConsumes(spec);
    var attrs :- ScanTokens(Tokenise, spec, m.value.end, [spec[..m.value.end]]);
    r := Ok(Parsed(m.value.group, attrs));
  }

  // ---------------------------------------------------------------------------
  // The scan as tokenising followed by a fold

  /** The tokens found from `off` on, up to the end of the spec or the first
      offset where no token is found (`stop`). */
  function Lex(next: Tokeniser, s: string, off: nat): (r: (seq<Lexeme>, nat))
    requires off <= |s| && Consumes(next, s)
    ensures off <= r.1 <= |s|
    decreases |s| - off
  {
    if off == |s| then ([], off)
    else
      match next(s, off)
      case None => ([], off)
      case Some(l) =>
        var rest := Lex(next, s, off + |l.text|);
        ([l] + rest.0, rest.1)
  }

  function Tokens(lx: seq<Lexeme>): (r: seq<Token>)
    ensures |r| == |lx|
    ensures forall i :: 0 <= i < |lx| ==> r[i] == lx[i].token
  {
    if lx == [] then [] else [lx[0].token] + Tokens(lx[1..])
  }

  function Texts(lx: seq<Lexeme>): (r: seq<string>)
    ensures |r| == |lx|
  {
    if lx == [] then [] else [lx[0].text] + Texts(lx[1..])
  }

  function Concat(parts: seq<string>): string {
    if parts == [] then "" else parts[0] + Concat(parts[1..])
  }

  lemma {:induction false} ConcatAppend(parts: seq<string>, last: string)
    ensures Concat(parts + [last]) == Concat(parts) + last
  {
    if parts != [] {
      ConcatAppend(parts[1..], last);
      assert (parts + [last])[1..] == parts[1..] + [last];
    }
  }

  /** The matched texts are consecutive pieces of the spec: together they are
      the spec from `off` up to where the scan stops, and no token is found
      there. */
  lemma {:induction false} LexCovers(next: Tokeniser, s: string, off: nat)
    requires off <= |s| && Consumes(next, s)
    ensures Concat(Texts(Lex(next, s, off).0)) == s[off..Lex(next, s, off).1]
    ensures Lex(next, s, off).1 < |s| ==> next(s, Lex(next, s, off).1).None?
    decreases |s| - off
  {
    if off < |s| {
      var t := next(s, off);
      if t.Some? {
        var l := t.value;
        var off' := off + |l.text|;
        var rest := Lex(next, s, off');
        assert Lex(next, s, off) == ([l] + rest.0, rest.1);
        assert ([l] + rest.0)[1..] == rest.0;
        LexCovers(next, s, off');
        assert s[off..rest.1] == s[off..off'] + s[off'..rest.1];
      }
    }
  }

  /** The fold of the tokens into the attribute array, stopping at the first
      error. */
  function Apply(attrs: Attrs, toks: seq<Token>): Result<Attrs, Error>
    decreases toks
  {
    if toks == [] then Ok(attrs)
    else
      var attrs' :- Step(attrs, toks[0]);
      Apply(attrs', toks[1..])
  }

  /** The scan as two passes: tokenise the rest of the spec, then fold the
      tokens; a `[class]` token fails first, and otherwise a remainder where
      no token is found is an error listing every matched text. */
  function LexThenApply(next: Tokeniser, s: string, off: nat, attrs: Attrs, trail: seq<string>): Result<Attrs, Error>
    requires off <= |s| && Consumes(next, s)
  {
    var (lx, stop) := Lex(next, s, off);
    var a :- Apply(attrs, Tokens(lx));
    if stop < |s| then Err(InvalidTagSpec(trail + Texts(lx), s[stop..])) else Ok(a)
  }

  lemma ScanTokenCase(next: Tokeniser, s: string, off: nat, attrs: Attrs, trail: seq<string>)
    requires off < |s| && Consumes(next, s) && next(s, off).Some?
    requires var l := next(s, off).value;
      && Step(attrs, l.token).Ok?
      && ScanFrom(next, s, off + |l.text|, Step(attrs, l.token).value, trail + [l.text])
         == LexThenApply(next, s, off + |l.text|, Step(attrs, l.token).value, trail + [l.text])
    ensures ScanFrom(next, s, off, attrs, trail) == LexThenApply(next, s, off, attrs, trail)
  {
    var l := next(s, off).value;
    var rest := Lex(next, s, off + |l.text|);
    assert Lex(next, s, off) == ([l] + rest.0, rest.1);
    assert ([l] + rest.0)[1..] == rest.0;
    var toks := Tokens([l] + rest.0);
    assert toks == [l.token] + Tokens(rest.0);
    assert toks[1..] == Tokens(rest.0);
    assert Apply(attrs, toks) == Apply(Step(attrs, l.token).value, Tokens(rest.0));
    assert trail + [l.text] + Texts(rest.0) == trail + Texts([l] + rest.0);
  }

  /** The scan and the two passes agree everywhere. */
  lemma {:induction false} ScanIsLexThenApply(next: Tokeniser, s: string, off: nat, attrs: Attrs, trail: seq<string>)
    requires off <= |s| && Consumes(next, s)
    ensures ScanFrom(next, s, off, attrs, trail) == LexThenApply(next, s, off, attrs, trail)
    decreases |s| - off
  {
    if off < |s| {
      var t := next(s, off);
      if t.Some? {
        var step := Step(attrs, t.value.token);
        if step.Ok? {
          ScanIsLexThenApply(next, s, off + |t.value.text|, step.value, trail + [t.value.text]);
          ScanTokenCase(next, s, off, attrs, trail);
        } else {
          ScanFailCase(next, s, off, attrs, trail);
        }
      } else {
        ScanStopCase(next, s, off, attrs, trail);
      }
    }
  }

  lemma ScanFailCase(next: Tokeniser, s: string, off: nat, attrs: Attrs, trail: seq<string>)
    requires off < |s| && Consumes(next, s) && next(s, off).Some?
    requires Step(attrs, next(s, off).value.token).Err?
    ensures ScanFrom(next, s, off, attrs, trail) == LexThenApply(next, s, off, attrs, trail)
  {
    var l := next(s, off).value;
    var rest := Lex(next, s, off + |l.text|);
    assert Lex(next, s, off) == ([l] + rest.0, rest.1);
    assert ([l] + rest.0)[1..] == rest.0;
    assert Tokens([l] + rest.0) == [l.token] + Tokens(rest.0);
  }

  lemma ScanStopCase(next: Tokeniser, s: string, off: nat, attrs: Attrs, trail: seq<string>)
    requires off < |s| && Consumes(next, s) && next(s, off).None?
    ensures ScanFrom(next, s, off, attrs, trail) == LexThenApply(next, s, off, attrs, trail)
  {
    assert Lex(next, s, off) == ([], off);
    assert trail + Texts([]) == trail;
  }

  // ---------------------------------------------------------------------------
  // What the fold does

  predicate IsClassBracket(t: Token) {
    t.Bracket? && Lower(t.name) == "class"
  }

  /** The fold fails exactly when some token is a `[class]` bracket. */
  lemma {:induction false} ApplyFails(attrs: Attrs, toks: seq<Token>)
    ensures Apply(attrs, toks).Err? <==> exists i :: 0 <= i < |toks| && IsClassBracket(toks[i])
    ensures Apply(attrs, toks).Err? ==> Apply(attrs, toks).error == ClassBracketNotAllowed
    decreases toks
  {
    if toks != [] {
      var step := Step(attrs, toks[0]);
      if step.Ok? {
        ApplyFails(step.value, toks[1..]);
        if exists i :: 0 <= i < |toks| && IsClassBracket(toks[i]) {
          var i :| 0 <= i < |toks| && IsClassBracket(toks[i]);
          assert i > 0 && toks[1..][i - 1] == toks[i];
        }
        forall i | 0 <= i < |toks| - 1 && IsClassBracket(toks[1..][i])
          ensures exists j :: 0 <= j < |toks| && IsClassBracket(toks[j])
        {
          assert toks[i + 1] == toks[1..][i];
        }
      } else {
        assert IsClassBracket(toks[0]);
      }
    }
  }

  lemma {:induction false} ApplyKeepsWellFormed(attrs: Attrs, toks: seq<Token>)
    requires WellFormed(attrs) && Apply(attrs, toks).Ok?
    ensures WellFormed(Apply(attrs, toks).value)
    decreases toks
  {
    if toks != [] {
      var next := Step(attrs, toks[0]).value;
      match toks[0] {
        case Hash(id) =>
          if id != "" {
            PutKeepsWellFormed(attrs, "id", Plain(Some(Str(id))));
          }
        case Dot(name) =>
          if name != "" {
            PutKeepsWellFormed(attrs, "class", Classes(Put(FlagsOf(attrs), Lower(name), true)));
          }
        case Bracket(name, value) =>
          PutKeepsWellFormed(attrs, Lower(name), Plain(Some(Str(value))));
      }
      ApplyKeepsWellFormed(next, toks[1..]);
    }
  }

  /** The value a token gives the attribute `k`, if it sets it. */
  function Sets(t: Token, k: string): Option<string> {
    match t
    case Hash(id) => if k == "id" && id != "" then Some(id) else None
    case Dot(_) => None
    case Bracket(name, value) => if Lower(name) == k then Some(value) else None
  }

  /** An attribute other than `class` keeps its value unless a token sets it,
      and then takes the value of the last token that does. */
  lemma {:induction false} ApplyValues(attrs: Attrs, toks: seq<Token>, k: string)
    requires k != "class" && Apply(attrs, toks).Ok?
    ensures (forall i :: 0 <= i < |toks| ==> Sets(toks[i], k).None?) ==>
      Get(Apply(attrs, toks).value, k) == Get(attrs, k)
    ensures forall i ::
      (0 <= i < |toks| && Sets(toks[i], k).Some? && (forall j :: i < j < |toks| ==> Sets(toks[j], k).None?)) ==>
      Get(Apply(attrs, toks).value, k) == Some(Plain(Some(Str(Sets(toks[i], k).value))))
    decreases toks
  {
    if toks != [] {
      var next := Step(attrs, toks[0]).value;
      assert Get(next, k) == if Sets(toks[0], k).Some? then Some(Plain(Some(Str(Sets(toks[0], k).value)))) else Get(attrs, k);
      ApplyValues(next, toks[1..], k);
      forall i | 0 <= i < |toks| && Sets(toks[i], k).Some? && (forall j :: i < j < |toks| ==> Sets(toks[j], k).None?)
        ensures Get(Apply(attrs, toks).value, k) == Some(Plain(Some(Str(Sets(toks[i], k).value))))
      {
        if i > 0 {
          assert toks[1..][i - 1] == toks[i];
          assert forall j :: i - 1 < j < |toks| - 1 ==> Sets(toks[1..][j], k).None? by {
            forall j | i - 1 < j < |toks| - 1
              ensures Sets(toks[1..][j], k).None?
            {
              assert toks[1..][j] == toks[j + 1];
            }
          }
        } else {
          assert forall j :: 0 <= j < |toks| - 1 ==> Sets(toks[1..][j], k).None? by {
            forall j | 0 <= j < |toks| - 1
              ensures Sets(toks[1..][j], k).None?
            {
              assert toks[1..][j] == toks[j + 1];
            }
          }
        }
      }
    }
  }

  /** A token that enables the class `n`. */
  predicate AddsClass(t: Token, n: string) {
    t.Dot? && t.name != "" && Lower(t.name) == n
  }

  /** The class map gains, enabled, the lowercased name of every non-empty
      `.name` token, keeps every class it had, and repeats no name. */
  lemma {:induction false} ApplyClasses(attrs: Attrs, toks: seq<Token>, n: string)
    requires Apply(attrs, toks).Ok?
    ensures Get(FlagsOf(Apply(attrs, toks).value), n)
         == if exists i :: 0 <= i < |toks| && AddsClass(toks[i], n) then Some(true) else Get(FlagsOf(attrs), n)
    ensures DistinctKeys(FlagsOf(attrs)) ==> DistinctKeys(FlagsOf(Apply(attrs, toks).value))
    decreases toks
  {
    if toks != [] {
      var next := Step(attrs, toks[0]).value;
      assert FlagsOf(next) == if toks[0].Dot? && toks[0].name != "" then Put(FlagsOf(attrs), Lower(toks[0].name), true) else FlagsOf(attrs);
      if toks[0].Dot? && toks[0].name != "" {
        if DistinctKeys(FlagsOf(attrs)) {
          PutKeepsDistinct(FlagsOf(attrs), Lower(toks[0].name), true);
        }
      }
      ApplyClasses(next, toks[1..], n);
      if exists i :: 0 <= i < |toks| && AddsClass(toks[i], n) {
        var i :| 0 <= i < |toks| && AddsClass(toks[i], n);
        if i > 0 {
          assert toks[1..][i - 1] == toks[i];
        }
      } else {
        forall i | 0 <= i < |toks| - 1
          ensures !AddsClass(toks[1..][i], n)
        {
          assert toks[1..][i] == toks[i + 1];
        }
      }
    }
  }

  // ---------------------------------------------------------------------------
  // What the scan of a whole spec gives. These hold for every tokeniser that
  // consumes the spec, so in particular for `ParseSpec`, which is
  // `Parse(Tokenise, _)`.

  /** The tokens after the tag name, and where they stop. */
  function SpecLexemes(next: Tokeniser, s: string): (r: (seq<Lexeme>, nat))
    requires MatchTagName(s).Some? && Consumes(next, s)
    ensures MatchTagName(s).value.end <= r.1 <= |s|
  {
    Lex(next, s, MatchTagName(s).value.end)
  }

  /** The scan of a spec whose tag name matched is the fold of its tokens,
      unless no token is found somewhere before the end. */
  lemma ParseIsFold(next: Tokeniser, s: string)
    requires Consumes(next, s) && MatchTagName(s).Some?
    ensures var m := MatchTagName(s).value;
      var (lx, stop) := SpecLexemes(next, s);
      var folded := Apply(InitialAttrs, Tokens(lx));
      && (folded.Err? ==> Parse(next, s) == Err(folded.error))
      && (folded.Ok? && stop < |s| ==> Parse(next, s) == Err(InvalidTagSpec([s[..m.end]] + Texts(lx), s[stop..])))
      && (folded.Ok? && stop == |s| ==> Parse(next, s) == Ok(Parsed(m.group, folded.value)))
  {
    ScanIsLexThenApply(next, s, MatchTagName(s).value.end, InitialAttrs, [s[..MatchTagName(s).value.end]]);
  }

  /** A spec fails for a bad tag name exactly when the tag-name pattern does
      not match; with a tag name, it fails for `[class]` exactly when one of
      its tokens is a `[class]` bracket, and otherwise it fails exactly when
      the tokens stop before the end. */
  lemma ParseErrors(next: Tokeniser, s: string)
    requires Consumes(next, s)
    ensures Parse(next, s) == Err(InvalidTagName(s)) <==> forall k: nat :: 1 <= k ==> !TagNameFits(s, k)
    ensures MatchTagName(s).Some? ==>
      var lx := SpecLexemes(next, s).0;
      Parse(next, s) == Err(ClassBracketNotAllowed) <==> exists i :: 0 <= i < |lx| && IsClassBracket(lx[i].token)
    ensures MatchTagName(s).Some? && Parse(next, s) != Err(ClassBracketNotAllowed) ==>
      (Parse(next, s).Err? <==> SpecLexemes(next, s).1 < |s|)
  {
    if MatchTagName(s).Some? {
      var lx := SpecLexemes(next, s).0;
      ParseIsFold(next, s);
      ApplyFails(InitialAttrs, Tokens(lx));
      assert (exists i :: 0 <= i < |lx| && IsClassBracket(lx[i].token))
         <==> (exists i :: 0 <= i < |lx| && IsClassBracket(Tokens(lx)[i]));
    }
  }

  /** The error for a spec with a remainder no pattern matches: the trail is
      the tag-name match and then every matched token, in order; trail and
      remainder together are the whole spec; the remainder is not empty and
      no pattern matches at its start. */
  lemma ParseTrail(next: Tokeniser, s: string)
    requires Consumes(next, s) && Parse(next, s).Err? && Parse(next, s).error.InvalidTagSpec?
    ensures var e := Parse(next, s).error;
      && Concat(e.trail) + e.rest == s
      && e.rest != ""
      && next(s, |s| - |e.rest|).None?
      && e.trail == [s[..MatchTagName(s).value.end]] + Texts(SpecLexemes(next, s).0)
  {
    var m := MatchTagName(s).value;
    var (lx, stop) := SpecLexemes(next, s);
    ParseIsFold(next, s);
    LexCovers(next, s, m.end);
    ApplyFails(InitialAttrs, Tokens(lx));
    var trail := [s[..m.end]] + Texts(lx);
    assert stop < |s| && Parse(next, s).error == InvalidTagSpec(trail, s[stop..]);
    assert trail[1..] == Texts(lx);
    assert Concat(trail) == s[..m.end] + s[m.end..stop];
    SplitTwice(s, m.end, stop);
  }

  lemma SplitTwice(s: string, i: nat, j: nat)
    requires i <= j <= |s|
    ensures s == s[..i] + s[i..j] + s[j..]
  {
  }

  /** A spec of white space only has no tag name. */
  lemma BlankSpec(s: string)
    requires forall i :: 0 <= i < |s| ==> IsSpace(s[i])
    ensures ParseSpec(s) == Err(InvalidTagName(s))
  {
    SkipBlank(s, 0);
  }

  lemma {:induction false} SkipBlank(s: string, i: nat)
    requires i <= |s| && forall x :: i <= x < |s| ==> IsSpace(s[x])
    ensures SkipSpace(s, i) == |s|
    decreases |s| - i
  {
    if i < |s| {
      SkipBlank(s, i + 1);
    }
  }

  /** The tag name is not empty and holds no white space; only its first
      character may be `#`, `.` or `[`; and after it come only white space
      and then a token or the end. */
  lemma TagNameShape(s: string)
    requires MatchTagName(s).Some?
    ensures var m := MatchTagName(s).value;
      && m.group != ""
      && (forall i :: 0 <= i < |m.group| ==> !IsSpace(m.group[i]))
      && (forall i :: 1 <= i < |m.group| ==> !IsSigil(m.group[i]))
      && (m.end == |s| || IsSigil(s[m.end]))
  {
    var m := MatchTagName(s).value;
    var a, k := SkipSpace(s, 0), |m.group|;
    assert RunFits(s, a, k);
    forall i | 0 <= i < k
      ensures !IsSpace(m.group[i])
    {
      assert m.group[i] == s[a + i];
    }
    forall i | 1 <= i < k
      ensures !IsSigil(m.group[i])
    {
      RunHasNoSigil(s, a, k, i);
      assert m.group[i] == s[a + i];
    }
    assert AtTokenEnd(s, a + k);
  }

  /** The id of a parsed spec is that of a non-empty `#id` token after which no
      token (`#id` or `[id]`) sets it, and null when no token sets it. */
  lemma ParsedId(next: Tokeniser, s: string)
    requires Consumes(next, s) && Parse(next, s).Ok?
    ensures var toks := Tokens(SpecLexemes(next, s).0);
      var attrs := Parse(next, s).value.attrs;
      && WellFormed(attrs)
      && ((forall i :: 0 <= i < |toks| ==> Sets(toks[i], "id").None?) ==> Get(attrs, "id") == Some(Plain(None)))
      && (forall i ::
            (0 <= i < |toks| && toks[i].Hash? && toks[i].id != ""
             && (forall j :: i < j < |toks| ==> Sets(toks[j], "id").None?)) ==>
            Get(attrs, "id") == Some(Plain(Some(Str(toks[i].id)))))
  {
    var toks := Tokens(SpecLexemes(next, s).0);
    ParseIsFold(next, s);
    ApplyFails(InitialAttrs, toks);
    ApplyKeepsWellFormed(InitialAttrs, toks);
    FoldedId(toks);
  }

  lemma FoldedId(toks: seq<Token>)
    requires Apply(InitialAttrs, toks).Ok?
    ensures var attrs := Apply(InitialAttrs, toks).value;
      && ((forall i :: 0 <= i < |toks| ==> Sets(toks[i], "id").None?) ==> Get(attrs, "id") == Some(Plain(None)))
      && (forall i ::
            (0 <= i < |toks| && toks[i].Hash? && toks[i].id != ""
             && (forall j :: i < j < |toks| ==> Sets(toks[j], "id").None?)) ==>
            Get(attrs, "id") == Some(Plain(Some(Str(toks[i].id)))))
  {
    InitialId();
    ApplyValues(InitialAttrs, toks, "id");
    FoldedIdLast(toks);
  }

  lemma InitialId()
    ensures Get(InitialAttrs, "id") == Some(Plain(None))
  {
  }

  lemma FoldedIdLast(toks: seq<Token>)
    requires Apply(InitialAttrs, toks).Ok?
    requires forall i ::
      (0 <= i < |toks| && Sets(toks[i], "id").Some? && (forall j :: i < j < |toks| ==> Sets(toks[j], "id").None?)) ==>
      Get(Apply(InitialAttrs, toks).value, "id") == Some(Plain(Some(Str(Sets(toks[i], "id").value))))
    ensures forall i ::
      (0 <= i < |toks| && toks[i].Hash? && toks[i].id != ""
       && (forall j :: i < j < |toks| ==> Sets(toks[j], "id").None?)) ==>
      Get(Apply(InitialAttrs, toks).value, "id") == Some(Plain(Some(Str(toks[i].id))))
  {
    forall i | (0 <= i < |toks| && toks[i].Hash? && toks[i].id != ""
               && (forall j :: i < j < |toks| ==> Sets(toks[j], "id").None?))
      ensures Get(Apply(InitialAttrs, toks).value, "id") == Some(Plain(Some(Str(toks[i].id))))
    {
      assert Sets(toks[i], "id") == Some(toks[i].id);
    }
  }

  /** Any other attribute of a parsed spec is absent unless a `[name]value`
      token names it (in any letter case), and then has the value of the
      last such token. */
  lemma ParsedAttribute(next: Tokeniser, s: string, k: string)
    requires Consumes(next, s) && Parse(next, s).Ok? && k != "id" && k != "class"
    ensures var toks := Tokens(SpecLexemes(next, s).0);
      var attrs := Parse(next, s).value.attrs;
      && ((forall i :: 0 <= i < |toks| ==> Sets(toks[i], k).None?) ==> Get(attrs, k) == None)
      && (forall i ::
            (0 <= i < |toks| && toks[i].Bracket? && Lower(toks[i].name) == k
             && (forall j :: i < j < |toks| ==> Sets(toks[j], k).None?)) ==>
            Get(attrs, k) == Some(Plain(Some(Str(toks[i].value)))))
  {
    var toks := Tokens(SpecLexemes(next, s).0);
    ParseIsFold(next, s);
    ApplyFails(InitialAttrs, toks);
    FoldedAttribute(toks, k);
  }

  lemma FoldedAttribute(toks: seq<Token>, k: string)
    requires Apply(InitialAttrs, toks).Ok? && k != "id" && k != "class"
    ensures var attrs := Apply(InitialAttrs, toks).value;
      && ((forall i :: 0 <= i < |toks| ==> Sets(toks[i], k).None?) ==> Get(attrs, k) == None)
      && (forall i ::
            (0 <= i < |toks| && toks[i].Bracket? && Lower(toks[i].name) == k
             && (forall j :: i < j < |toks| ==> Sets(toks[j], k).None?)) ==>
            Get(attrs, k) == Some(Plain(Some(Str(toks[i].value)))))
  {
    assert Get(InitialAttrs, k) == None;
    ApplyValues(InitialAttrs, toks, k);
  }

  /** The classes of a parsed spec are the lowercased names of its non-empty
      `.name` tokens, each once and each enabled. */
  lemma ParsedClasses(next: Tokeniser, s: string, n: string)
    requires Consumes(next, s) && Parse(next, s).Ok?
    ensures var toks := Tokens(SpecLexemes(next, s).0);
      var flags := FlagsOf(Parse(next, s).value.attrs);
      && DistinctKeys(flags)
      && Get(flags, n) == if exists i :: 0 <= i < |toks| && AddsClass(toks[i], n) then Some(true) else None
  {
    var toks := Tokens(SpecLexemes(next, s).0);
    ParseIsFold(next, s);
    ApplyClasses(InitialAttrs, toks, n);
  }

  // ---------------------------------------------------------------------------
  // The order of the parsed attributes

  /** The attribute names the `[name]value` tokens set, lowercased, in token
      order. */
  function BracketNames(toks: seq<Token>): (r: seq<string>)
    ensures forall k :: k in r <==> exists i :: 0 <= i < |toks| && toks[i].Bracket? && Lower(toks[i].name) == k
  {
    if toks == [] then []
    else
      var rest := BracketNames(toks[1..]);
      assert forall i :: 0 < i < |toks| ==> toks[i] == toks[1..][i - 1];
      BracketName(toks[0]) + rest
  }

  /** The classes the non-empty `.name` tokens enable, lowercased, in token
      order. */
  function ClassNames(toks: seq<Token>): (r: seq<string>)
    ensures forall n :: n in r <==> exists i :: 0 <= i < |toks| && AddsClass(toks[i], n)
  {
    if toks == [] then []
    else
      var rest := ClassNames(toks[1..]);
      assert forall i :: 0 < i < |toks| ==> toks[i] == toks[1..][i - 1];
      ClassName(toks[0]) + rest
  }

  /** The attribute name a token sets with a bracket, if any. */
  function BracketName(t: Token): seq<string> {
    if t.Bracket? then [Lower(t.name)] else []
  }

  /** The class name a token enables, if any. */
  function ClassName(t: Token): seq<string> {
    if t.Dot? && t.name != "" then [Lower(t.name)] else []
  }

  lemma StepKeyOrder(attrs: Attrs, t: Token)
    requires "id" in Keys(attrs) && "class" in Keys(attrs) && Step(attrs, t).Ok?
    ensures Keys(Step(attrs, t).value) == Keys(attrs) + NewKeys(Keys(attrs), BracketName(t))
  {
    var ks := Keys(attrs);
    if t.Bracket? {
      var n := Lower(t.name);
      assert NewKeys(ks, [n]) == if n in ks then [] else [n] by {
        assert [n][1..] == [];
      }
    }
  }

  lemma StepClassOrder(attrs: Attrs, t: Token)
    requires Step(attrs, t).Ok?
    ensures Keys(FlagsOf(Step(attrs, t).value)) == Keys(FlagsOf(attrs)) + NewKeys(Keys(FlagsOf(attrs)), ClassName(t))
  {
    var fs := Keys(FlagsOf(attrs));
    if t.Dot? && t.name != "" {
      var n := Lower(t.name);
      assert FlagsOf(Step(attrs, t).value) == Put(FlagsOf(attrs), n, true);
      assert NewKeys(fs, [n]) == if n in fs then [] else [n] by {
        assert [n][1..] == [];
      }
    } else {
      assert FlagsOf(Step(attrs, t).value) == FlagsOf(attrs);
    }
  }

  lemma ApplyCons(attrs: Attrs, toks: seq<Token>)
    requires toks != [] && Apply(attrs, toks).Ok?
    ensures Step(attrs, toks[0]).Ok?
    ensures Apply(attrs, toks) == Apply(Step(attrs, toks[0]).value, toks[1..])
  {
  }

  /** The fold keeps the keys it starts with in place and appends each
      attribute a bracket sets, in the order of the first bracket setting it. */
  lemma {:induction false} ApplyKeyOrder(attrs: Attrs, toks: seq<Token>)
    requires "id" in Keys(attrs) && "class" in Keys(attrs) && Apply(attrs, toks).Ok?
    ensures Keys(Apply(attrs, toks).value) == Keys(attrs) + NewKeys(Keys(attrs), BracketNames(toks))
    decreases toks
  {
    if toks != [] {
      var t := toks[0];
      var next := Step(attrs, t).value;
      ApplyCons(attrs, toks);
      StepKeyOrder(attrs, t);
      ApplyKeyOrder(next, toks[1..]);
      assert BracketNames(toks) == BracketName(t) + BracketNames(toks[1..]);
      AppendNewKeysTwice(Keys(attrs), Keys(next), Keys(Apply(attrs, toks).value), BracketName(t), BracketNames(toks[1..]));
    }
  }

  /** The fold keeps the classes it starts with in place and appends each class
      a `.name` token enables, in the order of the first token naming it. */
  lemma {:induction false} ApplyClassOrder(attrs: Attrs, toks: seq<Token>)
    requires Apply(attrs, toks).Ok?
    ensures Keys(FlagsOf(Apply(attrs, toks).value))
         == Keys(FlagsOf(attrs)) + NewKeys(Keys(FlagsOf(attrs)), ClassNames(toks))
    decreases toks
  {
    if toks != [] {
      var t := toks[0];
      var next := Step(attrs, t).value;
      ApplyCons(attrs, toks);
      StepClassOrder(attrs, t);
      ApplyClassOrder(next, toks[1..]);
      assert ClassNames(toks) == ClassName(t) + ClassNames(toks[1..]);
      AppendNewKeysTwice(Keys(FlagsOf(attrs)), Keys(FlagsOf(next)), Keys(FlagsOf(Apply(attrs, toks).value)),
                         ClassName(t), ClassNames(toks[1..]));
    }
  }

  /** The order of a parsed spec's attributes: `id` and `class` first, then
      each attribute a `[name]value` token sets (lowercased), in the order of
      the first token setting it. The classes come in the order of the first
      non-empty `.name` token naming them, lowercased, each once. */
  lemma ParsedOrder(next: Tokeniser, s: string)
    requires Consumes(next, s) && Parse(next, s).Ok?
    ensures var toks := Tokens(SpecLexemes(next, s).0);
      var attrs := Parse(next, s).value.attrs;
      && Keys(attrs) == ["id", "class"] + NewKeys(["id", "class"], BracketNames(toks))
      && Keys(FlagsOf(attrs)) == NewKeys([], ClassNames(toks))
  {
    var toks := Tokens(SpecLexemes(next, s).0);
    ParseIsFold(next, s);
    ApplyFails(InitialAttrs, toks);
    assert Keys(InitialAttrs) == ["id", "class"];
    assert FlagsOf(InitialAttrs) == [];
    ApplyKeyOrder(InitialAttrs, toks);
    ApplyClassOrder(InitialAttrs, toks);
  }

  // ---------------------------------------------------------------------------
  // An example: the classes of `div.b.a` are written in token order

  const ExampleSpec: string := "div.b.a"

  lemma ExampleTagName()
    ensures MatchTagName(ExampleSpec) == Some(TagMatch("div", 3))
  {
    var s := ExampleSpec;
    assert SkipSpace(s, 0) == 0;
    assert SkipSpace(s, 1) == 1 && SkipSpace(s, 2) == 2 && SkipSpace(s, 3) == 3;
    assert !AtTokenEnd(s, 1) && !AtTokenEnd(s, 2) && AtTokenEnd(s, 3);
    assert ShortestRun(s, 0, 1) == Some(3);
    assert s[0..3] == "div";
  }

  lemma ExampleRuns()
    ensures MatchRun(ExampleSpec, 4) == Some(TagMatch("b", 5))
    ensures MatchRun(ExampleSpec, 6) == Some(TagMatch("a", 7))
  {
    var s := ExampleSpec;
    assert SkipSpace(s, 4) == 4 && SkipSpace(s, 5) == 5 && SkipSpace(s, 6) == 6 && SkipSpace(s, 7) == 7;
    assert !AtTokenEnd(s, 4) && AtTokenEnd(s, 5) && !AtTokenEnd(s, 6) && AtTokenEnd(s, 7);
    assert ShortestRun(s, 4, 0) == Some(1);
    assert ShortestRun(s, 6, 0) == Some(1);
    assert s[4..5] == "b" && s[6..7] == "a";
  }

  lemma ExampleLex()
    ensures Consumes(Tokenise, ExampleSpec)
    ensures Lex(Tokenise, ExampleSpec, 3) == ([Lexeme(Dot("b"), ".b"), Lexeme(Dot("a"), ".a")], 7)
  {
    var s := ExampleSpec;
    TokeniseConsumes(s);
    ExampleRuns();
    var l1, l2 := Lexeme(Dot("b"), ".b"), Lexeme(Dot("a"), ".a");
    assert s[3..5] == ".b" && s[5..7] == ".a";
    assert Tokenise(s, 3) == Some(l1);
    assert Tokenise(s, 5) == Some(l2);
    assert Lex(Tokenise, s, 7) == ([], 7);
    assert 5 + |l2.text| == 7 && 3 + |l1.text| == 5;
    var r7 := Lex(Tokenise, s, 7);
    assert Lex(Tokenise, s, 5) == ([l2] + r7.0, r7.1);
    var r5 := Lex(Tokenise, s, 5);
    assert Lex(Tokenise, s, 3) == ([l1] + r5.0, r5.1);
    assert [l1] + ([l2] + []) == [l1, l2];
  }

  const ExampleAttrs: Attrs := [("id", Plain(None)), ("class", Classes([("b", true), ("a", true)]))]

  lemma ExampleFold()
    ensures Apply(InitialAttrs, [Dot("b"), Dot("a")]) == Ok(ExampleAttrs)
  {
    assert Lower("b") == "b" && Lower("a") == "a";
    var a1 := AddClass(InitialAttrs, "b");
    assert a1 == [("id", Plain(None)), ("class", Classes([("b", true)]))];
    assert [Dot("b"), Dot("a")][1..] == [Dot("a")];
    assert FlagsOf(a1) == [("b", true)];
    assert [("b", true)][1..] == [];
    assert Put([("b", true)], "a", true) == [("b", true), ("a", true)];
    assert AddClass(a1, "a") == ExampleAttrs;
    assert [Dot("a")][1..] == [];
    assert Apply(a1, [Dot("a")]) == Ok(ExampleAttrs);
  }

  lemma ExampleParse()
    ensures ParseSpec(ExampleSpec) == Ok(Parsed("div", ExampleAttrs))
  {
    ExampleTagName();
    ExampleLex();
    ExampleFold();
    assert Tokens([Lexeme(Dot("b"), ".b"), Lexeme(Dot("a"), ".a")]) == [Dot("b"), Dot("a")];
    ParseIsFold(Tokenise, ExampleSpec);
  }

  /** `div.b.a` writes its classes in the order of the tokens: `class="b a"`. */
  lemma ClassOrderExample()
    ensures ParseSpec(ExampleSpec).Ok?
    ensures ClassAttrHtml(FlagsOf(ParseSpec(ExampleSpec).value.attrs)) == " class=\"b a\""
  {
    ExampleParse();
    ExampleClassHtml();
  }

  lemma ExampleClassNames()
    ensures EnabledNames(FlagsOf(ExampleAttrs)) == ["b", "a"]
  {
    var flags := [("b", true), ("a", true)];
    assert FlagsOf(ExampleAttrs) == flags;
    assert flags[..1] == [("b", true)] && flags[..1][..0] == [];
  }

  lemma ExampleClassHtml()
    ensures ClassAttrHtml(FlagsOf(ExampleAttrs)) == " class=\"b a\""
  {
    ExampleClassNames();
    ExampleJoin();
    ExampleEscape();
    assert StringOf(Str("b a")) == "b a";
  }

  lemma ExampleJoin()
    ensures JoinWith(" ", ["b", "a"]) == "b a"
  {
    assert ["b", "a"][..1] == ["b"];
  }

  lemma ExampleEscape()
    ensures Escape("b a") == "b a"
  {
    assert "b a"[1..] == " a" && " a"[1..] == "a" && "a"[1..] == [];
    assert Escape("a") == "a";
    assert Escape(" a") == " a";
  }
}
