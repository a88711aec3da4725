/** The PHP string built-ins the renderer relies on, restated on `seq<char>`:
    PCRE's `\s`, `strtolower`, `trim`, `preg_split('/ +/')`, `join`,
    integer-to-string conversion and `htmlspecialchars`. */
module PhpText {

  /** A PHP scalar as the renderer meets it: a boolean, an integer or a string
      (a `Stringable` object stands here as the string it converts to). */
  datatype Scalar = Bool(b: bool) | Int(i: int) | Str(s: string)

  /** PCRE's `\s` outside UTF mode: space, tab, line feed, vertical tab,
      form feed and carriage return. */
  predicate IsSpace(c: char) {
    c == ' ' || c == '\t' || c == '\n' || c == '\U{000B}' || c == '\U{000C}' || c == '\r'
  }

  /** The characters `trim` strips when given no character list. */
  predicate IsTrimmable(c: char) {
    c == ' ' || c == '\t' || c == '\n' || c == '\r' || c == '\0' || c == '\U{000B}'
  }

  /** `strtolower` of PHP 8: ASCII letters only, independent of the locale. */
  function LowerChar(c: char): char {
    if 'A' <= c <= 'Z' then (c as int + 32) as char else c
  }

  function Lower(s: string): string {
    seq(|s|, i requires 0 <= i < |s| => LowerChar(s[i]))
  }

  function TrimStart(s: string): (r: string)
    ensures |r| <= |s| && r == s[|s| - |r|..]
    ensures forall i :: 0 <= i < |s| - |r| ==> IsTrimmable(s[i])
    ensures r == "" || !IsTrimmable(r[0])
  {
    if |s| > 0 && IsTrimmable(s[0]) then TrimStart(s[1..]) else s
  }

  function TrimEnd(s: string): (r: string)
    ensures |r| <= |s| && r == s[..|r|]
    ensures forall i :: |r| <= i < |s| ==> IsTrimmable(s[i])
    ensures r == "" || !IsTrimmable(r[|r| - 1])
  {
    if |s| > 0 && IsTrimmable(s[|s| - 1]) then TrimEnd(s[..|s| - 1]) else s
  }

  /** `r` is the piece of `s` at offset `a`, with only characters `trim`
      strips before and after it. */
  predicate StrippedAt(s: string, a: nat, r: string) {
    && a + |r| <= |s| && r == s[a..a + |r|]
    && (forall i :: 0 <= i < a ==> IsTrimmable(s[i]))
    && (forall i :: a + |r| <= i < |s| ==> IsTrimmable(s[i]))
  }

  /** `trim($s)`: the part of `s` left after stripping the characters `trim`
      strips at both ends; it neither starts nor ends with one of them. */
  function Trim(s: string): (r: string)
    ensures exists a :: StrippedAt(s, a, r)
    ensures r == "" || (!IsTrimmable(r[0]) && !IsTrimmable(r[|r| - 1]))
  {
    var t := TrimStart(s);
    TrimStripped(s, t, TrimEnd(t));
    TrimEnd(t)
  }

  lemma TrimStripped(s: string, t: string, r: string)
    requires |t| <= |s| && t == s[|s| - |t|..] && forall i :: 0 <= i < |s| - |t| ==> IsTrimmable(s[i])
    requires |r| <= |t| && r == t[..|r|] && forall i :: |r| <= i < |t| ==> IsTrimmable(t[i])
    ensures StrippedAt(s, |s| - |t|, r)
  {
    var a := |s| - |t|;
    assert r == s[a..a + |r|] by {
      assert forall i :: 0 <= i < |r| ==> r[i] == t[i] == s[a + i];
    }
    forall i | a + |r| <= i < |s|
      ensures IsTrimmable(s[i])
    {
      assert s[i] == t[i - a];
    }
  }

  /** Length of the run of non-space characters that starts `s`. */
  function WordLength(s: string): (n: nat)
    ensures n <= |s|
    ensures forall i :: 0 <= i < n ==> s[i] != ' '
    ensures n == |s| || s[n] == ' '
  {
    if s == [] || s[0] == ' ' then 0 else 1 + WordLength(s[1..])
  }

  /** `preg_split('/ +/', $s, flags: PREG_SPLIT_NO_EMPTY)`: the pieces between
      runs of space characters (only U+0020 separates). */
  function SplitSpaces(s: string): (r: seq<string>)
    ensures forall i :: 0 <= i < |r| ==> r[i] != "" && ' ' !in r[i]
    decreases |s|
  {
    if s == [] then []
    else if s[0] == ' ' then SplitSpaces(s[1..])
    else
      var n := WordLength(s);
      [s[..n]] + SplitSpaces(s[n..])
  }

  /** Splitting a piece followed by a space and the rest splits both. */
  lemma {:induction false} SplitAppend(a: string, b: string)
    ensures SplitSpaces(a + " " + b) == SplitSpaces(a) + SplitSpaces(b)
    decreases |a|
  {
    var x := a + " " + b;
    if a == [] {
      assert x[1..] == b;
    } else if a[0] == ' ' {
      assert x[1..] == a[1..] + " " + b;
      SplitAppend(a[1..], b);
    } else {
      var n := WordLength(a);
      assert x[n] == ' ' && forall i :: 0 <= i < n ==> x[i] == a[i];
      WordLengthIs(x, n);
      assert x[..n] == a[..n];
      if n < |a| {
        assert x[n..] == a[n..] + " " + b;
        SplitAppend(a[n..], b);
      } else {
        assert x[n..][1..] == b;
        assert a[n..] == [];
      }
    }
  }

  /** The run of non-space characters is the one the next space ends. */
  lemma {:induction false} WordLengthIs(s: string, n: nat)
    requires n <= |s| && (forall i :: 0 <= i < n ==> s[i] != ' ') && (n == |s| || s[n] == ' ')
    ensures WordLength(s) == n
  {
    if n > 0 {
      WordLengthIs(s[1..], n - 1);
    }
  }

  /** Words without spaces joined by single spaces split back into the same
      words: the partner of `join(' ', ...)`. */
  lemma {:induction false} SplitJoin(words: seq<string>)
    requires forall i :: 0 <= i < |words| ==> words[i] != "" && ' ' !in words[i]
    ensures SplitSpaces(JoinWith(" ", words)) == words
  {
    if |words| == 1 {
      SplitWord(words[0]);
    } else if |words| > 1 {
      var p, w := words[..|words| - 1], words[|words| - 1];
      SplitJoin(p);
      SplitAppend(JoinWith(" ", p), w);
      SplitWord(w);
      assert words == p + [w];
    }
  }

  lemma SplitWord(w: string)
    requires w != "" && ' ' !in w
    ensures SplitSpaces(w) == [w]
  {
    WordLengthIs(w, |w|);
    assert w[..|w|] == w && w[|w|..] == [];
  }

  /** `join($separator, $parts)`. */
  function JoinWith(separator: string, parts: seq<string>): string {
    if |parts| == 0 then ""
    else if |parts| == 1 then parts[0]
    else JoinWith(separator, parts[..|parts| - 1]) + separator + parts[|parts| - 1]
  }

  function Digit(d: nat): char
    requires d < 10
  {
    "0123456789"[d]
  }

  function NatToString(n: nat): string {
    if n < 10 then [Digit(n)] else NatToString(n / 10) + [Digit(n % 10)]
  }

  /** PHP's conversion of an integer to a string: decimal, with a leading `-`
      when negative. */
  function IntToString(i: int): string {
    if i < 0 then "-" + NatToString(-i) else NatToString(i)
  }

  /** The string form `"$x"` of a scalar: `true` is "1", `false` is "". */
  function StringOf(x: Scalar): string {
    match x
    case Bool(b) => if b then "1" else ""
    case Int(i) => IntToString(i)
    case Str(s) => s
  }

  function EscapeChar(c: char): string {
    if c == '&' then "&amp;"
    else if c == '<' then "&lt;"
    else if c == '>' then "&gt;"
    else if c == '"' then "&quot;"
    else if c == '\'' then "&#039;"
    else [c]
  }

  /** `htmlspecialchars` with PHP 8's default flags (`ENT_QUOTES`): the five
      characters `& < > " '` become entities, everything else is kept. */
  function Escape(s: string): string {
    if s == [] then [] else EscapeChar(s[0]) + Escape(s[1..])
  }

  predicate StartsWith(s: string, p: string) {
    |p| <= |s| && s[..|p|] == p
  }

  /** The character that the entity (or plain character) at the head of `s`
      stands for, and the length of that entity. */
  function DecodeHead(s: string): (r: (char, nat))
    requires s != []
    ensures 1 <= r.1 <= |s|
  {
    if StartsWith(s, "&amp;") then ('&', 5)
    else if StartsWith(s, "&lt;") then ('<', 4)
    else if StartsWith(s, "&gt;") then ('>', 4)
    else if StartsWith(s, "&quot;") then ('"', 6)
    else if StartsWith(s, "&#039;") then ('\'', 6)
    else (s[0], 1)
  }

  /** Decoding of the five entities `Escape` writes; the partner of `Escape`. */
  function Unescape(s: string): string
    decreases |s|
  {
    if s == [] then [] else [DecodeHead(s).0] + Unescape(s[DecodeHead(s).1..])
  }

  /** The head of an escaped character decodes to that character. */
  lemma DecodeEscaped(c: char, t: string)
    ensures DecodeHead(EscapeChar(c) + t) == (c, |EscapeChar(c)|)
  {
    var e := EscapeChar(c);
    var s := e + t;
    assert s[..|e|] == e;
    assert s[0] == e[0];
    if |e| > 1 {
      assert s[1] == e[1];
    }
  }

  lemma UnescapeEscapeChar(c: char, t: string)
    ensures Unescape(EscapeChar(c) + t) == [c] + Unescape(t)
  {
    DecodeEscaped(c, t);
    assert (EscapeChar(c) + t)[|EscapeChar(c)|..] == t;
  }

  /** Escaping loses nothing: decoding the entities gives back the text. */
  lemma {:induction false} UnescapeEscape(s: string)
    ensures Unescape(Escape(s)) == s
  {
    if s != [] {
      UnescapeEscapeChar(s[0], Escape(s[1..]));
      UnescapeEscape(s[1..]);
      assert [s[0]] + s[1..] == s;
    }
  }

  /** Escaped text can neither open a tag nor end a quoted attribute value. */
  lemma {:induction false} EscapeIsInert(s: string)
    ensures forall i :: 0 <= i < |Escape(s)| ==> Escape(s)[i] !in "<>\"'"
  {
    if s != [] {
      EscapeIsInert(s[1..]);
      var e, t := EscapeChar(s[0]), Escape(s[1..]);
      assert Escape(s) == e + t;
      forall i | 0 <= i < |e + t|
        ensures (e + t)[i] !in "<>\"'"
      {
        if i >= |e| {
          assert (e + t)[i] == t[i - |e|];
        }
      }
    }
  }
}
