# hiccup-php in Dafny

A model of the `Hiccup` class of hiccup-php. The class renders HTML from nested
PHP arrays in the style of Clojure's Hiccup: an array such as
`['a#home.nav[href]/', ['title' => 'Home'], 'Start']` becomes
`<a id="home" class="nav" href="/" title="Home">Start</a>`.

The model covers:

- **The tag-spec scanner** of `handle_tag`. It covers the tag-name pattern and
  the `#id`, `.class` and `[name]value` patterns, with PCRE's lazy groups and
  lookaheads. It also covers the fold of the tokens into the attribute array
  and the three scanning errors.
- **The explicit attribute override.** This covers normalising its `class`
  entry (split, reduce, trim) and PHP's `array_replace_recursive` on the
  attribute array.
- **The writer of the opening tag:** `id`, then the enabled classes, then every
  other attribute in array order. It also handles void tags and children.
- **`html()`**, over the closed union of values it accepts.
- **The combinators** `raw`, `each`, `foreach`, `join` and `lines`.

Modules:

- `Wrappers`: `Option` and `Result`.
- `Errors`: the exceptions the class throws, as values.
- `PhpText`: the PHP string functions involved:
  - `trim`;
  - `preg_split('/ +/')`;
  - `strtolower`;
  - `htmlspecialchars`, together with its decoding partner;
  - integer-to-string conversion.
- `Assoc`: PHP arrays with string keys, as ordered association lists. It holds
  `$m[$k]`, assignment, `unset` and `array_replace`.
- `TagPatterns`: the three token patterns and the tag-name pattern. Each is a
  matching function, specified against a declarative "fits" predicate that
  says what the pattern accepts. A lazy group is the least length that fits.
- `TagSpec`: the scanning loop of `handle_tag`, as a method, proved equal to a
  function. It also holds a second, two-pass reference (tokenise, then fold),
  proved equal to that function. The lemmas about the parsed tag hold for any
  tokeniser that consumes what it matches, and so in particular for the
  source's patterns.
- `Attributes`: the attribute array, the override merge and attribute emission.
- `Hiccup`: `html()` and `handle_tag` as mutually recursive methods, proved
  equal to the rendering functions, plus the properties of rendering.
- `Sequences`: the combinators. `join` is the method with the `$first` flag,
  proved to produce the interleaving of its non-null elements.

Where the model and the documentation of the library differ, the model follows
the code:

- Class names from an explicit override are trimmed but not lowercased
  (`src/Hiccup.php:63-69`); only `.class` tokens of the spec are lowercased.
- A spec such as `[class]x` is not rejected for its `[class]`. The tag-name
  pattern consumes it as the tag name, because the tag name may start with `[`.

## Model

| member | source | states |
|---|---|---|
| PhpText.Trim | src/Hiccup.php:64-66 | `trim` gives the piece of its argument left after stripping only `trim`'s characters at both ends, and that piece neither starts nor ends with one of them |
| PhpText.SplitSpaces | src/Hiccup.php:59 | every piece of `preg_split('/ +/')` without empty pieces is non-empty and holds no space |
| PhpText.SplitJoin | src/Hiccup.php:59 | words without spaces, joined by single spaces, split back into the same words |
| PhpText.UnescapeEscape | src/Hiccup.php:119 | escaping loses nothing: decoding the five entities gives back the text |
| PhpText.EscapeIsInert | src/Hiccup.php:119 | escaped text holds none of `< > " '` |
| Assoc.Get | src/Hiccup.php:75 | a lookup finds a value exactly when the key is present |
| Assoc.Put | src/Hiccup.php:31 | after an assignment the key holds the new value, every other key is unchanged, and a new key goes at the end |
| Assoc.Remove | src/Hiccup.php:81-82 | after `unset` the key is absent, every other key keeps its value, and the remaining keys keep their order |
| Assoc.NewKeys | src/Hiccup.php:65-67 | the keys an assignment run appends are exactly the keys of the run not yet present |
| Assoc.NewKeysDistinct | src/Hiccup.php:65-67 | the appended keys hold no key twice |
| Assoc.PutAllSpec | src/Hiccup.php:65-67 | replacing by a list of entries keeps the old keys in place and appends the new ones in the order of their first occurrence in the list; each key of the list takes its last value there; no key repeats |
| Attributes.ClassNormalization | src/Hiccup.php:63-69 | the normalised class map gives each named class (a trimmed non-blank string key, or a trimmed non-blank string at an integer key) the flag of the last entry naming it, holds no other class, repeats no name, and lists the classes in the order entries first name them |
| Attributes.ReduceIsLiteral | src/Hiccup.php:63-69 | the reduction over the `class` array equals assigning its named entries in order |
| Attributes.NormalizeOverrideSpec | src/Hiccup.php:56-70 | the normalised override has the keys of the override, once each, in the order of their first occurrence; every entry other than `class` keeps its last value; `class` becomes the normalised class map |
| Attributes.MergeShape | src/Hiccup.php:71 | the merge keeps the inline keys in place, appends the override's new keys in the order the override first names them, keeps `id` and `class` first, and repeats no key |
| Attributes.MergeValues | src/Hiccup.php:71 | an attribute other than `class` that the override names takes the override's value; every other attribute keeps its inline value |
| Attributes.MergeClasses | src/Hiccup.php:56-71 | the class maps merge recursively: the override's normalised classes replace or extend the inline ones |
| Attributes.MergeFails | src/Hiccup.php:58-62 | the merge fails exactly when the override's `class` is a boolean, an integer or an object (a `Stringable` one too), with that entry's error |
| Attributes.ReplaceRecursiveKeys | src/Hiccup.php:71 | `array_replace_recursive` keeps the base's keys in place and adds the override's new keys after them, in the override's order |
| Attributes.ReplaceRecursiveValues | src/Hiccup.php:71 | every key of the override takes the override's value, merged when both sides are class maps; every other key keeps the base's value |
| Attributes.CollectClassNames | src/Hiccup.php:85-88 | the loop collects the enabled class names in map order |
| Attributes.EnabledNamesSpec | src/Hiccup.php:85-88 | a class is listed exactly when the map holds it as enabled |
| Attributes.AppendRest | src/Hiccup.php:90-91 | the loop over the remaining attributes appends their HTML, or fails at the first array value |
| Attributes.RestHtmlFirstError | src/Hiccup.php:90-91 | the first attribute whose value is an array decides the error |
| Attributes.EmitAttributes | src/Hiccup.php:74-91 | the attribute writer produces the reference attribute HTML |
| Attributes.EmissionOrder | src/Hiccup.php:84-91 | the attributes are written as `id`, then `class` (enabled names joined by spaces, omitted when none), then the rest in array order |
| TagPatterns.SkipSpace | src/Hiccup.php:20 | the greedy `\s*` passes only white space and stops at the end or at the first non-space character |
| TagPatterns.MatchTagName | src/Hiccup.php:20-23 | the tag-name pattern matches exactly when some group length fits; the group is the least length that fits, right after the leading white space; the match ends after the trailing white space |
| TagPatterns.MatchRun | src/Hiccup.php:28-41 | the `#` and `.` patterns match exactly when some run fits; the group is the least fitting run |
| TagPatterns.RunShape | src/Hiccup.php:28-41 | an `#id` or `.class` run holds no white space and no sigil, and is followed by a sigil or the end |
| TagPatterns.MatchBracket | src/Hiccup.php:42 | the bracket pattern matches exactly when some name and value fit; the match is the least name length and, for it, the least value length |
| TagPatterns.BracketShape | src/Hiccup.php:42-46 | a bracket name is non-empty without white space; its value holds no `[` and no line feed, and does not end in white space; the next `[` or the end follows |
| TagPatterns.LeastValueHasNoBracket | src/Hiccup.php:42 | the lazy value stops before any `[` or line feed |
| TagPatterns.LeastValueIsTrimmed | src/Hiccup.php:42 | the lazy value does not end in white space |
| TagPatterns.NextToken | src/Hiccup.php:28-49 | a token is found exactly when the `#`/`.` pattern or the bracket pattern matches at the offset; an `#id` or `.class` token carries the run the pattern captured, a bracket token the captured name and value; its text runs from the sigil to the end of the match |
| TagSpec.TokeniseConsumes | src/Hiccup.php:32-47 | every matched token advances the offset by its non-empty text |
| TagSpec.ScanTokens | src/Hiccup.php:25-52 | the scanning loop computes the reference scan of the spec from the tag name on |
| TagSpec.ParseTagSpec | src/Hiccup.php:20-52 | the whole scan of `handle_tag` computes the reference parse of the spec |
| TagSpec.LexCovers | src/Hiccup.php:32-51 | the matched texts are consecutive pieces of the spec up to where scanning stops, and no token is found there |
| TagSpec.ScanIsLexThenApply | src/Hiccup.php:26-52 | the scan equals tokenising the rest of the spec and then folding the tokens |
| TagSpec.ApplyFails | src/Hiccup.php:45 | the fold fails exactly when some token is a `[class]` bracket (any letter case) |
| TagSpec.ApplyKeepsWellFormed | src/Hiccup.php:25-49 | the fold keeps `id` and `class` first, `class` a class map, and every key once |
| TagSpec.ApplyValues | src/Hiccup.php:28-49 | an attribute other than `class` takes the value of the last token that sets it, and keeps its value when none does |
| TagSpec.ApplyClasses | src/Hiccup.php:37-38 | the class map gains, enabled, the lowercased name of each non-empty `.class` token; it keeps the classes it had and repeats no name |
| TagSpec.ParseIsFold | src/Hiccup.php:20-52 | a spec with a tag name parses to the tag name and the fold of its tokens, or to the fold's error, or to the invalid-spec error when the tokens stop early |
| TagSpec.ParseErrors | src/Hiccup.php:20-51 | each error happens exactly in its case: no tag name, a `[class]` token, or a remainder where no token is found |
| TagSpec.ParseTrail | src/Hiccup.php:24-51 | in the invalid-spec error, trail and remainder together give back the whole spec; the remainder is non-empty and no pattern matches at its start |
| TagSpec.BlankSpec | src/Hiccup.php:20-21 | a spec of white space only has no tag name |
| TagSpec.TagNameShape | src/Hiccup.php:20-22 | the tag name is non-empty without white space; only its first character may be a sigil; a token or the end follows it |
| TagSpec.ParsedId | src/Hiccup.php:25-31 | the id is that of a non-empty `#id` token after which no token (`#id` or `[id]`) sets it, and null when no token sets it |
| TagSpec.ParsedAttribute | src/Hiccup.php:42-46 | another attribute is absent unless a bracket names it (any letter case), and then takes the last such bracket's value |
| TagSpec.ParsedClasses | src/Hiccup.php:25-38 | the classes are the lowercased names of the non-empty `.class` tokens, each once and each enabled |
| TagSpec.BracketNames | src/Hiccup.php:42-46 | the names the bracket tokens set are exactly the lowercased bracket names |
| TagSpec.ClassNames | src/Hiccup.php:35-38 | the names the `.class` tokens enable are exactly the lowercased non-empty `.class` names |
| TagSpec.ApplyKeyOrder | src/Hiccup.php:28-49 | the fold keeps its keys in place and appends each attribute a bracket sets, in the order of the first bracket setting it |
| TagSpec.ApplyClassOrder | src/Hiccup.php:35-41 | the fold keeps its classes in place and appends each class a `.class` token enables, in the order of the first token naming it |
| TagSpec.ParsedOrder | src/Hiccup.php:25-49 | a parsed spec holds `id`, `class`, then the bracket attributes in first-setter order; its classes come in the order of the first `.class` token naming them |
| TagSpec.ClassOrderExample | src/Hiccup.php:35-89 | `div.b.a` parses, and its classes are written as `class="b a"` |
| Hiccup.Html | src/Hiccup.php:104-124 | the loop of `html()` computes the reference rendering of its elements |
| Hiccup.HtmlItems | src/Hiccup.php:111-113 | an iterable element renders as `html($item)` of each item in turn, stopping at the first error |
| Hiccup.HandleTag | src/Hiccup.php:18-102 | `handle_tag` computes the reference rendering of a tag array |
| Hiccup.WriteElement | src/Hiccup.php:53-101 | the override merge, the attribute writer and the children give the reference rendering of the element |
| Hiccup.RenderSingle | src/Hiccup.php:111-117 | `html($x)` renders `$x` at key 0 |
| Hiccup.RenderAllFirstError | src/Hiccup.php:107-122 | the first element that fails decides the error of the whole call |
| Hiccup.RenderAllOk | src/Hiccup.php:107-122 | `html()` succeeds exactly when every element renders |
| Hiccup.RenderAllAppend | src/Hiccup.php:104-124 | `html(...$a, ...$b)` is `html(...$a)` followed by `html(...$b)` when both succeed |
| Hiccup.KeyIrrelevant | src/Hiccup.php:120-121 | an element's key only appears in the error for a value that cannot be rendered |
| Hiccup.ItemsFlatten | src/Hiccup.php:111-113 | an iterable renders exactly as its items would as arguments of `html()` |
| Hiccup.TextIsEscaped | src/Hiccup.php:118-119 | a scalar is written escaped: decoding gives back its string form, and it holds none of `< > " '` |
| Hiccup.VoidTagRule | src/Hiccup.php:93-100 | a void tag gets no closing tag, and children for it are an error |
| Hiccup.NonVoidTagRule | src/Hiccup.php:93-98 | any other tag encloses its children's HTML and fails when they fail |
| Sequences.RawIsVerbatim | src/Hiccup.php:13-16 | raw HTML is written verbatim, and null gives nothing |
| Sequences.EachIsHtml | src/Hiccup.php:141-145 | `each(...)` renders as `html(...)` of its arguments |
| Sequences.ActionsSpec | src/Hiccup.php:137-138 | one node per entry, the action applied to its item and its key, in order |
| Sequences.ForEachYields | src/Hiccup.php:133-139 | `foreach(null, ...)` yields nothing; otherwise it yields the action of each entry, in order |
| Sequences.Join | src/Hiccup.php:147-158 | the loop with the `$first` flag yields the non-null elements with the separator between consecutive ones |
| Sequences.Lines | src/Hiccup.php:160-163 | `lines` is `join` with a raw line feed |
| Sequences.NonNullSpec | src/Hiccup.php:152-153 | only null elements are dropped, and a list without null is kept whole |
| Sequences.NonNullAppend | src/Hiccup.php:152-153 | a single element is kept exactly when it is not null, and dropping nulls from a concatenation drops them from each part in turn, so order and repeats are kept |
| Sequences.InterleaveKeeps | src/Hiccup.php:154-156 | the joined list has 2n-1 items, the elements at the even positions |
| Sequences.InterleaveSeparates | src/Hiccup.php:154-155 | the separator sits at every odd position |
| Sequences.NonNullRenders | src/Hiccup.php:152-153 | dropping null elements does not change the HTML |
| Sequences.RenderInterleave | src/Hiccup.php:147-158 | an interleaved list renders as its items' HTML joined by the separator's HTML |
| Sequences.JoinRenders | src/Hiccup.php:147-158 | `join` renders as the HTML of the non-null elements joined by the separator's HTML |
| Sequences.JoinExample | src/Hiccup.php:147-158 | `join(",", "a", null, "b")` yields `a`, `,`, `b` and writes `a,b` |

## Left out

- **PHP arrays are not sniffed by shape.** The source decides by runtime shape
  whether a value is a tag array, an iterable or an override. It also decides
  whether a tag array's second element is the override: an array with no
  entries or a string first key. The model takes the closed `Node` union, in
  which the caller says which one a value is. Children of a tag array at
  integer keys are modelled. Entries at string keys, which PHP passes to
  `handle_tag` as named arguments when it spreads the array, are not
  modelled.
- **Override keys** are strings. Integer keys in an explicit override are not
  modelled, and neither is PHP's conversion of numeric-string keys to integers.
  This conversion also applies to the keys of the override's `class` array.
  PHP turns the key of `['5' => true]` into the integer 5, and lines 64-67
  then drop the entry because its value is not a string. The model keeps it
  as the class `5`.
- **Class flags** from an override's `class` array are booleans. PHP's
  truthiness of other flag values at line 87 is not modelled.
- **Floating-point scalars** are not modelled. `Scalar` holds booleans,
  integers and strings.
- **Attribute escaping:** attribute values use `htmlentities` (line 79). The
  model escapes the same five characters as `htmlspecialchars`. The named
  entities `htmlentities` writes for non-ASCII characters are not modelled.
- **Strings** are sequences of characters. The byte offsets of `strlen` and
  `substr` agree with this for single-byte text only.
- **`Stringable` objects** stand as their string form where they are written,
  and a `Template` as the value its `hiccup()` returns. In the override's
  `class` entry an object is not a string: `Attributes.NormalizeClass` fails
  on it with the type `object`, and a positional object in the `class` array
  names no class. Template logic, and the other files of the
  library (`HTML5.php`, `Template_Base.php`, the `nixn/php` helpers
  `Util::map` and `Arr::reduce`), are not part of this model. The two helpers
  are written out where they are used.
- **Generators** (`each`, `foreach`, `join`, `lines`) are modelled as the
  finite sequence of values they yield. Laziness and infinite iterables are
  not modelled.
- Hiccup.HtmlItems: a PHP generator can be traversed only once. When the
  same `each`/`foreach`/`join`/`lines` generator appears twice in one tree,
  PHP throws on the second `foreach` (lines 112-113). The model renders the
  same items again, because its iterables are values.
- Sequences.ForEach: the loose
  `$items == null` test is true for an empty array as well. Both cases yield
  nothing, so `None` stands for both.
- Sequences.Join: generic over the element type. The `absent` value
  stands for PHP's `null`, which `===` compares against. `Sequences.Lines`
  instantiates it with `Null`.
- **Error messages:** exceptions are values of `Errors.Error`, carrying the
  data their messages show. `Errors.Message` writes the texts the renderer
  formats itself. The `TypeError` PHP raises for an array attribute value has
  PHP's own text, which is not modelled.
