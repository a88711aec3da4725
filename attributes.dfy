/** The attribute array of `Hiccup::handle_tag`: its starting shape, the
    normalisation of an explicit override's `class` entry, the recursive merge
    of the override over the inline attributes, and the emission of the
    attributes into the opening tag. */
module Attributes {
  import opened Wrappers
  import opened PhpText
  import opened Errors
  import opened Assoc

  /** A value of the attribute array. */
  datatype AttrVal =
      /** a scalar, or null */
    | Plain(value: Option<Scalar>)
      /** the `class` entry: class name => enabled */
    | Classes(flags: Assoc<bool>)
      /** an array given for an attribute other than `class`; it cannot be rendered */
    | ArrayValue

  type Attrs = Assoc<AttrVal>

  /** `['id' => null, 'class' => []]`, the array the scan starts from. */
  const InitialAttrs: Attrs := [("id", Plain(None)), ("class", Classes([]))]

  /** `id` and `class` come first, in that order, `class` holds a class map,
      and no key repeats. */
  predicate WellFormed(attrs: Attrs) {
    |attrs| >= 2 && attrs[0].0 == "id" && attrs[1].0 == "class" && attrs[1].1.Classes?
    && DistinctKeys(attrs)
  }

  /** `$attrs['class']`, as a class map. */
  function FlagsOf(attrs: Attrs): Assoc<bool> {
    var entry: Option<AttrVal> := Get(attrs, "class");
    match entry
    case Some(Classes(flags)) => flags
    case _ => []
  }

  /** `$attrs['class'][$name] = true`. */
  function AddClass(attrs: Attrs, name: string): Attrs {
    Put(attrs, "class", Classes(Put(FlagsOf(attrs), name, true)))
  }

  lemma PutKeepsWellFormed(attrs: Attrs, k: string, v: AttrVal)
    requires WellFormed(attrs)
    requires k == "class" ==> v.Classes?
    ensures WellFormed(Put(attrs, k, v))
  {
    PutKeepsDistinct(attrs, k, v);
  }

  /** In a well-formed array, `$attrs['class']` is the class map at position 1. */
  lemma FlagsOfWellFormed(attrs: Attrs)
    requires WellFormed(attrs)
    ensures Get(attrs, "class") == Some(attrs[1].1)
    ensures FlagsOf(attrs) == attrs[1].1.flags
  {
  }

  // ---------------------------------------------------------------------------
  // The explicit override

  /** An entry of an override's `class` array: a string key with its flag, a
      scalar or null at an integer (positional) key, or a `Stringable` object
      (given by its string form) at a positional key. */
  datatype ClassEntry =
    | Keyed(key: string, enabled: bool)
    | Positional(item: Option<Scalar>)
    | PositionalObject(text: string)

  /** A value of an explicit override: a scalar or null, an array, or a
      `Stringable` object, given by its string form. */
  datatype OverrideVal = Value(v: Option<Scalar>) | List(entries: seq<ClassEntry>) | Object(text: string)

  /** The explicit attribute override, the associative array a tag node may
      carry right after its spec. */
  type Override = Assoc<OverrideVal>

  /** The class an entry names, if any, trimmed: a non-blank string key, or a
      non-blank string value at a positional key. A positional object is not a
      string and names nothing. */
  function NamedClass(e: ClassEntry): Option<(string, bool)> {
    match e
    case Keyed(k, on) => if Trim(k) != "" then Some((Trim(k), on)) else None
    case Positional(Some(Str(v))) => if Trim(v) != "" then Some((Trim(v), true)) else None
    case Positional(_) => None
    case PositionalObject(_) => None
  }

  /** One step of the reduction over the `class` array. */
  function AddEntry(acc: Assoc<bool>, e: ClassEntry): Assoc<bool> {
    match NamedClass(e)
    case Some((name, on)) => Put(acc, name, on)
    case None => acc
  }

  /** The left fold (`Arr::reduce`) over the `class` array. */
  function ReduceClasses(acc: Assoc<bool>, es: seq<ClassEntry>): Assoc<bool>
    decreases es
  {
    if es == [] then acc else ReduceClasses(AddEntry(acc, es[0]), es[1..])
  }

  /** The entries that name a class, as (name, flag) pairs, in order. */
  function Named(es: seq<ClassEntry>): Assoc<bool> {
    if es == [] then []
    else
      match NamedClass(es[0])
      case Some(p) => [p] + Named(es[1..])
      case None => Named(es[1..])
  }

  function Positionals(words: seq<string>): seq<ClassEntry> {
    seq(|words|, i requires 0 <= i < |words| => Positional(Some(Str(words[i]))))
  }

  /** The override's `class` entry as a class map: null gives none, a string is
      split on runs of spaces, an array is reduced entry by entry, and any other
      scalar, or an object (even a `Stringable` one), is an error. Names are
      trimmed but not lowercased. */
  function NormalizeClass(v: OverrideVal): Result<Assoc<bool>, Error> {
    match v
    case Value(None) => Ok([])
    case Value(Some(Str(s))) => Ok(ReduceClasses([], Positionals(SplitSpaces(s))))
    case Value(Some(Bool(_))) => Err(InvalidClassType("boolean"))
    case Value(Some(Int(_))) => Err(InvalidClassType("integer"))
    case List(es) => Ok(ReduceClasses([], es))
    case Object(_) => Err(InvalidClassType("object"))
  }

  /** The reduction is the array literal of the entries that name a class. */
  lemma {:induction false} ReduceIsLiteral(acc: Assoc<bool>, es: seq<ClassEntry>)
    ensures ReduceClasses(acc, es) == PutAll(acc, Named(es))
    decreases es
  {
    if es != [] {
      ReduceIsLiteral(AddEntry(acc, es[0]), es[1..]);
    }
  }

  /** What the normalised `class` map holds: a class that an entry names takes
      the flag of the last entry naming it (a positional name is enabled); no
      other class appears; no name repeats; the classes come in the order in
      which entries first name them. */
  lemma ClassNormalization(es: seq<ClassEntry>, k: string)
    ensures Get(ReduceClasses([], es), k) == GetLast(Named(es), k)
    ensures k in Keys(ReduceClasses([], es)) <==> k in Keys(Named(es))
    ensures DistinctKeys(ReduceClasses([], es))
    ensures Keys(ReduceClasses([], es)) == NewKeys([], Keys(Named(es)))
  {
    ReduceIsLiteral([], es);
    PutAllSpec([], Named(es));
  }

  /** An override value as an attribute value: an array cannot be written, and
      a `Stringable` object is written by its string form, the string PHP
      converts it to for `$add_attr`'s string parameter. */
  function Convert(v: OverrideVal): AttrVal {
    match v
    case Value(x) => Plain(x)
    case List(_) => ArrayValue
    case Object(t) => Plain(Some(Str(t)))
  }

  function ConvertAll(o: Override): (r: Attrs)
    ensures Keys(r) == Keys(o)
    ensures forall k :: Get(r, k) == if k in Keys(o) then Some(Convert(Get(o, k).value)) else None
    ensures DistinctKeys(o) ==> DistinctKeys(r)
  {
    if o == [] then [] else [(o[0].0, Convert(o[0].1))] + ConvertAll(o[1..])
  }

  /** The override with its `class` entry normalised. */
  function NormalizeOverride(ov: Override): Result<Attrs, Error> {
    var arr := PutAll([], ov);
    match Get(arr, "class")
    case None => Ok(ConvertAll(arr))
    case Some(c) =>
      var flags :- NormalizeClass(c);
      Ok(Put(ConvertAll(arr), "class", Classes(flags)))
  }

  /** The value `array_replace_recursive` leaves at a key: two class maps merge,
      anything else is replaced. */
  function MergedValue(before: Option<AttrVal>, v: AttrVal): AttrVal {
    match (before, v)
    case (Some(Classes(f)), Classes(g)) => Classes(PutAll(f, g))
    case _ => v
  }

  /** `array_replace_recursive($base, $over)` on these values: the only arrays
      that can meet are two class maps. */
  function ReplaceRecursive(base: Attrs, over: Attrs): Attrs
    decreases over
  {
    if over == [] then base
    else ReplaceRecursive(Put(base, over[0].0, MergedValue(Get(base, over[0].0), over[0].1)), over[1..])
  }

  /** The attributes after an explicit override. */
  function Merge(attrs: Attrs, ov: Override): Result<Attrs, Error> {
    var over :- NormalizeOverride(ov);
    Ok(ReplaceRecursive(attrs, over))
  }

  /** An override whose `class` entry, if any, is a class map. */
  predicate ClassIsMap(over: Attrs) {
    Get(over, "class").Some? ==> Get(over, "class").value.Classes?
  }

  /** `array_replace_recursive` keeps the base's keys in place and appends the
      override's other keys in the override's order. */
  lemma ReplaceRecursiveKeys(base: Attrs, over: Attrs)
    ensures Keys(ReplaceRecursive(base, over)) == Keys(base) + NewKeys(Keys(base), Keys(over))
    ensures forall k :: k in Keys(ReplaceRecursive(base, over)) <==> k in Keys(base) || k in Keys(over)
  {
    ReplaceRecursiveKeyList(base, over);
  }

  lemma {:induction false} ReplaceRecursiveKeyList(base: Attrs, over: Attrs)
    ensures Keys(ReplaceRecursive(base, over)) == Keys(base) + NewKeys(Keys(base), Keys(over))
    decreases over
  {
    if over != [] {
      var k := over[0].0;
      var b := Put(base, k, MergedValue(Get(base, k), over[0].1));
      var ks, rest := Keys(base), Keys(over[1..]);
      assert ReplaceRecursive(base, over) == ReplaceRecursive(b, over[1..]);
      ReplaceRecursiveKeyList(b, over[1..]);
      assert Keys(over) == [k] + rest;
      if k !in ks {
        assert Keys(b) == ks + [k];
        assert NewKeys(ks, Keys(over)) == [k] + NewKeys(ks + [k], rest);
        assert ks + [k] + NewKeys(ks + [k], rest) == ks + ([k] + NewKeys(ks + [k], rest));
      }
    }
  }

  lemma {:induction false} ReplaceRecursiveWellFormed(base: Attrs, over: Attrs)
    requires WellFormed(base) && DistinctKeys(over) && ClassIsMap(over)
    ensures WellFormed(ReplaceRecursive(base, over))
    decreases over
  {
    if over != [] {
      var k := over[0].0;
      var v := MergedValue(Get(base, k), over[0].1);
      if k == "class" {
        FlagsOfWellFormed(base);
        assert over[0].1.Classes?;
      }
      PutKeepsWellFormed(base, k, v);
      ReplaceRecursiveWellFormed(Put(base, k, v), over[1..]);
    }
  }

  lemma {:induction false} ReplaceRecursiveValues(base: Attrs, over: Attrs, k: string)
    requires DistinctKeys(over)
    ensures Get(ReplaceRecursive(base, over), k)
         == if k in Keys(over) then Some(MergedValue(Get(base, k), Get(over, k).value)) else Get(base, k)
    decreases over
  {
    if over != [] {
      var k0 := over[0].0;
      var b := Put(base, k0, MergedValue(Get(base, k0), over[0].1));
      ReplaceRecursiveValues(b, over[1..], k);
    }
  }

  lemma NormalizeOverrideSpec(ov: Override, over: Attrs)
    requires NormalizeOverride(ov) == Ok(over)
    ensures DistinctKeys(over)
    ensures Keys(over) == NewKeys([], Keys(ov))
    ensures forall k :: k in Keys(over) <==> k in Keys(ov)
    ensures forall k :: k != "class" ==> Get(over, k) == if k in Keys(ov) then Some(Convert(GetLast(ov, k).value)) else None
    ensures "class" in Keys(ov) ==> NormalizeClass(GetLast(ov, "class").value).Ok?
    ensures "class" in Keys(ov) ==> Get(over, "class") == Some(Classes(NormalizeClass(GetLast(ov, "class").value).value))
  {
    var arr := PutAll([], ov);
    PutAllSpec([], ov);
    assert Keys(arr) == NewKeys([], Keys(ov));
    if Get(arr, "class").Some? {
      PutKeepsDistinct(ConvertAll(arr), "class", Classes(NormalizeClass(Get(arr, "class").value).value));
    }
  }

  /** The merge keeps the shape of the attribute array: the inline attributes
      keep their positions, new keys from the override follow them in the
      order in which the override first names them, no key repeats, and `id`
      and `class` stay in front. */
  lemma MergeShape(attrs: Attrs, ov: Override)
    requires WellFormed(attrs) && Merge(attrs, ov).Ok?
    ensures WellFormed(Merge(attrs, ov).value)
    ensures Keys(Merge(attrs, ov).value) == Keys(attrs) + NewKeys(Keys(attrs), Keys(ov))
    ensures forall k :: k in Keys(Merge(attrs, ov).value) <==> k in Keys(attrs) || k in Keys(ov)
  {
    var over := NormalizeOverride(ov).value;
    NormalizeOverrideSpec(ov, over);
    ReplaceRecursiveKeys(attrs, over);
    ReplaceRecursiveWellFormed(attrs, over);
    NewKeysTwice(Keys(attrs), [], Keys(ov));
    assert Keys(attrs) + [] == Keys(attrs);
  }

  /** An attribute other than `class` that the override names takes the last
      value the override gives it; every other attribute keeps its value. */
  lemma MergeValues(attrs: Attrs, ov: Override, k: string)
    requires Merge(attrs, ov).Ok? && k != "class"
    ensures Get(Merge(attrs, ov).value, k) == if k in Keys(ov) then Some(Convert(GetLast(ov, k).value)) else Get(attrs, k)
  {
    var over := NormalizeOverride(ov).value;
    NormalizeOverrideSpec(ov, over);
    ReplaceRecursiveValues(attrs, over, k);
  }

  /** The `class` map is merged: a class the override names takes its flag from
      the normalised override (in place when the inline spec already had it,
      after the inline ones otherwise); the other inline classes keep theirs. */
  lemma MergeClasses(attrs: Attrs, ov: Override)
    requires WellFormed(attrs) && Merge(attrs, ov).Ok?
    ensures "class" in Keys(ov) ==> NormalizeClass(GetLast(ov, "class").value).Ok?
    ensures "class" in Keys(ov) ==>
      FlagsOf(Merge(attrs, ov).value) == PutAll(FlagsOf(attrs), NormalizeClass(GetLast(ov, "class").value).value)
    ensures "class" !in Keys(ov) ==> FlagsOf(Merge(attrs, ov).value) == FlagsOf(attrs)
  {
    var over := NormalizeOverride(ov).value;
    NormalizeOverrideSpec(ov, over);
    ReplaceRecursiveValues(attrs, over, "class");
    FlagsOfWellFormed(attrs);
  }

  /** The merge fails exactly when the override's `class` entry is a boolean
      or an integer, and then with that entry's error. */
  lemma MergeFails(attrs: Attrs, ov: Override)
    ensures Merge(attrs, ov).Err? <==> "class" in Keys(ov) && NormalizeClass(GetLast(ov, "class").value).Err?
    ensures Merge(attrs, ov).Err? ==> Merge(attrs, ov).error == NormalizeClass(GetLast(ov, "class").value).error
  {
    PutAllValues([], ov, "class");
  }

  // ---------------------------------------------------------------------------
  // Emission

  /** What `$add_attr` appends for a scalar value: `true` gives the bare name,
      `null` and `false` give nothing, anything else `name="escaped"`. */
  function AttrHtml(name: string, v: Option<Scalar>): string {
    match v
    case None => ""
    case Some(Bool(b)) => if b then " " + name else ""
    case Some(x) => " " + name + "=\"" + Escape(StringOf(x)) + "\""
  }

  /** `$add_attr` on an entry of the array; an array value is a `TypeError`. */
  function EntryHtml(name: string, v: AttrVal): Result<string, Error> {
    match v
    case Plain(x) => Ok(AttrHtml(name, x))
    case _ => Err(InvalidAttributeValue(name))
  }

  /** The names of the enabled classes, in map order. */
  function EnabledNames(flags: Assoc<bool>): seq<string> {
    if flags == [] then []
    else
      var names := EnabledNames(flags[..|flags| - 1]);
      if flags[|flags| - 1].1 then names + [flags[|flags| - 1].0] else names
  }

  /** The `class` attribute: the enabled names joined by spaces, or nothing when
      none is enabled. */
  function ClassAttrHtml(flags: Assoc<bool>): string {
    var names := EnabledNames(flags);
    AttrHtml("class", if names == [] then Some(Bool(false)) else Some(Str(JoinWith(" ", names))))
  }

  /** The remaining attributes, in array order; the first array value fails. */
  function RestHtml(rest: Attrs): Result<string, Error> {
    if rest == [] then Ok("")
    else
      var before :- RestHtml(rest[..|rest| - 1]);
      var last :- EntryHtml(rest[|rest| - 1].0, rest[|rest| - 1].1);
      Ok(before + last)
  }

  /** The attribute text of the opening tag: `id`, then `class`, then every
      other entry in array order. */
  function AttributesHtml(attrs: Attrs): Result<string, Error> {
    var id :- match Get(attrs, "id") case None => Ok("") case Some(v) => EntryHtml("id", v);
    var others :- RestHtml(Remove(Remove(attrs, "id"), "class"));
    Ok(id + ClassAttrHtml(FlagsOf(attrs)) + others)
  }

  lemma {:induction false} RestHtmlFirstError(rest: Attrs, i: nat)
    requires i < |rest| && RestHtml(rest[..i]).Ok? && EntryHtml(rest[i].0, rest[i].1).Err?
    ensures RestHtml(rest) == Err(EntryHtml(rest[i].0, rest[i].1).error)
  {
    var p := rest[..|rest| - 1];
    if i < |rest| - 1 {
      assert p[..i] == rest[..i];
      RestHtmlFirstError(p, i);
    } else {
      assert p == rest[..i];
    }
  }

  /** The loop collecting the enabled class names. */
  method CollectClassNames(flags: Assoc<bool>) returns (names: seq<string>)
    ensures names == EnabledNames(flags)
  {
    names := [];
    for i := 0 to |flags|
      invariant names == EnabledNames(flags[..i])
    {
      assert flags[..i + 1][..i] == flags[..i];
      if flags[i].1 {
        names := names + [flags[i].0];
      }
    }
    assert flags[..|flags|] == flags;
  }

  /** The loop calling `$add_attr` on every entry left after `id` and `class`:
      it appends to `html`, or stops at the first array value. */
  method AppendRest(html: string, rest: Attrs) returns (r: Result<string, Error>)
    ensures RestHtml(rest).Ok? ==> r == Ok(html + RestHtml(rest).value)
    ensures RestHtml(rest).Err? ==> r == Err(RestHtml(rest).error)
  {
    var out := html;
    for i := 0 to |rest|
      invariant RestHtml(rest[..i]).Ok?
      invariant out == html + RestHtml(rest[..i]).value
    {
      var e := EntryHtml(rest[i].0, rest[i].1);
      if e.Err? {
        RestHtmlFirstError(rest, i);
        return Err(e.error);
      }
      assert rest[..i + 1][..i] == rest[..i];
      out := out + e.value;
    }
    assert rest[..|rest|] == rest;
    r := Ok(out);
  }

  /** `$add_attr` with `unset`: it writes the attributes of the opening tag in
      the order `id`, `class`, then the rest of the array. */
  method EmitAttributes(attrs: Attrs) returns (r: Result<string, Error>)
    ensures r == AttributesHtml(attrs)
  {
    var remaining := attrs;
    var html := "";
    var id := Get(remaining, "id");
    if id.Some? {
      var e := EntryHtml("id", id.value);
      if e.Err? {
        return Err(e.error);
      }
      html := e.value;
    }
    remaining := Remove(remaining, "id");
    assert FlagsOf(remaining) == FlagsOf(attrs);
    var names := CollectClassNames(FlagsOf(remaining));
    html := html + AttrHtml("class", if names == [] then Some(Bool(false)) else Some(Str(JoinWith(" ", names))));
    remaining := Remove(remaining, "class");
    r := AppendRest(html, remaining);
  }

  /** A class is listed in the `class` attribute exactly when the map holds it
      as enabled. */
  lemma {:induction false} EnabledNamesSpec(flags: Assoc<bool>, n: string)
    ensures n in EnabledNames(flags) <==> (n, true) in flags
  {
    if flags != [] {
      var p := flags[..|flags| - 1];
      EnabledNamesSpec(p, n);
      assert flags == p + [flags[|flags| - 1]];
    }
  }

  lemma {:induction false} RemoveAbsent(m: Attrs, k: string)
    requires k !in Keys(m)
    ensures Remove(m, k) == m
  {
    if m != [] {
      RemoveAbsent(m[1..], k);
    }
  }

  /** Emission order: for a well-formed array the attributes appear as `id`,
      then `class`, then every other entry in the order the array holds them. */
  lemma EmissionOrder(attrs: Attrs)
    requires WellFormed(attrs)
    ensures AttributesHtml(attrs)
         == (var id :- EntryHtml("id", attrs[0].1);
             var others :- RestHtml(attrs[2..]);
             Ok(id + ClassAttrHtml(FlagsOf(attrs)) + others))
  {
    var tail := attrs[2..];
    assert attrs[1..][1..] == tail;
    assert "id" !in Keys(attrs[1..]);
    assert DistinctKeys(attrs[1..]);
    assert "class" !in Keys(tail);
    assert "id" !in Keys(tail) by {
      assert Keys(attrs[1..]) == ["class"] + Keys(tail);
    }
    RemoveAbsent(tail, "id");
    RemoveAbsent(tail, "class");
    assert Remove(attrs, "id") == [attrs[1]] + tail;
    assert Remove([attrs[1]] + tail, "class") == tail;
  }
}
