/** The value tree that the parser produces and the writer consumes: what
    the Java code carries as `null`, `Boolean`, `Integer`, `Long`, `Double`,
    `String`, `List` and `Map`, closed into one datatype. */
module JsonValues {
  import opened Wrappers
  import opened Text
  import opened Numbers

  /** A `java.lang.Double`, reduced to what the codec observes of it: the text
      `Double.toString` gives and whether `Double.isFinite` holds. */
  datatype DoubleRepr = DoubleRepr(text: Text, finite: bool)

  /** The three `Number` classes the parser creates. */
  datatype Number = Integer(i: Int32) | Long(l: Int64) | Double(d: DoubleRepr)

  /** An object keeps its members in insertion order, as `LinkedHashMap`
      does; an array keeps its elements in order, as `ArrayList` does. */
  datatype Value =
    | Null
    | Bool(b: bool)
    | Num(n: Number)
    | Str(s: Text)
    | Arr(elements: seq<Value>)
    | Obj(members: Entries)

  /** The members of an object, in order. */
  type Entries = seq<(Text, Value)>

  /** The keys of an object's members, in order. */
  function Keys(ms: seq<(Text, Value)>): (ks: seq<Text>)
    ensures |ks| == |ms|
    ensures forall j {:trigger ks[j]} :: 0 <= j < |ms| ==> ks[j] == ms[j].0
  {
    if ms == [] then [] else [ms[0].0] + Keys(ms[1..])
  }

  /** `Number.toString()`. */
  function NumberText(n: Number): Text
  {
    match n
    case Integer(i) => DecimalText(i)
    case Long(l) => DecimalText(l)
    case Double(d) => d.text
  }

  /** `String.valueOf(v)`: what `toString()` gives for a parsed value, with
      `ArrayList` printed as `[a, b]` and `LinkedHashMap` as `{k=v, k=v}`. */
  function JavaText(v: Value): Text
    decreases v, 1, 0
  {
    match v
    case Null => NULL_WORD
    case Bool(b) => if b then TRUE_WORD else FALSE_WORD
    case Num(n) => NumberText(n)
    case Str(s) => s
    case Arr(es) => [LBRACKET] + ElementsJavaText(es, 0) + [RBRACKET]
    case Obj(ms) => [LBRACE] + MembersJavaText(ms, 0) + [RBRACE]
  }

  function ElementsJavaText(es: seq<Value>, j: nat): Text
    requires j <= |es|
    decreases Arr(es), 0, |es| - j
  {
    if j == |es| then []
    else (if j > 0 then [COMMA, SPACE] else []) + JavaText(es[j]) + ElementsJavaText(es, j + 1)
  }

  function MembersJavaText(ms: seq<(Text, Value)>, j: nat): Text
    requires j <= |ms|
    decreases Obj(ms), 0, |ms| - j
  {
    if j == |ms| then []
    else
      assert ms[j] in ms;
      (if j > 0 then [COMMA, SPACE] else []) + ms[j].0 + [EQUALS] + JavaText(ms[j].1)
        + MembersJavaText(ms, j + 1)
  }

  /** The key an object member gets from `nextItem().toString()`: `None` for
      a `null` item, whose `toString()` throws NullPointerException. */
  function KeyText(v: Value): (k: Option<Text>)
    ensures k.None? <==> v.Null?
    ensures v.Str? ==> k == Some(v.s)
  {
    if v.Null? then None else Some(JavaText(v))
  }
}
