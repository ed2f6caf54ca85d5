/**
 The slice of Jackson's JsonNode API the mappers and the ingestion service use.
 A Java `null` from `get` is `None`; calling `asText()` on it is a
 NullPointerException, which every caller models as failure.
 */
module Json {
  import opened Wrappers
  import JavaString

  /** A JSON value. Numbers keep the text Jackson prints for them. */
  datatype Node =
    | Null
    | Bool(b: bool)
    | Num(lexeme: string)
    | Text(s: string)
    | Array(items: seq<Node>)
    | Object(fields: map<string, Node>)

  /** node.get(fieldName): the field of an object, Java null for a missing
      field or for a node that is not an object. */
  function Get(n: Node, key: string): (r: Option<Node>)
    ensures r.Some? <==> n.Object? && key in n.fields
  {
    if n.Object? && key in n.fields then Some(n.fields[key]) else None
  }

  /** node.has(fieldName): the field exists, even when its value is JSON null. */
  predicate Has(n: Node, key: string) {
    Get(n, key).Some?
  }

  /** node.asText(): the text of a string, the printed form of a scalar,
      "null" for JSON null and "" for containers. */
  function AsText(n: Node): string {
    match n
    case Null => "null"
    case Bool(b) => if b then "true" else "false"
    case Num(lexeme) => lexeme
    case Text(s) => s
    case Array(_) => ""
    case Object(_) => ""
  }

  /** get(key).asText(), failing (NullPointerException) when the field is missing. */
  function TextOf(n: Node, key: string): (r: Option<string>)
    ensures r.Some? <==> Has(n, key)
    ensures r.Some? ==> r.value == AsText(Get(n, key).value)
  {
    match Get(n, key)
    case None => None
    case Some(v) => Some(AsText(v))
  }

  /** The guard `has(key) && !get(key).isNull()`. */
  predicate HasNonNull(n: Node, key: string) {
    Has(n, key) && !Get(n, key).value.Null?
  }

  /** String.join(", ", mapper.convertValue(array, List.class)): JSON strings
      join as their text and JSON null as "null"; any other element reaches the
      join as a non-CharSequence and throws ClassCastException (None). */
  function JoinTexts(items: seq<Node>): (r: Option<string>)
    ensures r.Some? <==> forall i :: 0 <= i < |items| ==> items[i].Text? || items[i].Null?
    ensures r.Some? ==> r.value == JavaString.Join(ItemTexts(items), ", ")
  {
    if forall i :: 0 <= i < |items| ==> items[i].Text? || items[i].Null?
    then Some(JavaString.Join(ItemTexts(items), ", "))
    else None
  }

  /** The texts of the elements, "null" standing for JSON null. */
  function ItemTexts(items: seq<Node>): (r: seq<string>)
    ensures |r| == |items|
    ensures forall i :: 0 <= i < |items| ==> r[i] == AsText(items[i])
  {
    seq(|items|, i requires 0 <= i < |items| => AsText(items[i]))
  }
}
