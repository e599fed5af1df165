/** One parameter contract, rendered as a JSON Schema for the model and enforced by a validator at run time. */
module FieldContract {
  import opened Options

  datatype Json =
    | Null
    | Bool(b: bool)
    | Num(n: real)
    | Str(s: string)
    | Arr(elems: seq<Json>)
    | Obj(fields: map<string, Json>)

  /** A contract node; an enumeration or a required list may be empty, bounds and items absent. */
  datatype Node =
    | StringNode(members: seq<string>)
    | IntegerNode(minimum: Option<int>, maximum: Option<int>)
    | ArrayNode(items: Option<Node>)
    | ObjectNode(props: map<string, Node>, req: seq<string>)
    | UnknownNode

  // ---------- JSON Schema, by itself ----------

  /** The keywords the renderer uses; an absent keyword asserts nothing. */
  datatype Schema = Schema(typeName: Option<string>, members: Option<seq<string>>,
                           minimum: Option<int>, maximum: Option<int>, items: Option<Schema>,
                           properties: Option<map<string, Schema>>, required: Option<seq<string>>,
                           additionalProperties: bool)

  const ANYTHING := Schema(None, None, None, None, None, None, None, true)

  predicate IsIntegral(n: real) {
    n.Floor as real == n
  }

  /** The keyword type, with 1.0 an integer (section 6.1.1 of JSON Schema Validation, draft 2020-12). */
  predicate HasType(v: Json, typeName: string) {
    || (typeName == "string" && v.Str?)
    || (typeName == "integer" && v.Num? && IsIntegral(v.n))
    || (typeName == "array" && v.Arr?)
    || (typeName == "object" && v.Obj?)
  }

  /** Acceptance: every keyword present holds, and each applies to values of its own type only, except type and enum. */
  ghost predicate Accepts(schema: Schema, v: Json)
    decreases v
  {
    && (schema.typeName.Some? ==> HasType(v, schema.typeName.value))
    && (schema.members.Some? ==> v.Str? && v.s in schema.members.value)
    && (schema.minimum.Some? && v.Num? ==> v.n >= schema.minimum.value as real)
    && (schema.maximum.Some? && v.Num? ==> v.n <= schema.maximum.value as real)
    && (schema.items.Some? && v.Arr? ==> forall i :: 0 <= i < |v.elems| ==> Accepts(schema.items.value, v.elems[i]))
    && (schema.properties.Some? && v.Obj? ==>
          forall k :: k in schema.properties.value && k in v.fields ==>
            Accepts(schema.properties.value[k], v.fields[k]))
    && (schema.required.Some? && v.Obj? ==> forall k :: k in schema.required.value ==> k in v.fields)
    && (!schema.additionalProperties && v.Obj? ==>
          forall k :: k in v.fields ==> schema.properties.Some? && k in schema.properties.value)
  }

  // ---------- the two consumers of a node ----------

  function Render(n: Node): Schema {
    match n
    case StringNode(members) =>
      ANYTHING.(typeName := Some("string"), members := if |members| > 0 then Some(members) else None)
    case IntegerNode(minimum, maximum) =>
      ANYTHING.(typeName := Some("integer"), minimum := minimum, maximum := maximum)
    case ArrayNode(items) =>
      ANYTHING.(typeName := Some("array"), items := Some(if items.Some? then Render(items.value) else ANYTHING))
    case ObjectNode(props, req) =>
      ANYTHING.(typeName := Some("object"), additionalProperties := false,
                properties := Some(map k | k in props :: Render(props[k])),
                required := if |req| > 0 then Some(req) else None)
    case UnknownNode => ANYTHING
  }

  /** No error from the run-time validator: only a present, non-empty, well-typed value can violate the contract. */
  ghost predicate Validates(n: Node, v: Json) {
    match n
    case StringNode(members) => !v.Str? || v.s == "" || |members| == 0 || v.s in members
    case IntegerNode(minimum, maximum) =>
      !v.Num? || ((minimum.Some? ==> v.n >= minimum.value as real) && (maximum.Some? ==> v.n <= maximum.value as real))
    case ArrayNode(items) =>
      !v.Arr? || items.None? || forall i :: 0 <= i < |v.elems| ==> Validates(items.value, v.elems[i])
    case ObjectNode(props, _) =>
      !v.Obj? || forall k :: k in props && k in v.fields ==> Validates(props[k], v.fields[k])
    case UnknownNode => true
  }

  /** What the validator leaves to others: types and unknown keys to the decoder, presence to the clarification path,
      and an empty string in an enumerated field to nobody. */
  ghost predicate WellShaped(n: Node, v: Json) {
    match n
    case StringNode(members) => v.Str? && (v.s == "" && |members| > 0 ==> "" in members)
    case IntegerNode(_, _) => v.Num? && IsIntegral(v.n)
    case ArrayNode(items) =>
      v.Arr? && (items.None? || forall i :: 0 <= i < |v.elems| ==> WellShaped(items.value, v.elems[i]))
    case ObjectNode(props, req) =>
      && v.Obj? && (forall k :: k in v.fields ==> k in props) && (forall k :: k in req ==> k in v.fields)
      && forall k :: k in props && k in v.fields ==> WellShaped(props[k], v.fields[k])
    case UnknownNode => true
  }

  /** At any depth the schema accepts exactly what passes the validator and has the shape the validator leaves to
      others. */
  lemma {:induction false} SchemaIsValidatorPlusShape(n: Node, v: Json)
    ensures Accepts(Render(n), v) <==> Validates(n, v) && WellShaped(n, v)
    decreases n
  {
    var schema := Render(n);
    match n {
      case StringNode(_) =>
      case IntegerNode(_, _) =>
      case ArrayNode(items) =>
        if v.Arr? {
          forall i | 0 <= i < |v.elems|
            ensures Accepts(schema.items.value, v.elems[i]) <==>
                      items.None? || (Validates(items.value, v.elems[i]) && WellShaped(items.value, v.elems[i]))
          {
            if items.Some? { SchemaIsValidatorPlusShape(items.value, v.elems[i]); }
          }
        }
      case ObjectNode(props, req) =>
        if v.Obj? {
          forall k | k in props && k in v.fields
            ensures Accepts(schema.properties.value[k], v.fields[k]) <==>
                      Validates(props[k], v.fields[k]) && WellShaped(props[k], v.fields[k])
          {
            SchemaIsValidatorPlusShape(props[k], v.fields[k]);
          }
        }
      case UnknownNode =>
    }
  }

  /** The one gap between the two on well-typed strings: "" passes every enumeration but the schema's. */
  lemma EmptyMemberIsTheGap(members: seq<string>, s: string)
    requires |members| > 0
    ensures (Validates(StringNode(members), Str(s)) && !Accepts(Render(StringNode(members)), Str(s))) <==>
              s == "" && "" !in members
  {
    SchemaIsValidatorPlusShape(StringNode(members), Str(s));
  }

  // ---------- the validator, by its violations ----------

  /** One step into a value: a field of an object or an element of an array. */
  datatype Step = Field(name: string) | Element(index: nat)

  /** The path goes through the value, and through the contract with it: declared and present fields, and elements whose
      contract is declared. */
  predicate Reaches(n: Node, v: Json, path: seq<Step>)
    decreases |path|
  {
    path == []
    || match path[0]
       case Field(k) =>
         n.ObjectNode? && v.Obj? && k in n.props && k in v.fields && Reaches(n.props[k], v.fields[k], path[1..])
       case Element(i) =>
         n.ArrayNode? && v.Arr? && n.items.Some? && i < |v.elems| && Reaches(n.items.value, v.elems[i], path[1..])
  }

  function EndOf(n: Node, v: Json, path: seq<Step>): (Node, Json)
    requires Reaches(n, v, path)
    decreases |path|
  {
    if path == [] then (n, v)
    else match path[0]
      case Field(k) => EndOf(n.props[k], v.fields[k], path[1..])
      case Element(i) => EndOf(n.items.value, v.elems[i], path[1..])
  }

  /** A string outside a non-empty enumeration, "" aside, or a number outside its bounds. */
  predicate Violates(n: Node, v: Json) {
    || (n.StringNode? && v.Str? && v.s != "" && |n.members| > 0 && v.s !in n.members)
    || (n.IntegerNode? && v.Num? && n.minimum.Some? && v.n < n.minimum.value as real)
    || (n.IntegerNode? && v.Num? && n.maximum.Some? && v.n > n.maximum.value as real)
  }

  predicate ViolatedAt(n: Node, v: Json, path: seq<Step>) {
    Reaches(n, v, path) && Violates(EndOf(n, v, path).0, EndOf(n, v, path).1)
  }

  /** The validator reports an error exactly if some present and declared value, at any depth, violates its contract. */
  lemma {:induction false} ValidatesIff(n: Node, v: Json)
    ensures Validates(n, v) <==> forall path :: !ViolatedAt(n, v, path)
  {
    if path :| ViolatedAt(n, v, path) {
      ViolationIsFound(n, v, path);
    } else if !Validates(n, v) {
      var path := Violation(n, v);
      assert false;
    }
  }

  lemma {:induction false} ViolationIsFound(n: Node, v: Json, path: seq<Step>)
    requires ViolatedAt(n, v, path)
    ensures !Validates(n, v)
    decreases |path|
  {
    if path != [] {
      match path[0] {
        case Field(k) => ViolationIsFound(n.props[k], v.fields[k], path[1..]);
        case Element(i) => ViolationIsFound(n.items.value, v.elems[i], path[1..]);
      }
    }
  }

  lemma {:induction false} Violation(n: Node, v: Json) returns (path: seq<Step>)
    requires !Validates(n, v)
    ensures ViolatedAt(n, v, path)
    decreases n
  {
    path := [];
    match n {
      case ArrayNode(items) =>
        var i: nat :| i < |v.elems| && !Validates(items.value, v.elems[i]);
        var rest := Violation(items.value, v.elems[i]);
        path := [Element(i)] + rest;
        assert path[1..] == rest;
      case ObjectNode(props, _) =>
        var k :| k in props && k in v.fields && !Validates(props[k], v.fields[k]);
        var rest := Violation(props[k], v.fields[k]);
        path := [Field(k)] + rest;
        assert path[1..] == rest;
      case _ =>
    }
  }
}
