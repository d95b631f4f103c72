/** An entity schema: a JSON schema for one entity type, the file it was read from,
    and the per-property metadata the program reads from it (src/EntitySchema.ts).
    Ajv's compilation and its compiled validator are parameters of this model.
 */
module EntitySchemas {
  import opened Wrappers
  import opened Json
  import opened Strings
  import opened EntityTypes

  /** `Number.MAX_SAFE_INTEGER`, the order of a property that states none. */
  const MaxSafeInteger: int := 9007199254740991

  /** Metadata of one schema property. The parser fills `unique` and `order`; the
      registry also reads `primaryKey` and `newUnique`, which the parser never sets,
      so they are false here unless a schema record is built by hand. */
  datatype PropertyMeta = PropertyMeta(name: string, primaryKey: bool, unique: bool, newUnique: bool, order: int)

  datatype EntitySchema = EntitySchema(kind: EntityType, filePath: string, jsonSchema: Value, properties: seq<PropertyMeta>)

  /** Ajv's validator compiled from a JSON schema, applied to an entity. */
  type Validator = (Value, Value) -> bool

  const InvalidSchema := "Invalid JSON schema."
  const InvalidProperty := "Invlid JSON schema"
  const NoProperties := "Cannot read properties of a null or undefined schema."

  /** `schema.x` for any value: only an object has own named fields. */
  function Member(v: Value, k: string): Value {
    if v.Obj? then Get(v.fields, k) else Undefined
  }

  /** The metadata of one property definition: `unique` is `x-kickcat-unique` when
      that is a boolean and false otherwise; `order` is the numeric `order`, or
      `Number.MAX_SAFE_INTEGER`. */
  function ParseProperty(name: string, definition: Value): (r: Result<PropertyMeta>)
    ensures r.Success? <==> IsObject(definition)
    ensures r.Success? ==> r.value.name == name && !r.value.primaryKey && !r.value.newUnique
    ensures r.Success? ==> (r.value.unique <==> Member(definition, "x-kickcat-unique") == Bool(true))
    ensures r.Success? && Member(definition, "order").Num? ==> r.value.order == Member(definition, "order").n
    ensures r.Success? && !Member(definition, "order").Num? ==> r.value.order == MaxSafeInteger
    ensures r.Failure? ==> r.error == InvalidProperty
  {
    if !IsObject(definition) then Failure(InvalidProperty)
    else
      var flag := Member(definition, "x-kickcat-unique");
      var unique := if flag.Bool? then flag.b else false;
      var order := Member(definition, "order");
      Success(PropertyMeta(name, false, unique, false, if order.Num? then order.n else MaxSafeInteger))
  }

  /** The own enumerable keys `for…in` visits and the value under each: an object's
      fields, or an array's positions as decimal strings. */
  function OwnEntries(v: Value): (es: Fields)
    requires IsObject(v)
    ensures v.Obj? ==> es == v.fields
    ensures v.Arr? ==> |es| == |v.items| && forall i :: 0 <= i < |es| ==> es[i] == (NatToString(i), v.items[i])
  {
    if v.Obj? then v.fields
    else seq(|v.items|, i requires 0 <= i < |v.items| => (NatToString(i), v.items[i]))
  }

  /** The loop of `#parse` over the property definitions from position `i` on. */
  function ParseEntries(es: Fields): (r: Result<seq<PropertyMeta>>)
    ensures r.Success? <==> forall i :: 0 <= i < |es| ==> IsObject(es[i].1)
    ensures r.Success? ==> (|r.value| == |es|
      && forall i :: 0 <= i < |es| ==> Success(r.value[i]) == ParseProperty(es[i].0, es[i].1))
    ensures r.Failure? ==> r.error == InvalidProperty
  {
    if |es| == 0 then Success([])
    else
      var first :- ParseProperty(es[0].0, es[0].1);
      var rest :- ParseEntries(es[1..]);
      Success([first] + rest)
  }

  /** `#parse`: the schema's `properties` must be an object (an array passes the test
      too), and each of its own properties must be defined by an object. */
  function ParseProperties(jsonSchema: Value): (r: Result<seq<PropertyMeta>>)
    ensures jsonSchema.Null? || jsonSchema.Undefined? ==> r == Failure(NoProperties)
    ensures !(jsonSchema.Null? || jsonSchema.Undefined?) && !IsObject(Member(jsonSchema, "properties")) ==>
      r == Failure(InvalidSchema)
    ensures r.Success? ==> (IsObject(Member(jsonSchema, "properties"))
      && r == ParseEntries(OwnEntries(Member(jsonSchema, "properties"))))
  {
    if jsonSchema.Null? || jsonSchema.Undefined? then Failure(NoProperties)
    else
      var properties := Member(jsonSchema, "properties");
      if !IsObject(properties) then Failure(InvalidSchema)
      else ParseEntries(OwnEntries(properties))
  }

  /** Ajv's `compile`: success, or the message of the error it throws (an invalid
      schema, or one that is null or undefined). */
  type Compiler = Value -> Result<()>

  /** The constructor: type and file path stored as given, the schema compiled by Ajv
      before anything is read from it, then the metadata parsed. */
  function NewEntitySchema(kind: EntityType, filePath: string, jsonSchema: Value, compile: Compiler): (r: Result<EntitySchema>)
    ensures r.Success? <==> compile(jsonSchema).Success? && ParseProperties(jsonSchema).Success?
    ensures compile(jsonSchema).Failure? ==> r == Failure(compile(jsonSchema).error)
    ensures compile(jsonSchema).Success? && r.Failure? ==> r.error == ParseProperties(jsonSchema).error
    ensures r.Success? ==> (r.value.kind == kind && r.value.filePath == filePath
      && r.value.jsonSchema == jsonSchema && r.value.properties == ParseProperties(jsonSchema).value)
  {
    var _ :- compile(jsonSchema);
    var properties :- ParseProperties(jsonSchema);
    Success(EntitySchema(kind, filePath, jsonSchema, properties))
  }

  /** `validate`: the compiled validator applied to the entity, nothing more. */
  function Validate(ajv: Validator, schema: EntitySchema, entity: Value): bool {
    ajv(schema.jsonSchema, entity)
  }

  /** Every own property of an object-valued `properties` gives exactly one metadata
      record, in enumeration order and under its own name. */
  lemma OnePerProperty(jsonSchema: Value)
    requires jsonSchema.Obj? && Member(jsonSchema, "properties").Obj?
    requires ParseProperties(jsonSchema).Success?
    ensures var ps := ParseProperties(jsonSchema).value;
      var fs := Member(jsonSchema, "properties").fields;
      |ps| == |fs| && forall i :: 0 <= i < |ps| ==> ps[i].name == fs[i].0
  {
    var fs := Member(jsonSchema, "properties").fields;
    var ps := ParseProperties(jsonSchema).value;
    forall i | 0 <= i < |ps| ensures ps[i].name == fs[i].0 {
      assert Success(ps[i]) == ParseProperty(fs[i].0, fs[i].1);
    }
  }
}
