/**
 * The record shape of one todo item (`ApiServiceRow`) and its validation
 * from a parsed JSON value: three required fields, `completed` optional with
 * default `false`, fields that are not part of the shape ignored.
 */
module Schemas {
  import opened Wrappers

  /** A parsed JSON value, tagged with its kind. */
  datatype Value =
    | Null
    | Bool(bval: bool)
    | Int(ival: int)
    | Float(fval: real)
    | Str(sval: string)
    | Array(items: seq<Value>)
    | Object(fields: map<string, Value>)

  /** One validated todo item. Python integers are unbounded, as `int` is here. */
  datatype Row = Row(userId: int, id: int, title: string, completed: bool)

  /** The field must be present and hold an integer. */
  function RequiredInt(fields: map<string, Value>, name: string): Option<int> {
    if name in fields && fields[name].Int? then Some(fields[name].ival) else None
  }

  /** The field must be present and hold a string. */
  function RequiredStr(fields: map<string, Value>, name: string): Option<string> {
    if name in fields && fields[name].Str? then Some(fields[name].sval) else None
  }

  /** The field may be absent (then `default`); when present it must hold a boolean. */
  function OptionalBool(fields: map<string, Value>, name: string, default: bool): Option<bool> {
    if name !in fields then Some(default)
    else if fields[name].Bool? then Some(fields[name].bval)
    else None
  }

  /** The shape a raw record must have to become a `Row`. */
  predicate Conforms(raw: Value) {
    && raw.Object?
    && "userId" in raw.fields && raw.fields["userId"].Int?
    && "id" in raw.fields && raw.fields["id"].Int?
    && "title" in raw.fields && raw.fields["title"].Str?
    && ("completed" in raw.fields ==> raw.fields["completed"].Bool?)
  }

  /**
   * `ApiServiceRow.model_validate`: all or nothing. Either every field of the
   * shape checks and the `Row` carries exactly the input's values, or there is
   * no `Row` at all.
   */
  function Validate(raw: Value): (r: Option<Row>)
    ensures r.Some? <==> Conforms(raw)
    ensures r.Some? ==>
      && raw.Object?
      && "userId" in raw.fields && raw.fields["userId"] == Int(r.value.userId)
      && "id" in raw.fields && raw.fields["id"] == Int(r.value.id)
      && "title" in raw.fields && raw.fields["title"] == Str(r.value.title)
      && ("completed" in raw.fields ==> raw.fields["completed"] == Bool(r.value.completed))
      && ("completed" !in raw.fields ==> !r.value.completed)
  {
    if !raw.Object? then None
    else
      var userId :- RequiredInt(raw.fields, "userId");
      var id :- RequiredInt(raw.fields, "id");
      var title :- RequiredStr(raw.fields, "title");
      var completed :- OptionalBool(raw.fields, "completed", false);
      Some(Row(userId, id, title, completed))
  }

  /** The JSON object the API sends for a row. */
  function Encode(row: Row): Value {
    Object(map["userId" := Int(row.userId), "id" := Int(row.id),
               "title" := Str(row.title), "completed" := Bool(row.completed)])
  }

  /** Validation accepts what the API sends for a row and gives that row back. */
  lemma ValidateEncode(row: Row)
    ensures Validate(Encode(row)) == Some(row)
  {
  }

  /** A record without `completed` validates to a row whose `completed` is `false`. */
  lemma CompletedDefaultsToFalse(fields: map<string, Value>, userId: int, id: int, title: string)
    requires "completed" !in fields
    requires "userId" in fields && fields["userId"] == Int(userId)
    requires "id" in fields && fields["id"] == Int(id)
    requires "title" in fields && fields["title"] == Str(title)
    ensures Validate(Object(fields)) == Some(Row(userId, id, title, false))
  {
  }

  /** A record missing `userId`, `id` or `title` gives no row. */
  lemma MissingRequiredFieldRejected(fields: map<string, Value>)
    requires "userId" !in fields || "id" !in fields || "title" !in fields
    ensures Validate(Object(fields)) == None
  {
  }

  /** Fields outside the shape do not affect validation. */
  lemma ExtraFieldsIgnored(f1: map<string, Value>, f2: map<string, Value>)
    requires forall name :: name in ["userId", "id", "title", "completed"] ==>
      (name in f1 <==> name in f2) && (name in f1 ==> f1[name] == f2[name])
    ensures Validate(Object(f1)) == Validate(Object(f2))
  {
    assert "userId" in ["userId", "id", "title", "completed"];
    assert "id" in ["userId", "id", "title", "completed"];
    assert "title" in ["userId", "id", "title", "completed"];
    assert "completed" in ["userId", "id", "title", "completed"];
  }
}
