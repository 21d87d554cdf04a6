/** The zod object schemas of the input forms, as data, and `safeParse`
    over them. Every field the schemas declare is a string with either a
    minimum length or an e-mail rule. The e-mail rule is the library's own
    pattern; it is an input predicate here, and no schema whose acceptance
    is stated below depends on it except through that predicate.
 */
module Schemas {
  import opened Db

  /** A string rule. `message` is the custom error text, or None where the
      library's default text applies. */
  datatype Rule =
    | MinLength(min: nat, message: Option<string>)
    | Email(message: Option<string>)

  datatype Field = Field(key: string, rule: Rule)

  /** `z.object({ ... })` with string fields, in declaration order. */
  type Schema = seq<Field>

  /** The submitted object: field name to string value. */
  type Values = map<string, string>

  datatype Issue = Issue(path: string, message: Option<string>)

  /** `safeParse`'s result: the parsed data, or the issues found. */
  datatype Parsed = Ok(data: Values) | Invalid(issues: seq<Issue>)

  /** `AttachmentSchema`. */
  const AttachmentSchema: Schema := [Field("url", MinLength(1, None))]

  /** `CourseSchema.courseTitle`. */
  const CourseTitleSchema: Schema := [Field("title", MinLength(1, Some("Title is required")))]

  /** `CourseSchema.courseDescription`; its message reads "Title is required" too. */
  const CourseDescriptionSchema: Schema := [Field("description", MinLength(1, Some("Title is required")))]

  /** `CourseSchema.courseImage`; its message reads "Title is required" too. */
  const CourseImageSchema: Schema := [Field("imageUrl", MinLength(1, Some("Title is required")))]

  /** `CourseSchema.courseCategory`. */
  const CourseCategorySchema: Schema := [Field("categoryId", MinLength(1, None))]

  const LoginSchema: Schema := [
    Field("email", Email(Some("Email is required"))),
    Field("password", MinLength(1, Some("Password is required")))
  ]

  const SignUpSchema: Schema := [
    Field("username", MinLength(1, Some("username is required"))),
    Field("email", Email(Some("Email is required"))),
    Field("password", MinLength(1, Some("Password is required")))
  ]

  /** The field is present and its value obeys the rule. */
  predicate Satisfies(f: Field, values: Values, isEmail: string -> bool) {
    f.key in values &&
    match f.rule
    case MinLength(n, _) => |values[f.key]| >= n
    case Email(_) => isEmail(values[f.key])
  }

  /** The issue one field raises: a missing field is "Required" (the
      library's text, left abstract), a rule violation carries the rule's
      message. */
  function FieldIssues(f: Field, values: Values, isEmail: string -> bool): (r: seq<Issue>)
    ensures r == [] <==> Satisfies(f, values, isEmail)
    ensures |r| <= 1
  {
    if f.key !in values then [Issue(f.key, None)]
    else
      match f.rule
      case MinLength(n, msg) => if |values[f.key]| < n then [Issue(f.key, msg)] else []
      case Email(msg) => if isEmail(values[f.key]) then [] else [Issue(f.key, msg)]
  }

  function Issues(schema: Schema, values: Values, isEmail: string -> bool): seq<Issue>
    decreases |schema|
  {
    if schema == [] then []
    else FieldIssues(schema[0], values, isEmail) + Issues(schema[1..], values, isEmail)
  }

  function Keys(schema: Schema): set<string> {
    set f | f in schema :: f.key
  }

  /** `schema.safeParse(values)`: accepted data keeps only the declared
      fields (zod strips unknown keys). */
  function SafeParse(schema: Schema, values: Values, isEmail: string -> bool): (r: Parsed)
    ensures r.Ok? ==> r.data.Keys == Keys(schema) * values.Keys
    ensures r.Ok? ==> forall k :: k in r.data ==> r.data[k] == values[k]
  {
    var issues := Issues(schema, values, isEmail);
    if issues == [] then Ok(map k | k in values && k in Keys(schema) :: values[k])
    else Invalid(issues)
  }

  /** No issue at all exactly when every field is satisfied. */
  lemma {:induction false} NoIssuesIff(schema: Schema, values: Values, isEmail: string -> bool)
    ensures Issues(schema, values, isEmail) == [] <==>
            forall i :: 0 <= i < |schema| ==> Satisfies(schema[i], values, isEmail)
    decreases |schema|
  {
    if schema != [] {
      NoIssuesIff(schema[1..], values, isEmail);
      assert forall i :: 1 <= i < |schema| ==> schema[i] == schema[1..][i - 1];
    }
  }

  /** A schema accepts exactly the objects that satisfy each of its fields,
      and then every declared field is in the data. */
  lemma AcceptsIff(schema: Schema, values: Values, isEmail: string -> bool)
    ensures SafeParse(schema, values, isEmail).Ok? <==>
            forall i :: 0 <= i < |schema| ==> Satisfies(schema[i], values, isEmail)
    ensures SafeParse(schema, values, isEmail).Ok? ==>
            forall i :: 0 <= i < |schema| ==> schema[i].key in SafeParse(schema, values, isEmail).data
  {
    NoIssuesIff(schema, values, isEmail);
    if SafeParse(schema, values, isEmail).Ok? {
      forall i | 0 <= i < |schema|
        ensures schema[i].key in SafeParse(schema, values, isEmail).data
      {
        assert schema[i] in schema;
      }
    }
  }

  /** Whether `AttachmentSchema` accepts a url; its only rule is a length
      rule, so the e-mail predicate handed over is never consulted. */
  predicate AttachmentAccepts(values: Values) {
    SafeParse(AttachmentSchema, values, _ => false).Ok?
  }

  /** `AttachmentSchema.safeParse(values)`, reduced to the url it yields. */
  function ParseAttachment(values: Values): (url: Option<string>)
    ensures url.Some? <==> AttachmentAccepts(values)
    ensures url.Some? <==> "url" in values && |values["url"]| >= 1
    ensures url.Some? ==> url.value == values["url"]
  {
    AttachmentSchemaAccepts(values, _ => false);
    var parsed := SafeParse(AttachmentSchema, values, _ => false);
    if parsed.Ok? then Some(parsed.data["url"]) else None
  }

  /** An attachment is accepted exactly when its url is non-empty; the data
      is that url alone. */
  lemma AttachmentSchemaAccepts(values: Values, isEmail: string -> bool)
    ensures SafeParse(AttachmentSchema, values, isEmail).Ok? <==> "url" in values && |values["url"]| >= 1
    ensures AttachmentAccepts(values) <==> "url" in values && |values["url"]| >= 1
    ensures AttachmentAccepts(values) ==> SafeParse(AttachmentSchema, values, isEmail).data == map["url" := values["url"]]
  {
    AcceptsIff(AttachmentSchema, values, isEmail);
    AcceptsIff(AttachmentSchema, values, _ => false);
    assert Keys(AttachmentSchema) == {"url"} by {
      assert AttachmentSchema[0] in AttachmentSchema;
    }
  }

  /** A one-field schema with a length-1 rule accepts exactly a non-empty value. */
  lemma NonEmptyFieldAccepts(key: string, msg: Option<string>, values: Values, isEmail: string -> bool)
    ensures SafeParse([Field(key, MinLength(1, msg))], values, isEmail).Ok? <==> key in values && values[key] != ""
  {
    AcceptsIff([Field(key, MinLength(1, msg))], values, isEmail);
  }

  /** Each `CourseSchema` member accepts exactly a non-empty value of its field. */
  lemma CourseSchemasAccept(values: Values, isEmail: string -> bool)
    ensures SafeParse(CourseTitleSchema, values, isEmail).Ok? <==> "title" in values && values["title"] != ""
    ensures SafeParse(CourseDescriptionSchema, values, isEmail).Ok? <==> "description" in values && values["description"] != ""
    ensures SafeParse(CourseImageSchema, values, isEmail).Ok? <==> "imageUrl" in values && values["imageUrl"] != ""
    ensures SafeParse(CourseCategorySchema, values, isEmail).Ok? <==> "categoryId" in values && values["categoryId"] != ""
  {
    NonEmptyFieldAccepts("title", Some("Title is required"), values, isEmail);
    NonEmptyFieldAccepts("description", Some("Title is required"), values, isEmail);
    NonEmptyFieldAccepts("imageUrl", Some("Title is required"), values, isEmail);
    NonEmptyFieldAccepts("categoryId", None, values, isEmail);
  }

  /** Log-in is accepted exactly for an e-mail-shaped address and a non-empty password. */
  lemma LoginSchemaAccepts(values: Values, isEmail: string -> bool)
    ensures SafeParse(LoginSchema, values, isEmail).Ok? <==>
            && "email" in values && isEmail(values["email"])
            && "password" in values && values["password"] != ""
  {
    AcceptsIff(LoginSchema, values, isEmail);
    assert Satisfies(LoginSchema[0], values, isEmail) <==> "email" in values && isEmail(values["email"]);
  }

  /** Sign-up is accepted exactly for a non-empty username, an e-mail-shaped
      address and a non-empty password. */
  lemma SignUpSchemaAccepts(values: Values, isEmail: string -> bool)
    ensures SafeParse(SignUpSchema, values, isEmail).Ok? <==>
            && "username" in values && values["username"] != ""
            && "email" in values && isEmail(values["email"])
            && "password" in values && values["password"] != ""
  {
    AcceptsIff(SignUpSchema, values, isEmail);
    assert Satisfies(SignUpSchema[1], values, isEmail) <==> "email" in values && isEmail(values["email"]);
  }

  /** An empty course description is refused with the message the source
      gives it, which is the title's. */
  lemma EmptyDescriptionMessage(values: Values, isEmail: string -> bool)
    requires "description" in values && values["description"] == ""
    ensures SafeParse(CourseDescriptionSchema, values, isEmail) == Invalid([Issue("description", Some("Title is required"))])
  {
  }
}
