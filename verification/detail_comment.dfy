/** The DetailComment entity: a comment as shown inside a thread, validated
    from a loosely typed payload and redacted when deleted. */
module DetailComments {
  import opened Wrappers
  import opened JsValues
  import opened Errors

  const MissingProperty := "DETAIL_COMMENT.NOT_CONTAIN_NEEDED_PROPERTY"
  const WrongType := "DETAIL_COMMENT.NOT_MEET_DATA_TYPE_SPECIFICATION"

  /** What a deleted comment shows instead of its content. */
  const RedactedContent := "**komentar telah dihapus**"

  /** The six properties the constructor reads; any other payload property
      (`likeCount` included) is ignored. */
  const Fields: seq<string> := ["id", "username", "date", "replies", "content", "deleted"]

  /** A constructed DetailComment. `date` is the timestamp of the Date
      instance it was given. */
  datatype DetailComment = DetailComment(
    id: string,
    username: string,
    date: int,
    replies: seq<JsValue>,
    content: string,
    deleted: bool)

  /** The truthiness test of `_verifyPayload`: a falsy id, username, date,
      replies or content, or an undefined `deleted`. */
  predicate LacksProperty(p: Object) {
    || !Truthy(Get(p, "id"))
    || !Truthy(Get(p, "username"))
    || !Truthy(Get(p, "date"))
    || !Truthy(Get(p, "replies"))
    || !Truthy(Get(p, "content"))
    || Get(p, "deleted") == Undef
  }

  /** The type test of `_verifyPayload`. */
  predicate HasWrongType(p: Object) {
    || !Get(p, "id").Str?
    || !Get(p, "username").Str?
    || !Get(p, "date").DateV?
    || !Get(p, "replies").Arr?
    || !Get(p, "content").Str?
    || !Get(p, "deleted").Bool?
  }

  /** Independent description of the payloads the constructor accepts:
      non-empty strings, a Date, an array and a boolean. */
  predicate WellFormed(p: Object) {
    && Get(p, "id").Str? && Get(p, "id").s != ""
    && Get(p, "username").Str? && Get(p, "username").s != ""
    && Get(p, "date").DateV?
    && Get(p, "replies").Arr?
    && Get(p, "content").Str? && Get(p, "content").s != ""
    && Get(p, "deleted").Bool?
  }

  /** `new DetailComment(payload)`: the missing-property check, then the type
      check, then the copy with the content redacted when `deleted` is true. */
  function Construct(p: Object): (r: Result<DetailComment, Error>)
    ensures r.Ok? <==> WellFormed(p)
    ensures r == Err(Thrown(MissingProperty)) <==> LacksProperty(p)
    ensures r == Err(Thrown(WrongType)) <==> !LacksProperty(p) && HasWrongType(p)
    ensures r.Ok? ==>
      && Get(p, "id") == Str(r.value.id)
      && Get(p, "username") == Str(r.value.username)
      && Get(p, "date") == DateV(r.value.date)
      && Get(p, "replies") == Arr(r.value.replies)
      && Get(p, "deleted") == Bool(r.value.deleted)
    ensures r.Ok? ==> (r.value.deleted ==> r.value.content == RedactedContent)
    ensures r.Ok? ==> (!r.value.deleted ==> Get(p, "content") == Str(r.value.content))
  {
    if LacksProperty(p) then
      Err(Thrown(MissingProperty))
    else if HasWrongType(p) then
      Err(Thrown(WrongType))
    else
      var deleted := Get(p, "deleted").b;
      Ok(DetailComment(
        Get(p, "id").s,
        Get(p, "username").s,
        Get(p, "date").time,
        Get(p, "replies").items,
        if deleted then RedactedContent else Get(p, "content").s,
        deleted))
  }

  /** Redaction forgets the content: two accepted payloads that differ only
      in their content construct the same deleted comment. */
  lemma RedactionIgnoresContent(p: Object, content: string)
    requires Construct(p).Ok? && Construct(p).value.deleted
    requires content != ""
    ensures Construct(p["content" := Str(content)]) == Construct(p)
  {
  }

  /** Only the six named properties are read: adding or changing any other
      property, `likeCount` included, changes nothing. */
  lemma OtherPropertiesIgnored(p: Object, key: string, v: JsValue)
    requires key !in Fields
    ensures Construct(p[key := v]) == Construct(p)
  {
    assert forall f | f in Fields :: Get(p[key := v], f) == Get(p, f);
  }
}
