/** The DetailReply entity: a reply as shown under its comment, validated
    from a loosely typed payload and redacted when deleted. */
module DetailReplies {
  import opened Wrappers
  import opened JsValues
  import opened Errors

  const MissingProperty := "DETAIL_REPLY.NOT_CONTAIN_NEEDED_PROPERTY"
  const WrongType := "DETAIL_REPLY.NOT_MEET_DATA_TYPE_SPECIFICATION"

  /** What a deleted reply shows instead of its content. */
  const RedactedContent := "**balasan telah dihapus**"

  /** The five properties the constructor reads. */
  const Fields: seq<string> := ["id", "content", "date", "username", "deleted"]

  datatype DetailReply = DetailReply(
    id: string,
    content: string,
    date: int,
    username: string,
    deleted: bool)

  /** The truthiness test of `_verifyPayload`. */
  predicate LacksProperty(p: Object) {
    || !Truthy(Get(p, "id"))
    || !Truthy(Get(p, "content"))
    || !Truthy(Get(p, "date"))
    || !Truthy(Get(p, "username"))
    || Get(p, "deleted") == Undef
  }

  /** The type test of `_verifyPayload`. */
  predicate HasWrongType(p: Object) {
    || !Get(p, "id").Str?
    || !Get(p, "content").Str?
    || !Get(p, "date").DateV?
    || !Get(p, "username").Str?
    || !Get(p, "deleted").Bool?
  }

  /** Independent description of the accepted payloads. */
  predicate WellFormed(p: Object) {
    && Get(p, "id").Str? && Get(p, "id").s != ""
    && Get(p, "content").Str? && Get(p, "content").s != ""
    && Get(p, "date").DateV?
    && Get(p, "username").Str? && Get(p, "username").s != ""
    && Get(p, "deleted").Bool?
  }

  /** `new DetailReply(payload)`. */
  function Construct(p: Object): (r: Result<DetailReply, Error>)
    ensures r.Ok? <==> WellFormed(p)
    ensures r == Err(Thrown(MissingProperty)) <==> LacksProperty(p)
    ensures r == Err(Thrown(WrongType)) <==> !LacksProperty(p) && HasWrongType(p)
    ensures r.Ok? ==>
      && Get(p, "id") == Str(r.value.id)
      && Get(p, "date") == DateV(r.value.date)
      && Get(p, "username") == Str(r.value.username)
      && Get(p, "deleted") == Bool(r.value.deleted)
    ensures r.Ok? ==> (r.value.deleted ==> r.value.content == RedactedContent)
    ensures r.Ok? ==> (!r.value.deleted ==> Get(p, "content") == Str(r.value.content))
  {
    if LacksProperty(p) then
      Err(Thrown(MissingProperty))
    else if HasWrongType(p) then
      Err(Thrown(WrongType))
    else
      var deleted := Get(p, "deleted").b;
      Ok(DetailReply(
        Get(p, "id").s,
        if deleted then RedactedContent else Get(p, "content").s,
        Get(p, "date").time,
        Get(p, "username").s,
        deleted))
  }

  /** Two accepted payloads that differ only in their content construct the
      same deleted reply. */
  lemma RedactionIgnoresContent(p: Object, content: string)
    requires Construct(p).Ok? && Construct(p).value.deleted
    requires content != ""
    ensures Construct(p["content" := Str(content)]) == Construct(p)
  {
  }

  /** Only the five named properties are read. */
  lemma OtherPropertiesIgnored(p: Object, key: string, v: JsValue)
    requires key !in Fields
    ensures Construct(p[key := v]) == Construct(p)
  {
    assert forall f | f in Fields :: Get(p[key := v], f) == Get(p, f);
  }
}
