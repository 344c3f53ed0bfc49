/** The DetailThread entity: a thread with its comments, validated from a
    loosely typed payload. Unlike the comment and reply views, its `date` is a
    string. */
module DetailThreads {
  import opened Wrappers
  import opened JsValues
  import opened Errors

  const MissingProperty := "DETAIL_THREAD.NOT_CONTAIN_NEEDED_PROPERTY"
  const WrongType := "DETAIL_THREAD.NOT_MEET_DATA_TYPE_SPECIFICATION"

  /** The six properties the constructor reads. */
  const Fields: seq<string> := ["threadId", "title", "body", "date", "username", "comments"]

  datatype DetailThread = DetailThread(
    threadId: string,
    title: string,
    body: string,
    date: string,
    username: string,
    comments: seq<JsValue>)

  /** The truthiness test of `_verifyPayload`; an empty `comments` array is
      truthy and so counts as present. */
  predicate LacksProperty(p: Object) {
    exists f | f in Fields :: !Truthy(Get(p, f))
  }

  /** The type test of `_verifyPayload`: five strings and an array. */
  predicate HasWrongType(p: Object) {
    || !Get(p, "threadId").Str?
    || !Get(p, "title").Str?
    || !Get(p, "body").Str?
    || !Get(p, "date").Str?
    || !Get(p, "username").Str?
    || !Get(p, "comments").Arr?
  }

  /** Independent description of the accepted payloads. */
  predicate WellFormed(p: Object) {
    && Get(p, "threadId").Str? && Get(p, "threadId").s != ""
    && Get(p, "title").Str? && Get(p, "title").s != ""
    && Get(p, "body").Str? && Get(p, "body").s != ""
    && Get(p, "date").Str? && Get(p, "date").s != ""
    && Get(p, "username").Str? && Get(p, "username").s != ""
    && Get(p, "comments").Arr?
  }

  /** `new DetailThread(payload)`: the missing-property check, then the type
      check, then a verbatim copy of the six properties. */
  function Construct(p: Object): (r: Result<DetailThread, Error>)
    ensures r.Ok? <==> WellFormed(p)
    ensures r == Err(Thrown(MissingProperty)) <==> LacksProperty(p)
    ensures r == Err(Thrown(WrongType)) <==> !LacksProperty(p) && HasWrongType(p)
    ensures r.Ok? ==>
      && Get(p, "threadId") == Str(r.value.threadId)
      && Get(p, "title") == Str(r.value.title)
      && Get(p, "body") == Str(r.value.body)
      && Get(p, "date") == Str(r.value.date)
      && Get(p, "username") == Str(r.value.username)
      && Get(p, "comments") == Arr(r.value.comments)
  {
    if LacksProperty(p) then
      Err(Thrown(MissingProperty))
    else if HasWrongType(p) then
      Err(Thrown(WrongType))
    else
      Ok(DetailThread(
        Get(p, "threadId").s,
        Get(p, "title").s,
        Get(p, "body").s,
        Get(p, "date").s,
        Get(p, "username").s,
        Get(p, "comments").items))
  }

  /** A Date instance is not accepted as the thread's date, although the
      comment and reply views require exactly that. */
  lemma DateMustBeString(p: Object, t: int)
    requires WellFormed(p)
    ensures Construct(p["date" := DateV(t)]) == Err(Thrown(WrongType))
  {
    var q := p["date" := DateV(t)];
    assert forall f | f in Fields :: Truthy(Get(q, f));
  }
}
