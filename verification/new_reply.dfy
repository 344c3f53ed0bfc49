/** The NewReply entity, as far as its unit test pins it down: four required
    string properties, copied verbatim. NewReply.js itself is not part of this
    model. */
module NewReplies {
  import opened Wrappers
  import opened JsValues
  import opened Errors
  import PayloadChecks

  const MissingProperty := "NEW_REPLY.NOT_CONTAIN_NEEDED_PROPERTY"
  const WrongType := "NEW_REPLY.NOT_MEET_DATA_TYPE_SPECIFICATION"

  datatype NewReply = NewReply(threadId: string, commentId: string, content: string, owner: string)

  /** `new NewReply(payload)`. */
  function Construct(p: Object): (r: Result<NewReply, Error>)
    ensures r.Ok? ==>
      && Get(p, "threadId") == Str(r.value.threadId)
      && Get(p, "commentId") == Str(r.value.commentId)
      && Get(p, "content") == Str(r.value.content)
      && Get(p, "owner") == Str(r.value.owner)
    ensures r.Err? ==> r.error == Thrown(MissingProperty) || r.error == Thrown(WrongType)
    ensures r.Ok? <==> forall k | k in ["threadId", "commentId", "content", "owner"] :: Get(p, k).Str? && Get(p, k).s != ""
    ensures (exists k | k in ["threadId", "commentId", "content", "owner"] :: !Truthy(Get(p, k)))
      ==> r == Err(Thrown(MissingProperty))
    ensures (forall k | k in ["threadId", "commentId", "content", "owner"] :: Truthy(Get(p, k)))
         && (exists k | k in ["threadId", "commentId", "content", "owner"] :: !Get(p, k).Str?)
      ==> r == Err(Thrown(WrongType))
  {
    var keys := ["threadId", "commentId", "content", "owner"];
    assert Get(p, keys[0]) == Get(p, "threadId") && Get(p, keys[1]) == Get(p, "commentId")
      && Get(p, keys[2]) == Get(p, "content") && Get(p, keys[3]) == Get(p, "owner");
    assert forall k | k in keys :: exists i | 0 <= i < 4 :: keys[i] == k;
    match PayloadChecks.RequireStrings(p, keys, MissingProperty, WrongType)
    case Err(e) => Err(e)
    case Ok(v) => Ok(NewReply(v[0], v[1], v[2], v[3]))
  }
}
