/** The two thread-repository calls the use cases make. The thread repository
    implementation is not part of this model: a thread is available exactly
    when its id is a key of the thread table, and `getThreadById` resolves to
    the object stored under that key. */
module ThreadRepository {
  import opened Wrappers
  import opened JsValues
  import opened Errors

  function VerifyAvailableThread(threads: map<string, Object>, threadId: string): (r: Result<(), Error>)
    ensures r.Ok? <==> threadId in threads
    ensures r.Err? ==> r.error == NotFound(ThreadNotFound)
  {
    if threadId in threads then Ok(()) else Err(NotFound(ThreadNotFound))
  }

  /** The argument is whatever the caller passes; only a string key can name
      a thread. */
  function GetThreadById(threads: map<string, Object>, threadId: JsValue): (r: Result<Object, Error>)
    ensures r.Ok? <==> threadId.Str? && threadId.s in threads
    ensures r.Ok? ==> r.value == threads[threadId.s]
    ensures r.Err? ==> r.error == NotFound(ThreadNotFound)
  {
    if threadId.Str? && threadId.s in threads then Ok(threads[threadId.s]) else Err(NotFound(ThreadNotFound))
  }
}
