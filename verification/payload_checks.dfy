/** The two-step payload validation shared by NewReply and the use cases:
    every listed property must be truthy, then every one must be a string. */
module PayloadChecks {
  import opened Wrappers
  import opened JsValues
  import opened Errors

  /** Checks `keys` of `p` in the source's order of tests: a falsy property
      throws `missing`; otherwise a non-string one throws `wrongType`;
      otherwise the strings are returned in the order of `keys`. */
  function RequireStrings(p: Object, keys: seq<string>, missing: string, wrongType: string): (r: Result<seq<string>, Error>)
    ensures r.Ok? <==> forall i | 0 <= i < |keys| :: Get(p, keys[i]).Str? && Get(p, keys[i]).s != ""
    ensures r.Ok? ==> |r.value| == |keys| && forall i | 0 <= i < |keys| :: Get(p, keys[i]) == Str(r.value[i])
    ensures (exists i | 0 <= i < |keys| :: !Truthy(Get(p, keys[i]))) ==> r == Err(Thrown(missing))
    ensures r.Err? ==> r.error == Thrown(missing) || r.error == Thrown(wrongType)
    ensures r == Err(Thrown(wrongType)) && missing != wrongType ==>
      exists i | 0 <= i < |keys| :: !Get(p, keys[i]).Str?
    ensures (forall i | 0 <= i < |keys| :: Truthy(Get(p, keys[i])))
         && (exists i | 0 <= i < |keys| :: !Get(p, keys[i]).Str?)
        ==> r == Err(Thrown(wrongType))
  {
    if exists i | 0 <= i < |keys| :: !Truthy(Get(p, keys[i])) then
      Err(Thrown(missing))
    else if exists i | 0 <= i < |keys| :: !Get(p, keys[i]).Str? then
      Err(Thrown(wrongType))
    else
      Ok(seq(|keys|, i requires 0 <= i < |keys| => Get(p, keys[i]).s))
  }
}
