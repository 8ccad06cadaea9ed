/** The read-only error snapshot handed to the caller (lib/result.js). */
module Results {
  import opened JsValue

  /** What `getErrors` returns: one attribute's list, or the whole map. */
  datatype Errors = List(messages: seq<string>) | All(byAttribute: map<string, seq<string>>)

  /** A `Result` wraps the merged error map; it is an immutable value, so every query on
      the same result gives the same answer. */
  datatype Result = Result(results: map<string, seq<string>>) {

    /** `hasError()`: true exactly when some attribute is a key of the map. */
    function HasError(): (b: bool)
      ensures b <==> exists a :: a in results
    {
      |results| > 0
    }

    /** `getErrors(prop)`: a truthy (non-empty) name gives that attribute's stored list, or
        an empty list when it is not a key; an absent or empty name gives the whole map. */
    function GetErrors(prop: Option<string>): (e: Errors)
      ensures prop.Some? && prop.value != "" && prop.value in results ==> e == List(results[prop.value])
      ensures prop.Some? && prop.value != "" && prop.value !in results ==> e == List([])
      ensures prop.None? || prop.value == "" ==> e == All(results)
    {
      if prop.Some? && prop.value != "" then
        List(if prop.value in results then results[prop.value] else [])
      else
        All(results)
    }
  }
}
