/**
 * Request payloads as the serializers see them: a dictionary from field
 * name to submitted text, read with Python's `dict.get`, and the errors a
 * serializer raises.
 */
module RequestData {
  import opened Wrappers

  type Data = map<string, string>

  /** A validator's error: a validation error carrying its list of
      messages, or a lookup of a key the dictionary does not hold. */
  datatype Error = ValidationError(messages: seq<string>) | KeyError(key: string)

  /** A validation error raised with a single message. */
  function Invalid(message: string): Error
  {
    ValidationError([message])
  }

  /** `d.get(k)`: the value under `k`, or `None`. */
  function Get(d: Data, k: string): Option<string>
  {
    if k in d then Some(d[k]) else None
  }

  /** `d.get(k, default)`. */
  function GetOr(d: Data, k: string, default: string): string
  {
    if k in d then d[k] else default
  }

  /** Python truthiness of an optional string: present and non-empty. */
  predicate Truthy(o: Option<string>)
  {
    o.Some? && o.value != ""
  }
}
