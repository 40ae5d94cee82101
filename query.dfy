/** The `Query` model: a user question with its field validators. Instants are integers in
    microseconds and the current time `now` is passed in. */
module QueryModel {
  import opened Wrappers
  import PyText

  /** The longest accepted query, in characters. */
  const MaxQueryLength: nat := 1000

  datatype Query = Query(id: string, content: string, timestamp: int, userId: Option<string>)

  /** `validate_content`: blank content is refused first, then content longer than 1000
      characters; accepted content is returned unchanged. Exactly 1000 characters are
      accepted, although the message speaks of "less than 1000". */
  function ValidateContent(v: string): (r: Result<string>)
    ensures r.Ok? <==> !PyText.IsBlank(v) && |v| <= MaxQueryLength
    ensures r.Ok? ==> r.value == v
    ensures PyText.IsBlank(v) ==> r == Err("Content must not be empty")
    ensures !PyText.IsBlank(v) && |v| > MaxQueryLength ==> r == Err("Content must be less than 1000 characters")
  {
    if v == [] || PyText.IsBlank(v) then Err("Content must not be empty")
    else if |v| > MaxQueryLength then Err("Content must be less than 1000 characters")
    else Ok(v)
  }

  /** `validate_timestamp`: an instant after `now` is refused; any other is returned
      unchanged. */
  function ValidateTimestamp(v: int, now: int): (r: Result<int>)
    ensures r.Ok? <==> v <= now
    ensures r.Ok? ==> r.value == v
    ensures r.Err? ==> r.error == "Timestamp must be current or past"
  {
    if v > now then Err("Timestamp must be current or past") else Ok(v)
  }

  /** Constructing a `Query`: the content is validated, and so is a timestamp the caller
      gives; a missing timestamp defaults to `now` and is not validated. */
  function NewQuery(id: string, content: string, timestamp: Option<int>, userId: Option<string>, now: int)
    : (r: Result<Query>)
    ensures r.Ok? <==> ValidateContent(content).Ok? && (timestamp.Some? ==> ValidateTimestamp(timestamp.value, now).Ok?)
    ensures r.Ok? ==> r.value == Query(id, content, timestamp.GetOr(now), userId)
  {
    match ValidateContent(content)
    case Err(e) => Err(e)
    case Ok(c) =>
      match timestamp
      case None => Ok(Query(id, c, now, userId))
      case Some(t) =>
        match ValidateTimestamp(t, now)
        case Err(e) => Err(e)
        case Ok(ts) => Ok(Query(id, c, ts, userId))
  }
}
