/** The request model of the chat endpoint and its field validators, and the formatting of
    the source references returned with an answer (`backend/app.py`). */
module App {
  import opened Wrappers
  import opened Records
  import opened ResponseModel
  import PyText
  import Citation

  /** The longest accepted message, in characters, measured before sanitising. */
  const MaxMessageLength: nat := 2000

  /** The longest accepted session or user id, in characters. */
  const MaxIdLength: nat := 100

  /** The smallest and largest accepted `top_k`. */
  const MinTopK: int := 1
  const MaxTopK: int := 20

  const ScriptTag: string := "<script"
  const EscapedScriptTag: string := "&lt;script"
  const JavascriptScheme: string := "javascript:"
  const DefusedScheme: string := "javascript-"

  // ---------------------------------------------------------------- message

  /** `v.replace('<script', '&lt;script').replace('javascript:', 'javascript-')`; the
      matching is case-sensitive. */
  function Sanitize(v: string): string {
    PyText.Replace(PyText.Replace(v, ScriptTag, EscapedScriptTag), JavascriptScheme, DefusedScheme)
  }

  /** `validate_message`: a blank message is refused, then one longer than 2000 characters;
      an accepted message comes back sanitised. */
  function ValidateMessage(v: string): (r: Result<string>)
    ensures r.Ok? <==> !PyText.IsBlank(v) && |v| <= MaxMessageLength
    ensures PyText.IsBlank(v) ==> r == Err("Message cannot be empty")
    ensures !PyText.IsBlank(v) && |v| > MaxMessageLength ==> r == Err("Message too long, maximum 2000 characters")
    ensures r.Ok? ==> r.value == Sanitize(v)
  {
    if v == [] || PyText.IsBlank(v) then Err("Message cannot be empty")
    else if |v| > MaxMessageLength then Err("Message too long, maximum 2000 characters")
    else Ok(Sanitize(v))
  }

  /** A sanitised message contains neither `<script` nor `javascript:`, and a message that
      contained neither is left unchanged. */
  lemma SanitizeMeaning(v: string)
    ensures !PyText.Contains(Sanitize(v), ScriptTag)
    ensures !PyText.Contains(Sanitize(v), JavascriptScheme)
    ensures !PyText.Contains(v, ScriptTag) && !PyText.Contains(v, JavascriptScheme) ==> Sanitize(v) == v
  {
    var once := PyText.Replace(v, ScriptTag, EscapedScriptTag);
    EscapeCannotCreateTag();
    PyText.ReplaceLeavesNo(v, ScriptTag, EscapedScriptTag, ScriptTag);
    DefuseCannotCreateTag();
    DefuseCannotCreateScheme();
    PyText.ReplaceLeavesNo(once, JavascriptScheme, DefusedScheme, ScriptTag);
    PyText.ReplaceLeavesNo(once, JavascriptScheme, DefusedScheme, JavascriptScheme);
    if !PyText.Contains(v, ScriptTag) && !PyText.Contains(v, JavascriptScheme) {
      PyText.ReplaceIdentity(v, ScriptTag, EscapedScriptTag);
      PyText.ReplaceIdentity(v, JavascriptScheme, DefusedScheme);
    }
  }

  /** `&lt;script` cannot make a `<script` appear. */
  lemma EscapeCannotCreateTag()
    ensures PyText.CannotCreate(ScriptTag, EscapedScriptTag)
  {
    PyText.CannotCreateByFirstChar(ScriptTag, EscapedScriptTag);
  }

  /** `javascript-` cannot make a `<script` appear. */
  lemma DefuseCannotCreateTag()
    ensures PyText.CannotCreate(ScriptTag, DefusedScheme)
  {
    PyText.CannotCreateByFirstChar(ScriptTag, DefusedScheme);
  }

  /** `javascript-` cannot make a `javascript:` appear. */
  lemma DefuseCannotCreateScheme()
    ensures PyText.CannotCreate(JavascriptScheme, DefusedScheme)
  {
    assert forall i :: 0 <= i < |DefusedScheme| ==> DefusedScheme[i] != ':';
    assert forall i :: 0 <= i < |JavascriptScheme| ==> JavascriptScheme[i] != '-';
    assert forall k :: 1 <= k < |JavascriptScheme| ==> JavascriptScheme[k] != 'j';
    PyText.CannotCreateByLastChar(JavascriptScheme, DefusedScheme);
  }

  /** The length limit is checked before sanitising, which lengthens every `<script` by
      three characters: 285 copies of `<script` (1995 characters) are accepted and come back
      2850 characters long. */
  lemma SanitizedMayExceedLimit()
    ensures var v := PyText.Repeat(ScriptTag, 285);
      ValidateMessage(v).Ok? && |ValidateMessage(v).value| == 2850 > MaxMessageLength
  {
    var v := PyText.Repeat(ScriptTag, 285);
    assert v[0] == '<';
    PyText.BlankIffAllSpace(v);
    PyText.ReplaceRepeat(ScriptTag, EscapedScriptTag, 285);
    PyText.ReplaceSameLength(PyText.Repeat(EscapedScriptTag, 285), JavascriptScheme, DefusedScheme);
  }

  // ---------------------------------------------------------------- ids and top_k

  /** A character of the class `[a-zA-Z0-9_-]`. */
  predicate IdChar(c: char) {
    ('a' <= c <= 'z') || ('A' <= c <= 'Z') || ('0' <= c <= '9') || c == '_' || c == '-'
  }

  predicate AllIdChars(s: string) {
    forall i :: 0 <= i < |s| ==> IdChar(s[i])
  }

  /** `re.match(r'^[a-zA-Z0-9_-]+$', v)`: one or more id characters followed by the end of
      the string or, since Python's `$` also matches there, by a final newline. */
  predicate MatchesIdPattern(v: string) {
    || (|v| > 0 && AllIdChars(v))
    || (|v| > 1 && v[|v| - 1] == '\n' && AllIdChars(v[..|v| - 1]))
  }

  /** `validate_id` as written: `None` passes; otherwise the id must match the pattern and
      then be at most 100 characters long, and it is returned unchanged. */
  function ValidateIdAsWritten(v: Option<string>): (r: Result<Option<string>>)
    ensures r.Ok? <==> v.None? || (MatchesIdPattern(v.value) && |v.value| <= MaxIdLength)
    ensures r.Ok? ==> r.value == v
  {
    match v
    case None => Ok(None)
    case Some(s) =>
      if !MatchesIdPattern(s) then Err("Invalid ID format")
      else if |s| > MaxIdLength then Err("ID too long, maximum 100 characters")
      else Ok(v)
  }

  /** The pattern lets an id with a final newline through. */
  lemma AsWrittenAcceptsNewline()
    ensures ValidateIdAsWritten(Some("session-1\n")) == Ok(Some("session-1\n"))
  {
    assert "session-1\n"[..9] == "session-1";
  }

  /** `validate_id` as intended: the whole id is one or more characters of `[a-zA-Z0-9_-]`
      (as `re.fullmatch` would test), at most 100 of them. */
  function ValidateId(v: Option<string>): (r: Result<Option<string>>)
    ensures r.Ok? <==> v.None? || (0 < |v.value| <= MaxIdLength && AllIdChars(v.value))
    ensures r.Ok? ==> r.value == v
    ensures v.Some? && !(|v.value| > 0 && AllIdChars(v.value)) ==> r == Err("Invalid ID format")
  {
    match v
    case None => Ok(None)
    case Some(s) =>
      if !(|s| > 0 && AllIdChars(s)) then Err("Invalid ID format")
      else if |s| > MaxIdLength then Err("ID too long, maximum 100 characters")
      else Ok(v)
  }

  /** The two checks disagree exactly on ids made of id characters and a final newline. */
  lemma ValidateIdDifference(v: Option<string>)
    ensures ValidateId(v).Ok? ==> ValidateIdAsWritten(v).Ok?
    ensures ValidateIdAsWritten(v).Ok? && ValidateId(v).Err? ==>
      v.value[|v.value| - 1] == '\n' && AllIdChars(v.value[..|v.value| - 1])
  {
  }

  /** `validate_top_k`: exactly the values from 1 to 20 are accepted. */
  function ValidateTopK(v: int): (r: Result<int>)
    ensures r.Ok? <==> MinTopK <= v <= MaxTopK
    ensures r.Ok? ==> r.value == v
  {
    if v < MinTopK || v > MaxTopK then Err("top_k must be between 1 and 20") else Ok(v)
  }

  // ---------------------------------------------------------------- the request

  datatype ChatRequest = ChatRequest(
    message: string,
    sessionId: Option<string>,
    userId: Option<string>,
    topK: int)

  /** Constructing a `ChatRequest` runs the validator of every field: the request exists
      exactly when all accept, and then holds their outputs. */
  function NewChatRequest(message: string, sessionId: Option<string>, userId: Option<string>, topK: int)
    : (r: Result<ChatRequest>)
    ensures r.Ok? <==> && ValidateMessage(message).Ok? && ValidateId(sessionId).Ok?
                       && ValidateId(userId).Ok? && ValidateTopK(topK).Ok?
    ensures r.Ok? ==> && r.value.message == Sanitize(message)
                      && r.value.sessionId == sessionId && r.value.userId == userId
                      && r.value.topK == topK
  {
    match ValidateMessage(message)
    case Err(e) => Err(e)
    case Ok(m) =>
      match ValidateId(sessionId)
      case Err(e) => Err(e)
      case Ok(s) =>
        match ValidateId(userId)
        case Err(e) => Err(e)
        case Ok(u) =>
          match ValidateTopK(topK)
          case Err(e) => Err(e)
          case Ok(k) => Ok(ChatRequest(m, s, u, k))
  }

  /** Every accepted request carries a message free of `<script` and `javascript:`, ids of
      at most 100 id characters, and a `top_k` from 1 to 20. */
  lemma AcceptedRequestIsSafe(message: string, sessionId: Option<string>, userId: Option<string>, topK: int)
    requires NewChatRequest(message, sessionId, userId, topK).Ok?
    ensures var q := NewChatRequest(message, sessionId, userId, topK).value;
      && !PyText.IsBlank(message)
      && !PyText.Contains(q.message, ScriptTag) && !PyText.Contains(q.message, JavascriptScheme)
      && (q.sessionId.Some? ==> |q.sessionId.value| <= MaxIdLength && AllIdChars(q.sessionId.value))
      && (q.userId.Some? ==> |q.userId.value| <= MaxIdLength && AllIdChars(q.userId.value))
      && MinTopK <= q.topK <= MaxTopK
  {
    SanitizeMeaning(message);
  }

  /** The request as the code builds it, with `validate_id` as written: the same fields
      and checks, but an id may end in one newline. */
  function NewChatRequestAsWritten(message: string, sessionId: Option<string>, userId: Option<string>, topK: int)
    : (r: Result<ChatRequest>)
    ensures r.Ok? <==> && ValidateMessage(message).Ok? && ValidateIdAsWritten(sessionId).Ok?
                       && ValidateIdAsWritten(userId).Ok? && ValidateTopK(topK).Ok?
    ensures r.Ok? ==> && r.value.message == Sanitize(message)
                      && r.value.sessionId == sessionId && r.value.userId == userId
                      && r.value.topK == topK
  {
    match ValidateMessage(message)
    case Err(e) => Err(e)
    case Ok(m) =>
      match ValidateIdAsWritten(sessionId)
      case Err(e) => Err(e)
      case Ok(s) =>
        match ValidateIdAsWritten(userId)
        case Err(e) => Err(e)
        case Ok(u) =>
          match ValidateTopK(topK)
          case Err(e) => Err(e)
          case Ok(k) => Ok(ChatRequest(m, s, u, k))
  }

  /** A request the code accepts has ids of at most 100 characters, each an id character
      save possibly one final newline. */
  lemma AcceptedAsWrittenIds(message: string, sessionId: Option<string>, userId: Option<string>, topK: int)
    requires NewChatRequestAsWritten(message, sessionId, userId, topK).Ok?
    ensures var q := NewChatRequestAsWritten(message, sessionId, userId, topK).value;
      && (q.sessionId.Some? ==> |q.sessionId.value| <= MaxIdLength && MatchesIdPattern(q.sessionId.value))
      && (q.userId.Some? ==> |q.userId.value| <= MaxIdLength && MatchesIdPattern(q.userId.value))
      && !PyText.Contains(q.message, ScriptTag) && !PyText.Contains(q.message, JavascriptScheme)
  {
    SanitizeMeaning(message);
  }

  /** The corrected request accepts a subset of what the code accepts, with the same result;
      the code accepts more only through an id that ends in a newline. */
  lemma RequestsDiffer(message: string, sessionId: Option<string>, userId: Option<string>, topK: int)
    ensures NewChatRequest(message, sessionId, userId, topK).Ok? ==>
      NewChatRequestAsWritten(message, sessionId, userId, topK) == NewChatRequest(message, sessionId, userId, topK)
    ensures NewChatRequestAsWritten(message, sessionId, userId, topK).Ok? && NewChatRequest(message, sessionId, userId, topK).Err? ==>
      || (sessionId.Some? && sessionId.value[|sessionId.value| - 1] == '\n')
      || (userId.Some? && userId.value[|userId.value| - 1] == '\n')
  {
    ValidateIdDifference(sessionId);
    ValidateIdDifference(userId);
  }

  /** With a valid message and `top_k`, the code accepts the session id of the newline
      example and the corrected check refuses it. */
  lemma AsWrittenRequestAcceptsNewline(message: string, topK: int)
    requires ValidateMessage(message).Ok? && ValidateTopK(topK).Ok?
    ensures NewChatRequestAsWritten(message, Some("session-1\n"), None, topK).Ok?
    ensures NewChatRequest(message, Some("session-1\n"), None, topK) == Err("Invalid ID format")
  {
    AsWrittenAcceptsNewline();
    assert !IdChar("session-1\n"[9]);
  }

  // ---------------------------------------------------------------- source formatting

  /** A source reference as the chat response carries it; the score is not range-checked. */
  datatype SourceReferenceResponse = SourceReferenceResponse(
    documentId: string,
    relativePath: string,
    score: real,
    contentPreview: string)

  /** `formatted` copies `sources` field for field, in order. */
  predicate Copies(formatted: seq<SourceReferenceResponse>, sources: seq<SourceReference>) {
    && |formatted| == |sources|
    && forall k :: 0 <= k < |sources| ==>
         && formatted[k].documentId == sources[k].documentId
         && formatted[k].relativePath == sources[k].relativePath
         && formatted[k].score == sources[k].score
         && formatted[k].contentPreview == sources[k].contentPreview
  }

  /** The copying loop of `_format_sources`. */
  method CopySources(sources: seq<SourceReference>) returns (formatted: seq<SourceReferenceResponse>)
    ensures Copies(formatted, sources)
  {
    formatted := [];
    var k := 0;
    while k < |sources|
      invariant 0 <= k <= |sources|
      invariant Copies(formatted, sources[..k])
    {
      var source := sources[k];
      var sourceRef := SourceReferenceResponse(source.documentId, source.relativePath, source.score, source.contentPreview);
      formatted := formatted + [sourceRef];
      k := k + 1;
    }
    assert sources[..k] == sources;
  }

  /** `_format_sources`: references the agent supplied are copied; without any, references
      are built from the context documents (see `Citation.CreateSourceReferences`), which
      raises when one cannot be built, and copied. */
  method FormatSources(resultSources: seq<SourceReference>, contextUsed: seq<Doc>)
    returns (r: Result<seq<SourceReferenceResponse>>)
    ensures resultSources != [] ==> r.Ok? && Copies(r.value, resultSources)
    ensures resultSources == [] ==>
      (r.Err? <==> exists k :: 0 <= k < |contextUsed| && Citation.ReferenceOf(contextUsed[k]).Err?)
    ensures resultSources == [] && r.Ok? ==>
      && |r.value| == |contextUsed|
      && forall k :: 0 <= k < |contextUsed| ==>
           && Citation.ReferenceOf(contextUsed[k]).Ok?
           && Copies([r.value[k]], [Citation.ReferenceOf(contextUsed[k]).value])
  {
    if resultSources != [] {
      var formatted := CopySources(resultSources);
      return Ok(formatted);
    }
    var sources := Citation.CreateSourceReferences(contextUsed);
    if sources.Err? {
      return Err(sources.error);
    }
    var formatted := CopySources(sources.value);
    forall k | 0 <= k < |contextUsed|
      ensures Copies([formatted[k]], [Citation.ReferenceOf(contextUsed[k]).value])
    {
      assert Citation.ReferenceOf(contextUsed[k]) == Ok(sources.value[k]);
    }
    return Ok(formatted);
  }
}
