/** `translate_text`: one POST to the translation service, whose reply is
    an input here, and the fallback to the original text on every kind of
    failure. */
module Translation {

  /** What `res.json()` makes of the body of a response. */
  datatype Body =
    | NotJson                                  // `res.json()` raises
    | JsonNonObject                            // valid JSON without a `get` method
    | JsonObject(fields: map<string, string>)

  /** The outcome of the single request: an exception (timeout, network
      error, ...) or a response with a status code and a body. */
  datatype Reply = Raised | Response(status: int, body: Body)

  const TranslatedKey: string := "translatedText"

  /** The service answered 200 with an object holding a translation. */
  predicate Delivered(reply: Reply) {
    reply.Response? && reply.status == 200 && reply.body.JsonObject? &&
    TranslatedKey in reply.body.fields
  }

  /** The text shown for a region: the service's translation when it
      delivered one, the original text in every other case. */
  function TranslateText(text: string, reply: Reply): (r: string)
    ensures Delivered(reply) ==> r == reply.body.fields[TranslatedKey]
    ensures !Delivered(reply) ==> r == text
  {
    match reply
    case Raised => text
    case Response(status, body) =>
      if status != 200 then text
      else
        match body
        case NotJson => text
        case JsonNonObject => text
        case JsonObject(fields) => if TranslatedKey in fields then fields[TranslatedKey] else text
  }
}
