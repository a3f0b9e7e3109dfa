/**
 * The diagnosis-suggestion service wrapper: how the decoded reply of the
 * chat-completion endpoint becomes an optional string, and how the
 * diagnosis editor turns that into the text of its name field.
 */
module Suggestion {
  import opened Records

  /** The decoded shape of a reply: `{choices: [{message: {content}}]?, error: {message}?}`. */
  datatype Message = Message(content: string)
  datatype Choice = Choice(message: Message)
  datatype ApiError = ApiError(message: string)
  datatype Reply = Reply(choices: Option<seq<Choice>>, error: Option<ApiError>)

  /** How the request ended: the body could not be encoded, the request
      failed or brought no data, the data did not decode, or it decoded. */
  datatype Outcome = EncodingFailed | RequestFailed | DecodingFailed | Decoded(reply: Reply)

  /** The text the editor shows when no suggestion came back, spelled as the app spells it. */
  const Placeholder := "Unkown"

  /** The prefix put before an error message the service reports. */
  const ErrorPrefix := "Error: "

  /** The first choice's content, if there is a first choice. */
  function FirstContent(choices: Option<seq<Choice>>): (r: Option<string>)
    ensures r.Some? <==> choices.Some? && |choices.value| > 0
    ensures r.Some? ==> r.value == choices.value[0].message.content
  {
    match choices
    case Some(cs) => if cs == [] then None else Some(cs[0].message.content)
    case None => None
  }

  /** What `fetchDiagnosis(for:completion:)` hands to its completion. */
  function Suggest(outcome: Outcome): (r: Option<string>)
    ensures outcome.Decoded? && outcome.reply.error.Some? ==>
      r == Some(ErrorPrefix + outcome.reply.error.value.message)
    ensures outcome.Decoded? && outcome.reply.error.None? ==>
      r == FirstContent(outcome.reply.choices)
    ensures !outcome.Decoded? ==> r == None
  {
    match outcome
    case Decoded(reply) =>
      if reply.error.Some? then Some(ErrorPrefix + reply.error.value.message)
      else FirstContent(reply.choices)
    case _ => None
  }

  /** `result ?? "Unkown"`: the editor's name field after a suggestion. */
  function NameField(result: Option<string>): (name: string)
    ensures result.Some? ==> name == result.value
    ensures result.None? ==> name == Placeholder
  {
    result.GetOr(Placeholder)
  }

  /** A suggestion is absent exactly when the request failed, the reply did
      not decode, or it decoded with neither an error nor a first choice. */
  lemma SuggestAbsent(outcome: Outcome)
    ensures Suggest(outcome).None? <==>
      || !outcome.Decoded?
      || (outcome.reply.error.None? &&
          (outcome.reply.choices.None? || outcome.reply.choices.value == []))
  {
  }

  /** A reported error wins over any choices the reply also carries, and the
      result then always starts with the error prefix. */
  lemma ErrorWins(choices: Option<seq<Choice>>, message: string)
    ensures var r := Suggest(Decoded(Reply(choices, Some(ApiError(message)))));
      && r.Some?
      && |r.value| >= |ErrorPrefix|
      && r.value[..|ErrorPrefix|] == ErrorPrefix
      && r.value[|ErrorPrefix|..] == message
  {
  }

  /** Without an error the first choice's content is passed on verbatim,
      surrounding blanks included: nothing is trimmed or checked. */
  lemma ContentVerbatim(first: Choice, rest: seq<Choice>)
    ensures Suggest(Decoded(Reply(Some([first] + rest), None))) == Some(first.message.content)
  {
  }

  /** The name field is empty only when the service returned empty content;
      a missing suggestion shows the placeholder, never an empty field. */
  lemma NameFieldEmpty(outcome: Outcome)
    ensures NameField(Suggest(outcome)) == "" <==>
      && outcome.Decoded?
      && outcome.reply.error.None?
      && FirstContent(outcome.reply.choices) == Some("")
  {
  }

  /** The placeholder shown for a missing suggestion can also be what the
      service itself answered: the field alone does not tell them apart. */
  lemma PlaceholderAmbiguous()
    ensures NameField(Suggest(RequestFailed)) ==
            NameField(Suggest(Decoded(Reply(Some([Choice(Message(Placeholder))]), None))))
  {
  }

  /** A well-formed answer comes back as the content itself. */
  lemma SuggestExample()
    ensures var content := "E11.9 Type 2 diabetes mellitus";
      Suggest(Decoded(Reply(Some([Choice(Message(content))]), None))) == Some(content)
  {
  }
}
