/** The chat-completion service, seen as an oracle: one request (model, system
    message, user message) gives either the reply text or the text of the
    exception the client raised. */
module Llm {
  import opened Outcomes

  datatype Request = Request(model: string, system: string, user: string)

  datatype Reply = Answer(content: string) | Fault(message: string)

  /** What a guarded call returns: the reply text, or `errorPrefix` followed by `str(e)`. */
  function Render(reply: Reply, errorPrefix: string): (s: string)
    ensures reply.Answer? ==> s == reply.content
    ensures reply.Fault? ==> |errorPrefix| <= |s| && s[..|errorPrefix|] == errorPrefix && s[|errorPrefix|..] == reply.message
  {
    match reply
    case Answer(c) => c
    case Fault(m) => errorPrefix + m
  }

  /** The text between a fixed `head` and a fixed `tail`, when `s` has that shape. */
  function Embedded(s: string, head: string, tail: string): (r: Option<string>)
    ensures r.Some? ==> s == head + r.value + tail
  {
    if |head| + |tail| <= |s| && s[..|head|] == head && s[|s| - |tail|..] == tail then
      assert s == s[..|head|] + s[|head|..|s| - |tail|] + s[|s| - |tail|..];
      Some(s[|head|..|s| - |tail|])
    else None
  }

  /** A message assembled around a text gives that text back. */
  lemma EmbeddedRoundTrip(head: string, text: string, tail: string)
    ensures Embedded(head + text + tail, head, tail) == Some(text)
  {
    var s := head + text + tail;
    assert s[..|head|] == head && s[|s| - |tail|..] == tail;
    assert s[|head|..|s| - |tail|] == text;
  }
}
