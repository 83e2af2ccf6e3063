/**
 * What the handlers do with a chat-completion call: the call either fails
 * (throws) or yields the content of its first choice, which may be missing.
 */
module Replies {
  import opened Wrappers
  import opened FenceText

  /** The outcome of one completion call. */
  datatype Completion = Reply(content: Option<string>) | CallFailed

  /** `completion.choices[0]?.message?.content || ""`. */
  function ReplyText(c: Completion): string
    requires c.Reply?
  {
    if c.content.Some? then c.content.value else ""
  }

  /**
   * Call, clean, `JSON.parse`: `parse` stands for `JSON.parse` followed by
   * reading the expected fields, and is `None` where either throws.
   */
  function DecodeReply<T>(c: Completion, parse: string -> Option<T>): Option<T> {
    match c
    case CallFailed => None
    case Reply(_) => parse(CleanText(ReplyText(c)))
  }

  /**
   * A payload the model wraps in a json code fence decodes exactly as the
   * bare payload does.
   */
  lemma DecodeFencedReply<T>(body: string, parse: string -> Option<T>)
    ensures DecodeReply(Reply(Some("```json\n" + body + "```")), parse)
         == DecodeReply(Reply(Some(body)), parse)
  {
    StripJsonFence(body);
  }
}
