/**
 * `generate_response`: ask the chat-completion service for a reply to a post
 * and cap what comes back at 1000 bytes. The request itself (model name,
 * prompt, temperature, token budget) does not influence anything modelled
 * here; the service's answer is an input.
 */
module Generation {
  import opened Prelude
  import opened Faults
  import opened Utf8

  /** The cap on a reply, counted in bytes of UTF-8 (`String::len`). */
  const MaxReplyBytes: nat := 1000

  /**
   * What the chat-completion call yields: nothing usable (no API key, the
   * request failed, or the answer is not a ChatResponse), or the contents of
   * the answer's `choices`, in order.
   */
  datatype Completion = Unavailable | Choices(contents: seq<seq<byte>>)

  /**
   * The cap: content of at most 1000 bytes is kept whole; longer content is
   * cut to its first 1000 bytes, which panics when byte 1000 continues a
   * character, as slicing a Rust `String` off a character boundary does.
   */
  function Truncate(content: seq<byte>): (r: Result<seq<byte>, Fault>)
    ensures r.Ok? ==> |r.value| <= MaxReplyBytes && r.value <= content
    ensures |content| <= MaxReplyBytes ==> r == Ok(content)
    ensures |content| > MaxReplyBytes && r.Ok? ==> |r.value| == MaxReplyBytes
    ensures r.Err? <==> |content| > MaxReplyBytes && IsContinuation(content[MaxReplyBytes])
    ensures r.Err? ==> r.error == Panic(SplitCharacter)
  {
    if |content| > MaxReplyBytes then
      if IsCharBoundary(content, MaxReplyBytes) then Ok(content[..MaxReplyBytes])
      else Err(Panic(SplitCharacter))
    else
      Ok(content)
  }

  /**
   * The reply for a post: the first choice's content, capped. A failed call
   * is an error for the tick; an answer with no choices panics on `choices[0]`.
   */
  function GenerateResponse(c: Completion): (r: Result<seq<byte>, Fault>)
    ensures c.Unavailable? ==> r == Err(Error(GenerationUnavailable))
    ensures c.Choices? && c.contents == [] ==> r == Err(Panic(NoChoices))
    ensures c.Choices? && c.contents != [] ==> r == Truncate(c.contents[0])
    ensures r.Ok? ==> |r.value| <= MaxReplyBytes && c.Choices? && r.value <= c.contents[0]
  {
    match c
    case Unavailable => Err(Error(GenerationUnavailable))
    case Choices(contents) =>
      if |contents| == 0 then Err(Panic(NoChoices)) else Truncate(contents[0])
  }

  /** A reply cut from well-formed text is itself well-formed text. */
  lemma TruncateKeepsWellFormed(content: seq<byte>)
    requires WellFormed(content) && Truncate(content).Ok?
    ensures WellFormed(Truncate(content).value)
  {
    if |content| > MaxReplyBytes {
      PrefixAtBoundary(content, MaxReplyBytes);
    }
  }

  /** Capping a reply a second time changes nothing. */
  lemma TruncateIdempotent(content: seq<byte>)
    requires Truncate(content).Ok?
    ensures Truncate(Truncate(content).value) == Truncate(content)
  {
  }

  /** Plain ASCII never panics, whatever its length. */
  lemma AsciiNeverPanics(content: seq<byte>)
    requires IsAscii(content)
    ensures Truncate(content).Ok?
  {
  }

  /**
   * The cap counts bytes, not characters: 999 ASCII letters followed by "é"
   * (two bytes) is well-formed text of 1001 bytes whose byte 1000 is the
   * second byte of "é", so capping it panics.
   */
  lemma WellFormedReplyCanPanic()
    ensures var s := seq(999, _ => 0x61 as byte) + [0xC3, 0xA9];
      WellFormed(s) && Truncate(s) == Err(Panic(SplitCharacter))
  {
    var letters := seq(999, _ => 0x61 as byte);
    var e: seq<byte> := [0xC3, 0xA9];
    AsciiIsWellFormed(letters);
    assert e[2..] == [];
    assert WellFormed(e);
    ConcatWellFormed(letters, e);
    assert (letters + e)[MaxReplyBytes] == 0xA9;
  }

  /** A 5000-byte ASCII answer is published as exactly its first 1000 bytes. */
  lemma LongAnswerIsCut(answer: seq<byte>)
    requires |answer| == 5000 && IsAscii(answer)
    ensures GenerateResponse(Choices([answer])) == Ok(answer[..1000])
  {
  }
}
