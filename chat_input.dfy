/** The message box: its `input` state, the submit guard, the Enter key rule
    and the derived `hasContent` / send-button `disabled` flags. */
module ChatInput {

  import opened Wrappers
  import opened JsString

  /** `hasContent`: the trimmed input is not empty, which holds exactly when
      some character of the input is not whitespace. */
  predicate HasContent(input: string)
    ensures HasContent(input) <==> exists i | 0 <= i < |input| :: !IsWhitespace(input[i])
  {
    |Trim(input)| > 0
  }

  /** The send button is disabled while a reply is pending or while the
      trimmed input is empty. */
  predicate SendDisabled(isLoading: bool, input: string) {
    isLoading || Trim(input) == ""
  }

  /** What `handleSubmit` hands to `onSend`: nothing when the trimmed input is
      empty or a reply is pending, else the input as typed (untrimmed). */
  function Submission(input: string, isLoading: bool): Option<string> {
    if Trim(input) == "" || isLoading then None else Some(input)
  }

  /** The send button is disabled exactly when pressing it would send nothing. */
  lemma DisabledIffNothingSent(input: string, isLoading: bool)
    ensures SendDisabled(isLoading, input) <==> Submission(input, isLoading).None?
    ensures !SendDisabled(isLoading, input) <==> HasContent(input) && !isLoading
  {
  }

  /** What is sent is never empty and not only whitespace, so the chat route
      never answers it with "Content is required". */
  lemma SentTextHasContent(input: string, isLoading: bool)
    requires Submission(input, isLoading).Some?
    ensures Submission(input, isLoading).value == input
    ensures input != "" && HasContent(input)
  {
  }

  /** The key that submits: Enter with Shift not held. */
  predicate SubmitsOnKey(key: string, shiftKey: bool) {
    key == "Enter" && !shiftKey
  }

  class ChatInputState {
    var input: string

    constructor ()
      ensures input == ""
    {
      input := "";
    }

    /** The textarea's `onChange`. */
    method OnChange(value: string)
      modifies this
      ensures input == value
    {
      input := value;
    }

    /** `handleSubmit`: `sent` is the argument of the one `onSend` call, or
        `None` when there is none. After a send the input is empty, so
        `hasContent` is false and a second submit sends nothing. */
    method HandleSubmit(isLoading: bool) returns (sent: Option<string>)
      modifies this
      ensures sent == Submission(old(input), isLoading)
      ensures sent.None? ==> input == old(input)
      ensures sent.Some? ==> input == "" && !HasContent(input) && Submission(input, isLoading).None?
    {
      if Trim(input) == "" || isLoading {
        return None;
      }
      sent := Some(input);
      input := "";
    }

    /** `handleKeyDown`: Enter without Shift is kept from the textarea
        (`prevented`) and submits; every other key is left to the textarea
        and sends nothing. */
    method HandleKeyDown(key: string, shiftKey: bool, isLoading: bool) returns (prevented: bool, sent: Option<string>)
      modifies this
      ensures prevented <==> SubmitsOnKey(key, shiftKey)
      ensures prevented ==> sent == Submission(old(input), isLoading)
      ensures !prevented ==> sent.None?
      ensures sent.None? ==> input == old(input)
      ensures sent.Some? ==> input == ""
    {
      prevented := SubmitsOnKey(key, shiftKey);
      sent := None;
      if prevented {
        sent := HandleSubmit(isLoading);
      }
    }
  }
}
