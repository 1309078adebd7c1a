/** `classify_item` of Aisle_Finder/classifier.py: it turns the reply of the remote chat-completion
    service into one of three kinds of string: a grocery category label, the sentinel
    "Item Not Found", or a message that starts with "Error".

    The HTTP request itself is not modelled. Its result is the `Reply` parameter, and the API key
    read from the environment is the `apiKey` parameter. */
module Classifier {
  import opened Optional
  import opened Text

  /** The fixed vocabulary the model is asked to choose from (GROCERY_CATEGORIES). */
  const GroceryCategories: seq<string> :=
    ["Fruits", "Vegetables", "Dairy", "Bakery", "Beverages",
     "Snacks", "Meat", "Frozen Foods", "Cereal", "Canned Goods", "Cleaning Supplies"]

  /** What the model answers when the item is not sold in a grocery store, and what
      `Classify` returns in that case. */
  const NotFoundSentinel: string := "Item Not Found"

  /** Every failure message starts with this marker; `find_aisle` relies on it. */
  const ErrorMarker: string := "Error"

  /** A failure message: the marker followed by an explanation. */
  function ErrorMessage(explanation: string): (m: string)
    ensures IsError(m)
  {
    ErrorMarker + explanation
  }

  const MissingKeyError: string := ErrorMessage(": Missing API Key.")
  const InvalidCategoryError: string := ErrorMessage(": AI did not return a valid category.")

  /** The message for a reply whose HTTP status is not 200. It is a failure message that
      cannot be confused with a label, the sentinel or the fallback message. */
  function StatusError(status: int): (m: string)
    ensures IsError(m) && !IsCategory(m) && m != NotFoundSentinel
    ensures m != InvalidCategoryError && m != MissingKeyError
  {
    var m := ErrorMessage(": API returned status " + IntToDecimal(status) + ".");
    DistinctFailures(": API returned status " + IntToDecimal(status) + ".", m);
    m
  }

  /** Failure messages whose explanations differ in their fourth character are distinct from
      the fallback and missing-key messages, and like every failure message they are neither
      a label nor the sentinel. */
  lemma DistinctFailures(explanation: string, m: string)
    requires m == ErrorMessage(explanation) && |explanation| > 3 && explanation[3] == 'P'
    ensures !IsCategory(m) && m != NotFoundSentinel
    ensures m != InvalidCategoryError && m != MissingKeyError
  {
    OutcomeKindsDisjoint(m);
    var invalid := ": AI did not return a valid category.";
    var missing := ": Missing API Key.";
    assert InvalidCategoryError[|ErrorMarker| + 3] == invalid[3];
    assert MissingKeyError[|ErrorMarker| + 3] == missing[3];
    assert m[|ErrorMarker| + 3] == explanation[3];
  }

  /** The two fixed failure messages are failures, differ from each other, and are neither a
      label nor the sentinel. */
  lemma FixedFailureMessages()
    ensures IsError(MissingKeyError) && IsError(InvalidCategoryError)
    ensures MissingKeyError != InvalidCategoryError
    ensures !IsCategory(MissingKeyError) && MissingKeyError != NotFoundSentinel
    ensures !IsCategory(InvalidCategoryError) && InvalidCategoryError != NotFoundSentinel
  {
    OutcomeKindsDisjoint(MissingKeyError);
    OutcomeKindsDisjoint(InvalidCategoryError);
    var invalid := ": AI did not return a valid category.";
    var missing := ": Missing API Key.";
    assert InvalidCategoryError[|ErrorMarker| + 2] == invalid[2];
    assert MissingKeyError[|ErrorMarker| + 2] == missing[2];
  }

  /** The message for a request that raised an exception; `detail` is the exception's text,
      which the message carries between parentheses. */
  function RequestFailedError(detail: string): (m: string)
    ensures IsError(m) && !IsCategory(m) && m != NotFoundSentinel
    ensures m != InvalidCategoryError && m != MissingKeyError
    ensures OccursAt(m, "(" + detail + ")", |ErrorMarker| + 21)
  {
    var explanation := ": API request failed (" + detail + ").";
    var m := ErrorMessage(explanation);
    DistinctFailures(explanation, m);
    assert m[|ErrorMarker| + 21..|ErrorMarker| + 21 + |detail| + 2] == "(" + detail + ")";
    m
  }

  predicate IsCategory(s: string)
  {
    s in GroceryCategories
  }

  /** The test `find_aisle` uses to recognise a failure: the string starts with "Error". */
  predicate IsError(s: string)
  {
    StartsWith(s, ErrorMarker)
  }

  /** The outcome of the remote call. `Failed` is a raised request exception: either the POST
      itself failed (a connection failure, for example), or a 200 response had a body that is
      not JSON, which is only decoded after the status check. `Answered` is an HTTP response:
      its status code and, when a 200 body has a "choices" field, the content of each choice.
      A non-200 response is `Answered` whatever its body, since its body is never decoded. */
  datatype Reply =
    | Failed(detail: string)
    | Answered(status: int, choices: Option<seq<string>>)

  /** The environment variable counts as present when it is set and not empty, which is
      Python's truthiness of the value `os.getenv` returns. */
  predicate KeyPresent(apiKey: Option<string>)
  {
    apiKey.Some? && apiKey.value != ""
  }

  /** The reply is a 200 response whose "choices" field is present and not empty. */
  predicate HasContent(reply: Reply)
  {
    reply.Answered? && reply.status == 200 && reply.choices.Some? && |reply.choices.value| > 0
  }

  /** The text `classify_item` validates: the first choice's content, stripped. */
  function Content(reply: Reply): (text: string)
    requires HasContent(reply)
    ensures Trimmed(text)
    ensures exists lead: nat :: Frames(reply.choices.value[0], text, lead)
  {
    Strip(reply.choices.value[0])
  }

  /** The validation step of `classify_item`: an exact label is kept, a text mentioning the
      sentinel becomes the sentinel, anything else becomes the fallback message. */
  function Validate(text: string): (r: string)
    ensures IsCategory(text) ==> r == text
    ensures !IsCategory(text) && (exists i: nat :: OccursAt(text, NotFoundSentinel, i))
            ==> r == NotFoundSentinel
    ensures !IsCategory(text) && !(exists i: nat :: OccursAt(text, NotFoundSentinel, i))
            ==> r == InvalidCategoryError
  {
    if text in GroceryCategories then text
    else if Contains(text, NotFoundSentinel) then NotFoundSentinel
    else InvalidCategoryError
  }

  /** `classify_item`. The result is always a category, the sentinel or an error message,
      and it is a category only when it is the stripped text of the first choice. */
  function Classify(apiKey: Option<string>, reply: Reply): (r: string)
    ensures IsCategory(r) || r == NotFoundSentinel || IsError(r)
    ensures IsCategory(r) ==> HasContent(reply) && r == Content(reply)
  {
    var r :=
      if !KeyPresent(apiKey) then MissingKeyError
      else match reply
        case Failed(detail) => RequestFailedError(detail)
        case Answered(status, choices) =>
          if status != 200 then StatusError(status)
          else if choices.Some? && |choices.value| > 0 then Validate(Content(reply))
          else InvalidCategoryError;
    OutcomeKindsDisjoint(r);
    r
  }

  // ---------------------------------------------------------------------------------------
  // The three kinds of result

  /** For the fixed vocabulary the three kinds of result never overlap: no label starts with
      "Error", no label is the sentinel, and the sentinel does not start with "Error". */
  lemma OutcomeKindsDisjoint(s: string)
    ensures !(IsCategory(s) && s == NotFoundSentinel)
    ensures !(IsCategory(s) && IsError(s))
    ensures !(s == NotFoundSentinel && IsError(s))
  {
    if IsError(s) {
      assert s[0] == 'E' by { assert s[..5][0] == s[0]; }
      assert NotFoundSentinel[0] == 'I';
    }
  }

  /** Every classification falls in exactly one of the three kinds. */
  lemma ClassifyExactlyOneKind(apiKey: Option<string>, reply: Reply)
    ensures var r := Classify(apiKey, reply);
      && (IsCategory(r) ==> r != NotFoundSentinel && !IsError(r))
      && (r == NotFoundSentinel ==> !IsCategory(r) && !IsError(r))
      && (IsError(r) ==> !IsCategory(r) && r != NotFoundSentinel)
  {
    OutcomeKindsDisjoint(Classify(apiKey, reply));
  }

  // ---------------------------------------------------------------------------------------
  // Failures before any content is read

  /** Without a key the result is the missing-key message whatever the service would have
      answered: the reply is never looked at, so no request needs to be made. */
  lemma MissingKeyShortCircuits(apiKey: Option<string>, reply1: Reply, reply2: Reply)
    requires !KeyPresent(apiKey)
    ensures Classify(apiKey, reply1) == Classify(apiKey, reply2) == MissingKeyError
  {
  }

  /** The missing-key message is returned exactly when the key is unset or empty: no other
      path of `classify_item` produces it. */
  lemma MissingKeyIff(apiKey: Option<string>, reply: Reply)
    ensures Classify(apiKey, reply) == MissingKeyError <==> !KeyPresent(apiKey)
  {
    FixedFailureMessages();
    if KeyPresent(apiKey) && HasContent(reply) {
      assert Classify(apiKey, reply) == Validate(Content(reply));
    }
  }

  /** The "choices" guard: once the key is present and the status is 200, a missing or empty
      "choices" field gives the fallback message, and neither a label nor the sentinel can
      come back unless the field holds at least one choice. */
  lemma ChoicesGuard(apiKey: Option<string>, reply: Reply)
    ensures && KeyPresent(apiKey) && reply.Answered? && reply.status == 200
            && !HasContent(reply)
            ==> Classify(apiKey, reply) == InvalidCategoryError
    ensures IsCategory(Classify(apiKey, reply)) || Classify(apiKey, reply) == NotFoundSentinel
            ==> HasContent(reply)
  {
    FixedFailureMessages();
  }

  /** The test `category.startswith("Error")` holds exactly for the strings built as failure
      messages: the marker followed by some explanation. */
  lemma IsErrorIffMarked(s: string)
    ensures IsError(s) <==> exists e :: s == ErrorMessage(e)
  {
    if IsError(s) {
      assert s == ErrorMessage(s[|ErrorMarker|..]);
    }
  }

  /** A raised request exception or a status other than 200 yields an error message that
      carries the exception text or the status, and never a category or the sentinel. */
  lemma TransportFailureIsError(apiKey: Option<string>, reply: Reply)
    requires KeyPresent(apiKey)
    requires reply.Failed? || reply.status != 200
    ensures var r := Classify(apiKey, reply);
      && IsError(r) && !IsCategory(r) && r != NotFoundSentinel
      && (reply.Failed? ==> r == RequestFailedError(reply.detail))
      && (reply.Answered? ==> r == StatusError(reply.status))
  {
    OutcomeKindsDisjoint(Classify(apiKey, reply));
  }

  /** The status message names the status: two statuses give the same message only when
      they are the same status. */
  lemma StatusErrorInjective(a: int, b: int)
    ensures StatusError(a) == StatusError(b) ==> a == b
  {
    var p := ": API returned status ";
    if StatusError(a) == StatusError(b) {
      PrefixCancel(ErrorMarker, p + IntToDecimal(a) + ".", p + IntToDecimal(b) + ".");
      InfixCancel(p, IntToDecimal(a), IntToDecimal(b), ".");
      IntToDecimalInjective(a, b);
    }
  }

  // ---------------------------------------------------------------------------------------
  // Validation of the reply text

  /** The result is a category exactly when the stripped first choice of a 200 reply equals a
      label (exactly, case-sensitively), and then it is that text. */
  lemma CategoryAcceptedIff(apiKey: Option<string>, reply: Reply)
    ensures IsCategory(Classify(apiKey, reply))
        <==> KeyPresent(apiKey) && HasContent(reply) && IsCategory(Content(reply))
    ensures KeyPresent(apiKey) && HasContent(reply) && IsCategory(Content(reply))
        ==> Classify(apiKey, reply) == Content(reply)
  {
    if KeyPresent(apiKey) && HasContent(reply) {
      assert Classify(apiKey, reply) == Validate(Content(reply));
    }
  }

  /** The result is the sentinel exactly when the stripped first choice of a 200 reply is no
      label but has "Item Not Found" somewhere inside it. */
  lemma SentinelIff(apiKey: Option<string>, reply: Reply)
    ensures Classify(apiKey, reply) == NotFoundSentinel
        <==> && KeyPresent(apiKey) && HasContent(reply)
             && !IsCategory(Content(reply))
             && exists i: nat :: OccursAt(Content(reply), NotFoundSentinel, i)
  {
    OutcomeKindsDisjoint(Classify(apiKey, reply));
  }

  /** The fallback message is returned exactly for a 200 reply whose "choices" are missing or
      empty, or whose stripped first choice is neither a label nor mentions the sentinel. */
  lemma FallbackIff(apiKey: Option<string>, reply: Reply)
    ensures Classify(apiKey, reply) == InvalidCategoryError
        <==> && KeyPresent(apiKey) && reply.Answered? && reply.status == 200
             && (|| !HasContent(reply)
                 || (&& !IsCategory(Content(reply))
                     && !exists i: nat :: OccursAt(Content(reply), NotFoundSentinel, i)))
  {
    var invalid := ": AI did not return a valid category.";
    assert InvalidCategoryError[|ErrorMarker| + 3] == invalid[3];
    if !KeyPresent(apiKey) {
      var missing := ": Missing API Key.";
      assert MissingKeyError[|ErrorMarker| + 3] == missing[3];
    } else if reply.Failed? {
      var failed := ": API request failed (" + reply.detail + ").";
      assert RequestFailedError(reply.detail)[|ErrorMarker| + 3] == failed[3];
    } else if reply.status != 200 {
      var status := ": API returned status " + IntToDecimal(reply.status) + ".";
      assert StatusError(reply.status)[|ErrorMarker| + 3] == status[3];
    } else if HasContent(reply) {
      assert Classify(apiKey, reply) == Validate(Content(reply));
      OutcomeKindsDisjoint(InvalidCategoryError);
      assert |NotFoundSentinel| != |InvalidCategoryError|;
    }
  }

  /** Only the first choice is read: whatever follows it cannot change the result. */
  lemma OnlyFirstChoiceMatters(apiKey: Option<string>, status: int, first: string,
                               rest1: seq<string>, rest2: seq<string>)
    ensures Classify(apiKey, Answered(status, Some([first] + rest1)))
         == Classify(apiKey, Answered(status, Some([first] + rest2)))
  {
    assert ([first] + rest1)[0] == first == ([first] + rest2)[0];
  }

  /** No label contains the sentinel, so a reply equal to a label can never be mistaken for
      the sentinel: for this vocabulary the order of the two checks does not affect the result. */
  lemma NoCategoryMentionsSentinel(c: string)
    requires IsCategory(c)
    ensures !exists i: nat :: OccursAt(c, NotFoundSentinel, i)
  {
    forall i: nat
      ensures !OccursAt(c, NotFoundSentinel, i)
    {
      if i + |NotFoundSentinel| <= |c| {
        assert c == "Cleaning Supplies";
        assert c[i] != NotFoundSentinel[0];
        assert c[i..i + |NotFoundSentinel|][0] == c[i];
      }
    }
  }

  /** A label surrounded by any whitespace (newlines, tabs, non-breaking spaces, ...) is
      accepted as that label. */
  lemma PaddedCategoryAccepted(apiKey: Option<string>, c: string, pre: string, post: string,
                               rest: seq<string>)
    requires KeyPresent(apiKey) && IsCategory(c)
    requires AllSpace(pre) && AllSpace(post)
    ensures Classify(apiKey, Answered(200, Some([pre + c + post] + rest))) == c
  {
    assert Trimmed(c);
    StripPadded(pre, c, post);
  }

  /** A 200 reply whose first choice mentions "Item Not Found" anywhere (for example inside a
      sentence) is classified as exactly the sentinel. */
  lemma MentionedSentinelIsNotFound(apiKey: Option<string>, pre: string, post: string,
                                    rest: seq<string>)
    requires KeyPresent(apiKey)
    ensures Classify(apiKey, Answered(200, Some([pre + NotFoundSentinel + post] + rest)))
         == NotFoundSentinel
  {
    var s := pre + NotFoundSentinel + post;
    assert OccursAt(s, NotFoundSentinel, |pre|) by {
      assert s[|pre|..|pre| + |NotFoundSentinel|] == NotFoundSentinel;
    }
    var j := StripKeepsTrimmedOccurrence(s, NotFoundSentinel, |pre|);
    var text := Strip(s);
    if IsCategory(text) {
      NoCategoryMentionsSentinel(text);
      assert false;
    }
  }
}
