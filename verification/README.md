# Grocery aisle finder: classification and aisle lookup

This project models the decision logic of the grocery aisle finder in
`Aisle_Finder/classifier.py`.

- **`classify_item`** sends an item name to a hosted chat-completion model. It turns the reply
  into one of three kinds of string:
  - one of the eleven labels in `GROCERY_CATEGORIES`;
  - the sentinel `"Item Not Found"`;
  - a message that starts with `"Error"`.

  It makes its checks in a fixed order:
  1. Is the API key present?
  2. Did the POST raise a request exception?
  3. Is the HTTP status 200? A non-200 response gives the status message, and its body is
     never decoded.
  4. Did decoding the 200 body as JSON raise? That exception is also a request exception.
  5. Is there a non-empty `choices` list?
  6. Does the stripped first choice equal a label exactly?
  7. Does it contain the sentinel?
  8. Otherwise it returns the fallback error.

  A request exception therefore comes from one of two places: the POST (lines 34-38), before
  the status check, or `response.json()` (line 43), after it. Both give the same
  "request failed" message.
- **`find_aisle`** routes that result:
  - the sentinel becomes a "not sold in a grocery store" message;
  - an error string is returned unchanged;
  - a label names the first aisle, in the order of the aisle data, whose category list holds
    it; if no aisle holds it, the result is a "not found in the database" message.

The remote call is not modelled. It is the `Reply` parameter: either a raised request
exception with its text (`Failed`), or an HTTP status with the content of each choice
(`Answered`). A non-200 response is always `Answered`, whatever its body. The API key read from the
environment is an `Option<string>` parameter. It counts as present when it is set and not
empty, as Python's truthiness test does.

The aisle data is an immutable `seq<Aisle>` in the dictionary's iteration order. So
`find_aisle` cannot change it.

Python's own string operations are modelled in module `Text`:
- `str.strip()`, with the exact set of characters `str.isspace()` accepts;
- `str.startswith`;
- the substring test `in`;
- the decimal rendering of the status code.

Modules:
- `Optional`: the Some/None datatype.
- `Text`: the string operations above, with specifications and proofs.
- `Classifier`: `GROCERY_CATEGORIES`, the messages, and `classify_item` as `Classify`.
- `Locator`: the aisle data, `find_aisle` as `FindAisle` (routing in `Route`, lookup in
  `FirstAisle`), and the rendering of its messages.

### Behaviour of the code worth knowing

- The item name is sent to the service as it is. Nothing normalises it or checks it against
  a list of refused items, and no item is matched to an aisle directly. Only the category
  decides the aisle.
- A reply is accepted only when its stripped text equals a label exactly, including case.
- The sentinel is recognised anywhere inside the stripped reply. The reply does not have to
  equal it.
- A reply that is neither a label nor mentions the sentinel gives the error string
  `"Error: AI did not return a valid category."`. No exception is raised.
- A label that no aisle holds gives the "not found in the database" message.

## Model

| member | source | states |
|---|---|---|
| Classifier.Classify | Aisle_Finder/classifier.py:15-58 | The result is always a grocery label, the sentinel, or a string starting with "Error". It is a label only when the reply is a 200 response with choices and the label is the stripped first choice. |
| Classifier.Validate | Aisle_Finder/classifier.py:49-55 | The validation step. A text equal to a label is kept. A text that is no label but has "Item Not Found" at some position becomes the sentinel. Any other text becomes the fallback message. |
| Classifier.Content | Aisle_Finder/classifier.py:47 | The text that is validated is trimmed, and it sits inside the first choice with only whitespace around it. |
| Classifier.OutcomeKindsDisjoint | Aisle_Finder/classifier.py:12-13 | For the fixed label list, the three kinds of result never overlap. No label is the sentinel, no label starts with "Error", and the sentinel does not start with "Error". |
| Classifier.ClassifyExactlyOneKind | Aisle_Finder/classifier.py:15-58 | Every classification is of exactly one of the three kinds. |
| Classifier.MissingKeyShortCircuits | Aisle_Finder/classifier.py:17-18 | Without a key, the result is "Error: Missing API Key." for every reply. The reply is never consulted, so no request is needed. |
| Classifier.MissingKeyIff | Aisle_Finder/classifier.py:17-18 | The test `not GROQ_API_KEY` (`KeyPresent`): the missing-key message is returned exactly when the key is unset or empty. No other path produces it. |
| Classifier.ChoicesGuard | Aisle_Finder/classifier.py:46-55 | The test `"choices" in result and result["choices"]` (`HasContent`): with a key and status 200, missing or empty choices give the fallback message. A label or the sentinel is returned only when there is at least one choice. |
| Classifier.IsErrorIffMarked | Aisle_Finder/classifier.py:67 | The test `category.startswith("Error")` (`IsError`) holds exactly for strings that are the "Error" marker followed by some explanation, which is how every failure message is built. |
| Classifier.TransportFailureIsError | Aisle_Finder/classifier.py:40-58 | A raised request exception or a non-200 status gives an "Error" message carrying the exception text or the status. It is never a label or the sentinel. |
| Classifier.StatusErrorInjective | Aisle_Finder/classifier.py:40-41 | The status message identifies the status: two different statuses never give the same message. |
| Classifier.StatusError | Aisle_Finder/classifier.py:40-41 | The message for a non-200 status is a failure message. It is never a label, the sentinel, the fallback message or the missing-key message. |
| Classifier.RequestFailedError | Aisle_Finder/classifier.py:57-58 | The message for a raised request exception is a failure message that carries the exception text between parentheses at a fixed place. It is never a label, the sentinel, the fallback message or the missing-key message. |
| Classifier.DistinctFailures | Aisle_Finder/classifier.py:18-58 | The status and request-failure messages can never be mistaken for the fallback message, the missing-key message, a label or the sentinel. |
| Classifier.FixedFailureMessages | Aisle_Finder/classifier.py:17-55 | The missing-key message and the fallback message both start with "Error" and differ from each other. Neither is a label or the sentinel. |
| Classifier.CategoryAcceptedIff | Aisle_Finder/classifier.py:46-51 | The result is a label exactly when the key is present, the reply is a 200 response with a non-empty choice list, and its stripped first choice equals a label. The result is then that text. |
| Classifier.SentinelIff | Aisle_Finder/classifier.py:46-53 | The result is exactly "Item Not Found" when the stripped first choice of a 200 reply is no label and has the sentinel at some position. The label check comes first. |
| Classifier.FallbackIff | Aisle_Finder/classifier.py:46-55 | The fallback message is returned exactly when a 200 reply has missing or empty choices, or its stripped first choice is neither a label nor mentions the sentinel. |
| Classifier.OnlyFirstChoiceMatters | Aisle_Finder/classifier.py:46-47 | Choices after the first never change the result. |
| Classifier.NoCategoryMentionsSentinel | Aisle_Finder/classifier.py:50-53 | No label contains "Item Not Found". So for this label list, the order of the label check and the sentinel check cannot change a result. |
| Classifier.PaddedCategoryAccepted | Aisle_Finder/classifier.py:47-51 | A label surrounded by any amount of any whitespace is accepted as that label. |
| Classifier.MentionedSentinelIsNotFound | Aisle_Finder/classifier.py:47-53 | A 200 reply whose first choice has "Item Not Found" anywhere in it is classified as exactly the sentinel. |
| Text.Strip | Aisle_Finder/classifier.py:47 | `str.strip()`: the result neither starts nor ends with whitespace, and it sits inside the input with only whitespace before and after it. |
| Text.StripCharacterized | Aisle_Finder/classifier.py:47 | Any trimmed text framed by whitespace in the input equals the stripped input, so the contract of Strip determines it completely. |
| Text.StripPadded | Aisle_Finder/classifier.py:47 | Stripping whitespace-padded trimmed text gives back that text. |
| Text.StripIdempotent | Aisle_Finder/classifier.py:47 | Stripping twice gives the same result as stripping once. |
| Text.Contains | Aisle_Finder/classifier.py:52 | The test `"Item Not Found" in response_text`: the left-to-right scan succeeds exactly when the needle occurs at some position, the empty needle included. |
| Text.StripKeepsTrimmedOccurrence | Aisle_Finder/classifier.py:47-52 | Stripping never cuts into a non-empty trimmed substring. If the substring occurs in the input, it still occurs in the stripped text. |
| Text.IntToDecimal | Aisle_Finder/classifier.py:41 | The decimal rendering of any integer, including negative ones, is a well-formed literal that reads back as the same integer. It is in canonical form: a minus sign exactly for negatives, and no leading zero except in "0" itself. |
| Text.IntToDecimalInjective | Aisle_Finder/classifier.py:41 | Distinct integers render as distinct strings. |
| Locator.FirstAisle | Aisle_Finder/classifier.py:70-74 | The loop over the aisles finds the first aisle, in iteration order, whose list holds the category. It finds none exactly when no aisle holds it. |
| Locator.FirstStockingUnique | Aisle_Finder/classifier.py:70-72 | At most one aisle is the first to hold a category, so the aisle found is determined. |
| Locator.Route | Aisle_Finder/classifier.py:64-74 | A found outcome names the item, the category, and the first aisle holding the category. The not-in-database outcome happens only when no aisle holds the category. |
| Locator.RouteSentinel | Aisle_Finder/classifier.py:64-65 | The sentinel always gives the "not sold" outcome for the item, whatever the aisle data. |
| Locator.RouteErrorUnchanged | Aisle_Finder/classifier.py:67-68 | Any string starting with "Error" is handed back unchanged, whatever the aisle data. |
| Locator.RouteFindsFirstAisle | Aisle_Finder/classifier.py:70-72 | Any other classification names the first aisle that holds it. |
| Locator.RouteNotInDatabaseIff | Aisle_Finder/classifier.py:70-74 | Any other classification gives the "not found in the database" outcome exactly when no aisle holds it. |
| Locator.RouteIgnoresLaterAisles | Aisle_Finder/classifier.py:70-72 | The lookup returns at the first match. Aisles appended after a matching aisle never change a found result. |
| Locator.FindAisle | Aisle_Finder/classifier.py:60-74 | A passed-through message is always an error. A found or not-in-database outcome only follows a valid label, and a found outcome carries that label. |
| Locator.FindAisleMissingKey | Aisle_Finder/classifier.py:62-68 | Without an API key, the caller gets "Error: Missing API Key." back. |
| Locator.FindAisleNotSold | Aisle_Finder/classifier.py:62-65 | The outcome is "not sold" exactly when the classification is the sentinel. |
| Locator.FindAisleValidCategory | Aisle_Finder/classifier.py:62-74 | When the reply holds a valid label, the outcome names the first aisle holding it. It is "not found in the database" exactly when no aisle holds it. |
| Locator.Render | Aisle_Finder/classifier.py:64-74 | A failure is returned as it is. Every other message is non-empty and opens with a cross or a check mark. The item name, and for a found aisle also the aisle and the category, appear in it at fixed places. |
| Locator.RenderMarksKind | Aisle_Finder/classifier.py:64-74 | The rendered message starts with a check mark exactly for a found aisle, and with a cross exactly for the two "not available" messages. It starts with "Error" exactly for a passed-through failure. |
| Locator.RenderKindsDistinct | Aisle_Finder/classifier.py:64-74 | Outcomes of different kinds never render to the same text. |
| Locator.NotSoldDiffersFromNotInDatabase | Aisle_Finder/classifier.py:65-74 | The "not sold" and "not found in the database" messages differ for any two item names. |

## Left out

- The HTTP request to the chat-completion endpoint, the JSON decoding of its body and the debug `print` (Aisle_Finder/classifier.py:34-44) are network and I/O. They appear only as the `Reply` value. A 200 response whose body is not JSON raises, at line 43, an exception derived from `RequestException` in current versions of `requests`, so it is covered by `Failed`. A non-200 response returns at line 41 before its body is read, so it is `Answered` whatever its body.
- Loading `.env` and reading `GROQ_API_KEY` (Aisle_Finder/classifier.py:8-9) read the environment. The key is a parameter.
- The prompt text (Aisle_Finder/classifier.py:20-31) is string formatting with no checkable behaviour. For the same reason the item name affects only the rendered messages.
- The text of a raised exception is an opaque string, `Failed.detail`. How Python formats an exception is not modelled.
- A 200 body of an unexpected shape is not modelled as such. The model assumes the content of each choice has already been extracted as a string. In the source:
  - a JSON array, or a JSON string that does not contain `"choices"`, makes the test `"choices" in result` false, so the fallback error is returned; the model covers this as `Answered(200, None)`;
  - a JSON `null`, number or boolean makes that test raise `TypeError`, and so does indexing an array or a string with `"choices"` when the test succeeds;
  - a `choices` entry without `message` or `content`, or content that is not a string, raises an uncaught exception.
- `requests.post` (Aisle_Finder/classifier.py:34-38) is called without a timeout, so a request can block forever. Only requests that return, with a response or a `RequestException`, are modelled.
- An exception from the POST that is not a `RequestException` is not caught at Aisle_Finder/classifier.py:57. It propagates out of both `classify_item` and `find_aisle`. For example, a `GROQ_API_KEY` holding a character outside Latin-1, such as a pasted U+2019, makes `http.client` raise `UnicodeEncodeError` while encoding the `Authorization` header built at line 36. The model does not represent such exceptions: for any present key, `Classify` returns one of its three kinds of string.
- The aisle data is taken as already loaded: the `"aisles"` key exists and each value is a list of labels. A missing key raises `KeyError` in the source. A value that is a single string would make `in` a substring test there. Neither is modelled.
- Aisle_Finder/speech.py (microphone capture, WAV writing, the remote transcription call) and Aisle_Finder/app.py (the Streamlit page, loading `aisles.json`, its empty-input and cross-prefix guards) are outside the classifier and are not part of this model.
