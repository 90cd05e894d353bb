# MAC address resolver — verified model

This project models the decision logic of `mac_resolver.py`, a small client that looks up the vendor of a MAC address through the macaddress.io API. It covers three parts:

- **The format check** at the top of `MacResolver.resolve`. The address is lower-cased and matched with `re.match` against `[0-9a-f]{2}([-:.]?)[0-9a-f]{2}(\1[0-9a-f]{2}){4}$`.
- **The dispatch of `resolve`**. It validates the address, builds the request, and turns the three caught transport exceptions, an ok response, or a failed response into the script's results and errors.
- **`MacResolver.handle_http_errors`**, the table that maps a status code to a reason.

Everything in the core is pure, so the model is written as functions, datatypes and lemmas. There are four modules:

- `Wrappers` (`wrappers.dfy`): the `Option` datatype.
- `MacFormat` (`mac_format.dfy`): the validator, described three ways, with proofs that they agree.
  - `RegexMatch` follows the pattern piece by piece. It handles the back-reference `\1`, the greedy optional group with its backtracking to the empty capture, and Python's `$`, which also lets one final `"\n"` through.
  - `IsCanonicalMac` is the grammar: six octets joined by one separator from {"", "-", ":", "."}, optionally followed by one line feed.
  - `IsValidFormat` is what `resolve` checks: `RegexMatch(Lower(mac))`. It is proved equivalent to the grammar on the lower-cased input.
- `Decimal` (`decimal.dfy`): Python's `str(int)`, used to format the status code in the HTTP error message, and a reader that parses it back.
- `MacResolver` (`resolver.dfy`): the texts and the URL, the request, `HandleHttpErrors` and `Resolve`.

`Resolve(apiKey, mac, returnJson, send)` is a total function.
- The HTTP exchange is the parameter `send: Request -> Transport`. It gives either one of the three exception kinds that `resolve` catches or a response `(ok, statusCode, text)`.
- The API key is set once in `__init__` and only read after that, so it is passed as an argument.
- The result is an `Outcome`: `Vendor(text)`, `VendorJson(mac, text)` (meaning `json.dumps({mac: text})`), `WrongMacFormat(msg)`, `NetworkError(msg)`, `HttpError(msg)`, or `Crash`.
- `Crash` is the AttributeError that escapes `resolve` when the status is 402.

Points where the code behaves differently from what its messages and names suggest:
- **Status 402.** The text is split across separate statements, and the statement on line 185 reads `cls.api_key`. The class has no such attribute (only instances get one, at line 82), so `handle_http_errors(402)` raises AttributeError. The `try` in `resolve` does not cover that call, so the error leaves `resolve` unclassified. The model returns `Crash`, not an HTTP error with a credit-balance reason.
- **Status 500.** The second f-string on line 194 is a statement of its own. The reason is therefore the truncated `'Internal server error. Try again or contact '`. The model keeps that text and does not concatenate the full sentence.
- **Trailing line feed.** Python's `$` also lets one trailing `"\n"` through, so the model admits it, and accepted lengths are 12, 13, 17 or 18.
- **Success.** Success is decided by `response.ok`, which the model takes as an input (see below).

## Model

| member | source | states |
|---|---|---|
| `MacFormat.LowerChar` | mac_resolver.py:115 | `str.lower` on a character leaves no upper-case ASCII letter; the result is a pattern hex digit exactly when the character is one or is `A`-`F`, and separators and the line feed are kept |
| `MacFormat.Lower` | mac_resolver.py:115 | `mac.lower()` keeps the length, lowers every character in place, and leaves no upper-case ASCII letter |
| `MacFormat.RepeatGroup` | mac_resolver.py:114 | when `(\1[0-9a-f]{2}){n}` matches, it consumes exactly `n` times the capture plus two characters |
| `MacFormat.MatchAfterCapture` | mac_resolver.py:114 | when the part after group 1 matches, its length is the first octet plus four capture-prefixed octets, with or without the final line feed |
| `MacFormat.RegexMatch` | mac_resolver.py:114-115 | `re.match` of the pattern, with back-reference, greedy optional group with backtracking and `$`; a match has 12, 13, 17 or 18 characters |
| `MacFormat.IsValidFormat` | mac_resolver.py:114-115 | the check `re.match(pattern, mac.lower())` accepts a string exactly when its lower-cased form is six hex pairs joined by one uniform separator from {"", "-", ":", "."}, optionally followed by one line feed |
| `MacFormat.RegexAgreesWithGrammar` | mac_resolver.py:114 | the piece-by-piece reading of the pattern (back-reference, greedy optional group with backtracking, `$`) accepts exactly the strings of the grammar |
| `MacFormat.RegexMatchIsCanonical` | mac_resolver.py:114 | every string the pattern matches is six octets joined by one separator, with at most a final line feed |
| `MacFormat.CanonicalIsRegexMatch` | mac_resolver.py:114 | every string of the grammar is matched by the pattern |
| `MacFormat.JoinedIsRegexMatch` | mac_resolver.py:114 | six octets joined by any allowed separator, then the end of the string or one line feed, match the pattern |
| `MacFormat.RepeatGroupConsumes` | mac_resolver.py:114 | `(\1[0-9a-f]{2}){n}` consumes `n` octets each preceded by the captured separator and leaves the rest untouched |
| `MacFormat.RepeatGroupInversion` | mac_resolver.py:114 | whatever `(\1[0-9a-f]{2}){n}` consumes is `n` octets each preceded by the captured separator |
| `MacFormat.GrammarLengths` | mac_resolver.py:114 | a string of the grammar has 12 or 17 characters, or 13 or 18 ending in a line feed |
| `MacFormat.AcceptedLengths` | mac_resolver.py:114-115 | an accepted address has length 12, 13, 17 or 18, and at length 13 or 18 its last character is a line feed |
| `MacFormat.GrammarSeparatorPositions` | mac_resolver.py:114 | in a string of the grammar with separators, all five separator positions hold the same character from `[-:.]` |
| `MacFormat.SeparatorIsUniform` | mac_resolver.py:114-115 | in an accepted address with separators, the character after the first pair is one of `-`, `:`, `.` and is repeated at all five separator positions |
| `MacFormat.CaseInsensitive` | mac_resolver.py:115 | two strings that differ only in the case of ASCII letters are both accepted or both rejected |
| `MacFormat.RejectsMalformed` | mac_resolver.py:114-115 | mixed separators, a length other than 12, 13, 17 or 18, or a 13/18-character string not ending in a line feed are rejected |
| `MacFormat.AcceptsJoined` | mac_resolver.py:114-115 | an address whose lower-cased form is six octets joined by one allowed separator, then the end or one line feed, is accepted |
| `MacFormat.AcceptsColonForm` | mac_resolver.py:114-119 | the upper-case, colon-separated form `AA:BB:CC:DD:EE:FF` named in the error message is accepted |
| `MacFormat.AcceptsBareForm` | mac_resolver.py:114 | the form without separators is accepted, both alone and with one trailing line feed |
| `MacFormat.RejectsMixedExample` | mac_resolver.py:114-115 | `AA:BB-CC:DD:EE:FF` is rejected because the back-reference forces one separator |
| `MacFormat.RejectsOtherExamples` | mac_resolver.py:114-115 | `not-a-mac` and an address followed by a space are rejected |
| `Decimal.NatToDecimal` | mac_resolver.py:157 | the status code is written as at least one decimal digit, with no leading zero |
| `Decimal.IntToDecimal` | mac_resolver.py:157 | `str(n)` for any integer: at least one character, a leading `-` exactly when `n` is negative, and digits everywhere else |
| `Decimal.DecimalRoundTrip` | mac_resolver.py:157 | reading back the digits written for `n` gives `n` |
| `Decimal.IntToDecimalReadBack` | mac_resolver.py:157 | `str(n)` followed by text that does not start with a digit reads back as `n`, negative numbers included |
| `Decimal.ReadIntAfterPrefix` | mac_resolver.py:155-157 | `str(n)` placed after any prefix and before a non-digit reads back as `n` from just after the prefix |
| `Decimal.IntToDecimalInjective` | mac_resolver.py:157 | different status codes appear as different texts |
| `Decimal.Examples` | mac_resolver.py:157 | `str(401)` is `"401"` and `str(-7)` is `"-7"` |
| `MacResolver.HandleHttpErrors` | mac_resolver.py:176-197 | status 402 raises and nothing else does; 400, 401, 422, 429 and 500 get their table reasons, with 500's truncated as the code computes it; every other code gets `'Unknown error.'` |
| `MacResolver.ReasonsAreDistinct` | mac_resolver.py:176-196 | for any two different codes other than 402, at least one of them in the table, the two reasons differ, so the reason identifies the known code |
| `MacResolver.ServerErrorReasonIsTruncated` | mac_resolver.py:192-194 | the reason for 500 is a proper prefix of the intended sentence ending in the host name, and it ends with a space |
| `MacResolver.MakeRequest` | mac_resolver.py:122-130 | the request goes to the API URL; its only header is `X-Authentication-Token` holding the API key unchanged; its only parameters are `search`, the caller's original address, and `output=vendor` |
| `MacResolver.NetworkMessage` | mac_resolver.py:131-146 | the NetworkError text starts with the failure kind, then the API URL, and ends with the address and `". "` |
| `MacResolver.NetworkMessagesDistinct` | mac_resolver.py:131-146 | connection error, timeout and other exceptions give three different messages for the same address |
| `MacResolver.HttpMessagePrefix` | mac_resolver.py:155-157 | the HTTPError text up to the status code: a fixed head naming the URL, the address, then `". Status code: "`, so the address can be cut back out |
| `MacResolver.HttpMessage` | mac_resolver.py:154-158 | the status code reads back from just after the prefix, and the message ends with the reason |
| `MacResolver.Resolve` | mac_resolver.py:113-158 | a format error (with the fixed message) exactly when the address is invalid; otherwise connection error, timeout and other exceptions give their three NetworkError messages naming the URL and address; an ok response gives the text, or the `{mac: text}` JSON when asked; a failed response gives `Crash` for 402 and otherwise an HTTPError naming URL, address, status code and classified reason |
| `MacResolver.FailFast` | mac_resolver.py:115-120 | an invalid address yields WrongMacFormat whatever the transport would do, so the transport is never consulted |
| `MacResolver.OnlyTheBuiltRequestMatters` | mac_resolver.py:122-130 | the outcome depends on the transport only through its answer to the one request built from the API key and the address |
| `MacResolver.OutcomeKinds` | mac_resolver.py:125-158 | NetworkError exactly when the address is valid and the transport raised; a vendor result exactly when the response is ok; HTTPError exactly when it is not ok and the status is not 402; Crash exactly when it is not ok and the status is 402 |
| `MacResolver.HttpMessageStatusReadBack` | mac_resolver.py:154-158 | the status code can be parsed back from an HTTPError message built for a given address |
| `MacResolver.HttpErrorCarriesStatus` | mac_resolver.py:152-158 | whenever `resolve` raises HTTPError, the response's status code can be recovered from the message text |
| `MacResolver.CaseOnlyReachesTheRequest` | mac_resolver.py:115-123 | changing the case of letters does not change whether the format check fails, but the request still carries the address as written |
| `MacResolver.ScenarioVendorFound` | mac_resolver.py:147-151 | for a valid address and an ok response "Cisco Systems", the result is that text, or the JSON pair of address and text |
| `MacResolver.ScenarioWrongKey` | mac_resolver.py:152-158 | a 401 response gives an HTTPError ending in `401, reason: Access restricted. Enter the correct API key.` |
| `MacResolver.ScenarioNoCredit` | mac_resolver.py:182-185 | a 402 response ends in the unclassified crash, not an HTTPError |
| `MacResolver.ScenarioConnectionRefused` | mac_resolver.py:131-135 | a connection error gives a NetworkError with the source's connection-error text, naming the URL and the address |
| `MacResolver.ScenarioNotAMac` | mac_resolver.py:115-120 | `not-a-mac` is refused with the fixed format message |

## Left out

- The HTTP call `requests.get` (mac_resolver.py:126-130) is I/O in a foreign library. It is the parameter `send` of `Resolve`.
- What `response.ok` means, which comes from the `requests` library. It is a field of the abstract response and is not derived from the status code.
- The character escaping of `json.dumps` (mac_resolver.py:149). The JSON result is the constructor `VendorJson(mac, text)`.
- The `requests` exception hierarchy, for example `ConnectTimeout` being both a connection error and a timeout. The model has three disjoint exception kinds, handled in the order of the `except` clauses. Exceptions outside `Exception`, such as KeyboardInterrupt, would not be caught and are not modelled.
- Lower-casing of non-ASCII characters by `str.lower`. `LowerChar` maps only `A`-`Z`. No non-ASCII character lower-cases to a hex digit, a separator or a line feed, so acceptance does not change.
- The message of the AttributeError raised for status 402. `Crash` records only that the error leaves `resolve`.
- The exception classes `NetworkError`, `HTTPError` and `WrongMacFormat` (mac_resolver.py:31-43). They are tags and appear as constructors of `Outcome`.
- The default `return_json=False` of `resolve` (mac_resolver.py:84). `Resolve` takes the flag explicitly, so `resolve(mac)` is `Resolve(apiKey, mac, false, send)`.
- The command-line block (mac_resolver.py:200-256): argument parsing, logging set-up and log calls, which form a process and user-interface front end.
