# Charlie echo bot — turn interpreter and utilities in Dafny

Charlie is a small chat bot. Every inbound activity is one *turn*. A message
activity first saves the conversation state. Its text is then run through a
fixed first-match ladder on the lower-cased text:

- `utc`, `time` and `guid` must match the whole text;
- `base64encode`, `base64decode` and `weather` must match at index 0;
- anything else is echoed back.

The reply goes back through the turn context. Any other activity is answered
with `<type> event detected`, and the state is not touched.

The `Util` helpers do the real work behind three of the commands:

- base64 (section 4 of RFC 4648) over the UTF-8 octets (RFC 3629) of a string;
- a weather summary that turns every failure of the lookup into inline
  `", error=..."` text.

Modules, one file each:

| file | module | what it holds |
|---|---|---|
| `wrappers.dfy` | `Wrappers` | `Option` and `Result` |
| `bytes.dfy` | `Bytes` | the octet type |
| `utf8.dfy` | `Utf8` | UTF-8 encoding and a total, substituting decoder; round trip |
| `base64.dfy` | `Base64` | base64 with padding over octets; round trip, shape of the output, exact characterisation of the accepted inputs and of each error |
| `strings.dfy` | `Strings` | `ToLower`, `Trim`, prefix test, as the interpreter uses them |
| `util.dfy` | `Util` | `Base64Encode`, `Base64Decode`, `GetWeather` over a fetch outcome |
| `charlie_echo.dfy` | `CharlieEcho` | the ladder (`Classify`), the replies (`Respond`, `Reply`), the effect trace (`TurnContext`, `OnTurn`), and a reference ladder as an ordered pattern list |

Clocks, the GUID generator and the weather request are parameters of a turn
(the `Env` datatype). The two clocks and the GUID are already-formatted
strings. The request is a function from location to a `FetchOutcome`: either
the six fields of a summary or a diagnostic.

The model follows what the code does, also where the bot was meant to
behave otherwise:

- A malformed `base64decode` argument was meant to be answered with a
  diagnostic, but the code does not catch it. `Convert.FromBase64String`
  throws and the turn ends after the state save, with nothing sent. The model
  returns `Failure(DecodeFailed(_))` and records no send (`DecodeFailureSendsNothing`).
- Invalid UTF-8 after a successful base64 step was meant to be a decode
  failure, but `Encoding.UTF8.GetString` substitutes U+FFFD instead (`Utf8.Decode`).
- Exact commands are not trimmed. `"utc "` is echoed (`CharlieEcho.UtcExamples`).

## Model

| member | source | states |
|---|---|---|
| Utf8.EncodeScalar | src/Util.cs:15 | one character becomes 1 to 4 octets; exactly one when it is ASCII; every octet after the first is a continuation octet |
| Utf8.Encode | src/Util.cs:15 | a string of n characters becomes between n and 4n octets |
| Utf8.Decode | src/Util.cs:25 | `GetString` is total: it never fails and yields at most one character per octet |
| Utf8.DecodeFirstEncodeScalar | src/Util.cs:15-25 | the decoder reads back exactly the character the encoder wrote, and its width, whatever follows |
| Utf8.DecodeEncode | src/Util.cs:15-25 | UTF-8 decoding undoes UTF-8 encoding for every string |
| Base64.Symbol | src/Util.cs:16 | every 6-bit value has an alphabet character, and `Value` maps it back: `Value(Symbol(v)) == v` |
| Base64.SymbolValue | src/Util.cs:16-24 | the other half of the inverse: `Symbol(Value(c)) == c` for every alphabet character |
| Base64.Value | src/Util.cs:24 | every alphabet character stands for a value below 64 |
| Base64.Encode | src/Util.cs:16 | n octets become 4·⌈n/3⌉ characters |
| Base64.Decode | src/Util.cs:24 | the strict decoder: it succeeds only on a length divisible by 4, and 4k characters give between 3k−2 and 3k octets; `DecodeSucceedsIff` and `DecodeErrors` state exactly when it succeeds and which error it reports |
| Base64.DecodeQuads | src/Util.cs:24 | 4k characters decode to between 3k−2 and 3k octets |
| Base64.DecodeQuad | src/Util.cs:24 | a group yields 1 to 3 octets, and fewer than 3 only when it is the last group |
| Base64.DecodeEncodeTriple | src/Util.cs:16-24 | a full group of three octets decodes to those octets, last or not |
| Base64.DecodeEncodePair | src/Util.cs:16-24 | a final two-octet group with one '=' decodes to those two octets |
| Base64.DecodeEncodeSingle | src/Util.cs:16-24 | a final one-octet group with "==" decodes to that octet |
| Base64.DecodeEncode | src/Util.cs:16-24 | `FromBase64String(ToBase64String(b)) == b` for every octet sequence |
| Base64.EncodeWellFormed | src/Util.cs:16 | the encoding has a length divisible by 4, only alphabet characters and '=', and '=' only at the end |
| Base64.EncodeAlphabet | src/Util.cs:16 | every character of the encoding is in A–Z a–z 0–9 + /, except '=' in the last two positions |
| Base64.EncodeTestVectors | src/Util.cs:16 | the seven test vectors of section 10 of RFC 4648 ("" … "foobar") |
| Base64.DecodeQuadSucceeds | src/Util.cs:24 | a group decodes exactly when it has only alphabet characters and '=', with padding allowed only in the last group and only at its end |
| Base64.DecodeQuadFailure | src/Util.cs:24 | a group reported as a bad character has a character outside the alphabet; one reported as bad padding has none |
| Base64.DecodeQuadsSucceeds | src/Util.cs:24 | text whose length is divisible by 4 decodes exactly when it has alphabet characters and '=' only, with '=' only at the end |
| Base64.DecodeSucceedsIff | src/Util.cs:24 | `Decode`, the strict decoder, succeeds if and only if the text is well-formed base64 |
| Base64.DecodeErrors | src/Util.cs:24 | the three failure cases: a wrong length is reported if and only if the length is not divisible by 4; a bad character only if there is one; bad padding only if '=' is misplaced |
| Base64.DecodeQuadsErrors | src/Util.cs:24 | after the length test, a bad-character or bad-padding report names a real defect of the text |
| Base64.DecodeRejects | src/Util.cs:24 | one concrete input for each failure: "Zm9", "Zm9v!A==", "Zg==Zm9v", "Z=9v" |
| Strings.LowerChar | src/CharlieEcho.cs:74 | the result is never an upper-case letter; an upper-case letter becomes the lower-case letter whose upper-case form it is |
| Strings.ToLower | src/CharlieEcho.cs:86-87 | lower-casing keeps the length, so the keyword length indexes the original text |
| Strings.ToLowerEquals | src/CharlieEcho.cs:74-98 | the lower-cased text equals a lower-case word if and only if the text equals the word ignoring letter case |
| Strings.ToLowerStartsWith | src/CharlieEcho.cs:84-103 | the lower-cased text starts with a lower-case word if and only if the text starts with the word in any letter case |
| Strings.StartsWith | src/CharlieEcho.cs:84 | `IndexOf(k) == 0` as an ordinal prefix test; it holds only when the prefix is no longer than the text |
| Strings.StartsWithPointwise | src/CharlieEcho.cs:84 | the prefix test holds if and only if the text agrees with the prefix at each of the prefix's positions |
| Strings.IsWhiteSpace | src/CharlieEcho.cs:87 | the white space that `Trim` drops (the Unicode White_Space characters); none of them is a letter, so lower-casing leaves it alone |
| Strings.TrimStart | src/CharlieEcho.cs:87 | the result is a suffix of the input that does not start with white space |
| Strings.TrimStartDropsWhiteSpace | src/CharlieEcho.cs:87 | everything `TrimStart` drops is white space |
| Strings.TrimEnd | src/CharlieEcho.cs:87 | the result is a prefix of the input that does not end with white space |
| Strings.TrimEndDropsWhiteSpace | src/CharlieEcho.cs:87 | everything `TrimEnd` drops is white space |
| Strings.Trim | src/CharlieEcho.cs:87 | the result is no longer than the input and has no white space at either end |
| Strings.TrimIsSlice | src/CharlieEcho.cs:87 | `Trim` keeps one contiguous piece of its input, and all it drops on both sides is white space |
| Strings.TrimKeepsTrimmed | src/CharlieEcho.cs:87 | text with no white space at either end is unchanged by `Trim` |
| Strings.TrimIdempotent | src/CharlieEcho.cs:87 | trimming twice is trimming once |
| Util.Base64Encode | src/Util.cs:13-17 | the encoding of a string has 4·⌈n/3⌉ characters for its n UTF-8 octets |
| Util.Base64EncodeWellFormed | src/Util.cs:13-17 | what `Base64Encode` returns is well-formed base64 |
| Util.Base64Decode | src/Util.cs:22-26 | fails exactly on text that is not well-formed base64, with the base64 step's error; the UTF-8 step never fails |
| Util.Base64RoundTrip | src/Util.cs:13-26 | `Base64Decode(Base64Encode(s)) == s` for every string |
| Util.Base64EncodeExamples | src/Util.cs:13-17 | "foobar" encodes to "Zm9vYmFy"; "é" (octets C3 A9) encodes to "w6k=" |
| Util.GetWeather | src/Util.cs:31-65 | total; a failure becomes ", error=" followed by the diagnostic; a success is the name, description, temperature, low, high and humidity in that order, each behind its label |
| Util.ErrorMarkerDetectsFailure | src/Util.cs:57-61 | the result starts with ", error=" if and only if the lookup failed, provided the place name is non-empty and does not begin with ',' |
| Util.ErrorMarkerAmbiguous | src/Util.cs:57-61 | without that proviso the marker is ambiguous: a success with an empty name and a description starting "error=" looks like a failure |
| CharlieEcho.Argument | src/CharlieEcho.cs:86-87 | the argument of a prefix command is no longer than the text after the keyword |
| CharlieEcho.Classify | src/CharlieEcho.cs:74-113 | the ladder: the echo carries the whole original text, and each argument is no longer than the text after its keyword; `ClassifyIsFirstMatch` and the `*Command` lemmas state which branch each text takes |
| CharlieEcho.Respond | src/CharlieEcho.cs:74-113 | every branch replies, except `base64decode`, which fails exactly when its argument is not well-formed base64 |
| CharlieEcho.Reply | src/CharlieEcho.cs:65-121 | a non-message activity gets "<type> event detected"; a message without text fails |
| CharlieEcho.TurnContext.constructor | src/CharlieEcho.cs:60 | a turn starts with no effects recorded |
| CharlieEcho.TurnContext.SaveChanges | src/CharlieEcho.cs:68 | saving the conversation state appends one save to the trace |
| CharlieEcho.TurnContext.Send | src/CharlieEcho.cs:116 | sending appends that one reply to the trace |
| CharlieEcho.TurnEffects | src/CharlieEcho.cs:65-121 | a turn has at most two effects, and it saves the state if and only if the activity is a message; `MessageSavesBeforeSending`, `OtherActivity` and `AtMostOneReply` state the order |
| CharlieEcho.OnTurn | src/CharlieEcho.cs:60-122 | the turn returns `Reply` and appends exactly `TurnEffects` to the trace |
| CharlieEcho.FirstMatch | src/CharlieEcho.cs:74-113 | the index returned holds the first pattern that matches; all earlier ones fail; past the end when none matches |
| CharlieEcho.ClassifyIsFirstMatch | src/CharlieEcho.cs:74-113 | the ladder is the first-match policy over the ordered list utc, time, base64encode, base64decode, guid, weather, with the echo as default |
| CharlieEcho.LadderDisjoint | src/CharlieEcho.cs:74-108 | no text passes two of the six tests |
| CharlieEcho.ExactCommands | src/CharlieEcho.cs:74-101 | utc, time and guid are chosen exactly when the whole lower-cased text equals the word |
| CharlieEcho.ExactCommandsIgnoreCase | src/CharlieEcho.cs:74-98 | utc, time and guid are chosen exactly when the whole text equals the word in any letter case |
| CharlieEcho.PrefixCommandsIgnoreCase | src/CharlieEcho.cs:84-103 | base64encode, base64decode and weather are chosen exactly when the text starts with the keyword in any letter case |
| CharlieEcho.EncodeCommand | src/CharlieEcho.cs:84-87 | base64encode is chosen exactly when the lower-cased text starts with it; the argument is the original text after index 12, trimmed |
| CharlieEcho.DecodeCommand | src/CharlieEcho.cs:91-94 | base64decode is chosen exactly when the lower-cased text starts with it; the argument is the original text after index 12, trimmed |
| CharlieEcho.WeatherCommand | src/CharlieEcho.cs:103-106 | weather is chosen exactly when the lower-cased text starts with it; the argument is the original text after index 7, trimmed |
| CharlieEcho.EchoIsDefault | src/CharlieEcho.cs:110-113 | the echo is chosen exactly when none of the six tests holds, and it carries the original, not lower-cased, text |
| CharlieEcho.OtherActivity | src/CharlieEcho.cs:118-121 | a non-message activity sends only "<type> event detected" and does not save the state |
| CharlieEcho.MessageSavesBeforeSending | src/CharlieEcho.cs:68-116 | a message turn saves first and only once, then sends one reply exactly when it has one |
| CharlieEcho.AtMostOneReply | src/CharlieEcho.cs:60-122 | a turn sends at most one reply, and a text is sent if and only if it is the turn's reply |
| CharlieEcho.EncodeReply | src/CharlieEcho.cs:84-88 | the reply to base64encode is "base 64 encoded=" with the encoding of the trimmed argument |
| CharlieEcho.DecodeReply | src/CharlieEcho.cs:91-95 | the reply to base64decode is "your base64 decode=" with the decoded argument; there is none exactly when the argument is not well-formed |
| CharlieEcho.WeatherReply | src/CharlieEcho.cs:103-107 | the reply to weather is "Current weather in " with whatever the lookup for the trimmed argument gave |
| CharlieEcho.EchoReply | src/CharlieEcho.cs:110-113 | a text that passes none of the six tests gets "What does , " + the text as it came + " mean ? " and a line break |
| CharlieEcho.ExactReplies | src/CharlieEcho.cs:74-101 | the replies to utc, time and guid carry the UTC clock, the local clock and the GUID the turn was given |
| CharlieEcho.DecodeFailureSendsNothing | src/CharlieEcho.cs:91-116 | a malformed decode argument saves the state and sends nothing |
| CharlieEcho.FailedLookupStillReplies | src/CharlieEcho.cs:103-107 | a failed weather lookup still gets a reply, and it starts with "Current weather in , error=" |
| CharlieEcho.UtcExamples | src/CharlieEcho.cs:74 | "UTC" and "uTc" are the UTC command; "utc " (trailing space) is echoed |
| CharlieEcho.OtherActivityExample | src/CharlieEcho.cs:118-121 | a "conversationUpdate" activity gets "conversationUpdate event detected" |
| CharlieEcho.EchoExample | src/CharlieEcho.cs:110-113 | "banana" gets "What does , banana mean ? " and a line break |

## Left out

- The weather request itself is not modelled: URL construction, the HTTP call and JSON parsing (src/Util.cs:38-54). It is a parameter returning a `FetchOutcome`. A missing top-level leaf such as `name` casts to null and prints as empty text, so it arrives as a `Fetched` field that may be empty. A missing object on a path becomes `FetchFailed`. The diagnostic is the text of the caught exception.
- The location is concatenated into the URL without escaping (src/Util.cs:38). This is not modelled.
- The commented-out endpoints (src/Util.cs:34-36) are dead code.
- `DateTime.UtcNow`, `DateTime.Now`, `Guid.NewGuid()` and their culture-dependent formatting are opaque strings in `Env`.
- `Environment.NewLine` is the constant "\n"; on Windows it is "\r\n". Every reply lemma is stated with `NewLine`; only the definition of the constant spells out its value.
- Strings.LowerChar: does not model culture-sensitive, non-ASCII case mapping. Only A–Z change, which is all the keywords need.
- Strings.StartsWith: models `IndexOf(keyword) == 0` as an ordinal prefix test. For the ASCII keywords used, culture-sensitive `IndexOf` with ignorable characters is not modelled.
- Base64.Decode: does not model the white space that `FromBase64String` skips inside its input. Decoding is strict section 4 of RFC 4648, and unused padding bits are ignored.
- Utf8.Decode: resumes one octet after any ill-formed sequence. .NET's exact maximal-subpart replacement rule can differ in how many U+FFFD it emits. The round trip uses only well-formed input.
- Strings are sequences of Unicode scalar values. .NET strings are UTF-16 and may hold lone surrogates, which `GetBytes` would replace. This is not modelled.
- Async tasks, cancellation, logging, the constructor's null checks (src/CharlieEcho.cs:35-45) and `CharlieAccessors`: these are framework wiring. CharlieAccessors.cs is not part of this model. The save is one `SaveState` event in the trace.
- A failure of the state save itself, and of sending, are not modelled. Both calls always succeed in the model.
- A message with null text: `ToLower` on it throws after the save. The model reports `NullText` and sends nothing.
