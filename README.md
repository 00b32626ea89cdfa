# Job Finder MCP server tools, modelled in Dafny

`mcp_starter.py` is a small MCP server. It checks a static bearer token and
offers a handful of tools. This project models the logic of those tools and
proves what they promise:

- **`trivia`**: a three-question quiz. Its progress lives in the
  module-global dictionary `trivia_sessions`, modelled by the class
  `Trivia.Game`.
  - The field `sessions` is a `map` from session id to an `{index, score}`
    record.
  - The method `Game.Trivia` updates it the way the Python code does:
    insert, `score += 1`, `index += 1`, `del`.
  - The method is proved equal to the pure step function `Trivia.Step`.
  - The lemmas about `Step` state the quiz rules, the session invariant
    `score <= index < 3`, and the final score of a whole game.
- **`emoji_replacer`** and **`reverse_text`** (`TextTools`): word-by-word
  replacement through a fixed 8-entry table, and reversal with a label.
- **`SimpleBearerAuthProvider.load_access_token`** (`Auth`): an
  exact-equality gate that returns a fixed access-token record.
- **`Fetch`**:
  - `fetch_url`, taking the HTTP response as an input;
  - the search URL of `google_search_links`;
  - its filter loop over the result anchors, as a method with a `while`
    loop and an early `break`.
- **`job_finder`** (`JobFinder`): the branch order. A description wins,
  else a URL, else a goal that asks to "look for" or "find" something,
  else an `INVALID_PARAMS` error. The exact report texts are modelled too.

`PyStr` models the Python `str` built-ins the tools use. These are:
- `isspace`, `strip`, `split()` and `join`;
- `lower` and `upper`;
- the `in` substring test and the `[::-1]` slice;
- `str()` of a non-negative `int`.

A Python `str` is modelled as `seq<char>`, one Unicode scalar value per element (see "## Left out" for lone surrogates).

The repository's project documentation describes an OAuth relay: a consent
cookie, a state codec and a callback. `mcp_starter.py` contains none of it.
This model follows the code.

Error codes are the JSON-RPC 2.0 ones (section 5.1): `INVALID_PARAMS` is
-32602 and `INTERNAL_ERROR` is -32603.

## Model

| member | source | states |
|---|---|---|
| `PyStr.IsSpace` | mcp-starter/mcp-bearer-token/mcp_starter.py:276 | Definition of `str.isspace()`: the control characters U+0009 to U+000D and U+001C to U+001F, the space, U+0085, U+00A0, U+1680, U+2000 to U+200A, U+2028, U+2029, U+202F, U+205F and U+3000. `LowerCharSpace` relates it to `lower()`. |
| `PyStr.StripLeft` | mcp-starter/mcp-bearer-token/mcp_starter.py:276 | `lstrip()`: the result is a suffix of the input. Everything dropped is whitespace. The result starts with a non-space or is empty. |
| `PyStr.StripRight` | mcp-starter/mcp-bearer-token/mcp_starter.py:276 | `rstrip()`: the result is a prefix of the input. Everything dropped is whitespace. The result ends with a non-space or is empty. |
| `PyStr.Strip` | mcp-starter/mcp-bearer-token/mcp_starter.py:276 | `strip()`: both ends of the result are non-space. The result is empty exactly when the input is all whitespace. An input with non-space ends is returned unchanged. Its contents are pinned down by `StripUnique`. |
| `PyStr.StripLeftPre` | mcp-starter/mcp-bearer-token/mcp_starter.py:276 | Whitespace in front of a string does not change its `lstrip()`. |
| `PyStr.StripRightPost` | mcp-starter/mcp-bearer-token/mcp_starter.py:276 | Whitespace behind a string does not change its `rstrip()`. |
| `PyStr.StripLeftThen` | mcp-starter/mcp-bearer-token/mcp_starter.py:276 | When `lstrip()` of a string leaves text, appending to the string appends to that text. |
| `PyStr.StripPadded` | mcp-starter/mcp-bearer-token/mcp_starter.py:151 | Any all-whitespace text before and after a string leaves its `strip()` unchanged. |
| `PyStr.StripUnique` | mcp-starter/mcp-bearer-token/mcp_starter.py:276 | A slice that is empty or has non-whitespace ends, with only whitespace before and after it, is the `strip()` of the string. This determines `strip()` on every string. |
| `PyStr.LowerChar` | mcp-starter/mcp-bearer-token/mcp_starter.py:276 | Definition of `str.lower()` on one character: ASCII capitals map to small letters, U+212A KELVIN SIGN maps to 'k', and every other character is kept. |
| `PyStr.Lower` | mcp-starter/mcp-bearer-token/mcp_starter.py:276 | `lower()`: same length, and each character is mapped by `LowerChar`. |
| `PyStr.UpperChar` | mcp-starter/mcp-bearer-token/mcp_starter.py:289 | Definition of `upper()` on one character: a, b and c become A, B and C. |
| `PyStr.LowerCharSpace` | mcp-starter/mcp-bearer-token/mcp_starter.py:276 | `lower()` maps whitespace to whitespace and anything else to something that is not whitespace. |
| `PyStr.LowerStripped` | mcp-starter/mcp-bearer-token/mcp_starter.py:276 | Lower-casing a stripped string leaves it stripped. |
| `PyStr.LowerIdempotent` | mcp-starter/mcp-bearer-token/mcp_starter.py:164 | Lower-casing twice equals lower-casing once. |
| `PyStr.Contains` | mcp-starter/mcp-bearer-token/mcp_starter.py:113 | Definition of `p in s`: `s` starts with `p`, or its tail contains `p`. `ContainsIffOccurs` states what it means. |
| `PyStr.ContainsIffOccurs` | mcp-starter/mcp-bearer-token/mcp_starter.py:113 | `p in s` holds exactly when `p` occurs at some index of `s`. |
| `PyStr.OccursContains` | mcp-starter/mcp-bearer-token/mcp_starter.py:113 | An occurrence at any index makes `p in s` true. |
| `PyStr.ContainsOccurs` | mcp-starter/mcp-bearer-token/mcp_starter.py:113 | `p in s` yields an index where `p` occurs. |
| `PyStr.WordPrefix` | mcp-starter/mcp-bearer-token/mcp_starter.py:244 | The maximal whitespace-free prefix: it holds no space, and its next character is a space. |
| `PyStr.Split` | mcp-starter/mcp-bearer-token/mcp_starter.py:244 | `split()`: every part is a non-empty run without whitespace. `SplitEmpty`, `SplitSpaceThen` and `SplitWordThen` together fix its result on every string. |
| `PyStr.SplitWordThen` | mcp-starter/mcp-bearer-token/mcp_starter.py:244 | A word followed by whitespace or by nothing splits off as exactly that word. |
| `PyStr.SplitSpaceThen` | mcp-starter/mcp-bearer-token/mcp_starter.py:244 | A leading whitespace character, of any kind, does not change the split. |
| `PyStr.SplitEmpty` | mcp-starter/mcp-bearer-token/mcp_starter.py:244 | The empty string splits into no words. |
| `PyStr.Join` | mcp-starter/mcp-bearer-token/mcp_starter.py:246 | Definition of `sep.join(parts)`: the parts with `sep` between each two. `SplitJoin` inverts it for single spaces. |
| `PyStr.SplitJoin` | mcp-starter/mcp-bearer-token/mcp_starter.py:244-246 | Splitting words joined by single spaces gives the same words back. |
| `PyStr.WordPrefixOfWord` | mcp-starter/mcp-bearer-token/mcp_starter.py:244 | The maximal whitespace-free prefix of a word followed by whitespace is that word. |
| `PyStr.LowerFixed` | mcp-starter/mcp-bearer-token/mcp_starter.py:276 | A string with no character that `lower()` changes is its own lower case. |
| `PyStr.Reverse` | mcp-starter/mcp-bearer-token/mcp_starter.py:220 | `s[::-1]`: same length, and character `i` is character `len-1-i` of the input. |
| `PyStr.ReverseReverse` | mcp-starter/mcp-bearer-token/mcp_starter.py:220 | Reversing twice gives the original string. |
| `PyStr.NatToString` | mcp-starter/mcp-bearer-token/mcp_starter.py:304 | `str(n)`: non-empty, decimal digits only, no leading zero. |
| `PyStr.NatToStringValue` | mcp-starter/mcp-bearer-token/mcp_starter.py:304 | The digits of `str(n)` read back as `n`. |
| `Auth.LoadAccessToken` | mcp-starter/mcp-bearer-token/mcp_starter.py:32-40 | A record is returned exactly when the presented token equals the configured one. The record carries that token, client "puch-client", scopes `["*"]` and no expiry. |
| `Auth.OnlyOneToken` | mcp-starter/mcp-bearer-token/mcp_starter.py:33 | Any two accepted tokens are the same string. |
| `Auth.OwnTokenAccepted` | mcp-starter/mcp-bearer-token/mcp_starter.py:27-40 | A provider built with a token accepts that token with the fixed record. |
| `TextTools.ReverseText` | mcp-starter/mcp-bearer-token/mcp_starter.py:220-221 | The reply is "Reversed Text: " followed by the text backwards. It is 15 characters longer than the text. |
| `TextTools.ReverseTextInverse` | mcp-starter/mcp-bearer-token/mcp_starter.py:220-221 | Reversing what follows the label gives the text back. |
| `TextTools.ReplaceWord` | mcp-starter/mcp-bearer-token/mcp_starter.py:245 | Definition of `replacements.get(word.lower(), word)`. `ReplaceIgnoresCase` and `ReplaceWordIsWord` state its properties. |
| `TextTools.ReplaceAll` | mcp-starter/mcp-bearer-token/mcp_starter.py:245 | The list comprehension: same length, and element `i` is the replacement of word `i`. |
| `TextTools.ReplaceWordIsWord` | mcp-starter/mcp-bearer-token/mcp_starter.py:233-242 | Every emoji of the table is whitespace-free, so a replaced word is still a word. |
| `TextTools.EmojiReplacer` | mcp-starter/mcp-bearer-token/mcp_starter.py:244-248 | Splitting the output gives exactly the replaced words of the split input. The output is those words joined by single spaces, with no whitespace before or after. |
| `TextTools.EmojiReplacerWords` | mcp-starter/mcp-bearer-token/mcp_starter.py:244-246 | The output has as many words as the split input. Word `i` is the table entry for the lower case of input word `i` if there is one, else that word unchanged. |
| `TextTools.ReplaceIgnoresCase` | mcp-starter/mcp-bearer-token/mcp_starter.py:245 | For every word: a word whose lower case is in the table is replaced like its lower case. A word whose lower case is not in the table is kept as typed. |
| `Fetch.RawNotice` | mcp-starter/mcp-bearer-token/mcp_starter.py:83 | Definition of the notice for content that is not simplified. It names the content type. `FetchNotice` states when it is returned. |
| `Fetch.FetchUrl` | mcp-starter/mcp-bearer-token/mcp_starter.py:59-84 | The result is an error exactly on a transport error or a status of 400 or more, and the error code is `INTERNAL_ERROR`. For HTML that is not forced raw, the result is the simplified page with an empty notice. Otherwise it is the raw body with the content-type notice. |
| `Fetch.FetchNotice` | mcp-starter/mcp-bearer-token/mcp_starter.py:78-84 | On success the notice is empty exactly for HTML that is not forced raw. |
| `Fetch.FetchStatusMessage` | mcp-starter/mcp-bearer-token/mcp_starter.py:70-71 | The status error message ends in the decimal status code, which reads back as the status. |
| `Fetch.ReplaceSpaces` | mcp-starter/mcp-bearer-token/mcp_starter.py:101 | `replace(' ', '+')`: same length, with every space turned into '+' and every other character kept. |
| `Fetch.SearchUrl` | mcp-starter/mcp-bearer-token/mcp_starter.py:101 | The search URL is the DuckDuckGo endpoint followed by the query, character by character, with each space written as '+'. It holds no space after the endpoint. |
| `Fetch.SearchUrlVerbatim` | mcp-starter/mcp-bearer-token/mcp_starter.py:101 | A query without spaces goes into the URL as it is. |
| `Fetch.HttpLinks` | mcp-starter/mcp-bearer-token/mcp_starter.py:111-114 | The hrefs that contain "http": never more than the input, and each contains "http". |
| `Fetch.HttpLinksMembers` | mcp-starter/mcp-bearer-token/mcp_starter.py:113-114 | A string is kept exactly when it is an href that contains "http". |
| `Fetch.HttpLinksAppend` | mcp-starter/mcp-bearer-token/mcp_starter.py:111-114 | Filtering distributes over concatenation. |
| `Fetch.HttpLinksSubsequence` | mcp-starter/mcp-bearer-token/mcp_starter.py:111-114 | The kept hrefs appear in the input in the same order. |
| `Fetch.SubsequenceSkip` | mcp-starter/mcp-bearer-token/mcp_starter.py:111-114 | A subsequence of the tail is a subsequence of the whole. |
| `Fetch.SubsequenceDrop` | mcp-starter/mcp-bearer-token/mcp_starter.py:111-114 | Dropping the first element of a subsequence leaves a subsequence. |
| `Fetch.SubsequencePrefix` | mcp-starter/mcp-bearer-token/mcp_starter.py:115-116 | A prefix of a subsequence is a subsequence. |
| `Fetch.KeptLinks` | mcp-starter/mcp-bearer-token/mcp_starter.py:111-116 | Definition of the links the loop keeps: the first `num_results` hrefs that contain "http", or for a limit below 1 the first href if it contains "http". `KeptLinksPrefix` and `KeptLinksInOrder` state its properties. |
| `Fetch.SearchLinks` | mcp-starter/mcp-bearer-token/mcp_starter.py:106-118 | Definition of the result of `google_search_links` after the request. `SearchLinksShape`, `NothingFound` and `GoogleSearchLinks` state its properties. |
| `Fetch.GoogleSearchLinks` | mcp-starter/mcp-bearer-token/mcp_starter.py:104-118 | The loop with its early `break` returns `SearchLinks`: the failure marker for a status other than 200, otherwise the kept links, or the "No results found" marker when none are kept. |
| `Fetch.KeptAtBreak` | mcp-starter/mcp-bearer-token/mcp_starter.py:115-116 | Where the loop breaks, the links kept so far are exactly `KeptLinks`. |
| `Fetch.SearchLinksShape` | mcp-starter/mcp-bearer-token/mcp_starter.py:111-118 | The list is never empty. It has at most `num_results` entries, or one when the limit is not positive. Every entry is an href of the page containing "http" or one of the error markers. |
| `Fetch.KeptLinksPrefix` | mcp-starter/mcp-bearer-token/mcp_starter.py:111-116 | The kept links are the first ones of all "http" hrefs. |
| `Fetch.KeptLinksInOrder` | mcp-starter/mcp-bearer-token/mcp_starter.py:111-116 | The kept links appear in the page in the same order. |
| `Fetch.NoLinks` | mcp-starter/mcp-bearer-token/mcp_starter.py:113 | An href list with no "http" href keeps nothing. |
| `Fetch.NothingFound` | mcp-starter/mcp-bearer-token/mcp_starter.py:118 | When no href contains "http", the result is exactly `["<error>No results found.</error>"]`. |
| `Fetch.ZeroLimitKeepsFirst` | mcp-starter/mcp-bearer-token/mcp_starter.py:113-116 | With `num_results` of 0, a first href that contains "http" is still kept, because the length test follows the append. |
| `JobFinder.IsSearchGoal` | mcp-starter/mcp-bearer-token/mcp_starter.py:164 | Definition of the search test: the lower-cased goal contains "look for" or "find". `SearchGoalAnyCase` states that case does not matter. |
| `JobFinder.RouteOf` | mcp-starter/mcp-bearer-token/mcp_starter.py:148-171 | Branch priority, each branch as an if-and-only-if. A non-empty description wins. Otherwise a URL. Otherwise a goal whose lower case contains "look for" or "find". Otherwise rejection. |
| `JobFinder.DescriptionReport` | mcp-starter/mcp-bearer-token/mcp_starter.py:149-154 | Definition of the description report text, with the stripped description. `DescriptionStripped` states that padding does not matter. |
| `JobFinder.PageReport` | mcp-starter/mcp-bearer-token/mcp_starter.py:158-162 | Definition of the fetched-page report text, with the stripped page content. |
| `JobFinder.Bullets` | mcp-starter/mcp-bearer-token/mcp_starter.py:168 | One "- " line per link, in order. |
| `JobFinder.SearchReport` | mcp-starter/mcp-bearer-token/mcp_starter.py:166-169 | Definition of the search report text: the header, then the bullets joined by newlines. `NoResultsReport` and `EmptySearchReport` state the empty case. |
| `JobFinder.JobFinder` | mcp-starter/mcp-bearer-token/mcp_starter.py:148-171 | The result is the `INVALID_PARAMS` error exactly in the rejection branch. A description gives the description report. A URL succeeds exactly when the fetch does. A search gives the report over `SearchLinks` with 5 results. |
| `JobFinder.FetchedPage` | mcp-starter/mcp-bearer-token/mcp_starter.py:156-162 | In the URL branch, a fetched page is reported with its text. A failed fetch is that fetch's own `INTERNAL_ERROR`. |
| `JobFinder.DescriptionWins` | mcp-starter/mcp-bearer-token/mcp_starter.py:148-154 | With a non-empty description, neither the URL nor the page nor the search results change the result. |
| `JobFinder.UrlBeforeSearch` | mcp-starter/mcp-bearer-token/mcp_starter.py:156-164 | With a URL and no usable description, the search results do not change the result. |
| `JobFinder.DescriptionStripped` | mcp-starter/mcp-bearer-token/mcp_starter.py:151 | Any all-whitespace text before and after the description leaves the report unchanged. |
| `JobFinder.SearchGoalAnyCase` | mcp-starter/mcp-bearer-token/mcp_starter.py:164 | A goal and its lower case are searches alike. |
| `JobFinder.NoResultsReport` | mcp-starter/mcp-bearer-token/mcp_starter.py:166-168 | The report over the "No results found" marker alone is the header followed by that marker as one bullet. |
| `JobFinder.EmptySearchReport` | mcp-starter/mcp-bearer-token/mcp_starter.py:165-169 | A successful search whose anchors hold no "http" href reports the "No results found" marker as its one bullet. |
| `Trivia.Normalize` | mcp-starter/mcp-bearer-token/mcp_starter.py:276 | Definition of `command.strip().lower()`. `NormalizeIdempotent` and `ParsePadded` state its properties. |
| `Trivia.NormalizeIdempotent` | mcp-starter/mcp-bearer-token/mcp_starter.py:276 | Normalising a normalised command changes nothing. |
| `Trivia.MatchAnswer` | mcp-starter/mcp-bearer-token/mcp_starter.py:284 | A match means the command is "trivia answer " followed by a, b or c, then anything. |
| `Trivia.MatchAnswerPrefix` | mcp-starter/mcp-bearer-token/mcp_starter.py:284 | Conversely, every such string matches: the match is anchored at the start only. |
| `Trivia.Interpret` | mcp-starter/mcp-bearer-token/mcp_starter.py:278-290 | An answer always carries an upper-case letter A, B or C. |
| `Trivia.Parse` | mcp-starter/mcp-bearer-token/mcp_starter.py:276-290 | A command means start exactly when it normalises to "trivia start". An answer always carries A, B or C. |
| `Trivia.ParsePadded` | mcp-starter/mcp-bearer-token/mcp_starter.py:276 | Any all-whitespace text before and after a command leaves its meaning unchanged. |
| `Trivia.ParseStart` | mcp-starter/mcp-bearer-token/mcp_starter.py:276-278 | Any command that strips and lower-cases to "trivia start" is the start command. |
| `Trivia.InterpretAnswer` | mcp-starter/mcp-bearer-token/mcp_starter.py:284-290 | "trivia answer x..." with x one of a, b, c is an answer with the upper-cased letter. |
| `Trivia.ParseInvalid` | mcp-starter/mcp-bearer-token/mcp_starter.py:278-310 | Everything else is the invalid command. |
| `Trivia.ReplyText` | mcp-starter/mcp-bearer-token/mcp_starter.py:280-310 | Definition of every reply text: question 1 after a start, the missing-session text, the verdict with the next question, the verdict with the final score out of 3, and the usage text. |
| `Trivia.Step` | mcp-starter/mcp-bearer-token/mcp_starter.py:276-310 | Every call keeps the invariant `score <= index < 3` for every session, and the reply is well formed. |
| `Trivia.StartResets` | mcp-starter/mcp-bearer-token/mcp_starter.py:276-282 | `trivia start`, whatever the case and the surrounding whitespace, sets the session to index 0 and score 0 whatever came before, and replies with question 1. |
| `Trivia.AnswerWithoutSession` | mcp-starter/mcp-bearer-token/mcp_starter.py:285-287 | An answer with no session replies "No trivia session found..." and leaves the table unchanged. |
| `Trivia.AnswerNextQuestion` | mcp-starter/mcp-bearer-token/mcp_starter.py:289-308 | Before the last question, the index goes up by exactly 1. The score goes up by 1 exactly when the letter is the question's answer. The reply gives the verdict and the next question. |
| `Trivia.AnswerLastQuestion` | mcp-starter/mcp-bearer-token/mcp_starter.py:289-304 | The last answer deletes the session and reports the earlier score, plus 1 if correct, out of 3. |
| `Trivia.InvalidUnchanged` | mcp-starter/mcp-bearer-token/mcp_starter.py:278-310 | A command that is neither start nor an answer replies with the usage text and changes no state. |
| `Trivia.OtherSessionsUntouched` | mcp-starter/mcp-bearer-token/mcp_starter.py:274 | Only the "default_session" entry is ever added, changed or deleted. |
| `Trivia.Run` | mcp-starter/mcp-bearer-token/mcp_starter.py:276-310 | A sequence of calls gives one reply per call and keeps the invariant. |
| `Trivia.AnswerCommands` | mcp-starter/mcp-bearer-token/mcp_starter.py:284 | One typed answer command per letter. |
| `Trivia.Answers` | mcp-starter/mcp-bearer-token/mcp_starter.py:290 | One parsed answer per letter. |
| `Trivia.ParseAll` | mcp-starter/mcp-bearer-token/mcp_starter.py:276 | One parsed command per typed command. |
| `Trivia.PlainStrip` | mcp-starter/mcp-bearer-token/mcp_starter.py:276 | Lower-case ASCII text with non-space ends is unchanged by `strip()`. |
| `Trivia.PlainLower` | mcp-starter/mcp-bearer-token/mcp_starter.py:276 | Lower-case ASCII text is unchanged by `lower()`. |
| `Trivia.PlainNormal` | mcp-starter/mcp-bearer-token/mcp_starter.py:276 | Such text is already normalised. |
| `Trivia.AnswerCommandNormal` | mcp-starter/mcp-bearer-token/mcp_starter.py:276 | "trivia answer x" is already normalised. |
| `Trivia.StartCommandNormal` | mcp-starter/mcp-bearer-token/mcp_starter.py:276-278 | "trivia start" is already normalised. |
| `Trivia.ParseAnswerCommand` | mcp-starter/mcp-bearer-token/mcp_starter.py:276-290 | "trivia answer x" means an answer with the upper-cased x. |
| `Trivia.ParseAnswerCommands` | mcp-starter/mcp-bearer-token/mcp_starter.py:276-290 | Typed answer commands parse to their answers, in order. |
| `Trivia.ParseGame` | mcp-starter/mcp-bearer-token/mcp_starter.py:276-290 | "trivia start" followed by typed answers parses to start followed by the answers. |
| `Trivia.PlayRest` | mcp-starter/mcp-bearer-token/mcp_starter.py:289-304 | From a session at question `k` with some score, answering the remaining questions deletes the session. The last reply gives that score plus the number of remaining correct answers. |
| `Trivia.FullGame` | mcp-starter/mcp-bearer-token/mcp_starter.py:278-304 | Start then three answers, whatever the table held before: four replies, the first the start. The session is gone at the end. The score is the number of correct answers out of 3. |
| `Trivia.Game.constructor` | mcp-starter/mcp-bearer-token/mcp_starter.py:263 | The table starts empty and valid. |
| `Trivia.Game.Trivia` | mcp-starter/mcp-bearer-token/mcp_starter.py:266-310 | The tool leaves exactly `Step`'s table in `sessions` and returns exactly the text of `Step`'s reply. It also keeps the invariant. |
| `Trivia.Game.Dispatch` | mcp-starter/mcp-bearer-token/mcp_starter.py:278-310 | The same, on the normalised command. |
| `Trivia.Game.Score` | mcp-starter/mcp-bearer-token/mcp_starter.py:289-308 | The answer branch, with a session present, updates in place: `score += 1`, `index += 1` and `del`. It ends in `Step`'s table with `Step`'s reply text. |

## Left out

- HTTP I/O: `fetch_url` and `google_search_links` take the response they would have received as an input.
  - The model covers the status tests and the content-type branch.
  - It does not cover timeouts, redirects or the user agent header.
  - An `httpx` error raised by the search request (not caught in the source) is not modelled.
- `extract_content_from_html` (readabilipy and markdownify) is a foreign library. Its output is an input (`simplified`) of `FetchUrl`.
- BeautifulSoup parsing is a foreign library. The hrefs of the `a.result__a` anchors are an input, in document order.
- Pydantic `AnyUrl` validation and normalisation is a foreign library. A URL is the text that `str(job_url)` would give.
- `make_img_black_and_white` (PIL and base64) is image processing in foreign libraries.
- `validate` returns an environment variable.
- Environment loading, the startup asserts, RSA key generation, FastMCP construction, tool registration and `main` are hosting. `TOKEN` appears only as the provider's configured token. `MY_NUMBER` appears only as the reply of `validate`, which is left out.
- `RichToolDescription` is description metadata with no logic.
- `PyStr.Lower` maps ASCII capitals and U+212A KELVIN SIGN.
  - The other non-ASCII case mappings of `str.lower()` are not modelled.
  - Only two non-ASCII characters lower-case to something holding an ASCII letter: KELVIN SIGN becomes "k", and U+0130 becomes "i" followed by U+0307.
  - The model keeps U+0130 as it is. The U+0307 always follows that "i", and no key of the emoji table, no "find" or "look for" and no "trivia ..." command holds an "i" followed by U+0307, so no comparison the tools make can differ.
- Strings: a Dafny `char` is a Unicode scalar value. A Python `str` can also hold lone surrogates (U+D800 to U+DFFF), which the model cannot represent.
- `PyStr.UpperChar` maps ASCII small letters only.
  - The only letters it is applied to are a, b and c.
- `Trivia.Game.Trivia` is split into `Dispatch` and `Score`.
  - The split keeps each proof small.
  - The statements and their order are those of the source.
- The Python `session` dictionary is mutable and shared with the table.
  - The model writes the record back into the map after each change.
  - Nothing else holds a reference to it, so no aliasing is lost.
- `Trivia.FullGame` is stated over a game in which `ParseGame` turns the typed commands into parsed ones.
- Asynchrony (`async`/`await`) and concurrent tool calls are not modelled. Each call runs on its own.
