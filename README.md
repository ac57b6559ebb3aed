# bahaAİ news bulletin — a Dafny model of its core

bahaAİ is a single-page news viewer. It asks a language model for a daily AI-news
digest, shows each item as a bilingual card, and fires one local notification a day.
This project models the three pieces of real logic in it and proves their properties.

- **The reply sanitiser** (`fetchDailyNews`, module `GeminiService`).
  - The model's reply text defaults to `"[]"`. It is stripped of code fences and
    trimmed. It is then cut from the first `[` to the last `]` and parsed.
  - The grounding chunks become a source list. Uncited chunks are dropped, and
    sources are deduplicated by url the way a JavaScript `Map` does it.
- **The notification service** (module `NotificationService`).
  - The permission decision table.
  - The permission guard in `sendNotification`.
  - The once-a-day gate over the persisted `lastNotificationDate` key.
  - The browser state these touch is the class `Browser`: permission, `localStorage`,
    the notifications shown and the prompts asked.
- **The card text** (module `NewsCard`).
  - The placeholder image chosen by the card index.
  - The title with its Markdown heading marker removed.
  - The content as a sequence of blocks (list item, break, paragraph). Each block
    holds plain and bold segments.

The JavaScript built-ins these rely on are written out in module `JsStrings`, with
their edge cases:

- `trim` and the regular-expression `\s` class;
- `replace(/…/g, '')`;
- `indexOf` and `lastIndexOf` (which give −1);
- `substring` (clamps and swaps its arguments);
- `slice` (negative indices);
- `split('\n')`.

Modules `Types` and `Constants` mirror `types.ts` and `constants.ts`. `Wrappers`
holds `Option` and `Result`.

Foreign calls and ambient inputs are parameters:

- `JSON.parse` is a function `string -> Option<seq<NewsItem>>`, where `None` means it
  threw.
- The outcome of the language-model call is a `Result`, where `Failure` means
  anything in the `try` threw.
- The clock is two inputs: the ISO timestamp and the hour in Europe/Istanbul.
- The user's answer to the permission prompt is an input.

Four behaviours of the code are easy to misread. The model follows the code in each:

- **Dedup keeps the last title.** One might expect the first-seen title to win for a
  repeated url. The code builds `new Map(pairs)`, which keeps the url's first
  position but takes the value of the **last** pair. `DedupExample` proves the
  result for `[a:X, a:Y, b:Z]`: it is `[a:Y, b:Z]`.
- **The gate writes without permission.** One might expect nothing to change while
  permission is not granted. The gate does not check permission:
  `sendNotification` then does nothing, but the date is still written.
- **Missing `Notification` throws.** `sendNotification` reads
  `Notification.permission` without checking that `Notification` exists. Where it
  is missing, the call throws, the date is not written, and every later call from
  11:00 on tries again (`RunUnsupported`).
- **The array must be delimited.** Surrounding prose is not simply skipped: the code
  cuts between the first `[` and the last `]` of the whole reply. So prose with a
  `[` before the array or a `]` after it moves the cut. `ProseAroundArrayIgnored`
  states the guarantee for prose without them, and for a reply with no "```" inside
  it; single backticks, as in inline code, are allowed.

## Model

| member | source | states |
|---|---|---|
| `JsStrings.Trim` | services/geminiService.ts:58 | the result is a contiguous infix of the input; everything cut from either end is whitespace, and the result neither starts nor ends with whitespace |
| `JsStrings.TrimEmptyIff` | components/NewsCard.tsx:45 | a line trims to "" exactly when every character is whitespace |
| `JsStrings.RemoveAll` | services/geminiService.ts:58 | removing every occurrence never lengthens the text, and a text without the pattern is unchanged |
| `JsStrings.IndexOf` | services/geminiService.ts:61 | −1 exactly when the character is absent; otherwise its position, with no earlier occurrence |
| `JsStrings.LastIndexOf` | services/geminiService.ts:62 | −1 exactly when the character is absent; otherwise its position, with no later occurrence |
| `JsStrings.Substring` | services/geminiService.ts:67 | in-range arguments give the slice between them, and arguments in the wrong order are swapped |
| `JsStrings.Slice` | components/NewsCard.tsx:59 | a negative end counts back from the length, and an end at or before the start gives "" |
| `JsStrings.Split` | components/NewsCard.tsx:36 | at least one piece, and no piece contains the separator |
| `JsStrings.SplitCount` | components/NewsCard.tsx:36 | the number of pieces is the number of separators plus one |
| `JsStrings.JoinSplit` | components/NewsCard.tsx:36 | joining the pieces with the separator gives back the text |
| `JsStrings.SplitJoin` | components/NewsCard.tsx:36 | splitting separator-free pieces joined by the separator gives back the pieces |
| `GeminiService.ReplyText` | services/geminiService.ts:55 | the text is never empty: a missing or empty reply stands for "[]", any other reply is kept as it is |
| `GeminiService.CleanReply` | services/geminiService.ts:58 | the cleaned reply contains no "```" and neither starts nor ends with whitespace |
| `GeminiService.ReplyItems` | services/geminiService.ts:55-75 | when the cleaned reply's bracket candidate parses, its items are returned unchanged; non-empty items come only from such a parse, and the candidate holds no "```" |
| `GeminiService.JsonCandidate` | services/geminiService.ts:61-67 | no candidate exactly when `[` or `]` is missing; when the first `[` precedes the last `]`, the candidate is the inclusive text between them and starts with `[` and ends with `]`; otherwise it is the text strictly between them |
| `GeminiService.RemoveFenceLeavesNone` | services/geminiService.ts:58 | after every "```" is deleted no "```" is left, and a first character that is not a backtick survives |
| `GeminiService.MissingTextGivesNoItems` | services/geminiService.ts:55-75 | a missing or empty reply text gives no items and no failure |
| `GeminiService.NoBracketsNoParse` | services/geminiService.ts:61-66 | without both brackets the parser is not consulted: any two parsers give the same empty list |
| `GeminiService.FencesAroundBodyRemoved` | services/geminiService.ts:58 | a body without "```" comes out of fence removal unchanged, whether or not it was wrapped in "```json" … "```" |
| `GeminiService.RemoveClosingFence` | services/geminiService.ts:58 | a closing "```" after a fence-free body is removed and the body kept, even when the body ends in one or two backticks |
| `GeminiService.CandidateOfTrimmedBody` | services/geminiService.ts:58-67 | trimming keeps an array flanked by `[`-free prose and `]`-free prose as the parse candidate |
| `GeminiService.ProseAroundArrayIgnored` | services/geminiService.ts:55-75 | for a reply without "```" inside it, fences, surrounding whitespace and such prose are ignored: the items are the array's parse, or empty when it does not parse |
| `GeminiService.ParseCandidate` | services/geminiService.ts:61-75 | without a candidate the items are empty; otherwise they are the parse of the candidate, or empty when parsing throws |
| `GeminiService.RawChunks` | services/geminiService.ts:78 | when the first candidate's metadata has grounding chunks they are returned unchanged; a non-empty result comes only from there, so anything missing gives none |
| `GeminiService.FilterSources` | services/geminiService.ts:79-84 | every cited chunk yields its source and every source comes from a cited chunk, with non-empty url and title |
| `GeminiService.FilterSourcesAppend` | services/geminiService.ts:79-84 | the filter keeps chunk order: it distributes over concatenation |
| `GeminiService.DedupSources` | services/geminiService.ts:87 | the result has each url of the input exactly once, in first-occurrence order, each with the title of its last source |
| `GeminiService.DedupStep` | services/geminiService.ts:87 | one `Map.set` keeps the insertion-order keys and last-value map in step with the sources read so far |
| `GeminiService.DedupIsUnique` | services/geminiService.ts:87 | that description determines the list: two lists meeting it are equal |
| `GeminiService.DedupExample` | services/geminiService.ts:87 | `[a:X, a:Y, b:Z]` deduplicates to `[a:Y, b:Z]` |
| `GeminiService.FetchDailyNews` | services/geminiService.ts:55-97 | a failed client call is the single error "Failed to generate news bulletin." and nothing else fails; on success the items are those of the cleaned reply and the sources are the deduplicated cited chunks |
| `NotificationService.Decide` | services/notificationService.ts:2-18 | the user is asked exactly when notifications are supported and permission is still default; the result is true exactly for an existing grant or a granted answer to that prompt |
| `NotificationService.StoredDate` | services/notificationService.ts:44 | a date is read exactly when the `lastNotificationDate` key is present, and it is that key's value |
| `NotificationService.Today` | services/notificationService.ts:43 | the date is the longest `T`-free prefix of the ISO timestamp: it holds no `T` and is followed by `T` or the end |
| `NotificationService.Gate` | services/notificationService.ts:43-57 | a stored date equal to today stops the gate; otherwise it fires exactly when the hour is 11 or later |
| `NotificationService.Tick` | services/notificationService.ts:44-62 | no key other than `lastNotificationDate` changes; that key either keeps its value or becomes today; the store changes only when the gate fires and `Notification` exists, and then today's date is written |
| `NotificationService.Run` | services/notificationService.ts:38-64 | repeated calls on one day: at most one dispatch attempt per call, and the final store is the first one or it with today's date written |
| `NotificationService.RunAfterSent` | services/notificationService.ts:46-48 | once today's date is stored, no later call that day dispatches or writes, at any hour |
| `NotificationService.RunBeforeEleven` | services/notificationService.ts:57 | calls before 11:00 neither dispatch nor write, whatever is stored |
| `NotificationService.RunOncePerDay` | services/notificationService.ts:38-64 | over a day's calls, with a browser that does not throw: at most one dispatch; exactly one when the stored date is not today and some call is at 11:00 or later; and then the store holds today's date, with nothing else changed |
| `NotificationService.RunUnsupported` | services/notificationService.ts:21-62 | without `Notification` the store never changes and every call from 11:00 on is a new, throwing attempt |
| `NotificationService.Browser.RequestNotificationPermission` | services/notificationService.ts:2-18 | the result, the prompt count and the new permission follow the decision table; a true result leaves permission granted |
| `NotificationService.Browser.SendNotification` | services/notificationService.ts:20-36 | with a `Notification` constructor that does not throw: throws exactly when `Notification` is missing; appends one notification with the fixed icon, vibration and tag exactly when permission is granted |
| `NotificationService.Browser.CheckAndTriggerScheduledNotification` | services/notificationService.ts:38-64 | the store follows `Tick` for today's UTC date; the daily notification is shown exactly when the gate fires under a grant; the call throws exactly when the gate fires without `Notification` |
| `NewsCard.TruncRem` | components/NewsCard.tsx:12 | JavaScript `%`: the dividend minus the remainder is a multiple of the divisor, and the remainder lies strictly between −b and b with the sign of the dividend |
| `NewsCard.ImageFor` | components/NewsCard.tsx:12 | a non-negative index shows placeholder `index % 6`; a negative index shows the first image when it is a multiple of six and none otherwise |
| `NewsCard.ImageCycle` | components/NewsCard.tsx:12 | cards six apart share an image and neighbouring cards never do |
| `NewsCard.StripHeading` | components/NewsCard.tsx:76 | a title opening with a run of `#` and one whitespace character loses exactly those; any other title is unchanged |
| `NewsCard.StripHeadingOnce` | components/NewsCard.tsx:76 | only one marker is removed ("## # x" gives "# x"), and `#` without whitespace stays |
| `NewsCard.FindClose` | components/NewsCard.tsx:56 | the lazy match finds a `**` with no line terminator and no earlier `**` before it |
| `NewsCard.MatchEndIff` | components/NewsCard.tsx:56 | the match starting at a position ends at `e` exactly when the text between is a bold token |
| `NewsCard.SplitFromConcat` | components/NewsCard.tsx:56 | the split's parts concatenate back to the text, since the capture group keeps every separator |
| `NewsCard.SplitFrom` | components/NewsCard.tsx:56 | the split from any point yields an odd number of parts: one more plain piece than bold tokens |
| `NewsCard.SplitFromKinds` | components/NewsCard.tsx:56 | odd parts are bold tokens, and even parts contain no bold token anywhere |
| `NewsCard.BoldParts` | components/NewsCard.tsx:56 | for any text, the parts are odd in number, alternate plain pieces and bold tokens, concatenate back to the text, and follow the leftmost-match rule |
| `NewsCard.SplitFromLeftmost` | components/NewsCard.tsx:56 | each plain piece runs from the end of the previous match to the first position where a match starts, or to the end, and the part after it is that match |
| `NewsCard.RenderPart` | components/NewsCard.tsx:58-61 | a part wrapped in `**` becomes bold without them (empty when they overlap, as for "**" and "***"); any other part stays plain and unchanged |
| `NewsCard.ParseBold` | components/NewsCard.tsx:55-63 | one segment per part, each the rendering of its part (so plain parts are shown unchanged), an odd number of them, and every odd-numbered segment is bold |
| `NewsCard.ParseBoldSegments` | components/NewsCard.tsx:55-63 | one segment per part, and every bold token becomes a bold segment of its inner text |
| `NewsCard.ParseBoldNoStars` | components/NewsCard.tsx:55-63 | a text without `*` is a single plain segment |
| `NewsCard.ParseBoldExamples` | components/NewsCard.tsx:55-63 | "x **b**" gives plain "x ", bold "b" and plain ""; "**" alone gives an empty bold segment |
| `NewsCard.ClassifyLine` | components/NewsCard.tsx:38-49 | a list item exactly for a "- " or "* " prefix, holding the rest of the line; otherwise a break exactly for an all-whitespace line; otherwise a paragraph of the whole line |
| `NewsCard.RenderContent` | components/NewsCard.tsx:35-52 | one block per line: the number of newlines plus one |
| `NewsCard.RenderContentLines` | components/NewsCard.tsx:35-52 | lines joined by newlines come back as their own blocks, in order |

## Left out

- The language-model client is left out: the prompt, the model name, the search tool and the network call. Only its outcome is an input.
- `JSON.parse` is left out. It is an abstract parser, and its result is taken as a list of items without a shape check, as the code does. A parse that yields a non-array value is not distinguished.
- `ReplyItems` and `FetchDailyNews` do not model exceptions raised after the client call. Examples are a `null` entry among the grounding chunks, or a `groundingChunks` value that is truthy but not an array, so that `.filter` is not a function. Any such exception becomes the same error message.
- Chunk fields are optional strings, so a truthy non-string `uri` or `title`, which the filter lets through into the sources, cannot be represented.
- `ProseAroundArrayIgnored` is stated only for replies with no "```" between the fences, because the code deletes such a fence inside the array too, which changes the text parsed.
- SendNotification, CheckAndTriggerScheduledNotification and RunOncePerDay assume the browser throws only when `Notification` is missing. `new Notification(...)` can throw under a grant, as it does on some mobile browsers, and `localStorage.getItem`/`setItem` can throw a security or quota error; these throws are not modelled. Under such a throw the date is not written and every call from 11:00 on retries, as in `RunUnsupported`.
- Strings are sequences of Unicode code points, not UTF-16 code units. This matters only for characters outside the Basic Multilingual Plane. Every pattern involved is ASCII, and `.` in the bold pattern matches either form of such a character.
- The browser APIs are left out. The `Notification` constructor's display, `onclick`, `window.focus` and `notification.close` are reduced to a log of the notifications built. `localStorage` is a map, and the permission prompt's UI is the answer passed in.
- The clock is left out. `toISOString` is replaced by its output, and the UTC date is cut from it with `split('T')[0]`. The Istanbul hour from `toLocaleString` and `new Date` is an integer input, not a computed value; the unused `currentMinute` is left out too.
- The `setInterval` timer that calls the gate is left out. `Run` models a sequence of calls on one day.
- `handleShare` in components/NewsCard.tsx is left out: it is sharing and clipboard I/O.
- The JSX markup is left out: class names, keys, the article layout. The output is the `Block` and `Segment` datatypes.
- App.tsx is not part of this model: React state, the language toggle and date formatting. Neither is components/Header.tsx, which is presentation, nor `CATEGORIES` in constants.ts.
- The console logging in both services is left out.
