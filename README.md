# Ferret9 bot core, modelled in Dafny

This project models the parts of the Ferret9 Discord bot that compute
something themselves, and proves properties of that model:

- **The per-channel conversation store** (`utils/conversationManager.js`).
  - Two maps: channel → message history, and channel → last-activity time.
  - Adding a message caps the history and puts back a dropped system message.
  - A read applies a sliding 30-minute expiry.
  - There are clear, initialise and expiry-sweep operations.
  - The model is the class `ConversationManager.ConversationStore`, whose two map fields the methods update in place. Each method is proved to move the store exactly as a specification function on the value type `Store` says: `Added`, `Read`, `Cleared`, `Initialized`, `Swept`. The properties are lemmas about those functions.
- **The reply splitter and truncator** (`utils/messageHelper.js`).
  - `MessageHelper.SplitMessage` is the splitter's `while` loop. It is proved equal to the specification `Split`, which is built from the single cut `BreakAt` and the recursive `Pieces`.
  - The round trip, the length bound, the break precedence and the part labels are lemmas about that specification.
  - `TruncateMessage` is a function.
- **The report helpers** (`utils/activityReporter.js`):
  - `getTimeOfDay`, including a deterministic model of its regular-expression search;
  - the UTC→Manila 12-hour clock;
  - the MM-DD-YYYY branch of `parseDate`;
  - the per-user, per-day record filter;
  - the wording of the "Key Activities" lines.
- **The "who's working" arithmetic** (`commands/whosworking.js`): `formatDurationWithSeconds`, the work/break seconds of a session and the description truncation.

Shared helpers are in module `Text`: decimal rendering and parsing, `padStart(2, '0')`, `Array#join` and the UTF-16 encoding of text. `Wrappers` holds `Option`.

Modelling conventions:

- The clock (`Date.now()`, `new Date()`) is a parameter `now` in milliseconds.
- What `new Date(s)` makes of a date string is a parameter: `Option<UtcTime>`, or `Seconds.NaN` for an invalid date.
- JavaScript's falsy string values (`undefined`, `null`, `''`) are all written `""`, because the source only tests them for truthiness.
- A JavaScript string is a sequence of UTF-16 code units, and `length`, `substring` and `lastIndexOf` count units, not characters. The splitter and both truncators therefore work on `Utf16`, a sequence of `CodeUnit` values below 0x10000; `Utf16Of` encodes a Dafny string, writing a character above U+FFFF as a surrogate pair. A reply or description full of emoji thus reaches a limit twice as fast as its character count suggests. Elsewhere strings stay `seq<char>`: they are only compared and concatenated, or, for the ten-character date prefix, are ASCII timestamps.
- Integers are unbounded. Every duration the source feeds into integer operations has already been floored.

### Where the code and its intended behaviour differ

The model follows the code in each of these cases. Lemmas exhibit the behaviour.

- **History bound.** After a trim, a history can hold 11 messages, not 10: the first system message is put back in front of the last 10 messages. `TrimLength` and `TrimReachesEleven` show this.
- **Split part length.** A part ended by a sentence break can be `maxLength + 1` long, because `lastIndexOf('. ', maxLength)` may find the period at index `maxLength` and the period is kept. `SentenceBreakOverflows` gives the input `"abcd. efgh"` with `maxLength` 4. All other parts are at most `maxLength` long.
- **Strict thresholds.** The break thresholds are strict: a position must be above 75% (or 50%) of `maxLength`. Reaching the threshold is not enough.
- **Limit of 0.** With `maxLength` 0 and a non-empty message, the splitter loops forever, because the hard cut removes nothing (`StallsAtZero`). The model therefore requires `maxLength >= 1` for a non-empty message, rather than rejecting the argument as an error.
- **Description truncation.** A truncated description is 3980 + 21 = 4001 code units, one more than the 4000-unit limit it tests against (`TruncateDescriptionSpec`).
- **Cuts inside an emoji.** The hard cut and the truncation count code units, so they can separate the two halves of a surrogate pair. "ab" followed by U+1F7E2 splits at a limit of 3 into "ab" plus the lone high surrogate, then the lone low surrogate (`SplitsSurrogatePair`). Two such emoji are 4 units long, so truncating them to 3 leaves only "..." (`TruncatesEmojiPair`).

## Model

| member | source | states |
|---|---|---|
| Text.NatToString | utils/messageHelper.js:60 | The decimal rendering of a number is a non-empty digit string with no leading zero (except "0"); it has one digit exactly for numbers under 10 |
| Text.PadStart2 | utils/activityReporter.js:99 | Strings of length 2 or more are unchanged; shorter ones are left-padded with '0' to length 2 and end with the original |
| Text.JoinWith | commands/whosworking.js:27 | Joining no strings gives ""; a join starts with the first string and ends with the last |
| Text.ParseNatToString | utils/activityReporter.js:92-99 | parseInt of a number's rendering gives the number back |
| Text.NatToStringParse | utils/activityReporter.js:92-99 | Rendering the value of a digit string without a leading zero gives the string back |
| Text.PadTwoDigitsValue | utils/activityReporter.js:316 | A number below 100, rendered and padded to two digits, is two digits that parse back to the number |
| Text.JoinWithAppend | utils/activityReporter.js:473 | Joining one more string appends the separator and that string to the join of the others |
| Text.EncodeChar | utils/messageHelper.js:13 | A character below U+10000 is one code unit with its own value; any other is a high surrogate followed by a low surrogate |
| Text.Utf16Of | utils/messageHelper.js:13 | A text has at least as many code units as characters |
| Text.BmpUnits | utils/messageHelper.js:13 | A text without characters above U+FFFF has one unit per character, each with the character's value |
| Text.BmpUnitsAre | utils/messageHelper.js:13 | A text whose characters equal the given units one for one encodes to those units |
| Text.Utf16OfAppend | utils/messageHelper.js:13 | The units of a concatenation are the units of the first text followed by those of the second |
| Text.PadParseTwoDigits | utils/activityReporter.js:92-99 | Parsing a one- or two-digit field and padding it to two digits gives the field itself, or the field with one leading '0' |
| ConversationManager.FormatContentSpec | utils/conversationManager.js:33-36 | A user message with a username is stored as "username: content"; every other message keeps its content; the content always ends the stored text |
| ConversationManager.FindSystem | utils/conversationManager.js:45 | Finds nothing exactly when the history has no system message; otherwise returns the first system message |
| ConversationManager.TrimKeepsRecent | utils/conversationManager.js:43-56 | A trim keeps the last min(length, 10) messages in order at the end; at most one message precedes them; a history of up to 10 messages is unchanged |
| ConversationManager.TrimLast | utils/conversationManager.js:40-56 | The message just pushed is still the last one after the trim |
| ConversationManager.TrimLength | utils/conversationManager.js:43-56 | A trimmed history has at most 11 messages; with 11 messages, the first is the re-inserted first system message; without a system message there are at most 10 |
| ConversationManager.TrimKeepsSystem | utils/conversationManager.js:44-53 | A history that had a system message still has one after the trim |
| ConversationManager.TrimReachesEleven | utils/conversationManager.js:43-53 | A system message followed by 10 user messages trims to 11 messages |
| ConversationManager.Without | utils/conversationManager.js:92-95 | Removing channels removes exactly those keys from both maps |
| ConversationManager.AddedWellFormed | utils/conversationManager.js:26-60 | Adding a message keeps both maps over the same channels, with every history holding 1 to 11 messages |
| ConversationManager.AddedAppends | utils/conversationManager.js:28-40 | The added message (as formatted) is the channel's last message; the channel's activity time becomes `now`; other channels are untouched |
| ConversationManager.AddedKeepsSystem | utils/conversationManager.js:45-53 | Adding to a history that has a system message leaves a system message in it |
| ConversationManager.AddedKeepsMostRecent | utils/conversationManager.js:43-48 | Without a system message, a history over the cap keeps exactly its 10 most recent messages |
| ConversationManager.ClearedSpec | utils/conversationManager.js:92-95 | Clearing removes the channel from both maps, is idempotent, leaves every other channel's history and time unchanged, and keeps the store well formed |
| ConversationManager.InitializedSpec | utils/conversationManager.js:102-131 | Whatever the prior history, initialising leaves exactly one message, the system prompt with the bot's name, stamped `now` |
| ConversationManager.ReadExpired | utils/conversationManager.js:69-77 | A read more than 30 minutes after the last activity returns [] and deletes the channel from both maps; later reads also return [] and change nothing |
| ConversationManager.ReadSliding | utils/conversationManager.js:69-82 | A read within 30 minutes returns the history unchanged and sets the activity time to `now`, so the history stays readable for another 30 minutes |
| ConversationManager.ReadWellFormed | utils/conversationManager.js:67-86 | A read keeps the store well formed and never creates a channel |
| ConversationManager.SweptSpec | utils/conversationManager.js:136-144 | The sweep removes exactly the channels idle for more than 30 minutes; every other channel keeps its history and time |
| ConversationManager.SweepInvisibleToRead | utils/conversationManager.js:136-144 | A read at the same time gives the same history with or without a sweep before it |
| ConversationManager.SweepStep | utils/conversationManager.js:139-143 | One loop round: clearing a visited expired channel, or skipping a live one, moves the partial sweep on by that channel |
| ConversationManager.SweptIdempotent | utils/conversationManager.js:136-144 | A second sweep at the same time removes nothing more |
| ConversationManager.InitializeAddRead | utils/conversationManager.js:102-131 | Initialise, add "hi" from user alice, read within 30 minutes: the read gives the system prompt then "alice: hi" |
| ConversationManager.ConversationStore.constructor | utils/conversationManager.js:8-17 | The store starts with two empty maps |
| ConversationManager.ConversationStore.AddMessage | utils/conversationManager.js:26-60 | The maps become `Added` of the old maps (push, trim, stamp), and the invariant holds |
| ConversationManager.ConversationStore.GetConversation | utils/conversationManager.js:67-86 | The returned history and the new maps are `Read` of the old maps (expired → cleared and [], live → history with the time refreshed, absent → []) |
| ConversationManager.ConversationStore.ClearConversation | utils/conversationManager.js:92-95 | The maps become `Cleared` of the old maps |
| ConversationManager.ConversationStore.InitializeConversation | utils/conversationManager.js:102-131 | The maps become `Initialized` of the old maps |
| ConversationManager.ConversationStore.CleanupExpiredConversations | utils/conversationManager.js:136-144 | The loop over the channels leaves the maps equal to `Swept` of the old maps |
| MessageHelper.LastIndexFrom | utils/messageHelper.js:28 | The result is -1 or an occurrence at or before `from`, and no occurrence lies between it and `from` |
| MessageHelper.LastIndexOf | utils/messageHelper.js:28 | lastIndexOf with a clamped position returns -1 or an occurrence at or before the position |
| MessageHelper.LastIndexOfIsLast | utils/messageHelper.js:37 | No occurrence starts after the reported one, up to the position |
| MessageHelper.CutAt | utils/messageHelper.js:32-33 | The part ends at the break, and the part, the consumed separator and the rest reassemble the text |
| MessageHelper.BreakAt | utils/messageHelper.js:27-55 | One cut: part + separator + rest is the text; the part is at most maxLength long, or maxLength + 1 for a sentence break; for maxLength ≥ 1 the part is non-empty and the rest shorter |
| MessageHelper.ParagraphSlices | utils/messageHelper.js:28-34 | In the paragraph branch the part is the text before "\n\n" and the rest starts after the two newlines |
| MessageHelper.SentenceSlices | utils/messageHelper.js:37-43 | In the sentence branch the part keeps the period and the rest starts after the space |
| MessageHelper.WordSlices | utils/messageHelper.js:46-50 | In the word branch the part is the text before the space and the rest starts after it |
| MessageHelper.HardSlices | utils/messageHelper.js:52-54 | The hard cut splits at maxLength and drops nothing |
| MessageHelper.ParagraphAccepted | utils/messageHelper.js:28-30 | The paragraph branch is taken exactly when "\n\n" occurs at some index k with 0.75·maxLength < k ≤ maxLength |
| MessageHelper.SentenceAccepted | utils/messageHelper.js:37-38 | The sentence branch's test holds exactly when ". " occurs at some index k with 0.75·maxLength < k ≤ maxLength |
| MessageHelper.WordAccepted | utils/messageHelper.js:46-47 | The word branch's test holds exactly when " " occurs at some index k with 0.5·maxLength < k ≤ maxLength |
| MessageHelper.BreakPrecedence | utils/messageHelper.js:27-55 | A cut is a paragraph break iff an acceptable one exists; else a sentence break iff one exists; else a word break iff one exists; else a hard cut |
| MessageHelper.BreakIsLast | utils/messageHelper.js:28-50 | The chosen break is the last one of its kind in the window |
| MessageHelper.StallsAtZero | utils/messageHelper.js:53-54 | With maxLength 0 a cut removes nothing from a non-empty text |
| MessageHelper.PiecesStep | utils/messageHelper.js:20-56 | One loop round: the parts of a long text are its first cut's part followed by the parts of the rest |
| MessageHelper.LoopStep | utils/messageHelper.js:27-55 | Emitting a cut's part and continuing with its rest keeps the parts emitted so far plus the parts still to come equal to the parts of the whole message |
| MessageHelper.PiecesRoundTrip | utils/messageHelper.js:20-56 | Joining the loop's parts with the separators their breaks consumed restores the text |
| MessageHelper.PiecesShape | utils/messageHelper.js:20-56 | Every part is non-empty and at most maxLength long (maxLength + 1 only for a sentence break); only the last part ends the text; there are no parts only for an empty text |
| MessageHelper.Label | utils/messageHelper.js:59-61 | Labelling keeps the count, and part i becomes "[Part i/N] " + part |
| MessageHelper.SplitRoundTrip | utils/messageHelper.js:7-56 | The message is its raw parts joined by "\n\n" after a paragraph break, " " after a sentence or word break, and nothing after a hard cut |
| MessageHelper.SplitBound | utils/messageHelper.js:7-56 | There is at least one part; each is at most maxLength + 1 long, and at most maxLength unless it was ended by a sentence break; a non-empty message has no empty part |
| MessageHelper.SplitFits | utils/messageHelper.js:8-15 | An empty message, or one that fits, comes back as the single unlabelled part |
| MessageHelper.SplitLabels | utils/messageHelper.js:58-63 | A single part is returned as it is; with more than one, every part is labelled with its 1-based position and the count |
| MessageHelper.MarksEncode | utils/messageHelper.js:28-46 | The break marks "\n\n", ". ", " " and the "..." indicator are the code units the model searches for and appends |
| MessageHelper.SentenceEndAtLimit | utils/messageHelper.js:37-42 | A 5-unit part ending in '.' with no newline, then a space and 1 to 4 more units, splits at 4 into that part and the rest |
| MessageHelper.SentenceBreakOverflows | utils/messageHelper.js:37-42 | "abcd. efgh" split at 4 gives "abcd." (5 units) and "efgh" |
| MessageHelper.HardCutAtThree | utils/messageHelper.js:52-54 | Four units with no break mark split at 3 into the first three units and the last one |
| MessageHelper.SplitsSurrogatePair | utils/messageHelper.js:52-54 | "ab" followed by U+1F7E2 is 4 units; split at 3, the first part ends with the high surrogate and the second part is the low surrogate alone |
| MessageHelper.NextPart | utils/messageHelper.js:27-55 | One pass of the loop body over a text longer than the limit returns exactly the part and the rest of the specification's cut `BreakAt` |
| MessageHelper.SplitMessage | utils/messageHelper.js:7-64 | With the default limit 1950 or a given one, the loop returns exactly the specification `Split`: the raw parts, labelled when there is more than one |
| MessageHelper.TruncateMessage | utils/messageHelper.js:72-83 | With the default limit 2000 or a given one: an empty message stays empty; one within the limit is unchanged; a longer one is a prefix of the message followed by "...", with length max(maxLength, 3) code units |
| MessageHelper.TruncateIdempotent | utils/messageHelper.js:72-83 | Truncating again changes nothing; the result is at most maxLength units long (3 when maxLength < 3, where it is "...") |
| MessageHelper.EllipsisOnly | utils/messageHelper.js:82 | Below 3 units of room, an over-long message truncates to "...", which truncates to itself |
| MessageHelper.TruncatesEmojiPair | utils/messageHelper.js:77-82 | Two emoji above U+FFFF are 4 units, so at a limit of 3 nothing of them survives: the result is "..." |
| ActivityReporter.DigitRunSpec | utils/activityReporter.js:515 | The greedy \d+ run: all digits, ending at the end of the string or at a non-digit |
| ActivityReporter.SpaceRunSpec | utils/activityReporter.js:515 | The greedy \s* run: all JavaScript whitespace, ending at the end of the string or at a non-space |
| ActivityReporter.DigitRunExact | utils/activityReporter.js:515 | A run of exactly k digits followed by a non-digit or the end is a greedy run of length k |
| ActivityReporter.MatchAtRuns | utils/activityReporter.js:515 | An attempt at a position succeeds when a digit run, ':', a digit run, spaces and an A/P followed by M line up; it captures the first number and whether the period is PM |
| ActivityReporter.SpaceRunExact | utils/activityReporter.js:515 | A run of exactly k whitespace characters followed by a non-space or the end is a greedy \s* run of length k |
| ActivityReporter.MatchAtComplete | utils/activityReporter.js:515 | Every way the H:MM AM/PM pattern can match at a position (any run lengths) uses the maximal runs, and the attempt reports it: the hour group is the whole digit run and PM follows the period letter |
| ActivityReporter.MatchAtSound | utils/activityReporter.js:515 | Whatever the attempt accepts is a match of the pattern read literally |
| ActivityReporter.MatchAtIsPattern | utils/activityReporter.js:515 | The attempt at a position succeeds exactly when the pattern matches there |
| ActivityReporter.FirstMatchNone | utils/activityReporter.js:515 | The search finds nothing iff the pattern matches at no position |
| ActivityReporter.FirstMatchLeftmost | utils/activityReporter.js:515 | A found match is the one at the leftmost position where the pattern matches |
| ActivityReporter.TimeOfDayDefault | utils/activityReporter.js:510-516 | The result is "day" exactly for a falsy string, "Unknown", or a string where the H:MM AM/PM pattern matches nowhere |
| ActivityReporter.To24HourSpec | utils/activityReporter.js:522-523 | PM below 12 adds 12; 12 AM becomes 0; every other hour is unchanged; clock-face hours map into 0..23 with PM iff ≥ 12 |
| ActivityReporter.BucketExactlyOne | utils/activityReporter.js:526-529 | Exactly one bucket applies: [5,12) morning, [12,17) afternoon, [17,21) evening, otherwise night, never "day" |
| ActivityReporter.ManilaClockFace | utils/activityReporter.js:308-313 | The Manila hour is (utcHours + 8) mod 24; the displayed hour is in 1..12; the period is PM iff the Manila hour is ≥ 12; converting display and period back gives the Manila hour |
| ActivityReporter.ConvertToManilaTimeCases | utils/activityReporter.js:290-300 | A falsy timestamp gives null; "SignIn" and "SignOut" are returned as they are; an invalid date returns the timestamp |
| ActivityReporter.MatchAtClockLayout | utils/activityReporter.js:515 | A string laid out as digits, ':', two digits, ' ', A or P, M matches at 0 with its leading number and period |
| ActivityReporter.MatchClockText | utils/activityReporter.js:515 | The pattern matches at the start of an "H:MM AM"/"HH:MM PM" rendering, capturing its hour and period |
| ActivityReporter.ManilaClockFields | utils/activityReporter.js:308-316 | The rendering is the hour digits (parsing back to the 12-hour hour), ':', two zero-padded minute digits parsing back to the UTC minutes unchanged, a space, and the period |
| ActivityReporter.ManilaTimeOfDay | utils/activityReporter.js:308-316 | getTimeOfDay of a converted Manila time is the bucket of the Manila hour: the formatter and the parser agree |
| ActivityReporter.FieldsOf | utils/activityReporter.js:88-89 | The three captured groups are digit strings of the matched widths, and "month-day-year" rebuilds the input |
| ActivityReporter.MatchDateSpec | utils/activityReporter.js:88-90 | The anchored pattern matches iff the string is 1–2 digits, '-', 1–2 digits, '-', 4 digits; then the groups rebuild the string |
| ActivityReporter.FieldsUnique | utils/activityReporter.js:88 | The month and day widths of a match are determined by the string |
| ActivityReporter.ParseMonthDayYearRearranges | utils/activityReporter.js:91-101 | MM-DD-YYYY becomes YYYY-MM-DD, with a one-digit month or day zero-padded and the year copied when it has no leading zero |
| ActivityReporter.MatchDateOf | utils/activityReporter.js:88-90 | Month and day of one or two digits and a four-digit year, joined with '-', are matched back as exactly those fields |
| ActivityReporter.ParseMonthDayYearOf | utils/activityReporter.js:88-101 | Any such fields written MM-DD-YYYY with a year not starting with 0 come out as YYYY-MM-DD with month and day padded to two digits |
| ActivityReporter.ParseMonthDayYearNoValidation | utils/activityReporter.js:88-101 | No range check: "13-45-2025" becomes "2025-13-45" |
| ActivityReporter.ParseMonthDayYearShortYear | utils/activityReporter.js:94-99 | The year goes through parseInt, so "3-5-0999" becomes "999-03-05" |
| ActivityReporter.LeadingZeroYear | utils/activityReporter.js:94 | parseInt reads "0999" as 999, which renders as "999" |
| ActivityReporter.FilterItemsSpec | utils/activityReporter.js:156-177 | The filter keeps every record whose UserId equals the user and whose date prefix equals the date, as often as it occurs, and nothing else |
| ActivityReporter.ItemDateSpec | utils/activityReporter.js:168-169 | The compared date is the first ten characters of the first spelling of the time field, else of the second spelling, else "" |
| ActivityReporter.FilterAppend | utils/activityReporter.js:156-177 | Filtering keeps order: filtering a concatenation is concatenating the filtered halves |
| ActivityReporter.FilterIdempotent | utils/activityReporter.js:217-238 | Filtering a filtered list changes nothing |
| ActivityReporter.ActivityLines | utils/activityReporter.js:462-473 | One line per activity, in order |
| ActivityReporter.ActivityLineSpec | utils/activityReporter.js:463-472 | Each line is "• time: " then "Started work session" for SignIn, "Ended work session" for SignOut, `Worked on "details"` for Update, else "type - details" |
| ActivityReporter.KeyActivitiesSpec | utils/activityReporter.js:462-473 | With no activities the section is "• No specific activities recorded."; otherwise it starts with the first activity's line |
| ActivityReporter.KeyActivitiesOne | utils/activityReporter.js:462-473 | One activity gives exactly its own line |
| ActivityReporter.KeyActivitiesAppend | utils/activityReporter.js:462-473 | One more activity adds "\n" and its line at the end, so the section is the lines in order joined by newlines |
| WhosWorking.JoinDurationParts | commands/whosworking.js:12-27 | There is always at least one part, and the parts join to "Hh Mm", "Hh", "Mm" or "Ss" |
| WhosWorking.Decompose | commands/whosworking.js:8-10 | hours·3600 + minutes·60 + seconds is the total, with minutes and seconds under 60 |
| WhosWorking.FormatDurationCases | commands/whosworking.js:6-28 | A negative total reads as 0; the output shows hours iff positive, then minutes iff positive, and otherwise all seconds of a total under a minute |
| WhosWorking.FormatDurationZero | commands/whosworking.js:20-27 | For a number the '0s' fallback is never reached, and "0s" comes exactly from totals ≤ 0 |
| WhosWorking.ShapeZero | commands/whosworking.js:19-27 | Only the all-zero breakdown is shown as "0s" |
| WhosWorking.BreakdownZero | commands/whosworking.js:8-10 | The breakdown is all zero exactly for a total of 0 |
| WhosWorking.FormatDurationUnderMinute | commands/whosworking.js:19-21 | A total under a minute prints as its seconds followed by "s" |
| WhosWorking.EntryPresence | commands/whosworking.js:80-108 | A missing or SignedOut session gives no entry; any other session gives one, with its total and its on-break flag from Status "Break" |
| WhosWorking.BreakSecondsSpec | commands/whosworking.js:84-96 | Break seconds are BreakDuration·60, plus the running break only when Status is "Break" and LastBreakStart is set |
| WhosWorking.WorkPlusBreak | commands/whosworking.js:99 | Work + break = total whenever they are numbers; work is a number iff break and total are |
| WhosWorking.NoticeUnits | commands/whosworking.js:129 | The notice's code units are the encoding of "\n... (list truncated)" |
| WhosWorking.TruncateDescriptionSpec | commands/whosworking.js:126-130 | A description of up to 4000 code units is unchanged; a longer one keeps its first 3980 units and gains the 21-unit notice, 4001 in all |
| WhosWorking.TruncateDescriptionOverLimit | commands/whosworking.js:126-130 | The truncated description is still over 4000 units, yet truncating it again changes nothing |

## Left out

- **DynamoDB access.** The DynamoDB client, `ScanCommand` and `scanTables` are network I/O. The filters are modelled over a given list of scanned records.
- **Discord and playback handlers.** The Discord, discord-player and OpenAI handlers (the other commands, the event handler, openAiHelper.js) are thin wrappers over external services.
- **`parseDate` fallback.** The fallback path (`new Date(dateStr)` and the default year) depends on the JavaScript date parser. `ParseMonthDayYear` returns None where that path would be taken.
- **`formatActivityReport` durations.** The floating-point duration maths and `toFixed` are not modelled. Nor are the start and end time lookups, the breaks section or the rest of the report template, since only the activity lines are modelled.
- **The sweep timer.** The `setInterval` timer is not modelled. The sweep is a method called with `now`.
- **The system prompt.** The guideline paragraphs after the first sentence of the prompt are opaque text. `SystemPrompt` is "You are " + name + the first sentence.
- **Aliasing.** `getConversation` hands out the live history array, so a caller's later mutation would show in the store. The model returns the history as a value.
- **whosworking I/O and ordering.** Member fetching, `Promise.all` and the `localeCompare` sort are I/O, concurrency and locale-dependent.
- **The per-user status line.** It is not modelled. The declaration of `description` on commands/whosworking.js:115 sits inside a comment, so the `+=` on line 119 reads an undeclared variable.
- ActivityReporter.ItemDateSpec: `substring(0, 10)` counts UTF-16 units while the model counts characters; the two agree because the stored timestamps are ASCII.
- WhosWorking.BreakSecondsSpec: `BreakDuration` is taken as a whole number of minutes. A fractional value would make the break seconds fractional, and that is not modelled.
- **Emoji and display names.** The status emoji and the display name of a status entry are not modelled.
- **Date parsing and clock reads.** These are parameters: the UTC hours and minutes of a valid date, and the floored seconds since a date (NaN for an invalid one).
