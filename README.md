# Agents-and-Tools core, modelled in Dafny

This project models the core of a small Python agent/tool toolkit and proves properties of
that model:

- **`tools/nlp.py`**
  - `summarize_text` hands its work to Python's `textwrap.shorten` with the placeholder
    `"…"`. Module `TextWrap` models that call, as `textwrap` behaves from Python 3.10 on,
    as pure functions (`textwrap.dfy`). Module
    `Nlp` models `summarize_text` itself (`nlp.dfy`).
  - `analyze_sentiment` is a keyword-substring classifier with three labels (`nlp.dfy`).
- **`agents/base.py` and `agents/chat.py`** (`base.dfy`, `chat.dfy`)
  - An agent stores a name and a metadata dictionary.
  - The chat agent's `act` classifies its input, summarizes it at width 100, and frames
    both with the agent's name.
  - The reply is the pure function `Chat.Respond`. The class `Agents.Agent` holds the
    state that `BaseAgent.__init__` sets.
- **`tools/scheduler.py`** (`scheduler.dfy`)
  - The class `Scheduler.SimpleScheduler` keeps its event list as a sequence field.
  - `Schedule` appends an event.
  - `RunPending` walks a snapshot of the list in a loop. It fires each due callback and
    removes that event with a model of `list.remove`.
  - The loop is proved to agree with two filters: `Pending` (the events not yet due) and
    `Due` (the events that fire).
- **`wrappers.dfy`** holds `Option` and `Result`.

### Where the docstring and the code differ
The docstring of `summarize_text` says "first *width* chars + ellipsis". The code calls
`textwrap.shorten`, which does something different:

- it collapses whitespace;
- it returns the text unchanged when it fits;
- otherwise it cuts at chunk boundaries, where a chunk is a word or a hyphen-separated piece
  of one, and keeps the result within *width* including the `"…"`.

The model follows the code.

## Model

| member | source | states |
|---|---|---|
| TextWrap.Shorten | tools/nlp.py:11 | `textwrap.shorten`: `ValueError` exactly when the width is below one, and otherwise a line no longer than the width (collapse, split, fill; see ShortenChunksSpec) |
| TextWrap.Words | tools/nlp.py:11 | `str.split()` yields non-empty words with no whitespace in them |
| TextWrap.Join | tools/nlp.py:11 | `' '.join` starts with the first word; WordsOfJoin and JoinCollapsed give its inverse and its shape |
| TextWrap.WordsOfJoin | tools/nlp.py:11 | splitting the space-join of proper words gives the words back |
| TextWrap.JoinCollapsed | tools/nlp.py:11 | a space-join of proper words is in collapsed form, and is empty only for no words |
| TextWrap.Collapse | tools/nlp.py:11 | `' '.join(text.strip().split())` is in collapsed form; CollapseKeepsWords and CollapseUnique tie it to the input's words |
| TextWrap.JoinOfWords | tools/nlp.py:11 | a text in collapsed form is the join of its own words |
| TextWrap.WordsAfterWord | tools/nlp.py:11 | the words of a text that starts with a word and one space are that word, then the words after the space |
| TextWrap.CollapsedTail | tools/nlp.py:11 | in collapsed form, the first word is followed by one space and a collapsed rest that starts with a word |
| TextWrap.CollapseKeepsWords | tools/nlp.py:11 | collapsing keeps the sequence of words and yields collapsed form |
| TextWrap.CollapseUnique | tools/nlp.py:11 | the collapsed text is the only collapsed text with the input's words |
| TextWrap.CollapseIdempotent | tools/nlp.py:11 | collapsing twice is collapsing once |
| TextWrap.CollapseEmpty | tools/nlp.py:11 | the collapsed text is empty exactly when the input is whitespace only |
| TextWrap.SameWords | tools/nlp.py:11 | texts with whitespace at the same places and equal other characters have the same words |
| TextWrap.BreaksAfter | tools/nlp.py:11 | textwrap breaks a word only after a hyphen that has a letter on each side, never at either end of the word |
| TextWrap.Pieces | tools/nlp.py:11 | the hyphen pieces of a word are non-empty; PiecesSpec shows they reassemble the word |
| TextWrap.PiecesSpec | tools/nlp.py:11 | the hyphen pieces of a word concatenate back to the word, and none has whitespace |
| TextWrap.Split | tools/nlp.py:11 | textwrap's chunks are non-empty; SplitSpec shows they reassemble the text and are well formed |
| TextWrap.SplitSpec | tools/nlp.py:11 | textwrap's chunks concatenate back to the text; each is a whitespace run or whitespace-free |
| TextWrap.ConcatAppend | tools/nlp.py:11 | the text of two chunk lists appended is the texts appended |
| TextWrap.Fit | tools/nlp.py:11 | the greedy fill takes the longest run of leading chunks that fits the room |
| TextWrap.LastIndexBefore | tools/nlp.py:11 | `rfind`: the last index before the end holding the character, or -1 |
| TextWrap.LongWordHead | tools/nlp.py:11 | the head of an over-long chunk is a prefix within the space left, cut at the limit or just after a hyphen |
| TextWrap.Kept | tools/nlp.py:11 | the placeholder loop keeps the longest run of line chunks that ends non-blank and fits with "…" |
| TextWrap.Line | tools/nlp.py:11 | the line before the placeholder loop: the chunks that fit, then the head of an over-long next chunk; LineSpec states its properties |
| TextWrap.LineSpec | tools/nlp.py:11 | the line starts with the chunks that fit, and its text is a prefix of the input within the width |
| TextWrap.KeptSpec | tools/nlp.py:11 | the kept text is a prefix of the line's text and is empty or does not end in whitespace |
| TextWrap.ShortenChunks | tools/nlp.py:11 | the one line `shorten` returns is never longer than the width |
| TextWrap.ShortenChunksSpec | tools/nlp.py:11 | the line fits the width; it is the whole text when that fits, and otherwise the text cut short plus "…", cut after a run of whole chunks or just after a hyphen in the next chunk's head |
| TextWrap.ShortenChunksCut | tools/nlp.py:11 | a shortened line is the first m chunks, then nothing or a head of chunk m ending in a hyphen, then "…"; a head cut at the width never survives |
| TextWrap.ShortenChunksNothingFits | tools/nlp.py:11 | when the first chunk has no hyphen and does not fit with "…", the line is "…" alone |
| TextWrap.ShortenChunksKeepsWhatFits | tools/nlp.py:11 | every leading run of chunks that ends non-blank and fits with "…" is kept |
| TextWrap.FirstChunk | tools/nlp.py:11 | the first chunk of the collapsed text is the first word when that word has no hyphen |
| Nlp.ReplaceNewlines | tools/nlp.py:11 | `text.replace("\n", " ")` keeps the length, leaves no newline and changes no other character |
| Nlp.SummarizeText | tools/nlp.py:9-11 | `summarize_text`: `ValueError` exactly when the width is below one, otherwise at most width characters; SummarizeSpec states the rest |
| Nlp.NewlinesAreCollapsedAnyway | tools/nlp.py:11 | replacing newlines first changes neither the collapsed text nor the summary, at every width |
| Nlp.SummarizeSpec | tools/nlp.py:9-11 | ValueError exactly when width < 1; otherwise length <= width; the collapsed text if it fits; otherwise a prefix of it cut at a chunk boundary or just after a hyphen in the next chunk, plus "…" |
| Nlp.SummarizeBlank | tools/nlp.py:9-11 | the summary is "" exactly for empty or whitespace-only input |
| Nlp.SummarizeKeepsWhatFits | tools/nlp.py:9-11 | the summary keeps every leading run of chunks that fits with "…" |
| Nlp.SummarizeNarrowest | tools/nlp.py:9-11 | at width 1, text that does not fit becomes "…" alone |
| Nlp.SummarizeNothingFits | tools/nlp.py:9-11 | when the first word has no hyphen and does not fit with "…", the summary is "…" alone |
| Nlp.Lower | tools/nlp.py:16 | `text.lower()` keeps the length and leaves no upper-case ASCII letter |
| Nlp.Contains | tools/nlp.py:20-21 | `k in s` needs `k` no longer than `s`; ContainsIsSubstring ties it to slices |
| Nlp.MentionsAny | tools/nlp.py:20-21 | `any(word in lowered for word in keywords)`: some keyword occurs; SentimentRule and the example lemmas use it |
| Nlp.AnalyzeSentiment | tools/nlp.py:14-27 | the result is one of the three labels |
| Nlp.SentimentRule | tools/nlp.py:20-27 | Positive iff a positive keyword and no negative one occurs; Negative the mirror case; Neutral iff both or neither occur |
| Nlp.LowerOfUpper | tools/nlp.py:16 | lowercasing the uppercased text gives the lowercased text |
| Nlp.SentimentIgnoresCase | tools/nlp.py:16 | texts with the same lowercase form get the same label, including the uppercased text |
| Nlp.ContainsIsSubstring | tools/nlp.py:20-21 | `k in s` is true exactly when some slice of `s` equals `k` |
| Nlp.ContainsAt | tools/nlp.py:20-21 | a match at a known index makes the keyword occur |
| Nlp.AbsentChar | tools/nlp.py:20-21 | a keyword with a character the text lacks does not occur |
| Nlp.SingleOccurrenceMismatch | tools/nlp.py:20-21 | a keyword does not occur when its only possible placement mismatches |
| Nlp.BadgerSightingIsNegative | tools/nlp.py:17-27 | "badger sighting", in any casing, is Negative, because "bad" matches inside a word |
| Nlp.GreatAndTerribleIsNeutral | tools/nlp.py:17-27 | "great and terrible", in any casing, is Neutral |
| Nlp.FantasticIsPositive | tools/nlp.py:17-27 | "a fantastic idea", in any casing, is Positive |
| Nlp.WeatherIsNeutral | tools/nlp.py:17-27 | "the weather is fine", in any casing, is Neutral |
| Nlp.ExampleCasings | tools/nlp.py:16 | "The weather is fine" and "A fantastic idea" lowercase to the forms the examples use |
| Chat.Summary | agents/chat.py:18 | the default-width summary is at most 100 characters; it is the collapsed input, or that input cut at a chunk boundary or just after a hyphen, plus "…" |
| Chat.Header | agents/chat.py:21 | the reply's start, "[name] Sentiment="; Respond and Agent.Act ensure every reply starts with it |
| Chat.Format | agents/chat.py:20-23 | the f-string; FormatInjective shows it determines the label and the summary |
| Chat.Respond | agents/chat.py:15-25 | the reply starts with "[name] Sentiment=" and is at most 136 characters longer than the name |
| Chat.LabelsPrefixFree | tools/nlp.py:23-27 | no label is a prefix of another, so a label followed by text splits one way only |
| Chat.FormatInjective | agents/chat.py:20-23 | for a given name, the formatted reply determines both the label and the summary |
| Chat.RespondDeterminesParts | agents/chat.py:17-23 | two inputs get the same reply exactly when they get the same label and the same summary |
| Chat.RespondEndsWithSummary | agents/chat.py:18-23 | the reply ends with the summary: the collapsed input if it fits in 100, otherwise that input cut at a chunk boundary or just after a hyphen, plus "…" |
| Chat.RespondQuotesShortInput | agents/chat.py:17-23 | a short input already in collapsed form is quoted in full after the label |
| Chat.HelperBotExample | agents/chat.py:17-23 | "HelperBot" answers "Today is an awesome day!" with its bracketed name, the label "Positive 😀", the separator and the whole input as the summary |
| Agents.StoredMetadata | agents/base.py:18 | no dictionary is stored as empty; any given dictionary, even an empty one, is stored as itself |
| Agents.Agent.constructor | agents/base.py:16-18 | the agent's kind and name are the arguments, and its metadata is the `metadata or {}` value |
| Agents.Agent.Act | agents/chat.py:15-25 | a chat agent's reply is `Chat.Respond(name, input)` and starts with its header; acting modifies nothing |
| Scheduler.Pending | tools/scheduler.py:18-21 | the events not yet due, never more than the list holds |
| Scheduler.Due | tools/scheduler.py:18-20 | the events that are due, never more than the list holds |
| Scheduler.Callbacks | tools/scheduler.py:20 | one callback per event |
| Scheduler.CallbacksAt | tools/scheduler.py:20 | the callbacks are those of the events, in the events' order |
| Scheduler.IndexOf | tools/scheduler.py:21 | the first index that holds the event |
| Scheduler.RemoveFirst | tools/scheduler.py:21 | `list.remove` drops exactly one copy of the event |
| Scheduler.PendingMembers | tools/scheduler.py:19 | an event is left pending exactly when it is listed and not yet due |
| Scheduler.DueMembers | tools/scheduler.py:19-20 | an event fires exactly when it is listed and due |
| Scheduler.PendingDuePartition | tools/scheduler.py:18-21 | the pending and due events together are the list (as multisets); the number fired plus the number left is the length |
| Scheduler.PendingIdempotent | tools/scheduler.py:18-21 | a second run at the same time fires nothing and leaves the list as it is |
| Scheduler.PendingLater | tools/scheduler.py:18-21 | running at t1 and then at a later t2 leaves what one run at t2 leaves |
| Scheduler.DueLater | tools/scheduler.py:18-21 | runs at t1 and then at a later t2 fire together what one run at t2 fires, each event once |
| Scheduler.PendingAppend | tools/scheduler.py:18-21 | filtering out due events distributes over list concatenation |
| Scheduler.DueAppend | tools/scheduler.py:18-20 | keeping due events distributes over list concatenation |
| Scheduler.CallbacksAppend | tools/scheduler.py:20 | the callbacks of a concatenation are the callbacks concatenated |
| Scheduler.ScheduleThenRun | tools/scheduler.py:14 | with a positive delay the new event stays pending and goes last; with delay <= 0 it fires last among the due |
| Scheduler.RemoveAfterPending | tools/scheduler.py:21 | `remove` of a due event that follows only pending events removes that event |
| Scheduler.RunStepEvents | tools/scheduler.py:18-21 | one loop step turns the list "pending prefix + rest" into the next such list |
| Scheduler.RunStepFired | tools/scheduler.py:18-20 | one loop step fires the event's callback exactly when the event is due |
| Scheduler.RunStepDue | tools/scheduler.py:19-21 | a due event that follows the pending part of the walked events is in the list, and removing it leaves that pending part and the rest |
| Scheduler.RunStep | tools/scheduler.py:18-21 | one loop step on the list and the callbacks called so far: a due event is found, removed and its callback called; a later one is skipped |
| Scheduler.WalkedEnds | tools/scheduler.py:18-21 | before the walk the list is the snapshot and nothing has fired; after it the list holds the pending events and the due ones have fired |
| Scheduler.SimpleScheduler.constructor | tools/scheduler.py:10-11 | a new scheduler has no events |
| Scheduler.SimpleScheduler.Schedule | tools/scheduler.py:13-14 | one event, due at now + delay, is appended and the earlier events are unchanged |
| Scheduler.SimpleScheduler.RunPending | tools/scheduler.py:16-21 | afterwards the list is exactly the not-yet-due events in their order; the callbacks fired are those of the due events, in list order |

## Left out

- Logging calls are observability only and are not modelled. They are in `agents/base.py`, `agents/chat.py` and the module loggers.
- The commit-generator scripts, `app.py` and the package `__init__` files are not part of this model. They are random-driven git scripts, a command-line wrapper, and re-exports.
- `datetime.utcnow()` is the parameter `now`, a whole number of clock ticks. `timedelta` is an integer delay. The `OverflowError` that `datetime` raises past year 9999 is not modelled.
- Callbacks are opaque identities (`CallbackId`). `RunPending` returns the callbacks it calls, in call order, instead of calling them.
  - A callback that raises an exception is not modelled. In Python the exception would stop the run with the event still listed.
  - A callback that calls `schedule` during the run is not modelled.
- `Agents.Agent.Act`: `BaseAgent` is an abstract class and `ChatAgent` its only subclass.
  - The model is a closed `AgentKind` datatype with one case, and `Act` matches on it.
  - An open set of subclasses is not modelled.
  - The abstract `act` that raises `NotImplementedError` cannot be reached, because no agent of the base kind exists.
- `Agents.StoredMetadata`: Python stores the caller's own dictionary object, so later changes to it show through the agent. The model stores a map value, which does not capture that aliasing.
- Nlp.LowerOfUpper, Nlp.SentimentIgnoresCase: the uppercase half holds only for the ASCII case mapping the model uses. In Python, `'ſ'.upper()` is `'S'` and `'ı'.upper()` is `'I'`, so `analyze_sentiment("worſt")` is Neutral while `analyze_sentiment("worſt".upper())` is Negative, and `"amazıng"` is Neutral while its upper-case form is Positive. The first half, that texts with the same lowercase form get the same label, holds in Python as well.
- `Nlp.Lower`: `str.lower()` is modelled for ASCII letters only. Other letters, such as accented ones or the Kelvin sign, keep their case in the model.
- `TextWrap.IsSpace`: this is the whitespace set of Python's `str.split()`, and no Unicode database is consulted.
- `TextWrap.IsLetter`: in textwrap's chunking pattern a letter is `[^\d\W]`, which covers every Unicode letter. The model admits only the ASCII letters and `_`.
- `TextWrap.LongWordHead`: the hyphen search in `_handle_long_word` is the behaviour of Python 3.10 and later. Before 3.10 an over-long chunk is always cut at the width, so such a head never survives the placeholder loop there: `"ab 1234-56789012"` at width 10 gives `"ab 1234-…"` in the model and `"ab…"` on Python 3.9.
- `TextWrap.Split`: textwrap also cuts chunks at em-dashes written `--`. That cut is not modelled; a word containing `--` is cut only at its single hyphens.
- `TextWrap.ShortenChunks`: textwrap drops one trailing whitespace chunk before the placeholder loop. The model leaves that to the loop, which drops such a chunk anyway, so the result is the same.
- Tab expansion and the other `TextWrapper` options that `shorten` leaves at their defaults are not modelled. With whitespace collapsed first, they have no effect.
