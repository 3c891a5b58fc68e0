# Subtitle translator bot: a Dafny model of its core

The bot receives `.srt`/`.ass` subtitle files (or `.zip` archives of them),
machine-translates the dialogue lines into a chosen language and sends back a
`.<lang>.txt` file per subtitle file. This project models the parts of it that
have logic of their own, and proves what they promise:

- **Line pipeline** (`translate_subtitles`, in both `bot.py` and
  `bot/translate.py`; the two copies are the same, so one module models both).
  Each line is classified (`LineClassifier`): a line that holds `-->`, is empty
  or whitespace-only, or starts with a digit is copied. Every other line is
  replaced by the translator's output. After line `i` of `total`, a percentage
  report is sent when `i % (total // 5 + 1) == 0`. One completion message ends
  the run. `Pipeline.TranslateSubtitles` is the loop as a method. The
  translator is a function parameter, and the callback is the log of messages
  it receives.
- **Translation client** (`google_translate`): the reply is decoded into
  segments, modelled as a `Reply` value. The result joins the truthy first
  elements of the segments. Any transport, decoding, indexing or type failure
  gives the input text back. `ExtractFlat` is the single handler of `bot.py`;
  `ExtractNested` is the two nested handlers of `bot/translate.py`.
- **Task registry** (`user_tasks` / `user_limits` in `bot.py`). `Registry.State`
  and its transition functions are the specification. The class
  `Registry.TaskRegistry` holds the two dictionaries as `map` fields, which its
  methods update in place: `HandleDoc` (check-then-set of `handle_doc`),
  `Finish` (the `finally` of `handle_lang`) and `Cancel`.
- **Names** (`Naming`): the callback data of the language buttons and how
  `handle_lang` reads the code back with `split("_")[1]`. Also which files of
  an upload are translated, and the output file name `f + "." + lang + ".txt"`.

Two consequences of the code are worth stating up front:

- Line count. `"\n".join` followed by `splitlines` drops a final empty line,
  so the four-line cue `"1\n00:00:01,000 --> 00:00:02,000\nHello world\n\n"`
  comes back as three lines. `Pipeline.OutputLines` and
  `Pipeline.OutputLineCount` state exactly which lines come back.
- Quota. `handle_doc` marks the user active and charges the quota when the
  document arrives, before any language is chosen. `cancel` clears the
  marker at any time and refunds nothing.

## Model

| member | source | states |
|---|---|---|
| `LineClassifier.Classify` | bot.py:58 | The condition of the per-line branch; its meaning is the contract of `ClassifyMeaning`. |
| `LineClassifier.ClassifyMeaning` | bot.py:58 | A line is structural exactly when `-->` occurs in it, when it is empty or all whitespace, or when its first character is a digit. The blank test short-circuits, so an empty line never reaches `line[0]`. |
| `LineClassifier.CueLines` | bot/translate.py:33-36 | The cue number `"1"`, a timing line, the empty line and `"5"` are structural; `"Hello world"` is translatable. |
| `Text.Strip` | bot.py:58 | `str.strip()` over the `isspace` code points; never longer than its input; see `StripEmptyIffBlank`. |
| `Text.Contains` | bot.py:58 | The substring test `"-->" in line`; see `ContainsIffOccurs`. |
| `Text.EndsWith` | bot.py:138-140 | `str.endswith` for one suffix; used by `IsArchive` and `IsSubtitle`. |
| `Text.Join` | bot.py:65 | `sep.join(parts)`; see `JoinSplit`, `SplitJoin` and `JoinSplitLines`. |
| `Text.NatToString` | bot.py:63 | The decimal rendering of the percentage in the f-string, never empty; see `DigitsValueOfNatToString`. |
| `Text.StripEmptyIffBlank` | bot.py:58 | `line.strip() == ""` holds exactly for empty and whitespace-only lines. |
| `Text.ContainsIffOccurs` | bot/translate.py:33 | The scan for `"-->" in line` is true exactly when the pattern occurs at some index. |
| `Text.Split` | bot.py:125 | `str.split` with one separator always yields at least one part, and no part holds the separator. |
| `Text.JoinSplit` | bot.py:125 | Rejoining the parts of a split with the separator gives the string back. |
| `Text.SplitJoin` | bot.py:125 | Splitting a join of parts that do not hold the separator gives the parts back. |
| `Text.SplitLines` | bot.py:54 | No line produced by `splitlines` contains a line break. |
| `Text.JoinSplitLines` | bot.py:54-65 | Splitting `"\n".join(lines)` gives the lines back, less a final empty line. |
| `Text.DigitsValueOfNatToString` | bot.py:63 | Reading back the decimal rendering of a percentage gives the number, so rendering is injective. |
| `TranslationClient.Truthy` | bot.py:49 | The `if part[0]` filter: Python truth of a string, `null` or other JSON value; see `JoinFirstsMeaning`. |
| `TranslationClient.FirstItems` | bot.py:49 | `[part[0] for part in data[0] if part[0]]`, failing where some `part[0]` raises; specified by `JoinFirstsMeaning`. |
| `TranslationClient.JoinStrings` | bot.py:49 | `''.join(...)`, failing on a non-string item; specified by `JoinFirstsMeaning`. |
| `TranslationClient.JoinFirsts` | bot.py:49 | The comprehension followed by the join; specified by `JoinFirstsMeaning`. |
| `TranslationClient.JoinFirstsMeaning` | bot.py:49 | The comprehension and join succeed exactly when every segment has a first element that is a string or falsy. The result is the in-order concatenation of those fragments; skipping falsy ones never changes the text. |
| `TranslationClient.ExtractFlat` | bot.py:48-51 | A transport or decoding failure returns the input text. A well-formed reply returns the concatenated fragments. Any malformed segment returns the input text. |
| `TranslationClient.ExtractNested` | bot/translate.py:19-25 | The inner and outer handlers of `bot/translate.py`; `CopiesAgree` equates it with `ExtractFlat`. |
| `TranslationClient.CopiesAgree` | bot/translate.py:18-25 | The nested handlers of `bot/translate.py` return the same text as the single handler of `bot.py`, for every reply. |
| `TranslationClient.GoogleTranslate` | bot.py:34-51 | When the request fails, the client returns its input. |
| `TranslationClient.OfflineClientIsIdentity` | bot/translate.py:24-25 | A service that always fails makes the client the identity on every text. |
| `Pipeline.TranslateSubtitles` | bot.py:53-65 | The output is the translated lines joined with `"\n"`: one per input line, in order, each copied or translated by its class. The callback log is the scheduled percentage messages followed by the completion message. The ghost output is the record of translator calls, appended in the translator arm of the branch. |
| `Pipeline.TranslateLine` | bot.py:58-61 | One output line: the line itself if structural, the translator's answer otherwise; see `OutputFollowsCalls`. |
| `Pipeline.TranslatedLines` | bot.py:56-61 | The list `result`, one entry per input line; see `OutputFollowsCalls` and `OutputLines`. |
| `Pipeline.TranslatedText` | bot.py:54-65 | The returned `"\n".join(result)`; see `OutputLines` and `IdentityTranslatorCopies`. |
| `Pipeline.Calls` | bot.py:57-61 | The indices of the lines the loop hands to the translator; see `CallsExactlyTranslatable`. |
| `Pipeline.Reports` | bot.py:62-63 | The percentages reported over the first `m` lines; see `ReportsCount`, `ReportsMembership`, `ReportsIncreasing`. |
| `Pipeline.Schedule` | bot.py:57-63 | All percentages one run reports; see the `Schedule*` lemmas. |
| `Pipeline.ReportsAfter` | bot.py:62 | The test `i % (total // 5 + 1) == 0`; see `ScheduleMembership`. |
| `Pipeline.ProgressMessages` | bot.py:63 | The status strings of a list of percentages, one per percentage; the completion message (`CompletionMessage`, bot.py:64) follows them; see `LogEndsWithCompletion`. |
| `Pipeline.ProgressMessage` | bot.py:63 | The status string `"🔄 Progress: N%"`; see `ProgressMessageInjective` and `ProgressIsNotCompletion`. |
| `Pipeline.Interval` | bot.py:62 | The report interval `total // 5 + 1` is at least 1, so the empty file causes no division by zero. |
| `Pipeline.Percent` | bot.py:63 | A reported percentage is below 100. |
| `Pipeline.ScheduleCount` | bot/translate.py:37-38 | A run makes one report per multiple of the interval below `total` (the rounded-up quotient), never more than five. |
| `Pipeline.ScheduleMembership` | bot.py:62-63 | A percentage is reported exactly when it belongs to a line whose index is a multiple of the interval. |
| `Pipeline.ScheduleBounds` | bot.py:63 | Every reported percentage lies in [0, 100). |
| `Pipeline.ScheduleStart` | bot/translate.py:29-38 | A non-empty file reports 0% first. An empty file makes no percentage report. |
| `Pipeline.ScheduleIncreasing` | bot.py:62-63 | The reported percentages strictly increase. |
| `Pipeline.ProgressIsNotCompletion` | bot.py:63-64 | No percentage message equals the completion message. |
| `Pipeline.ProgressMessageInjective` | bot/translate.py:38 | Different percentages give different progress messages. |
| `Pipeline.LogEndsWithCompletion` | bot/translate.py:37-40 | The callback receives at most six messages. The completion message comes exactly once, as the last one. |
| `Pipeline.CallsExactlyTranslatable` | bot/translate.py:32-36 | A line index is in the call record exactly when that line is translatable. The record strictly increases, so each translatable line is translated exactly once and in line order. |
| `Pipeline.OutputFollowsCalls` | bot/translate.py:32-36 | The output has one line per input line: the translator's answer at the called indices, the input line everywhere else. |
| `Pipeline.IdentityTranslatorCopies` | bot.py:57-65 | With a translator that returns its input, the output is the input lines rejoined with `"\n"`. |
| `Pipeline.OfflinePipelineCopies` | bot/translate.py:27-41 | When every request to the service fails, the output is the input lines rejoined with `"\n"`. |
| `Pipeline.OutputLines` | bot/translate.py:28-41 | For any translator that does not answer with a line break, splitting the output gives back exactly the output lines. The one exception is a final empty output line, which is lost. |
| `Pipeline.OutputLineCount` | bot/translate.py:28-41 | If the translator also never answers with an empty text, the output has as many lines as the input. An input whose last line is empty comes back one line shorter. |
| `Pipeline.CueTranslation` | bot/translate.py:32-36 | For the four-line cue, only the dialogue line goes through the translator; the other three lines are copied. |
| `Registry.Count` | bot.py:117 | `user_limits.get(uid, 0)`; see `CountsNeverDecrease` and `CyclesCount`. |
| `Registry.Active` | bot.py:115 | The truthiness test `user_tasks.get(uid)`: a stored task dictionary is never empty, so it is membership; see `StartTwice` and `TaskHandOff`. |
| `Registry.Start` | bot.py:115-120 | A busy user is refused with the state unchanged, and so is a user whose count has reached the limit. Otherwise the user becomes active with the new task and their count rises by exactly 1. No other user's marker, task or count changes. |
| `Registry.Release` | bot.py:149 | The user's marker is gone. All counts stay the same. Every other user's marker and task is kept. |
| `Registry.Lookup` | bot.py:127-128 | `user_tasks.get(uid)` on the state; what it returns after each transition is `TaskHandOff`. |
| `Registry.TaskHandOff` | bot.py:119-149 | After a started upload, `handle_lang` finds the uploaded document's task. After a refusal it finds what was there before. After the job ends or is cancelled it finds nothing. |
| `Registry.StartKeepsInv` | bot.py:117-120 | Starting keeps every count between 1 and the limit, and keeps every active user counted. |
| `Registry.ReleaseKeepsInv` | bot.py:153 | Clearing a marker keeps the registry invariant. |
| `Registry.CountsNeverDecrease` | bot.py:120 | Starting raises any count by at most one. Clearing a marker changes no count, so cancelling refunds nothing. |
| `Registry.ReleaseIdempotent` | bot.py:149 | Clearing twice is the same as clearing once. Clearing an idle user changes nothing. |
| `Registry.StartTwice` | bot.py:115-119 | Of two uploads in a row by one user, at most one starts a job. If the first may start, it does and the second is refused as busy. |
| `Registry.CyclesCount` | bot.py:117-120 | While quota remains, each job that is started and then finished adds exactly one to the count. |
| `Registry.QuotaExhausted` | bot.py:117-118 | A fresh user who has started and finished `DAILY_LIMIT` jobs is refused the next one. |
| `Registry.TaskRegistry.constructor` | bot.py:24-25 | Both dictionaries start empty, and the invariant holds. |
| `Registry.TaskRegistry.HandleDoc` | bot.py:113-120 | The in-place updates of `handle_doc` give the outcome and new state of `Start`, and keep the invariant. A started upload leaves its task to be found by `TaskOf`. |
| `Registry.TaskRegistry.TaskOf` | bot.py:127 | `user_tasks.get(uid)` read off the fields. The ensures of `HandleDoc`, `Finish` and `Cancel` say what it returns after each. |
| `Registry.TaskRegistry.Finish` | bot.py:148-149 | The `finally` pop gives the state of `Release` and keeps the invariant; afterwards `TaskOf` finds nothing. |
| `Registry.TaskRegistry.Cancel` | bot.py:152-153 | The cancel pop gives the state of `Release` and keeps the invariant; afterwards `TaskOf` finds nothing. |
| `Naming.CallbackData` | bot.py:85-88 | The data `"lang_" + code` of a language button; the buttons (`ButtonData`, with the cancel button at bot.py:89) and `LANGS` (`Langs`, bot.py:26-31) are constants; see `LanguageButtons`. |
| `Naming.IsArchive` | bot.py:138 | `file_path.endswith(".zip")`; see `SingleUpload` and `OutputNameShape`. |
| `Naming.LangOf` | bot.py:125 | `cb.data.split("_")[1]`, failing where there is no second part; see `LangOfCallbackData`. |
| `Naming.LangOfCallbackData` | bot.py:125 | For any code without `_`, `("lang_" + code).split("_")[1]` is that code. |
| `Naming.LanguageButtons` | bot.py:83-90 | Each language button's data parses back to its own code, and the button codes are exactly the keys of `LANGS`. |
| `Naming.Caption` | bot.py:145 | `LANGS[lang]`, failing with KeyError off the supported codes; its partner is `ButtonsHaveCaptions`. |
| `Naming.ButtonsHaveCaptions` | bot.py:125-145 | The code read back from each button of `lang_buttons` (bot.py:85-88) is a key of `LANGS`, so the caption lookup cannot raise for the bot's own buttons. |
| `Naming.IsSubtitle` | bot.py:140 | `f.endswith((".srt", ".ass"))`; see `OutputPathsMembership`. |
| `Naming.FilesOf` | bot.py:138 | The archive's entries, or the upload alone; see `SingleUpload` and `ArchiveUpload`. |
| `Naming.OutputName` | bot.py:143 | `f"{f}.{lang}.txt"`; see `OutputNameShape` and `OutputNameInjective`. |
| `Naming.OutputPaths` | bot.py:139-144 | The files written, in order; see `OutputPathsMembership` and `OutputPathsAppend`. |
| `Naming.OutputNameShape` | bot.py:143 | The output name starts with the input path and ends in `.<lang>.txt`. It is never a subtitle file, never an archive, and never the input's name. |
| `Naming.OutputNameInjective` | bot.py:143 | Different inputs get different output names for the same language. |
| `Naming.OutputPathsMembership` | bot.py:139-143 | On a run in which no step raises, an output is written for exactly the files of the upload that end in `.srt` or `.ass`. |
| `Naming.OutputPathsAppend` | bot.py:139 | Outputs follow the order of the input files. |
| `Naming.SingleUpload` | bot.py:138-140 | An upload that is not an archive gives one output if it is a subtitle file, and none otherwise. |
| `Naming.ArchiveUpload` | bot.py:138-143 | An archive holding `movie.srt` and `readme.txt` gives exactly one output, `temp/movie.srt.es.txt`. |

## Left out

- Network and async machinery: the HTTP request, `aiohttp` sessions, `urlencode` and `await` (bot.py:36-47, bot/translate.py:7-18). The request is the `fetch` parameter of `GoogleTranslate`. JSON decoding is folded into the `Reply` value it returns. The code runs sequentially.
- Reply shape: only as much of the decoded JSON as the return expression inspects is modelled. A reply whose `data[0]` cannot be taken or iterated is `Received(None)`. A string segment is written as the array of its one-character strings.
- Filesystem I/O: `extract_zip`, `read_file` and `write_file` (bot.py:68-80, bot/file_utils.py:5-17). The entries of an archive are a parameter of `Naming.FilesOf`.
- Platform glue: the Pyrogram client, the `start` handler, keyboards, message replies and edits, `is_subscribed` (a membership query whose errors are swallowed), the download in `handle_lang`, and the regex routing of callback queries. `handle_lang`'s `except` ("Failed") path is one of these: the model only says when `LANGS[lang]` raises (`Naming.Caption`).
- Flask keepalive thread, configuration loading (bot/config.py, bot.py:16-21) and `main.py`. `DAILY_LIMIT` is a constructor parameter of `TaskRegistry`. The `bot.handlers` module that `main.py` imports is not part of this model.
- Concurrency: each handler transition is one atomic method. No `await` separates the check from the set in `handle_doc`, so this is faithful for the event loop. Interleavings of different handlers are not modelled.
- Pipeline.Percent: uses integer division `i * 100 / total`. The source computes `int((i/total)*100)` in floating point, which can be one lower (i = 29, total = 100 gives 28, not 29). The model does not claim exact agreement.
- Text.SplitLines: splits on `'\n'` only. Python's `str.splitlines` also breaks at `'\r'`, `'\x0b'`, `'\x1c'` and other separators.
- Text.IsDigit: accepts only ASCII digits, while Python's `str.isdigit` also accepts other Unicode digits. Text.IsSpace follows the code points of `str.isspace`.
- Pipeline.TranslateSubtitles: the translator is a pure function. A call that raises, or whose answer depends on earlier calls, is not modelled. The bot's own client catches its failures, apart from cancellation in bot/translate.py (see TranslationClient.CopiesAgree).
- TranslationClient.CopiesAgree: covers the modelled replies only. The bare `except:` at bot.py:50 also swallows `BaseException`s such as `asyncio.CancelledError`, which `except Exception` at bot/translate.py:22,24 lets through. Cancellation is not modelled.
- Naming.OutputPathsMembership: `OutputPaths` describes a run in which no step raises. At bot.py:144-145 the file is written before `LANGS[lang]` is evaluated. So with an unsupported code, the first subtitle file's output is written, the KeyError ends the loop, and the remaining files get none.
- Registry.TaskRegistry.HandleDoc: requires the registry invariant, which the constructor establishes and every method keeps.
- Stale markers and quota reset. The registry lives in memory (bot.py:24-25), so a restart clears every marker and every count. Any exception inside the `try` (bot.py:137-147) still reaches the `finally` pop at bot.py:149. An exception in the download or the first edit (bot.py:131-132) happens before the `try`, so the pop is skipped and the user stays active until `cancel` or a later language choice. There is no timeout, and counts never reset while the process runs. The model has no restart and no such skipped pop.
- TranslationClient.GoogleTranslate: its target has no default. The default `target="en"` (bot.py:34, bot/translate.py:5) is never used, because the pipeline always passes `target=lang`.
