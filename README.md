# QuestForge quest generation, modelled in Dafny

QuestForge turns a short keyword ("dragon", "forest") into a fantasy quest
description and serves it over a small web API. This project models its core:

- the **example store** (`src/web/test.py`): three built-in (prompt, quest)
  pairs, extended once at start-up with the records decoded from the first 50
  lines of `dataset.json`, skipping lines that do not decode and records already
  present;
- the **quest generator** `generate_quest` (`src/web/test.py`): the text the
  language model wrote after the `### Quest:` marker, or else the fallback chain
  — the quest of the first example whose prompt equals the keyword ignoring
  case, a copy of the quest of the first example whose prompt contains or is
  contained in the keyword with up to three eligible words swapped for words
  of stored quests, or a generic template around the keyword;
- the **request handler** `generate_endpoint` and its legacy alias
  (`src/web/app.py`): rejects a missing prompt with 400, cleans echoed JSON out
  of the generator's answer, rejects an empty or prompt-equal answer with 500,
  turns a raised error into 500 with its message, and counts successful
  responses in the process-wide `request_count`.

Files: `wrappers.dfy` (Option, Result), `pystr.dfy` (the Python string
operations the code relies on: `in`, `split(sep)`, `join`, `split()`, `strip`,
ASCII `lower`), `example_store.dfy`, `quest_generator.dfy`, `server.dfy`.

The model keeps the source's imperative form where it has one: the loading
loop, the two search loops, the in-place word substitution loop and the
cleanup loop are methods with loop invariants. The loading, partial-search,
substitution and cleanup loops are proved equal to a specification function;
the exact-search loop is proved to return the quest of the first match and
nothing exactly when there is none. In the cleanup loop the `break` is a
`break`, and the `continue` on a missing key is a step (`Server.TryPart`) that
extracts nothing. The handler is a class holding the store and the request
counter. The properties are proved as
lemmas about the specification functions.

Inputs the source takes from the outside world are parameters: the model's
decoded output (`None` when the model cannot be loaded or run), the random
choices of the substitution rounds (one `Draw` per round, each number reduced
modulo the size of what it picks from, so every outcome of `randint`/`choice`
is some draw), the regular-expression search of the cleanup (an oracle that
reports no match, a captured group, or a pattern error), and the data file
(`None` when missing or unreadable, otherwise one decoded record or `None` per
line).

## Behaviour of the code worth knowing

- When the cleanup's regular expression does not match and no piece of the
  split on `{"prompt":` both mentions the prompt and holds a `"quest":` key,
  the handler's `quest` is left as the *list* of pieces (`src/web/app.py:50`).
  The empty/equal-to-prompt check (`src/web/app.py:62`) cannot reject a
  non-empty list, so such an answer is returned with status 200 as a list —
  including an empty answer and an answer equal to the prompt
  (`Server.PlainAnswerIsWrapped`, `Server.PiecesWhenNothingExtracted`). Every
  fallback quest that holds neither `"quest":` nor `{"prompt":`, the built-in
  ones among them, is therefore returned wrapped in a one-element list; one
  that holds `{"prompt":` but no `"quest":` is returned as the list of its
  pieces. So a raw answer is never returned as a plain string when extraction
  fails, and an empty or prompt-equal answer is rejected only when it is the
  regular expression's captured group or a piece's extracted quest.
- The generator can return the empty string: the model's text after the
  marker may be only whitespace, and a stored quest may have no words.
  `QuestGenerator.FallbackNonEmpty` gives the condition under which the
  fallback chain cannot.
- An exact match is always a partial match too, so without a model answer the
  generic template is used exactly when no stored prompt contains, or is
  contained in, the keyword (`QuestGenerator.GenericWhenNoMatch`).

## Model

| member | source | states |
|---|---|---|
| `PyStr.IndexOf` | src/web/test.py:116 | the result is the first position at which the substring occurs, and `None` exactly when it occurs nowhere (Python's `in`) |
| `PyStr.Split` | src/web/test.py:97 | `split(sep)` always yields at least one piece |
| `PyStr.SplitPieces` | src/web/test.py:97 | `split(sep)` has a second piece, so that `[1]` does not raise, exactly when the separator occurs |
| `PyStr.SplitPiecesFree` | src/web/app.py:50 | no piece of `raw.split('{"prompt":')` contains the separator, so the pieces are exactly the text between successive occurrences |
| `PyStr.JoinSplit` | src/web/app.py:50 | the pieces of `raw.split('{"prompt":')` rejoined with the separator give back `raw` |
| `PyStr.SplitFirst` | src/web/app.py:56 | `s.split(sep)[0]` is the text before the first occurrence of `sep`, or all of `s` |
| `PyStr.SplitSecond` | src/web/app.py:55 | `s.split(sep)[1]` is the text between the first and the second occurrence of `sep` (or the end) |
| `PyStr.SplitFirstOfSuffix` | src/web/app.py:55 | the first piece of the split of the text after position `d` ends at the next occurrence at or after `d` |
| `PyStr.StripWith` | src/web/app.py:57 | `strip(chars)` leaves a contiguous piece of the input with only stripped characters around it, and neither of its ends is a stripped character |
| `PyStr.Words` | src/web/test.py:118 | every element of `s.split()` is a non-empty run without whitespace |
| `PyStr.WordsLayout` | src/web/test.py:118 | `s.split()` is all the maximal whitespace-free runs of `s`, in order: `s` is exactly those words interleaved with runs of whitespace, and every run between two words is non-empty |
| `PyStr.WordsOfJoin` | src/web/test.py:126 | `' '.join(words).split()` gives back `words` when each element is a word |
| `ExampleStore.Examined` | src/web/test.py:22 | only the first 50 lines of the file are examined, all of them when there are fewer |
| `ExampleStore.LoadExamples` | src/web/test.py:11-28 | the loading loop produces the built-in pairs followed by each new decoded record of the examined lines, in file order; a missing file leaves the built-in pairs |
| `ExampleStore.AppendNewExtends` | src/web/test.py:22-26 | loading only appends: earlier entries stay in place, and each line adds at most one entry |
| `ExampleStore.AppendNewDistinct` | src/web/test.py:25-26 | the `not in` check keeps the store free of duplicates |
| `ExampleStore.AppendNewMembers` | src/web/test.py:22-28 | a record is stored after loading exactly when it was stored before or some examined line decoded to it; a line that fails to decode is skipped without affecting the others |
| `ExampleStore.BuiltinsDistinct` | src/web/test.py:11-15 | the three built-in pairs are distinct |
| `ExampleStore.LoadedStore` | src/web/test.py:11-30 | after start-up the store starts with the three built-in pairs in order, has no duplicates, holds at most 50 more entries, and holds a record exactly when it is built in or one of the first 50 lines decoded to it |
| `QuestGenerator.ExtractQuest` | src/web/test.py:97 | the model path yields an answer exactly when its output contains `### Quest:`; otherwise indexing the split raises and the fallback chain runs |
| `QuestGenerator.ExtractQuestBetweenMarkers` | src/web/test.py:97 | the model's answer is the stripped text between the first and the second `### Quest:` (or the end of the output) |
| `QuestGenerator.FirstMatch` | src/web/test.py:110-116 | the search returns the first example in list order that matches, and `None` exactly when none does |
| `QuestGenerator.ExactIsPartial` | src/web/test.py:111-116 | a prompt equal to the keyword ignoring case also satisfies the containment test |
| `QuestGenerator.FindExact` | src/web/test.py:110-112 | the exact-match loop returns the quest of the first example whose lowered prompt equals the lowered keyword, and nothing exactly when there is none |
| `QuestGenerator.FindPartial` | src/web/test.py:115-116 | the partial-match loop stops at the first example whose lowered prompt contains, or is contained in, the lowered keyword |
| `QuestGenerator.Rounds` | src/web/test.py:119 | the substitution loop runs `min(3, n)` rounds |
| `QuestGenerator.Substitute` | src/web/test.py:120-125 | one round keeps the number of words |
| `QuestGenerator.SubstituteElsewhere` | src/web/test.py:120-125 | one round changes no position other than the drawn one |
| `QuestGenerator.SubstituteDrawn` | src/web/test.py:120-125 | if the drawn position changes, it held a word longer than four characters starting with a lower-case letter, and now holds a word of some stored quest |
| `QuestGenerator.Vary` | src/web/test.py:119-125 | the rounds together keep the number of words |
| `QuestGenerator.VaryQuest` | src/web/test.py:118-126 | the in-place substitution loop computes the specified rounds and joins the words with single spaces |
| `QuestGenerator.VaryChanges` | src/web/test.py:119-125 | each round changes at most one position; a changed position held a word longer than four characters starting with a lower-case letter, and now holds a word of some stored quest; words stay words |
| `QuestGenerator.GenericQuest` | src/web/test.py:129 | the generic quest contains the keyword verbatim and is longer than it, hence non-empty |
| `QuestGenerator.GenerateQuest` | src/web/test.py:33-129 | `generate_quest` runs the model path, then the exact, partial and generic fallbacks, in that order |
| `QuestGenerator.ModelAnswerWins` | src/web/test.py:97-98 | when the model's output holds the marker, its extracted answer is returned and no example is consulted |
| `QuestGenerator.ExactMatchReturnsQuest` | src/web/test.py:110-112 | without a model answer, the quest of the first example equal to the keyword ignoring case is returned unchanged |
| `QuestGenerator.PartialMatchShape` | src/web/test.py:114-126 | without a model answer or exact match, the answer has exactly as many words as the first partially matching example's quest, at most `min(3, n)` positions differ, and each differing position replaced an eligible word by a word of some stored quest |
| `QuestGenerator.GenericWhenNoMatch` | src/web/test.py:114-129 | without a model answer and with no containment match, the answer is the generic template, which contains the keyword |
| `QuestGenerator.FallbackNonEmpty` | src/web/test.py:105-129 | when every stored quest has a word, the fallback chain never answers with the empty string |
| `QuestGenerator.BuiltinDragon` | src/web/test.py:110-112 | with the built-in store and no model, "dragon" yields the built-in dragon quest |
| `Server.PartQuest` | src/web/app.py:55-57 | a piece yields a quest exactly when it holds a `"quest":` key; otherwise the indexing raises and the piece is skipped |
| `Server.PartQuestBetween` | src/web/app.py:55-57 | a piece's quest is the text after the first `"quest":` up to the earlier of the next `"quest":` and the first `}`, stripped of quotes and spaces, then of whitespace |
| `Server.FirstYield` | src/web/app.py:51-60 | the cleanup takes the first piece that mentions the prompt ignoring case and holds the key, and takes none exactly when no piece does |
| `Server.CleanQuest` | src/web/app.py:41-60 | the cleanup gives the stripped captured group when the regular expression matches, the raised error when the pattern is invalid, and otherwise the result of the split cleanup |
| `Server.SplitCleanup` | src/web/app.py:49-60 | the cleanup loop, with its `continue` on a missing key and `break` at the first extraction, computes the specified split cleanup: the quest of the first piece that yields one, or the list of pieces when none does |
| `Server.TryPart` | src/web/app.py:51-60 | one loop step extracts a quest exactly when the piece mentions the prompt ignoring case and holds the key (a piece without the key raises in the `try` block and is skipped), and the extracted quest is the piece's quest as `PartQuestBetween` describes it |
| `Server.QuestApp.constructor` | src/web/app.py:13 | the application starts with the loaded example store and a request count of zero |
| `Server.QuestApp.Generate` | src/web/app.py:22-77 | the handler answers as specified, and the request count grows by one exactly when the answer is a 200 |
| `Server.QuestApp.GenerateQuestEndpoint` | src/web/app.py:117-120 | the legacy route gives the same answer and the same counter update as `/generate` |
| `Server.HandleOutcomes` | src/web/app.py:27-75 | every answer is 200, 400 or 500; 400 with "Prompt is required" exactly when the prompt is missing or empty; a 200 echoes the prompt and carries the cleaned, non-degenerate quest |
| `Server.DegenerateRejected` | src/web/app.py:62-63 | a cleaned quest that is empty or equal to the prompt is answered with 500 "Failed to generate a valid quest" |
| `Server.SplitCleanupUsesFirstYield` | src/web/app.py:49-58 | the split cleanup extracts its quest from the first piece that mentions the prompt and holds the key |
| `Server.PiecesWhenNothingExtracted` | src/web/app.py:50-62 | when no piece yields a quest, the split cleanup's quest is the non-empty list of pieces, which rejoins to the raw text and is never rejected as degenerate |
| `Server.PlainAnswerIsWrapped` | src/web/app.py:41-75 | a generator answer holding neither `{"prompt":` nor `"quest":`, with no regex match, is answered 200 with a one-element list, even when it is empty or equal to the prompt |

## Left out

- Loading and running GPT-2 through `transformers`/`torch` (`src/web/test.py:40-94`), including the instruction prompt built around the keyword: the decoded output is an input, `None` when loading or generation fails.
- The regular expression of the cleanup (`src/web/app.py:43-44`): its matching semantics, the unescaped prompt inside it and `re.IGNORECASE` are abstracted into an oracle returning no match, the captured group, or a pattern error.
- `json.loads` and reading `dataset.json` (`src/web/test.py:18-24`): each line is given already decoded or as `None`. Decoded values are assumed to be objects with `prompt` and `quest` strings and no other keys (the `not in` test compares whole objects, which the model compares as (prompt, quest) pairs); a value without them would make the fallback search raise at `src/web/test.py:111`, and that path is not modelled.
- `random.randint` and `random.choice`: the choices are the `Draw` inputs, reduced modulo the size of the range they pick from.
- Unicode case: `lower()` and `islower()` are modelled on ASCII letters only; other letters are neither lowered nor treated as lower-case.
- Prompts that are JSON values other than strings, and request bodies that are not JSON objects: the prompt is an optional string.
- Exceptions other than the pattern error: with well-formed stored records the generator and the cleanup raise nothing else, so the handler's catch-all (`src/web/app.py:76-77`) is modelled for that error only.
- The `isinstance(quest, str)` test (`src/web/app.py:41`): the generator always returns a string, so the test always holds.
- The measured `elapsed_time` (`src/web/app.py:35`, `src/web/app.py:66`): wall-clock floating point, not part of the response body here.
- The `/status` endpoint (`src/web/app.py:79-114`), the start time, `psutil` figures and the `/` page: observability and templating glue.
- Atomicity of `request_count` under concurrent requests: requests are handled one at a time.
- Flask routing and CORS set-up, printing and logging.
- `src/training/train.py`, `src/config/llm_config.py` and `src/prompt/prompt_template.py`: library calls, a network client and a string constant, not part of this model.
