# Velocity typing race, modelled in Dafny

Velocity is a single-page typing game. The page fetches a random quote, splits it
into words, and then passes the text of the input field to a `Race` object on every
keystroke. The race strips each correctly typed word, together with the space after
it, from the front of the field. It fires the registered next-word callbacks and
completes when the last word is typed exactly. This project models the two parts of
`public/scripts/race.js` that hold that logic:

- **Tokenizer** (`tokenizer.dfy`, module `Tokenizer`): `getWords` splits a quote on
  every maximal run of characters outside the word alphabet. The word alphabet is the
  ASCII letters, the digits and `, . ? ' " : ; ~ ! @ # $ % ^ & * ( ) _ - = +`. The
  split follows string `split` semantics: a leading or trailing separator run gives
  an empty first or last word, and the empty quote gives `[""]`. `Separators` returns
  the runs that were cut out. `IsSplitting` is an independent description of a
  correct split. It is proved both to hold of the computed words and to determine
  them uniquely.
- **Race engine** (`race.dfy`, module `RaceEngine`): the race state is an immutable
  record `{words, wordIndex, startTime, endTime, running, callbacks}`. `Accept` is a
  pure recursive function of (race, text, clock reading). It returns the new race,
  the text left over, and the trace of word indices handed to the callbacks.
- **Properties of `Accept`** (`race_properties.dfy`, module `RaceProperties`): one
  lemma for each branch of `accept`, stated through reference predicates rather than
  the code's `indexOf` test. Also: a characterisation of `Accept` as greedy word
  stripping (`GreedyOutcome`), preservation of the race invariant `Valid`, the edge
  cases, and completion when a whole quote arrives in one input.
- **Keystroke loop** (`typing.dfy`, module `Typing`): the page sets the field to the
  value `accept` returns (race.js lines 171-172). Here that loop is a fold over keys
  typed at the end of the field. The lemmas show that, after loading a quote that
  starts and ends with a word character, typing its words key by key completes the
  race on the last key and not before. The elapsed time runs to the last key from the
  first key, or from the old start time when the race was still running as the quote
  was loaded: `prepare` does not reset the timing, so a stray key typed after a
  completion and before the next quote is loaded starts the next race's clock.

Time is a `Timestamp` parameter, a positive integer of milliseconds standing for
`Date.now()`. Callbacks are identities (`CallbackId`). The trace `fired` of one
`Accept` holds the index passed to the callbacks at each word advance, in order.
Each index goes to every callback in registration order. `Calls` spells those
calls out as `Notification(callback, wordIndex)` entries. Reading
`words[i]` past the end of the array gives JavaScript's `undefined`, which is modelled
as `Option.None`. `undefined` never equals a string, so `None` never matches a typed
word.

Behaviour of the code worth knowing, which the model follows:

- `prepare` sets only `words` and `wordIndex`. It does not reset `running`,
  `startTime` or `endTime`. So straight after a completed race is re-prepared,
  `completed` is still true, until the next keystroke begins timing again.
- Words can be empty. A quote that starts with a separator has an empty first word,
  and the race can then never get past it (`LeadingSeparatorBlocksRace`).
- The completion branch runs whenever the first space is not at a positive index.
  That includes text that starts with a space, and not only text with no space.
- Typing the last word followed by a space moves `wordIndex` past the end. The race
  then never completes (`LastWordWithSpaceOverruns`, `PastEndIsStuck`). Also, from
  then on `wordNumber` is larger than the number of words.

## Model

| member | source | states |
|---|---|---|
| Tokenizer.WordCharClass | public/scripts/race.js:2 | The ASCII ranges `IsWordChar` is written with are exactly the class of the splitting expression: letters, digits and the listed punctuation. |
| Tokenizer.GetWords | public/scripts/race.js:119-121 | The split has at least one word, and every word holds only word characters. The first word is empty exactly when the quote is empty or starts with a separator. A leading separator gives at least two words. |
| Tokenizer.Separators | public/scripts/race.js:2 | There is one separator run fewer than there are words. Every run is non-empty and made of separator characters only. |
| Tokenizer.GetWordsIsSplitting | public/scripts/race.js:119-121 | Interleaving the words with the separator runs gives back the quote. The pieces form a splitting: words of word characters, non-empty separator runs, and no empty word inside the sequence. |
| Tokenizer.SplittingIsUnique | public/scripts/race.js:2 | Any splitting of a text into words and maximal separator runs is exactly the one `GetWords` and `Separators` compute. |
| Tokenizer.SplitWordsAreUnique | public/scripts/race.js:2 | The words of any splitting of a text equal `GetWords` of that text. |
| Tokenizer.Filter | public/scripts/race.js:2 | Keeping only the word characters of a text gives a text of word characters that is no longer than the input. |
| Tokenizer.ConcatOfWordsIsFilter | public/scripts/race.js:119-121 | Gluing the words together gives the quote with every separator character deleted. |
| Tokenizer.JoinThenSplit | public/scripts/race.js:119-121 | Words that could come out of a split, joined by single spaces, split back into the same words. |
| Tokenizer.SplitIsIdempotent | public/scripts/race.js:119-121 | Re-splitting the space-joined words of any quote gives the same words. |
| Tokenizer.InteriorWordsAreNonEmpty | public/scripts/race.js:2 | Only the first and the last word can be empty. |
| Tokenizer.LastWordEmptyIff | public/scripts/race.js:2 | The last word is empty exactly when the quote is empty or ends with a separator character. |
| RaceEngine.NewRace | public/scripts/race.js:11-18 | The constructed race is valid, not running and not completed, has no current word and has no callbacks. |
| RaceEngine.RegisterCallback | public/scripts/race.js:72-74 | Pushing onto the callback array appends one callback and changes nothing else. |
| RaceEngine.Prepare | public/scripts/race.js:27-30 | The words become the split of the quote and the index goes back to 0, so the current word is the quote's first word. `running`, `startTime`, `endTime` and the callbacks keep their values, and validity is kept. |
| RaceEngine.Started | public/scripts/race.js:32-37 | A race that is not running gets `startTime = now`, `endTime = 0` and `running = true`. A running race keeps its timing. Words, index and callbacks are unchanged. |
| RaceEngine.CurrentWord | public/scripts/race.js:68-70 | The current word is present exactly when the index is inside the word list, and it is then the word at the index. |
| RaceEngine.Begin | public/scripts/race.js:32-37 | Starting the timer leaves the race running and not completed, with the start time `now`; the race is valid as long as its index is in range, and words, index and callbacks stay. |
| RaceEngine.Complete | public/scripts/race.js:39-43 | Stopping the timer leaves the race completed and not running, with an elapsed time of `now` minus the start time; a race with an index in range and a start time stays valid. |
| RaceEngine.Completed | public/scripts/race.js:56-58 | The `completed` getter is false for every valid race that is running. |
| RaceEngine.WordNumber | public/scripts/race.js:60-62 | The word number is at least 1, and it is within the word count exactly when there is a current word. |
| RaceEngine.ElapsedMillis | public/scripts/race.js:48-50 | The numerator of `getDuration`; on a valid running race there is no end time yet, so it is negative. |
| RaceEngine.IndexOf | public/scripts/race.js:85 | The result is -1 or a position inside the text; `IndexOfFindsFirst` states which position. |
| RaceProperties.IndexOfFindsFirst | public/scripts/race.js:85 | `indexOf` gives -1 exactly when the character does not occur. Otherwise it gives the position of the first occurrence. |
| RaceEngine.Fire | public/scripts/race.js:90-92 | Every callback is called once, in registration order, with the given index. |
| RaceEngine.Calls | public/scripts/race.js:89-92 | A trace of indices makes as many calls as indices times callbacks. |
| RaceEngine.NextMove | public/scripts/race.js:85-101 | A move that advances leaves a strictly shorter text to accept, so the recursion of `accept` ends. |
| RaceEngine.Accept | public/scripts/race.js:80-102 | Accept never removes words or callbacks, never moves the index back, and keeps the index inside the list. `startTime` is `now` if the race was not running and is untouched otherwise, recursion included. |
| RaceProperties.NextMoveIff | public/scripts/race.js:84-101 | The branch taken is: advance past the current word and its space when the text starts with them, finish when the text is exactly the last word with no space at a positive index, and stay otherwise. |
| RaceProperties.AcceptOnAdvance | public/scripts/race.js:88-93 | On an advancing move, the result is `accept` of the rest from the race one word on, with the new index in front of the trace. |
| RaceProperties.MatchIffStripsWord | public/scripts/race.js:85-88 | "First space at p > 0 and the text before it equals the current word" holds exactly when the text starts with the current word and a space, and that word is non-empty and has no space. The space is then right after the word. |
| RaceProperties.NoPositiveSpaceIff | public/scripts/race.js:85-86 | The first space is not at a positive index exactly when the text has no space or starts with one. |
| RaceProperties.AcceptAdvances | public/scripts/race.js:85-93 | On a match, the index rises by exactly one and the callbacks get the new index first. The result is then `accept` of the text after the space. |
| RaceProperties.AcceptFinishes | public/scripts/race.js:95-98 | When the text is exactly the last word, with no space at a positive index, the race completes: `endTime = now`, it stops running, `""` is returned, and the index stays on the last word. |
| RaceProperties.AcceptRejects | public/scripts/race.js:86-101 | In every other case only the timing begins: the text comes back unchanged, with the same index and no callbacks. |
| RaceProperties.AcceptPartialWord | public/scripts/race.js:86-101 | A prefix of the current word with no space, short of the whole last word, only begins timing: the text comes back as the residual and no callback fires. |
| RaceProperties.AcceptFiresPerAdvance | public/scripts/race.js:89-93 | The trace of one Accept that moves the index from `i` to `j` is `i + 1, ..., j`: one entry per word advance, in order, each the new index. |
| RaceProperties.AcceptResidualIsSuffix | public/scripts/race.js:80-102 | The returned text is a suffix of the input. |
| RaceProperties.AcceptIsGreedyStrip | public/scripts/race.js:80-102 | Accept strips the matching words, each with its space, from the front for as long as they match. It then stops on a residual that neither matches nor completes, or completes on exactly the last word with an empty residual and `endTime = now`. |
| RaceProperties.AcceptPreservesValid | public/scripts/race.js:32-43 | Accept keeps the race valid: the index is within bounds, a running race has no end time, and a race that is running or has an end time has a start time. Afterwards the race is completed exactly when it is not running. |
| RaceProperties.CompletionElapsed | public/scripts/race.js:48-50 | When Accept completes a race, the elapsed milliseconds are `now` minus the start time, which is never negative on a clock that does not run backwards. |
| RaceProperties.ConstructionIsValid | public/scripts/race.js:11-30 | A new race is valid. Preparing a valid race or registering a callback on it keeps it valid. |
| RaceProperties.LastWordWithSpaceOverruns | public/scripts/race.js:86-93 | `last word + " "` moves the index to the word count. The race keeps running and is not complete, the current word is undefined, and the word number exceeds the word count. |
| RaceProperties.AcceptWordAndSpace | public/scripts/race.js:86-101 | The current word (not the last) and a space, with a non-empty next word, move the race one word on, return `""` and pass the new index to the callbacks. |
| RaceProperties.PastEndIsStuck | public/scripts/race.js:84-101 | Past the end of the list every input comes back unchanged. No callback fires and the race never completes. |
| RaceProperties.EmptyWordOnlyMatchesEmptyInput | public/scripts/race.js:86-99 | An empty target word is never advanced past. It completes the race exactly when it is the last word and the input is `""`. |
| RaceProperties.LeadingSeparatorBlocksRace | public/scripts/race.js:27-30 | After loading a quote that starts with a separator, no input moves the race off its first word or completes it. |
| RaceProperties.TypingRemainingWordsCompletes | public/scripts/race.js:80-102 | One input holding the remaining words joined by spaces completes the race with `""`, and the index ends on the last word. |
| RaceProperties.TypingAllWordsCompletes | public/scripts/race.js:80-102 | One input holding all the words of a race from its first, joined by spaces, completes the race with `""`, and the callbacks get 1 to n-1. |
| Tokenizer.SplitWordsTypable | public/scripts/race.js:2 | Split words whose first word is non-empty (or the only one) hold no space, and every word but the last is non-empty. |
| RaceProperties.TypingQuoteCompletes | public/scripts/race.js:80-102 | Loading a quote and typing all its words joined by spaces, in one input, completes the race and fires callbacks with 1 to n-1, unless the first word is empty and there are several words. |
| RaceProperties.RangeCountsUp | public/scripts/race.js:89-92 | The trace `i + 1, ..., j` has `j - i` entries and goes up by exactly one at each entry. |
| RaceProperties.AcceptTraceCountsUp | public/scripts/race.js:89-93 | The trace of one Accept has one entry per word advance and goes up by exactly one from the old index plus one to the new index. |
| RaceProperties.CallsAppend | public/scripts/race.js:90-92 | The callback calls for two traces in a row are the calls for the first followed by the calls for the second. |
| RaceProperties.SingleCallbackSeesTrace | public/scripts/race.js:90-92 | With one callback, that callback receives exactly the indices of the trace, in order. |
| RaceProperties.CallsComeInRounds | public/scripts/race.js:89-92 | With any number of callbacks, call `j` of round `k` is callback `j` (in registration order) receiving the `k`-th index of the trace. |
| RaceProperties.CallInRound | public/scripts/race.js:89-92 | The same for one round and one callback, with the position of the call inside the list of calls. |
| Typing.KeystrokeKeepsSuffix | public/scripts/race.js:169-172 | After one key the field holds a suffix of its old value followed by the key; the race keeps its words and callbacks and its index does not move back. |
| Typing.TypeKeysFrame | public/scripts/race.js:169-172 | A run of keys keeps the race's words and callbacks, and the index never moves back or past the end of the word list. |
| Typing.TypeKeysAppend | public/scripts/race.js:169-173 | Typing one key sequence and then another is the same as typing their concatenation. |
| Typing.TypeNextChar | public/scripts/race.js:169-173 | One more character of the current word, typed after the ones before it, stays in the field and only begins timing. |
| Typing.TypePartialWord | public/scripts/race.js:169-173 | Typing part of the current word keeps that part in the field and changes only the timing, as long as it is not all of the last word. |
| Typing.TypeWordAndSpace | public/scripts/race.js:169-173 | Typing a non-last word and then a space moves to the next word and empties the field. |
| Typing.TypeLastWord | public/scripts/race.js:169-174 | Typing the last word completes the race on its final key, with `endTime` set to that key's time, and empties the field. |
| Typing.CompletesOnLastWord | public/scripts/race.js:169-174 | From the last word, typing it completes on the last key and not before. |
| Typing.RunningWithinWord | public/scripts/race.js:169-173 | While part of a non-last word is being typed, the race is running. |
| Typing.TypingRemainingWords | public/scripts/race.js:169-174 | Typing the remaining words key by key completes the race on the last key and not before. Timing runs from the first key, or from the old start time, to the last key. |
| Typing.TypingAllWords | public/scripts/race.js:169-174 | Typing all words of a race from its first, key by key, completes the race on the last key and not before. |
| Typing.CompletionTiming | public/scripts/race.js:48-50 | When typing completes the race, the elapsed milliseconds run from the first key, or the old start time, to the last key. |
| Typing.TypingQuoteKeystrokes | public/scripts/race.js:169-177 | After loading a quote that starts and ends with a word character, typing its words key by key completes on the last key and not before, with the index on the last word and an empty field. The elapsed time is the last key's time minus the first key's time, or minus the old start time when the race was still running as the quote was loaded. |

## Left out

- `getQuote` (race.js 109-113): a network fetch and a JSON parse. The quote is a parameter of `Prepare`.
- `load` (race.js 123-184): DOM updates, the `alert`, the body of the page's callback, and the call to `reset` after completion. Only the field-value feedback loop of lines 171-172 is modelled, in `Typing`. The `InputEvent` filter is not.
- `getDuration`, `getWordsPerMinute` and `progress` (race.js 48-54, 64-66): floating-point division. Only the integer numerator `ElapsedMillis = endTime - startTime` is modelled.
- `console.log` calls, and `Date.now()` itself, which becomes the `now` parameter of `Accept`.
- `Accept` reads the clock once. In the source, `_begin` and `_complete` each call `Date.now()`, so when one `accept` call both begins and completes a race the two readings may differ by the few milliseconds the call takes. In the model they are the same reading.
- `index.js`: the Express and Handlebars server, static files and the port listener, which is I/O only.
- Callbacks are assumed to return normally. The page's own callback does not when a race overruns its last word (`LastWordWithSpaceOverruns`): it reads the word span after the last one, which does not exist, and the resulting `TypeError` aborts `accept` before it returns.
- Edits other than keys typed at the end of the field: backspace, paste, selection replacement and typing in the middle of the field are not modelled by `Typing`; `Accept` itself takes any text.
- Callbacks that call back into the race: a callback is modelled only by the notification it receives, so a callback that changes the race during `accept` is not modelled.
- UTF-16 code units: JavaScript strings are sequences of UTF-16 code units, and Dafny strings are sequences of Unicode scalar values. Every character outside ASCII is a separator either way, so the words and the results of `accept` are the same.
- Number width: `wordIndex` is a JavaScript number and is modelled as an unbounded `nat`. It only grows by one per typed word, far below 2^53.
