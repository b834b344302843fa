# KoboldAI story register and story-text helpers, in Dafny

This project models two pieces of KoboldAI's story handling and proves
properties about them.

- **The story register** (`structures.py`, class `KoboldStoryRegister`). It is an
  insertion-ordered dictionary from integer chunk id to chunk text. It also has
  a private counter that gives the id of the next appended chunk.
  - Module `Structures` holds the value it denotes, `Register`: the keys in
    insertion order plus a map from key to text, with distinct keys that match
    the map's domain.
  - The functions on `Register` say what each dictionary operation does:
    `Put` for `d[k] = v`, `Popped` and `LastText` for `popitem()`,
    `FromPairs` for `OrderedDict(pairs)`, and `FirstKey`/`LastKey`.
  - Class `StoryRegister` is the mutable object. Its fields `order`, `text` and
    `nextId` are reassigned by its methods. `SetItem`, `Append` and `Pop` give
    the new chunks as `Put` or `Popped` of the old ones. `IncrementId` and
    `SetNextId` may change only the counter.
- **The text helpers** (`utils.py`), in module `Utils`. They post-process
  generated story text: quote fixing, trimming to the last full sentence,
  blank-line collapsing, special-character removal, sentence spacing,
  single-line mode, file-name cleaning, and newline encoding.
  - The global settings object `vars` becomes a parameter of type `Vars`. It
    holds the actions (a `Register`), the prompt and the action mode.
  - So `addsentencespacing` and `singlelineprocessing` read the last action
    through the register's `LastKey`, as the source does with
    `vars.actions.get_last_key()`.
- **The Python string built-ins** these helpers rely on are in module
  `PyStrings`: `str.replace`, character deletion (a regex character class
  replaced by `""`, or a filtering comprehension), `rstrip`, `rfind`, and
  substring search.

The story editor treats chunk ids as unique and never reused while a chunk exists.
The register's code does not enforce that. `set_next_id` can point the counter
at an id already in use, and building from pairs whose ids are not
`0, 1, ..., n-1` can do the same. In that case `append` overwrites the existing
chunk in place. The model follows the code.
- `StoryRegister.Append` states both outcomes.
- `FromDensePairs` gives the condition under which the first counter value is
  a fresh id.

## Model

| member | source | states |
|---|---|---|
| `Structures.StoryRegister.constructor` | structures.py:10-12 | the register holds the pairs stored left to right (`FromPairs`), and the counter is the number of pairs supplied |
| `Structures.StoryRegister.SetItem` | structures.py:37-38 | `self[k] = v`: new state is `Put(old, k, v)`; the counter is unchanged |
| `Structures.StoryRegister.Append` | structures.py:14-16 | stores `v` under the old counter and then adds exactly one to the counter; when that id was unused it becomes the last key |
| `Structures.StoryRegister.Pop` | structures.py:18-19 | removes the most recently inserted entry and returns its text; the counter is unchanged; on an empty register (a `KeyError` in the source) returns `None` and changes nothing |
| `Structures.StoryRegister.GetFirstKey` | structures.py:21-26 | the value-level `FirstKey` of the held chunks: -1 on an empty register, otherwise the first key in insertion order, which is present |
| `Structures.StoryRegister.GetLastKey` | structures.py:28-32 | the value-level `LastKey` of the held chunks: -1 on an empty register, otherwise the last key in insertion order, which is present |
| `Structures.StoryRegister.IncrementId` | structures.py:40-41 | the counter goes up by one and the chunks are untouched |
| `Structures.StoryRegister.GetNextId` | structures.py:43-44 | returns the counter, the id the next `Append` stores under |
| `Structures.StoryRegister.SetNextId` | structures.py:46-47 | the counter becomes `x` and the chunks are untouched |
| `Structures.SetThenGetNextId` | structures.py:43-47 | after setting the counter to `x`, reading it returns `x`, the counter stays `x` for the next `Append`, and the stored chunks are unchanged |
| `Structures.FirstKey` | structures.py:21-26 | value-level first key: -1 when empty, else the head of the insertion order, a key that has text |
| `Structures.LastKey` | structures.py:28-32 | value-level last key: -1 when empty, else the end of the insertion order, a key that has text |
| `Structures.Popped` | structures.py:18-19 | `popitem()` removes exactly the last key: the old order is the new order plus that key, and every other key keeps its text |
| `Structures.PutFreshIsLast` | structures.py:28-38 | storing under a new key appends it to the order; it becomes the last key with the stored text, and the first key is unchanged unless the register was empty |
| `Structures.PutExistingKeepsOrder` | structures.py:37-38 | storing under a present key leaves the insertion order and both end keys as they were |
| `Structures.PutOnlyChangesKey` | structures.py:37-38 | after `d[k] = v`, `k` maps to `v` and every other key keeps its presence and its text |
| `Structures.PopUndoesPut` | structures.py:14-19 | `pop` right after storing under a new key returns that text and gives back the register exactly as it was |
| `Structures.FromPairsKeys` | structures.py:10-11 | after building from pairs, a key has text exactly when some pair carries it; there are never more entries than pairs |
| `Structures.FromPairsLastWins` | structures.py:10-11 | the text under a key is the text of the last pair that carries that key |
| `Structures.FromDensePairs` | structures.py:10-12 | pairs with ids 0..n-1 in order are stored in that order, and the initial counter n names no chunk |
| `Utils.FixQuotes` | utils.py:31-36 | same length; each character is mapped by `QuoteFixed` (curly double quotes to `"`, curly apostrophe and backtick to `'`, all else unchanged); none of the four remain |
| `Utils.TrimIncompleteSentence` | utils.py:41-52 | the result is a prefix of the input with no `. ! ?` after it; if the input has a sentence mark, the result ends at the last one, or one character later when a `"` follows it; with no mark, input opening with `"` becomes `"` and other input is unchanged |
| `Utils.TrimToLastSentence` | utils.py:41-52 | the corrected trim: same as above, but input without any sentence mark is returned unchanged |
| `Utils.TrimKeepsOnlyOpeningQuote` | utils.py:45-51 | on `"Hi` the code as written returns `"` and the corrected trim returns `"Hi` |
| `Utils.ReplaceBlankLines` | utils.py:57-59 | the result is never longer than the input, and it equals the input exactly when the input has no `"\n\n"`; with line breaks set aside, result and input are the same text in the same order; at least half of the input's line breaks remain |
| `Utils.CollapseKeepsText` | utils.py:58 | replacing `"\n\n"` by `"\n"` removes only line breaks, keeps every other character in order, and keeps at least one line break of every two |
| `Utils.ReplaceBlankLinesNotIdempotent` | utils.py:57-59 | `"\n\n\n"` becomes `"\n\n"`, and a second pass changes it again, so the function is not idempotent |
| `Utils.RemoveSpecialChars` | utils.py:64-69 | no removed character is left (`# / @ % < > { } + = ~ ^` and the vertical bar, but `<` and `>` are kept when the action mode is non-zero); every other character occurs as often as in the input; input with nothing to remove comes back unchanged |
| `Utils.RemoveSpecialCharsIdempotent` | utils.py:64-69 | applying the removal twice gives the same result as once |
| `Utils.RemoveSpecialCharsConcat` | utils.py:64-69 | removal distributes over concatenation, so the kept characters stay in their order |
| `Utils.AddSentenceSpacing` | utils.py:74-89 | the result is `txt` or `" " + txt`, and it is the latter exactly when the last action, or the prompt if there are no actions, ends in `. ! ? , ; :` |
| `Utils.SpacingFollowsAppendedAction` | utils.py:74-89 | right after appending action `v` under a new id, spacing is decided by `v` alone |
| `Utils.SingleLineProcessing` | utils.py:91-106 | the result is the filtered text, with `"\n"` appended exactly when the story so far does not end in a line break; an empty last action adds nothing, while an empty prompt with no actions does get the line break |
| `Utils.CleanFilename` | utils.py:111-114 | no `/` or `\` and no trailing whitespace remain; the result is the separator-free name cut back only by trailing whitespace |
| `Utils.EncodeNewlines` | utils.py:119-122 | identity unless the newline mode is `"s"`; in mode `"s"` no line break remains and the text does not get shorter |
| `Utils.DecodeNewlines` | utils.py:124-127 | identity unless the newline mode is `"s"`; in mode `"s"` the text does not get longer and is unchanged when it holds no `</s>` |
| `Utils.DecodeEncodeRoundTrip` | utils.py:119-127 | decoding the encoding of a text with no `</s>` gives the text back, in every newline mode |
| `Utils.RoundTripNeedsNoTag` | utils.py:119-127 | the no-`</s>` condition is needed: in mode `"s"`, `</s>` comes back as a line break |
| `PyStrings.Replace` | utils.py:58 | `str.replace`: a text without the pattern is unchanged; a replacement no longer than the pattern never lengthens the text, and a strictly shorter one shortens every text that contains the pattern |
| `PyStrings.ReplaceCharPointwise` | utils.py:32-35 | replacing one character by one character keeps the length and maps each position independently |
| `PyStrings.ReplaceRemovesChar` | utils.py:121 | replacing a character by text that lacks it leaves no occurrence of it |
| `PyStrings.Keep` | utils.py:113 | deleting the characters of a set: no deleted character remains, and a text with none of them is unchanged |
| `PyStrings.KeepCounts` | utils.py:66-68 | after deletion, each other character occurs as often as before, and the deleted ones not at all |
| `PyStrings.KeepConcat` | utils.py:113 | deletion distributes over concatenation, so the survivors keep their order |
| `PyStrings.RStrip` | utils.py:113 | `rstrip`: a prefix of the input that does not end in whitespace, with only whitespace cut off |
| `PyStrings.RFind` | utils.py:45 | `rfind`: -1 or an index holding the character, with no occurrence after it |

## Findings

| source | as written | input that shows it | evidently intended | confidence | as-written member | corrected member |
|---|---|---|---|---|---|---|
| utils.py:47-49 | with no `.`, `!` or `?`, `lastpunc` is -1, so `txt[lastpunc+1]` tests the first character; a leading `"` sets `lastpunc` to 0 and the text is cut to that quote | `"Hi` (an unfinished quoted line) gives `"` | text without a sentence mark is returned whole, as it is when it does not open with `"` | medium, not executed | `Utils.TrimKeepsOnlyOpeningQuote` (about `Utils.TrimIncompleteSentence`) | `Utils.TrimToLastSentence` |

## Left out

- `debounce` (utils.py:10-26) is left out. It only schedules calls on a `threading.Timer`, which is concurrency.
- `SingleLineProcessing`: the regular expression `vars.regex_sl` is not part of this model. Its substitution is the function parameter `stripSingleLine`, and the contract says nothing about what it removes.
- `EncodeNewlines` and `DecodeNewlines` read the global `vars.newlinemode` in the source. Here the mode is an explicit argument.
- `CleanFilename`: `PyStrings.IsSpace` covers only ASCII whitespace (space, tab, line feed, carriage return, vertical tab, form feed). Python's `rstrip` also strips other Unicode whitespace, such as `\x1c`-`\x1f`, `\x85` and `\xa0`.
- `RemoveSpecialChars`: in the pattern `[#/@%<>{}+=~|\^]`, `\^` is an escaped caret. So the backslash is not removed, and the model keeps it too.
- `RemoveSpecialChars`: the optional `vars=None` argument is an `Option<Vars>`.
- `Structures.StoryRegister.constructor` takes a finite sequence of pairs. The source counts with `sum(1 for _ in sequence)` after the dictionary has already consumed `sequence`. For a one-shot iterator, such as a generator, that count would be 0. This model does not capture that case.
- `Structures.StoryRegister.Pop` ignores keyword arguments, as the source does. `popitem`'s `KeyError` on an empty register becomes a `None` result.
- `__getitem__` (structures.py:34-35) is map indexing on a key that is present. Its `KeyError` for a missing key is not modelled, because every lookup in the model is of a key known to be present.
- `get_first_key` is a property in the source and `get_last_key` is a method. That difference is not modelled.
- Characters are Unicode scalar values. Python strings may also hold lone surrogates, which are not modelled.
- `modeling/inference_models/basic_hf/class.py` and `modeling/inference_models/4bit_hf_torch/class.py` are not part of this model. They consist of model loading, file moves, tensor numerics and calls into external libraries.
