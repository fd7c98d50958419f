# Wordle helper: a Dafny model of the word filter and its page

The system is a small word-guessing helper with two halves:

- a Flask service (`app.py`) that loads a word list at start-up and answers `POST /filtrar`;
- a browser page (`static/js/scripts.js`) that keeps the user's constraints and sends them to that endpoint.

The constraints are:

- the word length;
- letters known at a position;
- letters known to be present ("extras");
- letters known to be absent ("exclusão");
- rows of letters found in earlier guesses ("encontradas");
- letters known to be in the wrong position ("incorretas"). The page sends these and the server never reads them.

The model has one module per concern:

| module | file | models |
|---|---|---|
| `Options` | options.dfy | an `Option` type used for NaN and missing values |
| `Text` | text.dfy | ASCII `lower`, `strip`/`trim` and Python's substring test `x in s` |
| `WordBank` | word_bank.dfy | `carregar_palavras_arquivo`: strip and lower-case each line, drop blank lines |
| `WordFilter` | word_filter.dfy | `filtrar_palavras`: a reference predicate `Matches`, the reference selection `Candidates`, and the loop-based method `FilterWords`, proved equal to the reference |
| `Endpoint` | endpoint.dfy | the `/filtrar` handler: its four validations in the source's order, the HTTP statuses, the candidate count and the 100-word cap |
| `FormState` | form_state.dfy | the page's state and every event handler as a pure transition: start-up, the +/- buttons, typing a length and its delayed handler, the two virtual keyboards, the found-letters row button (never connected on the page, see "Findings"), typing into an input |
| `Dispatch` | dispatch.dfy | `filtrarPalavras` on the page: refuse an invalid length, collect the payload, render the reply |
| `Wire` | wire.dfy | the payload serialised as the JSON body the handler reads, with the proofs that follow a form through the handler and the filter |

Semantics taken from the code:

- Python `letter in word` is a substring test (`Text.Contains`). For a one-letter string it is plain character membership (`Text.ContainsChar`).
- A positioned letter fits when `Lower(letra) == [w[posicao]]`. So an empty or multi-character `letra` never fits.
- `isinstance(True, int)` holds in Python, so a boolean length counts as 1 or 0 (`Endpoint.SizeBool`).
- `request.get_json()` returning a falsy value (`null`, `{}`) is `Endpoint.NoData`.
- `parseInt` yielding NaN is `None`. At start-up `parseInt(v) || 5` builds 5 inputs both for NaN and for 0.
- Typing an invalid length empties the positioned-letter row only. The misplaced-letter row keeps its inputs (`FormState.EditSize`).
- A keystroke in the length field changes the field at once (the `SizeTyped` event of `FormState`). The rows are rebuilt only when its debounced handler fires (`SizeSettled`). Until then the rows can disagree with the length, and a key click dispatches from that state.
- `Array.from(set)` lists a set in an order the model does not fix. The `Wire` lemmas hold for every listing order.

The model follows the page in `static/js/scripts.js`, which has found-letters rows and misplaced-letter inputs.

## Model

| member | source | states |
|---|---|---|
| WordFilter.FilterWords | app.py:16-74 | the loop over the bank, with its early exits from each check, returns exactly the reference selection `Candidates`: the matching words of the bank, in bank order |
| WordFilter.CheckPlaced | app.py:24-37 | true exactly when every positioned item has a position inside the word length and its lower-cased letter equals the word's character there; a missing, negative or too-large position fails the word |
| WordFilter.CheckAllPresent | app.py:39-47 | true exactly when every extra letter, lower-cased, occurs in the word as a substring |
| WordFilter.CheckAnyPresent | app.py:49-57 | true exactly when some excluded letter, lower-cased, occurs in the word |
| WordFilter.CheckFound | app.py:59-70 | true exactly when every letter of every found row, lower-cased, occurs in the word |
| WordFilter.Matches | app.py:19-70 | the five conditions, as a predicate: exact length, each positioned letter at its index, every extra present, no exclusion present, every found letter present |
| WordFilter.Candidates | app.py:17-22 | the selection is no longer than the bank and every selected word satisfies every constraint |
| WordFilter.MatchingIndices | app.py:19-72 | the indices of the matching words are in range and strictly increasing, and an index is listed exactly when its word matches |
| WordFilter.CandidatesAreMatchingIndices | app.py:19-74 | the k-th selected word is the bank word at the k-th matching index, so the selection keeps bank order and duplicates |
| WordFilter.CandidatesComplete | app.py:19-74 | every bank word that satisfies the constraints is selected |
| WordFilter.CandidatesFromBank | app.py:19-72 | every selected word comes from the bank and matches |
| WordFilter.CandidatesHaveSize | app.py:20-22 | every selected word has exactly the requested length |
| WordFilter.NothingMatchesSelectsNothing | app.py:17-74 | constraints no word can meet give an empty selection |
| WordFilter.BadPositionSelectsNothing | app.py:28-31 | a positioned item with no position, a negative one or one at or past the length empties the selection |
| WordFilter.ExtraAndExcludedSelectsNothing | app.py:39-57 | a letter both required and excluded empties the selection |
| WordFilter.FoundAndExcludedSelectsNothing | app.py:49-70 | a letter both in a found row and excluded empties the selection |
| WordFilter.EmptyExclusionSelectsNothing | app.py:51-54 | an empty string in the exclusion list empties the selection, because the empty string occurs in every word |
| WordFilter.SameConstraintsSameVerdict | app.py:26-70 | two queries with the same length, positioned items and membership of extras, exclusions and found letters accept the same words |
| WordFilter.SameConstraintsSameCandidates | app.py:39-70 | such queries select the same words, so order and repetition inside the letter lists do not matter |
| WordBank.LoadWords | app.py:13 | no more words than lines, and every word is non-empty, has no surrounding whitespace and has no capital letter |
| WordBank.NonBlankIndices | app.py:13 | the indices of the non-blank lines, strictly increasing, with an index listed exactly when its line is not blank |
| WordBank.LoadWordsAreNonBlankLines | app.py:13 | word k is the stripped, lower-cased k-th non-blank line, in file order |
| WordBank.LoadWordsKeepsNonBlank | app.py:13 | every non-blank line contributes its normalised form |
| WordBank.NormalizedIsNormal | app.py:13 | a non-blank line normalises to a well-formed word |
| WordBank.LoadWordsIdempotent | app.py:13 | loading an already-loaded list returns it unchanged |
| Endpoint.Handle | app.py:86-123 | each of the four errors is returned exactly when its check is the first to fail, in the order empty bank, no data, bad length, non-list field; an answer carries the full candidate count and the leading `min(100, count)` candidates |
| Endpoint.QueryOf | app.py:94-98 | the filter receives the validated length and each list field as given, or `[]` when the field is absent |
| Endpoint.HandleStatus | app.py:87-108 | a handled request gets 400 exactly when the bank is loaded and validation fails, and 200 exactly when validation passes |
| Endpoint.Status | app.py:87-123 | status 200 exactly for answers and 500 exactly for the missing word bank; every other error is a 400 |
| Endpoint.AnsweredWordsMatch | app.py:110-123 | every listed word comes from the bank, has the requested length and satisfies every constraint |
| Endpoint.SmallAnswerIsComplete | app.py:120-123 | with at most 100 candidates, every matching bank word is listed |
| Endpoint.IncorrectIsIgnored | app.py:94-98 | the response does not depend on `letras_incorretas` |
| Endpoint.EmptyBankFirst | app.py:87-88 | an empty bank yields the 500 error whatever the request |
| FormState.Init | static/js/scripts.js:276-279 | at load both keyboards are empty, there are no found rows and no length change is pending; both input rows get 5 empty inputs for a NaN or zero length, one empty input per letter of a positive length, and none for a negative length |
| FormState.Increment | static/js/scripts.js:246-252 | the length becomes its value plus one, with NaN counting as 0; both rows are rebuilt empty at that length, and have no inputs when it is not positive; the sets and rows are unchanged |
| FormState.Regenerate | static/js/scripts.js:32-66 | `gerarInputs` then `atualizarLetrasIncorretas`: both rows become `n` empty inputs, or none when `n` is not positive, and nothing else changes |
| FormState.Decrement | static/js/scripts.js:254-260 | the state is unchanged exactly when the length is NaN or at most 1; otherwise the length drops by one and both rows are rebuilt empty |
| FormState.DecrementUndoesIncrement | static/js/scripts.js:246-260 | from a valid length, "+" then "-" restores the length and leaves both rows empty at it |
| FormState.EditSizeIdempotent | static/js/scripts.js:263-273 | typing the same length again changes nothing |
| FormState.EditSize | static/js/scripts.js:263-273 | an invalid length empties only the positioned row; a valid one rebuilds both rows empty at that length |
| FormState.Toggle | static/js/scripts.js:80-88 | a key click flips exactly the key's lower-case letter in that keyboard's set and changes nothing else |
| FormState.ToggleTwice | static/js/scripts.js:80-88 | clicking the same key twice restores the state |
| FormState.AddRow | static/js/scripts.js:99-107 | refused exactly when the length is not a positive number; otherwise appends one empty row as wide as the length |
| FormState.TypeFound | static/js/scripts.js:132-143 | typing one letter, after trim and lower-case, into a found row adds it to that row and to the extras set; any other value changes nothing; letters are never removed |
| FormState.TypePlaced | static/js/scripts.js:47-49 | only the typed input's value changes |
| FormState.TypeIncorrect | static/js/scripts.js:160-164 | only the typed misplaced-letter input's value changes |
| FormState.InitConsistent | static/js/scripts.js:276-279 | the page starts consistent and settled: every selected letter is lower-case, and a valid length has a matching number of inputs in both rows |
| FormState.ToggleConsistent | static/js/scripts.js:80-88 | a key click preserves consistency |
| FormState.TypeFoundConsistent | static/js/scripts.js:132-143 | typing into a found row preserves consistency |
| FormState.Step | static/js/scripts.js:80-273 | one event on the page as written: the add-row button changes nothing and no event changes the number of found rows; a length keystroke sets the field and marks the rebuild pending |
| FormState.WiredStep | static/js/scripts.js:99-107 | the page as intended: the button appends a row at a valid length and changes nothing otherwise; every other event is as in `Step` |
| FormState.RunKeepsRows | static/js/scripts.js:10 | on the page as written, no sequence of events changes the number of found rows |
| FormState.NoRowsEver | static/js/scripts.js:99 | on the page as written, no sequence of events from load creates a found row, so `letras_encontradas` is always empty |
| FormState.WiredRowCanBeFilled | static/js/scripts.js:99-143 | with the button connected, a click at a valid length and a typed "e" give one row holding `e`, and `e` becomes an extra letter |
| FormState.TypedLengthUnsettles | static/js/scripts.js:263-273 | typing 3 over 5 keeps the invariant but leaves 5 inputs until the handler fires; after it fires the rows agree again |
| FormState.StepConsistent | static/js/scripts.js:80-273 | every event, on the page as written and as intended, keeps the letters lower-case and keeps the rows in agreement with the length unless a length change is pending |
| FormState.RunConsistent | static/js/scripts.js:246-279 | any sequence of events from a consistent state ends in one |
| FormState.WiredRunConsistent | static/js/scripts.js:99-279 | the same for the page as intended |
| Dispatch.CollectPlaced | static/js/scripts.js:182-190 | an entry exists for input i exactly when its trimmed, lower-cased value is one letter a-z; the entry holds that letter and index i; entries follow input order |
| Dispatch.CollectLetters | static/js/scripts.js:185-190 | the same, for values already trimmed and lower-cased |
| Dispatch.CollectIncorrect | static/js/scripts.js:198-200 | an entry exists for input i exactly when its raw value is non-empty; the entry holds that value unvalidated, and entries follow input order |
| Dispatch.Collect | static/js/scripts.js:173-209 | no request exactly when the length is NaN or not positive; otherwise the payload carries the length, the positioned entries of `CollectPlaced`, both keyboard sets, every found row's letters and the misplaced entries of `CollectIncorrect` |
| Dispatch.PlacedPositionsDistinct | static/js/scripts.js:185-190 | no position is sent twice |
| Dispatch.SentPositionsInRange | static/js/scripts.js:182-190 | every sent position indexes an existing input; when the rows agree with the length every sent position is below the sent length |
| Dispatch.StaleEntrySent | static/js/scripts.js:182-209 | typing "c" into the last of 5 inputs, then 3 as the length, then clicking a key before the rebuild, sends length 3 with an entry at position 4 |
| Dispatch.UntouchedPagePayload | static/js/scripts.js:202-209 | a freshly loaded page with length 5 sends length 5 and empty lists |
| Dispatch.NoLetterNoEntry | static/js/scripts.js:185-190 | empty inputs produce no positioned entries |
| Dispatch.NothingTypedNoEntry | static/js/scripts.js:198-200 | empty inputs produce no misplaced entries |
| Dispatch.ReadsLowered | static/js/scripts.js:186 | an input holding "A" reads as "a", and an empty input reads as empty |
| Dispatch.TypedLetterPayload | static/js/scripts.js:185-189 | typing "A" into input 2 of five sends exactly one entry, letter "a" at position 2 |
| Dispatch.ClickedKeyPayload | static/js/scripts.js:80-88 | clicking R on the extras keyboard sends the extras `["r"]`; clicking it again sends none |
| Dispatch.Render | static/js/scripts.js:217-242 | the total line is shown exactly for answers and shows the server's total; an error shows `Erro: ` followed by the server's message; a transport failure shows only the failure note; an answer without words shows only the "no words" note, and otherwise one item per word in order |
| Dispatch.RenderListsAnswer | static/js/scripts.js:227-236 | the listed words are exactly the answer's words, in the server's order |
| Dispatch.EmptyAnswerView | static/js/scripts.js:224-229 | an empty answer shows total 0 and the single "no words" note |
| Wire.ToBody | static/js/scripts.js:202-214 | the body built from a payload always has list fields and, for a positive length, a valid length; `letras_incorretas` carries the misplaced entries |
| Wire.SentRequestIsAnswered | app.py:100-118 | a request the page sends always passes the handler's validations |
| Wire.LettersMembership | static/js/scripts.js:193-195 | a listed letter set contains a string exactly when it is one letter of the set |
| Wire.ListingOrderIrrelevant | static/js/scripts.js:193-195 | the response does not depend on the order in which the page lists its sets |
| Wire.BothKeyboardsGiveNothing | app.py:39-57 | a letter selected on both keyboards yields an answer of 0 words |
| Wire.ConsistentPayloadIsLower | static/js/scripts.js:80-88 | every letter sent by a form whose letters are lower-case (`LowerLetters`, which every reachable state keeps) is lower-case, so the server's `lower()` leaves it unchanged |
| Wire.MatchingWordFitsForm | app.py:24-70 | a word that passes the server's checks on the serialised payload has each positioned letter at its index, every extra and found letter somewhere, and no excluded letter |
| Wire.AnsweredWordsFitForm | app.py:110-123 | end to end, for any form whose letters are lower-case, pending length change or not: every word listed in the answer to the page's request fits the form the user filled in |
| Wire.FitsFormMatches | app.py:19-70 | a word that fits the payload on characters passes the server's checks on the serialised payload |
| Wire.FittingWordsAreListed | app.py:110-123 | end to end, the other way: with at most 100 candidates, every bank word that fits the form is listed |
| Wire.StalePositionEmptiesAnswer | app.py:29-31 | a positioned entry at or past the sent length, as sent during a pending length change, gives an answer of 0 words |
| Text.StripSpec | app.py:13 | `strip` removes exactly the leading and trailing whitespace; the result is empty exactly for an all-whitespace line |
| Text.StripIdempotent | app.py:13 | stripping twice is stripping once |
| Text.ContainsChar | app.py:42 | a one-character substring test is character membership |
| Text.LowerIdempotent | app.py:13 | lower-casing twice is lower-casing once |

## Findings

| source | as written | input that shows it | evidently intended | confidence | as-written member | corrected member |
|---|---|---|---|---|---|---|
| static/js/scripts.js:99-150 | the "add found-letters row" button is looked up (line 10) but no listener is attached, and `adicionarLinhaLetrasEncontradas` is never called | clicking the button at any valid length: no row appears and `letras_encontradas` stays `[]` | the button appends a row of inputs whose letters constrain the search | high, not executed | FormState.NoRowsEver | FormState.WiredRowCanBeFilled |

`FormState.Step` models the page as written and `FormState.WiredStep` the page as intended. The invariant is proved for both (`RunConsistent`, `WiredRunConsistent`). The `Dispatch` and `Wire` lemmas hold for any form, so they cover rows added by the intended button.

## Left out

- Reading `words_alpha.txt` from disk, the missing-file error and the start-up `print` are not modelled. The loader takes the file's lines, and a failed load is the empty bank.
- Flask routing, CORS, the `/` page route and JSON decoding are not modelled.
- A missing or unparsable body is not modelled. Depending on the Flask version, `get_json()` either returns nothing or fails the request with its own 400 or 415 error.
- A JSON body that is truthy but not an object (`[1]`, `5`, `"x"`, `true`) is not modelled. In the source `data.get` raises an exception and the request ends in a 500.
- Python `str.strip`/`lower` and JavaScript `trim`/`toLowerCase` are modelled on ASCII only. The real functions also treat other Unicode whitespace and case mappings. Both strip the no-break space `\xa0`. Python also strips `\x1c`-`\x1f` and `\x85`. JavaScript also trims the byte-order mark `\ufeff` and lower-cases the Kelvin sign to `k`.
- Server-side type errors are not modelled. These are a list entry that is not an object, a `posicao` that is not an integer, a letter that is not a string, and a found row given as a string. In the source these raise an exception (a 500) or iterate over characters.
- `fetch`, the response promise and the ordering of concurrent replies are not modelled. A reply is an input to `Dispatch.Render`, and a stale reply overwriting a newer one is outside the model.
- Timers are modelled only for the length field, as a pending flag and a separate `SizeSettled` event. The positioned and found inputs build a fresh debouncer on each keystroke, so they do not actually debounce. The misplaced-letter inputs do debounce, but this is not modelled.
- When a request is sent, and from which state, is not modelled. `Dispatch.Collect` can be applied to any state. In the source:
  - a refused "-" click (`static/js/scripts.js:256`) and an invalid typed length (`static/js/scripts.js:265-270`) send nothing;
  - after "+", "-", a valid typed length and start-up, the request is sent from inside `gerarInputs` (`static/js/scripts.js:65`), before the misplaced row is rebuilt, so its `letras_incorretas` come from the old inputs.
- Focus movement, the `selected` key highlight, `alert` and the page's CSS are not modelled.
- Parsing of the length field by `parseInt` is not modelled. The model starts from its result, an unbounded integer or NaN.
- Wire.SentRequestIsAnswered: holds for the model's unbounded lengths. `parseInt` gives a JavaScript double, so a very long digit string becomes `Infinity`, which is sent as `null`. Lengths from 1e21 up are sent as `1e+21`, which Python reads as a float. Both are rejected with the bad-length error. Lengths past 2^53 are also inexact.
- The note shown for an invalid typed length is not modelled. `FormState.EditSize` models that handler's effect on the inputs only; `Dispatch.RefusedView` gives the note shown when the dispatcher refuses.
- The offline service worker is not part of this model.
