# Australian energy acronym glossary, in Dafny

This project models the logic of a small React glossary of Australian energy-market acronyms. The glossary is a list of records: acronym, full form, description, category and related acronyms. A search box filters the list. A text box accepts pasted industry text, and "Extract Acronyms" turns every `ACR - Full form` phrase in it into a candidate card. Each card can be edited and then saved to the glossary.

The component exists in two variants, and both are modelled. They share one scanner for the acronym pattern.

- `src/AcronymApp.js` is modelled in module `AppJs`.
  - The glossary is a module-level array that `handleSave` reassigns. It is modelled as the class `Glossary`.
  - The component's state is the class `AcronymApp`, whose methods update its fields.
  - Extraction drops empty captures and acronyms already in the glossary. The capture is not trimmed.
  - `related` is an array of keys. Candidates are edited by index.
- `src/AcronymApp.jsx` is modelled in module `AppJsx`.
  - Every handler builds new values. The state is therefore a datatype, and each handler is a function from state to state.
  - Extraction keeps every match and trims the capture.
  - `related` is a string. Candidates are edited by acronym key.
  - Extract also clears the text box.

Shared modules:

- `Scanner` handles the regular expression `/\b([A-Z]{2,6})\b\s*[-–—:]?\s*(.*?)(?=\n|\.|$)/g` run by `matchAll`. It has two parts:
  - a declarative description of what the pattern matches and which match JavaScript's backtracking engine reports;
  - a left-to-right scanner, proved to yield exactly that sequence.
- `Records` holds the record type, the search filter, and the "drop every record with this key" step.
- `Text` holds the string built-ins: ECMAScript white space, `toLowerCase`, `includes`, `trim`, `split` and `join`.
- `Lists` holds `Array.prototype.filter`.
- `Scenarios` evaluates the pattern on short worked inputs.

Regular-expression semantics fixed by the model:

- `\b` uses the word characters `[A-Za-z0-9_]`.
- `\s` and `trim` use the ECMAScript WhiteSpace and LineTerminator code points.
- `.` matches anything but `\n`, `\r`, U+2028 and U+2029.
- `$` is the end of the input, because the pattern has no `m` flag.
- The global scan resumes at the end of the previous match.

Three consequences of these rules, each proved:

- The gap after the acronym may cross line breaks. `NEM` alone on its line takes the next non-blank line as its full form, after any separator, up to that line's first `.`, `\n` or the end of the text (`Scenarios.GapCrossesLine`, `Scenarios.GapStopsAtFullStop`, `Scenarios.GapSkipsBlankLine`).
- The engine backtracks into the gap and keeps the greatest capture start from which `(.*?)` can reach `\n`, `.` or the end. A carriage return stops `.` but satisfies none of the three. So when text follows the separator on a CRLF line without a full stop, the acronym yields nothing (`Scenarios.CarriageReturnBlocks`). When nothing follows the acronym on its CRLF line, the capture can start on the next line only if a `.` or the end of the text comes before that line's `\r` (`Scenarios.CarriageReturnCrossed`, `Scenarios.CarriageReturnFullStop`). Otherwise the engine backtracks to the `\n` and the capture is empty, so the `.js` extractor drops the match (`Scenarios.CarriageReturnEmptyCapture`).
- An acronym inside an earlier capture is never reported (`Scenarios.NestedAcronymSkipped`).

Strings are sequences of code points. The pattern's special characters are all in the Basic Multilingual Plane, so code points and UTF-16 code units give the same matches.

Behaviour of the code worth knowing:

- Search does not look at `category`, so `gas` on the `.js` seed list does not return DAA, whose category is "Gas Market" but whose other fields do not contain "gas".
- The `.jsx` save appends even when the acronym is already in the list.
- The `.jsx` save drops every candidate with that acronym.
- In `.jsx`, pressing Extract twice clears the candidates, because the first press empties the text box (`AppJsx.ExtractTwiceClears`).

## Model

| member | source | states |
|---|---|---|
| Lists.Filter | src/AcronymApp.js:120-124 | `filter` keeps exactly the elements that pass the test and never lengthens the list |
| Records.SearchKeepsOrder | src/AcronymApp.js:120-124 | the search keeps every occurrence of each hit, drops every other record, and keeps store order (multiset counts and subsequence) |
| Records.Search | src/AcronymApp.jsx:51-55 | a record is in the result iff it is in the store and its acronym, full form or description contains the query, ignoring case |
| Records.SearchEmptyQuery | src/AcronymApp.jsx:51-55 | the empty query returns the whole store, in order |
| Records.HitsOwnAcronym | src/AcronymApp.js:121 | every record is found by its own acronym |
| Records.SearchAppend | src/AcronymApp.js:110 | after appending a record, each search result is the old result plus that record at the end if it matches |
| Records.SearchFindsAppended | src/AcronymApp.jsx:77 | a record just saved is the last hit when searching for its acronym |
| Records.SearchIgnoresCase | src/AcronymApp.js:121-123 | lower-casing the query does not change the result |
| Records.IsHit | src/AcronymApp.js:120-124 | the search test: lower-cased query included in the lower-cased acronym, full form or description; a hit needs a field at least as long as the query |
| Records.HasKey | src/AcronymApp.js:96 | `acronyms.some(existing => existing.acronym === key)` holds iff some record in the list carries the key |
| Records.WithoutKey | src/AcronymApp.js:111 | dropping a key keeps exactly the records with another acronym; none with the key remains |
| Records.WithoutKeyOrder | src/AcronymApp.jsx:78 | dropping a key keeps every occurrence of the other records, in list order |
| Records.WithoutKeyIdempotent | src/AcronymApp.jsx:78 | dropping a key a second time changes nothing, so saving the same acronym again leaves the candidates as they are |
| Records.WithKey | src/AcronymApp.js:111 | the records carrying the key are exactly those with that acronym |
| Records.WithoutKeyCount | src/AcronymApp.js:111 | dropping a key shortens the list by exactly the number of records carrying it |
| Text.LowerChar | src/AcronymApp.js:121 | `toLowerCase` on one character: A-Z move to a-z, everything else is unchanged, and no capital remains |
| Text.Lower | src/AcronymApp.js:121-123 | `toLowerCase` keeps the length and lowers each character |
| Text.LowerIdempotent | src/AcronymApp.js:121-123 | lowering twice is lowering once |
| Text.Contains | src/AcronymApp.js:121-123 | `includes`: a needle is only found in a text at least as long as it |
| Text.ContainsIff | src/AcronymApp.js:121-123 | `includes` holds iff the needle occurs at some index of the text |
| Text.ContainsTrivial | src/AcronymApp.jsx:52 | every string includes the empty string and itself |
| Text.Trim | src/AcronymApp.jsx:63 | `trim`: the result neither starts nor ends with white space |
| Text.TrimPadded | src/AcronymApp.jsx:63-64 | `trim` returns a contiguous piece of the input with only white space removed, before and after it |
| Text.TrimChars | src/AcronymApp.jsx:63 | trimming only removes characters |
| Text.TrimIdempotent | src/AcronymApp.js:203 | trimming a trimmed string changes nothing |
| Text.TrimSkipsLeadingSpace | src/AcronymApp.js:203 | a leading white-space character does not survive `trim` |
| Text.Split | src/AcronymApp.js:203 | `split(",")` yields at least one piece and no piece contains the separator |
| Text.Join | src/AcronymApp.js:202 | `join(", ")` starts with the first piece |
| Text.JoinSplit | src/AcronymApp.js:203 | joining the pieces of a split with the separator gives the input back |
| Text.SplitJoin | src/AcronymApp.js:202-203 | splitting a join of separator-free pieces gives the pieces back |
| Scanner.UpperEnd | src/AcronymApp.js:86 | the run of capitals from i ends at the first non-capital |
| Scanner.SpaceEnd | src/AcronymApp.js:86 | `\s*` taken greedily ends at the first non-space |
| Scanner.StopFrom | src/AcronymApp.js:86 | `(.*?)` can extend no further than the first `.`, line terminator or end |
| Scanner.TokenEnd | src/AcronymApp.js:86 | a token found at i is at least two characters long |
| Scanner.Reach | src/AcronymApp.js:86 | `\s*[-–—:]?\s*` taken greedily ends inside the text, at or after its start |
| Scanner.LastLazyOk | src/AcronymApp.js:86 | the backtracking search returns the greatest capture start whose lazy group reaches its lookahead, or reports that there is none |
| Scanner.TokenEndIff | src/AcronymApp.js:86 | the scanner finds a token from i to e iff `\b([A-Z]{2,6})\b` matches there |
| Scanner.GapIff | src/AcronymApp.js:86 | `\s*[-–—:]?\s*` can match from t to p iff p lies between t and Reach |
| Scanner.TailIff | src/AcronymApp.js:86 | `(.*?)(?=\n\|\.\|$)` matches from p to q iff the lazy group succeeds at p and q is its stop |
| Scanner.MatchAt | src/AcronymApp.js:86 | a match found at i starts at i and lies within the text |
| Scanner.MatchAtCorrect | src/AcronymApp.js:86 | the scanner's match at i is the one the engine reports; when it finds none, the pattern cannot match at i |
| Scanner.NextMatch | src/AcronymApp.js:87 | the next match starts at or after the scan position |
| Scanner.NextMatchCorrect | src/AcronymApp.js:87 | the next match is the engine's match at the leftmost position that has one; None means no position has one |
| Scanner.ScanFrom | src/AcronymApp.js:87 | the matches lie in the text after the scan position and do not overlap |
| Scanner.Scan | src/AcronymApp.jsx:60 | `[...text.matchAll(regex)]`: matches are in text order and none overlaps the next |
| Scanner.ScanFromIsGlobalScan | src/AcronymApp.js:87 | the scanner yields exactly what `matchAll` yields from a scan position |
| Scanner.ScanIsGlobalScan | src/AcronymApp.jsx:60 | the scanner yields exactly what `matchAll` yields on the whole text |
| Scanner.ChosenUnique | src/AcronymApp.js:86 | the engine reports at most one match per position |
| Scanner.GlobalScanUnique | src/AcronymApp.js:87 | the description of `matchAll` admits only one match sequence |
| Scanner.GlobalScanChosen | src/AcronymApp.js:87 | every match of the global scan is the engine's choice at its position |
| Scanner.ChosenShape | src/AcronymApp.js:86 | a reported match is a whole 2-6-capital word, its capture has no `.` or line terminator, and it is followed by `\n`, `.` or the end |
| Scanner.ScanShape | src/AcronymApp.jsx:59-60 | every match of the scan has that shape |
| Scanner.ScanSkipsCaptured | src/AcronymApp.js:86-87 | no later match starts inside an earlier match |
| Scanner.NoMatchInBadRun | src/AcronymApp.js:86 | a run of seven or more capitals, or capitals touching a digit, letter or `_`, yields no match anywhere inside it |
| Scanner.DefinitionLine | src/AcronymApp.js:86 | a text opening with `ACR<gap>Full form` followed by `.`, `\n` or the end matches at 0 with exactly those parts |
| Scanner.NothingAfter | src/AcronymApp.js:87 | nothing is found where only an optional final `.` remains |
| Scanner.DefinitionLineScan | src/AcronymApp.js:86-87 | a one-definition text yields exactly that one match |
| AppJs.SeedAcronyms | src/AcronymApp.js:5-83 | the eleven seed records, in source order (data; no contract) |
| AppJs.CandidateOf | src/AcronymApp.js:89-95 | the record of one match: group 1 as acronym, group 2 untrimmed as full form and description, category "To Review", no related keys |
| AppJs.IsKept | src/AcronymApp.js:96 | a kept candidate has a non-empty full form and an acronym that no glossary record carries |
| AppJs.Candidates | src/AcronymApp.js:88-95 | one record per match, in text order: record k carries match k's acronym, and its full form and description are match k's capture, untrimmed |
| AppJs.ExtractAcronymsFromText | src/AcronymApp.js:85-97 | no candidate has an empty full form or an acronym already in the glossary |
| AppJs.ExtractKeepsOrder | src/AcronymApp.js:88-96 | the kept candidates are the match records in text order with the dropped ones deleted: each kept record occurs as often as among the match records, every other record not at all |
| AppJs.ExtractDefinitionLine | src/AcronymApp.js:85-97 | a one-definition text yields its acronym with the untrimmed full form, or nothing if the glossary already has the acronym |
| AppJs.ExtractSound | src/AcronymApp.js:85-97 | each candidate comes from a match and has a 2-6-capital acronym not in the glossary, a non-empty full form free of `.` and line terminators, the same description, category "To Review" and no related keys |
| AppJs.ExtractComplete | src/AcronymApp.js:96 | every match with a non-empty capture and a new acronym yields a candidate |
| AppJs.ExtractAfterSave | src/AcronymApp.js:96 | after an acronym is saved, extraction returns the same candidates with that acronym dropped |
| AppJs.TrimAll | src/AcronymApp.js:203 | `map(s => s.trim())`: piece k of the result is the trim of piece k |
| AppJs.ParseRelated | src/AcronymApp.js:203 | the `related` box yields the comma-pieces of the input, each trimmed, at least one; every key is trimmed and free of commas |
| AppJs.TrimAllClean | src/AcronymApp.js:203 | trimming comma-free pieces leaves them comma-free and trimmed |
| AppJs.RelatedOfEmpty | src/AcronymApp.js:202-203 | a fresh candidate's `related: []` shows as the empty string, which parses back to one empty key `[""]`, not to no keys |
| AppJs.SplitCommaJoin | src/AcronymApp.js:202-203 | splitting the displayed `join(", ")` on commas gives the first key, then each later key preceded by one space |
| AppJs.RelatedRoundTrip | src/AcronymApp.js:202-203 | what the box shows, `related.join(", ")`, parses back to the same keys when they are trimmed and comma-free |
| AppJs.WithField | src/AcronymApp.js:116 | `updated[index][key] = value` sets only the field `key`; `related` takes the parsed key list |
| AppJs.Glossary.constructor | src/AcronymApp.js:5 | the module-level list starts as the given seed |
| AppJs.AcronymApp.constructor | src/AcronymApp.js:100-102 | search, text box and candidates start empty, sharing the glossary |
| AppJs.AcronymApp.Filtered | src/AcronymApp.js:120-124 | the glossary records that the search box lets through |
| AppJs.AcronymApp.HandleExtract | src/AcronymApp.js:104-107 | the candidates become the extraction of the text box against the current glossary; nothing else changes |
| AppJs.AcronymApp.HandleSave | src/AcronymApp.js:109-112 | the glossary gains the item at its end; the candidates lose exactly those with its acronym; nothing else changes |
| AppJs.AcronymApp.HandleEditChange | src/AcronymApp.js:114-118 | the candidate at `index` has field `key` set, and the length and every other candidate are unchanged |
| AppJsx.Init | src/AcronymApp.jsx:45-48 | the first state holds `initialAcronyms` and empty search, text box and candidates |
| AppJsx.Filtered | src/AcronymApp.jsx:51-55 | the list cards that the search box lets through |
| AppJsx.InitialAcronyms | src/AcronymApp.jsx:6-42 | the five initial cards |
| AppJsx.CardOf | src/AcronymApp.jsx:61-67 | the card of one match: group 1 as acronym, group 2 trimmed as full form and description, category "To Review", related "" |
| AppJsx.ExtractAcronymsFromText | src/AcronymApp.jsx:58-68 | exactly one card per match, in text order: card k carries match k's acronym, and its full form and description are match k's capture, trimmed |
| AppJsx.TrimKeepsCaptureText | src/AcronymApp.jsx:63 | a trimmed capture still has no `.` or line terminator |
| AppJsx.ExtractShape | src/AcronymApp.jsx:59-67 | each card is the card of one of the text's matches, and has a 2-6-capital acronym, equal trimmed full form and description free of `.` and line terminators, category "To Review" and related "" |
| AppJsx.ExtractDefinitionLine | src/AcronymApp.jsx:58-68 | a one-definition text yields one card with the trimmed full form, even for an acronym already in the list |
| AppJsx.HandleExtract | src/AcronymApp.jsx:70-74 | the candidates are replaced by the text's cards, the text box is cleared, and the list and search are unchanged |
| AppJsx.ExtractTwiceClears | src/AcronymApp.jsx:70-74 | a second Extract yields no candidates |
| AppJsx.HandleSave | src/AcronymApp.jsx:76-79 | the item is appended even if its acronym is present; the candidates lose exactly those with its acronym |
| AppJsx.SaveThenSearch | src/AcronymApp.jsx:76-77 | a saved card is the last hit when searching for its acronym |
| AppJsx.WithField | src/AcronymApp.jsx:131 | `{ ...a, [field]: value }` sets that field and keeps the acronym and the other fields |
| AppJsx.HandleEdit | src/AcronymApp.jsx:128-167 | every candidate with the edited acronym gets the field; other fields, other candidates, the acronyms and the length are unchanged |
| AppJsx.CardExtensional | src/AcronymApp.jsx:61-67 | a card is determined by its acronym and its four editable fields |
| AppJsx.EditIdempotent | src/AcronymApp.jsx:128-167 | typing the same value again changes nothing |
| AppJsx.EditThenSave | src/AcronymApp.jsx:76-79 | edits to candidates of the saved acronym leave no trace once it is saved |
| AppJsx.WithoutEditedKey | src/AcronymApp.jsx:78 | candidate lists that differ only on cards with the key are equal once the key is dropped |
| Scenarios.NestedAcronymSkipped | src/AcronymApp.js:86-87 | `AER - see NEM rules.` yields AER with capture `see NEM rules`, and no match for NEM |
| Scenarios.NestedAcronymWouldMatch | src/AcronymApp.js:86 | the pattern tried at NEM alone in that text would match |
| Scenarios.GapCrossesLine | src/AcronymApp.js:86 | `NEM\nAEMO - Operator` yields one match: NEM with capture `AEMO - Operator` |
| Scenarios.GapStopsAtFullStop | src/AcronymApp.js:86 | `NEM\nfoo. bar\n` matches NEM with capture `foo`: the capture from the next line ends at its first `.` |
| Scenarios.GapSkipsBlankLine | src/AcronymApp.js:86 | `NEM\n\nfoo` matches NEM with capture `foo`: the gap takes the blank line too |
| Scenarios.CarriageReturnBlocks | src/AcronymApp.js:86 | `NEM - a\r\nb` has no match at NEM |
| Scenarios.CarriageReturnEmptyCapture | src/AcronymApp.js:86 | `NEM\r\nfoo\r\nbar` matches NEM with an empty capture at the `\n`: the second `\r` blocks the capture from `foo` |
| Scenarios.CarriageReturnCrossed | src/AcronymApp.js:86 | `NEM\r\nfoo` matches NEM with capture `foo`: the gap takes the whole line break |
| Scenarios.CarriageReturnFullStop | src/AcronymApp.js:86 | `NEM\r\nfoo.\r\n` matches NEM with capture `foo`: a `.` before the next `\r` lets the capture start on the next line |
| Scenarios.EmptyTailMatch | src/AcronymApp.js:86 | `NEM.` is one match with an empty capture |
| Scenarios.EmptyTailJsx | src/AcronymApp.jsx:61-67 | the `.jsx` extractor keeps `NEM.` as a card with empty full form |
| Scenarios.EmptyTailJs | src/AcronymApp.js:96 | the `.js` extractor drops `NEM.` whatever the glossary holds |

## Left out

- JSX rendering, the UI `Input` and `Card` components, CSS, and the `src/main.jsx` bootstrap. They only display state.
- React's hook machinery and re-render scheduling. Each `useState` pair is a field, and each updater is applied at once.
- The plain setters `setSearch` and `setTextInput`, bound to keystrokes. They only assign.
- `toLowerCase` is modelled on ASCII letters only, not the full Unicode case mapping. Non-ASCII text in a query or a record is compared unlowered.
- Text is a sequence of code points, not UTF-16 code units. Astral characters would count as one position instead of two. No rule of the pattern depends on that count.
- AppJs.AcronymApp.HandleEditChange: in the source, `updated[index][key] = value` mutates the record object that the previous state array also holds. The model replaces the record by value. The old state is discarded after the update, so the difference cannot be observed through the component.
- AppJs.AcronymApp.HandleEditChange: requires a valid index. The source only calls it with the index of a rendered card.
- AppJs.Glossary.constructor: takes the initial list as a parameter. The program starts it at `SeedAcronyms()`, the list at src/AcronymApp.js:5-83.
- The concrete searches and extractions on the seed lists are not evaluated. They follow from the general lemmas:
  - "gas" on the `.js` seed (AER, GBB, DWGM, STTM and GSH, but not DAA), by `Records.Search` and `Records.SearchKeepsOrder`;
  - "nem" on `initialAcronyms` (NEM, AEMO, AEMC), by the same lemmas;
  - "NEM - National Electricity Market" against the seed (nothing), by `AppJs.ExtractDefinitionLine` with the seed's NEM record.
- React's duplicate-`key` warning when two candidates share an acronym in the `.jsx` variant is not modelled. The edit updater is modelled as written, matching every candidate with that acronym.
