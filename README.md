# regex-wysiwyg — a verified model of the edit state machine and the transform engine

regex-wysiwyg is a terminal program. The user types a source text, a regular expression and, if
they want, a replacement. A preview of the result is recomputed after every key press. This
project models its core, all of it in `src/main.rs`:

- **`App` and its key dispatch** (`app.dfy`, module `RegexApp`). `App` is a class with the
  program's six fields and the regex library it uses. `HandleKey` is the body of `run_app`'s
  event loop: it skips events that are not presses, quits on 'q' in `Normal`, otherwise
  updates the mode and the buffers in place and recomputes the preview. `ApplyTransform` is
  `apply_transform`, `SuggestAi` is `suggest_ai` once the external command has answered, and
  the constructor is `App::default`.
- **The edit state machine as values** (`editmachine.dfy`, module `EditMachine`). `Step` gives
  the effect of one press on the mode and the three buffers, and `Session` the effect of a run
  of presses. `HandleKey` is proved to change the state exactly as `Step` says. The lemmas state
  the machine's rules: which key clears, extends or shortens which buffer, which mode follows,
  and what typing, erasing and "select, type, Esc" do.
- **The transform engine** (`transform.dfy`, module `TransformEngine`). `Transform` derives the
  preview from the three buffers. The regex crate is an `Engine`: three function values standing
  for `Regex::new`, the texts of `find_iter` and `replace_all`. Its meaning is not modelled.
  The one assumption made about it (substituting where nothing matches changes nothing) is a
  named predicate, required only by the lemma that needs it.
- **Cleaning of the suggestion** (`suggestion.dfy`, module `Suggestion`). `Clean` turns the
  command's reply into a pattern; `CleanIsBare` and the lemmas beside it say what it gives. `SuggestedPattern` and `SuggestStatus` give the pattern (if
  any) and the status line for each kind of answer.
- **String operations** (`text.dfy`, module `Text`). These are the Rust standard-library
  operations the core relies on, with their meaning proved: `str::trim` (with
  `char::is_whitespace`, the Unicode White_Space set), `str::replace(pat, "")` (the input
  is the kept stretches with whole copies of the pattern between them, found left to right,
  and the result is those stretches in order) and `[&str]::join`.

Behaviour of the code that the model keeps as written:

- Without a replacement there is no line-by-line filter. The preview lists every match of the
  whole source, joined by `" | "`. When there are none it is the fixed text
  `"(No hay coincidencias)"`. An empty replacement therefore always means "list matches": it
  cannot be used to delete the matches.
- The emptiness test on the command's reply comes before the cleaning. A reply of just
  three backticks passes the test, cleans to the empty pattern and is reported as applied
  (`FenceOnlyReplyClearsPattern`).
- On a failed or empty reply, the pattern and the preview are kept by `suggest_ai`. The loop
  then recomputes the preview anyway, as it does after every press. On a usable reply the preview
  is recomputed twice: once inside `suggest_ai` and once after the dispatch. `Transform` is a
  function of the buffers, so the second time gives the same text.
- Key modifiers are not looked at: Ctrl+q counts as 'q'. The model's key events carry no
  modifiers.

## Model

| member | source | states |
|---|---|---|
| `Text.TrimStart` | src/main.rs:93 | definition of `trim_start` only; its meaning is stated by `Text.TrimStartSpec` |
| `Text.TrimEnd` | src/main.rs:93 | definition of `trim_end` only; its meaning is stated by `Text.TrimEndSpec` |
| `Text.Trim` | src/main.rs:93 | definition of `trim` only; its meaning is stated by `Text.TrimSpec`, `Text.TrimUnique` and `Text.TrimIdempotent` |
| `Text.TrimStartSpec` | src/main.rs:93 | `trim_start` removes a prefix made only of whitespace and stops at the first other character |
| `Text.TrimEndSpec` | src/main.rs:93 | `trim_end` removes a suffix made only of whitespace and stops at the last other character |
| `Text.TrimSpec` | src/main.rs:93 | the trimmed text has no whitespace at either end, and it is the input with only whitespace removed from its two ends |
| `Text.TrimUnique` | src/main.rs:99 | any text that is the input stripped of whitespace at its ends, and trimmed, equals `Trim` of the input: the description above determines `trim` |
| `Text.TrimIdempotent` | src/main.rs:99 | trimming an already trimmed text changes nothing |
| `Text.RemoveAll` | src/main.rs:96-98 | deleting the occurrences of a pattern never makes the text longer |
| `Text.RemoveAllAbsent` | src/main.rs:96-98 | a text in which the pattern's first character never occurs comes back unchanged |
| `Text.RemoveAllChar` | src/main.rs:98 | after deleting every single backtick none is left |
| `Text.RemoveAllCharKeeps` | src/main.rs:98 | deleting every backtick keeps every other character, each as often as before |
| `Text.RemoveAllSplits` | src/main.rs:96-98 | the input is the kept stretches with one whole copy of the pattern between each two, and the result is the same stretches in order: only whole copies of the pattern go |
| `Text.RemoveAllLeftmost` | src/main.rs:96-98 | copies are found scanning left to right: the pattern starts nowhere inside a kept stretch, and each copy removed is the first one at or after the end of the stretch before it |
| `Text.RemoveTripleThenSingle` | src/main.rs:97-98 | deleting runs of three backticks and then every backtick gives the same text as deleting every backtick alone |
| `Text.Join` | src/main.rs:68 | definition of `join` only; its meaning is stated by `Text.JoinLength`, `Text.JoinPart` and `Text.JoinSeparator` |
| `Text.JoinSplit` | src/main.rs:68 | the joined text is the first i parts, each followed by the separator, then the remaining parts joined |
| `Text.JoinLength` | src/main.rs:68 | the joined text is exactly as long as all the parts plus one separator between each two |
| `Text.JoinPart` | src/main.rs:68 | each part appears in the joined text, in order, at the offset given by the parts and separators before it |
| `Text.JoinSeparator` | src/main.rs:68 | between each part and the next stands exactly one separator |
| `TransformEngine.Transform` | src/main.rs:48-74 | definition of the preview only; its cases are stated by the `TransformEngine` lemmas below |
| `TransformEngine.EmptyPatternIsIdentity` | src/main.rs:49-52 | an empty pattern makes the preview the source, unchanged, whatever the replacement |
| `TransformEngine.CompileErrorShown` | src/main.rs:54-60 | a pattern that does not compile makes the preview "Regex Error: " followed by exactly the library's message |
| `TransformEngine.NoMatchMessage` | src/main.rs:62-66 | with no replacement and no match the preview is "(No hay coincidencias)" |
| `TransformEngine.MatchesListedInOrder` | src/main.rs:62-69 | with no replacement and some matches, the preview holds every match in the order found, with exactly one separator (space, vertical bar, space) between neighbours and nothing else |
| `TransformEngine.SingleMatchShownAlone` | src/main.rs:64-68 | a single match is the whole preview, with no separator |
| `TransformEngine.TwoMatchesScenario` | src/main.rs:64-68 | matches "cat" and "bat" give the preview "cat", then the separator, then "bat", a worked example |
| `TransformEngine.ReplacementSubstitutes` | src/main.rs:70-73 | with a non-empty replacement the preview is the library's substitution over the whole source |
| `TransformEngine.NoMatchSubstitutionIsIdentity` | src/main.rs:70-73 | if the library's substitution keeps texts with no match, substituting in such a source shows the source as it is |
| `Suggestion.Clean` | src/main.rs:95-100 | definition of the cleaning only; its meaning is stated by `Suggestion.CleanIsBare`, `Suggestion.CleanKeepsBarePattern` and `Suggestion.CleanIdempotent` |
| `Suggestion.SuggestedPattern` | src/main.rs:91-107 | definition only: the cleaned reply on a successful, non-empty reply, and no pattern otherwise; stated by `Suggestion.StatusMatchesOutcome` |
| `Suggestion.SuggestStatus` | src/main.rs:91-115 | definition only: the status line for each kind of answer, with the first 30 characters of the error output on a failed exit; stated by `Suggestion.StatusMatchesOutcome` |
| `Suggestion.CleanIsBare` | src/main.rs:95-100 | the cleaned reply contains no backtick and has no whitespace at either end |
| `Suggestion.CleanSkipsFencePass` | src/main.rs:95-100 | the cleaning equals deleting each opening fence (three backticks and the word regex), then every backtick, then trimming |
| `Suggestion.CleanKeepsBarePattern` | src/main.rs:95-100 | a reply that is already a bare pattern (no backtick, trimmed) is taken unchanged |
| `Suggestion.CleanIdempotent` | src/main.rs:95-100 | cleaning a cleaned reply changes nothing |
| `Suggestion.StatusMatchesOutcome` | src/main.rs:91-115 | the status says "Sugerencia aplicada!" exactly when a pattern is installed, and an installed pattern is clean |
| `Suggestion.FenceOnlyReplyClearsPattern` | src/main.rs:93-101 | a successful reply of just three backticks installs the empty pattern |
| `EditMachine.Edit` | src/main.rs:175-195 | definition of one press in an editing mode only; its rules are stated by the `EditMachine` lemmas below |
| `EditMachine.Step` | src/main.rs:155-196 | definition of one press only; its rules are stated by the `EditMachine` lemmas below, and `RegexApp.App.HandleKey` is proved to follow it |
| `EditMachine.Session` | src/main.rs:146-198 | definition of a run of presses, up to the one that quits; stated by `EditMachine.TypingAppends`, `EditMachine.ErasingDrops` and `EditMachine.SelectTypeEscape` |
| `EditMachine.Pop` | src/main.rs:178 | `pop` removes the last character of a non-empty text and leaves an empty one empty |
| `EditMachine.SelectClearsOnlyItsBuffer` | src/main.rs:158-169 | in Normal, 's', 'r' and 't' each empty their own buffer and enter its editing mode, keeping the other two buffers |
| `EditMachine.NormalIgnoresOtherKeys` | src/main.rs:156-173 | in Normal, every key other than 's', 'r', 't' and Tab changes no buffer and no mode |
| `EditMachine.TabInstallsSuggestion` | src/main.rs:170-172 | Tab in Normal replaces the pattern by the suggested one when there is one, and otherwise changes nothing |
| `EditMachine.EditTouchesOnlyOwnBuffer` | src/main.rs:175-195 | in an editing mode no other buffer changes, and the next mode is the same one or Normal |
| `EditMachine.CharAppends` | src/main.rs:175-195 | in an editing mode a character is appended to that mode's buffer only |
| `EditMachine.BackspacePops` | src/main.rs:175-195 | in an editing mode Backspace removes the last character of that mode's buffer, if there is one, and changes nothing else |
| `EditMachine.BackspaceUndoesChar` | src/main.rs:175-195 | Backspace right after a typed character restores the state before it |
| `EditMachine.BackspaceOnEmptyIsNoop` | src/main.rs:175-195 | Backspace on an empty buffer changes nothing |
| `EditMachine.EscKeepsBuffers` | src/main.rs:175-195 | Esc in an editing mode returns to Normal and keeps every buffer |
| `EditMachine.EnterByMode` | src/main.rs:175-195 | Enter appends a line break to the source and stays in EditingSource; in EditingRegex and EditingReplace it returns to Normal with the buffers kept |
| `EditMachine.TypingAppends` | src/main.rs:175-195 | typing a text in an editing mode appends it to that buffer and changes nothing else |
| `EditMachine.ErasingDrops` | src/main.rs:175-195 | n Backspaces drop the last n characters of the edited buffer, or all of them when there are fewer |
| `EditMachine.TypeThenEraseIsIdentity` | src/main.rs:175-195 | typing a text and then as many Backspaces gives back the state before it |
| `EditMachine.SelectTypeEscape` | src/main.rs:155-196 | from Normal, a select key, a text w and Esc leave exactly w in that buffer, whatever it held before, with the other buffers kept and the mode Normal |
| `RegexApp.App.constructor` | src/main.rs:34-45 | the default state: the sample source, empty pattern, replacement and preview, mode Normal, the help status |
| `RegexApp.App.ApplyTransform` | src/main.rs:48-74 | the preview becomes `Transform` of the three buffers, and nothing else changes |
| `RegexApp.App.SuggestAi` | src/main.rs:76-116 | a usable reply becomes the pattern and the preview is brought up to date; otherwise pattern and preview are kept; the status is the one for that answer; mode, source and replacement are kept |
| `RegexApp.App.HandleKey` | src/main.rs:150-197 | a non-press changes nothing; 'q' in Normal quits with nothing changed; any other press changes mode and buffers as `Step` says and leaves the preview equal to `Transform` of the new buffers |
| `RegexApp.Launch` | src/main.rs:126-127 | at start-up the preview equals the sample source, since the pattern is empty |

## Left out

- Terminal setup and restoration, and printing the loop's error (`main`, src/main.rs:119-143): terminal I/O.
- Drawing, event polling and the 100 ms timeout (src/main.rs:146-150): I/O and timing. The loop body is `HandleKey`; the event it reads and the command's answer are parameters.
- Screen layout and styles (`ui`, src/main.rs:203-275): rendering only, with no state.
- Running `cmd /C gemini -p` and building its prompt (src/main.rs:79-89): an external process. Its result is a `ProviderOutcome`: a zero or non-zero exit with stdout and stderr, or a failure to start.
- Lossy UTF-8 decoding of stdout and stderr (src/main.rs:93, 112): the outcome carries text that is already decoded.
- The regex crate: compilation, matching, `$1` substitution and the text of its error messages are library behaviour. They enter only through `Engine`.
- Mouse, resize and other non-key events: `run_app` skips them, as `HandleKey` does a non-press. The model takes key events only.
- `EditMachine.Session`: every Tab in one run of presses gets the same answer from the command. `HandleKey` takes a fresh answer for every press.
