# SVG icon generator — a Dafny model of its logic

The application lets a user describe an icon in words, sends the description
(and, when editing, the current SVG) to a language model through one server
endpoint, and shows the SVG markup that comes back. Around that one call sit a
few small pieces of string logic and interface state, which this project
models and proves properties of:

- `generate_icon.dfy` (module `GenerateIcon`): the endpoint's prompt builder
  (edit template when `currentSvg` is truthy, creation template otherwise,
  text reproduced character for character), the extraction of the markup
  with `/<svg[\s\S]*<\/svg>/` and its fallback to the raw reply, and the
  mapping of the upstream outcome to the endpoint's response and status.
- `svg_utils.dfy` (module `SvgUtils`): `enhanceSvg`, which inserts
  `width="100%" height="100%"` after the first `<svg` of markup that lacks
  either attribute text.
- `color_palette.dfy` (module `ColorPalette`): the hex-colour test and the
  palette component as a class over `colors`, `currentColor` and `hexInput`,
  with the invariant that the saved colours are distinct valid hex colours.
- `api_key_input.dfy` (module `ApiKeyInput`): the API-key panel as a class
  over its seven state fields and the stored key, with the save (prefix
  check on the trimmed input), clear, input-change and mount transitions.
- `prompt_input.dfy` (module `PromptInput`): the prompt form as a class whose
  calls to `onSubmit` are appended to a ghost log, with the submission
  guard, the edit-mode rule and the disabled-button rule.
- `strings.dfy` (modules `Options`, `Strings`): the JavaScript string
  operations these rely on (`includes`, `replace` with a string pattern,
  `startsWith`, `trim`) and the truthiness of a possibly-null string. The
  source calls neither `indexOf` nor `lastIndexOf`. They are here only as
  modelling devices: `indexOf` finds the occurrence that `replace` rewrites,
  and the two together locate the regular expression's leftmost start and
  last closing tag.

The regular expression is modelled as the code writes it: case-sensitive, and
greedy. It matches from the first `<svg` to the end of the last `</svg>`,
provided that closing tag starts at least four characters after that `<svg`.
A shortest match is not what happens: with two icons in one reply, both are
returned together with the text between them (`GenerateIcon.ExtractIsGreedy`).

Values that JavaScript allows to be `null` or `undefined` (`currentSvg`, the
stored key, the argument of `enhanceSvg`) are `Option<string>`. Such a value is
truthy when it is present and non-empty.

## Model

| member | source | states |
|---|---|---|
| `GenerateIcon.EditPrompt` | app/api/generate-icon/route.js:12-24 | The edit prompt begins "I have an existing SVG icon", holds the description right after the opening sentence, and holds the full SVG text after the description and the "Here is the current SVG code:" line. |
| `GenerateIcon.CreatePrompt` | app/api/generate-icon/route.js:27-36 | The creation prompt begins "Create an SVG icon" and holds the description right after the opening sentence. Its length is the template's plus the description's. |
| `GenerateIcon.BuildPrompt` | app/api/generate-icon/route.js:8-37 | With a truthy `currentSvg` the prompt begins "I have an existing SVG icon" and holds the description and the full SVG text at known positions. Otherwise it begins "Create an SVG icon", holds the description, and its length depends on the description alone. |
| `GenerateIcon.PromptModeIsRecognisable` | app/api/generate-icon/route.js:10-37 | The prompt starts with the edit marker iff `currentSvg` is truthy. It starts with the creation marker iff `currentSvg` is absent, null or empty. |
| `GenerateIcon.CreationPromptDeterminesDescription` | app/api/generate-icon/route.js:26-36 | For any two falsy `currentSvg` values, two creation prompts are equal iff their descriptions are equal. So no SVG enters the creation prompt, and the description can be read back from it. |
| `GenerateIcon.FindSvg` | app/api/generate-icon/route.js:67 | There is no match iff no `<svg` is followed, four or more characters on, by a `</svg>`. A match starts at the leftmost possible start and ends after the last possible `</svg>` (greedy). |
| `GenerateIcon.ExtractSvg` | app/api/generate-icon/route.js:67-68 | With a match, the result is the matched slice of the reply: it starts with `<svg`, ends with `</svg>` and is at least 10 characters long. Without a match, the reply is returned unchanged. |
| `GenerateIcon.ExtractSpansFirstOpenToLastClose` | app/api/generate-icon/route.js:67-68 | When the last `</svg>` starts at least 4 characters after the first `<svg`, extraction returns exactly the text from that `<svg` through the end of that `</svg>`. |
| `GenerateIcon.ExtractIdempotent` | app/api/generate-icon/route.js:67-68 | Extracting from an extracted result gives the same string. |
| `GenerateIcon.ExtractDropsProse` | app/api/generate-icon/route.js:67-68 | Prose around the markup is dropped: the reply `Hi <svg></svg>.` yields `<svg></svg>`. |
| `GenerateIcon.ExtractFallsBack` | app/api/generate-icon/route.js:68 | Every reply that contains no `<svg`, or no `</svg>`, comes back unchanged. |
| `GenerateIcon.ExtractIsGreedy` | app/api/generate-icon/route.js:67 | The match is greedy, not shortest. Two icons in one reply are returned together with the text between them. |
| `GenerateIcon.HandlePost` | app/api/generate-icon/route.js:3-73 | The response carries an SVG iff the body was decoded and upstream replied ok. That SVG is the extraction of the reply text and has status 200. An upstream refusal is passed on with upstream's status and error body. An exception message always comes with status 500. |
| `GenerateIcon.SuccessStatusIffSvg` | app/api/generate-icon/route.js:58-70 | If upstream's `ok` agrees with its status, the endpoint's status is 2xx iff its payload is an SVG. |
| `GenerateIcon.ExceptionsBecome500` | app/api/generate-icon/route.js:71-72 | A failure to decode the request, or an exception from the upstream call, yields status 500 with that exception's message. |
| `SvgUtils.EnhanceSvg` | app/utils/svgUtils.js:1-10 | A falsy argument gives `''`. Markup containing both `width=` and `height=` anywhere is returned unchanged, and so is markup without `<svg`. Otherwise ` width="100%" height="100%"` is inserted right after the first `<svg`, and every other character is kept in place. |
| `SvgUtils.InsertedAttributesAreFound` | app/utils/svgUtils.js:5-6 | After the insertion, the markup passes the substring test for both attributes. |
| `SvgUtils.EnhanceIdempotent` | app/utils/svgUtils.js:1-10 | `enhanceSvg(enhanceSvg(s)) == enhanceSvg(s)` for every argument, including null and `''`. |
| `Strings.Contains` | app/utils/svgUtils.js:5 | `includes` is true iff the pattern occurs at some index. |
| `Strings.ReplaceFirst` | app/utils/svgUtils.js:6 | `replace` with a string pattern rewrites only the first occurrence and keeps the rest of the text. Without an occurrence, the text is unchanged. |
| `Strings.TrimEmptyIffBlank` | app/components/PromptInput.jsx:37 | `s.trim()` is empty iff every character of `s` is ECMAScript white space or a line terminator. |
| `Strings.TrimSplitsPadding` | app/components/ApiKeyInput.jsx:25 | `trim` removes a prefix and a suffix made only of white space and keeps the text between them unchanged. |
| `Strings.Trim` | app/components/PromptInput.jsx:17 | `String.prototype.trim`, used at ApiKeyInput.jsx:25 and PromptInput.jsx:17, 24, 37, 48, 74. The result is no longer than the input. A non-empty result starts and ends with a character that is not white space. |
| `Strings.TrimmedPrefix` | app/components/ApiKeyInput.jsx:25 | For a prefix whose last character is not white space, the trimmed text starts with it iff the text after the leading white space does. Trailing white space never matters to such a test. |
| `Strings.TrimIdempotent` | app/components/PromptInput.jsx:37 | Trimming a trimmed string changes nothing. |
| `Strings.TrimIgnoresPadding` | app/components/ApiKeyInput.jsx:25 | Adding white space on either side does not change what `trim` returns. |
| `ColorPalette.IsValidHex` | app/components/ColorPalette.jsx:49 | A colour is valid iff it is `#` followed by exactly 3 or exactly 6 characters from `[0-9A-Fa-f]`. |
| `ColorPalette.AllHexDigits` | app/components/ColorPalette.jsx:67 | True iff every character is a hex digit in either case. |
| `ColorPalette.RemoveAll` | app/components/ColorPalette.jsx:58-60 | The colours kept are exactly the entries different from `c`, and no new entries appear. If `c` is absent, the list is unchanged. |
| `ColorPalette.RemoveAllConcat` | app/components/ColorPalette.jsx:59 | Filtering a concatenation gives the concatenation of the filtered parts, so the kept colours stay in their order. |
| `ColorPalette.RemoveAllCounts` | app/components/ColorPalette.jsx:59 | Every copy of `c` is removed, and every other colour keeps its number of occurrences. |
| `ColorPalette.RemoveAllKeepsDistinct` | app/components/ColorPalette.jsx:58-60 | Removing a colour keeps a list free of duplicates. |
| `ColorPalette.RemoveUndoesAdd` | app/components/ColorPalette.jsx:47-60 | Removing a colour that was just appended to a list without it restores the list. |
| `ColorPalette.Palette.constructor` | app/components/ColorPalette.jsx:6-8 | The palette starts empty, and both the colour and the hex box start at `#3B82F6`. |
| `ColorPalette.Palette.AddColor` | app/components/ColorPalette.jsx:47-56 | `currentColor` is appended iff it is valid and not already in the list (exact string comparison). In that case the hex box is emptied. Otherwise the list and the box are unchanged. The colour itself never changes, and "distinct, valid colours" is preserved. |
| `ColorPalette.Palette.RemoveColor` | app/components/ColorPalette.jsx:58-60 | The list becomes the filtered list. The colour and the box are unchanged, and the invariant is preserved. |
| `ColorPalette.Palette.HandleHexChange` | app/components/ColorPalette.jsx:62-70 | The box always takes the typed value. The colour takes it only when it is a valid hex colour. The list is unchanged. |
| `ColorPalette.Palette.HandleColorPickerChange` | app/components/ColorPalette.jsx:72-76 | The colour and the box both take the picker's value without validation. The list is unchanged. |
| `ApiKeyInput.LooksLikeKey` | app/components/ApiKeyInput.jsx:25 | The save check `inputValue.trim().startsWith('sk-')` holds iff the input, after its leading white space, starts with `sk-`. Whatever follows the prefix, trailing white space included, is irrelevant. |
| `ApiKeyInput.LooksLikeKeyIgnoresPadding` | app/components/ApiKeyInput.jsx:25 | White space around the input never changes whether a save is accepted. |
| `ApiKeyInput.AcceptedKeyIsNotBlank` | app/components/ApiKeyInput.jsx:25 | An input that passes the prefix check is not empty and not blank. |
| `ApiKeyInput.KeyPanel.constructor` | app/components/ApiKeyInput.jsx:5-10 | Initial state: not visible, not saved, no error. The input holds the parent's key, and the panel is expanded iff that key is empty. |
| `ApiKeyInput.KeyPanel.Mount` | app/components/ApiKeyInput.jsx:13-22 | A non-empty stored key is loaded into `apiKey` and `inputValue` without re-checking its prefix, and the key is marked saved, valid and collapsed. A missing or empty stored key changes nothing. |
| `ApiKeyInput.KeyPanel.HandleSave` | app/components/ApiKeyInput.jsx:24-46 | A save is accepted iff the trimmed input starts with `sk-`. An accepted save stores the untrimmed input in storage and in `apiKey`, sets `isSaved` and `isKeyValid`, and clears `isExpanded` and `showError`. A rejected save clears `isKeyValid`, sets `showError`, and leaves the stored key, `apiKey` and `isSaved` unchanged. |
| `ApiKeyInput.KeyPanel.HandleClear` | app/components/ApiKeyInput.jsx:48-57 | Clear removes the stored key, empties `apiKey` and `inputValue`, clears `isSaved`, `isKeyValid`, `isVisible` and `showError`, and sets `isExpanded`. |
| `ApiKeyInput.KeyPanel.HandleInputChange` | app/components/ApiKeyInput.jsx:133-138 | Editing the input sets `inputValue` and clears `showError`. Every other field is unchanged. |
| `ApiKeyInput.KeyPanel.ToggleExpanded` | app/components/ApiKeyInput.jsx:76 | A click on the header flips `isExpanded`. |
| `ApiKeyInput.KeyPanel.ToggleVisible` | app/components/ApiKeyInput.jsx:143 | The eye button flips `isVisible`. |
| `PromptInput.CanSubmit` | app/components/PromptInput.jsx:37 | The guard holds iff the prompt has a non-white-space character and nothing is loading. |
| `PromptInput.SvgArgument` | app/components/PromptInput.jsx:38 | The SVG handed to `onSubmit` (`isEditMode ? currentSvg : null`, also at line 49) is truthy iff the form is in edit mode and `currentSvg` is truthy. Outside edit mode it is `null`. |
| `PromptInput.IsSubmitShortcut` | app/components/PromptInput.jsx:46 | No key submits without Ctrl or Cmd held. With either held, exactly `Enter` submits. |
| `PromptInput.SubmissionSelectsTemplate` | app/components/PromptInput.jsx:38 | When edit mode agrees with the current SVG, the endpoint builds the edit template for a form submission iff the form is in edit mode. |
| `PromptInput.PromptForm.constructor` | app/components/PromptInput.jsx:4-6 | The prompt starts empty and nothing has been submitted. After the mount effect, edit mode equals `!!currentSvg`. |
| `PromptInput.PromptForm.UpdateProps` | app/components/PromptInput.jsx:31-33 | After a render with new props, edit mode equals `!!currentSvg`. The prompt and the log are unchanged. |
| `PromptInput.PromptForm.SetPrompt` | app/components/PromptInput.jsx:10-12 | The text area takes the new text. |
| `PromptInput.PromptForm.SubmitDisabled` | app/components/PromptInput.jsx:74 | The button is disabled exactly when the submission guard fails. |
| `PromptInput.PromptForm.HandleSubmit` | app/components/PromptInput.jsx:35-41 | When the guard holds, `onSubmit(prompt, isEditMode ? currentSvg : null)` is logged and the prompt becomes `''`. Otherwise nothing is logged and the prompt is unchanged. Every logged call has a non-blank prompt and, if it has an SVG, a non-empty one. |
| `PromptInput.PromptForm.HandleKeyDown` | app/components/PromptInput.jsx:44-53 | Ctrl+Enter or Cmd+Enter acts like a form submit. Any other key changes nothing. |
| `PromptInput.PromptForm.SetPromptAndSubmit` | app/components/PromptInput.jsx:13-21 | The text area shows the new text. That text is submitted, with the SVG in edit mode, when the guard holds for it. The text area is not emptied afterwards. |
| `PromptInput.PromptForm.GenerateWithoutSettingPrompt` | app/components/PromptInput.jsx:23-27 | When the guard holds for the text, it is submitted with a `null` SVG whatever the mode. The prompt is left untouched. |

## Left out

- The call to the model provider is not modelled: the URL, headers, model identifier, token budget and JSON encoding (`app/api/generate-icon/route.js:39-56, 63-64`). It becomes a function from the built prompt to an abstract outcome: raised, refused with a status and decoded error body, or replied with the first content block's text. Decoding the request body becomes a parameter that is either readable or the message of an exception. `NextResponse.json` becomes a status and a payload.
- GenerateIcon.BuildPrompt: the description is taken to be a string. A non-string JSON value (for example `undefined`, which a template literal renders as `undefined`) is not modelled. `currentSvg` is taken to be a string, or absent or null (`Option<string>`). A truthy non-string JSON value such as `true`, `5` or an object would select the edit template and be rendered with `String(..)` (`app/api/generate-icon/route.js:5, 10, 15`). That case is not modelled.
- Strings: JavaScript strings are UTF-16 code units, and these are sequences of Unicode scalar values. Lengths and indices differ for text outside the Basic Multilingual Plane. `trim` uses the ECMAScript white-space and line-terminator code points.
- ColorPalette.Palette: colours are not loaded from or saved to local storage, and `onColorsChange` is not notified (`app/components/ColorPalette.jsx:12-31`). The "distinct valid colours" invariant covers lists built by these handlers. A list loaded from storage is not checked by the source.
- ColorPalette.Palette: opening and closing the pop-out (`isOpen`, the outside-click listener) and the pie-segment geometry, which uses floating point, are not modelled (`app/components/ColorPalette.jsx:33-45, 96-124`).
- ApiKeyInput.KeyPanel: local storage is the field `storedKey`. The success toast and its timer are not modelled (`app/components/ApiKeyInput.jsx:33-41`). `apiKey` and `isKeyValid` belong to the parent. This model updates them only through the panel's own setters.
- ApiKeyInput.KeyPanel.Mount: requires that no error is shown, since the mount effect runs right after the first render, when `showError` is still false.
- PromptInput.PromptForm.SetPromptAndSubmit: the `setTimeout` deferral is taken as immediate. The submission uses the current `isLoading`, `isEditMode` and `currentSvg`, not the values the handle captured when it was last rendered.
- `e.preventDefault()` in the form and key handlers is not modelled, because it has no effect on component state.
- The page component (`app/page.js`) is not part of this model: the fetch wrapper, clipboard copy and PNG export are browser I/O. The presentational components (`Dropdown.jsx`, `Button.jsx`, `IconDisplay.jsx`, `TipsSection.jsx`, `KeyboardShortcutsSection.jsx`, `ExamplePromptsSection.jsx`, `PromptContext.jsx`) hold no logic to state.
