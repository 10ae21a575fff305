# Form detection and autofill, modelled in Dafny

This project models the content script `content.js` of a browser extension
that finds the forms on a web page, sends a description of them to an
analysis service, and later writes the service's recommended values back
into the page. The model covers the script's three parts:

- **Discovery** (`gatherFormData`, content.js:112-235). Every `<form>` is
  scanned in document order for its `input`, `select` and `textarea`
  controls. Controls of type `hidden`, `submit` and `button` are skipped.
  Each remaining control gets a descriptor with a label, its option texts
  when it is a select, and a positional path such as `form[0]-input[3]`.
  Only when no form produced a group are the page's `<div>`s scanned the
  same way, and then only divs holding three or more controls.
- **Autofill** (`fillFormWithResults`, content.js:238-344). Each
  recommendation's path is read back, resolved against the page, and one
  per-kind rule is applied: a select takes the value of its first exactly
  matching option, else of its first partially matching one; a checkbox or
  radio is checked for "yes", "true", "1", "on" or "checked", which unchecks
  the other radios of its group; every other control takes the value
  verbatim, and a file input refuses it with an exception. The pass counts
  fills and errors.
- **Session** (the message listener, content.js:8-48, and the flag
  handling of `analyzeCurrentPage`, content.js:51-109). `isAnalyzing` makes
  analysis single-flight. `analysisResults` keeps the last successful
  result. `fillForm` is refused when there is no result.

The page is abstract. `Dom.Document` is a flat list of controls in document
order. Each form and each div is the ascending list of the controls it
contains, so one control can belong to several nested divs. A map from id
to the text of the first `label[for=id]` stands for the label lookup. The
controls' mutable `value` and `checked` properties live in the class
`Autofill.Page`, which the autofill methods update in place. The session's
two variables are the fields of the class `Session.Session`.

Files, leaf first: `jstext.dfy` (the JavaScript string primitives the
script uses), `document.dfy` (the page), `pathcodec.dfy` (writing and
reading paths), `resolution.dfy` (finding a path's control at fill time),
`discovery.dfy`, `autofill.dfy`, `session.dfy`, and `scenarios.dfy`
(concrete pages run through the model).

## Behaviour kept as written

- **Index scopes differ.** Discovery numbers a control by its position among
  all of its container's controls, excluded ones included (content.js:120,
  159, 218). The fill pass looks the number up among the container's
  controls of that one tag (content.js:286). `Resolution.ResolveEncodedIff`
  states the exact condition under which a written path finds its own
  control again: every control before it in the container has the same tag.
  Otherwise the path is out of range or names a later control of the same
  tag (`Resolution.FirstSelectPathHitsSecondSelect`). So the index is not a
  per-tag index: for a form of an input followed by a select, the code
  writes `form[0]-select[1]`, and that path fills nothing
  (`Scenarios.EmailAndColourFilledAsDiscovered`); only a per-tag path such
  as `form[0]-select[0]` would fill the select
  (`Scenarios.EmailAndColourFilledByRank`).
- **Skips are silent.** A path that does not decode, an index out of range,
  or an empty path or value is skipped with `continue`. Neither counter
  changes, so a path that fails to decode is not an error. `errorCount`
  rises only when the `try` body throws. The model keeps four such paths:
  a truthy path that is not a string (`split` throws), a decoded tag that is
  not a CSS identifier (`querySelectorAll` throws), a value that is not a
  string reaching `toLowerCase` on a select, checkbox or radio, and a value
  assigned to a file input's `value` (the browser throws). A `null` entry in
  the list throws outside the `try` and rejects the whole pass.
- **The patterns are unanchored.** Decoding searches for the leftmost match
  of `form\[(\d+)\]`, `div\[(\d+)\]` and `(\w+)\[(\d+)\]` inside each half, so
  text around the bracketed parts is ignored
  (`PathCodec.DecodeIgnoresTrailingText`).
- **Partial matching is literal.** The value "us" does not select "United
  States": "united states" does not contain "us", and "us" does not contain
  it, so neither pass matches and the select is left alone
  (`Scenarios.UsMatchesNoCountry`).
- **The fill reply drops `errorCount`** (content.js:39). `Session.Reply`
  carries `filledCount` only; `Autofill.Page.FillFormWithResults` still
  returns both counters.

## Model

| member | source | states |
|---|---|---|
| JsText.Trim | content.js:133 | `trim` returns a string no longer than its input with no whitespace at either end, and returns "" exactly when the input is all whitespace |
| JsText.Split | content.js:252 | `split('-')` gives one piece more than there are dashes, and no piece contains a dash |
| JsText.SplitTwoPieces | content.js:252-253 | two dash-free halves joined by one dash split back into exactly those two halves |
| JsText.IncludesIffOccurs | content.js:312-313 | `includes` holds exactly when the needle occurs at some position |
| JsText.DecimalRoundTrip | content.js:271 | `parseInt` of the numeral a path was written with gives back the number |
| JsText.TruthyStringNonEmpty | content.js:248 | a value that passes the truthiness check never converts to the empty string |
| JsText.Utf16Length | content.js:145 | `length` counts at least one and at most two code units per character |
| JsText.Utf16LengthBasic | content.js:205 | for text below U+10000, `length` is the number of characters |
| Dom.TagNameInjective | content.js:159 | distinct control kinds have distinct lower-cased tag names |
| PathCodec.EncodePath | content.js:159 | a written path starts with its container's kind name and ends with the closing bracket of the element index |
| PathCodec.EncodePathSplits | content.js:218 | with a tag name, a written path splits on `-` into exactly its container part and its element part |
| PathCodec.SearchKeywordIndex | content.js:262 | the search returns the match at the leftmost matching position, no position before it matching; it returns nothing only when no position matches |
| PathCodec.SearchTaggedIndex | content.js:273 | the search returns the match at the leftmost matching position, no position before it matching, and its tag is a non-empty run of word characters; it returns nothing only when no position matches |
| PathCodec.DecodeContainer | content.js:261-269 | a decoded container half starts with the name of the kind it was read as |
| PathCodec.DecodePath | content.js:252-277 | a decoded path had exactly one dash, starts with its kind's name, and its tag is lower-case word characters |
| PathCodec.EncodeDecode | content.js:159 | every path discovery writes decodes to the kind, container index, tag and element index it was written from |
| PathCodec.DecodeIgnoresTrailingText | content.js:262-273 | text after the bracketed parts of either half does not change what is decoded |
| Resolution.MembersWithTag | content.js:286 | the lookup returns controls of the container that carry the tag, no more of them than the container holds |
| Resolution.Resolve | content.js:279-289 | a found control is in container `i` of the kind and has the tag; the lookup throws exactly when the container exists and the tag is not a CSS identifier |
| Resolution.ResolveEncodedIff | content.js:280-289 | a written path resolves to its own control if and only if every control before it in the container has the same tag |
| Resolution.ResolveByRank | content.js:286-289 | numbering by rank among same-tag controls always finds the control again |
| Resolution.FirstSelectPathHitsSecondSelect | content.js:159 | in a form of an input and two selects, the path written for the first select resolves to the second |
| Resolution.SecondSelectPathOutOfRange | content.js:287 | in that form, the path written for the second select resolves to nothing |
| Discovery.FindLabel | content.js:127-149 | the label search computes `LabelOf`, and a non-blank `label[for]` text, trimmed, always wins |
| Discovery.LabelOf | content.js:127-149 | a non-blank `label[for]` text always wins, and every label other than the verbatim placeholder has no surrounding whitespace |
| Discovery.LabelEmptyIff | content.js:127-149 | the label is empty exactly when the `for` label is absent or blank, there is no placeholder, and the parent is absent, blank or 100 UTF-16 code units or longer |
| Discovery.LabelSource | content.js:137-149 | a label comes from one of the three sources in priority order, and the placeholder is used untrimmed |
| Discovery.OptionTexts | content.js:156-158 | a select's descriptor lists its option texts in option order |
| Discovery.Describe | content.js:151-160 | a descriptor's type is never empty, and it lists one option text per option exactly when the control is a select |
| Discovery.FieldsAtSlots | content.js:120-160 | a container's descriptors are exactly those of its eligible controls, in order, each written with its position among all of the container's controls |
| Discovery.FieldsEmptyIff | content.js:163 | a container yields no descriptor exactly when none of its controls is eligible |
| Discovery.FieldPathsDecode | content.js:159 | every descriptor's path decodes to its container and to its control's position among all of the container's controls |
| Discovery.FieldPathResolvesIff | content.js:218 | a descriptor's path finds its own control at fill time exactly when every control before it in its container has its tag |
| Discovery.DiscoverAtSlots | content.js:116-232 | discovery returns one group per contributing form in document order, or, when no form contributes, one group per contributing div |
| Discovery.Discover | content.js:112-235 | no group discovery returns is empty; there is at most one group per form, or, for div groups, at most one per div, each with method "unknown" |
| Discovery.FormPassShape | content.js:116-171 | the form loop adds at most one group per form and never an empty one |
| Discovery.DivPassShape | content.js:174-232 | the div loop adds at most one group per div, never an empty one, each with method "unknown" |
| Discovery.FallbackIff | content.js:174 | the div scan runs exactly when no form holds an eligible control, whether or not the page has forms |
| Discovery.DiscoverEmptyIff | content.js:174-232 | discovery finds nothing exactly when no form, and no div of three or more controls, holds an eligible control |
| Discovery.CollectFields | content.js:120-161 | the per-container loop builds the container's descriptors |
| Discovery.GatherFormData | content.js:112-235 | the scan returns the result of discovery |
| Autofill.FirstExact | content.js:299-307 | the first option whose lower-cased text equals the value, with no exact match before it; none only when no option matches exactly |
| Autofill.FirstPartial | content.js:310-319 | the first option whose lower-cased text contains or is contained in the value; none only when no option matches partially |
| Autofill.SelectChoice | content.js:294-320 | a chosen option matches the value at least partially, and nothing is chosen only when no option matches even partially |
| Autofill.SelectChoiceSpec | content.js:294-320 | an exact match is chosen when one exists, else the first partial match; nothing is chosen exactly when no option matches even partially |
| Autofill.EmptyTextOptionMatches | content.js:312-313 | an option with empty text matches every value in the partial pass |
| Autofill.MatchOption | content.js:297-320 | the two option loops pick the option described by `SelectChoice` |
| Autofill.CheckControl | content.js:326 | `checked = true` checks the control and unchecks exactly the other radios of its group |
| Autofill.CheckKeepsGroupsExclusive | content.js:326 | checking a control keeps at most one checked radio in each group |
| Autofill.ApplyToControl | content.js:292-336 | a control's rule never skips and never ends the pass, and it changes nothing unless it fills |
| Autofill.Step | content.js:247-341 | one entry changes nothing unless it fills, and it ends the pass exactly when it is null |
| Autofill.ApplyEffect | content.js:292-336 | a control's rule changes nothing unless it fills; a filling select takes the value of the option SelectChoice picks for the lower-cased string (first exact, else first partial match); a filling checkbox or radio becomes checked and unchecks the other radios of its group; any other control takes the value as a string, a file input only the empty string; no other value changes, and at most one radio per group stays checked |
| Autofill.StepEffect | content.js:291-336 | only a filled recommendation changes the page: its select takes the value of the option SelectChoice picks for the lower-cased recommended string, its checkbox or radio is checked and the other radios of the group unchecked, any other control, never a file input, takes the value; a control is unchecked only when the recommendation reaches another radio of its group; at most one radio per group stays checked |
| Autofill.StepWithoutTarget | content.js:248-289 | a recommendation that reaches no control changes nothing and is skipped, an error, or the end of the pass |
| Autofill.StepErrorIff | content.js:250-340 | a recommendation is counted as an error exactly when its path is not a string, its tag is not a CSS identifier, a non-string value reaches a select, checkbox or radio, or a value reaches a file input |
| Autofill.StepFilledIff | content.js:291-336 | a recommendation is counted as filled exactly when it reaches a control and that control's rule applies: a select with a matching option, a checkbox or radio with a "yes" word, or any other control that is not a file input |
| Autofill.StepIgnoresState | content.js:291-336 | a recommendation's outcome never depends on the controls' current values |
| Autofill.Fill | content.js:243-343 | filled plus errored recommendations never exceed the number of recommendations |
| Autofill.FillAbortedIff | content.js:247-248 | the pass stops early exactly when the list holds a null entry |
| Autofill.FillStopped | content.js:248 | after the pass has stopped, later entries change nothing |
| Autofill.FillSplit | content.js:247-341 | the pass over the whole list is the pass over its first `i` entries continued over the rest |
| Autofill.FillKeepsChecked | content.js:321-329 | a checked control stays checked unless some recommendation reaches another radio of its group |
| Autofill.FillKeepsGroupsExclusive | content.js:321-329 | if at most one radio per group is checked before the pass, the same holds after it |
| Autofill.FillOnlyTouchesTargets | content.js:289-336 | a control that no recommendation reaches keeps its value and is never checked; it keeps its checked state unless a recommendation reaches another radio of its group |
| Autofill.FillCountsIgnoreState | content.js:243-343 | the counters never depend on the controls' starting values |
| Autofill.FillWithoutErrors | content.js:337-339 | with string paths and values, identifier tags and no file input reached, `errorCount` stays 0 and the pass runs to the end |
| Autofill.EncodedPathCannotThrow | content.js:159 | a path written by discovery, with a string value, can make the fill pass throw only by reaching a file input |
| Autofill.Page.FillField | content.js:250-336 | one recommendation changes the page as the step function says and reports its outcome |
| Autofill.Page.ApplyRule | content.js:292-336 | the per-kind rule updates the control's `value`, or `checked` with the group's other radios unchecked, in place as `ApplyToControl` says, and reports its outcome |
| Autofill.Page.FillEntry | content.js:247-341 | one entry of the loop changes the page and reports its outcome as the step function says, null entries and skips included |
| Autofill.Page.CountEntry | content.js:304-339 | one entry with its counting moves the page and the two counters exactly as one step of the pass |
| Autofill.Page.RunPass | content.js:243-341 | the loop ends with the page, the two counters and the stop flag of the pass over the whole list |
| Autofill.Page.FillFormWithResults | content.js:238-344 | without results nothing changes; otherwise the page ends as the whole pass says, with its two counters or the rejection for a null entry |
| Session.StartStep | content.js:9-61 | a request while analysing is refused with the state unchanged; otherwise the scan's groups are sent exactly when it found some, and the kept result never changes |
| Session.CompleteStep | content.js:15-26 | an answer ends the analysis; a success replaces the kept result, a failure keeps it and always carries a message |
| Session.FillFormStep | content.js:31-47 | without a kept result the fill is refused and nothing changes; a reported count never exceeds the number of recommendations |
| Session.KeptResultIsLastSuccess | content.js:17 | after any sequence of requests and answers, the kept result is the analysis of the latest successful answer |
| Session.BusyStartIsInvisible | content.js:10-12 | a request refused as busy has no effect on anything that follows |
| Session.InFlightUntilAnswered | content.js:10-12 | while a call is in flight, further requests change nothing, so at most one analysis is in flight |
| Session.Session.StartAnalysis | content.js:9-15 | the handler's start request changes the two variables as `StartStep` says |
| Session.Session.CompleteAnalysis | content.js:16-26 | the answer's `then`/`catch`/`finally` change the two variables as `CompleteStep` says |
| Session.Session.FillForm | content.js:31-47 | the fill request leaves the session's variables alone and changes the page as `FillFormStep` says |
| Scenarios.EmailAndColourDiscovered | content.js:116-171 | a form of a text input with placeholder "Email" and a colour select yields one group whose select is written as `form[0]-select[1]` |
| Scenarios.EmailAndColourFilledByRank | content.js:247-344 | with per-tag paths that form is filled twice: the input takes "a@b.com" and the select takes "Green" |
| Scenarios.EmailAndColourFilledAsDiscovered | content.js:286-287 | with the paths discovery writes, only the input is filled and no error is counted |
| Scenarios.UsMatchesNoCountry | content.js:310-319 | the value "us" matches neither "United States" nor "United Kingdom" |

## Left out

- background.js: the browser tab, scripting and storage calls, the network requests and the token cache are outside this model.
- Screenshot capture (content.js:63-89) loads a library from the network and encodes an image; the model sends no screenshot.
- The messaging transport (content.js:8, 93-103) is not modelled: a request is a method call, and the service's answer is the argument of `Session.Session.CompleteAnalysis`.
- Event dispatch (`dispatchEvent`, content.js:302, 315, 327, 333-334) and whatever page listeners do in response are not modelled.
- `console.error` logging is not modelled.
- Lower-casing covers ASCII letters only, and `trim` removes only whitespace below U+0100.
- Autofill.ApplyToControl: the value a text-like control keeps is the string as assigned; the browser's value sanitisation for the input's type (line breaks stripped from text inputs, invalid numbers, dates, ranges, colours and e-mail addresses rewritten) is not modelled.
- Autofill.ApplyEffect: states the assigned string as the control's new value, before the browser's sanitisation, for the reason above.
- Autofill.StepEffect: states the assigned string as the control's new value, before the browser's sanitisation, for the reason above.
- Autofill.Page.ApplyRule: stores the assigned string, before the browser's sanitisation, for the reason above.
- Autofill.FillWithoutErrors: promises no error only when no recommendation reaches a file input, because assigning a non-empty value to a file input throws (content.js:332).
- A radio's form owner is taken to be the set of forms that contain it; the `form` content attribute, which can attach a radio to another form, is not modelled.
- `parseInt` is modelled on decimal digit strings as an exact number; the loss of precision above 2^53 is not modelled.
- Numbers in recommendations are integers; floating point is not modelled. Objects and arrays as recommended values are not modelled.
- A non-array `fields` member of the analysis is not modelled; `fields` is a list or absent.
- `textContent` and the `label[for="…"]` selector are abstract document fields. An id whose characters break that selector makes `querySelector` throw during discovery; the model does not capture that failure.
- A decoded tag is looked up among the page's form controls only. In the page, a tag such as `option` or `div` selects other elements, and the text rule would then assign to them and count a fill; the model reports such a path as out of range.
- The document is fixed for the lifetime of a `Page`; edits to the page's structure between analysis and fill are not modelled.
- The `finally` at content.js:24-26 runs after the reply is sent. The model treats the answer's handling as one step, since no other message can be handled in between.
- A `fillForm` that arrives while an analysis is in flight uses the previous result. The event sequences in `Session.Feasible` leave fill requests out, because a fill writes neither session variable (`Session.Session.FillForm` only modifies the page).
- The message of the `TypeError` raised by a null entry is written as one fixed string; the real wording depends on the JavaScript engine.
