# Resume service string logic, modelled in Dafny

The resume service takes a free-text description, substitutes it into a prompt
template, sends the prompt to a language-model completion endpoint and parses
the reply into a map with two entries: `think` (the model's reasoning, between
`<think>` and `</think>`) and `data` (the JSON object found between a
"```json" opener and a closing "```").

This project models the two routines of `ResumeServiceImpl` that hold logic:

- `putValuesToTemplate`: for each entry of the values map in iteration order,
  replace every `{{key}}` in the text produced so far with the value
  (`String.replace`). It is modelled as the method
  `ResumeService.PutValuesToTemplate`, a loop proved against the fold
  `ResumeService.Render`.
- `parseMultipleResponses`: it finds the two markers with `indexOf` and
  `lastIndexOf`, cuts with `substring`, trims, and parses the JSON text. It is
  modelled as the method `ResumeService.ParseMultipleResponses`. The method
  fills a map with one `put` per entry and is proved equal to the function
  `ResumeService.ParseSpec`. The lemmas about `ParseSpec` state how the parser
  behaves.

The `java.lang.String` operations they use are modelled in module `JavaString`.
Each is characterised independently of its definition, by its contract or by
a lemma (for `replace`, the lemma `ReplaceAllIsScan`):

- `indexOf` and `lastIndexOf`: the first or last occurrence, or -1.
- `substring`: throws `StringIndexOutOfBoundsException` outside
  `0 <= begin <= end <= length`.
- `trim`: strips characters `<= ' '` from both ends.
- `replace`: replaces occurrences left to right, never overlapping.

Java's `null` is `Null` in the result map and `None` elsewhere. A thrown
exception is the `Failure` case of `Result`. Jackson's `readValue` is the
function parameter `parseJson`, and `None` stands for both a parse exception
and a `null` result. The completion call is the function parameter
`callGroqApi`. The template text is the parameter `promptString`.

## The code as written

The model follows the code, including where the code departs from its own
comments:

- The guards `thinkStart != -1` and `jsonStart != -1` can never fail, because
  both starts are an `indexOf` result plus 7.
  - Without `<think>`, the extraction starts at index 6, so the reply
    `hello world</think>` gives `think` = `world` (`ThinkWithoutOpener`).
  - When the first `</think>` lies before that start, `substring` throws. The
    exception is not caught, so `parseMultipleResponses` returns no map
    (`ParseThrowsExactly`, `ParseThrowsWhenCloseBeforeOpen`,
    `ParseThrowsOnLeadingClose`). The comment on line 172 ("Handle missing
    <think> tags") expects a `null` `think` for a reply without `<think>`;
    such a reply gets one only when it has no `</think>` either.
  - Without "```json", the JSON text likewise starts at index 6: when the last
    "```" lies after index 6, the trimmed text from 6 to that last fence is
    handed to the JSON parser (`DataWithoutOpener`), where the comment on line
    190 ("Handle missing JSON") expects a `null` `data` entry. That entry is
    `null` only if the parse fails.
- The closing fence is the last "```" in the whole reply. "```json" itself
  contains "```". So a reply whose only fence is the opener has a `null`
  `data` entry (`DataNullWhenOnlyFenceIsOpener`). With several fenced blocks,
  the text handed to the JSON parser runs across the inner fences
  (`JsonTextSpansInnerFences`).
- Each substitution on line 157 works on the text produced by the earlier
  ones, so a placeholder inside an inserted value is replaced by a later key.
  The result therefore depends on the map's iteration order
  (`RenderRescansInsertedText`, `RenderDependsOnOrder`). For the same reason,
  "no placeholder of a supplied key remains" holds only under a condition on
  the value (`RenderSingleRemovesPlaceholder`, `RenderLastRemovesPlaceholder`).
  Without that condition it fails: a value that is its own placeholder leaves
  the placeholder in place (`RenderPlaceholderAsValue`).

## Model

All source paths are under `resume-ai-builder/src/main/java/com/resume/backend/service/`.

| member | source | states |
|---|---|---|
| JavaString.IndexOf | resume-ai-builder/src/main/java/com/resume/backend/service/ResumeServiceImpl.java:166-167 | -1 exactly when the pattern occurs nowhere; otherwise an occurrence with none before it |
| JavaString.IndexOfIsFirst | resume-ai-builder/src/main/java/com/resume/backend/service/ResumeServiceImpl.java:176 | for every index i >= 0, `indexOf` returns i if and only if i is the first occurrence |
| JavaString.LastIndexOf | resume-ai-builder/src/main/java/com/resume/backend/service/ResumeServiceImpl.java:177 | -1 exactly when the pattern occurs nowhere; otherwise an occurrence with none after it |
| JavaString.LastIndexOfIsLast | resume-ai-builder/src/main/java/com/resume/backend/service/ResumeServiceImpl.java:177 | for every index j >= 0, `lastIndexOf` returns j if and only if j is the last occurrence |
| JavaString.Substring | resume-ai-builder/src/main/java/com/resume/backend/service/ResumeServiceImpl.java:169 | returns if and only if 0 <= begin <= end <= length, then the characters from begin to end; otherwise throws with begin, end and length |
| JavaString.Trim | resume-ai-builder/src/main/java/com/resume/backend/service/ResumeServiceImpl.java:169 | the result is the input with blank (<= ' ') prefix and suffix removed, and neither starts nor ends with a blank |
| JavaString.TrimSplits | resume-ai-builder/src/main/java/com/resume/backend/service/ResumeServiceImpl.java:169 | the input is blanks, then the trimmed text, then blanks |
| JavaString.TrimUnique | resume-ai-builder/src/main/java/com/resume/backend/service/ResumeServiceImpl.java:179 | any split into blanks, a core without blank ends, and blanks has `trim`'s result as its core |
| JavaString.TrimIdempotent | resume-ai-builder/src/main/java/com/resume/backend/service/ResumeServiceImpl.java:179 | trimming a trimmed string changes nothing |
| JavaString.TrimKeepsOccurrence | resume-ai-builder/src/main/java/com/resume/backend/service/ResumeServiceImpl.java:179 | an occurrence of a text without blanks survives trimming |
| JavaString.ReplaceAll | resume-ai-builder/src/main/java/com/resume/backend/service/ResumeServiceImpl.java:157 | a string without the target comes back unchanged |
| JavaString.ReplaceAllIsScan | resume-ai-builder/src/main/java/com/resume/backend/service/ResumeServiceImpl.java:157 | the indexOf-driven replacement equals a left-to-right scan that consumes each occurrence or copies one character |
| JavaString.ReplaceAllSelf | resume-ai-builder/src/main/java/com/resume/backend/service/ResumeServiceImpl.java:157 | replacing the target by itself is the identity |
| JavaString.ReplaceAllRemovesTarget | resume-ai-builder/src/main/java/com/resume/backend/service/ResumeServiceImpl.java:157 | with a non-empty replacement sharing no character with the target, no occurrence of the target remains |
| ResumeService.Placeholder | resume-ai-builder/src/main/java/com/resume/backend/service/ResumeServiceImpl.java:157 | the placeholder is "{{", the key, then "}}" |
| ResumeService.Render | resume-ai-builder/src/main/java/com/resume/backend/service/ResumeServiceImpl.java:156-158 | the substitutions one after another, each replacing every placeholder of one key in the text produced so far. It has no contract of its own; `PutValuesToTemplate` is proved equal to it, and `RenderWithoutPlaceholders`, `RenderLastRemovesPlaceholder`, `RenderPlaceholderAsValue`, `RenderRescansInsertedText` and `RenderDependsOnOrder` characterise it |
| ResumeService.PutValuesToTemplate | resume-ai-builder/src/main/java/com/resume/backend/service/ResumeServiceImpl.java:153-160 | the loop yields the fold of the replacements over the entries in iteration order; no entries give the template unchanged |
| ResumeService.RenderWithoutPlaceholders | resume-ai-builder/src/main/java/com/resume/backend/service/ResumeServiceImpl.java:156-158 | a template with no placeholder of any supplied key is returned unchanged |
| ResumeService.RenderSingleRemovesPlaceholder | resume-ai-builder/src/main/java/com/resume/backend/service/ResumeServiceImpl.java:61-62 | with the single entry the service passes, a non-empty value sharing no character with the placeholder leaves no placeholder behind |
| ResumeService.RenderLastRemovesPlaceholder | resume-ai-builder/src/main/java/com/resume/backend/service/ResumeServiceImpl.java:156-158 | whatever the earlier entries inserted, the last entry leaves no placeholder of its key when its value is non-empty and shares no character with that placeholder |
| ResumeService.RenderPlaceholderAsValue | resume-ai-builder/src/main/java/com/resume/backend/service/ResumeServiceImpl.java:156-158 | a value equal to its own placeholder leaves every template unchanged, so the placeholder survives: the value condition above cannot be dropped |
| ResumeService.ReplaceWhole | resume-ai-builder/src/main/java/com/resume/backend/service/ResumeServiceImpl.java:157 | a text that is exactly the placeholder becomes exactly the value |
| ResumeService.RenderRescansInsertedText | resume-ai-builder/src/main/java/com/resume/backend/service/ResumeServiceImpl.java:156-158 | an example: in the map `a` = `{{b}}`, `b` = `x`, iterated in that order, the template `{{a}}` renders to `x`, because the placeholder inserted for `a` is replaced by `b` |
| ResumeService.RenderDependsOnOrder | resume-ai-builder/src/main/java/com/resume/backend/service/ResumeServiceImpl.java:156-158 | an example: the same entries iterated in the other order render `{{a}}` to `{{b}}`, so the result depends on the order |
| ResumeService.ToValue | resume-ai-builder/src/main/java/com/resume/backend/service/ResumeServiceImpl.java:183-186 | a failed parse is stored as null, a parsed object as itself |
| ResumeService.ThinkText | resume-ai-builder/src/main/java/com/resume/backend/service/ResumeServiceImpl.java:166-173 | with no `</think>` the `think` text is absent; a failure is exactly `substring`'s exception, carrying indexOf(`<think>`)+7, indexOf(`</think>`) and the length; a text found is at most the reply's length less 14 (a start of at least 6, and the 8 characters of `</think>`). `ThinkNullWithoutClose`, `ThinkBetweenTags`, `ThinkWithoutOpener` and `ParseThrowsExactly` characterise it |
| ResumeService.ThinkValue | resume-ai-builder/src/main/java/com/resume/backend/service/ResumeServiceImpl.java:170-172 | an absent text is stored as null, a text as that string |
| ResumeService.JsonText | resume-ai-builder/src/main/java/com/resume/backend/service/ResumeServiceImpl.java:176-179 | with no "```" there is no text to parse; a text found is at most the reply's length less 9. `DataFromFencedText`, `JsonTextBetween`, `DataWithoutOpener`, `DataNullWhenFenceNotAfterOpener` and `JsonTextSpansInnerFences` characterise it |
| ResumeService.DataValue | resume-ai-builder/src/main/java/com/resume/backend/service/ResumeServiceImpl.java:178-191 | `data` is never a string; no text to parse gives null; a parsed object is the parser's result on exactly that text |
| ResumeService.ParseSpec | resume-ai-builder/src/main/java/com/resume/backend/service/ResumeServiceImpl.java:162-194 | returns exactly when the `think` extraction does, with its exception otherwise; a returned map has exactly the keys `think` and `data`, and `data` is never a string |
| ResumeService.ResultMap | resume-ai-builder/src/main/java/com/resume/backend/service/ResumeServiceImpl.java:163-191 | the returned map has exactly the keys `think` and `data`, holding the `think` text (or null) and the `data` value |
| ResumeService.ParseMultipleResponses | resume-ai-builder/src/main/java/com/resume/backend/service/ResumeServiceImpl.java:162-194 | the map built with puts equals the specification, and whenever it returns its keys are exactly `think` and `data` |
| ResumeService.ThinkNullWithoutClose | resume-ai-builder/src/main/java/com/resume/backend/service/ResumeServiceImpl.java:167-173 | without `</think>` the parse returns and `think` is null |
| ResumeService.ThinkBetweenTags | resume-ai-builder/src/main/java/com/resume/backend/service/ResumeServiceImpl.java:166-170 | with the first `<think>` at i, the first `</think>` at j and i+7 <= j, `think` is the trimmed text from i+7 to j |
| ResumeService.ThinkWithoutOpener | resume-ai-builder/src/main/java/com/resume/backend/service/ResumeServiceImpl.java:166-169 | without `<think>` and with the first `</think>` at j >= 6, `think` is the trimmed text from 6 to j |
| ResumeService.ParseThrowsExactly | resume-ai-builder/src/main/java/com/resume/backend/service/ResumeServiceImpl.java:166-169 | with a `</think>` present, the parse throws if and only if it lies before indexOf(`<think>`)+7, with that start and end in the exception |
| ResumeService.ParseThrowsWhenCloseBeforeOpen | resume-ai-builder/src/main/java/com/resume/backend/service/ResumeServiceImpl.java:166-169 | a first `</think>` before the first `<think>` makes the parse throw |
| ResumeService.ParseThrowsOnLeadingClose | resume-ai-builder/src/main/java/com/resume/backend/service/ResumeServiceImpl.java:166-169 | a reply starting with `</think>` and without `<think>` makes the parse throw |
| ResumeService.DataNullWithoutFence | resume-ai-builder/src/main/java/com/resume/backend/service/ResumeServiceImpl.java:176-190 | a reply without any "```" has a null `data` |
| ResumeService.JsonFenceIsFence | resume-ai-builder/src/main/java/com/resume/backend/service/ResumeServiceImpl.java:176-177 | every "```json" begins with a "```" |
| ResumeService.DataNullWhenOnlyFenceIsOpener | resume-ai-builder/src/main/java/com/resume/backend/service/ResumeServiceImpl.java:176-190 | when the only "```" is the one of the "```json" opener, `data` is null |
| ResumeService.DataFromFencedText | resume-ai-builder/src/main/java/com/resume/backend/service/ResumeServiceImpl.java:176-186 | with the first opener at a, the last fence at b and a+7 < b, the parser gets the trimmed text from a+7 to b and `data` is its result or null |
| ResumeService.DataWithoutOpener | resume-ai-builder/src/main/java/com/resume/backend/service/ResumeServiceImpl.java:176-186 | without "```json" and with the last "```" at b > 6, the parser gets the trimmed text from 6 to b and `data` is its result or null |
| ResumeService.DataNullWhenFenceNotAfterOpener | resume-ai-builder/src/main/java/com/resume/backend/service/ResumeServiceImpl.java:178-190 | when the last fence does not lie strictly after indexOf("```json")+7, no text is parsed and `data` is null |
| ResumeService.JsonTextBetween | resume-ai-builder/src/main/java/com/resume/backend/service/ResumeServiceImpl.java:176-179 | given the first opener and the last fence with the fence strictly after the opener's end, the text handed to the JSON parser is the trimmed text between them |
| ResumeService.JsonTextSpansInnerFences | resume-ai-builder/src/main/java/com/resume/backend/service/ResumeServiceImpl.java:176-179 | a fence between the opener and the last fence ends up inside the text handed to the JSON parser |
| ResumeService.ThinkIndependentOfJson | resume-ai-builder/src/main/java/com/resume/backend/service/ResumeServiceImpl.java:180-188 | the JSON parser decides neither whether the parse returns nor `think`; text that does not parse gives a null `data` |
| ResumeService.PlainTextGivesNulls | resume-ai-builder/src/main/java/com/resume/backend/service/ResumeServiceImpl.java:162-191 | a reply with neither '<' nor '`' parses to `think` null and `data` null |
| ResumeService.GenerateResumeResponse | resume-ai-builder/src/main/java/com/resume/backend/service/ResumeServiceImpl.java:57-69 | render with the single `userDescription` entry, call, parse; a failed call is reported as a failure, never as a map with null entries |

## Left out

- `callGroqAPI` (HTTP request, headers, the fixed 4000 tokens and 0.7 temperature, envelope navigation, wrapping into `IOException`): network I/O. It is the parameter `callGroqApi`, which either returns the reply text or fails with a message.
- `loadPromptFromFile` and `init`: class-path resource reading and logging. The template text is a parameter.
- Logging and the `System.err` diagnostic on a JSON parse failure: output only.
- Jackson's `readValue`: a foreign library. It is the uninterpreted parameter `parseJson`, not a JSON grammar.
- `null` arguments (a `null` reply, template, key or value) and the `NullPointerException` they cause: not modelled.
- JavaString.ReplaceAll: `String.replace` with an empty target is not modelled (it requires a non-empty target), because the target is always a placeholder of at least four characters.
- ResumeService.PutValuesToTemplate: the map is a sequence of entries in iteration order; distinct keys are not required, and which order a `HashMap` yields is not modelled.
- Java strings are sequences of UTF-16 code units, and the model's `char` is a Unicode scalar value. A string holding a lone surrogate cannot be represented, and a supplementary character is one `char` rather than two code units, which shifts every index after it. Where a start comes from a found marker (`<think>`, "```json", a placeholder), the extracted and substituted texts agree with Java's on well-formed text, because every marker, every placeholder delimiter and every character `trim` strips is ASCII. The fixed start at index 6, used when `<think>` or "```json" is missing, is different: Java counts six code units and the model counts six characters. A supplementary character among the first six code units therefore changes the extracted text, and it can change whether the parse throws. For a reply made of one emoji (U+1F600) followed by `abcd</think>`, Java gives `think` = "" and the model fails. Java's `substring` there can also split a surrogate pair, which the model cannot represent. The indices in a `StringIndexOutOfBounds` error are counted in characters.
- ResumeController, GroqConfig and the frontend's `Resume.jsx`: HTTP routing, bean wiring and UI rendering with floating-point PDF layout.
