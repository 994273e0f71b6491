# Cargo-logistics console: verified model of its pure logic

The console is a React front end over a REST API. Almost all of it is markup and API plumbing, but four small pieces of logic sit inside it:

- **Route detail panel** (`app/components/RouteDetailPanel.tsx`). From a route's steps it derives the overall origin and destination, the step count and its "Step"/"Steps" label, and the distinct transport types in order of first use. It also builds the journey timeline's inputs (the first origin, then every destination, plus one transport per step) and a numbered card per step.
- **Route timeline** (`app/components/RouteTimeline.tsx`). This file has three total lookup tables, from a transport type (FLIGHT, BUS, UBER, SUBWAY or anything else) to an icon, a badge class and an icon class. It renders one row per stop, each followed by the transport that leaves it, except after the last stop.
- **Location form** (`app/components/LocationForm.tsx`). These are the react-hook-form rules. The IATA code is optional, but when given it must be three ASCII letters. Name, country and city are required.
- **Post-codegen fix** (`scripts/post-codegen-fix.js`). The script counts the occurrences of `if (data.id)` with an `indexOf` loop and skips the run when there are none. Otherwise it replaces them all with `if (data?.id)` by splitting and joining.

Each piece is modelled as pure functions over immutable datatypes. The modules are:

| module | file | models |
|---|---|---|
| `Wrappers` | wrappers.dfy | `Option`, standing in for `null` / `undefined` |
| `TextPatch` | text_patch.dfy | JavaScript `indexOf`, `split`, `join`, and the script's `replaceAll`; a reference left-to-right rewrite and occurrence count |
| `CodegenFix` | codegen_fix.dfy | the needle and replacement, the counting loop, one run of the script, idempotence |
| `TransportStyle` | transport_style.dfy | the icon, badge-class and icon-class tables, the panel's badge ternary, colour families |
| `RouteTimeline` | route_timeline.dfy | the per-stop rows, first/last flags, circle style, the segments and what they show |
| `RouteDetailPanel` | route_detail_panel.dfy | the panel view, the route summary, distinct types, timeline inputs, step cards |
| `LocationForm` | location_form.dfy | the field rules as a validity predicate, the code-field message, the input's length cap |

Some facts about the code that shape the model:

- The location code is not upper-cased. `uppercase` is only a CSS class on the input, and the value is submitted as typed.
- The panel reads `steps[0].origin`, so a route with no steps throws while rendering. The model shows this as `PanelView.MissingFirstStep`.
- The code never checks that steps chain (that each destination is the next origin). Chaining is a hypothesis of `ChainedStopsAreOrigins`, not an invariant.

## Model

| member | source | states |
|---|---|---|
| TextPatch.IndexOf | scripts/post-codegen-fix.js:20-24 | `indexOf(needle, from)` returns a match at or after `from` with no match before it. It returns -1 exactly when there is no match from `from` on. |
| TextPatch.SplitOn | scripts/post-codegen-fix.js:9 | `split(search)` for a non-empty search string returns at least one piece, and no piece contains the search string. |
| TextPatch.Join | scripts/post-codegen-fix.js:9 | `join(glue)` starts with the first piece, followed by the glue when there is a second piece. |
| TextPatch.ReplaceAll | scripts/post-codegen-fix.js:8-10 | For a non-empty search string, the script's `replaceAll` (split, then join) is the left-to-right rewrite of every non-overlapping match. |
| TextPatch.Chars | scripts/post-codegen-fix.js:9 | `split("")` on a string whose characters are all up to U+FFFF gives one single-character piece per character, in order. |
| TextPatch.SplitJoinIsRewrite | scripts/post-codegen-fix.js:8-10 | `replaceAll` (split, then join) equals the reference scan, which goes left to right and replaces every non-overlapping match. It yields one more split piece than that scan has matches. |
| TextPatch.SplitJoinRoundTrip | scripts/post-codegen-fix.js:8-10 | Joining the split pieces with the separator gives back the original text. |
| TextPatch.RewriteLength | scripts/post-codegen-fix.js:8-10 | The output length is the input length plus the match count times (replacement length - needle length). |
| TextPatch.NoOccurrenceNoChange | scripts/post-codegen-fix.js:8-10 | With no match, `replaceAll` returns its input unchanged. |
| TextPatch.OccurrencesZeroIffFree | scripts/post-codegen-fix.js:19-26 | The count is zero exactly when the needle occurs nowhere in the text. |
| TextPatch.IndexOfFromCounts | scripts/post-codegen-fix.js:19-24 | Resuming the search just past a match skips no match the scan would count. |
| CodegenFix.CountOccurrences | scripts/post-codegen-fix.js:19-24 | The loop's count is the number of non-overlapping matches, which is the number of split pieces minus one. It is zero exactly when the needle is absent. The loop terminates because the index strictly increases. |
| CodegenFix.Search | scripts/post-codegen-fix.js:20-23 | Each `indexOf(NEEDLE, from)` call returns -1 when `content[from..]` has no match. Otherwise it returns the first match at or after `from`, and that match plus the matches after it are exactly the matches of `content[from..]`. |
| CodegenFix.Patch | scripts/post-codegen-fix.js:26-31 | A run is skipped exactly when there is no match. Otherwise the new content is the full rewrite, its length grows by exactly the match count, and it contains no needle. |
| CodegenFix.RewriteRemovesNeedle | scripts/post-codegen-fix.js:5-10 | Replacing `if (data.id)` with `if (data?.id)` never recreates the needle, including across the edges of a replacement. |
| CodegenFix.SecondRunIsNoOp | scripts/post-codegen-fix.js:19-31 | A second run over the output counts zero matches, and its `replaceAll` changes nothing. |
| TransportStyle.FamilyOf | app/components/RouteTimeline.tsx:31-60 | The four known types map to four colour families. Every other type maps to gray, and gray is used only for unknown types. |
| TransportStyle.Icon | app/components/RouteTimeline.tsx:15-28 | The icon is "directions" exactly when the type is not FLIGHT, BUS, UBER or SUBWAY. |
| TransportStyle.BadgeClass | app/components/RouteTimeline.tsx:31-44 | Every badge class is its type's colour family: that family's background classes followed by its text classes. |
| TransportStyle.IconClass | app/components/RouteTimeline.tsx:47-60 | Every icon class is the text classes of the same colour family the badge uses. |
| TransportStyle.PanelBadgeClass | app/components/RouteDetailPanel.tsx:86-96 | The panel's ternary chain also draws each type in its own colour family. |
| TransportStyle.PanelAndTimelineBadgesAgree | app/components/RouteDetailPanel.tsx:144-154 | The panel's badges (summary and per step) equal the timeline's `getTransportBadgeClass` for every type. |
| TransportStyle.IconMatchesBadgeText | app/components/RouteTimeline.tsx:105-113 | The segment icon's classes are exactly the text-colour half of the badge around it, for every transport, defined or not. |
| TransportStyle.KnownTypesAreDistinguished | app/components/RouteTimeline.tsx:15-60 | Two different known types get different icons, families and icon classes. |
| TransportStyle.UnknownTypesFallBack | app/components/RouteTimeline.tsx:15-60 | Every unknown type gets the generic icon and the gray classes. |
| TransportStyle.BadgeClassOf | app/components/RouteTimeline.tsx:105-108 | A defined transport gets its family's badge. An undefined one, read past the end of `transports`, takes the `switch` default: the gray badge. |
| TransportStyle.IconClassOf | app/components/RouteTimeline.tsx:111-113 | A defined transport gets its family's text colour, and an undefined one gets gray. |
| TransportStyle.IconOf | app/components/RouteTimeline.tsx:115 | A defined transport gets its table icon, and an undefined one gets "directions". |
| RouteTimeline.Subtitle | app/components/RouteTimeline.tsx:91 | The corrected subtitle starts with the city and a space. It is longer than that exactly when the code is non-empty, and then it is a bullet, a space and the code. |
| RouteTimeline.SubtitleAsWritten | app/components/RouteTimeline.tsx:91 | The rendered subtitle is the city and a space when the code is empty. Otherwise the three written separator characters, a space and the code follow, five characters more than the city and the code. |
| RouteTimeline.SeparatorIsMisencoded | app/components/RouteTimeline.tsx:91 | The written separator is three characters, not the bullet. "IST" in Istanbul renders as "Istanbul â€¢ IST". |
| RouteTimeline.TransportAt | app/components/RouteTimeline.tsx:68 | `transports[index]` is defined exactly when the index is in range, and it is then that element. |
| RouteTimeline.SegmentFor | app/components/RouteTimeline.tsx:97-120 | A segment shows its transport, with that transport's icon, or "directions" when the transport is undefined. Its badge and icon classes are that transport's, and the icon's classes are the badge's text half. |
| RouteTimeline.RowAt | app/components/RouteTimeline.tsx:65-120 | Row `index` shows `stops[index]` with the rendered subtitle. It is first iff index = 0 and last iff it is the final index, gets the origin circle iff first and the terminal circle iff last and not first, and has the segment for `transports[index]` iff it is not last. |
| RouteTimeline.Timeline | app/components/RouteTimeline.tsx:65-97 | There is one row per stop, in order, each with the subtitle as rendered. `isFirst` holds iff index = 0 and `isLast` holds iff index = length - 1. A segment follows exactly the stops before the last, and segment i carries `transports[i]`. |
| RouteTimeline.MarkerRule | app/components/RouteTimeline.tsx:66-82 | Stop 0 gets the origin circle, even when it is also last. The last of two or more stops gets the terminal circle, and every stop between gets the hollow one. |
| RouteTimeline.SingleStop | app/components/RouteTimeline.tsx:66-97 | A single stop is both first and last, gets the origin circle, and has no segment. |
| RouteTimeline.SegmentsFollowTransports | app/components/RouteTimeline.tsx:65-97 | k stops show exactly k - 1 segments, and the i-th shows `transports[i]`, or undefined past its end. |
| RouteTimeline.EveryTransportShownOnce | app/components/RouteTimeline.tsx:68-97 | With k - 1 transports for k stops, the displayed transports are exactly `transports`: each once, in order. |
| RouteDetailPanel.Panel | app/components/RouteDetailPanel.tsx:30-35 | The panel renders nothing iff it is closed or has no route. An open route with no steps fails at `steps[0]`. Otherwise the panel shows the summary of that route's steps. |
| RouteDetailPanel.Summarize | app/components/RouteDetailPanel.tsx:33-156 | For n ≥ 1 steps: the origin is step 0's origin and the destination is step n-1's destination, with totalSteps = n. The word is "Steps" iff n > 1. The distinct types have no duplicates, are the same set as the step types, and number at most n. There are n + 1 stops (the first origin, then every destination) and n transports in step order. Cards are numbered 1..n, with the shared badge table. |
| RouteDetailPanel.Distinct | app/components/RouteDetailPanel.tsx:36 | `[...new Set(xs)]` has no duplicates and the same members as `xs`, is no longer than `xs`, and is ordered by first occurrence. |
| RouteDetailPanel.FirstIndex | app/components/RouteDetailPanel.tsx:36 | The first occurrence of a member: it holds the value, and nothing before it does. |
| RouteDetailPanel.TypeBadgesInFirstUseOrder | app/components/RouteDetailPanel.tsx:83-100 | The summary badges appear in the order of the first step using each type. |
| RouteDetailPanel.StepWord | app/components/RouteDetailPanel.tsx:103 | The label is "Steps" exactly when there is more than one step, and "Step" otherwise. |
| RouteDetailPanel.TypesOf | app/components/RouteDetailPanel.tsx:127 | The transports are each step's type, one per step, in step order. |
| RouteDetailPanel.StopsOf | app/components/RouteDetailPanel.tsx:123-126 | The stops are the first step's origin followed by every step's destination: n + 1 of them. |
| RouteDetailPanel.DetailOf | app/components/RouteDetailPanel.tsx:137-174 | The card for step i is numbered i + 1, and its badge is the timeline's badge for that step's type. It shows that step's type, transportation id, origin and destination. |
| RouteDetailPanel.ChainedStopsAreOrigins | app/components/RouteDetailPanel.tsx:122-128 | When steps chain, stop i is step i's origin, so transport i is the leg leaving stop i. |
| RouteDetailPanel.TimelineShowsEveryStep | app/components/RouteDetailPanel.tsx:122-128 | The panel's timeline has n + 1 rows and shows every step's type exactly once, in step order. |
| RouteDetailPanel.TwoFlightLegs | app/components/RouteDetailPanel.tsx:33-36 | Two flights IST→DXB→JFK give origin IST, destination JFK, 2 "Steps", a single badge type FLIGHT, and transports [FLIGHT, FLIGHT]. |
| LocationForm.FailedCodeRules | app/components/LocationForm.tsx:53-66 | An empty code fails no rule. A non-empty code fails exactly the minLength, maxLength and pattern rules that do not hold of it, with lengths counted in UTF-16 code units as JavaScript does. It fails none exactly when it is empty or matches the pattern. |
| LocationForm.CodeError | app/components/LocationForm.tsx:53-75 | A message is shown exactly when some rule fails, and it is the message of a failing rule. |
| LocationForm.CodeAcceptedIff | app/components/LocationForm.tsx:53-66 | A code passes iff it is empty, or exactly three characters each in A–Z or a–z. |
| LocationForm.PatternImpliesLengthRules | app/components/LocationForm.tsx:53-66 | Any code the pattern accepts also passes minLength and maxLength, so the length rules are redundant. |
| LocationForm.ThreeCharactersWithNonLetter | app/components/LocationForm.tsx:53-66 | A code three UTF-16 units long with a non-letter among its characters fails only the pattern rule and gets the IATA-format message. |
| LocationForm.MatchesIataPattern | app/components/LocationForm.tsx:62-65 | `/^[A-Za-z]{3}$/` matches exactly when the value is three characters and the first, second and third are each an ASCII letter. |
| LocationForm.Valid | app/components/LocationForm.tsx:53-155 | Every registered rule passes exactly when name, country and city are non-empty and the code is empty or matches the IATA pattern. |
| LocationForm.ValidIff | app/components/LocationForm.tsx:53-155 | The form is valid iff name, country and city are non-empty and the code is empty or three ASCII letters. |
| LocationForm.RequiredError | app/components/LocationForm.tsx:98-103 | A `required` message appears exactly when the value is empty, and it is that field's message. |
| LocationForm.Errors | app/components/LocationForm.tsx:69-159 | There are no field errors at all exactly when the form is valid. Name, country and city each show their own "… is required" message exactly when empty. The code shows a message exactly when one of its rules fails. |
| LocationForm.Submit | app/components/LocationForm.tsx:21-29 | `onSubmit` is called exactly for valid forms, and receives the record unchanged. |
| LocationForm.LowerCaseCodeKept | app/components/LocationForm.tsx:44-66 | A lower-case code such as "ist" is accepted and submitted in lower case. |
| LocationForm.CodeIsOptional | app/components/LocationForm.tsx:36-73 | With the other three fields filled in, the form is valid without a code. |
| LocationForm.KeyIn | app/components/LocationForm.tsx:50 | A keystroke appends its character exactly when the value plus that character stays within three UTF-16 units, and otherwise leaves the value unchanged. A value within the cap stays within it. |
| LocationForm.TypeKeys | app/components/LocationForm.tsx:50 | Typing keeps what was there, adds at most one character per key, never takes a value past three UTF-16 units, and adds nothing to a value already at three or more. |
| LocationForm.TypingCapsAtThree | app/components/LocationForm.tsx:50 | Typing one-unit keys fills the field up to three units with the first keystrokes, in order, and drops the rest. |
| LocationForm.Utf16Length | app/components/LocationForm.tsx:53-61 | The `length` react-hook-form compares, in UTF-16 code units, is at least the character count and at most twice it. |
| LocationForm.PatternFixesLength | app/components/LocationForm.tsx:53-65 | A value the pattern accepts is exactly three UTF-16 units long. |
| LocationForm.RulesAtThreeUnits | app/components/LocationForm.tsx:53-66 | At three UTF-16 units both length rules hold, so the pattern is the only rule that can fail. |
| LocationForm.AstralCharacterCountsTwice | app/components/LocationForm.tsx:53-66 | "A" followed by U+1F600 is three units long: it fails only the pattern and shows the IATA-format message. |
| LocationForm.ThreeCharactersFourUnits | app/components/LocationForm.tsx:53-75 | "AB" followed by U+1F600 is four units long: it fails maxLength and the pattern, and shows the length message. |
| LocationForm.KeysThatFitAreKept | app/components/LocationForm.tsx:50 | When the typed keys fit in the room left under the cap, every one of them is appended, in order. |
| LocationForm.DroppedKeyLaterKeyFits | app/components/LocationForm.tsx:50 | A key too wide for the room left is dropped, but a later one-unit key is still taken: typing U+1F600 then "C" after "AB" gives "ABC". |

## Findings

| source | as written | input that shows it | evidently intended | confidence | as-written member | corrected member |
|---|---|---|---|---|---|---|
| app/components/RouteTimeline.tsx:91 | The separator before the location code is the three characters "â€¢". These are the UTF-8 bytes of a bullet read back as Windows-1252. | A stop in Istanbul with code "IST" renders "Istanbul â€¢ IST". | The single bullet "•", giving "Istanbul • IST". | not executed; high, because the bytes are in the file itself | RouteTimeline.SubtitleAsWritten | RouteTimeline.Subtitle |

`RouteTimeline.SeparatorIsMisencoded` proves the discrepancy on that input. The timeline rows (`RowAt`, `Timeline`) show the subtitle as the component renders it. `Subtitle` is the corrected definition, with its intended shape proved: the city, a space, then a single bullet, a space and the code.

## Left out

- The JSX markup, layout, the circle and card class strings, and the header and city text. The `Summary` record carries the locations those lines print, not the text.
- The number in the "{totalSteps} Step(s)" label. Only the word is modelled (`StepWord`); the count is `totalSteps`.
- `onClose` and the backdrop click, which are UI callbacks.
- `operatingDays`. It is declared on a step but never read, so it is carried as data only.
- File existence checks, reading and writing the target file, console messages and `process.exit` in the codegen script. These are I/O; the model takes the file content as a string and returns the outcome.
- TextPatch.Chars: JavaScript's `split("")` yields one piece per UTF-16 code unit, so a character beyond U+FFFF becomes two lone surrogates. Dafny strings cannot hold a lone surrogate, so `Chars` gives one piece per character instead. The script never splits on the empty string; it only passes its non-empty needle.
- TextPatch.IndexOf: the empty search string is not modelled, because the script only searches for the non-empty needle. JavaScript would return min(from, length).
- Class attributes are modelled as their sequence of class tokens (`["bg-blue-100", "dark:bg-blue-900/30", …]`), not as the space-joined string. The timeline and panel class strings are single-space-separated, so nothing is lost; the fixed prefix classes of each badge (padding, rounding, font) are left out with the rest of the layout.
- JavaScript strings are UTF-16 code-unit sequences; the model uses Dafny `char` sequences. Wherever the code compares a length (the form's `minLength`, `maxLength` and `maxLength={3}`), the model counts code units with `Utf16Length`. The script's `indexOf`, `split` and `join` are the same over characters as over code units for its ASCII needle and replacement; `split("")` is the exception noted under `TextPatch.Chars`.
- Typing is modelled as appending one character at the end of the value (`KeyIn`). Cursor movement, selection, deletion, paste and IME composition are left out.
- LocationForm.TypingCapsAtThree: states the prefix form only for keys of one UTF-16 unit each. With a key beyond U+FFFF the result need not be a prefix of the typed text, because a later narrower key can still fit (`DroppedKeyLaterKeyFits`). `TypeKeys` and `KeysThatFitAreKept` state what holds for every key.
- react-hook-form internals beyond the registered rules: revalidation modes, `criteriaMode`, focus handling and the `errors` object's shape. The order "length rules before pattern" is assumed only to pick the code message, and both length rules share one message.
- `initialData` defaults. A pre-filled code is not limited by the input's `maxLength`, which only caps typing (`TypingCapsAtThree`).
- The pages (`app/pages/*.tsx`), the API hooks (`app/lib/api/**`), `Toast`, `Modal`, `LocationEditModal`, `SidebarNavigation` and the route configuration. These are markup, routing, timers and network calls with no logic of their own.
