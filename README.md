# Member portal: key normalisation and the profile editor

This project models, in Dafny, the two pieces of logic in the member portal's
web client that transform data rather than display it. It proves what they do.

- **Key normalisation** (`src/api/member.ts`). The member API answers with
  property names in several styles: `DOB`, `HS_BAPTISED`, `first-name`,
  `ProfCatId`. `toCamelCase` rewrites every name in the payload with
  `normalizeKey`, at every depth.
- **The profile editor** (`src/components/Profile.tsx`).
  - `getValueAtPath` reads a field of the member record by its path of
    property names.
  - The updater that `handleFieldChange` hands to `setFormData` writes a field
    into a copy of the draft. It creates the objects missing on the way.
  - `formatValue` and `EditableField` turn values into text and back.
  - The component's state (`isEditing`, `formData`, `isSaving`, `saveError`)
    changes through the effect on `member` and the start, cancel and save
    handlers.

Files:

| file | module | contents |
|---|---|---|
| `wrappers.dfy` | `Wrappers` | `Option` and `Result` |
| `json.dfy` | `Json` | JSON values with ordered objects; property read (`Lookup`) and assignment (`Put`) with JavaScript's ordering |
| `member_api.dfy` | `MemberApi` | `normalizeKey`, `toCamelCase`, and the `reduce` loop of its object branch |
| `profile_paths.dfy` | `ProfilePaths` | `getValueAtPath`; the field-change updater as a pure function and as the cursor loop of the source |
| `profile_display.dfy` | `ProfileDisplay` | `formatValue`, field ids, and the value shown and read back by an editable field |
| `profile_session.dfy` | `ProfileSession` | the component's state as a class whose methods are the handlers |

Modelling choices:

- An object is an ordered list of entries, in the order JavaScript enumerates
  them. Reading a property takes the first entry with that name among the
  object's own properties; nothing is inherited. Assigning one
  replaces the entry in place or appends a new entry at the end, as JavaScript
  does for string keys.
- `undefined` is `None`, and a stored `null` is `Some(Null)`.
- The updater throws a `TypeError` when it assigns a property on a string,
  number or boolean (module code runs in strict mode). Here that throw is an
  `Err` result that names the key and its position in the path.
- The awaited calls of a save are not made. Their outcome is a parameter of
  `Session.Save`: saved, the update rejected, or the refresh after it
  rejected. In this application the refresh is `loadProfile`
  (src/App.tsx:42-59, passed as `onRetry` at src/App.tsx:84), which catches
  its own errors. So the third outcome arises only when the page is given an
  `onRetry` that can reject.

Behaviour of the code that a reader might not expect, which the model keeps:

- `normalizeKey` is not idempotent. `HS_BAPTISED` becomes `hs_baptised`, and
  a second pass gives `hsBaptised`. `1-a` becomes `1A`, and a second pass gives
  `1a`.
- `toCamelCase` does not preserve the number of keys. Two names that
  normalise to the same key merge, and the later value wins
  (`MemberApi.ToCamelCaseObject`).
- PascalCase is not split into words. Only the first character is
  lower-cased, so `ProfCatId` becomes `profCatId`.
- The updater returns an unchanged copy for an empty path. It returns a
  `null` draft as it is.

## Model

| member | source | states |
|---|---|---|
| `Json.Lookup` | src/components/Profile.tsx:30 | reading `obj[k]` is `undefined` exactly when no entry has that name, and otherwise yields a value stored under it |
| `Json.Put` | src/api/member.ts:24 | after `obj[k] = v` the property reads `v`, every other property reads as before, and the set of names gains `k` |
| `Json.PutShape` | src/api/member.ts:24 | assignment adds one entry for a new name and none for an existing one, keeps names distinct, and leaves only old entries and the new one |
| `Json.PutPut` | src/components/Profile.tsx:57-59 | assigning a property twice leaves the same object as assigning only the second value |
| `Json.KeySetSize` | src/api/member.ts:20-28 | an object has at most one name per entry, and exactly one when no name repeats |
| `MemberApi.ToLower` | src/api/member.ts:8 | `toLowerCase` keeps the length and lower-cases each ASCII capital |
| `MemberApi.SeparatorRunMaximal` | src/api/member.ts:12 | the greedy `[-_]+` run at the start of the text is all separators and is not followed by one |
| `MemberApi.Collapse` | src/api/member.ts:12 | the global separator replacement never lengthens the key |
| `MemberApi.LowerFirst` | src/api/member.ts:13 | only the first character is lower-cased; the rest is kept and the length is unchanged |
| `MemberApi.CollapseNoSeparators` | src/api/member.ts:12 | text with no `-` or `_` passes the replacement unchanged |
| `MemberApi.CollapseTrailingRun` | src/api/member.ts:12 | a run of separators with nothing after it passes the replacement unchanged |
| `MemberApi.CollapseRunBeforeAlnum` | src/api/member.ts:12 | a separator run followed by a letter or digit becomes that character upper-cased |
| `MemberApi.CollapseAppend` | src/api/member.ts:12 | the replacement works piecewise across a boundary not preceded by a separator |
| `MemberApi.CollapseLeavesNoMatch` | src/api/member.ts:12 | after the replacement no separator is followed by a letter or digit |
| `MemberApi.NormalizeKey` | src/api/member.ts:5-14 | a normalised key is never longer than the original |
| `MemberApi.NormalizeKeyUpper` | src/api/member.ts:7-9 | a key of only `[A-Z0-9_]` comes out lower-cased character by character, with no capital left |
| `MemberApi.NormalizeKeyOther` | src/api/member.ts:11-13 | any other key comes out no longer than it was, with a non-capital first character, the rest as the replacement left it, and no separator before a letter or digit |
| `MemberApi.NormalizeKeyCamelUnchanged` | src/api/member.ts:5-14 | a key starting with a lower-case letter and free of `-` and `_` is returned unchanged |
| `MemberApi.CollapseTwoWords` | src/api/member.ts:12 | one separator between two separator-free words is removed and the next character upper-cased |
| `MemberApi.UpperKeyExamples` | src/api/member.ts:6-9 | `DOB` becomes `dob` and `HSBAPTISED` becomes `hsbaptised` |
| `MemberApi.FirstNameExample` | src/api/member.ts:11-13 | `First-Name` becomes `firstName` |
| `MemberApi.NestedKeyExample` | src/api/member.ts:11-13 | `Nested_Key` becomes `nestedKey` |
| `MemberApi.PascalCaseExample` | src/api/member.ts:11-13 | `ProfCatId` becomes `profCatId`: PascalCase is not split into words |
| `MemberApi.SecondPassOfHsBaptised` | src/api/member.ts:11-13 | `hs_baptised` becomes `hsBaptised` |
| `MemberApi.NotIdempotentUpperKey` | src/api/member.ts:5-14 | `HS_BAPTISED` gives `hs_baptised`, and a second pass gives a different key, `hsBaptised` |
| `MemberApi.NotIdempotentSeparatorKey` | src/api/member.ts:5-14 | `1-a` gives `1A`, and a second pass gives a different key, `1a` |
| `MemberApi.AssignAll` | src/api/member.ts:21-27 | the `reduce` accumulator has exactly the names assigned, each once, each holding the last value assigned to it, and nothing that was not assigned |
| `MemberApi.ToCamelCase` | src/api/member.ts:4-32 | the result keeps the kind of the value and the length of an array, never has more entries than the object, and has distinct names at every depth |
| `MemberApi.ToCamelCaseScalar` | src/api/member.ts:31 | `null`, booleans, numbers and strings are returned unchanged |
| `MemberApi.ToCamelCaseArray` | src/api/member.ts:16-18 | an array keeps its length, and element i is the normalisation of element i |
| `MemberApi.ToCamelCaseObject` | src/api/member.ts:20-28 | an object's names become exactly the normalised names, each holding the normalised value of the last entry that normalises to it; the count equals the number of distinct normalised names, and equals the original count when no two names collide |
| `MemberApi.ReduceEntries` | src/api/member.ts:21-27 | the `reduce` loop assigning each normalised name into one accumulator produces the object branch's result |
| `MemberApi.ToCamelCaseNotIdempotent` | src/api/member.ts:4-32 | normalising `{HS_BAPTISED: true}` twice differs from normalising it once |
| `ProfilePaths.Step` | src/components/Profile.tsx:29-32 | one step reads a property only of an object, and yields a value stored under that name |
| `ProfilePaths.Walk` | src/components/Profile.tsx:28-33 | once the read is `undefined` it stays `undefined`; a non-empty path reads something only from an object |
| `ProfilePaths.GetValueAtPath` | src/components/Profile.tsx:27-33 | a `null` record reads `undefined` everywhere, and a non-empty path reads something only from an object |
| `ProfilePaths.WalkSnoc` | src/components/Profile.tsx:28-33 | reading one key further is one more step of the fold |
| `ProfilePaths.WalkAppend` | src/components/Profile.tsx:28-33 | reading along one path and then along another is reading along the two joined |
| `ProfilePaths.GetBelowNonObject` | src/components/Profile.tsx:27-33 | once a prefix of the path reads `undefined`, `null` or anything but an object, every longer path reads `undefined` |
| `ProfilePaths.OrEmpty` | src/components/Profile.tsx:58 | `cursor[key] ?? {}` is never `null` and keeps any value present that is not `null` |
| `ProfilePaths.SetIn` | src/components/Profile.tsx:54-61 | the update succeeds only on an object and yields an object; a failure is at a position inside the remaining path |
| `ProfilePaths.SetPath` | src/components/Profile.tsx:50-63 | a `null` draft stays `null`; a failure names a position strictly inside the path, never the root |
| `ProfilePaths.DescendFrame` | src/components/Profile.tsx:57-59 | moving the cursor into a defaulted child keeps the result of the whole update the same |
| `ProfilePaths.HandleFieldChange` | src/components/Profile.tsx:49-64 | the cursor loop over the deep copy computes exactly `SetPath` |
| `ProfilePaths.WalkOrEmpty` | src/components/Profile.tsx:58 | below a default `{}` every longer path reads `undefined`, as below a missing or `null` value |
| `ProfilePaths.SetInReadsBack` | src/components/Profile.tsx:54-61 | after an update of a sub-tree, its path reads the value written |
| `ProfilePaths.SetInCreates` | src/components/Profile.tsx:57-59 | after an update of a sub-tree, every proper prefix of its path reads an object |
| `ProfilePaths.SetThenGet` | src/components/Profile.tsx:25-64 | after a successful change, `getValueAtPath` on the path reads the value written, and every proper prefix reads an object |
| `ProfilePaths.SetInOtherKey` | src/components/Profile.tsx:55-59 | only the property named by the first key changes at the top |
| `ProfilePaths.SetInChild` | src/components/Profile.tsx:57-59 | below the first key, the update is the update of the defaulted child |
| `ProfilePaths.SetInFrame` | src/components/Profile.tsx:54-61 | within a sub-tree, a path that leaves the changed path reads as before |
| `ProfilePaths.SetPathFrame` | src/components/Profile.tsx:25-64 | every field whose path leaves the changed path at some position reads as before the change |
| `ProfilePaths.DescendableStep` | src/components/Profile.tsx:57-59 | the value at position j below the record is the value at position j-1 below the defaulted child, which is an object exactly when the first value can be descended into |
| `ProfilePaths.SetInSucceeds` | src/components/Profile.tsx:54-61 | a sub-tree update succeeds exactly when the node is an object and every value strictly inside the path is missing, `null` or an object |
| `ProfilePaths.SetInError` | src/components/Profile.tsx:54-61 | a failed sub-tree update names the key and the first position whose value cannot be descended into |
| `ProfilePaths.SetPathFails` | src/components/Profile.tsx:25-64 | a change throws exactly when some value strictly inside the path is present and is neither `null` nor an object; the error names the first such position and its key |
| `ProfilePaths.SetInTwiceStep` | src/components/Profile.tsx:54-61 | one level of the two-changes property, given it for the child |
| `ProfilePaths.SetInTwice` | src/components/Profile.tsx:54-61 | updating a sub-tree twice on the same path equals updating it once with the second value |
| `ProfilePaths.SetPathTwice` | src/components/Profile.tsx:49-64 | of two changes to the same field only the second shows, and repeating a change changes nothing more |
| `ProfilePaths.SetPathNoChange` | src/components/Profile.tsx:51-53 | a `null` draft, or an empty path, leaves the draft as it is |
| `ProfilePaths.NestedFieldExamples` | src/components/Profile.tsx:49-64 | writing `memberAddress.city` throws below a string, and creates `memberAddress` when it is missing or `null` |
| `ProfileDisplay.DigitChar` | src/components/Profile.tsx:15 | a digit value becomes the character of that digit |
| `ProfileDisplay.NatToString` | src/components/Profile.tsx:15 | the text of a natural number is a non-empty string of digits with no leading zero |
| `ProfileDisplay.IntToString` | src/components/Profile.tsx:15 | the text of an integer starts with `-` exactly when it is negative |
| `ProfileDisplay.ParseNatToString` | src/components/Profile.tsx:15 | the digits of a natural number read back as that number |
| `ProfileDisplay.ParseInt` | src/components/Profile.tsx:15 | the inverse of `String(value)`, which the page itself never computes: a result comes only from non-empty text, and a negative one only from text starting with `-`; it serves `IntToStringRoundTrip` |
| `ProfileDisplay.IntToStringRoundTrip` | src/components/Profile.tsx:15 | the text of an integer reads back as the same integer |
| `ProfileDisplay.FormatValue` | src/components/Profile.tsx:12-16 | never empty; a dash exactly for `null`, `undefined`, `''` or a dash string; `Yes`/`No` for booleans; the number it reads back as; a non-empty string as itself |
| `ProfileDisplay.Join` | src/components/Profile.tsx:81 | a one-key path joins to that key, and a longer one contains a dash |
| `ProfileDisplay.FieldId` | src/components/Profile.tsx:81 | the control id of a one-key field is its key |
| `ProfileDisplay.Split` | src/components/Profile.tsx:81 | the inverse of the id's `join('-')`, which the page itself never computes: splitting at dashes yields at least one piece; it serves `FieldIdRoundTrip` and `FieldIdInjective` |
| `ProfileDisplay.SplitDashFreePrefix` | src/components/Profile.tsx:81 | for the inverse of the id's `join('-')`: a dash-free prefix joins the first piece of the split |
| `ProfileDisplay.FieldIdRoundTrip` | src/components/Profile.tsx:81 | the id of a path whose keys have no dash splits back into that path |
| `ProfileDisplay.FieldIdInjective` | src/components/Profile.tsx:81 | two dash-free paths with the same id are the same path |
| `ProfileDisplay.EditorValue` | src/components/Profile.tsx:82 | the control's value is never `null`: a stored value is kept, and a missing or `null` one becomes `false` for a boolean field and `''` for any other |
| `ProfileDisplay.ControlText` | src/components/Profile.tsx:92 | the control text is `true`/`false` for booleans, the number's digits, or the string itself |
| `ProfileDisplay.InputValue` | src/components/Profile.tsx:93 | a boolean field yields whether `true` was selected, and any other field yields its text |
| `ProfileDisplay.EditorRoundTrip` | src/components/Profile.tsx:82-103 | a field whose stored value matches its kind hands back the same value when its control is set to the text it shows |
| `ProfileDisplay.EditorNumberBecomesText` | src/components/Profile.tsx:100-103 | a number under a text field comes back as a string, not a number |
| `ProfileSession.Session.DisplayMember` | src/components/Profile.tsx:47 | the draft is shown while editing, and the member otherwise |
| `ProfileSession.Session.constructor` | src/components/Profile.tsx:36-39 | the first state: the draft is the member, nothing is being edited or saved, and there is no error |
| `ProfileSession.Session.MemberChanged` | src/components/Profile.tsx:41-45 | a new member replaces the draft, stops editing and clears the error |
| `ProfileSession.Session.StartEditing` | src/components/Profile.tsx:110-113 | editing starts from the member, and a previous error stays |
| `ProfileSession.Session.CancelEdit` | src/components/Profile.tsx:115-119 | the draft is discarded, editing stops and the error is cleared |
| `ProfileSession.Session.FieldChange` | src/components/Profile.tsx:49-64 | the draft becomes the `SetPath` result, or stays as it was and the error is returned; nothing else changes |
| `ProfileSession.Session.BeginSave` | src/components/Profile.tsx:121-128 | without a draft nothing happens; otherwise saving starts and the error is cleared |
| `ProfileSession.Session.CompleteSave` | src/components/Profile.tsx:127-136 | saving ends; an accepted draft ends editing; any rejection sets the fixed message |
| `ProfileSession.Session.Save` | src/components/Profile.tsx:121-137 | from submit to `finally`: with a draft, saving is over, the error is set exactly when a call was rejected, and the member is shown again unless the draft itself was rejected |

## Left out

- Arrays inside paths. `getValueAtPath` reads `undefined` through an array here, while JavaScript would index it. An update that would assign into an array returns `IntoArray` instead of changing it. No field of the form has an array on its path.
- Numbers are integers. Fractions, exponent notation for magnitudes of 10^21 and more, `NaN` and `-0` are not modelled in `formatValue` or `String(value)`. Integers beyond 2^53 are not exact JavaScript numbers, and `String` does not print them digit for digit.
- Case mapping is ASCII only. `toLowerCase` and `charAt(0).toLowerCase()` on non-ASCII letters are not modelled. The regular expressions themselves match only ASCII.
- The `JSON.parse(JSON.stringify(prev))` copy is the identity on these values. Its effect on `undefined` members, dates and non-finite numbers is not modelled. Aliasing does not arise, because values are immutable.
- `Object.entries` lists integer-like names first in ascending order. The model keeps insertion order for every name. The special meaning of assigning a `__proto__` property is not modelled either.
- Sending the draft (`updateMyDetails`) and refreshing the member (`onRetry`) are external calls. `updateMyDetails` is not defined in `src/api/member.ts` and is not part of this model. Only their outcome is a parameter. Logging with `console.error` is left out.
- The scheduling of React state updates, `useMemo`, rendering, and the input's `type` attribute are not modelled. Each handler applies its updates at once.
- `Json.Lookup`: only an object's own properties are read. JavaScript also reads names inherited from `Object.prototype`, such as `constructor` or `toString`, which here read `undefined`. No path of the form uses such a name.
- `ProfilePaths.Step`: the same holds for one step of `getValueAtPath`. `getValueAtPath({}, ['constructor'])` yields the `Object` function in JavaScript and `undefined` here.
- `ProfilePaths.HandleFieldChange`: the thrown `TypeError` is modelled as an `Err` result, and the session leaves the draft unchanged on it. In the running page the exception escapes the state updater instead.
- `getMyDetails`, the HTTP client, authentication, and the sign-in, header and password-reset screens are not part of this model.
