# TaskFlow domain validation layer, in Dafny

This project models the runtime behaviour of TaskFlow's domain layer. TaskFlow
is a skeleton task-management API. Its domain layer is the only code with logic of
its own; src/server.ts is HTTP wiring. The domain layer has two value objects
that check their input when they are constructed, and four type guards over
closed enumerations:

- `TaskTitle` (src/domain/entities/task.ts) accepts a title when it has at least
  3 characters once trimmed and at most 100 as given. It stores the string
  untrimmed.
- `UserEmail` (src/domain/entities/user.ts) accepts an address matching
  `/^[^\s@]+@[^\s@]+\.[^\s@]{2,}$/i`. It stores the address lower-cased and
  compares instances by the stored value.
- `isValidTaskStatus`, `isValidTaskPriority`, `isValidRole` and `isValidGender`
  test membership in `TaskStatus`, `TaskPriority`, `UserRole` and `UserGender`.

Layout:

- `common.dfy` (module `Common`): `Option`, `Result` and `ValidationError`. A
  thrown `Error` becomes a `Failure` carrying the same message text.
- `text.dfy` (module `Text`): JavaScript's `trim` over the ECMAScript
  white-space set, which is also what `\s` matches, and ASCII `toLowerCase`.
- `task.dfy` (module `Task`): the task enumerations and their guards, and the
  `TaskTitle` value object.
- `user.dfy` (module `User`): the user enumerations and their guards, the e-mail
  pattern, and the `UserEmail` value object.

Each value object is a subset type of a one-field datatype. The subset type's
constraint is the constructor's check, so every `TaskTitle` and every
`UserEmail` in the model is one the source could have built. The smart
constructors `NewTaskTitle` and `NewUserEmail` return a `Result`. The getters
`value` are the datatype fields, and `toString()` is `Title.ToString`.

The e-mail check is modelled twice. `IsValidEmail` splits the string at its
first `@`. `MatchesEmailPattern` reads the regular expression as
`local "@" host "." tld`. `EmailPatternEquivalence` proves the two accept the
same strings.

The class `[^\s@]` in the top-level part excludes `@` as well as white space
(src/domain/entities/user.ts:37), and the model does the same. The error
messages are kept verbatim, including the misspelling "titel" and the stray `"`
at the end of the length message.

## Model

| member | source | states |
|---|---|---|
| `Text.Trim` | src/domain/entities/task.ts:28 | `trim()` result: a contiguous piece of the input; empty exactly when the input is all white space; otherwise it starts and ends with a non-white-space character |
| `Text.TrimOfPadded` | src/domain/entities/task.ts:28 | trimming removes exactly the white space around a core that starts and ends with non-white-space |
| `Text.ToLower` | src/domain/entities/user.ts:27 | `toLowerCase()` keeps the length and lowers each character on its own |
| `Text.LowerRemovesCapitals` | src/domain/entities/user.ts:27 | a lowered string has no capital letters, and only capital letters changed |
| `Text.ToLowerIdempotent` | src/domain/entities/user.ts:27 | lower-casing twice gives the same result as lower-casing once |
| `Text.LowerCharKeepsClass` | src/domain/entities/user.ts:37 | lower-casing neither creates nor removes white space, `@` or `.`, which is why the `i` flag has no effect |
| `Task.IsValidTaskStatus` | src/domain/entities/task.ts:65-67 | true exactly for "pending", "in_progress", "completed" and "cancelled", that is, for the strings of the `TaskStatus` members |
| `Task.AsTaskStatus` | src/domain/entities/task.ts:65-67 | the type guard's narrowing: a member exactly when the guard holds, and that member's string is the input |
| `Task.TaskStatusRoundTrip` | src/domain/entities/task.ts:2-7 | every status string passes the guard and narrows back to the same member |
| `Task.IsValidTaskPriority` | src/domain/entities/task.ts:69-71 | true exactly for 1, 2, 3 and 4, that is, for the numbers of the `TaskPriority` members |
| `Task.AsTaskPriority` | src/domain/entities/task.ts:69-71 | the type guard's narrowing: a member exactly when the guard holds, and that member's number is the input |
| `Task.TaskPriorityOrder` | src/domain/entities/task.ts:10-15 | LOW=1 < MEDIUM=2 < HIGH=3 < CRITICAL=4; the number determines the member and narrows back to it |
| `Task.NewTaskTitle` | src/domain/entities/task.ts:27-34 | succeeds exactly when the trimmed length is at least 3 and the raw length at most 100; stores the raw string untrimmed; a short title fails with the "at least 3 characters" message whatever its length, and only a title that passes that check can fail with the "cannot exceed 100" message |
| `Task.Title.ToString` | src/domain/entities/task.ts:40-42 | `toString()` gives back the stored string; `Task.TitleRoundTrip` states that this is the constructor's input |
| `Task.TitleRoundTrip` | src/domain/entities/task.ts:36-42 | for an acceptable string, both `value` and `toString()` of the constructed title give back that string |
| `Task.BlankTitleIsTooShort` | src/domain/entities/task.ts:28-33 | a title of white space only, even longer than 100 characters, fails with the "at least 3 characters" message |
| `Task.PaddedShortTitleRejected` | src/domain/entities/task.ts:28-30 | white space around fewer than 3 non-blank characters (" hi ", say) is rejected with the "at least 3 characters" message, whatever the padding |
| `Task.PlanLaunchTitleAccepted` | src/domain/entities/task.ts:36-42 | "Plan launch" is accepted and its `toString()` is "Plan launch" |
| `User.IsValidRole` | src/domain/entities/user.ts:64-66 | true exactly for "admin", "member" and "guest", that is, for the strings of the `UserRole` members |
| `User.AsUserRole` | src/domain/entities/user.ts:64-66 | the type guard's narrowing: a member exactly when the guard holds, and that member's string is the input |
| `User.UserRoleRoundTrip` | src/domain/entities/user.ts:1-5 | every role string passes the guard and narrows back to the same member |
| `User.IsValidGender` | src/domain/entities/user.ts:68-70 | true exactly for "male" and "female", that is, for the strings of the `UserGender` members |
| `User.AsUserGender` | src/domain/entities/user.ts:68-70 | the type guard's narrowing: a member exactly when the guard holds, and that member's string is the input |
| `User.UserGenderRoundTrip` | src/domain/entities/user.ts:7-10 | every gender string passes the guard and narrows back to the same member |
| `User.IndexOfAt` | src/domain/entities/user.ts:37 | finds the first `@`: it is an `@`, none comes before it, and there is none at all when the result is empty |
| `User.IsValidEmail` | src/domain/entities/user.ts:35-39 | `UserEmail.isValid`, computed by splitting at the first `@`; what it accepts is stated by `User.EmailPatternEquivalence` |
| `User.PatternImpliesValid` | src/domain/entities/user.ts:35-39 | every string of the form local "@" host "." tld, with the parts drawn from `[^\s@]` and of lengths at least 1, 1 and 2, passes `isValid` |
| `User.ValidImpliesPattern` | src/domain/entities/user.ts:35-39 | every string that passes `isValid` has that form |
| `User.EmailPatternEquivalence` | src/domain/entities/user.ts:35-39 | `isValid` accepts exactly the strings the regular expression matches, with its repetition counts taken over code points |
| `User.ValidEmailShape` | src/domain/entities/user.ts:37 | a valid address has no white space, exactly one `@`, and neither starts nor ends with `@` |
| `User.ValidityDependsOnClasses` | src/domain/entities/user.ts:37 | validity depends only on where the white space, `@` and `.` characters are |
| `User.ValidityIgnoresCase` | src/domain/entities/user.ts:37 | an address is valid exactly when its lower-cased form is valid |
| `User.NewUserEmail` | src/domain/entities/user.ts:22-28 | succeeds exactly when `isValid` holds; fails with "Invalid email: " followed by the input otherwise; on success stores the lower-cased input |
| `User.Equals` | src/domain/entities/user.ts:42-44 | two e-mails are equal exactly when they are the same value |
| `User.EqualsIgnoresCase` | src/domain/entities/user.ts:42-44 | two constructed e-mails are equal exactly when their inputs are equal after lower-casing |
| `User.EqualsIsEquivalence` | src/domain/entities/user.ts:42-44 | `equals` is reflexive, symmetric and transitive |
| `User.StoredValueIsNormal` | src/domain/entities/user.ts:27 | the stored value is itself valid, and constructing from it again gives the same e-mail |
| `User.NoAtIsInvalid` | src/domain/entities/user.ts:37 | an address without `@` is rejected |
| `User.EmptyLocalPartIsInvalid` | src/domain/entities/user.ts:37 | an address starting with `@` is rejected, whatever follows |
| `User.DotlessDomainIsInvalid` | src/domain/entities/user.ts:37 | an address with no `.` after its `@` is rejected |
| `User.MissingAtRejected` | src/domain/entities/user.ts:37 | "not-an-email" is rejected |
| `User.MissingDotRejected` | src/domain/entities/user.ts:22-25 | constructing from "a@b" fails with "Invalid email: a@b" |
| `User.EmptyLocalPartRejected` | src/domain/entities/user.ts:37 | "@b.co" is rejected |
| `User.LowerCasedExample` | src/domain/entities/user.ts:27 | "Foo@BAR.com" is accepted and stored as "foo@bar.com" |
| `User.EqualUpToCaseExample` | src/domain/entities/user.ts:42-44 | the e-mails built from "A@B.com" and "a@b.com" are equal |
| `User.DifferentLocalPartsExample` | src/domain/entities/user.ts:42-44 | the e-mails built from "a@b.com" and "c@b.com" are not equal |

## Left out

- src/server.ts is not part of this model. It holds the Express wiring, the `/health` route, the `PORT` environment variable and console logging, all I/O over a library that is not shown.
- The `Task` and `User` interfaces, `AuditableEntity`, and the `CreateTaskInput`, `UpdateTaskInput`, `TaskResponse`, `CreateUserInput` and `UpdateUserInput` types are not modelled. They are compile-time shapes with no runtime logic.
- The `TaskWithCompletion` conditional type is not modelled. Nothing checks it at run time, so the model adds no "completedAt only when completed" invariant and no status transitions.
- `Date` fields and timestamps are not modelled. They are opaque values with no logic in this code.
- Text.Trim and Text.ToLower: lengths are counted in Unicode code points, not in the UTF-16 code units that JavaScript's `.length` counts. Titles with characters outside the Basic Multilingual Plane are therefore measured differently.
- Text.ToLower: lowers only `A`..`Z`. JavaScript's `toLowerCase` also lowers other Unicode letters, and a few of them change length.
- Task.IsValidTaskPriority: takes an integer, while the source takes any JavaScript `number`. A non-integer never passes the source's guard either. The reverse-mapping strings in `Object.values(TaskPriority)` ("LOW" and so on) are left out, because `includes` on a number never matches them.
- A `null` or `undefined` title is not modelled. It is outside the declared `string` parameter type; of the strings, only the empty one is falsy, and it is modelled.
- User.IsValidEmail: the `+` and `{2,}` counts of the pattern are taken over Unicode code points here and over UTF-16 code units in the source, whose pattern has no `u` flag. The source accepts "a@b." followed by the single character U+1F600, because its two surrogate halves satisfy `[^\s@]{2,}`; the model rejects it. `User.EmailPatternEquivalence` states agreement with the pattern read over code points.
- The regular-expression engine is not modelled. The pattern is stated directly as a predicate.
