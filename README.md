# Mergington High School activity registry — a Dafny model

The Mergington High School API keeps an in-memory map from activity names
to activities. Each activity has a description, a schedule, a capacity and
a roster of student emails. Students sign up for an activity or unregister
from one. Before signing a student up, the API checks the email with a
syntactic validator, `validate_email`.

This project models three things in Dafny:

- the validator, as an ordered chain of rejecting checks over `seq<char>`
  (`email.dfy`, module `EmailValidation`), on top of the few Python string
  builtins it uses (`text.dfy`, module `Text`);
- the nine seeded activities;
- the two operations that change the map (`registry.dfy`, module
  `Activities`).

Each operation is modelled twice, and the two are tied together:

- as a pure function from the old map to a `Result` (`Signup`,
  `Unregister`), which fixes the order of the checks and the new map;
- as a method of the `Registry` class, which performs the same checks and
  updates its `activities` field in place. Its contract ties the new state
  and the response to the pure function and keeps the class invariant
  `Valid()`: every roster is within capacity and has no duplicates.

The validator is also proved against an independent definition of an
address, `IsAddress`: a local part, an `@`, then two or more labels joined
by dots, the last label two or more letters. The proof runs in both
directions. The test suite's accepted and rejected strings are proved as
concrete lemmas.

The `$` in the two regular expressions is modelled both ways:

- `ValidateEmailAsWritten` reads `$` as CPython does, so it also matches
  just before a final newline;
- `ValidateEmail` reads it as the end of the string, as the patterns
  evidently intend.

The registry uses `ValidateEmail`. See "## Findings".

## Model

| member | source | states |
|---|---|---|
| Text.Count | src/app.py:88 | `s.count(c)` is at most the length, and it is zero exactly when `c` does not occur |
| Text.Split | src/app.py:91 | `s.split(sep)` has one more part than there are separators, and no part contains the separator |
| Text.SplitJoin | src/app.py:91 | joining the parts of a split with the separator gives back the string |
| Text.JoinSplit | src/app.py:119 | splitting a join of separator-free parts gives back the parts |
| EmailValidation.CheckEmail | src/app.py:82-129 | the chain of checks, with `$` read either way: an accepted string is non-empty, has exactly one `@`, and both sides of it are non-empty |
| EmailValidation.ValidateEmail | src/app.py:82-129 | the validator with `$` as the end of the string; whatever it accepts, the code as written accepts too |
| EmailValidation.ValidateEmailAsWritten | src/app.py:82-129 | the validator with `$` as CPython reads it; on a string without a newline it agrees exactly with `ValidateEmail` |
| EmailValidation.ValidateEmailSound | src/app.py:82-129 | an accepted string has one `@` and splits into two parts around it. The first part is a local part: non-empty, only `[A-Za-z0-9._%+-]`, no dot at either end, no `..`. The second is a domain: `[A-Za-z0-9.-]` only, with a dot, every label non-empty and not hyphen-edged, and a last label of two or more letters |
| EmailValidation.ValidateEmailComplete | src/app.py:82-129 | every local part followed by `@` and a dot-join of valid labels ending in an alphabetic top-level domain is accepted |
| EmailValidation.ValidateEmailCharacterized | src/app.py:82-129 | the validator accepts a string if and only if it is an address by the independent definition |
| EmailValidation.ValidEmailEndsInLetter | src/app.py:126 | an accepted address ends with a letter of its top-level domain |
| EmailValidation.AsWrittenAcceptsValid | src/app.py:103-126 | code as written accepts everything the corrected validator accepts |
| EmailValidation.AsWrittenAcceptsTrailingNewline | src/app.py:126 | code as written accepts every accepted address with a newline appended, and the corrected validator rejects it |
| EmailValidation.ValidateEmailNoTrailingNewline | src/app.py:126 | the corrected validator rejects every string that ends in a newline |
| EmailValidation.AsWrittenAcceptsNewlineBeforeAt | src/app.py:103 | code as written accepts every accepted address with a newline put just before the `@`, and the corrected validator rejects it |
| EmailValidation.ValidateEmailNoNewlineBeforeAt | src/app.py:103 | the corrected validator rejects every string whose local part ends in a newline |
| EmailValidation.RejectedAtLocalPart | src/app.py:97-104 | a local part with a dot at an edge, a `..`, or a character outside the class rejects the whole string |
| EmailValidation.RejectedAtDomain | src/app.py:107-111 | a well-formed local part followed by `@` and a domain without a dot is rejected |
| EmailValidation.RejectsMalformedExamples | tests/test_app.py:57-98 | both readings of `$` reject `""`, `invalidemail`, `invalid@`, `invalid@domain`, `invalid email@domain.com`, `user..name@domain.com`, `.user@domain.com` and `user.@domain.com` |
| EmailValidation.AtSchoolSpelling | tests/test_app.py:106 | an address built with the school's domain labels is the local part followed by `@mergington.edu` |
| EmailValidation.AcceptedAtSchool | tests/test_app.py:101-111 | every well-formed local part followed by `@mergington.edu` is accepted, with both readings of `$` |
| EmailValidation.AcceptsPlainName | tests/test_app.py:106 | the literal `newuser@mergington.edu` is accepted, with both readings of `$` |
| EmailValidation.AcceptsDottedName | tests/test_app.py:107 | the literal `user.name@mergington.edu` is accepted, with both readings of `$` |
| EmailValidation.AcceptsUnderscore | tests/test_app.py:108 | the literal `user_name@mergington.edu` is accepted, with both readings of `$` |
| EmailValidation.AcceptsDigits | tests/test_app.py:109 | the literal `user123@mergington.edu` is accepted, with both readings of `$` |
| EmailValidation.AcceptsSingleLetter | tests/test_app.py:110 | the literal `a@mergington.edu` is accepted, with both readings of `$` |
| EmailValidation.AcceptsPlusTag | tests/test_app.py:137 | the literal `user+tag@mergington.edu` is accepted, with both readings of `$` |
| EmailValidation.AsWrittenAcceptsNewlineExample | src/app.py:126 | code as written accepts the literal `"newuser@mergington.edu\n"`; the corrected validator rejects it |
| EmailValidation.AsWrittenAcceptsNewlineBeforeAtExample | src/app.py:103 | code as written accepts the literal `"newuser\n@mergington.edu"`; the corrected validator rejects it |
| Activities.Error.Detail | src/app.py:148-180 | the `detail` text of each refusal is non-empty |
| Activities.DetailsDistinct | src/app.py:148-180 | two errors have the same `detail` text exactly when they are the same error |
| Activities.Error.StatusCode | src/app.py:148-180 | every error is a 400 except a missing activity, which is the only 404 |
| Activities.IndexOf | src/app.py:181 | the position of the first occurrence of an email on a roster |
| Activities.RemoveFirst | src/app.py:181 | `list.remove` on a roster that holds the email shortens it by one; the absent case, where Python raises `ValueError`, cannot arise here because src/app.py:179-180 refuses first, and the model's value for it stands for nothing |
| Activities.RemoveFirstAt | src/app.py:181 | the entry removed is the first occurrence, and the order of the rest is kept |
| Activities.RemoveFirstMultiset | src/app.py:181 | exactly one copy of the email leaves the roster, and nothing else |
| Activities.RemoveFirstRemoves | src/app.py:179-181 | on a roster without duplicates the email is gone after removal, and the roster still has no duplicates |
| Activities.RemoveFirstAppend | src/app.py:164-181 | removing an email just appended to a roster that did not hold it gives back that roster |
| Activities.Signup | src/app.py:143-165 | the checks run in order: invalid email, then missing activity, then already enrolled, then full. Success happens exactly when all pass, and then the roster is the old one plus the email at the end, with nothing else changed |
| Activities.Unregister | src/app.py:170-182 | the checks run in order: missing or empty email, then missing activity, then not enrolled. Success happens exactly when all pass, and then one copy of the email leaves that roster, with nothing else changed |
| Activities.UnregisterRemovesFirst | src/app.py:181 | a successful unregister removes the email at its first position and keeps the order of the rest |
| Activities.SeedCatalog | src/app.py:24-79 | the application starts with exactly the nine activities, as keys of the map |
| Activities.Missing | src/app.py:173-174 | `not email` on the looked-up value: an email that is not missing is present and non-empty |
| Activities.SeedCatalogValid | src/app.py:24-79 | the seed holds exactly the nine activities, each within capacity and without duplicates |
| Activities.SeedActivityValid | src/app.py:24-79 | each seeded activity is within capacity and has no duplicates |
| Activities.SignupPreservesValid | src/app.py:157-164 | a successful signup keeps every roster within capacity and free of duplicates |
| Activities.UnregisterPreservesValid | src/app.py:179-181 | a successful unregister keeps every roster valid and leaves the email off that roster |
| Activities.FullMeansAtCapacity | src/app.py:161-162 | on a valid catalog, a new student with a valid email is refused as full exactly when the roster is at capacity |
| Activities.SignupThenUnregister | src/app.py:143-182 | signing a student up and then unregistering the same email restores the catalog exactly |
| Activities.SeedChessClub | src/app.py:25-30 | the Chess Club is seeded with the literal roster `michael@mergington.edu`, `daniel@mergington.edu`, and its capacity is 12 |
| Activities.SignupDuplicateRefused | tests/test_app.py:41-46 | signing the literal `michael@mergington.edu` up for the Chess Club is refused as already enrolled |
| Activities.UnregisterNotEnrolledRefused | tests/test_app.py:49-54 | unregistering the literal `notregistered@mergington.edu` from the Chess Club is refused as not enrolled |
| Activities.SignupChessClub | tests/test_app.py:22-29 | a valid address not already on the Chess Club roster is accepted and lands at the end of the roster |
| Activities.NewStudentRoundTrip | tests/test_app.py:14-38 | any school address whose well-formed local part starts with neither `m` nor `d` signs up for the Chess Club at the end of its roster, and unregistering it restores the seed catalog |
| Activities.SignupAndUnregisterNewStudent | tests/test_app.py:14-38 | `AtSchool("testuser")`, which `AtSchoolSpelling` shows is `testuser@mergington.edu`, signs up for the Chess Club and lands at the end of its roster, and unregistering restores the seed catalog |
| Activities.UnregisterMissingEmailRefused | src/app.py:173-175 | an absent or empty email is refused as email required, whatever the catalog and activity |
| Activities.Registry.constructor | src/app.py:24-79 | the registry starts as the seed catalog and satisfies the invariant |
| Activities.Registry.SignupForActivity | src/app.py:143-165 | keeps the invariant. On success the map becomes `Signup`'s result and the message is `Signed up <email> for <activity>`. On failure the map is unchanged and the error is `Signup`'s |
| Activities.Registry.UnregisterFromActivity | src/app.py:170-182 | keeps the invariant. On success the map becomes `Unregister`'s result and the message is `Unregistered <email> from <activity>`. On failure the map is unchanged and the error is `Unregister`'s |

## Left out

- The FastAPI wiring is left out as framework plumbing: the application object, the static-file mount, the root redirect, `get_activities` (which returns the map unchanged), `HTTPException`, and JSON encoding of responses. The status code and `detail` text are carried on `Error`.
- Reading the unregister request body (`await request.json()` and `data.get("email")`) is asynchronous I/O. The email it yields is the `Option<string>` parameter: `None` for a missing key, `Some("")` for an empty string. A JSON value that is not a string is not modelled.
- URL percent-encoding of `+` in the query string is done by the transport. The validator sees the decoded string.
- The `re` module is not modelled as a regex engine. The two patterns are written as character-class predicates, with both readings of `$`.
- The activity descriptions and schedules are carried as data. No operation reads them.
- Concurrent requests are not modelled. The source has no locking, and the model treats requests as sequential.
- Activities.Signup: uses the corrected validator (`$` as the end of the string), not the one as written. So for an address ending in a newline, such as `newuser@mergington.edu` followed by a newline, or for one with a newline just before the `@`, the source signs the student up and the model refuses with `InvalidEmail`.
- Activities.Registry.SignupForActivity: uses the corrected validator through `Signup`, with the same difference on addresses holding a newline at the end or before the `@`.

## Findings

| source | as written | input that shows it | evidently intended | confidence | as-written member | corrected member |
|---|---|---|---|---|---|---|
| src/app.py:126 | the domain pattern ends in `$`, which also matches just before a final newline | `newuser@mergington.edu` followed by a newline is accepted | a newline is not a letter of the top-level domain, so the address should be rejected | not executed | EmailValidation.AsWrittenAcceptsTrailingNewline | EmailValidation.ValidateEmailNoTrailingNewline |
| src/app.py:103 | the local-part pattern ends in `$`, which also matches before a newline that ends the local part | `newuser`, a newline, then `@mergington.edu` is accepted | a newline is not in `[a-zA-Z0-9._%+-]`, so the address should be rejected | not executed | EmailValidation.AsWrittenAcceptsNewlineBeforeAt | EmailValidation.ValidateEmailNoNewlineBeforeAt |
