# Mock identity store and signup-form rules

This project models, in Dafny, the two self-contained pieces of logic of a
small marketing site with an authenticated dashboard.

- **The mock identity store** (`src/lib/mockData.ts`): a user catalog held in
  memory and seeded with five users. `mockLogin` looks a user up by email and
  accepts any password of six or more characters; `mockSignup` rejects a
  duplicate email, a short password or a short name, in that order, and
  otherwise appends a user whose id is the decimal text of the new catalog
  length; `mockGetSession` looks the user named by the stored session marker
  up by id. The catalog is the class `MockData.MockUserStore`, whose field
  `users` the method `Signup` reassigns; the two lookups are functions that
  read it. The pure function `SignupResult` specifies what `Signup` returns.
  The catalog invariant is that emails are pairwise distinct and the entry at
  index `i` has id `String(i + 1)`. The seed has it and every signup keeps it.
- **The signup form** (`src/pages/SignupPage.tsx`): the password strength
  score (one point for each of four criteria: length of at least 8, both an
  ASCII lower- and upper-case letter, an ASCII digit, and a character that is
  neither), the label and colour the meter picks from the score, the ordered
  checks the submit handler makes before calling signup, and the check mark
  shown when the confirmation matches.

`NumberText` models JavaScript's `String(n)` for natural numbers and proves
that it is injective, by reading the text back. `Wrappers` holds the `Option`
and `Result` types. Thrown errors become `Err` values, and each error carries
its exact message.

The stored session marker is modelled as `StoredSession`. It is `Absent` when
local storage holds nothing under the key, or an empty string. It is
`Malformed` when `JSON.parse` throws, or when the parsed value is `null`, so
reading `userId` throws. Otherwise it is `Parsed(userId)`, where `None` stands
for a missing `userId` or one that is not a string; such a value never
strictly equals a string id. In every case except a string id the lookup
returns none.

One observation: the meter's "Too short" caption is not the form's length
rule. `MeterLabelIsNotTheLengthRule` shows that `"!"` is rated "Weak" but
rejected as too short, while `"abcdef"` is rated "Too short" but accepted.

## Model

| member | source | states |
|---|---|---|
| `NumberText.NatToString` | home/project/src/lib/mockData.ts:95 | `String(n)` is a non-empty string of decimal digits, a single digit exactly for n < 10, with no leading zero unless n = 0 |
| `NumberText.DecimalRoundTrip` | home/project/src/lib/mockData.ts:95 | reading the decimal text of n back as a number gives n |
| `NumberText.NatToStringInjective` | home/project/src/lib/mockData.ts:95 | two ids `String(m)` and `String(n)` are equal exactly when m = n, so sequential ids are unique |
| `MockData.Find` | home/project/src/lib/mockData.ts:60 | `Array.find` returns none exactly when no element matches; otherwise it returns an element that matches with no matching element before it |
| `MockData.SeedUsers` | home/project/src/lib/mockData.ts:12-53 | the catalog is seeded with exactly five users (their distinct emails and ids "1" to "5" are `SeedInvariant`) |
| `MockData.AuthError.Message` | home/project/src/lib/mockData.ts:62-90 | each store error carries its exact message: "Invalid email or password", "Password must be at least 6 characters", "User with this email already exists", "Name must be at least 2 characters" |
| `MockData.SeedInvariant` | home/project/src/lib/mockData.ts:12-53 | the five seed users have pairwise distinct emails and ids "1" to "5" in order |
| `MockData.MockUserStore.constructor` | home/project/src/lib/mockData.ts:12-53 | the catalog starts as the seed, and the catalog invariant holds |
| `MockData.MockUserStore.Login` | home/project/src/lib/mockData.ts:56-72 | an unknown email fails with "Invalid email or password" whatever the password; a known email with a password under 6 characters fails with "Password must be at least 6 characters"; any other password succeeds with the first entry that has that exact email |
| `MockData.LoginReturnsTheEntry` | home/project/src/lib/mockData.ts:60-71 | under the catalog invariant, logging in with entry i's email and any password of 6 or more characters returns entry i |
| `MockData.SeedAdminLogin` | home/project/src/lib/mockData.ts:56-72 | on the seed catalog, "admin@testapp.com" logs in with any password of 6 or more characters and gets the seeded admin, whose role is admin |
| `MockData.SignupResult` | home/project/src/lib/mockData.ts:74-105 | a known email fails with the duplicate error before any other check; otherwise a password under 6 fails; then a name under 2 characters (the empty name included) fails; otherwise the result is a user with id `String(length + 1)`, the given email, name and timestamp, role user and no avatar |
| `MockData.SignupPreservesInvariant` | home/project/src/lib/mockData.ts:94-102 | a signup keeps the emails in the catalog distinct and the entry at index i with id `String(i + 1)` |
| `MockData.MockUserStore.Signup` | home/project/src/lib/mockData.ts:74-105 | returns `SignupResult` of the old catalog; on success the catalog is the old one with exactly the returned user appended, and on failure it is unchanged; the invariant is kept; the new user can then log in with the password of the signup |
| `MockData.LoginOfNewestEntry` | home/project/src/lib/mockData.ts:60-71 | a login with the last entry's email returns that entry when no earlier entry has that email, as after a signup |
| `MockData.SeedSignupAtBoundaries` | home/project/src/lib/mockData.ts:85-104 | on the seed catalog, a new email with a password of exactly 6 characters and a name of exactly 2 is accepted and gets id "6" |
| `MockData.MockUserStore.RecoverSession` | home/project/src/lib/mockData.ts:112-124 | no marker, an unparseable marker or one without a string `userId` gives none; otherwise the result is a catalog entry with exactly that id, and it is none only when no entry has that id; the lookup never fails |
| `MockData.RecoverSessionById` | home/project/src/lib/mockData.ts:119 | under the catalog invariant, a marker with `userId` equal to `String(k)`, for 1 ≤ k ≤ the catalog length, recovers entry k - 1 |
| `SignupForm.Test` | home/project/src/pages/SignupPage.tsx:20-22 | scanning a string with a one-class pattern finds a match exactly when some character of the string is in the class |
| `SignupForm.PasswordStrength` | home/project/src/pages/SignupPage.tsx:17-24 | the score is the number of the four criteria the password meets, so it is in 0..4; it is 0 exactly when none holds and 4 exactly when all hold; the length point needs at least 8 characters, and the case point needs both a lower- and an upper-case ASCII letter |
| `SignupForm.StrengthGrowsWithInput` | home/project/src/pages/SignupPage.tsx:17-24 | appending a character to the password never lowers its score |
| `SignupForm.StrengthLabel` | home/project/src/pages/SignupPage.tsx:143 | scores 1 to 4 get "Weak", "Fair", "Good" and "Strong"; any other score gets "Too short" |
| `SignupForm.StrengthColor` | home/project/src/pages/SignupPage.tsx:147 | scores 1 to 4 get the four bar colours in order; any other score gets `bg-border` |
| `SignupForm.StrengthMeter` | home/project/src/pages/SignupPage.tsx:139-151 | the meter is shown exactly when the password is non-empty |
| `SignupForm.MeterForPassword` | home/project/src/pages/SignupPage.tsx:139-151 | for a non-empty password the meter shows "Too short" and `bg-border` exactly when no criterion holds, and "Strong" exactly when all four hold |
| `SignupForm.MeterLabelIsNotTheLengthRule` | home/project/src/pages/SignupPage.tsx:143 | "!" is rated "Weak" but fails the length check; "abcdef" is rated "Too short" but passes it |
| `SignupForm.ValidateSubmit` | home/project/src/pages/SignupPage.tsx:34-47 | a mismatch is reported as "Passwords do not match" even when the password is also short; otherwise a password under 6 characters is reported as too short; signup is called exactly when the two match and the password has at least 6 characters |
| `SignupForm.SubmitOutcome.Message` | home/project/src/pages/SignupPage.tsx:34-42 | the form reports "Passwords do not match" for a mismatch and "Password must be at least 6 characters" for a short password |
| `SignupForm.ShowsMatchIndicator` | home/project/src/pages/SignupPage.tsx:170 | the check mark is shown exactly when the confirmation is non-empty and the submit check would not report a mismatch, so an empty confirmation never shows it |

## Left out

- String lengths count Dafny characters, which are Unicode scalar values. JavaScript's `length` counts UTF-16 code units, so a character outside the Basic Multilingual Plane counts twice there. The character-class tests agree either way.
- The one- and half-second `setTimeout` delays of the mock store are left out. After the delay, each operation's checks and its append run without interruption, so a sequential model keeps their order.
- `JSON.parse` and the `try`/`catch` around it are abstracted into `StoredSession`. `new Date().toISOString()` becomes the `createdAt` parameter.
- MockData.MockUserStore.RecoverSession: `localStorage.getItem` (mockData.ts:114) sits outside the `try` and could throw, rejecting `mockGetSession`; the model starts from the value already read, so its "never fails" covers only the parsing and the lookup.
- The `USE_MOCK_DATA` flag (mockData.ts:1) is configuration. The store's functions are not imported by the session context, which talks to the hosted backend only, so they are modelled as standalone operations.
- `mockLogout` (mockData.ts:107-110) only waits; it changes no state, so it has no model.
- JavaScript arrays have at most 2^32 - 1 elements, and `String(n)` switches to exponent notation from 10^21 on. The model's catalog and numbers are unbounded.
- The strength bar's width `(strength / 4) * 100` (SignupPage.tsx:148) is a floating-point display value and is not modelled.
- The form's React state setters, the loading flag, navigation after signup and the message of an error thrown by `signup` are UI and are not modelled.
- The session context (`src/contexts/AuthContext.tsx`), the backend client (`src/lib/supabase.ts`), the route table and the presentational pages are not part of this model. They wrap a third-party SDK or only render markup.
