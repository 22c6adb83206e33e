# report-app, modelled in Dafny

report-app is a small Next.js application. It files intellectual-property
reports (copyright, trademark, counterfeit, retraction) with Facebook's
`ip_reporting` endpoint and keeps its own bookkeeping in four JSON
documents: reports, users, trademarks and copyrights. Its API route
handlers each read one document, change its array in memory and write it
back. The model covers:

- those in-memory changes;
- the login and profile-update flows over the users document;
- the few pure helpers of the home page and the copyright editor.

Each document is a `seq<Obj>` field of a class, and each handler is a
method on that class. JSON values are a datatype, and objects are
`map<string, Json>`. `undefined` is `None`: writing an undefined property
removes the key, as `JSON.stringify` does. Anything the handlers get from
outside becomes a parameter:

- the Facebook call's outcome and the access token;
- bcrypt's `hash` and `compare`;
- `jwt.sign` and `jwt.verify`;
- the clock.

The modules, in dependency order:

- `Options`: the `Option` datatype.
- `JsText`: the JavaScript string and number operations the code relies on, namely `trim`, `split` and `join`, `replace` with a string pattern, ASCII `toUpperCase`, `parseInt`, `Number(...)` and `String(n)`.
- `JsonValues`, `Records`: JSON values; property access, spread, truthiness, `===` and `Number(...)` on them; `findIndex`, `splice`, the merge of an update body, and error responses.
- `JsonText`: `JSON.stringify` of an array of strings and a reader for that text.
- `Reports`: the report-type registry, the type check, the Facebook payload, the stored record, and the index delete.
- `Users`: the user table's create, update and delete, and its email-uniqueness invariant.
- `AuthLogin`, `AuthUpdate`: login, and the token-gated update of one's own profile.
- `Trademarks`, `Copyrights`: id generation, merge update, first-match delete.
- `ReportPage`: the home page's registry copy, default-data filter, column split, field labels and submit body.
- `CopyrightForm`: the copyright editor's URL parsing and joining, and the request a submit sends.

## Model

| member | source | states |
|---|---|---|
| JsText.ToUpper | src/app/api/reports/route.ts:108 | upper-casing keeps the length and maps each character through the ASCII upper-case map |
| JsText.Trim | src/components/copyrights/CopyrightManager.tsx:58 | the result is a slice of the input with only white space before and after it, and has no white space at either end itself; an already trimmed string is kept |
| JsText.TrimOfPadded | src/components/copyrights/CopyrightManager.tsx:58 | a trimmed string with white space added on both sides trims back to itself, so the slice `Trim` keeps is the only one that fits its contract |
| JsText.TrimAddsNothing | src/components/copyrights/CopyrightManager.tsx:58 | trimming never introduces a character that was not in the string |
| JsText.TrimSkipsLeadingSpace | src/components/copyrights/CopyrightManager.tsx:58 | a leading space does not change the trimmed result |
| JsText.Split | src/components/copyrights/CopyrightManager.tsx:57 | a split has one more part than there are separators, and no part holds the separator |
| JsText.JoinSplit | src/app/page.tsx:175 | joining the parts of a split with the separator gives back the original string |
| JsText.SplitWithoutSeparator | src/components/copyrights/CopyrightManager.tsx:57 | a string without the separator splits into itself alone |
| JsText.SplitAfterPrefix | src/components/copyrights/CopyrightManager.tsx:57 | a separator after a separator-free prefix ends the first part, and the rest splits on its own |
| JsText.SplitJoin | src/components/copyrights/CopyrightManager.tsx:57 | splitting the join of one or more separator-free parts gives back the parts |
| JsText.IndexOf | src/app/page.tsx:369 | the result is the first position where the pattern occurs, and None exactly when it occurs nowhere |
| JsText.ReplaceLeading | src/app/api/auth/update/route.ts:13 | replacing a pattern in a string that starts with it removes that leading occurrence |
| JsText.ReplaceFirstChar | src/app/page.tsx:369 | a one-character replace keeps the length and every other character, and changes an occurrence exactly when no earlier one exists |
| JsText.Decimal | src/app/api/trademarks/route.ts:31-33 | `String(n)` of a non-negative integer is a non-empty run of decimal digits |
| JsText.DecimalValue | src/app/api/trademarks/route.ts:31-33 | the digits of `String(n)` have the value `n` |
| JsText.DigitPrefix | src/app/api/reports/route.ts:187 | the digit run `parseInt` reads is the longest prefix made of digits |
| JsText.ParseIntDecimalPrefix | src/app/api/reports/route.ts:187 | `parseInt` of the digits of `n`, followed by text that does not continue the number, is `n` |
| JsText.ParseInt | src/app/api/reports/route.ts:187-188 | `parseInt` of a string with no digit at all is NaN |
| JsText.StringToNumber | src/app/api/users/route.ts:85 | `Number(s)` of a string of white space only (the empty string included) is 0, and of a non-empty run of decimal digits is their value |
| JsText.Join | src/components/copyrights/CopyrightManager.tsx:105 | joining no parts gives the empty string, and a join begins with its first part |
| JsText.ReplaceFirst | src/app/api/auth/update/route.ts:13 | a string without the pattern is kept; otherwise the first occurrence of the pattern is replaced and everything before and after it is kept |
| JsonValues.ToNumber | src/app/api/trademarks/route.ts:32 | `Number(undefined)` is NaN, and `Number(v)` of a number, string, array or object is `Number` of its string form |
| JsonValues.JsString | src/app/api/reports/route.ts:93 | the string form of a number reads back as that number, a string is itself, and a one-string array is that string |
| JsonValues.StrictEqualsByValue | src/app/api/trademarks/route.ts:62 | `===` holds only between equal values; it holds between equal undefined, `null`, booleans, numbers and strings, and never for an array or object |
| JsonValues.Truthy | src/components/copyrights/CopyrightManager.tsx:50-53 | a value is truthy exactly when it is not undefined, `null`, `false`, 0 or "" |
| JsonValues.IntString | src/app/api/trademarks/route.ts:31-33 | `String(n)` of any integer reads back through `Number` as `n` |
| JsText.NumberOfDecimal | src/app/api/users/route.ts:85 | `Number(String(n))` is `n` |
| JsonValues.Put | src/app/api/users/route.ts:104-110 | writing a property sets exactly that property (an undefined value removes it) and leaves every other property as it was |
| Records.FindByField | src/app/api/trademarks/route.ts:62 | `findIndex` gives the first record whose property is strictly equal to the value, and None exactly when no record has such a value |
| Records.FindAppended | src/app/api/trademarks/route.ts:41 | a record appended after records that do not match is the one the lookup finds |
| Records.RemoveAt | src/app/api/trademarks/route.ts:102 | `splice(i, 1)` drops exactly element `i`: one fewer element, the others in order, and the multiset loses only that element |
| Records.MergeUpdate | src/app/api/trademarks/route.ts:57-73 | each body property other than `id` overrides the record's, and the record keeps its own `id` and every property the body lacks |
| Reports.Keys | src/app/api/reports/route.ts:9-61 | the key list has one entry per registry entry, in declaration order |
| Reports.FieldsFor | src/app/api/reports/route.ts:9-61 | a name has a field list exactly when it is a registry key, and that list is the one declared for the name |
| Reports.RegisteredTypesAccepted | src/app/api/reports/route.ts:93 | every registry key passes the type check |
| Reports.TypeAccepted | src/app/api/reports/route.ts:93 | the type check accepts a value if and only if it is a string or an array whose string form (the key `REPORT_TYPES[type]` looks up) is a registry key or a name inherited from `Object.prototype`; undefined, `null`, booleans, numbers and objects are always rejected |
| Reports.StringTypeAccepted | src/app/api/reports/route.ts:93-98 | a string passes the type check exactly when it is a registry key or a name inherited from `Object.prototype` |
| Reports.ArrayTypesAccepted | src/app/api/reports/route.ts:93 | `["Copyright"]`, `[["Trademark"]]` and `["constructor"]` pass the type check, and `[]` does not |
| Reports.InheritedNameAccepted | src/app/api/reports/route.ts:93 | "constructor" is not a registry key, yet the type check accepts it |
| Reports.FacebookPayload | src/app/api/reports/route.ts:71-74 | the body sent to Facebook is the draft with `type` upper-cased and `access_token` added, and every other property unchanged |
| Reports.StoredReport | src/app/api/reports/route.ts:101-128 | the stored record is the draft plus `status`, `error_message` and `created_at`, and `fb_response` holds only on success; it is "success" with an empty message, or "failed" with the error message |
| Reports.DeleteIndex | src/app/api/reports/route.ts:187-188 | the id names an index exactly when `parseInt` gives a number in `0 <= index < length`, and then it names that number |
| Reports.DeleteIndexReadsLeadingDigits | src/app/api/reports/route.ts:187 | "1abc" names index 1 |
| Reports.ReportStore.List | src/app/api/reports/route.ts:152-159 | GET answers the stored list as it is |
| Reports.ReportStore.Submit | src/app/api/reports/route.ts:87-142 | a rejected type gives 400, calls nothing and stores nothing; an accepted type that is not a string sends nothing, appends the record failed with "type.toUpperCase is not a function" and answers 500; otherwise the payload is sent, exactly one record is appended whatever the outcome, and the answer is the record on success or 500 with the details on failure |
| Reports.ReportStore.Delete | src/app/api/reports/route.ts:169-204 | a missing or empty id gives 400 "Report ID is required"; an id that names no index gives 400 "Invalid report index"; both leave the list unchanged; otherwise exactly that report is removed |
| Users.FindUser | src/app/api/users/route.ts:84-86 | the user found is the first whose id is strictly equal to `Number(segment)`; NaN finds no user |
| Users.WithoutPassword | src/app/api/users/route.ts:61-62 | the response record has no `password` and every other property of the user |
| Users.NewUser | src/app/api/users/route.ts:47-55 | the new user has the given id, email, name and role, the hashed password, `created_at` and `updated_at` from two separate clock readings, and no other property |
| Users.EditedUser | src/app/api/users/route.ts:104-115 | the update overwrites `email`, `name`, `role` and `updated_at` from the body; it rehashes `password` only for a truthy password and keeps every other property |
| Users.CreateKeepsEmailsUnique | src/app/api/users/route.ts:38-57 | appending a user whose email no one has keeps emails unique |
| Users.UpdateKeepsEmailsUnique | src/app/api/users/route.ts:92-117 | an update that passes the email check keeps emails unique, when no other user has the target id |
| Users.UpdateCanDuplicateEmailAfterIdCollision | src/app/api/users/route.ts:92-117 | two users with one id let an update that passes the email check give two users one email |
| Users.CreateAfterDeleteRepeatsId | src/app/api/users/route.ts:47-57 | after a delete of any user but the last, the next create assigns an id the last user still holds |
| Users.UserStore.List | src/app/api/users/route.ts:13-19 | GET answers the stored list |
| Users.UserStore.Create | src/app/api/users/route.ts:29-62 | a taken email gives 400; a password bcrypt cannot hash gives 500; both change nothing; otherwise one user with id `length + 1` and the two clock readings is appended and returned without its password; email uniqueness is preserved |
| Users.UserStore.Update | src/app/api/users/route.ts:72-125 | an unknown id gives 404; an email held by a user with another id gives 400; an unhashable password gives 500; none of these change the list; otherwise only the slot found is replaced by the edited user, and the response omits the password |
| Users.UserStore.Delete | src/app/api/users/route.ts:135-158 | an unknown id gives 404 with no change; otherwise exactly the first matching user is removed |
| AuthLogin.Claims | src/app/api/auth/login/route.ts:42-50 | the token claims are exactly the user's id (as `userId`), email and role |
| AuthLogin.PublicProfile | src/app/api/auth/login/route.ts:55-60 | the profile sent back holds exactly the user's id, email, name and role |
| AuthLogin.Login | src/app/api/auth/login/route.ts:10-61 | a login answers 200, 401 "Invalid email or password", or 500; an email no user has gives 401 for every store; a comparison that fails gives 401; the answer is 500 exactly when a user has the email and the comparison throws |
| AuthLogin.LoginSucceedsExactly | src/app/api/auth/login/route.ts:20-39 | a login succeeds if and only if the first user with the email has a password the comparison accepts |
| AuthLogin.UnknownEmailLooksLikeWrongPassword | src/app/api/auth/login/route.ts:21-39 | an unknown email and a wrong password give the same 401 response |
| AuthLogin.LoginResponseShape | src/app/api/auth/login/route.ts:42-61 | a successful response holds just the token signed over the user's claims and the password-free profile |
| AuthUpdate.BearerToken | src/app/api/auth/update/route.ts:13 | the token is missing exactly when the header is; a header starting with "Bearer " gives what follows it; a header with "Bearer " further in loses only that first occurrence; and a header without "Bearer " is taken as it is |
| AuthUpdate.VerifyToken | src/app/api/auth/update/route.ts:11-24 | a missing header or empty token is "No token provided"; a token that fails verification is "Invalid token"; otherwise the result is the `userId` claim |
| AuthUpdate.Or | src/app/api/auth/update/route.ts:70-71 | the fallback of a property is the given value when it is truthy and the stored one otherwise |
| AuthUpdate.ProfileUpdate | src/app/api/auth/update/route.ts:68-76 | a falsy name or email keeps the stored one; a truthy new password is hashed in, otherwise the stored password is kept; `updated_at` is set; every other property is kept |
| AuthUpdate.PasswordCheck | src/app/api/auth/update/route.ts:54-65 | the current password is compared only when a new one is given |
| AuthUpdate.Update | src/app/api/auth/update/route.ts:26-86 | a rejected token gives 401 with its message; an unknown user gives 404; a failed check gives 401 "Current password is incorrect"; a throwing comparison or hash gives 500; all of these leave the store unchanged; otherwise exactly the caller's slot is replaced and the response omits the password |
| AuthUpdate.UpdateCanDuplicateEmail | src/app/api/auth/update/route.ts:67-78 | this update makes no email check, so a user can take another user's email |
| AuthUpdate.BearerHeaderAuthorizes | src/app/api/auth/update/route.ts:13-19 | a header `Bearer <token>` whose token verifies is authorized with the token's `userId` claim |
| AuthUpdate.LoginTokenAuthorizes | src/app/api/auth/update/route.ts:11-49 | for any verifier whose decoded payload keeps the signed `userId` (jwt adds `iat` and `exp`), a token that login handed out, sent back as a bearer header, is authorized for the user who logged in, and the update finds that user or an earlier one with the same id |
| Trademarks.MaxId | src/app/api/trademarks/route.ts:31-33 | the maximum is NaN exactly when some id's `Number(...)` is NaN (arrays count through their string); otherwise it is at least 0 and every id, and it is 0 or one of the ids |
| JsonValues.ArrayToNumber | src/app/api/trademarks/route.ts:32 | `Number([])` is 0, `Number([s])` is `Number(s)`, and `Number(["7"])` is 7 |
| JsonValues.ObjectToNumber | src/app/api/trademarks/route.ts:32 | `Number` of a plain object is NaN |
| Trademarks.EmptyArrayIdCounts | src/app/api/trademarks/route.ts:31-33 | after a record whose id is `[]` the next id is "1" |
| Trademarks.StringArrayIdCounts | src/app/api/trademarks/route.ts:31-33 | after a record whose id is `["7"]` the next id is "8" |
| Trademarks.NewTrademarkId | src/app/api/trademarks/route.ts:31-33 | the generated id is "NaN" when the maximum is NaN, and otherwise reads back as the maximum plus one |
| Trademarks.NewTrademark | src/app/api/trademarks/route.ts:35-39 | the new record's `id` is the body's when it has one, otherwise the generated id; `created_at` is set; every other property is the body's |
| Trademarks.NewIdFresh | src/app/api/trademarks/route.ts:31-33 | when every id is numeric, no record holds the generated id |
| Trademarks.CreatedTrademarkFound | src/app/api/trademarks/route.ts:31-62 | a record created without an `id` in its body is the one a later lookup by its id finds |
| Trademarks.NaNIdRepeats | src/app/api/trademarks/route.ts:31-33 | one non-numeric id makes every later generated id "NaN", before and after a create |
| Trademarks.TrademarkStore.List | src/app/api/trademarks/route.ts:9-12 | GET answers the stored list as it is |
| Trademarks.TrademarkStore.Create | src/app/api/trademarks/route.ts:23-44 | exactly the new record is appended and returned |
| Trademarks.TrademarkStore.Update | src/app/api/trademarks/route.ts:55-76 | an id found nowhere gives 404 with no change; otherwise only the first match is merged with the body; the length and every id stay the same |
| Trademarks.TrademarkStore.Delete | src/app/api/trademarks/route.ts:87-105 | an id found nowhere gives 404 with no change; otherwise exactly the first match is removed |
| Copyrights.NewCopyright | src/app/api/copyrights/route.ts:28-32 | the server's `id` (the clock in decimal) and `created_at` win over the body's; every other property is the body's |
| Copyrights.NewIdFresh | src/app/api/copyrights/route.ts:30 | a clock reading above every numeric id gives an id that no record holds |
| Copyrights.SameMillisecondRepeatsId | src/app/api/copyrights/route.ts:30 | two creates in one millisecond get strictly equal ids |
| Copyrights.CopyrightStore.List | src/app/api/copyrights/route.ts:8-11 | GET answers the stored list as it is |
| Copyrights.CopyrightStore.Create | src/app/api/copyrights/route.ts:21-36 | exactly the new record is appended and returned |
| Copyrights.CopyrightStore.Update | src/app/api/copyrights/route.ts:46-67 | an id found nowhere gives 404 "Copyright not found" with no change; otherwise only the first match is merged; the length and every id stay the same |
| Copyrights.CopyrightStore.Delete | src/app/api/copyrights/route.ts:77-94 | an id found nowhere gives 404 with no change; otherwise exactly the first match is removed |
| JsonText.HexDigit | src/app/page.tsx:175 | the hexadecimal digit written for `d` reads back as `d` |
| JsonText.EscapeChar | src/app/page.tsx:175 | every character is written as at least one character, and never as a bare quote |
| JsonText.ReadEscapedChar | src/app/page.tsx:175 | each written character reads back as itself and uses up exactly what was written for it |
| JsonText.ReadEscaped | src/app/page.tsx:175 | reading a written string body and its closing quote gives back the string and what follows |
| JsonText.ReadItemBeforeComma | src/app/page.tsx:175 | an item written before a comma is read back, and reading goes on after the comma |
| JsonText.ReadWrittenItems | src/app/page.tsx:175 | reading the written items of a non-empty list gives back the list |
| JsonText.ParseStringified | src/app/page.tsx:175 | parsing `JSON.stringify` of an array of strings gives back the array |
| ReportPage.ClientRegistryMatchesServer | src/app/page.tsx:36-88 | the page's registry equals the server's, so every type the select offers passes the server's check |
| ReportPage.FilterDefaults | src/app/page.tsx:333-337 | the filtered defaults are exactly the entries whose key is one of the fields, with values unchanged |
| ReportPage.FilterDefaultsIdempotent | src/app/page.tsx:333-337 | filtering twice is filtering once |
| ReportPage.TypeSelected | src/app/page.tsx:326-340 | choosing the empty value sets nothing; any other choice sets exactly the defaults for the type's fields, plus `type` |
| ReportPage.CeilHalf | src/app/page.tsx:358-362 | half of `n` rounded up: twice it is `n` or `n + 1` |
| ReportPage.LeftColumn | src/app/page.tsx:355-363 | the left column is the first `ceil(n / 2)` fields |
| ReportPage.RightColumn | src/app/page.tsx:492-499 | the right column is what follows the left column in the field list |
| ReportPage.ColumnsSplitFields | src/app/page.tsx:355-499 | the left column (the first half, rounded up) followed by the right column (the rest) is the field list; the left one has as many fields as the right or one more |
| ReportPage.FieldLabel | src/app/page.tsx:368-369 | the label has the field's length and begins with the field's first character upper-cased |
| ReportPage.FieldLabelShape | src/app/page.tsx:368-369 | the label keeps the field's length, upper-cases the first character, and turns only the first `_` after it into a space |
| ReportPage.FieldLabelTail | src/app/page.tsx:368-369 | past the first character the label holds the field's character, except an `_` that became a space, which it does exactly when no `_` comes before it |
| ReportPage.SubmitBody | src/app/page.tsx:173-177 | the body is sent only when `original_urls` is a string; it then holds the JSON text of the comma split of `original_urls`, the selected `type`, and every other value unchanged |
| ReportPage.SubmittedUrlsRoundTrip | src/app/page.tsx:173-177 | the posted `original_urls` text parses back to the comma split, whose join is the typed text |
| ReportPage.SubmittedTypeAccepted | src/app/page.tsx:176 | a type picked from the select passes the server's type check |
| ReportPage.OriginalUrlsOnlyInCopyright | src/app/page.tsx:36-88 | only Copyright has an `original_urls` field |
| ReportPage.OnlyCopyrightFormsSubmit | src/app/page.tsx:173-177 | a form holding only another type's fields has no `original_urls`, so its submit throws before anything is posted |
| CopyrightForm.TrimAll | src/components/copyrights/CopyrightManager.tsx:58 | each part is trimmed, and there are as many parts as before |
| CopyrightForm.NonEmpty | src/components/copyrights/CopyrightManager.tsx:59 | the filter keeps no empty string, and keeps each non-empty string as often as it occurs |
| CopyrightForm.NonEmptyAppend | src/components/copyrights/CopyrightManager.tsx:59 | the filter of two lists one after the other is the filter of the first followed by that of the second, so the order is kept |
| CopyrightForm.ParseUrls | src/components/copyrights/CopyrightManager.tsx:56-59 | every parsed URL is non-empty, trimmed and comma-free, and there are at most one more URLs than commas |
| CopyrightForm.TrimAllAfterSpace | src/components/copyrights/CopyrightManager.tsx:57-58 | a leading space on the text does not change the trimmed parts |
| CopyrightForm.TrimmedPartsStep | src/components/copyrights/CopyrightManager.tsx:56-59 | a trimmed comma-free URL, then a comma and a space, then text: the trimmed parts are that URL followed by the text's trimmed parts |
| CopyrightForm.TrimmedPartsOfJoin | src/components/copyrights/CopyrightManager.tsx:56-59 | the trimmed parts of the joined text of one or more well-formed URLs are those URLs |
| CopyrightForm.NonEmptyKeeps | src/components/copyrights/CopyrightManager.tsx:59 | the filter changes nothing in a list without empty strings |
| CopyrightForm.ParseJoinedUrls | src/components/copyrights/CopyrightManager.tsx:56-59 | parsing the text the edit view shows for well-formed URLs (their join with ", ") gives back the URLs |
| CopyrightForm.ParseJoinParse | src/components/copyrights/CopyrightManager.tsx:56-59 | parse, join and parse again gives the first parse |
| CopyrightForm.StringsOfStrings | src/components/copyrights/CopyrightManager.tsx:105 | reading back an array of strings gives the strings |
| CopyrightForm.SubmitData | src/components/copyrights/CopyrightManager.tsx:51-53 | the current id is added when it is truthy, and every other value is kept |
| CopyrightForm.UrlArray | src/components/copyrights/CopyrightManager.tsx:56-59 | the URL array sent is the array of the parsed URLs |
| CopyrightForm.SubmitRequest | src/components/copyrights/CopyrightManager.tsx:47-65 | a request is sent exactly when `original_urls` is a string; it is a PUT exactly when the current id is truthy, otherwise a POST; its body is the submit data with the URL array |
| CopyrightForm.SubmitBodyContents | src/components/copyrights/CopyrightManager.tsx:50-59 | the body holds the truthy current id, the parsed URLs, and every other value as typed |
| CopyrightForm.SubmitBodyIsData | src/components/copyrights/CopyrightManager.tsx:51-59 | the body holds the URL array under `original_urls` and the submit data everywhere else |
| CopyrightForm.JoinUrls | src/components/copyrights/CopyrightManager.tsx:105 | the shown text is empty exactly when there is no URL or only an empty one, and it begins with the first URL |
| CopyrightForm.EditFormValues | src/components/copyrights/CopyrightManager.tsx:102-106 | the edit form shows the URL array joined with ", " and every other property unchanged; None when the URLs are not an array of strings |
| CopyrightForm.FinishValues | src/components/copyrights/CopyrightManager.tsx:196-218 | the form submits exactly when `title` and `original_urls` each pass the bare `required` rule (present and not `null`, "" or `[]`, whatever the type), and then hands over exactly those two values |
| CopyrightForm.NumericTitlePasses | src/components/copyrights/CopyrightManager.tsx:102-108 | a record loaded for editing with a numeric title still passes validation, and its title is handed on as that number |
| CopyrightForm.SubmitTitleAndUrls | src/components/copyrights/CopyrightManager.tsx:47-65 | a submit of a title and URL text under a truthy current id is a PUT of just the title, the URL array and the id |
| CopyrightForm.MergeOfOwnValues | src/app/api/copyrights/route.ts:61-64 | merging a body whose properties the record already holds, with the same values, leaves the record as it was |
| CopyrightForm.EditThenSubmitKeepsRecord | src/components/copyrights/CopyrightManager.tsx:47-218 | editing a record with a title and well-formed URLs, then submitting the form unchanged, passes validation exactly when there is a URL; it then sends a PUT with just the title, the same URL array and the id, and the server's merge of that body into the record leaves the record as it was; when no other record of the store has its id, the server finds that record and the store is left as it was |
| CopyrightForm.EditOfLaterDuplicateOverwritesEarlier | src/app/api/copyrights/route.ts:48-64 | when an earlier record has the same id, as two creates in one millisecond give, submitting the later record unchanged makes the server find the earlier one and write the later one's title into it |

## Left out

- Reading and writing the JSON documents is left out, and so is the generic 500 "Internal server error" answer to I/O and parse failures. Each document is a sequence that a request reads and replaces whole.
- GET /api/users wraps the list as `{ users }`. `Users.UserStore.List` returns the list itself.
- Concurrency is left out: requests are modelled one at a time, so lost updates between concurrent read-modify-write requests are not captured.
- The Facebook call is the `send` parameter. Its `Outcome` is either the parsed body of an ok response or the message it throws. The URL, the headers and the hard-coded access token's value (src/app/api/reports/route.ts:6-7) are left out; the token is the `accessToken` parameter.
- bcrypt and jwt are parameters: `hash`, `compare`, `sign` and `verify`. `hash` is a deterministic function, whereas real bcrypt salts each hash at random. The 24-hour expiry and the secret are part of `verify`.
- Every clock reading is its own parameter: `new Date().toISOString()` is `now` (and, in `POST /api/users`, which reads the clock twice, `createdAt` and `updatedAt`), and `Date.now()` is `nowMs`. Nothing relates two readings to each other.
- JSON numbers are unbounded integers. Fractions, exponents and `Infinity` are out of the model; `Number(...)` gives NaN for them and for `0b`/`0o` prefixes. The source's numbers are doubles: integers from 2^53 on round, and `String(n)` switches to exponent form from 1e21 on. Neither is modelled.
- Trademarks.NewIdFresh: holds only for unbounded integers. In the source, a body may store the id "9007199254740992" (2^53), after which `max + 1` rounds back to 2^53 and the next POST repeats that id.
- Trademarks.CreatedTrademarkFound: rests on NewIdFresh, so it has the same gap from 2^53 on.
- Trademarks.MaxId: `Math.max` over doubles is modelled as the maximum of unbounded integers.
- `String(v)` of an object with an own `toString` or `valueOf` property would call that value and throw, since JSON values are not functions. The model writes every object as "[object Object]".
- `String(n)` of an integer is `JsText.Decimal` for non-negative integers and `JsonValues.IntString` for all of them. Fractions are out of the model, as above.
- `trim` and `parseInt` skip a fixed set of white space characters, not all of Unicode's.
- `toUpperCase` is modelled on ASCII letters only.
- `JSON.stringify` is modelled only for arrays of strings (the page's `original_urls`). Strings holding lone surrogates cannot be represented in the model, because a Dafny `char` is never a surrogate; the reader rejects `\u` escapes of surrogates.
- Object key order is not modelled: objects are maps.
- The trademark and user `id` of a PUT come from the request body and the last path segment. The `src/app/api/users/[id]` routes are not part of this model.
- A bcrypt hash or compare that throws gives 500. `hash` is modelled as throwing exactly for a non-string argument. `compare` is an oracle that may throw (None) on any arguments, and `AuthLogin.Login` and `AuthUpdate.Update` then answer 500.
- Console logging is left out, since it changes no response and no stored data. That includes src/app/api/auth/login/route.ts:29-32, which logs the plaintext password and the comparison result.
- The React rendering, routing, `localStorage`, `fetch` and the client-side token handling are left out.
- The Retractions option of the report form in src/components/reports/ReportForm.tsx is presentation only and is not part of this model.
- The copyright editor's `handleSubmit` writes `original_urls` into the submit object in place; when there is no current id, that object is the form's own values. The model builds a new record instead, so that aliasing is not captured.
- The copyright editor's validation is modelled as its two bare `required` rules: a value fails only when it is missing, `null`, "" or `[]`. antd's other checks are not modelled.
- CopyrightForm.EditFormValues: when `original_urls` is not an array of strings it gives None. `join` would have stringified the items instead, and the editor would have shown that text.
- ReportPage.TypeSelected requires the chosen value to be empty or a registry key, because the select offers nothing else.
- Users.UserStore.Update and Users.UserStore.Delete take the last path segment as given; how the router produces it is not modelled.
