# GetHeaders: REST URL resolution for the Message Header Analyzer add-in

The Message Header Analyzer add-in fetches a message's transport headers
(PR_TRANSPORT_MESSAGE_HEADERS) from the Outlook REST API. `Scripts/GetHeaders.js`
mostly glues host calls together, but three pieces of it are self-contained logic,
and those are what this project models and proves:

- **`getItemRestId`**: which id the item is addressed by. Outlook for iOS
  (`hostName == "OutlookIOS"`) already hands out REST ids. Every other host's id is
  passed to the host's `convertToRestId` with REST version v2.0. The converter is a
  function parameter here.
- **`getRestUrl`**: the REST service base URL. A non-empty `mailbox.restUrl` wins.
  Otherwise the token's `aud` claim decides:
  - an `aud` matching `/https:\/\/([^@]*)/` is used verbatim;
  - otherwise, when `/\/([^@]*)@/` matches with a non-empty group, the result is
    `https://` followed by that group;
  - otherwise the result is `https://outlook.office.com`.
- **The request URL built in `getHeaders`**: base URL, then
  `/api/v2.0/me/messages/`, then the REST id, then the fixed OData query that
  expands the extended property `String 0x007D`.

Files:

- `wrappers.dfy`: `Option`, which stands for JavaScript's `null`.
- `strings.dfy`: two explicit searches, with no regex engine. `Contains` is
  unanchored substring search. `FirstIndex` finds the first index of a character
  at or after a position.
- `js_regex.dfy`: reference semantics for regexes of the shape
  `prefix([^@]*)suffix` under `String.prototype.match` without the `g` flag. The
  reported match starts at the smallest index. At that index the greedy `*` takes
  the longest capture that the rest of the pattern accepts. The file also proves
  that this match is unique.
- `get_headers.dfy`: the model. `getItemRestId` is `ItemRestId`; `getRestUrl` is
  `RestUrl`, which delegates the token branches to `ClaimRestUrl` and the format-2
  regex to `HostCapture`; the concatenation at `Scripts/GetHeaders.js:77-81` is
  `MessageUrl`, and `RequestUrl` composes the three as `getHeaders` does. The file
  proves that the explicit searches give exactly the regex results, and it proves
  the properties of the base URL and the request URL.
- `get_headers_cases.dfy`: concrete cases. These are examples of the two `aud`
  formats the source's comments name, plus the regex corner cases: a match that is
  not at the start, the leftmost `/`, the first `@`, an empty group, and no `@`
  after the `/`.

The source's comment calls format 1 "just the URL" (`Scripts/GetHeaders.js:57`).
Its regex is not anchored and its group may be empty, so format 1 applies whenever
`https://` occurs anywhere in `aud`, not only at the start
(`ContainsHttpsIsRegexMatch`, `UrlClaimNotAtStart`).

Two more details the code fixes:

- JavaScript truthiness decides whether `mailbox.restUrl` counts: `null` and `""`
  both fall through to the claim (`HasConfiguredUrl`).
- The format-2 group is the text between the first `/` and the first `@` after
  it. That text may itself contain `/` (`LeftmostSlashClaim`).

## Model

| member | source | states |
|---|---|---|
| Strings.Contains | Scripts/GetHeaders.js:58 | the unanchored search is true exactly when the needle occurs at some index of the string |
| Strings.FirstIndex | Scripts/GetHeaders.js:63 | the result holds the character, is at or after the start, and no earlier index from the start holds it; None means no index from the start holds it |
| JsRegex.JsMatchSameStart | Scripts/GetHeaders.js:58-63 | two matches that both satisfy the leftmost rule start at the same index |
| JsRegex.JsMatchUnique | Scripts/GetHeaders.js:58-63 | for a `prefix([^@]*)suffix` regex, the leftmost-greedy match `String.match` reports is unique: same start, same group |
| GetHeaders.RequestUrlRestId | Scripts/GetHeaders.js:29-42 | the item id carried by the request URL is the raw id unchanged on `OutlookIOS`, and the converter's output for the raw id with version v2.0 on every other host |
| GetHeaders.RequestUrlConfiguredIgnoresToken | Scripts/GetHeaders.js:47-49 | with a present, non-empty configured URL, the request URL is the same whatever the token says, starts with the configured URL, and parses against it back to the REST id |
| GetHeaders.ContainsHttpsIsRegexMatch | Scripts/GetHeaders.js:58 | the format-1 regex matches exactly when `https://` occurs anywhere in `aud` |
| GetHeaders.SlashMatchFacts | Scripts/GetHeaders.js:63 | a format-2 regex match puts `/` at its start, `@` right after its group, and no `@` inside the group |
| GetHeaders.HostCaptureIsJsMatch | Scripts/GetHeaders.js:63-64 | the first-`/`-then-first-`@` search yields the group of the match JavaScript reports; it yields nothing exactly when the regex matches nowhere |
| GetHeaders.HostCaptureIffJsMatch | Scripts/GetHeaders.js:63-64 | the search yields `h` if and only if JavaScript's reported match has group `h` |
| GetHeaders.ClaimRestUrlFollowsJsMatch | Scripts/GetHeaders.js:58-70 | in regex terms: a format-1 match returns `aud`; otherwise a format-2 match with a non-empty group returns `https://` plus the group; otherwise the default |
| GetHeaders.ClaimRestUrlVerbatim | Scripts/GetHeaders.js:58-60 | an `aud` with `https://` at any index is returned unchanged |
| GetHeaders.ClaimRestUrlHost | Scripts/GetHeaders.js:63-66 | with no `https://` in `aud`, `i` the first `/` and `j` the first `@` after it, and a non-empty text between them, the result is `https://` plus `aud[i+1..j]` |
| GetHeaders.ClaimRestUrlLeadHostRest | Scripts/GetHeaders.js:62-66 | an `aud` of the form `lead/host@rest`, with no `/` in `lead`, no `@` in a non-empty `host` and no `https://` anywhere, yields `https://` plus `host` |
| GetHeaders.ClaimRestUrlNoHost | Scripts/GetHeaders.js:63-70 | with no `https://` in `aud` and no `/` followed later by an `@`, the result is `https://outlook.office.com` |
| GetHeaders.ClaimRestUrlEmptyHost | Scripts/GetHeaders.js:64-70 | with no `https://` in `aud` and the first `/` directly followed by `@`, the empty group falls through to `https://outlook.office.com` |
| GetHeaders.ClaimRestUrlShape | Scripts/GetHeaders.js:58-70 | the claim-derived URL is never empty and always contains `https://`; outside format 1 it starts with `https://` and has no `@` after that prefix |
| GetHeaders.RestUrlNonEmpty | Scripts/GetHeaders.js:44-71 | the base URL is never empty; without a configured URL it contains `https://` |
| GetHeaders.ParseMessageUrlInverse | Scripts/GetHeaders.js:77-81 | for a fixed base URL, parsing a URL gives item id `x` if and only if the URL is the composition of the base URL and `x` |
| GetHeaders.MessageUrlInjective | Scripts/GetHeaders.js:77-81 | for a fixed base URL, equal request URLs come from equal item ids |
| GetHeaders.MessageUrlShape | Scripts/GetHeaders.js:77-81 | the request URL starts with the base URL, ends with the fixed query, and contains `PropertyId eq 'String 0x007D'` |
| GetHeaders.QueryIsSourceLiteral | Scripts/GetHeaders.js:81 | the modelled query is character for character the `$select`/`$expand` literal of the source |
| GetHeaders.RequestUrlShape | Scripts/GetHeaders.js:75-81 | the full request URL starts with the resolved base URL (the claim-derived one when nothing is configured), contains the property filter, and gives back the REST id when parsed against its base |
| GetHeadersCases.ConfiguredUrlWins | Scripts/GetHeaders.js:47-48 | a configured URL is used even when `aud` is itself a URL |
| GetHeadersCases.EmptyConfiguredUrlFallsThrough | Scripts/GetHeaders.js:47 | a null or an empty configured URL both leave the claim to decide |
| GetHeadersCases.UrlClaim | Scripts/GetHeaders.js:58-59 | `https://contoso.example/foo` is returned verbatim |
| GetHeadersCases.UrlClaimNotAtStart | Scripts/GetHeaders.js:58-59 | `x/https://h@t` is returned verbatim: format 1 is tested before format 2 and is unanchored |
| GetHeadersCases.GuidHostGuidClaim | Scripts/GetHeaders.js:62-65 | `00000003-0000-0000-c000-000000000000/outlook.office365.com@tenant-guid` yields `https://outlook.office365.com` |
| GetHeadersCases.LeftmostSlashClaim | Scripts/GetHeaders.js:63-65 | `api:/x/mail@t` yields `https://x/mail`: the group starts after the leftmost `/` |
| GetHeadersCases.FirstAtClaim | Scripts/GetHeaders.js:63-65 | `g/mail@a@b` yields `https://mail`: the group stops at the first `@` |
| GetHeadersCases.EmptyHostClaim | Scripts/GetHeaders.js:64-70 | `x/@y` yields the default |
| GetHeadersCases.NoAtAfterSlashClaim | Scripts/GetHeaders.js:63-70 | `a@b/c` yields the default |
| GetHeadersCases.RestIdCases | Scripts/GetHeaders.js:32-40 | a concrete raw id is kept on `OutlookIOS` and converted with v2.0 on another host |

## Left out

- `sendHeadersRequest` and the token callback: host asynchronous API calls and UI status calls.
- `jwt_decode`: a third-party decoder whose code is not part of this model. The model takes the `aud` claim as a string. A token that does not decode, or an `aud` that is missing or an array (RFC 7519, section 4.1.3, allows an array), would throw in the source; the model does not cover those inputs.
- `convertToRestId`: a host function. It is a function parameter, so the model says nothing about its output.
- `$.ajax` and its `done`/`fail`/`always` chain: the network request, the `Authorization: Bearer` and `Accept` headers, the guarantee that `hideStatus` runs after either outcome, the `JSON.stringify` error text, and the unguarded read `SingleValueExtendedProperties[0].Value` of the response.
- `debugOut` logging, and every part of the `Office` global other than `diagnostics.hostName`, `item.itemId` and `restUrl`. The model takes those three as the fields of `Mailbox`.
- Strings are sequences of `char`, and a Dafny `char` is a Unicode scalar value. JavaScript strings are sequences of UTF-16 code units. The two differ in two ways: a character outside the Basic Multilingual Plane is one `char` here but two code units in JavaScript, and an unpaired surrogate (which a JavaScript string can hold, for example after JSON decoding of `"\ud800"`) cannot be represented in this model at all. Neither changes which `/`, `@` or `https://` the searches find, or the text between them.
