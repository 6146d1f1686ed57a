# Cookie-blob parser of mfp-to-sheets, modelled in Dafny

The sync script `sync_mfp_to_gsheet.py` authenticates against the nutrition
tracking site with session cookies supplied in the environment variable
`MFP_COOKIES`. It reads them as one raw text blob of `name=value` lines and
loads them into a cookie jar: every line that contains an `=` is split at its first `=`, the name and the value are
stripped of surrounding whitespace, and one cookie with domain
`.myfitnesspal.com` and path `/` is set on the jar. Lines without `=` (blank
lines, and comments or stray text without `=`) are skipped; a comment line such
as `# a=b` does contain `=` and becomes a cookie named `# a`.

The project has two modules:

- `PyStr` (`pystr.dfy`) models the three Python string operations the loop
  relies on: `str.splitlines()` (`SplitLines`, with every line boundary Python
  recognises and `"\r\n"` as one terminator), `str.strip()` (`Strip`, with
  Python's Unicode whitespace set) and `line.split("=", 1)` on a line that
  contains `=` (`SplitAtFirst`). Each comes with the lemmas that pin it down: a
  round trip for `splitlines`, a characterisation and idempotence for `strip`,
  uniqueness for the split.
- `MfpCookies` (`cookies.dfy`) models the loop itself. `CookieOf` is what one
  accepted line becomes, `CookiesOf` / `ParseCookieBlob` are the sequence of
  cookies the loop hands to the jar, `CookieJar` is the jar (its state is the
  sequence of `set_cookie` calls) and `LoadCookies` is the script's `for` loop
  as an imperative method, proved to leave exactly `ParseCookieBlob(raw)` in a
  fresh jar.

The script's name says it syncs nutrition data to a Google Sheet, but
`sync_mfp_to_gsheet.py` ends once it has built the site client from the jar; it
holds no fetch or reconciliation code, so this project models the cookie
loading step only.

## Model

| member | source | states |
|---|---|---|
| PyStr.SplitLines | sync_mfp_to_gsheet.py:7 | `raw.splitlines()`: no line holds a line break, and there are no lines exactly when the input is empty |
| PyStr.SplitLinesCons | sync_mfp_to_gsheet.py:7 | a break-free line followed by one terminator (`"\r\n"` is one terminator; a bare `"\r"` counts only when no `"\n"` follows it) is the first line, the rest of the text gives the rest |
| PyStr.SplitLinesSingle | sync_mfp_to_gsheet.py:7 | a non-empty text without line breaks is a single line |
| PyStr.SplitJoin | sync_mfp_to_gsheet.py:7 | round trip: break-free lines, each followed by the same terminator, split back into exactly those lines (a final terminator adds no empty line) |
| PyStr.SplitJoinUnterminated | sync_mfp_to_gsheet.py:7 | the same round trip when the last line has no terminator |
| PyStr.SplitAtFirst | sync_mfp_to_gsheet.py:9 | `line.split("=", 1)` on a line with `=`: the line is `k + "=" + v` and `k` contains no `=` |
| PyStr.SplitAtFirstUnique | sync_mfp_to_gsheet.py:9 | for any `k` without `=` and any `v`, splitting `k + "=" + v` gives back exactly `(k, v)`, so later `=` stay in `v` |
| PyStr.Strip | sync_mfp_to_gsheet.py:12-13 | `s.strip()` neither starts nor ends with whitespace and is no longer than `s` |
| PyStr.StripPadded | sync_mfp_to_gsheet.py:12-13 | surrounding whitespace is all that `strip()` removes: whitespace + stripped `t` + whitespace strips to `t` |
| PyStr.StripSplits | sync_mfp_to_gsheet.py:12-13 | every string is whitespace + `s.strip()` + whitespace, so with `StripPadded` the result of `strip()` is fixed on every input |
| PyStr.StripIdempotent | sync_mfp_to_gsheet.py:12-13 | stripping twice is stripping once |
| PyStr.StripKeeps | sync_mfp_to_gsheet.py:12-13 | every non-whitespace character of `s` is still in `s.strip()` |
| PyStr.StripWithin | sync_mfp_to_gsheet.py:12-13 | `s.strip()` holds no character that `s` does not hold |
| MfpCookies.CookieOf | sync_mfp_to_gsheet.py:9-16 | the cookie of an accepted line has a name without `=`, name and value without surrounding whitespace, domain `.myfitnesspal.com` and path `/` |
| MfpCookies.CookieOfLine | sync_mfp_to_gsheet.py:9-13 | the line `k=v` with `k` free of `=` gives name `k.strip()` and value `v.strip()` |
| MfpCookies.LaterEqualsKept | sync_mfp_to_gsheet.py:9-13 | an `=` after the first one on a line ends up in the cookie's value |
| MfpCookies.LineCookies | sync_mfp_to_gsheet.py:8-17 | one line gives at most one cookie, and exactly one when it contains `=` |
| MfpCookies.CookiesOf | sync_mfp_to_gsheet.py:7-17 | the loop over the lines, as a function: never more cookies than lines (order and count are stated by `CookiesFollowLines`) |
| MfpCookies.ParseCookieBlob | sync_mfp_to_gsheet.py:7-17 | an empty blob yields no cookies |
| MfpCookies.LineWithoutEqualsSkipped | sync_mfp_to_gsheet.py:8 | a line without `=` contributes no cookie, wherever it stands among the lines |
| MfpCookies.AcceptedLines | sync_mfp_to_gsheet.py:7-8 | the positions of exactly the lines that contain `=`, strictly increasing |
| MfpCookies.CookiesFollowLines | sync_mfp_to_gsheet.py:7-17 | there are as many cookies as accepted lines, and the j-th cookie is the cookie of the j-th accepted line: one per line with `=`, in input order |
| MfpCookies.CookieCount | sync_mfp_to_gsheet.py:7-10 | the number of cookies equals the number of lines that contain at least one `=` |
| MfpCookies.EveryCookieScoped | sync_mfp_to_gsheet.py:12-15 | whatever the blob, every cookie has domain `.myfitnesspal.com`, path `/`, a name without `=` and stripped name and value |
| MfpCookies.CookiesOfAppend | sync_mfp_to_gsheet.py:7-17 | the lines of two concatenated pieces give the cookies of the first piece followed by those of the second |
| MfpCookies.SingleLineRoundTrip | sync_mfp_to_gsheet.py:7-16 | for a name `k` without `=`, and `k` and a value `v` both stripped and free of line breaks, the blob `k=v` parses to exactly the one cookie `(k, v, .myfitnesspal.com, /)` |
| MfpCookies.BlobRoundTrip | sync_mfp_to_gsheet.py:7-17 | a blob written as one `k=v` line per such pair, each ended by the same terminator, parses to one cookie per pair, in the same order, with those names and values |
| MfpCookies.CookieJar.constructor | sync_mfp_to_gsheet.py:5 | a new jar holds no cookies |
| MfpCookies.CookieJar.SetCookie | sync_mfp_to_gsheet.py:10-17 | the cookie is appended after all cookies set before it |
| MfpCookies.LoadCookies | sync_mfp_to_gsheet.py:5-17 | the loop leaves a fresh jar holding exactly `ParseCookieBlob(raw)`; its invariant is that after `i` lines the jar holds the cookies of those `i` lines |

## Left out

- Reading `MFP_COOKIES` from the process environment (line 4) is I/O; the blob is the parameter `raw` of `LoadCookies`.
- Constructing the site client from the jar (line 19) is a network client wrapper and is not part of this model.
- The missing `import os` makes line 4 fail before the loop runs; the missing `import myfitnesspal` would make line 19 fail after it; both are defects of the file, not behaviour to model.
- MfpCookies.CookieJar.SetCookie: records every call in order; the library jar's replacement of an earlier cookie with the same name, domain and path happens inside the library and is not modelled.
- MfpCookies.CookieOf: keeps only name, value, domain and path; the other attributes `create_cookie` fills in with library defaults (version, port, secure flag, expiry, comment, `HttpOnly` marker) are not modelled.
- Python strings may hold lone surrogate code points; Dafny's `char` is a Unicode scalar value, so such strings are outside the model.
- MfpCookies.SingleLineRoundTrip: requires `k` and `v` to be free of line breaks, which the round trip needs: `splitlines` would cut a value with an embedded line break into two lines.
- The nutrition fetch and the date-keyed spreadsheet update-or-append step: `sync_mfp_to_gsheet.py` stops after building the client (line 19) and holds no such code; any other file of the repository that might is not part of this model.
