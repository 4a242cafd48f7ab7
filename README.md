# miru-sheet-manager: the row filter and the token claims, in Dafny

The program signs in to the Google Sheets API with a service account,
fetches the rows of a form-response sheet and builds two invitation lists:
phone numbers of members whose identifier is on the `ADDED_PHONE` list, and
`hanyang` e-mail addresses that are not yet on the `ADDED_MAIL` list. This
project models the part of that run that is logic rather than I/O:

- `Text`: `str::find` as `Find` (first occurrence, or none) and `str::split`
  on `','` as `Split`, with `Join` as its inverse.
- `Phone`: the column-5 rewrite. A value with no hyphen and without the
  header text "전화번호" is spliced into `first3-next4-rest`. Any other value
  is kept as it is. A value that needs the splice but has fewer than 7
  characters makes the program panic, so `FormatPhone` gives `None` for it.
- `Invites`: the loop in `main`. `ProjectRow` builds the per-row working
  fields (column 2, column 1, formatted phone) or the fault that aborts the
  run. `InviteNumbers` and `InviteMails` specify the two output lists.
  `FilterSheet` is the loop itself, proved against them. The first faulty
  row aborts the whole run with no partial output, so the method returns
  either both lists or the index and fault of that row.
- `Claims`: the claim set of the JWT assertion (`iss`, `scope`, `aud`,
  `exp`, `iat`, the registered claims of section 4.1 of RFC 7519).
  The clock reading `iat` is a parameter.
- `Wrappers`: `Option` and `Result`.

Two consequences of the code worth knowing:

- The splice takes the first 3 characters and the next 4, and keeps the rest.
  So any unhyphenated value of 7 or more characters is accepted, not only
  10- or 11-digit numbers.
- An empty `ADDED_PHONE` splits into `[""]`, so every row whose column 2 is
  blank is invited (`EmptyPhoneListMatchesBlank`).

## Model

| member | source | states |
|---|---|---|
| `Text.Find` | src/main.rs:99-109 | a found index is a place where the pattern occurs |
| `Text.FindSpec` | src/main.rs:99 | `find` gives the first index where the pattern occurs, and `None` exactly when it occurs nowhere |
| `Text.ContainsChar` | src/main.rs:99 | `find("-")` succeeds exactly when the value has a `'-'` character |
| `Text.Split` | src/main.rs:89-91 | at least one piece, and no piece contains the separator |
| `Text.JoinSplit` | src/main.rs:89-91 | joining the pieces of a split with `","` gives back the variable's value |
| `Text.SplitJoin` | src/main.rs:89-91 | splitting a join of comma-free pieces gives back the pieces |
| `Text.SplitCount` | src/main.rs:89-91 | the number of pieces is the number of commas plus one |
| `Text.SplitNoSeparator` | src/main.rs:89-91 | a value without commas is a one-element list, so `""` becomes `[""]` |
| `Phone.NeedsSplice` | src/main.rs:99 | a value is spliced exactly when it has no `'-'` character and does not contain the header text |
| `Phone.FormatPhone` | src/main.rs:99-104 | fails exactly when the value needs the splice and has fewer than 7 characters; values with a hyphen or the header text pass through unchanged; a spliced value is 2 longer, has hyphens at 3 and 8, and removing them gives back the input |
| `Phone.SpliceHyphens` | src/main.rs:101 | a spliced value has hyphens at positions 3 and 8 and nowhere else |
| `Phone.FormatIdempotent` | src/main.rs:99-104 | formatting a formatted value changes nothing, so nothing is spliced twice |
| `Phone.HyphenatedPassesThrough` | src/main.rs:99-104 | a value holding a hyphen is kept unchanged, whatever its length |
| `Phone.NoSentinelInDigits` | src/main.rs:99 | a digit string never contains the header text |
| `Phone.SpliceDigits` | src/main.rs:99-102 | a digit string of 7 or more characters becomes `s[..3] + "-" + s[3..7] + "-" + s[7..]` |
| `Phone.FormatExamples` | src/main.rs:99-102 | `"0101234567"` becomes `"010-1234-567"` and `"01012345678"` becomes `"010-1234-5678"` |
| `Invites.ProjectRow` | src/main.rs:96-104 | a row yields fields exactly when it has 6 cells and its column 5 is formattable; the fields are column 2, column 1 and the formatted column 5; a short row gives `RowTooShort`, a short unhyphenated phone `PhoneTooShort` |
| `Invites.Project` | src/main.rs:95-104 | one working-field record per row, in row order, each the one `ProjectRow` gives |
| `Invites.ProjectExactly` | src/main.rs:95-104 | any field sequence that matches the rows one for one is the projection |
| `Invites.NumberInvited` | src/main.rs:106 | a row's phone is taken when its column 2 is one of the `ADDED_PHONE` pieces |
| `Invites.MailInvited` | src/main.rs:109 | a row's address is taken when it is not one of the `ADDED_MAIL` pieces and contains `hanyang` |
| `Invites.InviteNumbers` | src/main.rs:95-107 | the number list the loop accumulates; every entry is the formatted phone of a row whose column 2 is on the phone list |
| `Invites.InviteMails` | src/main.rs:95-110 | the mail list the loop accumulates; every entry is the address of some row |
| `Invites.FilterSheet` | src/main.rs:88-112 | succeeds exactly when every row is processable, returning the two specified lists for the split variables; otherwise returns the first faulty row and its fault, with no output lists |
| `Invites.NumberRows` | src/main.rs:106-107 | ascending indices of exactly the rows whose column 2 is on the phone list |
| `Invites.MailRows` | src/main.rs:109-110 | ascending indices of exactly the rows whose column 1 is off the mail list and contains `hanyang` |
| `Invites.NumbersAreSelectedRows` | src/main.rs:95-107 | the invited numbers are the formatted phones of those rows, one per row, in row order |
| `Invites.MailsAreSelectedRows` | src/main.rs:95-110 | the invited addresses are column 1 of those rows, one per row, in row order |
| `Invites.InvitesBounded` | src/main.rs:95-110 | neither list is longer than the number of rows |
| `Invites.InvitedMailsQualify` | src/main.rs:109-110 | every invited address contains `hanyang` and is not on the mail list |
| `Invites.MailsReadOnlyAddress` | src/main.rs:109-110 | the mail list depends on nothing but each row's address field |
| `Invites.NumbersReadOnlyIdAndPhone` | src/main.rs:106-107 | the number list depends on nothing but each row's identifier and phone fields |
| `Invites.MailsIgnoreOtherColumns` | src/main.rs:106-110 | rows that agree on column 1 give the same invited addresses |
| `Invites.NumbersIgnoreMailColumn` | src/main.rs:106-110 | rows that agree on columns 2 and 5 give the same invited numbers |
| `Invites.EmptyPhoneListMatchesBlank` | src/main.rs:88-107 | with an empty `ADDED_PHONE`, a row with a blank column 2 is selected |
| `Invites.MailFilterExamples` | src/main.rs:109 | a listed address is refused, an unlisted `hanyang` address is taken, an address outside the domain is refused |
| `Invites.NumbersAppend` | src/main.rs:95-107 | one more row adds at most its own phone, at the end of the number list |
| `Invites.MailsAppend` | src/main.rs:95-110 | one more row adds at most its own address, at the end of the mail list |
| `Invites.TwoRowScenario` | src/main.rs:88-112 | a spliced row on both lists and a hyphenated row on neither give `["010-1112-222"]` and `["x@hanyang.ac.kr"]` |
| `Claims.BuildClaims` | src/main.rs:29-40 | `iss` is the client email, `aud` the token URI, `scope` the read-only spreadsheets URL, `iat` the clock reading, and expiry is one hour later |
| `Claims.AcceptableForOneHour` | src/main.rs:29-40 | built claims are within their validity window exactly for the hour starting at `iat` |
| `Claims.BuildClaimsUnique` | src/main.rs:34-40 | any claims with the key's issuer, audience and scope and a one-hour lifetime are exactly the built ones |

## Left out

- The HTTP token request, the sheet GET and the async runtime are network I/O. The rows arrive as a parameter of `FilterSheet`.
- The JWT-bearer grant form post, PEM key parsing and RS256 signing are foreign library calls. Only the claim set is modelled.
- Reading the key file and the system clock are I/O. The key fields and `iat` are parameters.
- Reading `ADDED_PHONE`, `ADDED_MAIL` and `SHEET_ID` from the environment is I/O. A missing variable panics in the program and is not modelled. The variable contents are string parameters.
- Building the sheet URL with percent-encoding is a library call with no visible definition.
- Printing the two lists is output formatting.
- `Phone.FormatPhone`, `Invites.ProjectRow` and `Invites.FilterSheet` assume ASCII column-5 values. The 7-character test and the splice positions count characters, while the program counts UTF-8 bytes. For a non-ASCII value the model may abort where the program splices (`"0101한"` is 7 bytes but 5 characters), or splice where the program panics on a slice that splits a character.
- `Claims.BuildClaims` does not model the machine integer behind `iat`. The model assumes a 64-bit `usize`, where `iat + 3600` overflows only for a clock reading within an hour of 2^64 seconds. On a 32-bit target the `as usize` cast truncates the clock reading, and the model does not capture that.
- A `Fault` records only why a row aborts the run, not the panic message text.
