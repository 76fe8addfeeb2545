# Directory-to-Google email alias export, modelled in Dafny

`ad_email_aliases/get_email_aliases.py` is a batch job with three modes. It reads
user records (employee id, account name) from Active Directory. It looks up each
user's email aliases in the Google Admin Directory API. It writes the result as
CSV. `--test` only checks that both services can be reached. `--adusers` writes
the directory listing to `adusers.csv`. `--aliases` writes one line of aliases
per user to the configured output file.

This model keeps the job's decision logic and replaces every library call
with an input value:

- the directory's bind, search and unbind become one `DirectoryReply`;
- each attribute value becomes its UTF-8 decoding or a failed decode;
- the credential file's contents, the refresh exchange and the file rewrite
  become `Option<Credential>`, `RefreshReply` and `SaveReply`;
- the per-user alias call becomes a function from user key to `AliasReply`.

All inputs of one run form a `World` value. Everything the run leaves behind
forms an `Outcome` value: the check results, what the credential file holds
and whether it was rewritten, whether the directory was queried, and the
report file written (its path and rows) if any.

Modules, one per part of the script:

- `ActiveDirectory` (`active_directory.dfy`) models `get_active_directory_users`.
  It defines the filter `Kept`, the per-entry decoding `DecodeEntry`, the
  all-or-nothing specification `ExtractUsers` / `DirectoryUsers`, and the loop
  method `GetActiveDirectoryUsers`, which is proved against that specification.
- `GoogleAliases` (`google_aliases.dfy`) models `get_google_aliases` as the
  pure function `RenderAliases`.
- `Text` (`text.dfy`) defines the space join and `Split`, its inverse for
  space-free words. `Split` exists only as the partner of the join.
- `Credentials` (`credentials.dfy`) models the credential block shared by
  `main` and `test_google_connection`. The specification is `CredentialStep`.
  The classes `CredentialFile` and `GoogleCredentials` hold the file and the
  credential object that is refreshed in place. `Authorize` and
  `TestGoogleConnection` are the methods proved against `CredentialStep`.
- `EmailAliases` (`email_aliases.dfy`) models `main`. `Expected` is the
  specification. `Run` is the dispatch method, and `WriteAdUsers` and
  `WriteAliases` are its row-writing loops over a `CsvFile`.
- `Wrappers` (`wrappers.dfy`) defines `Option`.

Behaviour of the code worth knowing, all of it modelled:

- The directory connection is released only on the success path (line 99).
  After a failure the connection is left to the garbage collector. An unbind
  that raises turns an already built user list into `[]`, and
  `DirectoryUsers` models that.
- An entry is kept when its `employeeID` value list is non-empty (line 94).
  The first value may still decode to `""`, so an employee id can be empty.
- The credential step runs before the directory query in every non-test mode
  (lines 126-141). An expired, unrefreshable credential therefore also stops
  `--adusers`. `CredentialsBeforeDirectory` states this. The `--adusers`
  listing is independent only of the alias lookups (`AdUsersIgnoresLookups`).
- `test_google_connection` runs the full credential step (lines 44-51). It can
  therefore refresh the credential and rewrite the credential file before its
  one alias-list call.
- The credential file is opened with `'w'` and then written (lines 134-135).
  A write that fails after the open leaves the file truncated, and the run
  aborts. `SaveReply.WriteFailed` models this, and `AbortKeepsFile` states it.

## Model

| member | source | states |
|---|---|---|
| `ActiveDirectory.DecodeEntry` | ad_email_aliases/get_email_aliases.py:95-96 | a decoded entry carries the first `employeeID` value and the first `sAMAccountName` value, or `""` when that attribute is absent; decoding fails exactly when a value is not UTF-8 or `sAMAccountName` is present with no value |
| `ActiveDirectory.ExtractUsers` | ad_email_aliases/get_email_aliases.py:92-97 | a successful extraction has exactly one user per kept entry, and user k is the decoding of kept entry k |
| `ActiveDirectory.DirectoryUsers` | ad_email_aliases/get_email_aliases.py:75-108 | a non-empty result comes only from a search whose unbind succeeded, and it is that search's complete extraction; conversely, a search whose extraction succeeds and whose unbind succeeds yields exactly that extraction; it is never longer than the search results |
| `ActiveDirectory.Kept` | ad_email_aliases/get_email_aliases.py:92-94 | the entries the loop keeps are never more than the search results, and each has a non-empty `employeeID` list |
| `ActiveDirectory.KeptIsFilter` | ad_email_aliases/get_email_aliases.py:93-94 | the kept entries are exactly the results with a non-empty `employeeID` list, at strictly increasing positions, so result order is kept |
| `ActiveDirectory.ExtractAllOrNothing` | ad_email_aliases/get_email_aliases.py:93-97 | extraction fails as a whole exactly when some entry with an employee id fails to decode; there is no partial list |
| `ActiveDirectory.ExtractedUsers` | ad_email_aliases/get_email_aliases.py:92-97 | a successful extraction has one user per kept entry, in result order; each user is the entry's first `employeeID` value and its first `sAMAccountName` value, or `""` when that attribute is absent |
| `ActiveDirectory.EmptyAccountNameFails` | ad_email_aliases/get_email_aliases.py:96 | a present but empty `sAMAccountName` list (the `[0]` raises) makes the whole directory result `[]` |
| `ActiveDirectory.DirectoryUsersAllOrNothing` | ad_email_aliases/get_email_aliases.py:75-108 | the full case split: when the search succeeded, the unbind succeeded and every entry with an employee id decodes, the result is the complete extraction; in every other case (bind failure, search failure, a decode or index failure, unbind failure) it is `[]` |
| `ActiveDirectory.HasEmployeeId` | ad_email_aliases/get_email_aliases.py:94 | an entry is kept exactly when it has an `employeeID` attribute and that attribute's value list is non-empty |
| `ActiveDirectory.GetActiveDirectoryUsers` | ad_email_aliases/get_email_aliases.py:75-108 | the filter/decode/append loop returns exactly `DirectoryUsers(reply)`: `[]` after a bind, search, decode, index or unbind failure |
| `GoogleAliases.AliasAddresses` | ad_email_aliases/get_email_aliases.py:66 | the comprehension succeeds exactly when every resource has an `alias` field, and then gives those fields one per resource, in order |
| `GoogleAliases.RenderAliases` | ad_email_aliases/get_email_aliases.py:61-73 | `get_google_aliases`: `""` after any error or for an absent or empty alias list; otherwise the single-space join of the `alias` fields |
| `GoogleAliases.FailureLooksLikeNoAliases` | ad_email_aliases/get_email_aliases.py:66-73 | an HTTP error, any other error, a missing `aliases` key and a resource without `alias` all render as `""`, the same as an empty alias list |
| `GoogleAliases.RenderRoundTrip` | ad_email_aliases/get_email_aliases.py:66-67 | for one or more space-free aliases, splitting the rendered line at spaces gives back exactly the `alias` fields, in response order |
| `GoogleAliases.RenderEmptyIff` | ad_email_aliases/get_email_aliases.py:63-73 | the rendered line is `""` exactly after a failure, for no aliases, or for a single empty alias |
| `GoogleAliases.TwoAliasesExample` | ad_email_aliases/get_email_aliases.py:67 | two aliases render as the first, one space, and the second |
| `Text.Join` | ad_email_aliases/get_email_aliases.py:67 | `" ".join`: empty for no strings; it starts with the first string, and a space follows that string whenever there is a second |
| `Text.SplitJoin` | ad_email_aliases/get_email_aliases.py:67 | splitting a single-space join of space-free strings returns those strings: the join loses nothing and keeps order |
| `Text.JoinEmpty` | ad_email_aliases/get_email_aliases.py:67 | a join is empty exactly when there are no strings or the only one is empty |
| `Credentials.CredentialStep` | ad_email_aliases/get_email_aliases.py:127-139 | an unloadable file aborts; the step proceeds only with the stored credential itself or after a rewrite; a rewrite happens only for a refreshable credential, and the file then holds the credential used; the file changes only once a refreshable credential was refreshed and the file opened for the rewrite |
| `Credentials.StepOutcomes` | ad_email_aliases/get_email_aliases.py:127-139 | a valid credential proceeds unchanged and the file is untouched; the step proceeds exactly when the credential is valid, or is expired with a refresh token and both the refresh and the rewrite succeed; the file is rewritten exactly on the refresh path, and then with the refreshed credential |
| `Credentials.ProceedingCredentialIsStored` | ad_email_aliases/get_email_aliases.py:128-135 | whenever the step proceeds, the credential file holds exactly the valid credential in use, so a refreshed token is never used unsaved |
| `Credentials.AbortKeepsFile` | ad_email_aliases/get_email_aliases.py:128-139 | an aborted step does not rewrite the file; it leaves the file as it was exactly unless the credential was refreshable, the refresh succeeded and the write then failed after `open` truncated the file, which leaves it unreadable |
| `Credentials.Refreshable` | ad_email_aliases/get_email_aliases.py:128-129 | the refresh path is taken exactly when the credential is not valid, is expired and has a non-empty refresh token |
| `Credentials.GoogleCredentials.FromAuthorizedUser` | ad_email_aliases/get_email_aliases.py:127 | the credential object built from the file's contents has exactly that token, validity, expiry and refresh token |
| `Credentials.CredentialFile.Load` | ad_email_aliases/get_email_aliases.py:43 | loading the authorised-user file yields exactly what the file holds (None: `from_authorized_user_file` raises); the same call is made at line 127 |
| `Credentials.GoogleCredentials.Refresh` | ad_email_aliases/get_email_aliases.py:130 | a successful refresh updates the credential object in place with the new token, valid and not expired; a failed one leaves it unchanged |
| `Credentials.CredentialFile.Save` | ad_email_aliases/get_email_aliases.py:134-135 | a rewrite stores the credential; a failed `open` leaves the file alone; a failed write leaves it unreadable |
| `Credentials.Authorize` | ad_email_aliases/get_email_aliases.py:126-139 | the credential block yields a fresh credential object equal to `CredentialStep`'s, or null for abort, and leaves the file as `CredentialStep` says |
| `Credentials.TestGoogleConnection` | ad_email_aliases/get_email_aliases.py:40-59 | the Google check is true exactly when the credential step proceeds and the probe call succeeds; it may rewrite the credential file like `main` does |
| `EmailAliases.OutputFilePath` | ad_email_aliases/get_email_aliases.py:16 | the alias report path is the `OUTPUT_FILE_PATH` environment variable when set, and `user_aliases.csv` otherwise |
| `EmailAliases.UserKey` | ad_email_aliases/get_email_aliases.py:160 | the Google user key is the employee id followed by `@nyu.edu`, character by character |
| `EmailAliases.AdUserRows` | ad_email_aliases/get_email_aliases.py:151-152 | one `[employee id, account name]` row per user, in order |
| `EmailAliases.AliasRow` | ad_email_aliases/get_email_aliases.py:160-162 | a two-cell row: the account name, then the rendered aliases of the user's key |
| `EmailAliases.AliasRows` | ad_email_aliases/get_email_aliases.py:158-162 | the header `sAMAccountName, Email Aliases`, then exactly one `AliasRow` per user, in order |
| `EmailAliases.CsvFile.constructor` | ad_email_aliases/get_email_aliases.py:156-157 | opening the report in `'w'` mode gives a file at the given path with no rows, whatever it held before |
| `EmailAliases.CsvFile.WriteRow` | ad_email_aliases/get_email_aliases.py:152 | `writer.writerow` appends exactly the given row to the file and changes nothing else |
| `EmailAliases.Expected` | ad_email_aliases/get_email_aliases.py:110-164 | check results exist exactly in `--test`; the directory is queried only outside `--test`; a report is written only after the directory query, only under an export switch, and only for a non-empty user list, with at least one row per user |
| `EmailAliases.WriteAdUsers` | ad_email_aliases/get_email_aliases.py:148-152 | the `--adusers` loop writes exactly `AdUserRows(users)`, one `[employee id, account name]` row per user, with no header |
| `EmailAliases.WriteAliases` | ad_email_aliases/get_email_aliases.py:156-163 | the `--aliases` loop writes the header and then exactly one `AliasRow` per user, in order |
| `EmailAliases.Run` | ad_email_aliases/get_email_aliases.py:110-164 | `main` leaves exactly the outcome `Expected(flags, world)` |
| `EmailAliases.TestModeOnlyChecks` | ad_email_aliases/get_email_aliases.py:121-124 | `--test` reports both check results, writes no report and never queries the directory |
| `EmailAliases.CredentialsBeforeDirectory` | ad_email_aliases/get_email_aliases.py:126-141 | outside `--test`, the directory is queried exactly when the credential step proceeded; a failed step writes no report, whatever export was asked for |
| `EmailAliases.EmptyDirectoryWritesNothing` | ad_email_aliases/get_email_aliases.py:143-145 | an empty user list means no report file |
| `EmailAliases.SuccessfulSearchIsReported` | ad_email_aliases/get_email_aliases.py:141-164 | outside `--test`, under an export switch, after a proceeding credential step, a search whose unbind and extraction succeed with at least one user always writes a report with at least one row per user |
| `EmailAliases.NoExportSwitchWritesNothing` | ad_email_aliases/get_email_aliases.py:147-164 | with neither `--adusers` nor `--aliases`, no report file is written |
| `EmailAliases.AdUsersReport` | ad_email_aliases/get_email_aliases.py:147-153 | `--adusers`, even together with `--aliases`, writes `adusers.csv` with exactly one `[employee id, account name]` row per user, in order, and no header |
| `EmailAliases.AdUsersIgnoresLookups` | ad_email_aliases/get_email_aliases.py:147-153 | the outcome of an `--adusers` run does not depend on the alias lookups |
| `EmailAliases.AliasReport` | ad_email_aliases/get_email_aliases.py:155-164 | `--aliases` alone writes the output file with the header `sAMAccountName, Email Aliases`, then exactly one `[account name, rendered aliases of employee id + "@nyu.edu"]` row per user, in order |
| `EmailAliases.FailedLookupRow` | ad_email_aliases/get_email_aliases.py:68-73 | a user whose lookup raises gets the row `[account name, ""]` |
| `EmailAliases.TwoAliasReport` | ad_email_aliases/get_email_aliases.py:155-163 | a single user whose lookup lists two aliases gets, after the header, the row of its account name and the two aliases joined by one space |
| `EmailAliases.JDoeExample` | ad_email_aliases/get_email_aliases.py:155-163 | user `12345`/`jdoe` with aliases `jdoe@alt.org` and `john.doe@alt.org` gives the row `jdoe, jdoe@alt.org john.doe@alt.org` after the header |

## Left out

- LDAP connection setup is not modelled: `initialize`, the referral and TLS options (lines 28-31, 78-81). Bind, search and unbind appear only as their success or failure in `DirectoryReply`.
- `test_ldap_connection` (lines 25-38) is the input flag `ldapReachable`. It catches only `ldap.LDAPError`; any other exception it could raise is not modelled.
- The search filter's server-side meaning is not modelled (the results are an input). The unused `ou_name` parameter, `ORGANIZATIONAL_UNIT_NAME` and the commented-out filter (line 84) are not modelled either.
- Search continuation references, which the directory library can return among the results, are not modelled. Every result is a `(dn, attributes)` pair.
- UTF-8 decoding is abstracted: a value is either its decoded text or a failed decode.
- Google client construction (`build`), HTTP, scopes and token JSON are library calls and are not modelled.
- OAuth refresh is modelled only by its effect. `valid` and `expired` are stored flags, though the library derives them from the expiry and the clock. A successful refresh is taken to make the credential valid and not expired.
- The `not creds` test is not modelled as a separate case: `from_authorized_user_file` either returns a credential object or raises.
- The alias lookup is a function of the user key alone. Its use of the loaded credential is not modelled, and neither is the order in which the lookups are issued.
- Alias resources that are not string maps, or responses of another shape (a `TypeError` in the source), are not modelled. Both would render as `""`, like every other exception.
- The user key `nyu804@nyu.edu` of the Google probe (line 54) is not modelled; only the probe's success counts, as `googleProbeOk`.
- Logging, `argparse`, `dotenv` and `LOG_FILE_PATH` are configuration plumbing and are not modelled. Of the environment variables, only `OUTPUT_FILE_PATH` and its default `user_aliases.csv` are modelled.
- CSV quoting and encoding are not modelled: a report is its path and its rows of cells.
- A report file that cannot be opened is not modelled. The source does not catch that exception, so `main` would fail; the model assumes the file opens.
