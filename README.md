# Personal finance app with an Itaú open-banking client: Dafny model

The repository is a small personal-finance web application. It has two parts
with real logic, and this project models both.

- `banking_itau.py` is an OAuth 2.0 client for the Itaú open-banking API.
  It uses PKCE (RFC 7636) with the S256 method:
  - it draws a code verifier and derives its challenge as the unpadded
    base64url text of the verifier's SHA-256 digest (section 4.2 of RFC 7636,
    alphabet of section 5 of RFC 4648);
  - it builds the authorization URL (section 4.1.1 of RFC 6749);
  - it exchanges the authorization code for a bearer token (section 4.1.3 of
    RFC 6749) and remembers the token with its absolute expiry;
  - it reads the accounts, but only with a live token;
  - it reads one account's transactions, by default for the last 30 days.
- `app.py` is a Flask app over SQLite or PostgreSQL. The rules modelled from
  it are:
  - `execute_query`: the SQLite-to-PostgreSQL rewrite of the query text, and
    the SELECT test that decides between fetching rows and returning a row
    count;
  - the rule-based chat: keyword routing, and `processar_delecao_simples`,
    which strips the deletion keywords and deletes the entries, expenses and
    debts whose description matches `LIKE '%desc%'` for what is left;
  - the balance report of `/consultar` with its one tip, and the three-way
    analysis `gerar_analise_simples`;
  - the chart data of `/grafico_dados`.

HTTP endpoints, SHA-256, the random source, the clock and the database are
parameters of the model. The bank is a function from request to outcome.
The database engine is a function from statement to answer or exception.
Python exceptions on the modelled paths appear as `Raised(kind)` values. The
bank's answer is itself such an outcome: a response, or the
`RequestException` of a request that failed, which the client passes on.

Modules, one per file:

- `Wrappers`: `Option`, the Python exception kinds, `Outcome`.
- `Text`: Python's `strip`, `lower`, `upper`, `in`, `startswith` and
  `replace` on strings.
- `Base64Url`: base64url encoding, padded and unpadded, and its decoder.
- `Calendar`: proleptic Gregorian dates, the ordinal day number,
  subtraction of days, and `YYYY-MM-DD` formatting.
- `QueryString`: `'&'.join(f'{k}={v}')` and how a server splits it back.
- `ItauClient`: the class `ItauOpenBanking` and its pure helpers.
- `SqlCompat`: `execute_query`.
- `Chat`: `/chat` routing, keyword stripping, the three deletions.
- `Summary`: `/consultar` and `gerar_analise_simples`.
- `Chart`: `/grafico_dados`, over an insertion-ordered dictionary.

## Model

| member | source | states |
|---|---|---|
| ItauClient.ItauOpenBanking.constructor | banking_itau.py:13-21 | Stores the credentials and the two fixed hosts. Starts with no token, no expiry and no verifier attribute. |
| ItauClient.GenerateCodeVerifier | banking_itau.py:23-26 | `token_urlsafe(32)` gives 43 URL-safe characters, as a PKCE verifier needs. Decoding them gives back exactly the 32 random bytes. |
| Base64Url.EncodeUnpadded | banking_itau.py:25 | Unpadded base64url of n bytes is `(4n+2)/3` characters from `A-Z a-z 0-9 - _`. |
| Base64Url.DecodeEncode | banking_itau.py:31 | Decoding the unpadded base64url text of any byte string gives back that byte string. |
| Base64Url.Encode | banking_itau.py:31 | `urlsafe_b64encode` pads to a multiple of four: n bytes give `4 * ceil(n/3)` characters. |
| Base64Url.FoobVector | banking_itau.py:31 | The bytes of "foob" encode to "Zm9vYg==", and without padding to "Zm9vYg", as in section 10 of RFC 4648. |
| Base64Url.PaddingAtEnd | banking_itau.py:31 | The padded encoding is the unpadded one followed by `==`, `=` or nothing, for one, two or zero bytes left over after the full groups of three. |
| Base64Url.StripPaddingIsUnpadded | banking_itau.py:31 | Removing every `=` from the padded encoding gives exactly the unpadded encoding. |
| ItauClient.CodeChallenge | banking_itau.py:28-31 | The challenge is URL-safe and has no `=`. It is `(4n+2)/3` characters for an n-byte digest, so 43 for SHA-256. It decodes back to the digest, so it determines the digest. |
| QueryString.Join | banking_itau.py:51 | No contract of its own. `ParseJoin` states that splitting the joined text gives back the pairs. |
| QueryString.ParseJoin | banking_itau.py:51 | Splitting an `&`-joined `k=v` list on `&` and then on the first `=` gives back the pairs. This needs keys without `&` or `=` and values without `&`. |
| QueryString.KeyAt | banking_itau.py:41-49 | In a list with distinct keys, each key occurs once and reads back its own value. |
| ItauClient.AuthorizeUrl | banking_itau.py:52 | No contract of its own. `AuthorizeUrlReadsBack` states what the URL reads back as. |
| ItauClient.AuthorizeUrlReadsBack | banking_itau.py:41-52 | The URL starts with `auth_url/authorize?` and reads back as the seven parameters in order. `response_type=code` and `code_challenge_method=S256` occur once each. `code_challenge` is the challenge. The scope keeps its literal spaces. This needs a client id without `&`. |
| ItauClient.ItauOpenBanking.GetAuthUrl | banking_itau.py:33-52 | Stores the fresh verifier, replacing any earlier one. Returns the authorization URL carrying that verifier's challenge and a fresh 22-character URL-safe state. |
| ItauClient.PkceBinding | banking_itau.py:35-64 | The verifier the token form sends passes the server's S256 check (section 4.6 of RFC 7636) against the `code_challenge` the URL carried. |
| ItauClient.ItauOpenBanking.ExchangeCodeForToken | banking_itau.py:54-76 | Without a stored verifier it raises AttributeError and posts nothing. Otherwise it posts the six form fields with the stored verifier. On a non-200 status it returns False and changes nothing. On 200 it stores the token, sets the expiry to now plus `expires_in` and returns True. A 200 body without `access_token` raises KeyError and changes nothing. One without `expires_in` raises KeyError after storing the token. One whose expiry falls outside the range of `datetime` raises OverflowError after storing the token. A failed POST raises its exception and changes nothing. |
| ItauClient.DatetimeEndIsLastDay | banking_itau.py:72 | The bound of that range is the end of 9999-12-31, the last day a `datetime` holds. |
| ItauClient.CheckToken | banking_itau.py:80 | No contract of its own. `TokenLifetime` states when a token is usable or expired; the `GetAccounts` row states what each state does. |
| ItauClient.TokenLifetime | banking_itau.py:80 | A token stored with an expiry is usable exactly while the clock is before the expiry and the token is non-empty. Once expired it stays expired. |
| ItauClient.ItauOpenBanking.GetAccounts | banking_itau.py:78-96 | Sends a request exactly when the token is usable. With no token or an expired one it returns None. With a token but no expiry the comparison raises TypeError. Otherwise it sends one GET with the bearer header and returns the body on 200 and None on any other status. A failed GET raises its exception. |
| ItauClient.BodyOn200 | banking_itau.py:90-96 | A GET returns the body exactly when the status is 200, None on any other status, and raises exactly when the request failed, with that exception. |
| Calendar.MinusDays | banking_itau.py:101 | Its result is a valid date. `MinusDaysOrdinal` and `MinusDaysUnique` state when it exists and that it is exactly n days earlier. |
| Calendar.MinusDaysOrdinal | banking_itau.py:101 | Going back n days exists exactly when it stays on or after 0001-01-01. The result is then exactly n days earlier. |
| Calendar.MinusDaysUnique | banking_itau.py:101 | Any valid date n days earlier is the one the subtraction gives. |
| Calendar.OrdinalInjective | banking_itau.py:101 | Two valid dates with the same ordinal day number are the same date. |
| Calendar.Format | banking_itau.py:101-103 | `strftime('%Y-%m-%d')` is ten characters: four digits, `-`, two digits, `-`, two digits. |
| Calendar.ParseFormat | banking_itau.py:101-103 | `%Y-%m-%d` text reads back as the date it was made from. |
| Calendar.FormatInjective | banking_itau.py:101-103 | Distinct dates format to distinct texts. |
| ItauClient.DefaultFromDate | banking_itau.py:100-101 | The default start date exists exactly when today is at least 30 days after 0001-01-01, that is on or after 0001-01-31. Its text names the date exactly 30 days before today. |
| ItauClient.ItauOpenBanking.GetTransactions | banking_itau.py:98-122 | An omitted or empty start date becomes today less 30 days. An omitted or empty end date becomes today. It sends one GET with both dates and the bearer header, whatever the token's state. It returns the body on 200 and None otherwise. A failed GET raises its exception. A default start date before 0001-01-01 raises OverflowError and sends nothing. |
| SqlCompat.RewriteForPostgres | app.py:48-51 | No contract of its own. `RewriteLeavesNoPlaceholder`, `RewriteIdentity` and `RewriteKeepsSelect` state what the rewrite does. |
| SqlCompat.IsSelect | app.py:55 | No contract of its own. `IsSelectOnLStrip` states it as a SELECT prefix in any case after the leading whitespace; `RewriteKeepsSelect` states that the rewrite keeps it. |
| SqlCompat.RewriteLeavesNoPlaceholder | app.py:48-51 | After the PostgreSQL rewrite no `?` remains. |
| SqlCompat.RewriteIdentity | app.py:48-51 | A query without `?`, `INSERT OR REPLACE` or `BLOB` is sent unchanged. |
| SqlCompat.RewriteKeepsSelect | app.py:48-55 | The rewrite never changes whether a query counts as a SELECT. So both backends fetch rows for the same queries. |
| SqlCompat.ExecuteQuery | app.py:41-64 | On SQLite the text is sent as written. On PostgreSQL it is sent after the three replacements in order, and has no `?`. It returns the fetched rows exactly when the query, stripped and upper-cased, starts with SELECT; otherwise the row count. An engine error propagates. |
| Text.LStrip | app.py:55 | `lstrip` drops exactly a leading run of whitespace: the rest is a suffix of the input that starts with a non-space. |
| Text.RStrip | app.py:55 | `rstrip` drops exactly a trailing run of whitespace: the rest is a prefix of the input that ends with a non-space and keeps every non-space character. |
| Text.Strip | app.py:55 | `strip` leaves no whitespace at either end and never lengthens the text. |
| Text.StripIsSlice | app.py:55 | The input is a run of whitespace, then its `strip()`, then a run of whitespace. With the trimmed ends this fixes the result: it is the part between the leading and the trailing whitespace. |
| Text.Upper | app.py:55 | `upper()` keeps the length and maps each character on its own: `a`-`z` to `A`-`Z`, everything else unchanged. |
| SqlCompat.IsSelectOnLStrip | app.py:55 | The SELECT test holds exactly when the text after its leading whitespace starts with the six letters of SELECT in any case. |
| Text.Lower | app.py:231 | `lower()` (also at line 404) keeps the length and maps each character on its own: ASCII and Latin-1 capitals to their small letters, everything else unchanged. |
| Text.LowerKeepsTrimmed | app.py:404 | Lower-casing keeps a trimmed text trimmed, and lower-casing twice is lower-casing once. |
| Text.ReplaceAll | app.py:49-51 | No contract of its own; also used at app.py line 234 and banking_itau.py line 31. `ReplaceAbsent`, `ReplaceCharRemovesIt`, `DeleteShortens`, `StripPaddingIsUnpadded` and `KeywordCanSurvive` state what it does. |
| Text.ReplaceAbsent | app.py:49-51 | `replace` with a pattern that does not occur returns the text unchanged. |
| Text.ReplaceCharRemovesIt | app.py:49 | Replacing a character by a text without it leaves none of that character. |
| Text.DeleteShortens | app.py:234 | Replacing a word by nothing never lengthens the text, and shortens it whenever the word occurs. |
| Text.ContainsAt | app.py:409 | Python's `w in s` holds exactly when `w` occurs at some index of `s`. |
| Chat.NormalizeIdempotent | app.py:404 | The normalized message has no outer whitespace and is already lower-case. Normalizing it again changes nothing, so the deletion's own `lower()` is a no-op on it. |
| Chat.DispatchRefusesBlank | app.py:403-407 | A message is refused as empty exactly when the `msg` field, absent read as empty, is blank after strip. |
| Chat.Normalize | app.py:404 | No contract of its own. `NormalizeIdempotent` states that the result is trimmed, lower-case and unchanged by a second normalization. |
| Chat.Dispatch | app.py:403-424 | No contract of its own: it routes the normalized message. `DispatchRefusesBlank` states when it refuses; the rows of `RouteOf` state the rest. |
| Chat.RouteOf | app.py:406-424 | No contract of its own. `RouteRefusesEmpty`, `RoutePriority` and `RouteUnrecognized` state the route each message takes. |
| Chat.RouteRefusesEmpty | app.py:406-407 | Only the empty normalized message is refused. |
| Chat.RoutePriority | app.py:409-421 | Each route is taken exactly when the message is non-empty, mentions a word of its group and mentions none of an earlier group, in the order deletion, analysis, expense, income. |
| Chat.RouteUnrecognized | app.py:423-424 | The message is unrecognized exactly when it is non-empty and mentions no word of any of the four groups. |
| Chat.DeletionTarget | app.py:230-234 | No contract of its own. `DeletionTargetShape`, `DeletionTargetKeeps`, `BareKeywordTargetsAll` and `KeywordCanSurvive` state the description it gives. |
| Chat.DeletionTargetShape | app.py:230-234 | The description searched for has no outer whitespace and is no longer than the message. |
| Chat.DeletionTargetKeeps | app.py:230-234 | A message that is trimmed once lower-cased and mentions no deletion word is searched for as it is, lower-cased. |
| Chat.BareKeywordTargetsAll | app.py:230-234 | The message "delete" alone searches for the empty description, whose pattern `%%` matches every row with a non-NULL description. |
| Chat.KeywordCanSurvive | app.py:233-234 | Each keyword is removed in one pass, so a keyword can survive. "exexcluircluir" leaves the description "excluir". |
| Chat.ExcluirCompleta | app.py:157-194 | True exactly when the DELETE returned a row count above zero. False on zero rows and on an error. |
| Chat.ProcessarDelecao | app.py:228-245 | Searches for the message with the five keywords removed in order, stripping after each. Sends the three DELETEs with the pattern `%description%`. Reports success exactly when at least one of them removed rows. |
| Summary.TipFor | app.py:359-366 | Exactly one tip. Negative below 0, low from 0 up to 100, positive from 100 up. |
| Summary.Consultar | app.py:347-379 | Reports spending as expenses plus fixed costs. The balance is income minus that. The other sums are reported as queried. The tip list holds exactly the one tip for the balance. A query error gives the 500 answer. |
| Summary.Analyse | app.py:249-266 | Exactly one of three verdicts, by the sign of income minus expenses and fixed costs. A query error gives the error message. |
| Summary.TipAgreesWithAnalysis | app.py:256-264 | The tip is negative exactly when the verdict is. A balanced account gets the low tip. The positive tip comes only with a positive verdict. |
| Summary.TipMonotone | app.py:359-366 | A larger balance never gets a worse tip. |
| Summary.DebtsDoNotCount | app.py:253-257 | Debts are queried but change neither the balance, the tip nor the analysis. |
| Chart.Set | app.py:443-444 | `d[k] = v` keeps an existing key in its place and appends a new one at the end. |
| Chart.SetGet | app.py:443-444 | After `d[k] = v`, `k` reads `v` and every other key reads what it read before. |
| Chart.SetUnique | app.py:443-444 | Setting a key keeps the keys distinct. |
| Chart.FromPairs | app.py:435-439 | `dict(rows)` has distinct keys. Each key carries the value of its last row. It is empty exactly when there are no rows. |
| Chart.DictFromRows | app.py:435-439 | Building the dictionary row by row gives `dict(rows)`: distinct keys, each with the value of its last row. |
| Chart.GraficoDados | app.py:430-461 | Labels and values are the keys and values of the final dictionary, in its order. A query error gives the single `Erro` slice with status 500. |
| Chart.ChartMap | app.py:435-447 | No contract of its own. `ChartAligned`, `ChartFixedCosts`, `ChartCategories`, `ChartOrder` and `ChartLabels` state the dictionary it gives. |
| Chart.ChartAligned | app.py:451-454 | The chart is never empty and names each label once. Every label has the value at the same index. |
| Chart.ChartFixedCosts | app.py:441-444 | The `Despesas Fixas` slice is the fixed costs exactly when they are positive. Otherwise it is what the query returned under that name. |
| Chart.ChartCategories | app.py:436-447 | Every other category carries the sum of its last row. There are no rows and no positive fixed costs exactly when the chart is the lone `Nenhum gasto` slice of 0 and no row itself gave `Nenhum gasto` the value 0. |
| Chart.SetNew | app.py:443-444 | `d[k] = v` with a new key appends `(k, v)` to the items. |
| Chart.FromPairsOrder | app.py:435-439 | The keys of `dict(rows)` are the rows' keys in the order of their first occurrence. |
| Chart.FromPairsDistinct | app.py:435-439 | Rows with distinct keys give a dictionary whose items are exactly those rows, in order. |
| Chart.ChartOrder | app.py:435-447 | The labels are the categories in the order of their first row, then `Despesas Fixas` when it is positive and not one of them. |
| Chart.ChartLabels | app.py:432-447 | For the GROUP BY rows, whose categories are distinct, the labels are the categories in the order the query returned them, then `Despesas Fixas` when it is positive and new. |

## Left out

- HTTP: `requests.post` and `requests.get` are parameters from request to outcome. The outcome is a response, or `RequestException` for a request that failed. Which requests fail is up to the parameter.
- The JSON body of an API response is kept as text. JSON decoding is not modelled, so neither is the exception `response.json()` raises on a 200 body that is not JSON.
- The token response is reduced to its status and the two fields the client reads. `expires_in` is taken to be a whole number of seconds. A fractional or non-numeric value is not modelled.
- `print` calls are diagnostics and are not modelled.
- SHA-256 is a parameter from string to bytes.
  - The UTF-8 encoding of the verifier is folded into it.
  - It is not checked to return 32 bytes; the 43-character claim is stated for a 32-byte digest.
- `secrets.token_urlsafe` is modelled as the unpadded base64url of the bytes it draws. The bytes are a parameter.
- The clock is a parameter:
  - `now` counts whole seconds;
  - `today` is a date;
  - sub-second resolution is not modelled;
  - the two `datetime.now()` reads in `get_transactions` are taken as the same day.
- `ItauClient.ItauOpenBanking.GetTransactions`: the years of both default dates, today less 30 days as `from_date` and today as `to_date`, are assumed to print with four digits. Years below 1000 may print unpadded, depending on the C library.
- `ItauClient.DefaultFromDate`: the overflow below 0001-01-01 is modelled, but `datetime.now()` never gives such a date in practice.
- `jwt`, `cryptography`, `certificate_path` and `private_key_path` are never used by the client and are not modelled.
- `Text.Lower` maps only ASCII and the Latin-1 capitals. `Text.Upper` maps only ASCII. Other scripts' case mappings are outside the model. They matter for the SELECT test and for keyword matching. They also change the description a deletion searches for: Python lower-cases `Ω` in "delete Ω" and the model keeps it.
- `Text.ReplaceAll` requires a non-empty pattern. The replacements in the source all have one.
- The database is a parameter:
  - connections, DDL, commit and rollback, and the Flask request and JSON plumbing are not modelled;
  - the sums, row counts and category rows are inputs;
  - under PostgreSQL, whether `conn.execute` and `row[0]` work on the driver's objects is outside the model;
  - `/consultar` and the analysis take the outcome of the four sum queries together.
- A NULL `categoria` in `/grafico_dados` is not modelled; categories are strings.
- How the database evaluates `descricao LIKE ?` is not modelled: case-insensitive matching of ASCII letters, `%` and `_` inside the description acting as wildcards, and NULL descriptions never matching. The model fixes the pattern sent, not the rows it selects.
- Amounts are real numbers. Float rounding, `float()` and the `:.2f` formatting are not modelled. The analysis and tip messages are represented by their verdicts, not their wording.
- The `/chat` request body is taken to be a JSON object; a missing `msg` field reads as empty.
- The wording of the chat's hint and fallback replies is represented by the route alone.
- Catch-all exception branches that no modelled input reaches are not modelled. `processar_delecao_simples`'s outer `except` is one of them, because the three deletions catch their own errors.
- `static/script.js` is UI code and is not part of this model.
- The transaction importer and categorizer, and per-bank token persistence, do not appear in the modelled files.

A bare deletion command such as "delete" leaves an empty description. The
pattern `%%` then matches, and deletes, every entry, expense and debt whose
description is not NULL
(`Chat.BareKeywordTargetsAll` states the description, and
`Chat.ProcessarDelecao` the pattern sent).
