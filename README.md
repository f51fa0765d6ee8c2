# VaultPrivacy, modelled in Dafny

VaultPrivacy reads a Bitwarden vault export and works out which web services
it holds logins for. It then looks up each service's privacy grade
(A to E, or Unknown) on ToS;DR, the "Terms of Service; Didn't Read" site, and
writes a CSV report, a Markdown report and a summary. This project models the
logic at the core of that run and proves what it guarantees.

- **Domain normalisation and extraction** (`Parser`). `normalize_domain`
  trims and lowercases the text and rejects e-mail addresses. It then takes the
  URL's host, strips one `www.` or `m.` and collapses the host to its root
  domain using the `MULTIPART_TLDS` table. `extract_domains` walks every URI of
  every item of a decoded export and keeps each non-empty normalised domain the
  first time it appears.
- **Rating lookup** (`ApiClient`). `_best_match` chooses a service from a
  search response. `lookup_tosdr` is the class `RatingClient`: its state is the
  cache file, the log of search requests, the number of cache writes and the
  time slept. The network answer is a parameter.
- **Reports** (`Reporting`). This covers the CSV rows, the found and unknown
  counts, `grade_counts` and its rank order, and the list of services graded D
  or E with its sort. It also covers the complete list, sorted by grade rank
  and then name, and the two errors the Markdown report can raise.
- **The run** (`Analysis`, for `main.py`). The steps are: re-normalise and
  de-duplicate the extracted domains; one lookup per domain; the reports; the
  summary; and the early exit for an export without domains. The
  Public-Suffix-List normaliser (`domain_normalizer.normalize`) and the network
  are function parameters.

Shared pieces:
- `Strings`: Python's `strip`, `lower`, `in`, `split(".")`, `".".join`,
  `int(text)` and `str(n)`.
- `Distinct`: first-seen de-duplication, which both de-duplicating loops use.
- `Sorting`: Python's stable sort by an integer rank or a `(rank, name)` tuple.
- `Wrappers`: `Option` and `Result`.

Host extraction is a modelling assumption (`Parser.Hostname`).
`urllib.parse.urlparse(url).hostname` is replaced by a simplified reading of
the authority grammar in section 3.2 of RFC 3986:
- the authority is the text after the first `://`, up to the first `/`, `?`
  or `#`;
- the user information is dropped up to the last `@` (section 3.2.1);
- the port is dropped from the first `:` (section 3.2.3);
- the rest is lowercased.

Where the code and its documentation disagree, the model follows the code:
- `extract_domains` de-duplicates on the normalised value, not on the raw URI.
- `lookup_tosdr` reloads the cache file on every call, so one run sees the
  records earlier lookups saved.
- `lookup_tosdr` can raise. `int(...)` on a non-numeric id string raises
  `ValueError`, and `.get` on a truthy service that is not a dict raises
  `AttributeError`. Both escape, and `main` turns them into exit status 1.
- A CSV record without a `grade` key is written with grade `Unknown` but with
  status `Found`.
- Re-normalising is not always idempotent. It fails when the result starts
  with a `www` or `m` label, and, as host extraction is modelled here, when
  the host has white space at either end.

## Model

| member | source | states |
|---|---|---|
| Parser.TableEntriesHaveTwoLabels | vaultprivacy/parser.py:6 | every entry of `MULTIPART_TLDS` splits into exactly two labels |
| Parser.ThreeLabelsNotInTable | vaultprivacy/parser.py:34-40 | three dot-free labels never join to a table entry, so the four-label branch cannot be taken |
| Parser.Hostname | vaultprivacy/parser.py:20-22 | the host never contains upper case, `:`, `/`, `?`, `#` or `@`; a URL without `://` has no host |
| Parser.HostnameOfHost | vaultprivacy/parser.py:18-22 | `https://` followed by such a host has exactly that host as its hostname |
| Parser.HostnameWithUserAndPort | vaultprivacy/parser.py:20-22 | in `https://user@host:port` followed by a path, query or fragment, the hostname is `host`: the user information and the port are dropped |
| Parser.HostnameUserInfoPort | vaultprivacy/parser.py:20-22 | `https://u@h.com:80/x` has the hostname `h.com` |
| Parser.StripPrefix | vaultprivacy/parser.py:27 | the stripped host is a suffix of the host, and is either the host itself or the host less one leading `www.`, or less one leading `m.` when it does not start with `www.`; it is the host itself exactly when the host starts with neither |
| Parser.OnePrefixOnly | vaultprivacy/parser.py:27 | only one prefix goes: `www.m.example.com` keeps `m.example.com` |
| Parser.RootDomainShape | vaultprivacy/parser.py:29-42 | fewer than two labels: the host itself; three or more with the last two in the table: the last three; otherwise the last two; the result is a suffix of the host with 1 to 3 labels |
| Parser.RootDomainIdempotent | vaultprivacy/parser.py:29-42 | collapsing a collapsed host changes nothing |
| Parser.NormalizeDomain | vaultprivacy/parser.py:8-42 | empty input gives `""`; a trimmed, lowered input with `@` and no `://` gives `""`; every result is lower case, free of authority delimiters, and has 1, 2 or 3 labels |
| Parser.NormalizeIdempotent | vaultprivacy/parser.py:8-42 | re-normalising a result returns it, provided the result has no white space at either end and no leading `www.`/`m.` |
| Parser.IdempotenceCounterexampleWww | vaultprivacy/parser.py:27-42 | without that proviso idempotence fails: `www.www.com` gives `www.com`, which gives `com` |
| Parser.IdempotenceCounterexampleSpace | vaultprivacy/parser.py:11-22 | idempotence also fails for `https:// a.com`, which gives ` a.com`, which gives `a.com` |
| Parser.NormalizeBareHost | vaultprivacy/parser.py:11-42 | a trimmed, lower-case bare host normalises to the root of the host with its prefix stripped |
| Parser.NormalizeTrimmedHost | vaultprivacy/parser.py:11-42 | an input that trims to a bare lower-case host normalises to the root of that host with its prefix stripped |
| Parser.NormalizeUrlHost | vaultprivacy/parser.py:11-42 | a trimmed, lower-case URL whose authority is a bare host normalises to the root of that host with its prefix stripped |
| Parser.NormalizeEmail | vaultprivacy/parser.py:13-15 | `user@example.com` normalises to `""` |
| Parser.NormalizeExampleCom | vaultprivacy/parser.py:8-42 | `https://example.com` normalises to `example.com` |
| Parser.NormalizeTestOrg | vaultprivacy/parser.py:8-42 | `https://test.org` normalises to `test.org` |
| Parser.NormalizeUrlWithPath | vaultprivacy/parser.py:17-42 | `https://www.example.com/path` normalises to `example.com` |
| Parser.NormalizeMobileHost | vaultprivacy/parser.py:17-42 | `m.test.org` normalises to `test.org` |
| Parser.NormalizeWwwM | vaultprivacy/parser.py:27-38 | `www.m.co.uk` normalises to `m.co.uk`: once `www.` is stripped, `m` counts as the label before `co.uk` |
| Parser.NormalizeMultipartHost | vaultprivacy/parser.py:33-38 | `sub.example.co.uk` normalises to `example.co.uk` |
| Parser.NormalizeWwwWww | vaultprivacy/parser.py:27-42 | `www.www.com` normalises to `www.com` |
| Parser.NormalizeWww | vaultprivacy/parser.py:27-31 | `www.com` normalises to `com` |
| Parser.NormalizeSpacedUrl | vaultprivacy/parser.py:11-42 | `https:// a.com` normalises to ` a.com` |
| Parser.NormalizeSpacedHost | vaultprivacy/parser.py:11-42 | ` a.com` normalises to `a.com` |
| Parser.NormalizedUris | vaultprivacy/parser.py:54-56 | one normalised value per URI entry, in order; a missing `uri` is read as `""` |
| Parser.CollectUris | vaultprivacy/parser.py:54-59 | the inner loop extends the kept list with the first occurrence of each new non-empty value; `seen` holds exactly the kept values |
| Parser.CollectDomains | vaultprivacy/parser.py:46-60 | the nested loops return the distinct non-empty normalised values of all URIs, in first-seen order |
| Parser.ExtractDomains | vaultprivacy/parser.py:44-60 | `extract_domains` on a decoded export returns `Extracted(vault)` |
| Parser.CandidatesMembership | vaultprivacy/parser.py:49-56 | a value is a candidate exactly when some URI of some item normalises to it |
| Parser.ExtractedContents | vaultprivacy/parser.py:47-60 | the result has no duplicates and no `""`, and holds exactly the non-empty normalised values of the export's URIs |
| Parser.ExtractedOrder | vaultprivacy/parser.py:57-59 | the result lists the domains in the order in which each was first produced |
| Parser.ExtractedEmpty | tests/test_parser.py:43-57 | an export without items gives no domains |
| Parser.ExtractedSample | tests/test_parser.py:12-37 | the two-URI sample gives `example.com`, then `test.org` |
| Strings.Strip | vaultprivacy/parser.py:11 | the stripped text neither starts nor ends with white space, and is a contiguous part of the input with only white space before and after it |
| Strings.StripFixed | vaultprivacy/parser.py:11 | stripping changes nothing exactly when there is no white space at either end |
| Strings.LowerSpec | vaultprivacy/parser.py:11 | the lowered text has no upper-case letter; lowering changes nothing exactly when there is none |
| Strings.Split | vaultprivacy/parser.py:29 | there is at least one label and no label contains a dot |
| Strings.JoinSplit | vaultprivacy/parser.py:29-42 | joining the labels with dots gives back the host |
| Strings.SplitJoin | vaultprivacy/parser.py:29-42 | splitting a join of dot-free labels gives back the labels |
| Strings.IntTextRoundTrip | vaultprivacy/reporting.py:44 | `int(str(n)) == n` for every integer of at most 4,300 digits |
| Strings.ParseIntDigitLimit | vaultprivacy/api_client.py:75-77 | `int` raises for a run of more than 4,300 digits |
| Strings.ParseIntAfterSpace | vaultprivacy/api_client.py:75-77 | `int` skips white space (space, `\t`-`\r` and the non-ASCII spaces) before a digit |
| Strings.ParseIntAfterOther | vaultprivacy/api_client.py:75-77 | any other character that is not a digit or a sign, U+001C-U+001F included, before a digit makes `int` raise |
| Strings.ParseIntSpaces | vaultprivacy/api_client.py:75-77 | `int(" 5")` and `int("\xa05")` give 5; `int("\x1c5")` raises |
| ApiClient.FirstMatch | vaultprivacy/api_client.py:38-42 | the index found is the first, from `from` on, of a dict service with a URL containing the domain; no index means there is no such service |
| ApiClient.BestMatchNone | vaultprivacy/api_client.py:30-35 | no service is chosen exactly when there are no `parameters` or no `services` |
| ApiClient.BestMatchChoice | vaultprivacy/api_client.py:37-46 | the choice is one of the services: the earliest matching one if any matches, else `services[0]` |
| ApiClient.GradeOf | vaultprivacy/api_client.py:69-79 | the grade is one of A-E or Unknown; a letter in `ABCDE` is kept, anything else (or no letter) becomes Unknown |
| ApiClient.ConvertId | vaultprivacy/api_client.py:75-77 | a falsy id is kept; a numeric id string becomes its integer; the conversion fails exactly for a non-empty string that `int` rejects, one of more than 4,300 digits included |
| ApiClient.ConvertIdText | vaultprivacy/api_client.py:75-77 | the decimal text of an integer of at most 4,300 digits converts back to that integer |
| ApiClient.ConvertIdTooLong | vaultprivacy/api_client.py:75-77 | an id string of more than 4,300 digits makes the conversion fail with that id |
| ApiClient.FetchRecord | vaultprivacy/api_client.py:59-83 | a record's grade is always one of the six; a failed request, no chosen service, or a chosen service that is `{}` or another falsy value gives `{Unknown, None, domain}` |
| ApiClient.FetchRecordError | vaultprivacy/api_client.py:65-77 | an exception escapes exactly when the chosen service is truthy but not a dict, or has an id string that `int` rejects, one of more than 4,300 digits included |
| ApiClient.FetchRecordFromObject | vaultprivacy/api_client.py:66-81 | whenever the lookup succeeds, a dict service gives its id as converted by `int(...)` (a falsy id kept), its `name` or else the domain, and its letter when in `ABCDE`, else Unknown |
| ApiClient.RatingClient.constructor | vaultprivacy/api_client.py:15-21 | a client starts from a given cache file, with no requests, saves or sleeps |
| ApiClient.RatingClient.Lookup | vaultprivacy/api_client.py:50-89 | a hit returns the cached record and changes nothing. A miss sends one search and returns what the response gives. Unless an exception escapes, the miss stores the record under the domain, keeps every other entry, writes the whole cache once and sleeps 300 ms once; after every successful call the cache, as the next `_load_cache` reads it, holds the returned record under the domain and exactly the old domains besides, with their old records. A valid cache file stays valid |
| ApiClient.RatingClient.LookupTwice | vaultprivacy/api_client.py:55-87 | once a lookup has produced a record, Unknown included, a second lookup of that domain returns the same record, and the pair of lookups requests the domain at most once: not at all when it was already cached |
| Reporting.IdCell | vaultprivacy/reporting.py:44 | an integer id of at most 4,300 digits is written as text that `int` reads back to it; a string id as itself; a missing or null id as empty |
| Reporting.Row | vaultprivacy/reporting.py:40-46 | status is `Found` exactly when the grade is not `Unknown`; the grade column is the grade; the domain column is `domain` or else empty; the service column is `name`, else the domain column; the id column is the id's cell |
| Reporting.RowWithoutGrade | vaultprivacy/reporting.py:43-45 | a record without a grade gets grade `Unknown` and yet status `Found` |
| Reporting.CsvRows | vaultprivacy/reporting.py:38-46 | one row per record, in input order, each the row of its record |
| Reporting.FoundCount | vaultprivacy/reporting.py:73 | at most one found service per record |
| Reporting.FoundPlusUnknown | vaultprivacy/reporting.py:72-74 | found plus the records graded `Unknown` is the total |
| Reporting.Tally | vaultprivacy/reporting.py:77-80 | `grade_counts` has a key exactly for each grade that occurs |
| Reporting.TallyCounts | vaultprivacy/reporting.py:77-80 | each key holds the number of records with that grade |
| Reporting.CountGrades | vaultprivacy/reporting.py:77-80 | the loop's dict and its insertion order are the tally of the grades and their first-seen order |
| Reporting.GradeCountsCorrect | vaultprivacy/reporting.py:77-80 | `grade_counts.items()` covers every record's grade, each count is that grade's multiplicity, and the counts sum to the number of records |
| Reporting.Rank | vaultprivacy/reporting.py:83-84 | the rank of one of the six grades is its index in `grade_order`; any other grade ranks 999 |
| Reporting.SortedGradesOrder | vaultprivacy/reporting.py:83-84 | `sorted_grades` is a permutation of the items, ordered by rank, stable within a rank |
| Reporting.Risky | vaultprivacy/reporting.py:149 | the risky list holds exactly the records graded D or E |
| Reporting.RiskyCounts | vaultprivacy/reporting.py:149 | each record graded D or E occurs in the risky list as often as in the input, and no other record occurs |
| Reporting.OfGrade | vaultprivacy/reporting.py:149 | the records of one grade, exactly |
| Reporting.OfGradeCounts | vaultprivacy/reporting.py:149 | each record of the grade occurs as often as in the input, and no other record occurs |
| Reporting.SortedRiskyOrder | vaultprivacy/reporting.py:149-156 | after its sort the risky list is every E record in input order, then every D record in input order |
| Reporting.FirstUnranked | vaultprivacy/reporting.py:169 | no grade is reported exactly when every grade is one of the six; otherwise the one reported is the first that is not |
| Reporting.CompleteListCorrect | vaultprivacy/reporting.py:169 | the complete list fails exactly when a grade is outside the six; otherwise it is a permutation ordered by (rank, name), stable for equal keys |
| Reporting.MarkdownReport | vaultprivacy/reporting.py:52-175 | found plus unknown is the total, which is the number of records; unknown counts the records graded `Unknown`; no records is an error |
| Reporting.MarkdownReportError | vaultprivacy/reporting.py:118-169 | the report fails exactly for no records or a grade outside the six |
| Analysis.Normalized | vaultprivacy/main.py:92-93 | one `normalize(domain)` per extracted domain, in order |
| Analysis.NormalizeAll | vaultprivacy/main.py:91-95 | the loop keeps the first occurrence of each non-empty normalised domain |
| Analysis.NormalizedDomainsCorrect | vaultprivacy/main.py:91-95 | the kept domains are distinct and non-empty, are exactly the non-empty normalised values, and come in first-seen order |
| Analysis.NormalizedNonEmpty | vaultprivacy/main.py:91-95 | with a normaliser that maps non-empty input to non-empty output (as domain_normalizer.py:5-12 does), non-empty domains keep at least one |
| Analysis.Uncached | vaultprivacy/main.py:104-107 | the domains of the list that the cache does not hold, exactly |
| Analysis.UncachedCounts | vaultprivacy/main.py:104-107 | each domain the cache lacks occurs as often as in the list, and no cached domain occurs |
| Analysis.LookupAll | vaultprivacy/main.py:104-109 | one result per domain, in order; result `i` is the record now cached for domain `i`, tagged with that domain. Exactly the uncached domains are requested, in order. A valid cache stays valid, and every grade is then one of the six |
| Analysis.DistributionTotal | vaultprivacy/main.py:143-157 | when every grade is one of the six, the printed distribution counts every result once |
| Analysis.Summarize | vaultprivacy/main.py:138-160 | total, found and unknown counts agree; unknown counts the `Unknown` grades; the distribution follows the fixed grade order; the risky list is exactly the D and E results, in order |
| Analysis.WriteReports | vaultprivacy/main.py:120-160 | the CSV unless markdown-only, the report unless CSV-only, then the summary: total, found plus unknown equal to the total, the `Unknown` count, the distribution in the fixed grade order and the D/E results in result order; it fails exactly when the Markdown report raises |
| Analysis.LookupAndReport | vaultprivacy/main.py:102-160 | one result per domain, tagged with it, and the reports that result gives; with a valid cache and at least one domain the report cannot fail |
| Analysis.Analyze | vaultprivacy/main.py:79-160 | no domains ends the run (status 1) before any lookup and exactly then; otherwise the reports are those of the re-normalised domains; with a normaliser that keeps non-empty input and a valid cache the report cannot fail |

## Left out

- Reading and decoding JSON (`api_client.py:15-24`, `parser.py:45`) is left out: the export, the search response and the cache file are given as decoded, typed values.
- Ill-typed JSON is left out: a `login` or URI entry that is not a dict, a `parameters` that is not a dict, a non-string `name` or `letter`, and a float or boolean `id`.
- The `requests.get` call, its timeout and the real `time.sleep` are left out: a `Response` value is passed in and the pause is a counter in milliseconds.
- `domain_normalizer.normalize` is left out: it calls `tldextract` and the Public Suffix List, which are not visible. `Analysis` takes it as a function parameter and assumes at most that it keeps non-empty input non-empty.
- Parser.Hostname: follows the simplified authority grammar given above, not the standard library. IPv6 brackets and percent-encoding are not modelled. Nor is the scheme rule: Python takes a scheme only when the text before the first `:` is an ASCII letter followed by letters, digits, `+`, `-` or `.`, and then has an authority only when `//` follows that `:`; without such a scheme it has an authority only when the URL itself starts with `//`. The model instead takes the authority after the first `://`, so `://example.com`, `user@https://a.com`, `a b://x.com` and `1x://a.com` have no host in Python but the hosts `example.com`, `a.com`, `x.com` and `a.com` here. Nor is the deletion of tab, CR and LF anywhere in the URL (`https://exa\tmple.com` has the host `example.com` in Python but keeps the tab here), nor the `ValueError` raised for a non-ASCII authority whose NFKC normalisation contains a delimiter.
- Strings.Lower: lowercases ASCII letters only; Python's `lower()` also folds non-ASCII letters.
- Strings.ParseInt: accepts ASCII digits only; Python's `int` also reads other Unicode decimal digits. The 4,300-digit limit (`Strings.MaxStrDigits`) is CPython's default; a changed `sys.set_int_max_str_digits` setting is not modelled.
- Strings.IntTextRoundTrip, ApiClient.ConvertIdText: hold only for integers of at most 4,300 digits, because beyond that `str(n)` raises `ValueError` and there is no text to read back.
- Reporting.IdCell: states the read-back only for integer ids of at most 4,300 digits; for a longer one `str(service_id)` raises in Python, while the model still writes the digits. Such an id cannot come from the JSON decoder, which raises on integer literals that long, and decoding is left out.
- Percentages and `:.1f` formatting (`reporting.py:118-119, 143-144`) are floating point, so they are left out.
- The wording of the Markdown and CSV files, the "Key Findings" lines (`reporting.py:126-133`) and all printed text are left out, since they are presentation.
- Timestamps and generated file names (`reporting.py:26-28, 63-65, 88`) and the output directory of `main.py` are left out: they depend on the clock and the file system.
- Argument parsing, file-existence checks and the `KeyboardInterrupt` handler of `main.py` (lines 18-71, 176-178) are left out; the generic handler (lines 179-184) appears only as the failing outcomes of `Analysis.Analyze`.
- Analysis.WriteReports: when the Markdown report raises, the CSV file written just before it is not part of the failing outcome.
- Reporting.SortedRisky: `risky_services.sort` sorts a list in place; it is modelled on values, as the sorted sequence.
- `main.py:108` sets `result['domain']` after the lookup; this is modelled by tagging the returned record (`Analysis.EntryOf`). Aliasing with the cache has no effect, because every lookup reloads the cache file.
