# Port monitor backend: parsing `ss` output and serving a page of ports

The backend serves `/api/ports`. It runs `ss -tulpn` and turns the text it
prints into port records. It then filters, sorts and paginates those records
for the caller. This project models both halves in Dafny and proves what they
promise.

- **Parser** (`parse_ss_output`, backend/main.py:88-196).
  - The output is split on `'\n'` and each line is stripped.
  - Blank lines and the `Netid` header are skipped.
  - Each remaining line is tried against two anchored regular expressions:
    - the *attributed* shape, which ends in `users:(("name",pid=N...)`;
    - the *plain* shape, which has only the leading five fields.
  - A record's port comes from its local address.
  - Records are deduplicated on `(port, protocol, pid)`; the first line with a key wins.
  - It is modelled as an imperative method: a loop appends to `ports` and
    adds to a `seen` set, and it is proved equal to a functional
    specification, `Parse`.
- **Query** (the body of `get_ports`, backend/main.py:229-256).
  - A substring search on the port runs only when a non-empty term is given.
  - The sort uses a whitelist of eight fields. `port` sorts numerically, with
    non-digit ports counting as 0. Every other field sorts by text, with
    `None` as `""`. `desc` reverses the comparison, and the sort is stable.
  - Slice pagination returns one page and `total_pages`, which is
    `total / page_size` rounded up.

The owner lookup `get_port_owner` runs `ps`. Here it is a parameter
`owner: string -> Option<string>`. The text `ss` printed is an input string.

Modules:
- `Wrappers`: `Option`.
- `Text`: ASCII character classes, greedy class runs, `str.split`,
  `str.strip`, `str.upper`, `in` on strings, `int()` of a digit string and
  Python's string order.
- `SsLine`: the two line patterns as greedy tokenizers, proved sound and
  complete against the patterns, and the port of a local address.
- `SsParser`: records, the per-line step, deduplication and the parse loop.
- `PortSort`: the field whitelist, sort keys and the stable sort.
- `PortQuery`: search, pagination, the response and the endpoint.

Regular-expression matching is stated without a general regex engine. Most
adjacent pieces of the two patterns use disjoint character classes, so their
captures are forced. Three captures are fixed by greediness instead:
- the remote address at the end of the plain shape, which takes a following `*`;
- the process name `(.*)`, which is the longest that still lets the rest match;
- the pid `(\d+)`, which is followed by `.*` and so could stop early; greedy
  matching makes it the maximal digit run after the chosen `",pid=`.

- Greedy tokenizing with those choices gives exactly the match of `re.match`. The
  `...Sound` and `...Complete` lemmas below prove both directions against a
  declarative description of "a way the pattern can match the line".
- The process name ends at the last `",pid=` that is followed by a digit and,
  after that digit run, by a `)`. The `.*\)` part runs to the last `)`. `.`
  stops at a newline.

The pid-less branch is modelled as the code has it (backend/main.py:169-194):
the record and its deduplication sit in the `else` branch of
`if '[' in local_addr`. So a line that only the plain shape matches, and whose
local address contains `[`, gives no record at all; its port is computed and
then discarded. `SsParser.LineRecordNone` and `SsParser.LinePlain` state this.

## Model

| member | source | states |
|---|---|---|
| Text.Split | backend/main.py:108 | `output.split('\n')`: at least one piece, no piece contains the separator, and joining the pieces with the separator gives back the text |
| Text.SplitJoin | backend/main.py:108 | splitting undoes joining for separator-free pieces |
| Text.SplitSepFree | backend/main.py:108 | a text without the separator splits into itself alone |
| Text.SplitPrefix | backend/main.py:108 | a separator-free head followed by a separator becomes the first piece, and the rest splits on its own |
| Text.SplitAppend | backend/main.py:108 | splitting at one separator gives the pieces before it followed by the pieces after it |
| Text.Strip | backend/main.py:111 | `line.strip()`: never longer than the line, and a non-empty result starts and ends with non-whitespace |
| Text.StripShape | backend/main.py:111 | `line.strip()` removes whitespace, and only whitespace, from both ends, and the result starts and ends with non-whitespace |
| Text.StripTrimmed | backend/main.py:111 | a text with non-whitespace at both ends strips to itself |
| Text.StripEmptyIffBlank | backend/main.py:111-113 | a line strips to the empty string exactly when it is all whitespace, both directions |
| Text.Tokenize | backend/main.py:97-103 | the greedy matcher of a sequence of `k+` class runs that both patterns reduce to: when it succeeds it captures one run per class |
| Text.TokenizeGlues | backend/main.py:97-103 | the runs that greedy matching of a class sequence captures, followed by the remainder, spell out the input |
| Text.TokenizeRuns | backend/main.py:97-103 | each captured run is a non-empty run of its class, and the last run stops where its class ends |
| Text.TokenizeExact | backend/main.py:97-103 | abutting class runs, followed by a remainder that cannot extend the last run, are exactly what greedy tokenizing captures |
| Text.TokenizeComplete | backend/main.py:97-103 | whenever abutting runs exist, tokenizing succeeds; it agrees with them up to the last run, and the last run with the remainder spells the same text |
| Text.Contains | backend/main.py:230 | Python's `in` on strings: a text contains a needle only when it is at least as long as the needle |
| Text.ContainsIff | backend/main.py:230 | `search in port` holds exactly when the term occurs at some index of the port, both directions |
| Text.ContainsEmpty | backend/main.py:230 | the empty string is contained in every port |
| Text.Upper | backend/main.py:121-122 | `.upper()` keeps the length, maps every lower-case ASCII letter to its capital and leaves every other character alone |
| Text.DecimalValue | backend/main.py:237 | `int(port)` of a digit string, below 10^length |
| Text.DecimalValueLowerBound | backend/main.py:237 | `int()` of a digit string without a leading zero is at least 10^(length-1) |
| Text.DecimalValueShorterSmaller | backend/main.py:237 | of two digit strings, the shorter has the smaller `int()` value when the longer has no leading zero |
| Text.LexLe | backend/main.py:241 | Python's `<=` on strings, as the sort compares text keys: a prefix of a string comes before it |
| Text.LexLeTotal | backend/main.py:241 | Python's string `<=` relates every pair of strings one way or the other |
| Text.LexLeTransitive | backend/main.py:241 | Python's string `<=` is transitive |
| Text.LexLeAntisymmetric | backend/main.py:241 | strings that are `<=` each other are equal |
| SsLine.MatchFields | backend/main.py:101-103 | `pattern_no_pid.match(line)`: on success the protocol is the first three characters and there are ten runs after it |
| SsLine.PlainClassesAlternate | backend/main.py:102 | each class of the plain shape shares no character with the class after it, so every run boundary is forced |
| SsLine.MatchFieldsSound | backend/main.py:102 | what `MatchFields` returns is a match of the plain shape with a greedy remote address that glues back into the line |
| SsLine.MatchFieldsLocal | backend/main.py:102 | the captured local address is a non-empty run of `[\d.:%\[\]]` |
| SsLine.MatchFieldsExact | backend/main.py:102 | every match of the plain shape with a greedy remote address is the one `MatchFields` finds |
| SsLine.MatchFieldsComplete | backend/main.py:102 | whenever the plain shape can match a line, `MatchFields` succeeds with the same protocol and the same fields up to the remote address |
| SsLine.CutOfSound | backend/main.py:102 | greedy runs that glue back into the line form a greedy plain match |
| SsLine.LastPidMarker | backend/main.py:97 | where greedy `(.*)` stops: an index below the bound where `",pid=`, a digit and later a `)` follow |
| SsLine.LastPidMarkerIsLast | backend/main.py:97 | greedy `(.*)` stops at or after every index where the rest of the pattern can match |
| SsLine.OwnerCutText | backend/main.py:97 | the process name, pid and tail cut at a marker spell out the text |
| SsLine.OwnerCutShape | backend/main.py:97 | the cut at a marker is a match of `(.*)\",pid=(\d+).*\)` whose pid no further digit could lengthen |
| SsLine.OwnerCutSound | backend/main.py:97 | the cut at a marker is a match that spells out the text, with the greedy pid |
| SsLine.MatchOwner | backend/main.py:97 | the greedy match of `(.*)\",pid=(\d+).*\)`: a result has the owner shape, and its pid is a maximal digit run |
| SsLine.MatchOwnerSound | backend/main.py:97 | whatever the owner matcher returns is a match with the greedy pid that spells out the text |
| SsLine.MatchOwnerComplete | backend/main.py:97 | whenever the owner part can match, the matcher succeeds, with a process name at least as long as the one of any match (greedy `(.*)`) |
| SsLine.OwnerMarker | backend/main.py:97 | in the text of any owner match, the greedy `(.*)` may stop where that match's process name ends |
| SsLine.MatchUsers | backend/main.py:97 | the greedy match of `\s+users:\(\(\"` and the owner part: a result has a whitespace gap and an owner of the owner shape |
| SsLine.MatchUsersSound | backend/main.py:97 | the matched `\s+users:((\"...` clause is whitespace, the literal, and an owner match with the greedy pid that spell out the text |
| SsLine.MatchUsersComplete | backend/main.py:97 | whenever the `users:` clause can match, the matcher succeeds with a process name at least as long |
| SsLine.MatchAttributed | backend/main.py:96-98 | `pattern.match(line)`: its plain captures are those of the plain shape |
| SsLine.MatchAttributedSound | backend/main.py:96-98 | what `MatchAttributed` returns is a match of the attributed shape with the greedy pid that glues back into the line |
| SsLine.MatchAttributedComplete | backend/main.py:96-98 | whenever the attributed shape can match a line, the matcher succeeds with the same plain captures and the longest process name any match allows |
| SsLine.ColonPortIsTrailingDigits | backend/main.py:131 | a `:(\d+)$` ending is the whole trailing digit run, so at most one exists |
| SsLine.ColonDigitsPort | backend/main.py:129-135 | the port is the digits of a `:(\d+)$` ending; the fallback `"0"` is taken exactly when no such ending exists (the same code repeats at backend/main.py:170-174) |
| SsLine.LastColonField | backend/main.py:136-138 | `split(':')[-1]`: a `:`-free suffix of the address, preceded by `:` unless it is the whole address (repeated at backend/main.py:177) |
| SsLine.ExtractPort | backend/main.py:129-138 | with a `[`, the colon-digits ending or `"0"` when there is none; otherwise the text after the last `:`, or the whole address (repeated at backend/main.py:169-177) |
| SsLine.ExtractPortBracketed | backend/main.py:129-135 | `[::]:80` gives port `80` |
| SsLine.ExtractPortBracketedNoPort | backend/main.py:129-135 | `[::1]` gives port `"0"` |
| SsLine.ExtractPortPlain | backend/main.py:136-138 | `0.0.0.0:22` gives port `22` |
| SsParser.AttributedRecord | backend/main.py:119-152 | the record of an attributed match carries an all-digit pid, a process name and `owner(pid)`, and its addresses are the plain shape's captures |
| SsParser.PlainRecord | backend/main.py:161-189 | the record of a plain match has no pid, process or user, and its addresses are the plain shape's captures |
| SsParser.LineRecord | backend/main.py:111-194 | a line gives a record only when it is not blank and the plain shape matches it, and the record has a pid exactly when the attributed shape matches |
| SsParser.LineAttributed | backend/main.py:119-152 | for any way the attributed pattern can match the stripped line, the line gives a record whose protocol and state are those captures upper-cased, whose addresses are the captured ones, whose port comes from the local address, and whose pid, process name and `owner(pid)` come from a match of the `users:` clause with the longest process name and a maximal pid digit run |
| SsParser.LinePlain | backend/main.py:159-189 | for a line that the attributed pattern cannot match and the plain pattern matches greedily, the record holds the plain captures (protocol and state upper-cased, the port of the local address) with no pid, process or user; there is no record exactly when the captured local address contains `[` |
| SsParser.UpperFields | backend/main.py:121-122 | the upper-cased protocol is `TCP` or `UDP`, and the upper-cased state is non-empty with no lower-case letter (repeated at backend/main.py:163-164) |
| SsParser.AttributedRecordWellFormed | backend/main.py:119-152 | an attributed record is well formed: protocol, status, addresses, port from the local address, an all-digit pid, the process name and the owner of that pid |
| SsParser.PlainRecordWellFormed | backend/main.py:161-189 | a pid-less record is well formed for every owner lookup, and its local address has no `[` |
| SsParser.LineRecordWellFormed | backend/main.py:111-194 | every record one line gives is well formed |
| SsParser.LineRecordNone | backend/main.py:110-194 | a line gives no record exactly when it is blank, starts with `Netid` after stripping, matches neither shape, or matches only the plain shape with a `[` in its local address |
| SsParser.CollectAppend | backend/main.py:110 | the records of two runs of lines are the records of the first run followed by those of the second |
| SsParser.Dedup | backend/main.py:155-158 | deduplication leaves no two records with one key, keeps every key of its input, and keeps only input records (the pid-less key at backend/main.py:191-194 too) |
| SsParser.DedupIsFirsts | backend/main.py:155-158 | deduplication keeps exactly the first record of every key, in input order: the first line wins (the pid-less key at backend/main.py:191-194 too) |
| SsParser.Parse | backend/main.py:88-196 | the parse result has no two records with the same `(port, protocol, pid)` key |
| SsParser.ParseSsOutput | backend/main.py:88-196 | the loop over the lines with the `seen` set returns `Parse(output, owner)`; its invariants keep `seen` equal to the keys of `ports` |
| SsParser.CollectWellFormed | backend/main.py:110-194 | every record collected from any lines is well formed |
| SsParser.ParseWellFormed | backend/main.py:88-196 | no two parsed records share `(port, protocol, pid)`, and every parsed record is well formed |
| SsParser.SkippedLineIgnored | backend/main.py:110-117 | a line that gives no record can be removed from the output without changing the result: parsing goes on with the next line |
| SsParser.DropSkipped | backend/main.py:110-117 | dropping a line that gives no record leaves the collected records alone |
| PortSort.FieldNamed | backend/main.py:233-234 | the whitelist lookup: a field it returns has the given name |
| PortSort.FieldNamedRoundTrip | backend/main.py:233 | each of the eight field names passes the whitelist and gives back its field |
| PortSort.FieldNamedIff | backend/main.py:233-234 | a name passes the whitelist exactly when it is one of the eight field names, both directions |
| PortSort.PortNumber | backend/main.py:237 | the numeric port key is 0 for an empty or non-digit port |
| PortSort.SortKeyOf | backend/main.py:235-242 | the key is a number exactly when the field is `port`, and a port key is non-zero only for a non-empty all-digit port |
| PortSort.KeyLeTotal | backend/main.py:234-242 | any two sort keys are ordered one way or the other |
| PortSort.KeyLeTransitive | backend/main.py:234-242 | the key order is transitive |
| PortSort.KeyLeAntisymmetric | backend/main.py:234-242 | keys ordered both ways are equal |
| PortSort.Before | backend/main.py:237-242 | the order `sort(key=..., reverse=...)` puts records in: by `port`, integer value (0 for a non-digit port), and by any other field, the text with `None` as `""`, each reversed for `desc` |
| PortSort.BeforeTotal | backend/main.py:237-242 | under either direction, of any two records one may stay before the other |
| PortSort.BeforeTransitive | backend/main.py:237-242 | the record order under either direction is transitive |
| PortSort.BeforeBothWays | backend/main.py:237-242 | records that may each stay before the other have equal keys |
| PortSort.BeforeSameKey | backend/main.py:237-242 | records of equal key may stay in either order |
| PortSort.Insert | backend/main.py:237-241 | inserting a record adds exactly that record: one more element and the multiset grows by it |
| PortSort.InsertMember | backend/main.py:237-241 | every record after an insertion is the inserted one or an old one |
| PortSort.AppendSorted | backend/main.py:237-241 | appending a record that may follow the last keeps a sorted list sorted |
| PortSort.SnocSorted | backend/main.py:237-241 | appending a record every element may precede keeps a list sorted |
| PortSort.InsertSorted | backend/main.py:237-241 | insertion keeps a sorted list sorted |
| PortSort.InsertKeyFilter | backend/main.py:237-241 | insertion adds the record at the end of the records with its key, and leaves the order of every key's records alone |
| PortSort.InsertPastKeyFilter | backend/main.py:237-241 | moving the record past a larger last element keeps the records of every key in order |
| PortSort.SortBy | backend/main.py:237-241 | the sort keeps the length |
| PortSort.SortBySorted | backend/main.py:234-242 | the sorted list is ordered by the field's key, ascending or, for `desc`, descending |
| PortSort.SortByPermutation | backend/main.py:234-242 | the sort neither loses nor invents records: the output is a permutation of the input |
| PortSort.SortByStable | backend/main.py:234-242 | the sort is stable under both directions: records of equal key keep their input order |
| PortSort.SortedLastMax | backend/main.py:234-242 | every record of a sorted list may stay before its last record |
| PortSort.SameLast | backend/main.py:234-242 | two sorted lists with the same records and the same order within every key end in the same record |
| PortSort.SameLastOfKey | backend/main.py:234-242 | lists ending in records of one key, with the same records of that key in the same order, end in the same record |
| PortSort.DropLastAgrees | backend/main.py:234-242 | dropping the common last record keeps both lists sorted, equal as multisets and equal within every key |
| PortSort.MultisetDropLast | backend/main.py:234-242 | lists with equal multisets and the same last record have equal multisets without it |
| PortSort.KeyFiltersDropLast | backend/main.py:234-242 | lists equal within every key after appending one record are equal within every key before it |
| PortSort.SortedUnique | backend/main.py:234-242 | a sorted list is fixed by its multiset and the order of each key's records: two such lists are equal |
| PortSort.SortByIsTheStableSort | backend/main.py:234-242 | any sorted permutation of the input that keeps equal-key records in input order is exactly the sort's output, so the stable sort's result is determined |
| PortSort.SortByPortNumeric | backend/main.py:235-238 | by `port`, ports come out ordered by integer value, non-digit ports as 0, reversed for `desc` |
| PortSort.SortByPortShorterFirst | backend/main.py:237-238 | sorting ascending by `port`, a digit port without a leading zero is never followed by a digit port with fewer digits: numeric order, not text order |
| PortSort.NineBeforeTen | backend/main.py:237 | the `port` key puts `"9"` before `"10"`, which text order does not |
| PortSort.SortByText | backend/main.py:239-242 | by any other field, records come out ordered by the field's text, `None` as `""`, reversed for `desc` |
| PortSort.SortRecords | backend/main.py:233-242 | a field name outside the whitelist leaves the list unchanged |
| PortSort.SortRecordsPermutation | backend/main.py:233-242 | whatever the field name, the sort step is a permutation of its input |
| PortQuery.Hit | backend/main.py:230 | a record is kept, alone, exactly when its port contains the term |
| PortQuery.SearchFilter | backend/main.py:230 | the filtered list is no longer than its input |
| PortQuery.SearchFilterAppend | backend/main.py:230 | filtering a concatenation filters each part in turn, so kept records stay in their order |
| PortQuery.SearchFilterMembers | backend/main.py:230 | a record is kept exactly when it is in the input and its port contains the term, both directions |
| PortQuery.SearchFilterKeepsAll | backend/main.py:230 | when every port contains the term, the filter returns the list unchanged |
| PortQuery.SearchEmptyTerm | backend/main.py:230 | filtering by the empty term returns the list unchanged |
| PortQuery.ApplySearch | backend/main.py:229-230 | an absent search leaves the list unchanged |
| PortQuery.ApplySearchGiven | backend/main.py:229-230 | skipping the filter for an empty term is the same as filtering by it |
| PortQuery.ApplySearchMembers | backend/main.py:229-230 | after the search step a record is there exactly when it was in the input and its port contains the term, if one was given |
| PortQuery.Paginate | backend/main.py:245-248 | a page holds at most `page_size` records |
| PortQuery.PaginateRecords | backend/main.py:245-248 | the page is `list[(page-1)*page_size : min(len, page*page_size)]`, and empty when the start is past the end |
| PortQuery.TotalPages | backend/main.py:256 | there are no pages exactly when there are no records, and never more pages than records |
| PortQuery.TotalPagesIsCeiling | backend/main.py:256 | `(total + page_size - 1) // page_size` pages hold every record, and one page fewer would not |
| PortQuery.PageOfIndex | backend/main.py:245-256 | every record is on page `i // page_size + 1` at position `i % page_size`, and that page is no later than `total_pages` |
| PortQuery.PagesBeyondLast | backend/main.py:245-256 | pages after `total_pages` are empty |
| PortQuery.PagesBeforeLastFull | backend/main.py:245-256 | pages before the last hold exactly `page_size` records |
| PortQuery.Query | backend/main.py:229-256 | the response holds at most `page_size` records and echoes `page` and `page_size` |
| PortQuery.QueryTotal | backend/main.py:229-256 | `total` is the number of records left after the search, and `total_pages` is the least page count that holds them |
| PortQuery.QueryMatches | backend/main.py:229-256 | every record on the page was parsed and matches the search |
| PortQuery.QuerySorted | backend/main.py:233-248 | with a whitelisted field, the page is in that field's order and direction |
| PortQuery.SliceSorted | backend/main.py:245-248 | a slice of a sorted list is sorted |
| PortQuery.QueryUnsorted | backend/main.py:233-248 | with any other field, the page is cut from the searched records in parsed order |
| PortQuery.QueryPorts | backend/main.py:229-256 | the search, sort and pagination statements compute `Query` over the parsed records |
| PortQuery.GetPorts | backend/main.py:199-256 | the endpoint over the text `ss` printed returns `Query(Parse(text, owner), ...)` |

## Left out

- Process I/O is not modelled. The `ss`, `nsenter` and `ps` subprocess calls (backend/main.py:71-81, 212-223) are outside the model. The text `ss` printed is the input string.
- `is_running_in_docker` (backend/main.py:14-20) is not modelled. It chooses whether `ss` and `ps` are started directly or through `nsenter` (backend/main.py:69, 209), and which frontend directory is served (backend/main.py:38). None of that changes how the output is read.
- `get_port_owner` (backend/main.py:65-86) is the parameter `owner`, any function from a pid to an optional user name. Its `ps` call and its exception handling are not modelled.
- The FastAPI app, CORS, static files, `serve_frontend`, the `PortInfo` model and the uvicorn entry point are web plumbing and are not modelled.
- The `HTTPException` wrapper (backend/main.py:258-259) is not modelled. The exceptions it turns into HTTP 500 come from the subprocess calls, which are outside the model, and from the `int()` limit described under PortSort.PortNumber below.
- FastAPI's parameter validation (backend/main.py:200-203) is not modelled. Its outcome is the precondition `ValidQuery`: `page >= 1`, `1 <= page_size <= 100`, and `sort_direction` either `asc` or `desc`.
- Unicode is not modelled; the model covers ASCII only:
  - `\s`, `\w` and `\d` are their ASCII members;
  - `str.isdigit` and `int` accept ASCII digits only;
  - `str.upper` changes only `a`-`z`.
  - Non-ASCII digits, letters and whitespace, which Python would also accept, are not covered.
- Python's general regex engine is not modelled. Only the two fixed patterns and `:(\d+)$` are, each proved equivalent to its greedy match.
- PortSort.PortNumber: CPython's default limit on integer string conversion (4300 digits) is not modelled. For an all-digit port longer than that, `int()` at backend/main.py:237 raises `ValueError`, and when sorting by `port` (the default) `get_ports` answers HTTP 500 (backend/main.py:258-259). The model instead gives such a port its decimal value and returns a page.
- PortSort.SortBy: the in-place `list.sort` is a function that returns a new sorted list, so aliasing of `ports_info` is not modelled. The sort is modelled as a stable insertion sort rather than Timsort. It is proved sorted, a permutation and stable, and those three properties are proved to single out its output, so any stable sort gives the same list.
