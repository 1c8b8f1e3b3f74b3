# ai-crm customer query, in Dafny

This project models the two pieces of logic in the ai-crm back end that behave like library code:

- The `/customers` query (`filter_customers` and `get_customers` in api/routers/customers.py). It takes a fixed roster of twenty customer records. It applies up to six exact-match and range filters and a case-insensitive name search, one after the other. It then optionally sorts the result, stably, on a named record field.
- The scraping of a chat model's reply in `extract_customer_filters_from_message` (api/utils/customer_filters.py). The reply is cut from its first `{` to its last `}`, and that text is parsed as JSON. No match, or a parse failure, gives the empty mapping.

Both source files are pure, so the model is made of datatypes, functions and lemmas. There are five modules, one per file:

- `Wrappers` (wrappers.dfy): `Option` and `Result`.
- `Text` (text.dfy): Python's `<` on `str`, `str.lower()` on ASCII, and the substring test `sub in s`.
- `Customers` (customers.dfy): the record type, the roster, the nine query arguments (`Params`, with the source's defaults), the filter chain `Filtered` and its reference meaning `Select`/`Matches`, the stable sort `SortBy`, and the query `FilterData`/`FilterCustomers`/`GetCustomers`. The module also holds the general lemmas about these.
- `Scenarios` (scenarios.dfy): the query run on the actual roster. The concrete answers are derived from the general lemmas. For example, the high-risk list sorted by aum follows from `SortBySorted`, `SortByPermutes` and `SortedUnique`, because no two high-risk records share an aum.
- `CustomerFilters` (customer_filters.dfy): the prompt, the greedy match as index arithmetic, and the extraction.

Modelling choices:

- A string argument is active only when it is truthy, meaning present and non-empty. A numeric bound is active whenever it is present, so 0 is a real bound.
- `sort_dir` defaults to `"desc"`. The sort is descending exactly when `sort_dir == "desc"`.
- `sort_by in data[0]` is modelled as `FieldNamed`. On an empty filtered list with a truthy `sort_by`, it is the error `Failure(IndexError)`.
- Python's `sorted(..., reverse=...)` is a stable insertion sort, `SortBy`. Records with equal keys keep their input order in both directions.
- String keys compare code point by code point, so id `"10"` sorts before `"2"`. Integer keys compare numerically.
- The chat model call is a parameter `invoke: string -> Result<string, E>`. Its failure propagates.
- `json.loads` is a parameter `loads: string -> Option<map<string, V>>`, where `None` means it raised. The scraped text always starts with `{` and ends with `}`, so anything that parses is an object, and a map represents it.

## Model

| member | source | states |
|---|---|---|
| Customers.FieldNamed | api/routers/customers.py:72 | `sort_by` names a record key exactly when it is one of the eight field names of `Customer`, and then names that field |
| Customers.KeyOf | api/routers/customers.py:74 | no contract of its own: the sort key `c[sort_by]`, a string for `id`, `name`, `gender`, `riskProfile` and `lastContact`, and an integer for `age`, `aum` and `relevance`; its order is stated by Customers.KeyLessStrict, Customers.KeyLessTransitive and Customers.KeyTotal |
| Customers.KeyLess | api/routers/customers.py:74 | no contract of its own: Python's `<` on two keys of one field, `Text.Less` on strings and numeric `<` on integers; Customers.KeyLessStrict, Customers.KeyLessTransitive and Customers.KeyTotal state that it is a strict total order |
| Customers.KeyLessStrict | api/routers/customers.py:74 | a key below another differs from it and is not above it |
| Customers.KeyLessTransitive | api/routers/customers.py:74 | the key order is transitive |
| Customers.KeyTotal | api/routers/customers.py:74 | the keys of one field on two records are equal or ordered one way or the other |
| Customers.FixtureIdsDistinct | api/routers/customers.py:18-39 | the roster has twenty records and no two share an id |
| Customers.FixtureAmountsPositive | api/routers/customers.py:18-39 | every roster record has a positive age and a positive aum |
| Scenarios.FixtureByRelevance | api/routers/customers.py:18-39 | the roster is listed in strictly decreasing relevance |
| Customers.Keep | api/routers/customers.py:56-70 | one comprehension `[c for c in data if cond]` keeps exactly the input records that satisfy the condition, and never lengthens the list |
| Customers.Criteria | api/routers/customers.py:56-70 | no contract of its own: the active conditions, in the source's order, for truthy strings and present bounds; Customers.MatchesCriteria states what they mean together |
| Customers.ApplyAll | api/routers/customers.py:56-70 | no contract of its own: the comprehensions applied one after the other; Customers.FilteredIsSelect states that the chain equals `Select` |
| Customers.Filtered | api/routers/customers.py:54-70 | no contract of its own: the filter stage of `filter_customers`; see Customers.FilteredIsSelect, Customers.SelectMembers and Customers.SelectSubsequence |
| Customers.Matches | api/routers/customers.py:56-70 | no contract of its own: the reference meaning of the filters, the conjunction of all active conditions; Customers.MatchesCriteria ties it to the comprehensions |
| Customers.Select | api/routers/customers.py:54-70 | no contract of its own: the matching input records in input order; see Customers.SelectMembers, Customers.SelectSubsequence and Customers.SelectStrictlySorted |
| Customers.MatchesCriteria | api/routers/customers.py:56-70 | a record passes every active comprehension exactly when it satisfies all active conditions: equal gender, equal risk profile, aum and age within the given bounds, lowercased name containing the lowercased search |
| Customers.FilteredIsSelect | api/routers/customers.py:54-70 | the chain of comprehensions equals removing the non-matching records from the input in its order |
| Customers.SelectMembers | api/routers/customers.py:54-70 | a record survives the filters exactly when it is in the input and matches, and the output is no longer than the input |
| Customers.SelectSubsequence | api/routers/customers.py:54-70 | the filter output is a subsequence of its input |
| Customers.SelectStrictlySorted | api/routers/customers.py:54-70 | filtering keeps a strict order on any field |
| Customers.FilterData | api/routers/customers.py:43-75 | no contract of its own: the body of `filter_customers` on a given starting list; its properties are Customers.UnsortedResult, Customers.ResultMembers, Customers.SortedResult, Customers.FailsExactlyOnEmptySort and Customers.FilterDataIdempotent |
| Customers.FilterCustomers | api/routers/customers.py:43-75 | no contract of its own: `filter_customers`, which starts from `CUSTOMERS`; see Customers.ResultMembers, Customers.SortedResult and Customers.FailsExactlyOnEmptySort |
| Customers.UnsortedResult | api/routers/customers.py:54-75 | without a sort, or with a `sort_by` naming no field on a non-empty result, the query returns the matching roster records in roster order, a subsequence of at most twenty |
| Customers.ResultMembers | api/routers/customers.py:54-75 | whatever the sort, a record is returned exactly when it is in the roster and matches every active condition, so no matching record is dropped |
| Customers.ExactMatchFilters | api/routers/customers.py:56-59 | a truthy `gender` or `riskProfile` is matched exactly by every returned record |
| Customers.FalsyArgumentsIgnored | api/routers/customers.py:56-72 | `""` for `gender`, `riskProfile`, `search` or `sort_by` gives the same answer as leaving the argument out |
| Customers.BoundFilters | api/routers/customers.py:60-67 | every present bound on aum or age, 0 included, holds of every returned record, inclusively |
| Customers.NothingMatches | api/routers/customers.py:54-72 | when no roster record matches, the query returns `[]`, or fails on `data[0]` if a sort was requested |
| Customers.EmptyRange | api/routers/customers.py:60-72 | a lower bound above the upper bound, on aum or on age, gives the empty result, or the `data[0]` failure under a sort |
| Customers.ZeroBoundIsActive | api/routers/customers.py:62-63 | `aum_max=0` is applied, not skipped, and leaves nothing |
| Customers.SearchFilter | api/routers/customers.py:69-70 | every record returned under a truthy search has a lowercased name containing the lowercased search text |
| Scenarios.LeeOnlyInCarolLee | api/routers/customers.py:18-39 | of the twenty names, only "Carol Lee" contains "lee" once lowercased |
| Scenarios.SearchLee | api/routers/customers.py:69-70 | searching for "lee" returns exactly Carol Lee's record |
| Customers.Insert | api/routers/customers.py:74 | no contract of its own: one step of the stable insertion sort; its properties are Customers.InsertPermutes, Customers.InsertSorted and Customers.InsertStable |
| Customers.SortBy | api/routers/customers.py:72-74 | no contract of its own: `sorted(data, key=..., reverse=...)`; see Customers.SortBySorted, Customers.SortByPermutes, Customers.SortByStable and Customers.SortBySortedIdentity |
| Customers.InsertPermutes | api/routers/customers.py:74 | inserting a record adds exactly that record to the multiset of the list |
| Customers.InsertSorted | api/routers/customers.py:74 | inserting a record into an ordered list keeps it ordered |
| Customers.InsertStable | api/routers/customers.py:74 | for every key value, inserting a record gives the records of that key in the order of the record followed by the list: it goes in front of the records with its own key, whose order is kept |
| Customers.SortBySorted | api/routers/customers.py:72-74 | the sort output is non-increasing in the key when descending and non-decreasing otherwise |
| Customers.SortByPermutes | api/routers/customers.py:74 | the sort output is a permutation of its input |
| Customers.SortByStable | api/routers/customers.py:74 | for every key value, the records with that key come out in their input order |
| Customers.SortBySortedIdentity | api/routers/customers.py:74 | sorting an already ordered list returns it unchanged |
| Customers.SortedUnique | api/routers/customers.py:74 | an ordered permutation of a strictly ordered list is that list, so the sorted output is fully determined when the input can be listed in strict key order |
| Customers.StrictlySortedUnique | api/routers/customers.py:74 | two strictly ordered lists with the same members are equal |
| Customers.SortedResult | api/routers/customers.py:46-74 | with a `sort_by` naming a field, the result is ordered on that field (descending only for `sort_dir == "desc"`), holds the same records as the filter output, and keeps records of equal key in filtered order |
| Scenarios.HighRiskSelected | api/routers/customers.py:58-59 | the high-risk filter alone selects records 3, 6, 9, 11, 14, 17 and 20, in roster order |
| Scenarios.HighRiskSortedByAum | api/routers/customers.py:74 | the stable sort of the seven high-risk records by ascending aum is ids 17, 3, 14, 6, 9, 20, 11; it follows from the sort being ordered and a permutation, since their aums are distinct |
| Scenarios.HighRiskByAumAscending | api/routers/customers.py:58-74 | high-risk customers sorted by ascending aum come as ids 17, 3, 14, 6, 9, 20, 11 |
| Scenarios.IdsCompareAsStrings | api/routers/customers.py:72-74 | ids compare as strings: in an ascending sort by id, record "10" precedes record "2" |
| Customers.FailsExactlyOnEmptySort | api/routers/customers.py:72 | the query fails exactly when `sort_by` is truthy and no record matches |
| Scenarios.SortOnEmptyFails | api/routers/customers.py:72 | `sort_by="aum"` with `aum_min=1000000` fails on `data[0]`, while the guarded query returns `[]` |
| Customers.FilterDataIdempotent | api/routers/customers.py:54-75 | running the query on its own successful result, with the same arguments, returns that result |
| Customers.FilterDataGuarded | api/routers/customers.py:72-75 | no contract of its own: the query with `data[0]` looked up only on a non-empty list; see Customers.GuardedAgrees and Customers.GuardedResult |
| Customers.GuardedAgrees | api/routers/customers.py:72-75 | the guarded query returns the query's result where it succeeds, and `[]` where it fails |
| Customers.GuardedResult | api/routers/customers.py:72-75 | the guarded query returns a permutation of the matching records (so `[]` when nothing matches), ordered on a named field and stable per key value |
| Customers.GetCustomers | api/routers/customers.py:78-100 | no contract of its own: the handler's call of `filter_customers`; Customers.GetCustomersPassThrough states that it passes every argument unchanged |
| Customers.GetCustomersPassThrough | api/routers/customers.py:90-100 | `get_customers` returns exactly what `filter_customers` returns on the same nine arguments |
| Text.Less | api/routers/customers.py:74 | no contract of its own: Python's `<` on `str`; see Text.LessIsLexLess, Text.LessTransitive and Text.LessTotal |
| Text.LessIsLexLess | api/routers/customers.py:74 | string `<` is the textbook lexicographic order: first differing character, or a proper prefix |
| Text.LessTransitive | api/routers/customers.py:74 | string `<` is transitive |
| Text.LessTotal | api/routers/customers.py:74 | two different strings are ordered one way or the other |
| Text.Lower | api/routers/customers.py:70 | lowercasing keeps the length and maps each character through ASCII `lower` |
| Text.LowerIdempotent | api/routers/customers.py:70 | lowercasing twice is lowercasing once |
| Text.Contains | api/routers/customers.py:70 | no contract of its own: `sub in s`; Text.ContainsIffOccurs states that it holds exactly when `sub` occurs at some index |
| Text.ContainsIffOccurs | api/routers/customers.py:70 | `sub in s` holds exactly when `sub` occurs in `s` at some index |
| Text.LowerContains | api/routers/customers.py:70 | a stretch of a name that lowercases to the search text makes the lowercased name contain it |
| Text.ContainsLower | api/routers/customers.py:70 | conversely, if the lowercased name contains the text, some stretch of the name lowercases to it |
| CustomerFilters.Prompt | api/utils/customer_filters.py:13-19 | no contract of its own: the fixed instruction text, the user message and the `JSON:` cue; CustomerFilters.PromptInjective states that the message can be recovered from it |
| CustomerFilters.PromptInjective | api/utils/customer_filters.py:13-19 | the prompt carries the whole message: different messages give different prompts |
| CustomerFilters.FirstIndexOf | api/utils/customer_filters.py:24 | the result is the first position of the character, and none exactly when it is absent |
| CustomerFilters.LastIndexOf | api/utils/customer_filters.py:24 | the result is the last position of the character, and none exactly when it is absent |
| CustomerFilters.MatchBounds | api/utils/customer_filters.py:24 | a match runs from a `{` to a later `}`, with no `{` before it and no `}` after it |
| CustomerFilters.MatchIffBracePair | api/utils/customer_filters.py:24-25 | the regex matches exactly when some `{` has a `}` after it |
| CustomerFilters.MatchCovers | api/utils/customer_filters.py:24 | the match starts at or before every `{` and ends at or after every later `}`: it is leftmost and longest |
| CustomerFilters.JsonSpan | api/utils/customer_filters.py:24-26 | the matched text starts with `{` and ends with `}` |
| CustomerFilters.SpanInContext | api/utils/customer_filters.py:24-26 | the reply is the text before the match, the match, and the text after it, with no `{` before and no `}` after |
| CustomerFilters.GreedyAcrossObjects | api/utils/customer_filters.py:24 | two objects in one reply, with a newline between them, are matched together from the first `{` to the last `}` |
| CustomerFilters.ParseReply | api/utils/customer_filters.py:22-30 | no contract of its own: the `try` block on the reply; see CustomerFilters.NoMatchGivesEmpty, CustomerFilters.ParseFailureGivesEmpty and CustomerFilters.ParsedObjectReturned |
| CustomerFilters.NoMatchGivesEmpty | api/utils/customer_filters.py:25-28 | a reply with no `{` followed by a `}` gives the empty mapping, whatever the parser does |
| CustomerFilters.ParseFailureGivesEmpty | api/utils/customer_filters.py:22-30 | a match that does not parse gives the empty mapping instead of an error |
| CustomerFilters.ParsedObjectReturned | api/utils/customer_filters.py:26 | a match that parses is returned exactly as parsed, whatever keys it has and whether or not the prompt names them |
| CustomerFilters.ExtractFilters | api/utils/customer_filters.py:7-30 | no contract of its own: the whole extraction, model call then scraping; CustomerFilters.ModelFailurePropagates states when it fails and what it returns otherwise |
| CustomerFilters.ModelFailurePropagates | api/utils/customer_filters.py:21-22 | the extraction fails exactly when the model call fails, with the same error; otherwise it is the parse of the reply |
| CustomerFilters.ExtractFiltersCaught | api/utils/customer_filters.py:7-30 | no contract of its own: the extraction with the model call inside the `try` as well; see CustomerFilters.CaughtAgrees |
| CustomerFilters.CaughtAgrees | api/utils/customer_filters.py:7-30 | the caught extraction returns what the extraction returns when the model answers, and the empty mapping when the model call fails |
| CustomerFilters.CloseFrom | api/utils/customer_filters.py:23 | a result is a `}` at which the brace depth, starting from the given depth, first returns to zero; no result means the depth stays positive to the end of the text |
| CustomerFilters.FirstObjectBounds | api/utils/customer_filters.py:23 | the first object runs from the first `{` to the `}` that balances it: the depth is zero after that `}` and positive at every point before it; no object is found only when the text has no `{` or the first `{` is never balanced |
| CustomerFilters.ParseFirstObject | api/utils/customer_filters.py:23-30 | no contract of its own: the extraction on the first object instead of the greedy match; see CustomerFilters.FirstObjectParsed and CustomerFilters.GreedyLosesFirstObject |
| CustomerFilters.FirstObjectParsed | api/utils/customer_filters.py:23-26 | a first object that parses is returned as parsed |
| CustomerFilters.FirstObjectWithinMatch | api/utils/customer_filters.py:23-24 | whenever there is a first object, the greedy match exists, starts where it starts and ends no earlier than it ends |
| CustomerFilters.FirstObjectOfTwo | api/utils/customer_filters.py:23 | in `a{"x": 1}\nb{"y": 2}c` the first object is `{"x": 1}`, at positions 1 to 8 |
| CustomerFilters.GreedyLosesFirstObject | api/utils/customer_filters.py:23-29 | for a parser that rejects `{"x": 1}\nb{"y": 2}` and accepts `{"x": 1}`, the extraction as written returns the empty mapping on that two-object reply, while the first-object extraction returns the first object |

## Left out

- HTTP, FastAPI routing, `Query(...)` documentation and the `response_model` check are not modelled. `get_customers` is modelled as the call it makes.
- Pydantic validation and the `int(...)` coercions of lines 61-67 are not modelled. The bounds are integers from the start.
- Text.Lower: lowercases only the ASCII letters `A`-`Z`, while Python's `str.lower()` follows Unicode. The roster names are all ASCII, but `search` is arbitrary text, so the gap shows in query results. For example, Python lowercases `search="\u212A"` (KELVIN SIGN) to `"k"`, so the source would return ids 4, 6, 9, 10, 11, 13 and 19, while the model returns `Success([])`.
- The model's reply is taken to be a string. In the source, `response.content` is read inside the `try` (api/utils/customer_filters.py:24), so a non-string content, such as a list of content parts, makes `re.search` raise and the function return `{}`. The model has no such reply.
- `json.loads` and the regex engine are not modelled. The parser is the parameter `loads`, and the regex `{.*}` under `re.DOTALL` is modelled by the index computation `MatchBounds`.
- The chat client (`initialize_chat_client`, api/utils/openai_client.py) and `HumanMessage` are not part of this model. The model call is the parameter `invoke`, which is given the prompt string rather than a message list.
- The conversation graph, the `/chatbot` route, the message wrapper, the server set-up and the React front end are not part of this model. They hold no logic of the query or the scraping: api/utils/graph.py, api/utils/openai_message.py, api/routers/chatbot.py, api/main.py and the app/ directory.
- No router, filter validator, response formatter or chat-session store exists in the code, so none is modelled.
- Sorting an empty result evidently should not fail: the test `sort_by in data[0]` at api/routers/customers.py:72 is there to skip a `sort_by` that names no field, not to reject an empty list. The code does fail there, and the model follows the code. The evidently intended behaviour is modelled as `FilterDataGuarded` (see Findings).
- CustomerFilters.FirstObjectBounds: counts every brace, including braces inside JSON strings, so a string value holding `{` or `}` moves the end of the first object. It is the corrected reading of the comment at api/utils/customer_filters.py:23, not a JSON scanner.

## Findings

| source | as written | input that shows it | evidently intended | confidence | as-written member | corrected member |
|---|---|---|---|---|---|---|
| api/routers/customers.py:72 | `sort_by and sort_by in data[0]` reads `data[0]` even when the filters left nothing, which raises `IndexError` | `sort_by="aum"`, `aum_min=1000000` (no record has that much aum) | an empty filtered list is returned sorted, that is as `[]` | high; not executed | Scenarios.SortOnEmptyFails | Customers.GuardedResult |
| api/utils/customer_filters.py:23-24 | the comment says the first JSON object is found, but the greedy `{.*}` under `re.DOTALL` runs from the first `{` to the last `}`, so two objects in one reply are parsed as one text | the reply `a{"x": 1}\nb{"y": 2}c`: the match is `{"x": 1}\nb{"y": 2}`, which `json.loads` rejects, so the result is `{}` | the first object `{"x": 1}` is parsed and returned | medium; not executed | CustomerFilters.GreedyLosesFirstObject | CustomerFilters.FirstObjectBounds |
| api/utils/customer_filters.py:21-22 | `chat.invoke` is called before the `try`, so a failing model call raises out of the function, though every failure of the scraping is turned into `{}` and the function is declared to return a `dict` | any message for which `chat.invoke` raises, for instance on a network error; moreover, `chat` is built at api/utils/openai_client.py:43-50 as a prompt template with two variables piped into the model, and line 21 invokes it with a bare message list, which such a template likely rejects with a `TypeError` on every call | a failing model call also gives `{}` | low; not executed | CustomerFilters.ModelFailurePropagates | CustomerFilters.CaughtAgrees |
