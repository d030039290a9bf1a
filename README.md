# webcheck: a Dafny model of the check-evaluation engine

webcheck watches web pages. Each configured check names a URL, an operator
(`contains`, `not_contains` or `matches`), a value, an optional CSS scope and a
list of extraction tasks. A run fetches each page, narrows it to the scope,
applies the operator, runs the tasks (`store_associated_text`,
`store_associated_link`), removes duplicate links, and appends one timestamped
result record per check to an in-memory store. The store can be filtered by
check id.

This project models that engine and proves its contracts:

- `names.dfy`: `transform_name_into_id`.
- `operators.dfy`: the operator table.
- `dom.dfy`: the parsed page. The element table has parent links and each
  element's first `<a>`. The parser's answers are total functions.
- `links.dfy`: href normalisation and the dedupe pass.
- `tasks.dfy`: the task loop and the upward walk from a matched text node to a link.
- `webcheck.dfy`: check and record types, the per-check result
  (`Evaluate`), and the class `WebCheck` with `Run` and `GetMatchesForTask`.
- `strings.dfy`, `seqs.dfy`, `wrappers.dfy`: ASCII lower-casing, substring
  search, `str.replace(old, "")`, subsequences and `Option`.

The imperative parts of `run` are methods with loops, each proved equal to a
specification function. These are the check loop with its `continue`s, the task
loop, the `while link is None` walk, the dedupe loop, and the final
`self.data.extend`. The lemmas state properties of those specification
functions.

Where the code behaves in ways a reader might not expect, the model follows the code:

- The operator is applied only when `query_type` is `plain_text`; with any other
  query type the source leaves `result` unbound or stale, so the model requires
  `plain_text`.
- The check value is not lower-cased; only the page text is. A value with a
  capital letter never satisfies `contains` (`CapitalisedValueNeverContained`).
- Every `"www."` is deleted from both network locations before they are
  compared, not only a leading one. `InnerWwwIgnored` proves this for a
  `"www."` that follows a part without the letter `w`.
- An href to another host is not left alone or resolved. The page's scheme and
  host are concatenated in front of the whole href whenever the two hosts still
  differ after `"www."` is deleted (`NormalizeHrefKeepsIff`).
  `ForeignHrefPrefixed` specialises this to two different hosts without the
  letter `w`.
- An empty-text link record is dropped without marking its href as seen
  (`EmptyTextDoesNotClaimHref`).
- The operator is applied a second time after the tasks; both applications give the same value.

## Model

| member | source | states |
|---|---|---|
| Strings.Lower | webcheck.py:16 | lower-casing keeps the length, maps each ASCII capital to its small letter, keeps every other character, and leaves no ASCII capital |
| Strings.SubstringIff | webcheck.py:23 | the `in` test holds iff the value occurs at some index of the text (both directions) |
| Strings.RemoveAllAbsent | webcheck.py:124 | `replace("www.", "")` leaves a string without `"www."` unchanged |
| Strings.RemoveAllLeading | webcheck.py:124 | a leading `"www."` is deleted |
| Strings.RemoveAllAfterFreePrefix | webcheck.py:124 | no `"www."` can start inside a prefix without `w`, so the prefix is kept and the rest is scanned as on its own |
| Strings.RemoveAllInside | webcheck.py:124 | a `"www."` after a prefix that cannot start one is deleted too, not only a leading one |
| Names.StripPunctuation | webcheck.py:17 | the result has no punctuation character, is an order-preserving subsequence of the input, and has each non-punctuation character exactly as often as the input |
| Names.SpacesToHyphens | webcheck.py:18 | same length; each space becomes `-` and every other character is kept |
| Names.IdAlphabet | webcheck.py:13-19 | an id holds no ASCII capital and no space, and its only punctuation is `-` |
| Names.IdKeepsCharacters | webcheck.py:13-19 | every character that is neither punctuation nor a space occurs in the id exactly as often as in the lower-cased name |
| Names.HyphensCountSpaces | webcheck.py:13-19 | the id has exactly as many `-` as the name has spaces, because hyphens in the name are deleted first |
| Names.PlainNameIsItsOwnId | webcheck.py:13-19 | a name with no capital, punctuation or space is its own id |
| Operators.OperatorNamed | webcheck.py:22-27 | the table has exactly the three keys `contains`, `not_contains` and `matches`, each naming its own predicate |
| Operators.ContainsMeansOccurs | webcheck.py:23 | `contains` holds iff the value occurs in the scope's lower-cased text |
| Operators.NotContainsNegatesContains | webcheck.py:23-24 | `not_contains` is the negation of `contains` for the same value and scope |
| Operators.MatchesMeansSelected | webcheck.py:26 | `matches` holds iff the selector picks at least one element |
| Operators.CapitalisedValueNeverContained | webcheck.py:23 | the value is not lower-cased: with an ASCII capital it is never contained and always not-contained |
| Operators.InStockScenario | webcheck.py:23 | `in stock` is contained in text `In Stock Now` |
| Operators.OutOfStockScenario | webcheck.py:23 | `in stock` is not contained in text `Out of stock` |
| Dom.Chain | webcheck.py:103-136 | the chain starts at the element, each next entry is the previous one's parent, and it ends at an element without a parent |
| Dom.NearestAnchorNoneOnChain | webcheck.py:108-136 | the walk finds no link iff no element on the chain up to the top has one |
| Dom.NearestAnchorFirstOnChain | webcheck.py:108-136 | a link found is the link of the first chain level that has one; all lower levels have none |
| Links.NormalizeHrefKeepsIff | webcheck.py:123-130 | an href is kept iff its netloc is non-empty and equals the page's once `"www."` is removed; otherwise it becomes scheme + `://` + netloc + href |
| Links.WwwPrefixIgnored | webcheck.py:124 | a link to the page's own host with or without `www.` is kept, in either direction |
| Links.InnerWwwIgnored | webcheck.py:124 | when the part `a` has no letter `w`, `a.www.b` and `a.b` count as the same host |
| Links.RelativeHrefScenario | webcheck.py:123-130 | `/page` on `http://example.com` becomes `http://example.com/page` |
| Links.ForeignHrefPrefixed | webcheck.py:124-130 | a link to a different host, where neither host has the letter `w`, is prefixed with the page's scheme and host by plain concatenation |
| Links.Dedupe | webcheck.py:147-155 | the dedupe loop computes what the pass keeps |
| Links.DedupeFromSubsequence | webcheck.py:149-155 | dedupe output is an order-preserving subsequence of its input |
| Links.DedupeFromShape | webcheck.py:149-155 | dedupe output has distinct hrefs and non-empty texts, and holds every href that has a record with text |
| Links.DedupeFromFixpoint | webcheck.py:149-155 | a list with distinct hrefs and non-empty texts passes dedupe unchanged |
| Links.DedupeFromKeepsFirst | webcheck.py:149-155 | the records dedupe keeps are exactly the first record with text for each href not already seen |
| Links.DedupedProperties | webcheck.py:148-155 | dedupe is order-preserving, duplicate-free, text-only, complete, keeps exactly the first record with text for each href, and is idempotent |
| Links.SameHrefScenario | webcheck.py:147-155 | two records with the same href reduce to the first |
| Links.EmptyTextDoesNotClaimHref | webcheck.py:152-154 | an empty-text record does not block a later record with the same href |
| Tasks.WalkToLink | webcheck.py:103-136 | the walk starts at the parent of the first matching text in the container and returns the nearest link up the parent chain, or none |
| Tasks.StoreAssociatedLink | webcheck.py:99-136 | appends the link records of the matched text nodes in order; the key appears only if one is found |
| Tasks.RunTasks | webcheck.py:88-99 | the task loop computes the task responses of the listed tasks in order |
| Tasks.ResponsesByOccurrences | webcheck.py:88-136 | stored texts are the batch once per listing when the batch is non-empty with no empty string, else absent; links likewise when some link was found |
| Tasks.SameTaskCountsSameResponses | webcheck.py:89-99 | only how often each known task is listed matters; unknown names and order are ignored |
| Tasks.StoredTextsNonEmpty | webcheck.py:97-98 | every stored text is non-empty and each listing stores the whole batch |
| Tasks.AtMostOneLinkPerTextNode | webcheck.py:102-136 | at most one link record per matched text node |
| WebCheck.WebCheck.constructor | webcheck.py:31-42 | the monitor holds the given checks and the stored records |
| WebCheck.WebCheck.Run | webcheck.py:45-162 | the requested checks are used, or all configured ones when none are requested; the old store is an unchanged prefix; then comes exactly one record per check, in check order, each equal to `Evaluate` |
| WebCheck.WebCheck.GetMatchesForTask | webcheck.py:168-169 | returns an order-preserving subsequence of the store holding exactly the records whose check (default `""`) is the name, all of them |
| WebCheck.RecordsForSpec | webcheck.py:168-169 | the filter keeps order and keeps exactly, and all of, the records of the name |
| WebCheck.EvaluateShape | webcheck.py:54-145 | every record names its check and carries the clock reading; error iff an error message; an error has no match and no task responses |
| WebCheck.FetchFailureRecord | webcheck.py:54-66 | a failed fetch gives an error record with the failure's message, no match and no task responses |
| WebCheck.ScopeNotFoundRecord | webcheck.py:70-82 | a scope matching nothing gives an error record with message `Scope not found` |
| WebCheck.EvaluatedMatch | webcheck.py:85-138 | a fetched, scoped page gives a record without error; its match is the operator applied to the scope (for `contains`, whether the value occurs in the lower-cased text) |
| WebCheck.DedupeKeepsKeys | webcheck.py:147-158 | dedupe adds and removes no key, so an emptied link list still counts as a response |
| WebCheck.TaskResponsesAttached | webcheck.py:147-158 | task responses are attached iff some task stored something; attached links are distinct by href and have text |
| WebCheck.NoKnownTaskNoResponses | webcheck.py:88-158 | a check with no known task name gets no task responses |

## Left out

- HTTP retrieval, `requests.get`, and the capture of its exception: each check's fetch outcome is an input (`Fetch`).
- HTML parsing, CSS selection, `find_all`, `find` and `get_text`: these are answers stored in the `Document` value. The regular-expression semantics of the check value are likewise not modelled: the value is passed to those answers as is.
- `urllib.parse.urlparse`: a function parameter that gives the scheme and network location of a URL.
- `datetime.now().isoformat()`: the clock reading for each check is an input (`Observation.completed`).
- Creating and loading the JSON store in `__init__`, and `save`: file I/O. The constructor receives the loaded records, and `save` is not modelled.
- An operator name outside the table raises `KeyError`, and a query type other than `plain_text` leaves the match unset. Both crash or corrupt the run, so `Run` requires every check to avoid them.
- WebCheck.WebCheck.Run: `Runnable` is required of every selected check, including checks whose fetch fails or whose scope is missing. The source never reaches the operator lookup for those checks (webcheck.py:86), so it would record their error without a `KeyError`.
- An invalid regular expression in a check's value makes `re.compile` raise `re.error` in either task (webcheck.py:94, 102). The error escapes the run, which then stores nothing. The model's `findStrings` answer cannot fail, so this error path is not modelled.
- An `<a>` without an `href` raises `KeyError` in the source; in the model every anchor has an href.
- An exception that escapes a run (for example from the parser) leaves the store unchanged in the source. The model's document answers cannot fail.
- Strings.Lower: only ASCII letters are lower-cased; non-ASCII characters are kept, whereas Python applies Unicode case mapping to them.
- The insertion order of keys in `task_responses`: its two keys are two optional fields.
