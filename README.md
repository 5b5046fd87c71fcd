# Paywall-accessibility cache and result filter

This project models, in Dafny, the part of the news-summary script `main.py`
that decides which search results are worth fetching. That part has three
pieces:

- **Root-domain key** (`get_root_domain`). The network location of a URL
  is lower-cased and split on `.`. The key is the last two labels joined by
  `.`, or the whole lower-cased location when it has fewer than two labels.
  Module `DomainKey` takes the network location as its input.
- **Write-through domain cache** (`domain_map`, `load_domain_map`,
  `save_domain_map`, `is_accessible`). This is a dictionary from root
  domain to a boolean verdict, kept in a JSON file. It is read once at
  start-up. The whole file is rewritten after every new verdict. The cache
  is filled by probing a URL once. The probe gives "paywalled" on a
  transport failure, then on status 403, then when one of four paywall CSS
  selectors matches. Otherwise it gives "accessible". Module
  `Accessibility` models this with the class `DomainStore`. The class holds
  the map, a ghost copy of the file's content and a ghost log of probes.
- **Result filter** (the loop in `get_snippet`). It walks the search
  results in order and drops those without a link. It keeps or drops
  results of known domains by their cached verdict. Unknown domains go
  through `is_accessible`. The kept results then replace the contents of
  `resultList`. In module `ResultFilter`, the function `Run` specifies the
  loop and the method `Session.FilterPaywalled` is the loop itself, proved
  to compute `Run`.

The outside world comes in through two function parameters:
- `netlocOf` stands for `urlparse(url).netloc`.
- `probe` stands for `requests.get` plus the BeautifulSoup selector scan.
  It returns a `ProbeResult`: either `TransportError`, or a `Response`
  holding the status code and the set of selectors that matched.

Some behaviour of the code is easy to misread. The model follows the code:
- A URL with no host does not raise an error. Its network location is `""`,
  so its key is `""`.
- A status file that reads as text but is not valid JSON ("malformed") is
  not rewritten at start-up. Only a missing or
  empty file is replaced by `{}`. The map loads as empty and the file stays
  malformed until the first save. For this reason the persisted state is a
  `StoredFile`, not just a map.
- Verdicts are booleans.

## Model

| member | source | states |
|---|---|---|
| `DomainKey.RootDomain` | main.py:45-50 | `get_root_domain` on the network location: lower-case, split on `.`, and join the last two labels with `.`, or return the whole lower-cased location when there are fewer than two. Its properties are the lemmas below. |
| `DomainKey.RootDomainSpec` | main.py:45-50 | With at least two labels, the key is the second-to-last label, a dot and the last label. A host with no dot is its own key. The key is always a suffix of the lower-cased host with at most one dot, and it either is the whole host or starts just after a dot. |
| `DomainKey.RootDomainIsTheRootKey` | main.py:45-50 | The key equals `k` if and only if `k` is a root key of the lower-cased host (defined without splitting), so that description fixes the result completely. |
| `DomainKey.RootKeyUnique` | main.py:47-50 | A host has at most one root key. A root key is a suffix of the host that is either the whole host with at most one dot, or has exactly one dot and starts right after a dot of the host. For `a.b` that is `a.b` only, not `b`. |
| `DomainKey.LastTwoLabels` | main.py:47-49 | When the split gives two or more labels, joining the last two is the same as concatenating them around a dot, and the result is a root key of the host. |
| `DomainKey.RootDomainIgnoresCase` | main.py:46 | Hosts that differ only in the case of ASCII letters have the same key. The key of a host equals the key of its lower-cased form. |
| `DomainKey.RootDomainShape` | main.py:46-50 | The key holds no upper-case ASCII letter and at most one dot. |
| `DomainKey.RootDomainWithoutDot` | main.py:48-50 | A location with no dot is its own lower-cased self. The empty location gives the empty key. |
| `DomainKey.RootDomainOfRootKey` | main.py:48-50 | A lower-case host with at most one dot is returned unchanged. |
| `DomainKey.RootDomainExample` | main.py:45-50 | `www.NYTimes.com` has the key `nytimes.com`. |
| `DomainKey.Lower` | main.py:46 | `.lower()` on ASCII: it keeps the length, and `LowerSpec` states the rest. |
| `DomainKey.LowerSpec` | main.py:46 | Lower-casing maps each character independently and leaves no upper-case ASCII letter. |
| `DomainKey.LowerIdempotent` | main.py:46 | Lower-casing twice is the same as lower-casing once. |
| `DomainKey.Split` | main.py:47 | Like Python's `str.split`, the result is never an empty list. |
| `DomainKey.SplitSpec` | main.py:47 | There is one more label than there are dots, and no label contains a dot. |
| `DomainKey.JoinSplit` | main.py:47-49 | Joining the split labels with `.` gives back the host. |
| `DomainKey.Join` | main.py:49 | `sep.join(parts)`: the parts with one separator between neighbours. `JoinSplit` and `JoinAt` state its properties. |
| `DomainKey.JoinAt` | main.py:49 | A join can be cut at any joint into the join of the labels before it, a dot, and the join of the labels after it. |
| `Accessibility.Verdict` | main.py:66-92 | The verdict of one probe outcome, with the checks in the source's order. Accessible needs a response whose status is not 403. `VerdictCases` states the rest. |
| `Accessibility.PaywallMarked` | main.py:54-87 | Some selector of `.paywall`, `.subscription-wall`, `#gateway-content`, `.meteredContent` selects an element of the page. |
| `Accessibility.VerdictCases` | main.py:66-92 | A transport failure gives paywalled. Status 403 gives paywalled. Any matching selector gives paywalled. Accessible holds exactly for a non-403 response with no matching selector. |
| `Accessibility.ScanForPaywall` | main.py:82-87 | The in-order scan over the four selectors reports a paywall exactly when one of `.paywall`, `.subscription-wall`, `#gateway-content`, `.meteredContent` matches. |
| `Accessibility.EnsureFile` | main.py:39-41 | The start-up fix: a missing or empty file becomes `{}`. Afterwards the file is neither missing nor empty, and a JSON or malformed file is left as it was. |
| `Accessibility.LoadDomainMap` | main.py:26-33 | `load_domain_map`: the decoded object, or `{}` when the file is missing or its text is not JSON. `LoadDomainMapSpec` states its properties. |
| `Accessibility.LoadDomainMapSpec` | main.py:26-43 | A missing or empty file, or one whose text is not JSON, loads as the empty map. A saved map loads back unchanged. The start-up step that replaces a missing or empty file does not change what gets loaded. After that step the file decodes unless it was malformed. |
| `Accessibility.DomainStore.constructor` | main.py:39-43 | Start-up first fixes a missing or empty file, then loads the map from the file. Unless the file was malformed, the file then mirrors the map. No probe has happened yet. |
| `Accessibility.DomainStore.Save` | main.py:35-37 | After a save, the file holds exactly the current map. |
| `Accessibility.DomainStore.IsAccessible` | main.py:61-92 | On a cached domain: returns the cached verdict and changes nothing (map, file, probe log). On an unknown domain: probes once and returns the probe's verdict. The map changes only at that domain, where it gets the verdict. The file then mirrors the map. |
| `Accessibility.AskTwice` | main.py:61-64 | A second question about the same domain gets the first answer back from the map, even if the probe would now answer differently. Two questions cause at most one probe. |
| `ResultFilter.HasLink` | main.py:124-127 | `not url` is false: the result has a `link` and it is not the empty string. |
| `ResultFilter.KeyOf` | main.py:129 | The root domain of a linked result's URL. |
| `ResultFilter.Step` | main.py:124-149 | One loop iteration. A result without a link changes nothing. A known domain keeps or drops the result by its verdict. An unknown domain is probed, its verdict is recorded, and the result is kept if accessible. |
| `ResultFilter.Run` | main.py:121-150 | The loop over all results in order, starting from the current map with nothing kept and nothing probed. `FilterSpec`, `RunCache` and `RunKeepsAccepted` state its properties. |
| `ResultFilter.Session.FilterPaywalled` | main.py:121-150 | `resultList` becomes the kept results of `Run` on its old contents and the old map. The map becomes `Run`'s final map. The probe log grows by `Run`'s probed domains. If anything was probed, the file mirrors the map; otherwise the file is unchanged. |
| `ResultFilter.FilterSpec` | main.py:121-150 | The output is an order-preserving subsequence of the input. A result is kept exactly when it has a link and its domain's final verdict is accessible. Old verdicts are kept. One verdict is added for each new linked domain. No domain is probed twice, and no known domain is probed. |
| `ResultFilter.RunKeepsAccepted` | main.py:123-149 | The kept list equals the plain filter of the input by the final verdicts. |
| `ResultFilter.AcceptedOnlySpec` | main.py:139-146 | Filtering by fixed verdicts gives a subsequence that holds exactly the accepted input results. |
| `ResultFilter.RunCache` | main.py:129-149 | The map only grows, and known verdicts never change. The final keys are the known keys plus the root domains of the linked results, so the new keys are exactly the linked results' domains that were not already known. The probe log holds each new key once and no key that was already known. |
| `ResultFilter.RunVerdictFromFirstProbe` | main.py:142-149 | The final verdict of a domain the map did not know is the verdict of the probe of its first linked result. |
| `ResultFilter.Session.constructor` | main.py:94 | The result list starts empty and shares the loaded store. |
| `ResultFilter.Session.Search` | main.py:106-108 | At most `numResults` of the hits the search returned are appended, in their order. |
| `ResultFilter.Take` | main.py:108 | `s[:n]`: the prefix of `s` of length `n`, or all of `s` when it is shorter. |
| `ResultFilter.Session.GetSnippet` | main.py:113-200 | After clearing, searching for ten results and filtering, `resultList` holds exactly `Run`'s kept results of the first ten hits and the map is `Run`'s final map. The function completes exactly when some kept result gets summarised, and only then reaches the save at main.py:200. Otherwise it raises at main.py:196, and the file has been written only if the filter probed something. |
| `ResultFilter.SummariseKept` | main.py:153-178 | The summarising loop binds `resp` exactly when some kept result is summarised. |
| `ResultFilter.NoHitsSkipsSave` | main.py:39-200 | Start-up with a status file whose text is not JSON, then `get_snippet` with no search hits: it does not complete, the map stays empty, nothing is probed, and the file is still malformed. |
| `ResultFilter.Session.GetSnippetIntended` | main.py:113-200 | With both token counters bound before the summarising loop and the final count taken from the final response, the function always reaches the save: afterwards the file mirrors the map, and the result list and map are as in `GetSnippet`. |
| `ResultFilter.FilterScenario` | main.py:121-150 | For two results from a domain answering 403 followed by one from a domain with no paywall: only the last result is kept, the map gains `{a: false, b: true}`, and each domain is probed once. |
| `ResultFilter.FilterExample` | main.py:121-150 | The same scenario with the links `https://a.example/1`, `https://a.example/2`, `https://b.example/1`. |

## Left out

- `urlparse` is not modelled. The network location of a URL is the parameter `netlocOf`.
- `requests.get`, its five-second timeout and the BeautifulSoup parse are not modelled. They are the parameter `probe`, which is a fixed function of the URL during one pass. This loses nothing, because no URL is probed twice in a pass.
- A status file that exists but cannot be read as text is not modelled. This covers bytes invalid in the locale's encoding and a file without read permission. `json.load` at main.py:30 then raises something other than `json.JSONDecodeError`, so the module fails at start-up. `StoredFile.Malformed` stands only for readable text that is not JSON.
- JSON encoding, `os.path.exists`/`getsize` and file writes are reduced to the ghost `StoredFile`. I/O errors while writing, and JSON content that is valid but not an object of booleans, are not modelled.
- In the source, a non-boolean value in the file (e.g. `1`) is neither `True` nor `False`, so it takes the `is_accessible` path and is returned as-is. The model's map holds only booleans.
- `DomainKey.Lower`: does not model Python's full Unicode `str.lower`, only ASCII `A`-`Z`, because the host names in question are ASCII.
- The SerpAPI call in `search`, the query string and the OpenAI summaries are not modelled; the article fetch and the `len(text) < 200` skip are reduced to the parameter `summarises`. Failures of the OpenAI calls, `summaryList`, token counting and `price` are not modelled. They are network services or floating-point bookkeeping with no cache logic.
- `ResultFilter.Session.Search`: does not model the exception branch of `search` (main.py:109-110), where a failed SerpAPI call leaves `resultList` unchanged. The hits are an input, so a failed call is the same as an empty `found`.
- `print` logging, `load_dotenv`, the API keys and the `__main__` entry point are not modelled.

## Findings

| source | as written | input that shows it | evidently intended | confidence | as-written member | corrected member |
|---|---|---|---|---|---|---|
| main.py:196 | After the final summary request, the token count adds `resp.usage`. `resp` is bound only inside the per-article loop (main.py:169), and `input_tokens` only when the loop runs (main.py:154). So when no article was summarised, `get_snippet` raises UnboundLocalError and skips the save at main.py:200. | The status file holds `{not json` at start-up and the search returns no hits. The file stays malformed. | Bind `input_tokens` and `output_tokens` before the summarising loop, count the final response's tokens (`final.usage`), and always reach the save. | not executed; high: every path to main.py:196 without a summary leaves `resp` unbound | `ResultFilter.Session.GetSnippet`, `ResultFilter.NoHitsSkipsSave` | `ResultFilter.Session.GetSnippetIntended` |
