# vcrpy cassette, modelled in Dafny

This project models the core of vcrpy, a record/replay tool for network traffic in tests.

**The cassette** (`vcr/cassette.py`) stores recorded requests and their responses in recording order. It also counts how often each request was played back.
- `Cassettes.Cassette` is a class whose fields the methods reassign, as the Python methods assign into `self.data` and `self.play_counts`.
- Python's `OrderedDict` and `Counter` are both modelled by one value type, `OrderedDicts.OrderedMap`. It holds the keys in insertion order next to a map from key to value.
- `d[k] = v` is `Put`: an existing key keeps its position and gets the new value, and a new key goes last.
- `counter[k] += 1` is `Increment`: a key never counted starts from zero.
- `Cassette.load` and the bookkeeping part of `__exit__` are loops that append pairs in order. Their specification is the fold `AppendAll`.

**Host and port extraction** (`get_host_and_port` in `vcr/utils.py`) is modelled as pure functions in module `HostAndPort`:
- Python's `str.split(sep, 1)` is `Split1`.
- Python's `int` is `ParseInt`.
- The header parser is a function parameter `hostOf`. It maps the header block to the value of its `Host` header, if there is one.

Requests and responses are type parameters: opaque values compared by equality. Python exceptions become `Err(KeyError)` / `Err(ValueError)` results. A failed dictionary lookup becomes `None`.

Three behaviours of the code that are easy to assume otherwise:
- `mark_played` counts any request, recorded or not. So play-count keys need not be recorded requests.
- A `Host` header that has a colon but no integer after it gives the whole header on port 80. `(":", 80)` comes from a missing header, or from one whose value is exactly `":"`.
- `__exit__` calls `Mocket.disable()` and `Mocket.reset()` after `_save()` with no `try`/`finally`. A failing save therefore skips them. (Neither call is modelled; see below.)

## Model

| member | source | states |
|---|---|---|
| `OrderedDicts.Empty` | vcr/cassette.py:21-22 | A fresh `OrderedDict`/`Counter` is well formed, has length 0, no keys and contains nothing |
| `OrderedDicts.OrderedMap.Put` | vcr/cassette.py:58-60 | `d[k] = v` keeps the dictionary well formed; afterwards `d[k]` is `v` and every other lookup is unchanged; an existing key keeps the key order and the length, a new key is added last and the length grows by one |
| `OrderedDicts.ValuesOf` | vcr/cassette.py:48-50 | The values view has one value per key, the `i`-th being the value stored under the `i`-th key |
| `OrderedDicts.LenIsKeyCount` | vcr/cassette.py:75-77 | `len(d)` (the number of entries) equals the length of `d.keys()` |
| `OrderedDicts.ValuesAligned` | vcr/cassette.py:44-50 | `keys()`, `values()` and `len` agree in length, and the `i`-th value is the lookup of the `i`-th key |
| `OrderedDicts.ValuesAfterOverwrite` | vcr/cassette.py:58-60 | Overwriting the `i`-th key replaces the `i`-th entry of `values()` and nothing else |
| `OrderedDicts.ValuesAfterInsert` | vcr/cassette.py:58-60 | Adding a new key appends its value at the end of `values()` |
| `OrderedDicts.Increment` | vcr/cassette.py:56 | `counter[k] += 1` raises the count of `k` by exactly one, from zero for an uncounted key, leaves every other count unchanged, and raises the total by one |
| `OrderedDicts.TotalIsSumOfValues` | vcr/cassette.py:40-42 | The total of a counter, summed key by key, is `sum(counter.values())` |
| `OrderedDicts.IncrementTotal` | vcr/cassette.py:40-42 | `sum(counter.values())` rises by exactly one when one count is incremented, whether or not the key was counted before |
| `Cassettes.Zip` | vcr/cassette.py:34 | `zip(requests, responses)` has the length of the shorter input and pairs elements position by position |
| `Cassettes.LastResponse` | vcr/cassette.py:34-35 | The response of the last exchange for a request: none exactly when no exchange has that request, otherwise one that no later exchange for it follows |
| `Cassettes.AppendAll` | vcr/cassette.py:34-35 | Appending a sequence of exchanges one by one keeps the store well formed |
| `Cassettes.AppendAllStep` | vcr/cassette.py:34-35 | One more exchange appended is one more `d[k] = v` on the result of the earlier appends |
| `Cassettes.AppendAllGet` | vcr/cassette.py:34-35 | After the appends, each request maps to the response of its last exchange (later duplicates win); a request in no exchange keeps its earlier response or stays absent |
| `Cassettes.AppendAllKeepsOrder` | vcr/cassette.py:92-94 | The appends keep every earlier request in its earlier position: the old request list is a prefix of the new one |
| `Cassettes.AppendAllFresh` | vcr/cassette.py:92-94 | Appending exchanges whose requests are new and pairwise different adds exactly those requests at the end, in order |
| `Cassettes.ZipLastResponse` | vcr/cassette.py:69-70 | In the pairs `zip(requests, responses)` of a cassette, the last response for each request is its recorded response |
| `Cassettes.SaveLoadRoundTrip` | vcr/cassette.py:28-38 | Loading the requests and responses that `_save` writes rebuilds the same store: same requests, same order, same responses |
| `Cassettes.Cassette.constructor` | vcr/cassette.py:19-22 | A new cassette is bound to its path and is empty: `len == 0`, no requests, `play_count == 0` |
| `Cassettes.Cassette.Load` | vcr/cassette.py:28-38 | `load` gives a fresh cassette bound to `path` with no play counts; its store is the stored pairs of `zip(requests, responses)` appended in order, or empty when reading raises `IOError` |
| `Cassettes.Cassette.PlayCount` | vcr/cassette.py:40-42 | `play_count` is `sum(play_counts.values())` |
| `Cassettes.Cassette.Requests` | vcr/cassette.py:44-46 | `requests` lists every recorded request exactly once, and nothing else |
| `Cassettes.Cassette.Len` | vcr/cassette.py:75-77 | `len(cassette)` is the number of recorded requests |
| `Cassettes.Cassette.Contains` | vcr/cassette.py:79-81 | `request in cassette` holds exactly when `request` is among `requests` |
| `Cassettes.Cassette.Responses` | vcr/cassette.py:44-50 | `responses` has the length of `requests` and of `len`, and its `i`-th element is `response_of` the `i`-th request |
| `Cassettes.Cassette.MarkPlayed` | vcr/cassette.py:52-56 | `mark_played(r)` raises `play_counts[r]` by one even for a request never recorded, leaves the other counts and the stored pairs unchanged, and raises `play_count` by one |
| `Cassettes.Cassette.Append` | vcr/cassette.py:58-60 | After `append(r, p)`, `r in cassette` and `response_of(r) == p`; other responses and the play counts are unchanged; a known `r` keeps its position and `len`, a new `r` goes last and `len` grows by one |
| `Cassettes.Cassette.ResponseOf` | vcr/cassette.py:62-67 | `response_of(r)` (alias `get_response`) fails with `KeyError` exactly when `r` is not in the cassette, and otherwise returns the stored response |
| `Cassettes.Cassette.Exit` | vcr/cassette.py:91-95 | `__exit__` appends the recorded exchanges in order, leaves the play counts alone, and hands the resulting `requests` and `responses` to the save |
| `HostAndPort.Find` | vcr/utils.py:9 | The position found is an occurrence of the separator and no earlier position is one; none is found exactly when the separator does not occur |
| `HostAndPort.Split1` | vcr/utils.py:5 | `s.split(sep, 1)` gives `[s]` exactly when `sep` does not occur; otherwise two parts, joined by `sep` back to `s`, split at the first occurrence |
| `HostAndPort.ParseInt` | vcr/utils.py:10 | `int(s)` succeeds only on a non-empty string of decimal digits after an optional sign; a negative result has a leading `-`; a plain digit string gives the number it denotes |
| `HostAndPort.FromHostHeader` | vcr/utils.py:8-12 | The `try`/`except ValueError`: either the whole header on port 80, or the text before the first colon (which has no colon) with the integer that the text after that colon parses to |
| `HostAndPort.NatDigitsValue` | vcr/utils.py:10 | The decimal digits of a natural number denote that number |
| `HostAndPort.ParseShow` | vcr/utils.py:10 | `int(str(n)) == n` for every integer `n` |
| `HostAndPort.GetHostAndPort` | vcr/utils.py:4-13 | `get_host_and_port` fails with `ValueError` exactly when the message has no `"\r\n"` |
| `HostAndPort.HeadersFollowFirstLine` | vcr/utils.py:5-7 | Only the text after the first `"\r\n"` is read as headers; the result is derived from that block's `Host` header, `":"` when it is missing |
| `HostAndPort.SplitAfterHost` | vcr/utils.py:9 | A header `h:p` with no colon in `h` splits into exactly `h` and `p` |
| `HostAndPort.HostWithPort` | vcr/utils.py:8-10 | A `Host` header `h:p` whose `p` parses as an integer `n` gives `(h, n)` |
| `HostAndPort.HostWithShownPort` | vcr/utils.py:8-10 | A `Host` header `h:n` for any integer `n` gives `(h, n)` |
| `HostAndPort.HostWithoutColon` | vcr/utils.py:9-12 | A `Host` header with no colon gives the whole header on port 80 |
| `HostAndPort.HostWithBadPort` | vcr/utils.py:9-12 | A `Host` header split at its first colon whose remainder is no integer gives the whole header, not the part before the colon, on port 80 |
| `HostAndPort.PortIsDefaultOrParsed` | vcr/utils.py:8-13 | The port returned is 80 or the integer written after the first colon of the `Host` header |
| `HostAndPort.ColonOnlyHost` | vcr/utils.py:9-12 | A `Host` header that is just `":"` gives `(":", 80)`: both parts are empty and the empty port is no integer |
| `HostAndPort.MissingHost` | vcr/utils.py:7-12 | A message with no `Host` header gives exactly `(":", 80)` |
| `HostAndPort.ExampleWithPort` | vcr/utils.py:8-10 | `example.com:8443` gives `("example.com", 8443)` |
| `HostAndPort.ExampleWithoutPort` | vcr/utils.py:9-12 | `example.com` gives `("example.com", 80)` |
| `HostAndPort.ExampleTwoColons` | vcr/utils.py:9-12 | `a:b:c` gives `("a:b:c", 80)`: the split is at the first colon only |
| `HostAndPort.ExampleEmptyPort` | vcr/utils.py:9-12 | `example.com:` gives `("example.com:", 80)` |

## Left out

- `__enter__` is not modelled. It registers the cassette in the process-wide registry `Mocket._entries` under the host and port of each request, then calls `Mocket.enable()`. This is global state of an external socket-patching library.
- Cassettes.Cassette.Exit: models only the loop that appends `Mocket._record`. The recorded exchanges are a parameter. The call to `save_cassette` becomes the returned `(requests, responses)`. `Mocket.disable()` and `Mocket.reset()` are external calls and are not modelled.
- `load_cassette`, `save_cassette` and `_save` do file I/O in `vcr/persist.py`, which is not part of this model. What `load_cassette` returns, two sequences or an `IOError`, is the parameter `stored` of `Load`.
- Cassettes.Cassette.Load: `load` catches only `IOError`. Any other exception from `load_cassette`, or a result that does not unpack into two sequences, propagates out of `load`. `Stored` has no case for either, so the model does not cover that path.
- The `mimetools.Message` header parser is a parameter. Its case-insensitive names, continuation lines and value stripping are therefore not modelled.
- HostAndPort.ParseInt: accepts only an optional sign followed by decimal digits. Python's `int` also strips surrounding whitespace. So for a header like `example.com: 8080`, Python gives `("example.com", 8080)`, but the model falls back to the whole header on port 80: `("example.com: 8080", 80)`.
- Cassettes.AppendAllKeepsOrder: together with `AppendAllFresh`, it fixes the request order after a fold only for the old prefix and for new, distinct requests. Where new requests repeat, the order is pinned down only through `Put`, one step at a time.
- `__str__`, the unused `location` attribute, the `os`/`tempfile` imports and the `compat` fallback imports are not modelled. None of them affects the stored data.
- Python 2's `keys()` and `values()` return fresh lists. The model returns them as sequences, so aliasing through those views does not arise.
