# webcore core helpers in Dafny

A model of the helpers in `core.js` of webcore, the small front-end library
behind `Core.*` and the jQuery plugins, with proofs of what each one
promises:

- `Core.setOptions(defaultOptions, options)`: the options merge every other
  helper uses to fill in its defaults (module `Options`). It is modelled as
  the loop over the default keys, proved equal to a key-by-key merge, and
  that merge is proved to keep falsy settings, to drop unknown keys and to
  be idempotent. `null` options throw a `TypeError` as soon as a default key
  is read.
- `Array.prototype.remove(item)`: `splice(indexOf(item), 1)` on the
  receiver, which is returned (module `ArrayRemove`). The receiver is a class
  whose contents `remove` updates in place. An absent item makes `indexOf`
  answer -1, and `splice(-1, 1)` then drops the last element. That is the
  code's behaviour, and it is stated and proved as such.
- `String.prototype.capitalize()`: the first character upper-cased and the
  rest lower-cased (module `Capitalize`).
- `Core.uncacheFile(file)`: `file + '?_=' + random(5000000000)`, with the
  random integer as a parameter (module `Uncache`). The doc comment's example
  shows `file.js_?=4540647`. The code writes `?_=`, and the model follows the
  code.
- The `newCSS` object built by `$.fn.globalCSS(css)`: four vendor-prefixed
  names and the bare name, written for every key (module `GlobalCss`). Both
  `forEach` loops are kept as loops. The result is described exactly even
  when two keys write the same name: the later key wins.
- `Core.getParameter(name, url)`: the regular expression
  `[?&]name(=([^&#]*)|&|#|$)` written out as a leftmost-match scan (module
  `QueryString`).
- `Core.preload(images, callback)`: the `loadNext`/`proceed` chain, run as a
  loop over the load events the browser delivers (module `Preload`).
  Metadata is recorded in input order. The callback runs exactly once when
  the last image resolves and never before. An empty image list never
  reaches its callback.
- `Core.waitUntilThis(options)`: the `check` poller, run as a loop over the
  condition's successive results (module `WaitUntil`). It reports success on
  the first true result within the limit. Otherwise it reports a timeout
  after exactly the limit number of checks, which is 1000 with the defaults.

JavaScript objects are modelled in module `JsObjects` as an insertion-ordered
key list plus a value map (`Obj`). Writing a new key appends it and writing
an existing key keeps its place, which is the order `Object.keys` reports
for string keys.

## Model

| member | source | states |
|---|---|---|
| JsObjects.Put | core.js:306-309 | a property write sets that key, leaves every other key's value alone, keeps an existing key in its place and appends a new one |
| JsObjects.PutAllKeys | core.js:158-167 | after a series of writes to `{}`, `Object.keys` lists the written names in order of first write, without repeats |
| Options.PickSettled | core.js:301-310 | a picked value stays put when picked again against the same default, and it is unset only when both the option and the default are unset |
| Options.Merged | core.js:292-314 | the key-by-key result of `setOptions`; on success it has exactly the default keys in their order (its values are stated by SetOptions, MergedIdempotent, MergedOmittedIsCopy and MergedNullOptions) |
| Options.SetOptions | core.js:292-314 | the result has exactly the default keys, in the defaults' order, each holding the option if set and else the default; it throws exactly when the options are `null` and there is a default key |
| Options.MergedDropsUnknownKeys | core.js:295-310 | an option key that is not a default key is absent from the result |
| Options.MergedKeepsFalsyOptions | core.js:301-309 | a `0` or `false` option overrides the default |
| Options.MergedOmittedIsCopy | core.js:292-314 | with the options left out, the result equals the defaults |
| Options.MergedNullOptions | core.js:300-301 | `null` options give `{}` for empty defaults and throw otherwise |
| Options.MergedIdempotent | core.js:292-314 | merging the result again with the same defaults gives the same result |
| ArrayRemove.IndexOf | core.js:53 | `indexOf` answers -1 exactly when the item is absent, and otherwise its first position |
| ArrayRemove.SpliceStart | core.js:53 | a `splice` start within the array is used as is, and a negative one counts from the end; a start above the length becomes the length, and one below minus the length becomes 0 |
| ArrayRemove.Removed | core.js:53 | the contents after `remove` are one element shorter, except that an empty array stays empty (which element goes is stated by RemovedPresent and RemovedAbsent) |
| ArrayRemove.RemovedPresent | core.js:41-57 | removing a present item drops only its first occurrence, keeps the rest in order, and removes one copy from the multiset |
| ArrayRemove.RemovedAbsent | core.js:53 | removing an absent item drops the last element, and an empty array stays empty |
| ArrayRemove.JsArray.Remove | core.js:53-56 | the receiver's contents become the removal result (present, absent and empty cases spelled out), and the receiver itself is returned |
| ArrayRemove.RemoveExample | core.js:46-48 | removing 'not' from the usage sentence leaves the other five words in order |
| Capitalize.Upper | core.js:92 | ASCII `toUpperCase` maps `a`-`z` down by 32 and leaves other characters, so no result is a lower-case letter |
| Capitalize.Lower | core.js:92 | ASCII `toLowerCase` maps `A`-`Z` up by 32 and leaves other characters, so no result is an upper-case letter |
| Capitalize.LowerAllIdempotent | core.js:92 | a lower-cased string has no upper-case letter, and lower-casing it again changes nothing |
| Capitalize.Capitalized | core.js:92 | same length; the first character is upper-cased and every later one lower-cased |
| Capitalize.CapitalizedShape | core.js:81-92 | the result is empty exactly for the empty string; its first letter is not lower case and no later letter is upper case |
| Capitalize.CapitalizedIdempotent | core.js:92 | capitalizing twice equals capitalizing once |
| Capitalize.CapitalizedExample | core.js:85-88 | 'TEST' becomes 'Test' |
| Uncache.Decimal | core.js:506 | the nonce is written as at least one decimal digit, with no leading zero except for 0 itself |
| Uncache.DecimalRoundTrip | core.js:506 | reading the written digits back gives the nonce |
| Uncache.UncacheFile | core.js:506 | `uncacheFile` itself; it has no contract of its own, and UncacheFileParts and UncacheFileInjective state its properties |
| Uncache.UncacheFileParts | core.js:506 | the name is the file name, then `?_=`, then only digits, which denote the nonce |
| Uncache.UncacheFileInjective | core.js:506 | different nonces give different names for the same file |
| Uncache.UncacheFileExample | core.js:497-506 | file.js with nonce 4540647 gives `file.js?_=4540647`, with the code's `?_=` rather than the doc comment's `_?=` |
| GlobalCss.Variants | core.js:156-166 | each key writes five distinct names: the four prefixed ones in browser order, then the key itself |
| GlobalCss.KeyWritesTargets | core.js:160-166 | one key's writes go to its five variants, in order |
| GlobalCss.Expanded | core.js:158-167 | `newCSS` once both loops are done, a well-formed object (its keys and values are stated by ExpandedFacts and ExpandedWithoutCollisions) |
| GlobalCss.WriteKeys | core.js:159-167 | five names are written per key |
| GlobalCss.LastSource | core.js:159-167 | for a written name, the last key in `Object.keys` order among whose variants it is |
| GlobalCss.WritesTargets | core.js:159-167 | the names written by the two loops are, in order, the variants of each key |
| GlobalCss.WriteKeysMembers | core.js:159-167 | a name is written exactly when it is a variant of some key |
| GlobalCss.WriteKeysAt | core.js:159-167 | variant `b` of key `i` is write `5 * i + b` |
| GlobalCss.ExpandedValueFrom | core.js:159-167 | every written name ends with the value of the last key that writes it |
| GlobalCss.ExpandedFacts | core.js:155-167 | `newCSS` has the written names in first-write order, no other names, and each holds the value of its last writer |
| GlobalCss.WriteKeysDistinct | core.js:159-166 | when no two keys share a variant, no name is written twice |
| GlobalCss.UniqueSource | core.js:159-166 | when no two keys share a variant, a name's last writer is its only writer |
| GlobalCss.ExpandedWithoutCollisions | core.js:155-167 | without shared variants, `newCSS` has exactly `5 * n` keys in write order, and each prefixed name and the bare key hold `css[key]` |
| GlobalCss.ExpandedCollisionExample | core.js:159-166 | with keys `transform` and `-o-transform`, the later key's value wins `-o-transform` and `transform` keeps its own |
| GlobalCss.AddKey | core.js:160-166 | the inner loop for one key writes its five variants in order with `css[key]` |
| GlobalCss.NewCss | core.js:155-167 | the two loops build the object described in ExpandedFacts: first-write key order, exactly the written names, last writer's value |
| QueryString.FindMatch | core.js:398-399 | the match found is the leftmost position where the pattern matches, and None means it matches nowhere |
| QueryString.ValueEnd | core.js:398 | the value runs up to the first `&` or `#` or the end of the url |
| QueryString.PlusToSpaceSettled | core.js:404 | no `+` is left after the replacement, so replacing again changes nothing |
| QueryString.GetParameter | core.js:394-404 | `null` exactly when the pattern matches nowhere in the url, or in the current location when the url is empty |
| QueryString.GetParameterAtMatch | core.js:398-404 | the result read off the leftmost match: `''` without a value or with an empty one, otherwise the decoded value with `+` as space |
| QueryString.GetParameterOfQuery | core.js:394-404 | for `base?name=value...`, the result is `value`, decoded and with `+` as space, or `''` when it is empty |
| QueryString.GetParameterExample | core.js:388-390 | `dog` in `https://mydogs.net?dog=beagle` is `beagle` |
| QueryString.GetParameterFirstOccurrence | core.js:398-404 | for any plain name, `?name=v1&name=v2...` gives back `v1` (decoded, `+` as space, or `''` when empty), whatever `v2` and the rest hold |
| Preload.LoadsBound | core.js:534-544 | for a non-empty list, no more loads resolve than there are images, and all of them resolve exactly when the run finishes |
| Preload.Entry | core.js:543 | one `metadata` slot; it has no contract of its own, and PreloadReport and ElapsedNonNegative state its properties |
| Preload.LoadTraceShape | core.js:532-550 | load `i` starts at step `2i` and resolves at step `2i + 1`, so each load starts after the previous one resolved and the callback never runs in between |
| Preload.CallbackOnce | core.js:544 | the callback runs once in a run that reaches the last image, and never otherwise |
| Preload.Preload | core.js:528-550 | `metadata` holds one entry per resolved load, in input order; the callback runs exactly once, after the last load, and only when the last image is reached |
| Preload.PreloadReport | core.js:533-543 | entry `i` records the uncached name of image `i` and whether it fired `onload` |
| Preload.ElapsedNonNegative | core.js:537-543 | with a clock that does not run backwards, no entry reports negative elapsed time |
| Preload.EmptyNeverFinishes | core.js:533-534 | an empty image list never reaches the callback and loads `undefined?_=...` on every event |
| WaitUntil.Limit | core.js:588-597 | the first check count `c >= 1` passing `checks >= timeout / checkGap` |
| WaitUntil.LimitIsLeast | core.js:588-597 | a check count passes the limit test exactly when it is at least `Limit` |
| WaitUntil.FirstTrue | core.js:594 | the index of the first `true` condition result, or the number of results when none is `true` |
| WaitUntil.Expected | core.js:591-603 | the poller's outcome: no more checks than results, at most one callback, and a callback echoes `checkGap` and `timeout` (success and timeout are stated by SuccessReport and TimeoutReport) |
| WaitUntil.WaitUntilThis | core.js:587-603 | the poller's check count and callback calls are those of `Expected`, and the callback runs at most once |
| WaitUntil.CallbackOnce | core.js:591-600 | the callback runs at most once, and exactly once when the results reach the limit check |
| WaitUntil.AtLeastOneCheck | core.js:591-594 | the condition is evaluated at least once, even with a timeout of 0 |
| WaitUntil.SuccessReport | core.js:594 | success is reported exactly when a result up to the limit check is `true`, from the first such check, with elapsed `checks * checkGap` |
| WaitUntil.TimeoutReport | core.js:597 | a timeout is reported from the limit check after only `false` results, with elapsed equal to the timeout |
| WaitUntil.TrueAtFirstCheck | core.js:594 | a condition true at once is reported after one check, with elapsed `checkGap` |
| WaitUntil.DefaultsCheckThousandTimes | core.js:581-588 | with the defaults of 5000 ms and 5 ms, a condition that never holds is checked exactly 1000 times |

## Left out

- The rest of `core.js` is not part of this model: `init`, `supplementJS`'s `String.replaceAll` and `Function.async`, `addScript`, `isMobile`, `setParameter`, `getMS`, `random` (beyond the range of its result), and the jQuery plugins apart from the `newCSS` construction in `globalCSS`.
- Applying `newCSS` with `$(this).css(...)` and returning the element are DOM calls and are left out.
- Timers, the clock, `new Image()` and its `onload`/`onerror` events and `Math.random` are inputs. Preload takes one `LoadEvent` per load. WaitUntil takes the sequence of condition results. `uncacheFile` takes the nonce as a parameter.
- Callbacks are not run: Preload records them in a trace of `Action`s, and WaitUntil records the objects passed to the callback.
- Options.SetOptions: an options argument that is a string, number or other non-object is not modelled. Neither are inherited properties such as `toString` found through the prototype chain.
- `Object.keys` lists integer-like keys first, in numeric order. `Obj` keeps all keys in insertion order, so objects with integer-like keys are not modelled.
- JavaScript numbers are modelled as `int`: no fractions, `NaN` or infinities. So `indexOf` never meets `NaN`.
- Arrays are modelled by value. `remove` returns the receiver, but aliasing with other references to the same array is not captured.
- Capitalize.Capitalized: case mapping is ASCII only. Non-ASCII letters are left unchanged, whereas `toUpperCase` and `toLowerCase` use full Unicode case mapping, which can change length (for example `ß` to `SS`).
- Uncache.Decimal: writes the integers `random(5000000000)` can produce. JavaScript's exponent notation only starts at 10^21, so this range never needs it.
- QueryString.GetParameter: requires a name without regular-expression metacharacters other than `[` and `]`, which the code escapes. A name with other metacharacters is matched as a pattern by the code, and that is not modelled.
- QueryString.GetParameter: `decodeURIComponent` is a parameter, and the `URIError` it throws on malformed escapes is not modelled. A missing, `null` or empty url is represented by the empty string.
- WaitUntil.WaitUntilThis: `limit = timeout / checkGap` is a floating-point division. The model takes integer settings and a positive `checkGap`, for which `checks >= timeout / checkGap` is `checks * checkGap >= timeout`. A zero, negative or fractional `checkGap` is not modelled, and neither is a condition that throws.
- Preload.Preload: `loadNext` starts load `i`, creating the image and setting its `src`, before that load's outcome exists. The trace records `Started(i, ...)` only together with `Resolved(i, ...)`, once `events[i]` arrives, so a run that stops for lack of events omits the pending load it has already started.
- Preload.Preload and WaitUntil.WaitUntilThis: a run that has not finished stops when its inputs run out. Behaviour that never ends, such as an empty image list loading forever, is stated for every finite prefix and not as an infinite run.
