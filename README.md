# Atomik core, modelled in Dafny

Atomik is a PHP micro-framework built around one static class, `Atomik`
(`Atomik.php`). This project models the parts of that class that take
decisions on plain data and proves properties about them:

- **The key-path store** (`store_tree.dfy`, `store.dfy`). It covers `set`,
  `_mergeRecursive`, `_dimensionizeArray`, `get`, `has`, `delete` and
  `registerSelector`.
  - The configuration is a nested PHP array. A key such as `a/b/c` names
    `$store['a']['b']['c']`.
  - PHP arrays are modelled as ordered lists of key/value entries
    (`php_array.dfy`). An assignment overwrites a key in place or appends
    it; `unset` removes it.
  - The `Store` class holds `$_store` and the registered selector
    namespaces. Its `has` and `delete` use the source's `!strpos` test;
    the functions `HasIn` and `DeleteIn` give the corrected reading (see
    "Findings").
- **The router** (`router.dfy`), i.e. `route`.
  - The first route whose pattern fits the uri wins. `:name` segments
    bind, defaults fill the rest, and the remaining uri segments are read
    as key/value pairs.
  - With no matching route, the request is just the action.
  - Request parameters of lower precedence are overridden.
- **Events** (`events.dfy`): `listenEvent`, `fireEvent` and
  `attachClassListeners`.
  - The listeners of each event sit in a PHP array keyed by priority.
  - A registration probes for a free priority: upwards, or downwards for
    an important listener.
  - Firing calls the listeners in ascending priority. It files each
    result under the callback's name.
- **The dispatch decision** (`dispatch.dfy`).
  - The requested uri comes from the trigger parameter, or from
    `default_action` when that parameter is blank.
  - The request comes from the router, or straight from the uri when
    routing is off.
  - The security gate refuses every action that contains `..` or has a
    path segment starting with `_`.
- **The execution-context stack** (`contexts.dfy`), which `execute` and
  `noRender` maintain.

The string helpers the framework relies on (`explode`, `implode`, `trim`
and the two-character `strpos` tests) are in `text.dfy`.

## Model

| member | source | states |
|---|---|---|
| PhpArray.Find | Atomik.php:830 | `array_key_exists` holds exactly when the key is among the array's keys, and then the entry is in the array |
| PhpArray.Put | Atomik.php:737 | `$a[$k] = $v` makes `$k` map to `$v`; other keys are unchanged; a new key is appended at the end; keys stay unique |
| PhpArray.Remove | Atomik.php:931 | `unset($a[$k])` removes `$k` only, keeps every other key and keeps keys unique |
| Text.Split | Atomik.php:834 | `explode('/')` yields at least one piece; no piece contains the separator; there is one piece iff the separator is absent; joining the pieces gives the input back |
| Text.SplitJoin | Atomik.php:756-759 | exploding an imploded list of separator-free pieces gives the pieces back |
| Text.Trim | Atomik.php:256 | `trim($s, '/')` is what lies between a run of leading and a run of trailing `/` in `$s`; it neither starts nor ends with `/` |
| StoreTree.MergeRecursiveFind | Atomik.php:729-740 | after `_mergeRecursive`, a key absent from the second array keeps its first-array value; a key holding arrays on both sides holds their recursive merge; any other second-array value wins |
| StoreTree.MergeRecursive | Atomik.php:729-740 | the merged array has exactly the keys of both arrays, each once |
| StoreTree.MergeDimensional | Atomik.php:729-740 | merging two arrays free of path keys gives an array free of path keys |
| StoreTree.Dimensionized | Atomik.php:749-786 | the keys of `_dimensionizeArray`'s result are exactly the first `/`-parts of the input's keys |
| StoreTree.DimStep | Atomik.php:753-782 | one turn of the loop adds the first part of the entry's key and leaves the value of every other key as it was |
| StoreTree.DimStepReplacesLeaf | Atomik.php:761-765 | a non-array value already under a path key's first part is dropped: that part then holds just the dimensionized rest of the key |
| StoreTree.DimStepMergesPath | Atomik.php:755-767 | a path key `p/rest` whose first part `p` already holds an array is merged into it: the keys of that array other than the first part of `rest` keep their values, and that part gets the recursive merge of its old value with the one-path tree of `rest` |
| StoreTree.DimStepNewPath | Atomik.php:755-770 | a path key whose first part is absent or null puts the one-path tree of the rest of the key under that part |
| StoreTree.MergeIntoOne | Atomik.php:729-740 | merging a one-entry array into an array changes only that entry's key, which gets the merge of both values |
| StoreTree.DimStepMergesArray | Atomik.php:772-776 | a slash-free key with an array value, where an array is already stored, is merged into it: keys the dimensionized value does not mention keep their values, and each key it mentions gets the merge of both |
| StoreTree.DimStepPlain | Atomik.php:772-781 | a slash-free key with a leaf value is written as it is; with an array value and no array stored under the key, the dimensionized array is stored |
| StoreTree.DimensionizedSharedPrefix | Atomik.php:749-786 | `{p/q1: v1, p/q2: v2}` with distinct slash-free `q1`, `q2` and leaf values becomes `{p: {q1: v1, q2: v2}}`: both values survive under the shared first part |
| StoreTree.Dimensionize | Atomik.php:749-786 | the loop of `_dimensionizeArray` computes the dimensionized array |
| StoreTree.DimensionizeEntry | Atomik.php:753-782 | one turn of that loop, written with the source's branches, computes exactly `DimStep` |
| StoreTree.DimensionizedPath | Atomik.php:755-770 | the single entry `a/b/c => v` becomes the one-path tree `a => b => c => v` |
| StoreTree.DimensionizedIsDimensional | Atomik.php:749-786 | the output has no key containing `/` at any depth, and no repeated key |
| StoreTree.DimensionizedFixed | Atomik.php:749-786 | an array that is already free of path keys comes back unchanged |
| StoreTree.DimensionizedIdempotent | Atomik.php:749-786 | dimensionizing twice gives the same array as dimensionizing once |
| KeyPathStore.Store.Set | Atomik.php:669-696 | `set(key, value)` merges the dimensionized `[key => value]` into the store; a null value changes nothing; the store stays free of path keys |
| KeyPathStore.Store.SetMany | Atomik.php:669-696 | `set(array)` merges the dimensionized array into the store, keeping it free of path keys |
| KeyPathStore.SetIn | Atomik.php:669-696 | `set(key, value, dimensionize, $array)`: a null value changes nothing; any other adds the key's first part (the key itself without dimensionizing) and keeps every other key |
| KeyPathStore.SetManyIn | Atomik.php:669-696 | `set(array, null, dimensionize, $array)` adds the first parts of the new keys (the keys themselves without dimensionizing), loses no key and keeps keys unique |
| KeyPathStore.SetReaches | Atomik.php:676-695 | after `set(key, value)` the path of `key` leads somewhere; for a leaf value it leads to that value |
| KeyPathStore.SetKeepsDisjoint | Atomik.php:669-696 | `set(key, value)` changes nothing on a path that neither extends nor is extended by `key`'s path |
| KeyPathStore.SetKeepsDimensional | Atomik.php:689-695 | a store free of path keys stays so under `set` |
| KeyPathStore.Selector | Atomik.php:810 | `^([a-z]+):(.*)` matches a non-empty lower-case namespace, a colon, and then the text up to the first newline or the end; a key whose every colon follows some non-`[a-z]` character does not match |
| KeyPathStore.SelectorOf | Atomik.php:810 | a namespace, a colon and one line of text are matched back as that namespace and that text |
| KeyPathStore.GetWalk | Atomik.php:837-850 | the descent of `get` returns the value at the path when it is present and not null, and the default otherwise |
| KeyPathStore.GetMeaning | Atomik.php:826-850 | a key without `/` returns the stored value even when it is null; a path key returns the value at the path, or the default when that value is missing or null |
| KeyPathStore.GetIn | Atomik.php:802-851 | `get` hands the key to a selector exactly when it starts with a registered namespace and a colon |
| KeyPathStore.Store.Get | Atomik.php:802-851 | `get()` with no key returns the whole store; with a key it reads the store as `GetIn` does |
| KeyPathStore.SetThenGet | Atomik.php:802-850 | `get(key)` after `set(key, leaf)` returns the leaf, unless a registered selector takes the key |
| KeyPathStore.Store.RegisterSelector | Atomik.php:950-953 | the namespace is registered; the store is unchanged |
| KeyPathStore.HasWalk | Atomik.php:881-894 | the descent of `has` holds exactly when the path leads to an entry, null or not |
| KeyPathStore.LiteralAsWritten | Atomik.php:874 | `!strpos($key, '/')` (also the test of `delete` at line 917) holds exactly when the key has no `/` or its first `/` is at offset 0 |
| KeyPathStore.HasInAsWritten | Atomik.php:872-876 | as written, a key without `/` or starting with `/` is tested as one literal key; any other key is tested as a path |
| KeyPathStore.HasAsWrittenMissesLeadingSlash | Atomik.php:874 | after `set('/a', 1)`, `has('/a')` as written is false |
| KeyPathStore.HasIn | Atomik.php:864-895 | corrected `has`: true exactly when the key's path leads to an entry |
| KeyPathStore.SetThenHas | Atomik.php:864-895 | after `set(key, v)` with `v` not null, corrected `has(key)` holds, for every key |
| KeyPathStore.Store.Has | Atomik.php:864-895 | `has(key)` on the global store, as written: a key `!strpos` calls literal is looked up as one key, any other as a path; on a valid store a key starting with `/` is never found |
| KeyPathStore.LeadingSlashOnly | Atomik.php:874 | the as-written and corrected `has` and `delete` agree on every key that does not start with `/` |
| KeyPathStore.AsWrittenOnDimensional | Atomik.php:874-917 | on an array free of path keys, `delete` as written is the corrected delete, and `has` as written is false for every key starting with `/` |
| KeyPathStore.DeleteWalk | Atomik.php:927-938 | the descent of `delete` never adds a key |
| KeyPathStore.DeleteInAsWritten | Atomik.php:907-939 | `delete` as written throws exactly when no literal key (as `!strpos` sees it) is present and the walk is blocked; it never adds a key |
| KeyPathStore.DeleteIn | Atomik.php:907-939 | corrected `delete` throws exactly when the key is not a present slash-free key and the walk is blocked; it never adds a key |
| KeyPathStore.DeleteFailsWhenBlocked | Atomik.php:932-937 | `delete` throws exactly when a non-array value sits on the path before its last key |
| KeyPathStore.DeleteRemovesPath | Atomik.php:927-938 | after a `delete` that does not throw, nothing is found at the path |
| KeyPathStore.DeleteRemovesBelow | Atomik.php:927-938 | nor anywhere below the path |
| KeyPathStore.DeleteKeepsDisjoint | Atomik.php:927-938 | `delete` changes nothing on a path disjoint from its own |
| KeyPathStore.DeleteAbsent | Atomik.php:929 | deleting a path that leads nowhere, without throwing, leaves the array as it was |
| KeyPathStore.DeleteKeepsDimensional | Atomik.php:927-938 | `delete` keeps a store free of path keys |
| KeyPathStore.DeleteAsWrittenMissesPath | Atomik.php:917 | as written, `delete('/a')` on a store holding both a literal `/a` and a nested `['']['a']` unsets the literal entry, and `get('/a')` still finds a value |
| KeyPathStore.DeleteThenHas | Atomik.php:907-939 | after a corrected `delete(key)` that does not throw, `has(key)` is false |
| KeyPathStore.Store.Delete | Atomik.php:907-939 | `delete(key)` on the global store, as written: it throws exactly when `DeleteInAsWritten` does and otherwise applies it; on a valid store that is the corrected delete; the store stays free of path keys |
| Router.RouteRequest | Atomik.php:352-428 | `route` returns the query merged with the parameters, then with the matched route's request or `['action' => uri]` |
| Router.ScanRoutes | Atomik.php:372-416 | the scan over the routes stops at the first route that fits |
| Router.TryRoute | Atomik.php:378-415 | one route: its segments are walked, then, when the walk succeeds and binds `action`, the remaining uri pairs are read |
| Router.WalkSegments | Atomik.php:382-401 | the segment loop succeeds exactly when the pattern walk does, and builds the same request |
| Router.ReadPairs | Atomik.php:407-413 | the loop over the remaining uri segments adds each key/value pair |
| Router.Walk | Atomik.php:382-401 | the segment walk only adds keys, and each key it adds is the name of a parameter segment with a uri segment |
| Router.Overflow | Atomik.php:406-413 | reading the remaining pairs loses no key, and every new key is one of the remaining uri segments |
| Router.MatchPattern | Atomik.php:404 | a route that fits yields a request naming an `action` |
| Router.FirstMatch | Atomik.php:372-416 | the request of the first fitting route names an `action` |
| Router.WalkFits | Atomik.php:382-401 | the walk succeeds exactly when every pattern segment fits: a literal equals the uri segment; a parameter has a uri segment or a default |
| Router.WalkBindsParam | Atomik.php:385-388 | a parameter segment with a uri segment binds its name to that uri segment, unless a later segment reuses the name |
| Router.WalkKeepsOther | Atomik.php:380-401 | a default that no bound parameter names survives the walk |
| Router.MatchPatternFits | Atomik.php:404 | a route fits exactly when its walk succeeds and the request names an `action` |
| Router.OverflowPairs | Atomik.php:408-412 | each remaining key with a following segment maps to that segment, unless the key comes again later |
| Router.OverflowUnmentioned | Atomik.php:408-412 | a request key not among the remaining keys keeps its value |
| Router.OverflowDropsUnpaired | Atomik.php:409 | a trailing key without a value is ignored |
| Router.FirstMatchFirst | Atomik.php:372-416 | the chosen route fits and every earlier route does not; no route is chosen only when none fits |
| Router.LaterRoutesIgnored | Atomik.php:414 | routes after the first fitting one have no effect |
| Router.Resolved | Atomik.php:404-421 | the resolved request always names an action |
| Router.RouteSpec | Atomik.php:423 | the route's request overrides the parameters, which override the query; no other key appears |
| Router.RouteFallback | Atomik.php:418-421 | with no route fitting, the router's own request is exactly `['action' => trimmed uri]`, so the action is the trimmed uri |
| Events.FreeSlot | Atomik.php:1113-1115 | the priority chosen is free; it is the first free one at or above the requested one, or at or below it for an important listener |
| Events.Register | Atomik.php:1118 | registration adds exactly the chosen priority, files the listener under it, keeps every other listener and keeps priorities unique |
| Events.SamePriorityOrder | Atomik.php:1113-1115 | two registrations at one priority come in registration order, or in reverse order when important |
| Events.LookupUnique | Atomik.php:1155 | in an array keyed by priority, a stored listener is the one found under its priority |
| Events.Registry.ListenEvent | Atomik.php:1103-1119 | the probing loop stores the listener at `FreeSlot`; every event keeps unique priorities |
| Events.SortInts | Atomik.php:1152 | `sort` returns the same integers in ascending order |
| Events.CallOrder | Atomik.php:1151-1152 | the priorities walked are ascending, and they are exactly the priorities in use |
| Events.InvokedInPriorityOrder | Atomik.php:1151-1157 | a listener at a lower priority is called before one at a higher priority |
| Events.RegisteredIsCalled | Atomik.php:1118 | a listener just registered is called by the next `fireEvent` of its event |
| Events.CallAll | Atomik.php:1153-1157 | the loop calls the listeners in the walked order and files each result under the callback's name |
| Events.Registry.FireEvent | Atomik.php:1145-1165 | `fireEvent` calls the listeners by ascending priority and returns the results array, or its concatenation in string mode |
| Events.Collect | Atomik.php:1155 | the results array has one key per distinct callback name, each once |
| Events.CollectLast | Atomik.php:1155 | callbacks sharing a name share one result: the result of the last one called |
| Events.FireNobody | Atomik.php:1148-1164 | an event without listeners gives `[]`, or `''` in string mode |
| Events.Registry.AttachClassListeners | Atomik.php:1126-1135 | every `on[A-Z]` method listens at priority 50 to the event its name spells, in method order |
| Events.Separate | Atomik.php:1131 | the replacement is exactly as long as the text plus two characters for each capital that follows a word character (so between one and three times as long) |
| Events.SeparateSuffix | Atomik.php:1131 | the replacement of a later part of the text is the tail of the replacement of an earlier part |
| Events.SeparateHead | Atomik.php:1131 | `::` is inserted before a character exactly when it is a capital right after a word character (`(?<=\w)[A-Z]`), and the character follows it |
| Events.SeparateRun | Atomik.php:1131 | a stretch with no capital after a word character is copied unchanged |
| Events.SeparateTwoWords | Atomik.php:1131 | two capitalised words with no other capitals come out joined by `::` |
| Events.SeparateAppend | Atomik.php:1131 | the replacement of `a + b` is the replacement of `a` followed by that of the `b` part, which still looks back at the last character of `a` |
| Events.SeparateWords | Atomik.php:1131 | any number of capitalised words (a capital, no other capital, ending in a word character) written together come out joined by `::` |
| Events.SeparateThreeWords | Atomik.php:1131 | three capitalised words written together come out as `a::b::c` |
| Events.IsListenerMethod | Atomik.php:1130 | `preg_match('/^on[A-Z].*$/')`: at least three characters, `on`, then a capital |
| Events.ListenerMethodShape | Atomik.php:1130 | a method is a listener exactly when its name is `on` followed by a name that starts with a capital |
| Events.EventName | Atomik.php:1130-1131 | the event name of `onXxx` starts with the capital after `on`, never with `::` |
| Events.EventNameExample | Atomik.php:1130-1131 | the method `onDispatchBefore` listens to `Dispatch::Before` |
| Events.EventNameThreeParts | Atomik.php:1130-1131 | the method `onAtomikDispatchBefore` listens to `Atomik::Dispatch::Before`, the three-part form of the events Atomik fires |
| Events.SeparateRoundTrip | Atomik.php:1131 | the replacement only inserts colons: removing them gives the text back |
| Events.EventNameRoundTrip | Atomik.php:1130-1131 | the event name of `onXxx` without its colons is `Xxx` |
| Dispatch.Blank | Atomik.php:252 | the trigger is blank when `isset` fails or `empty` holds: an absent parameter is blank; a one-character parameter is blank exactly when it is `0`; a longer one never is |
| Dispatch.RequestedUri | Atomik.php:250-257 | a blank trigger (absent, `''` or `'0'`) gives `default_action`; any other trigger gives what lies between its leading and trailing runs of `/` |
| Dispatch.SlashesAreNotBlank | Atomik.php:252-256 | any non-empty trigger made only of slashes is not blank, yet asks for the empty uri |
| Dispatch.Forbidden | Atomik.php:289-292 | the gate's test holds exactly when the action contains `..` or has an `_` at its start or right after a `/` |
| Dispatch.ResolveRequest | Atomik.php:281-285 | routed or not, the request names an action; routed, it is exactly what `route` returns (`RouteSpec`); without routing it is exactly `['action' => uri]` |
| Dispatch.ForbiddenMeaning | Atomik.php:289-292 | the gate refuses exactly the actions that contain `..` or have a `/`-segment starting with `_` |
| Dispatch.Decide | Atomik.php:248-292 | what is executed is exactly the resolved request for the given uri, or else the requested uri, and its action passes the gate |
| Dispatch.GateIsExact | Atomik.php:289-292 | the dispatch gives a 404 exactly when the resolved action contains `..` or a segment starting with `_`, with or without a given uri |
| Dispatch.BlankRunsDefault | Atomik.php:252-253 | with routing off, a blank trigger executes `default_action` when the gate lets it through |
| Dispatch.GivenUriAsIs | Atomik.php:248-285 | a uri passed to `dispatch` makes the trigger and `default_action` irrelevant, and is used untrimmed |
| ExecContexts.Pushed | Atomik.php:451 | pushing puts the frame on top of the unchanged stack |
| ExecContexts.Popped | Atomik.php:480 | popping removes the top frame; an empty stack stays empty |
| ExecContexts.RenderOff | Atomik.php:517-522 | `noRender` clears the render flag of the top frame only; every other frame is unchanged |
| ExecContexts.Stack.Push | Atomik.php:451 | the stack after pushing is `Pushed` of the stack before |
| ExecContexts.Stack.Pop | Atomik.php:480 | the stack after popping is `Popped` of the stack before |
| ExecContexts.RenderOffTouchesTopOnly | Atomik.php:517-522 | an inner action's `noRender` leaves the frames below it alone |
| ExecContexts.Stack.NoRender | Atomik.php:517-522 | the stack after `noRender` is `RenderOff` of the stack before |
| ExecContexts.OutcomeOf | Atomik.php:452-488 | a cancelled or missing action gives `false`, or an exception when errors are on; a found action gives its variables exactly when rendering was off or was turned off by `noRender`, and its view otherwise |
| ExecContexts.FramesAfterAsWritten | Atomik.php:449-481 | as written, a completed action leaves the stack as it found it, and every other exit leaves one frame more |
| ExecContexts.Stack.ExecuteAsWritten | Atomik.php:444-489 | `execute` as written returns `OutcomeOf` and leaves `FramesAfterAsWritten` |
| ExecContexts.LeakedFrameTakesNoRender | Atomik.php:462-466 | as written, after a nested `execute` of a missing action, the outer action's `noRender` misses its own frame |
| ExecContexts.FramesAfter | Atomik.php:444-489 | corrected `execute` leaves the stack exactly as it found it |
| ExecContexts.Stack.Execute | Atomik.php:444-489 | corrected `execute` returns `OutcomeOf` and pops its frame on every exit |
| ExecContexts.NoRenderAfterNestedRun | Atomik.php:517-522 | with corrected `execute`, the caller's `noRender` after any nested run clears the caller's own frame |

## Left out

- Callbacks are not run. This covers listeners called through `call_user_func_array` and selector namespace callbacks. In the model, `reply` gives each listener's result, and `get` returns `Delegated` for a key that a registered selector takes.
- The `$args` passed to `fireEvent` and their by-reference effects are not modelled, nor are the `Router::Start`, `Router::End` and `Execute::*` events fired inside `route` and `execute`. In `execute`, what a listener decides enters only as the `declined` flag.
- File, HTTP and process I/O is left out: `require`, `file_exists`, `echo`, `exit`, `_executeInScope`, `render`, `renderLayout`, `trigger404` and `end`. Whether an action or view file exists, and whether the action calls `noRender`, are inputs to `execute`.
- Plugin loading, `path`, `url`, `asset`, `html`, `errorHandler` and `debug` are not part of this model.
- `parse_url` and `parse_str` are left out: the router gets the uri path and the decoded query.
- `dispatch` reads its configuration and `$_GET` through the caller, which supplies the trigger value, `default_action`, `enable_routing`, the routes and the parameters.
- Dispatch.Decide: decides on the resolved request. `dispatch` then stores it with `set('request', $request)`, which dimensionizes it, and executes `get('request/action')`. A request key such as `action/x` next to `action` turns that stored action into an array, so what is executed can differ from what the gate checked. The store round trip is not part of this decision.
- The base-url and url-rewriting settings of `dispatch` are left out, because they concern urls, not the decision.
- `add` mode, which uses `array_merge_recursive`, is left out: the flag is always false here.
- PHP's renumbering of integer-like keys is not modelled. This applies in `array_merge` and in arrays built with integer keys. Keys are strings throughout.
- KeyPathStore.GetWalk: does not model PHP string offsets. The model never descends into a string, while `isset("abc"["0"])` in PHP reads the character.
- KeyPathStore.Store.Get: `get`, `has` and `delete` called with an array of keys are modelled by the walk functions `GetWalk`, `HasWalk` and `DeleteWalk`, not as a separate entry point.
- Router.RouteRequest: loose `!=` between a uri segment and a literal pattern segment is modelled as string equality. PHP would also equate numeric strings such as `"1"` and `"01"`.
- Router.RouteRequest: route defaults and request values are strings. A null default, an array-valued parameter and an object used as a route are not modelled.
- Events.Registry.AttachClassListeners: takes the class's method names in the order `get_class_methods` lists them. Classes given as objects are not distinguished from class names.
- Events.Registry.ListenEvent: a listener stored as `null` would not block its priority in PHP, because `isset` is false. Listeners are never null here.
- Scalars are opaque strings, so PHP's `implode` of non-string results in `fireEvent` string mode is simply their concatenation.

## Findings

| source | as written | input that shows it | evidently intended | confidence | as-written member | corrected member |
|---|---|---|---|---|---|---|
| Atomik.php:874 | `has` takes the key literally when `!strpos($key, '/')` holds. That is also the case when the first `/` is at offset 0, so a key starting with `/` is never followed as a path | `set('/a', 1)` stores `['']['a'] = 1`; then `has('/a')` is false, although `get('/a')` returns 1 | treat every key containing `/` as a path, as `get` does with `strpos(...) === false` | high (not executed) | KeyPathStore.HasAsWrittenMissesLeadingSlash | KeyPathStore.SetThenHas |
| Atomik.php:917 | `delete` has the same `!strpos` test, so for a key starting with `/` it unsets a literal entry of that name instead of the path | store holding `'/a' => 1` and `'' => ['a' => 2]`; `delete('/a')` removes `'/a'`, and `get('/a')` still returns 2 | delete the path that `get` reads | high (not executed) | KeyPathStore.DeleteAsWrittenMissesPath | KeyPathStore.DeleteThenHas |
| Atomik.php:453-466 | `execute` pushes its context at line 451 but returns `false`, or throws, without popping it. Only the completed path pops, at line 480 | action `page` runs `execute('missing', true, false, false)` and then calls `noRender()`; the leaked frame of `missing` is cleared and `page` is still rendered | pop the context on every way out of `execute` | medium (not executed) | ExecContexts.LeakedFrameTakesNoRender | ExecContexts.NoRenderAfterNestedRun |
