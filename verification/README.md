# GetServerStats request builder, in Dafny

This project models the `GetServerStats` admin request of the Zimbra API client library. The request collects an ordered list of `Stat` structs, each naming one server monitoring statistic to ask for. It offers four operations on that list:

- a constructor that filters its argument;
- `addStat`, which appends one struct;
- `stats()`, a getter;
- `stats($array)`, a bulk replace that drops every element that is not a `Stat`.

Two serialisation steps write the list into the request's representations:
- `toArray` sets the `'stat'` key of the array form;
- `toXml` appends `'stat'` children to the XML document.

One instance is an immutable `Request` record with three fields:
- `stats`: the collected list;
- `arrayStat`: the `'stat'` key of the array form, absent (`None`) or present;
- `xmlChildren`: the `'stat'` children of the XML document, in document order.

Every method is a pure function from the old record to the new one. Methods that return something (the list, `$this`, or a serialised form) return a `Returned(state, value)` pair, where `This` stands for the instance handed back for chaining. Elements of a loosely typed PHP array are `Candidate`s: `IsStat(stat)` or `NotStat`. The omitted (`null`) argument of `stats()` is `None`.

The `Stat` struct is reduced to the contract the request relies on. `ArrayForm(s, tag)` is a mapping with the single key `tag`, whose value is the struct's attribute mapping. `XmlForm(s, tag)` is an element tagged `tag` with the same attributes. The attributes themselves are an opaque string map.

Files:
- `wrappers.dfy`: `Option`.
- `soap_struct.dfy`: `Stat`, `XmlElement` and the struct's two forms.
- `get_server_stats.dfy`: the request state and one transition per method.
- `properties.dfy`: lemmas that relate several calls.
- `corrected_serialization.dfy`: the two findings below, each as a counterexample against the code as written plus a corrected transition.

Two behaviours of the code differ from what the class's own documentation leads one to expect, and the model follows the code in both:
- The class docblock (GetServerStats.php:20) says that when no `<stat>` element is given, the server returns all stats. So a request whose list has been emptied should send no `'stat'` entry. The code instead keeps the stale `'stat'` key from an earlier `toArray` call.
- The `toXml` docblock (GetServerStats.php:102) calls its result "the xml representation of this class". Our reading is that this describes the current stats, once each. The code instead appends the children again on every call.

Both behaviours are modelled as written and reported under Findings, each with a corrected transition.

## Model

| member | source | states |
|---|---|---|
| GetServerStats.New | src/Zimbra/API/Admin/Request/GetServerStats.php:41-45 | A new request holds exactly the `Stat` elements of the constructor argument, has no `'stat'` array entry and no XML children; `New([])` is the default construction |
| GetServerStatsProperties.ConstructThenRead | src/Zimbra/API/Admin/Request/GetServerStats.php:41-70 | Constructing with a list of stats and reading it back with `stats()` gives the same list, in the same order |
| GetServerStats.AddStat | src/Zimbra/API/Admin/Request/GetServerStats.php:53-57 | `addStat(s)` returns the instance, grows the list by exactly one, keeps every earlier element in place, puts `s` last, and touches neither serialised form |
| GetServerStatsProperties.AddStatExtendsCandidates | src/Zimbra/API/Admin/Request/GetServerStats.php:53-79 | `addStat(s)` after `stats(xs)` leaves the same instance as `stats(xs + [s])`, and returns that instance |
| GetServerStatsProperties.AddStatAfterConstruct | src/Zimbra/API/Admin/Request/GetServerStats.php:41-57 | Constructing with `[a]` and then `addStat(b)` gives the same list as constructing with `[a, b]` |
| GetServerStats.Stats | src/Zimbra/API/Admin/Request/GetServerStats.php:65-79 | Without an argument, `stats()` returns the current list and leaves the whole instance unchanged; with an array, it returns the instance and performs the bulk replace |
| GetServerStats.SetStats | src/Zimbra/API/Admin/Request/GetServerStats.php:71-79 | The bulk replace discards the previous list. A stat ends up in the new list exactly when it occurs in the argument. The new length is the number of `Stat` elements, at most the argument's length. Neither serialised form is touched |
| GetServerStats.FilterStats | src/Zimbra/API/Admin/Request/GetServerStats.php:71-78 | The setter's loop keeps the `Stat` elements in input order. It reports the strictly increasing input positions they came from, and those positions are exactly the positions that hold a `Stat` |
| GetServerStats.FilterMembership | src/Zimbra/API/Admin/Request/GetServerStats.php:72-78 | A stat is kept by the filter if and only if it occurs in the input: no `Stat` is lost and nothing else gets through |
| GetServerStatsProperties.SelectsUnique | src/Zimbra/API/Admin/Request/GetServerStats.php:71-78 | Any list made from the `Stat` elements at all `Stat` positions of the input, in increasing order, equals the filter's result. So the setter's result is the order-preserving subsequence of `Stat`s and nothing else |
| GetServerStatsProperties.SetStatsOfGetIsIdentity | src/Zimbra/API/Admin/Request/GetServerStats.php:65-79 | `stats(stats())` leaves the whole instance unchanged |
| GetServerStatsProperties.SetStatsIdempotent | src/Zimbra/API/Admin/Request/GetServerStats.php:71-79 | Replacing twice with the same array is the same as replacing once |
| GetServerStats.StatEntries | src/Zimbra/API/Admin/Request/GetServerStats.php:91-96 | The rebuilt `'stat'` entry has one element per stat, and its i-th element is the `'stat'` sub-mapping of the i-th stat's array form |
| GetServerStats.ToArray | src/Zimbra/API/Admin/Request/GetServerStats.php:87-99 | With a non-empty list, `toArray` sets the `'stat'` entry to the list's sub-mappings, in order and of the same length. With an empty list it changes nothing, so an absent entry stays absent and an earlier one stays. The list and the XML children are untouched, and the returned entry is the stored one |
| GetServerStatsProperties.ToArrayIdempotent | src/Zimbra/API/Admin/Request/GetServerStats.php:89-98 | A second `toArray` with no mutation in between changes neither the instance nor the returned entry |
| GetServerStatsProperties.FreshToArrayAbsentIffNoStats | src/Zimbra/API/Admin/Request/GetServerStats.php:41-97 | On a freshly constructed request, `toArray` has no `'stat'` entry if and only if the constructor argument held no `Stat` |
| GetServerStatsProperties.EmptyListKeepsEntry | src/Zimbra/API/Admin/Request/GetServerStats.php:89-97 | With an empty list, `toArray` returns whatever `'stat'` entry an earlier call left |
| GetServerStats.StatElements | src/Zimbra/API/Admin/Request/GetServerStats.php:108-111 | One XML child per stat, in list order, the i-th being the i-th stat's XML form under tag `'stat'` |
| GetServerStats.ToXml | src/Zimbra/API/Admin/Request/GetServerStats.php:106-113 | `toXml` keeps the existing children as a prefix and appends exactly one `'stat'` child per stat, in list order. The list and the array entry are untouched |
| GetServerStatsProperties.ToXmlAccumulates | src/Zimbra/API/Admin/Request/GetServerStats.php:108-111 | After n `toXml` calls with no mutation, the children are the earlier children followed by n copies of the stats' elements |
| GetServerStatsProperties.ToXmlChildCount | src/Zimbra/API/Admin/Request/GetServerStats.php:108-111 | n `toXml` calls add exactly `n * |stats|` children |
| GetServerStatsProperties.ToXmlNotIdempotent | src/Zimbra/API/Admin/Request/GetServerStats.php:108-111 | With at least one stat, a second `toXml` call changes the document |
| GetServerStatsProperties.FreshFormsAgree | src/Zimbra/API/Admin/Request/GetServerStats.php:87-113 | On a freshly constructed request, one `toArray` and one `toXml` describe the same stats. The array entry is absent exactly when there are no children, and otherwise lists the children's attributes in order |
| GetServerStatsProperties.TwoStatsForms | src/Zimbra/API/Admin/Request/GetServerStats.php:87-113 | A request built from two stats serialises to a two-element `'stat'` entry and two `'stat'` children, both in construction order |
| GetServerStatsProperties.TwoStatsExample | src/Zimbra/API/Admin/Request/GetServerStats.php:87-99 | The request for `threads_active` = 5 and `request_count` = 120 gives a `'stat'` entry holding those two name/value mappings, in order |
| CorrectedSerialization.StaleEntryAfterClear | src/Zimbra/API/Admin/Request/GetServerStats.php:89-97 | As written: serialise one stat, clear the list with `stats([])`, and `toArray` still reports the removed stat |
| CorrectedSerialization.ToArrayReset | src/Zimbra/API/Admin/Request/GetServerStats.php:89-97 | Corrected `toArray`: the `'stat'` entry is absent if and only if the list is empty, and otherwise holds the list's sub-mappings in order |
| CorrectedSerialization.ToArrayResetMatchesFresh | src/Zimbra/API/Admin/Request/GetServerStats.php:89-97 | The corrected entry depends on the current list alone: it is what a fresh request with the same stats produces |
| CorrectedSerialization.XmlDuplicatesOnSecondCall | src/Zimbra/API/Admin/Request/GetServerStats.php:108-111 | As written: two `toXml` calls on an unchanged one-stat request leave two identical `'stat'` children |
| CorrectedSerialization.ToXmlRebuild | src/Zimbra/API/Admin/Request/GetServerStats.php:108-111 | Corrected `toXml`: the children are exactly one `'stat'` element per stat, in list order, whatever was there before |
| CorrectedSerialization.ToXmlRebuildIdempotent | src/Zimbra/API/Admin/Request/GetServerStats.php:108-111 | The corrected XML path is idempotent |
| CorrectedSerialization.ToXmlRebuildMatchesFresh | src/Zimbra/API/Admin/Request/GetServerStats.php:108-111 | The corrected children are what a fresh request with the same stats produces |
| CorrectedSerialization.CorrectedFormsAgree | src/Zimbra/API/Admin/Request/GetServerStats.php:87-113 | With the corrected pair, after any history, the array entry is absent exactly when there are no children, and otherwise lists the children's attributes in order |

## Left out

- The parent `Zimbra\Soap\Request` class is not part of this model: its constructor and the rest of the array and XML representations that `parent::toArray()` and `parent::toXml()` return. The model covers only the `'stat'` key and the `'stat'` children this class writes. It takes the returned array's `'stat'` key to be the stored one. On the XML side, it likewise takes the document that `parent::toXml()` returns to hold every child appended to `$this->xml`, and it assumes the parent never resets that document between calls. The accumulation of children over repeated `toXml` calls depends on this assumption.
- The internals of `Zimbra\Soap\Struct\Stat` are not part of this model. A struct is an opaque attribute map, and its two forms follow the struct contract described above.
- SimpleXML element construction and XML text are not modelled. The document's `'stat'` children are a sequence of tag/attribute pairs.
- PHP's type checks on the `array` and `Stat` parameter hints happen before the methods run. They become Dafny parameter types, so the `TypeError` for a non-array or non-`Stat` argument is not modelled.
- Object identity is not modelled. "Returns the same instance" becomes "returns the new state of the same request", so aliasing between callers who share one instance is not represented.
- The SOAP transport, the envelope, and server-side faults such as an unknown statistic name are remote behaviour, not code in this class.

## Findings

| source | as written | input that shows it | evidently intended | confidence | as-written member | corrected member |
|---|---|---|---|---|---|---|
| src/Zimbra/API/Admin/Request/GetServerStats.php:89-97 | The `'stat'` entry is reset only when the list is non-empty, so once the list is emptied the previous entry stays | Construct with one stat, call `toArray()`, call `stats(array())`, call `toArray()` again: the removed stat is still under `'stat'` | The class docblock at :20 says an absent `<stat>` element asks for all stats. So with an empty list the array form should have no `'stat'` key, and the entry should always describe the current list | medium; not executed | CorrectedSerialization.StaleEntryAfterClear | CorrectedSerialization.ToArrayReset |
| src/Zimbra/API/Admin/Request/GetServerStats.php:108-111 | Every `toXml` call appends one child per stat to the same document, without removing earlier ones | Construct with one stat and call `toXml()` twice: the document holds two identical `'stat'` children | Our reading of the docblock at :102 ("the xml representation of this class"): the `'stat'` children are exactly the current stats, once each, so `toXml` is idempotent | medium; not executed | CorrectedSerialization.XmlDuplicatesOnSecondCall | CorrectedSerialization.ToXmlRebuild |
