# insights-operator-mock: the configuration merge and the polling ticks

This project models the core of the insights-operator mock agent (`mock.go`),
an agent that keeps a local operator configuration in sync with a remote
service and acknowledges the triggers the service issues. The model covers:

- `OperatorConfiguration`, a map from string keys to values the agent never
  inspects (the type parameter `V`). It is a class whose `entries` field the
  methods `AddAll`, `UpdateExisting` and `MergeWith` change in place, key by
  key, as the Go `for key, value := range other` loops do. Each method is
  proved to leave the map given by a pure function (`AddedAll`,
  `UpdatedExisting`, `Merged`). The lemmas about those functions state the
  merge contract. A merge into an empty configuration copies every key of the
  delta (bootstrap union). A merge into a non-empty one overwrites only keys
  already present and silently drops the rest (steady-state intersection).
- The key order of `print`: the keys are gathered one by one and sorted
  (`sort.Strings`, modelled by an insertion sort proved sorted and a
  permutation), so each key is listed once, in ascending order.
- The status decisions of `performReadRequest` (200 only) and
  `performWriteRequest` (200, 201 or 202). These are the codes of section
  15.3 of RFC 9110.
- The request addresses, including `strconv.Itoa` for the trigger id (proved
  canonical), with a reference parser proving that an acknowledgement address
  names its trigger.
- One tick of each polling loop, with the transport and JSON decoding passed
  in as functions. `get` gives the reply to a GET of an address. `put` gives
  the reply to the n-th PUT of a tick. `decode` gives the decoded body or
  `None`.

Three points about the code shape the model:

- The code has no execution step: it logs each trigger and acks it
  (mock.go:238-251).
- The mutex (mock.go:219-221) guards a goroutine-local map, and the
  package-level `configuration` (mock.go:55) is never used, so the model has
  no shared state.
- The check `c2 != nil` (mock.go:217) is always true after a successful
  retrieval, because `c2` is made non-nil at mock.go:170 and `fromJSON` has a
  value receiver. The model therefore merges on every successful retrieval.

Strings are compared character by character (Unicode scalar values). This
is the same order as Go's byte-wise comparison of their UTF-8 encodings.

## Model

| member | source | states |
|---|---|---|
| Configuration.AddedAll | mock.go:64-68 | every delta key takes the delta's value; keys not in the delta keep theirs; the key set is the union |
| Configuration.UpdatedExisting | mock.go:70-77 | the key set is unchanged; keys in both maps take the delta's value, keys absent from the delta keep their old value |
| Configuration.Merged | mock.go:79-85 | the key set is the delta's when the configuration was empty, else unchanged (new delta keys dropped); kept keys hold the delta's value if it has one, else their old value |
| Configuration.OperatorConfiguration.constructor | mock.go:36-39 | a new configuration is empty |
| Configuration.OperatorConfiguration.AddAll | mock.go:64-68 | the in-place loop leaves exactly `AddedAll(old, other)` |
| Configuration.OperatorConfiguration.UpdateExisting | mock.go:70-77 | the in-place loop leaves exactly `UpdatedExisting(old, other)` |
| Configuration.OperatorConfiguration.MergeWith | mock.go:79-85 | leaves `Merged(old, other)`: addAll when empty, updateExisting otherwise |
| Configuration.OperatorConfiguration.PrintOrder | mock.go:95-102 | lists every key of the configuration exactly once, in strictly ascending order, and nothing else |
| Configuration.MergeIntoEmpty | mock.go:79-82 | merging into an empty configuration makes it equal to the delta |
| Configuration.MergeKeepsNonEmpty | mock.go:70-77 | a non-empty configuration stays non-empty through a merge |
| Configuration.MergeIsRestrictedUnion | mock.go:70-77 | a steady-state merge equals the union with the delta restricted to existing keys |
| Configuration.MergeIdempotent | mock.go:79-85 | merging the same delta twice gives the result of merging it once |
| Configuration.MergeEmptyDelta | mock.go:64-85 | merging an empty delta leaves the configuration unchanged, empty or not |
| Configuration.MergeExamples | mock.go:64-85 | `{a:1,b:2}` into empty gives `{a:1,b:2}`; `{a:9,c:3}` into `{a:1,b:2}` gives `{a:9,b:2}` |
| KeyOrder.Sort | mock.go:99 | the result is a sorted permutation of the input, strictly sorted when the input holds no string twice |
| KeyOrder.Less | mock.go:99 | no key sorts before itself; a proper prefix sorts before the longer key |
| KeyOrder.LessTotal | mock.go:99 | any two distinct keys are ordered one way |
| KeyOrder.StrictlySortedUnique | mock.go:95-102 | two strictly sorted listings of the same keys are equal, so `print`'s order does not depend on the map's iteration order |
| Http.ReadRequest | mock.go:125-142 | a read yields a body iff a reply arrived with status 200 and a readable body; other statuses give UnexpectedStatus, an unreadable body UnreadableBody, transport failures CommunicationError |
| Http.WriteRequest | mock.go:144-160 | a write succeeds iff a reply arrived with status 200, 201 or 202; otherwise the matching error |
| Http.ReadAccepted | mock.go:131 | a read accepts exactly status 200 (proved in ReadAcceptsOnly200), which a write accepts too |
| Http.WriteAccepted | mock.go:156 | a write accepts exactly 200, 201 or 202 (proved in WriteAcceptsOnly2xxTriple), all in the Successful (2xx) class |
| Http.ReadAcceptsOnly200 | mock.go:131-133 | a readable reply is accepted by a read exactly when its status is 200 |
| Http.WriteAcceptsOnly2xxTriple | mock.go:156-158 | a reply is accepted by a write exactly when its status is in {200, 201, 202} |
| Decimal.NatToDigits | mock.go:196 | the decimal form of a natural number is non-empty, all digits, with no leading zero; 0 is exactly "0" |
| Decimal.Itoa | mock.go:196 | the canonical decimal form: a leading `-` exactly for negative ids, then at least one digit, with no leading zero, and 0 is exactly `0` (so no `-0`, no `007`, no `00`) |
| Decimal.ParseItoa | mock.go:196 | reading the decimal form back gives the id, negative ids included |
| Decimal.ItoaInjective | mock.go:196 | distinct ids have distinct decimal forms |
| Endpoints.ConfigurationAddress | mock.go:163 | the address is the service URL, the API prefix, `configuration/`, then the cluster |
| Endpoints.TriggersAddress | mock.go:180 | the address is the service URL, the API prefix, `triggers/`, then the cluster |
| Endpoints.AckAddress | mock.go:196 | the address is the service URL, the API prefix, `trigger/`, the cluster and `/ack/`, followed by the id's canonical decimal form |
| Endpoints.AckAddressRoundTrip | mock.go:195-196 | parsing an acknowledgement address back against its prefix gives exactly the trigger it was built for |
| Endpoints.AckAddressInjective | mock.go:196 | two triggers of one cluster are acknowledged at different addresses |
| Endpoints.AddressesDistinct | mock.go:163-196 | the configuration, triggers and acknowledgement addresses of one service never coincide |
| Endpoints.RetrieveConfigurationFrom | mock.go:162-177 | a delta is produced iff the GET of the configuration address got 200 with a readable body that decodes; it is the decoded map; an unreadable body gives UnreadableBody, one that does not decode UndecodableBody |
| Endpoints.RetrieveTriggersFrom | mock.go:179-193 | a trigger list is produced iff the GET of the triggers address got 200 with a readable body that decodes; it is the decoded list, in order; an unreadable body gives UnreadableBody, one that does not decode UndecodableBody |
| Endpoints.RetrievalNeeds200 | mock.go:131-133 | a non-200 reply fails the configuration retrieval with UnexpectedStatus, whatever its body |
| Endpoints.AckTrigger | mock.go:195-205 | an acknowledgement succeeds iff the PUT to the trigger's address got 200, 201 or 202 |
| Agent.OriginalConfiguration | mock.go:106-123 | empty when the file cannot be read; otherwise the entries decoding stored in the fresh map, returned whether or not decoding reported an error (a type error is reported after the whole object has been decoded, the other fields stored) |
| Agent.ConfigTick | mock.go:214-223 | a failed retrieval leaves the configuration unchanged; a successful one gives `Merged(c, delta)`, so every kept key the delta carries takes the delta's value; a seeded configuration keeps its key set; a first delta seeds it |
| Agent.ConfigurationTick | mock.go:214-223 | a tick merges iff the retrieval succeeded; the configuration is left as `ConfigTick` of the old one and the retrieval's result, unchanged when the retrieval failed |
| Agent.FailedTickUnchanged | mock.go:214-216 | a tick whose reply is not 200 (a 500, say) leaves the configuration exactly as it was |
| Agent.Run | mock.go:212-225 | over any run of ticks, a non-empty configuration keeps its key set; a run of failed retrievals leaves it unchanged |
| Agent.RepeatedTickIdempotent | mock.go:214-223 | a second tick retrieving the same delta changes nothing more |
| Agent.AckAll | mock.go:248-251 | one acknowledgement per trigger, the i-th as the i-th PUT of the tick to that trigger's address, whatever the earlier outcomes |
| Agent.TriggerTick | mock.go:232-255 | one acknowledgement per retrieved trigger, in retrieval order, to that trigger's address, whatever the earlier outcomes; none when retrieval fails |

## Left out

- HTTP transport (`http.Get`, `http.NewRequest`, `client.Do`, reading the body): foreign library calls; their result is an input `Response`.
- JSON decoding (`encoding/json`, `fromJSON`): an unseen library; it is a function parameter. For the service's replies it returns the decoded value or `None`; for the bootstrap file it returns the entries `json.Unmarshal` stored in the fresh map together with whether it reported an error.
- Reading the bootstrap file (`ioutil.ReadFile`): I/O; its result is an input to `Agent.OriginalConfiguration`.
- Logging (`klog`) and the printing side of `print`: only the key order is modelled.
- Goroutines, `sync.Mutex`, `time.Sleep` and the endless `for {}` loops (mock.go:207-263): concurrency and scheduling; one tick is modelled, and `Agent.Run` folds ticks in sequence.
- Serializability of merges under two concurrent writers: this is about the mutex and scheduling, which are not modelled.
- `main`, viper configuration loading and `StartInstrumentation`: process bootstrap and environment I/O.
- Trigger fields other than `Id` (mock.go:41-51): they are only logged.
- Integer widths: Go's `int` is 64-bit; trigger ids and status codes are unbounded integers here, which changes nothing the code does with them.
- Error messages: the `fmt.Errorf` texts are modelled as `Http.Error` cases, not strings.
