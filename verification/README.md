# realtime-client shard router, modelled in Dafny

The realtime client (Go package `client`) sends a payload, addressed by an
account id and a list of topics, to one of `maxNodes` shards of a
publish/subscribe service. It picks the shard as the IEEE CRC-32 of the
account id modulo the shard count, builds the shard's address
`<name>-<shard>.<name>:<port>` from the configured `name:port` service
string, and dials each shard lazily: the first send for a shard dials it and
caches the handle, and every later send for that shard reuses the cached
handle. A failed dial is returned to the caller and leaves the slot empty, so
a later send dials again.

The model is functional. The router is an immutable value holding the
service string, the shard count and a sequence of optional handles. Each
`getPubsubClient` call and each `Send` is a pure transition from one router
value to the next. Dialling and publishing are network calls. They are
function parameters of each call, so two calls may see different outcomes.
Each transition also reports what the call did: the address it dialled, if
any, and the handle and message it published, if any.

Modules:

- `Wrappers`: `Option`, `Result`, `Outcome`.
- `Crc32`: CRC-32 of IEEE 802.3 (section 3.2.9), written bit by bit over
  `seq<bv8>`. It uses the reflected polynomial 0xEDB88320, presets the
  register to all ones and complements the result, as Go's
  `crc32.ChecksumIEEE` does.
- `GoStrings`: `strings.Index` and `strings.SplitN(s, sep, 2)` for a
  one-character separator, and `strconv.Itoa` for non-negative numbers. It
  also has a decimal decoder `Atoi`, used as Itoa's inverse.
- `Shard`: Go's truncating `%`, the shard index, the service-string split and
  the shard address.
- `RealtimeClient`: `NewClient`, `getPubsubClient` and `Send`.
- `ClientTrace`: any sequence of `Send` calls. Every nil check and every
  write of the table happen under the mutex; the hit path re-reads the slot
  after unlocking, which returns the same handle because a filled slot is
  never overwritten. So every concurrent run acts on the table as one such
  sequence.

An account id is a Go `string`, which is a byte sequence. It is modelled as
`seq<bv8>`, and `[]byte(accid)` keeps those bytes unchanged. The service
string, the addresses and the topics are Dafny strings.

Two modelling choices:

- A service string without a colon is not rejected by `NewClient`. It fails
  at every cache miss, when `parts[1]` is out of range; in Go the first one
  panics. The model returns it as the fault `MissingPort`, with no
  dial and no change to the table. A cache hit never reads the service string.
- The worked end-to-end example, `RealtimeClient.EndToEndExample`, uses the
  CRC-32 check input "123456789" as account id (checksum 0xCBF43926, 2 modulo
  4), so on a 4-shard `realtime:48883` router it goes to shard 2 and dials
  `realtime-2.realtime:48883`.

## Model

| member | source | states |
|---|---|---|
| Crc32.CheckValue | client.go:57 | The checksum of "123456789" is 0xCBF43926, the published check value, which confirms the definition (reflected polynomial, all-ones preset, final complement) |
| Crc32.ReflectedIsReversal | client.go:57 | The reflected polynomial 0xEDB88320 used by the register is the bit reversal of the IEEE 802.3 generator 0x04C11DB7 |
| Crc32.ChecksumIEEE | client.go:57 | The checksum of the account id's bytes; the body is the definition (reflected polynomial 0xEDB88320, all-ones preset, final complement), and Crc32.CheckValue and Crc32.ReflectedIsReversal are its partner lemmas |
| Shard.GoRem | client.go:57 | Go's `%` satisfies the language's defining law `a == (a / b) * b + a % b` with truncated `/`, `|a % b| < |b|`, and the remainder has the dividend's sign |
| Shard.ShardIndex | client.go:57 | The shard index is in `[0, maxNodes)` and equals the checksum modulo `maxNodes`, so it depends only on the account id and the shard count |
| Shard.ShardIndexUnique | client.go:57 | Any `k` in `[0, maxNodes)` with `checksum == q * maxNodes + k` is the shard index: the index is uniquely determined |
| Shard.CheckInputShard | client.go:57 | Account "123456789" belongs to shard 2 of 4 |
| GoStrings.Index | client.go:67 | The result is -1 exactly when the character is absent; otherwise it is a position holding the character with none before it |
| GoStrings.SplitN2 | client.go:67 | One part exactly when the separator is absent, and then the part is the whole string; otherwise two parts, the first free of the separator, that rejoin around it to the input |
| GoStrings.SplitN2Join | client.go:67 | Splitting `a + sep + b`, where `a` has no separator, returns exactly `[a, b]` |
| Shard.ParseService | client.go:67-68 | A name and a port come back exactly when the service string contains `:`; the name contains no `:`, and `name + ":" + port` is the service string |
| Shard.ParseServiceJoin | client.go:67-68 | Parsing `name:port`, where the name has no colon, returns that name and that port; the port may itself contain colons |
| Shard.ServiceExample | client.go:23 | The documented service `realtime:48883` parses to name `realtime` and port `48883` |
| GoStrings.Itoa | client.go:70 | Itoa writes a canonical decimal: non-empty, digits only, no leading zero, and a single digit exactly for numbers below 10 |
| GoStrings.AtoiItoa | client.go:70 | Decoding what Itoa writes gives the number back |
| GoStrings.ItoaAtoi | client.go:70 | Every canonical decimal string is what Itoa writes for the number it denotes |
| GoStrings.ItoaInjective | client.go:70 | Distinct shard numbers are written differently |
| Shard.Address | client.go:70 | The dial address `<name>-<no>.<name>:<port>`; the body is the definition, and Shard.AddressSplit, Shard.AddressInjective and Shard.AddressExample are its partner lemmas |
| Shard.AddressExample | client.go:69-70 | Shard 3 of service `realtime:48883` is dialled at `realtime-3.realtime:48883` |
| Shard.AddressExampleShard2 | client.go:69-70 | Shard 2 of service `realtime:48883` is dialled at `realtime-2.realtime:48883` |
| Shard.AddressSplit | client.go:69-70 | A shard address splits at its first colon into the host `<name>-<shard>.<name>` and the configured port |
| Shard.AddressInjective | client.go:69-70 | Two shards of one service have the same address only if they are the same shard |
| RealtimeClient.NewClient | client.go:30-36 | A new router keeps the service and shard count and has `maxNodes` slots, all empty |
| RealtimeClient.GetPubsubClient | client.go:56-77 | Cache hit: the cached handle, no dial, table unchanged. Miss: one dial at `<name>-<shard>.<name>:<port>`, and the dial's error or handle is the result. Miss without a port: fault, no dial. Only the account's slot can change, a returned handle is the one the slot then holds, any failure leaves the table untouched, and no filled slot is overwritten |
| RealtimeClient.Send | client.go:39-52 | No topics: success with no lookup, dial, publish or change. Otherwise the table changes as the lookup changes it, a lookup failure is returned with nothing published, and on success the caller's account id, payload and topics are published once on the looked-up handle and the publish error is returned as is |
| RealtimeClient.PublishErrorKeepsHandle | client.go:50-51 | Whatever the publish call returns, the send leaves the same router and dials the same address: a publish error never drops or replaces the cached handle |
| RealtimeClient.DialFailureRetried | client.go:71-74 | After a failed dial, the next lookup for any account of the same shard dials the same address again |
| RealtimeClient.FirstSend | client.go:39-77 | On a fresh router, a first non-empty send dials its shard's address. If the dial succeeds, the handle is cached, the message is published on it and the publish result is returned. If it fails, the dial error is returned, nothing is published and the router stays fresh |
| RealtimeClient.EndToEndExample | client.go:39-77 | On a fresh 4-shard `realtime:48883` router, a non-empty send for account "123456789" dials `realtime-2.realtime:48883`; on success it publishes the caller's message on the new handle and returns the publish error as is, on failure it returns the dial error and publishes nothing |
| ClientTrace.Run | client.go:59-76 | After any sequence of sends, the router keeps its configuration and slot count, and every handle it held is still in its slot |
| ClientTrace.RunMonotone | client.go:60-75 | The router after any later prefix of the calls extends the router after any earlier one |
| ClientTrace.FillsSlotExactly | client.go:60-76 | A call dials successfully for a slot exactly when it turns that slot from empty to filled |
| ClientTrace.SuccessfulDialsExact | client.go:59-76 | Over any sequence of sends, a slot gets one successful dial if the sequence fills it, and none otherwise |
| ClientTrace.AtMostOneDialPerShard | client.go:34-76 | From a fresh router, each shard is dialled successfully at most once, and exactly once when it ends up connected |
| ClientTrace.ConnectedShardNotRedialled | client.go:60-62 | Once a call has obtained a handle for a shard, later calls for that shard never dial, and the non-empty ones publish on that same handle |
| ClientTrace.SameHandlePerShard | client.go:60-76 | All sends that publish for one shard publish on the same handle |

## Left out

- `dialGrpc` (client.go:79-88) is left out. It configures gRPC: an insecure
  transport, a blocking dial with a 10-second timeout, and a round-robin
  balancer. The model replaces it with a dial outcome per call, success or
  error. Wrapping the connection with `header.NewPubsubClient` (client.go:75)
  is folded into that outcome.
- The `Publish` RPC and its `context.Background()` (client.go:48-50) are a
  foreign network call. They are a publish outcome per call, pass or error.
- The mutex (client.go:20, client.go:59-65) is not modelled. Each
  `getPubsubClient` call is one atomic transition. On a hit, the code reads
  the slot after unlocking (client.go:61-62). That read still returns the
  handle seen under the lock, because a filled slot is never overwritten
  (`ClientTrace.RunMonotone`).
- Logging of a dial failure (client.go:72) is not modelled.
- `RealtimeClient.NewClient` requires `maxNodes > 0`. With a negative count,
  Go panics in `make`. With a count of zero, it panics on `% 0` at the first
  send with non-empty topics; a send with no topics returns before the
  shard is computed (client.go:40-42).
- Shard.ShardIndex: assumes a 64-bit Go `int`, where `int(uint32)` is never
  negative. On a 32-bit platform, checksums of 2^31 and above would become
  negative, and the index would be negative or zero: a negative index panics
  on the slice access, and a zero one (when `maxNodes` divides the wrapped
  value) does not panic but may select a different shard than on 64-bit.
  That case is not modelled.
- Service strings, addresses and topics are Dafny strings (sequences of
  Unicode scalar values), while Go strings are byte sequences. Splitting on the
  ASCII `:` agrees for valid UTF-8, but a service string holding invalid UTF-8
  cannot be represented.
- The missing-port runtime panic (client.go:68) is the fault value
  `MissingPort` rather than a process abort.
