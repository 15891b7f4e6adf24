# A verified model of the skip-pub-ip proof-of-concept peer-to-peer node

The system is a small peer-to-peer node with three sequential pieces of logic inside a lot of library wiring:

- **The Rust libp2p node** (`src/main.rs`):
  - It seeds its Kademlia routing table with the IPFS bootstrap peers and starts a bootstrap query.
  - It then runs one `select!` loop over swarm events, a lookup timer and lines from standard input.
  - A server announces its service key once bootstrapped. A client looks the key up until it finds a provider, then dials it.
  - Lines typed on standard input are classified as `send <peer> <msg>`, `list`, or unknown.
- **The `BTDht` Python extension** (`src/lib.rs`):
  - It is a handle on a mainline BitTorrent DHT node, plus a local registry of services.
  - `register_service` stores a `PeerInfo` as an immutable item and returns its target as `Id(<hex>)` text.
  - `find_by_hash` parses that text back into a 20-byte target. It returns the `ws_url` of the first answer that deserializes.
- **The Python client** (`p2p_client.py`):
  - It learns the server's peer id from the node's output.
  - It writes `send <id> <json>` lines to the node's standard input.
  - It turns interactive input into request messages.

## Layout

| file | module | what it holds |
|---|---|---|
| `wrappers.dfy` | `Wrappers` | `Option` and `Result` |
| `utf8.dfy` | `Utf8` | UTF-8 encoding of text (`str::as_bytes`). It is injective and ASCII-transparent. |
| `text.dfy` | `Text` | Rust and Python whitespace, `trim`/`strip`, `split_whitespace`, `join`, substring search, `trim_start_matches`/`trim_end_matches`, ASCII lower-casing |
| `hex.dfy` | `Hex` | The `hex` crate's decoder (section 8 of RFC 4648) and lower-case encoder |
| `dht_hash.dfy` | `DhtHash` | `Id(<hex>)` formatting and the hash parsing of `find_by_hash` |
| `keys.dfy` | `Keys` | Iterating over a hash map's keys, each once, in an unspecified order |
| `node_command.dfy` | `NodeCommand` | `service_key` and the `handle_command` classifier |
| `node_machine.dfy` | `NodeMachine` | The event loop's flags as a transition system over inputs, with the gating lemmas |
| `node.dfy` | `Node` | The node as a class `EventLoop`: start-up, plus one method per `select!` arm |
| `bt_dht.dfy` | `BtDht` | The class `BTDht` and the response scan |
| `client.dfy` | `Client` | The class `P2PClient`, interactive mode, and the client-to-node command round trip |

How the node model fits together:

- `Node.EventLoop` keeps the loop's flags `bootstrapped`, `registered` and `discovered_peer`.
- It also keeps the calls made on the swarm, in order (`issued`).
- Its invariant `Valid` states that the flags and calls are those of `NodeMachine.Run` on the inputs handled so far.
- Every gating lemma proved about `Run` therefore holds of every interleaving of the arms.

The code is followed where its comments or log wording suggest more:

- A `start_providing` call that the behaviour refuses leaves `registered` unset, so a later Bootstrap(Ok) tries again (`RefusedRegistrationRetried`).
- The FoundProviders arm does not look at `discovered_peer`. A later non-empty result records the new peer and dials again (`FoundProvidersDialsFirst`).
- The `peers` map of `NodeState` is created empty and nothing ever inserts into it. `list` therefore always reports the map as it is, which in the program is empty.

## Model

| member | source | states |
|---|---|---|
| `NodeCommand.ServiceKeyBytes` | src/main.rs:291-293 | The record key is the UTF-8 bytes of `service:` followed by the bytes of the name; every key shares that prefix |
| `NodeCommand.ServiceKeyInjective` | src/main.rs:291-293 | Two service names with the same record key are the same name |
| `Utf8.EncodeInjective` | src/main.rs:292 | Text is determined by its UTF-8 bytes, which is why the key is injective |
| `NodeCommand.ParseCommandClassifies` | src/main.rs:268-288 | In terms of the line's words, a line is classified as one of three commands. Send: exactly when there are at least three words and the first is `send`; the peer is word 1 and the message is words 2 onward joined by single spaces, whose own words are exactly those. List: exactly when the first word is `list`, whatever follows. Unknown: in every other case. |
| `NodeCommand.BlankLineIsUnknown` | src/main.rs:268-288 | An empty or whitespace-only line is an unknown command |
| `Text.TokensOfTrim` | src/main.rs:268 | Trimming before `split_whitespace` does not change the words |
| `Text.TokensOfJoin` | src/main.rs:273 | Words joined by single spaces split back into the same words |
| `Text.TokensEmptyIffBlank` | src/main.rs:270 | A line has no words exactly when it is blank |
| `Node.EventLoop.constructor` | src/main.rs:144-147 | The flags start unset, nothing has been handled or called, and the peers map is empty. The record key is the service key of the configured name. |
| `Node.EventLoop.AddBootstrapSeeds` | src/main.rs:120-130 | The seed loop appends exactly the `add_address` calls of the seeds that parse and name a peer, in order, and keeps the loop invariant |
| `NodeMachine.SeedActionsExactly` | src/main.rs:120-130 | An `add_address(p, a)` call is made exactly when some seed parses as `a` with peer `p`. Unparsable seeds and seeds without a peer are skipped. |
| `Node.EventLoop.StartBootstrap` | src/main.rs:133-136 | `kad.bootstrap()` is called once and an error it returns is only logged; the loop invariant is kept |
| `Node.EventLoop.AddListenAddrs` | src/main.rs:198-200 | The identify arm adds every listen address of the peer under that peer, in order |
| `Node.EventLoop.OnSwarmEvent` | src/main.rs:188-247 | The swarm arm records the event and moves the flags and calls one `Step` on, keeping the invariant that they are those of the run of all inputs handled |
| `Node.EventLoop.Dispatch` | src/main.rs:189-246 | The match on a swarm event changes the flags and makes the calls of one transition |
| `Node.EventLoop.OnLookupTick` | src/main.rs:250-253 | A tick issues `get_providers(service_key)` exactly when the mode is client, no peer is discovered and the node is bootstrapped; otherwise nothing happens |
| `Node.EventLoop.HandleCommand` | src/main.rs:262-289 | The stdin arm reports a send with the parsed peer and message, the usage hint, or for `list` a count equal to the peers map's size and every peer printed exactly once. It modifies nothing. |
| `Node.EventLoop.ListPeers` | src/main.rs:278-284 | `list` logs the number of peers and prints each key of the map exactly once, and only keys of the map |
| `Keys.Enumerate` | src/main.rs:281 | Iterating over a map's keys visits each key exactly once |
| `NodeMachine.RunMonotone` | src/main.rs:206-229 | From any state, no flag that is set is ever cleared, and `discovered_peer` never returns to None |
| `NodeMachine.FlagsNeverCleared` | src/main.rs:144-147 | Flags set after any prefix of the inputs are still set after all of them |
| `NodeMachine.BootstrappedIff` | src/main.rs:206-208 | `bootstrapped` is set exactly when some Bootstrap(Ok) result has been handled |
| `NodeMachine.NothingUntilBootstrapped` | src/main.rs:206-253 | While not bootstrapped, the node has made no `start_providing` and no `get_providers` call |
| `NodeMachine.NoRegistrationOrLookupBeforeBootstrap` | src/main.rs:206-253 | The inputs before the first Bootstrap(Ok) lead to no registration and no lookup |
| `NodeMachine.StepRegistration` | src/main.rs:210-218 | One input makes at most one `start_providing` call: only in server mode, only while unregistered, and only for a Bootstrap(Ok) result. It sets `registered` exactly when that call is accepted. |
| `NodeMachine.RegistrationOnce` | src/main.rs:210-218 | `registered` is set exactly when an accepted `start_providing` has been made, and no `start_providing` follows an accepted one |
| `NodeMachine.RolesSeparated` | src/main.rs:210-250 | A node not in server mode never calls `start_providing` and never becomes registered; one not in client mode never calls `get_providers` |
| `NodeMachine.NoLookupAfterDiscovery` | src/main.rs:250 | Once a provider is discovered, no `get_providers` call is made again and the peer stays discovered |
| `NodeMachine.LookupsStopOnceDiscovered` | src/main.rs:220-253 | Every call made after a prefix of the inputs that discovered a peer is something other than `get_providers` |
| `NodeMachine.StepDiscovered` | src/main.rs:220-229 | One input changes `discovered_peer` exactly when it dials, and records the peer it dials |
| `NodeMachine.DiscoveredIsLastDialed` | src/main.rs:220-233 | `discovered_peer` is always the peer of the most recent dial, or None if there was none |
| `NodeMachine.QuietEventsChangeNothing` | src/main.rs:190-245 | An empty FoundProviders, FinishedWithNoAdditionalRecord, a failed bootstrap, a new listen address and an established connection change no flag and make no call |
| `NodeMachine.FoundProvidersDialsFirst` | src/main.rs:220-229 | From any state, a non-empty FoundProviders result records its first provider and dials exactly that peer, with no other change. An already discovered peer is replaced and the new one dialled. |
| `NodeMachine.RefusedRegistrationRetried` | src/main.rs:206-218 | From any state of an unregistered server, a Bootstrap(Ok) sets `bootstrapped`, calls `start_providing` once and registers exactly when the call is accepted. After a refusal, the next Bootstrap(Ok) calls it again. |
| `Hex.DecodePairs` | src/lib.rs:137 | Decoding succeeds exactly when every byte is a digit, and then gives what the digit pairs stand for. Otherwise it reports the first non-digit byte and its index. |
| `Hex.Decode` | src/lib.rs:137 | An odd length is refused before any digit is looked at. Otherwise the result is as for `DecodePairs`, from index 0. |
| `Hex.DecodeEncodeLower` | src/lib.rs:137 | Decoding the lower-case encoding of any bytes gives the bytes back |
| `DhtHash.HexTextOfWrapped` | src/lib.rs:136 | Any number of leading `Id(` and trailing `)` around hex text are removed, and nothing else is |
| `DhtHash.ParseHashOutcome` | src/lib.rs:136-142 | Based on what is left once the wrapper is stripped: a non-hex character or an odd number of digits is an invalid format; an even number of digits other than 40 is the wrong size; exactly 40 digits are accepted |
| `DhtHash.ParseHashDecodes` | src/lib.rs:140-146 | An accepted target is exactly the bytes the 40 remaining digits decode to |
| `DhtHash.ParseFormat` | src/lib.rs:85 | Parsing the `Id(<lower-case hex>)` text of any 20-byte target gives the target back |
| `DhtHash.ParseHashFormats` | src/lib.rs:136-146 | An accepted hash string is, up to the case of its letters and repeated wrappers, the formatted text of the target it yields |
| `BtDht.FirstDecodable` | src/lib.rs:155-160 | The index found is that of a response that deserializes, and no earlier response does; None means none does |
| `BtDht.ScanResponses` | src/lib.rs:155-163 | The scan answers with the `ws_url` of the first response that deserializes, or None. It pulls responses only up to that one. |
| `BtDht.FoundUrlIgnoresLater` | src/lib.rs:155-160 | Responses after the first decodable one do not change the answer |
| `BtDht.BTDht.constructor` | src/lib.rs:37-43 | A new handle has no DHT and no services |
| `BtDht.BTDht.Start` | src/lib.rs:45-53 | `start` creates the DHT node |
| `BtDht.BTDht.RegisterService` | src/lib.rs:63-95 | The entry for the key is replaced by a PeerInfo with peer id `py-ws-<uuid>`, the given URL and port, whatever happens next; other keys are unchanged. Without a DHT the result is "DHT not started"; otherwise it is the `Id(<hex>)` text of the stored target, or the store's error. |
| `BtDht.BTDht.FindService` | src/lib.rs:97-126 | Without a DHT the result is "DHT not started" and no lookup is made. Otherwise the lookup is for the SHA-1 hash of the key's UTF-8 bytes and the result is the scan's answer. |
| `BtDht.BTDht.FindByHash` | src/lib.rs:128-165 | Without a DHT the result is "DHT not started", and a bad hash is an error; in both cases no lookup is made. Otherwise the lookup is for the parsed target and the result is the scan's answer. |
| `BtDht.BTDht.ListServices` | src/lib.rs:167-172 | Exactly one `(key, ws_url)` pair per registered service, each key once, with that service's URL |
| `Client.P2PClient.constructor` | p2p_client.py:13-15 | No server peer id is known and nothing has been written |
| `Client.ProviderIdBetweenMarkers` | p2p_client.py:57-60 | A line announces a peer exactly when it holds the marker. The id is the stripped text between the marker's first occurrence and the next occurrence, or the end of the line. |
| `Client.JoinSplit` | p2p_client.py:58 | Joining the pieces of `split` with the separator gives the line back |
| `Client.SplitPiecesFree` | p2p_client.py:58 | No piece of `split` holds the separator |
| `Client.P2PClient.ReadRustOutput` | p2p_client.py:46-61 | After reading lines, `server_peer_id` is the id of the last announcing line, or its earlier value if no line announces |
| `Client.UnmarkedLinesKeepId` | p2p_client.py:56-61 | Lines without the marker leave `server_peer_id` unchanged |
| `Client.LastAnnouncementWins` | p2p_client.py:56-61 | The last announcing line decides `server_peer_id`, overwriting earlier values |
| `Client.P2PClient.SendMessage` | p2p_client.py:63-73 | A set id is kept; an unset one is looked for once during the wait. A command is written exactly when an id is then set, and it is exactly `send <id> <json>\n`; otherwise nothing is written. |
| `Client.SendLineWords` | p2p_client.py:72 | Without its terminator, the command's words are `send`, the id, and the JSON's words |
| `Client.SendLineParsed` | p2p_client.py:72 | The node classifies the line the client writes as a send to that id, for an id without whitespace and JSON text without a line break. The message is the JSON's words joined by single spaces; a blank JSON text gives an unknown command. |
| `Client.JsonDeliveredVerbatim` | src/main.rs:271-276 | Single-spaced, non-empty JSON text reaches the node's `send` branch unchanged |
| `Client.JoinTokensSingleSpaced` | src/main.rs:273 | Single-spaced text is rebuilt exactly by joining its words with single spaces |
| `Text.TrimEmptyIffBlank` | p2p_client.py:96-99 | Stripping yields the empty string exactly when the input is blank, so exactly the blank inputs are skipped |
| `Text.TrimIdempotent` | p2p_client.py:96 | Stripping twice is stripping once |
| `Client.InteractiveMode` | p2p_client.py:94-119 | The loop hands exactly `Requests(inputs)` to `send_message`, in order. Each line is stripped, empty lines are skipped, and the first quit word or the end of input ends the loop. |
| `Client.BlankLineSkipped` | p2p_client.py:96-99 | A blank line, wherever it is typed, changes nothing that is handed to `send_message` |
| `Client.PayloadLineSent` | p2p_client.py:96-113 | Consider a line typed while no quit word has been typed that is neither blank nor a quit word. It is handed on as one `request` carrying its stripped text, after the requests of the lines before it and before those of the lines after it. |
| `Client.CollectQuitFree` | p2p_client.py:94-113 | Lines with no quit among them contribute their requests in order, followed by those of the lines after them |
| `Client.CollectSkip` | p2p_client.py:98-99 | A skipped line contributes no request wherever it sits |
| `Client.RequestsWellFormed` | p2p_client.py:96-111 | Every message handed to `send_message` is a `request` from `python_client`. Its payload is stripped, non-empty text that is not a quit word. |
| `Client.PayloadStripped` | p2p_client.py:96-108 | A payload is the stripped line: non-empty, not a quit word, and unchanged by stripping again |
| `Client.CollectStopsAtQuit` | p2p_client.py:101-103 | Nothing classified after a quit contributes a request |
| `Client.NothingAfterQuit` | p2p_client.py:101-103 | Whatever is typed after a line that is a quit word in any letter case is never handed to `send_message` |
| `Client.QuitNonEmpty` | p2p_client.py:98-101 | A quit word is never empty, so the emptiness test and the quit test never both apply |

## Left out

- The libp2p transports, their encryption and multiplexing, relay, DCUtR, ping, identify and the Kademlia query engine are outside the model. They appear only as the swarm events the loop receives and the calls it makes.
- `tokio::select!`, the spawned stdin and timer tasks, the channels and the `RwLock` are not modelled. Each arm is a method that may be called in any order. The lookup timer is an input whose arm is a no-op when its guard is false.
- Clocks are not modelled: the query and idle timeouts, the 10-second lookup interval, and the client's sleeps. During `send_message`'s wait, what the reader sees is passed in as `duringWait`.
- Multiaddr parsing belongs to libp2p, so the parse result of each seed is a parameter. The `expect("valid peer id")` panic on a `/p2p/` part that is not a peer id is not modelled.
- Outside the model, with results passed in as parameters:
  - bincode serialisation and deserialisation (deserialisation is an arbitrary partial function)
  - the uuid generator
  - SHA-1 (`hash_immutable`)
  - `put_immutable` and `get_immutable`
  - pyo3 and the Python futures
  - The serialisation failure of `register_service` is not modelled, because serialising a PeerInfo with bincode does not fail.
- Client.SendLineParsed: requires the JSON text to hold no line break. The node reads its standard input line by line, so a raw newline would split the command in two. `json.dumps` escapes newlines, so its output never holds one; splitting the node's input into lines is not modelled.
- The `bootstrap` method of `BTDht` only prints and is not modelled.
- The `Id::from_bytes` error path in `find_service` and `find_by_hash` cannot be reached with 20 bytes and is not modelled.
- `find_service` derives its target from the raw key text, while `register_service` stores under the hash of the serialised PeerInfo. So no register-then-find round trip holds, and none is stated.
- Log lines, `println!` and `print` output are not modelled.
- Sending messages to peers is not modelled. The `send` command only logs, and the `peers` map is never populated, so its `Sender` values are opaque (`ByteSink`).
- The message dictionary's `timestamp` is not modelled. Its `metadata` holds only `from`, kept as a field of `Message`. `json.dumps` is not modelled: its text is a parameter of `SendMessage`.
- `KeyboardInterrupt` is not modelled. `EOFError` is the end of the input sequence, which ends interactive mode.
- Decoding the node's output as UTF-8 is not modelled, and neither are its decoding errors: lines are text.
- Client.IsQuit: lower-cases ASCII letters only, where Python's `str.lower` lower-cases every script; the quit test still agrees with Python's, because no non-ASCII character lower-cases to text made only of the letters of `quit`, `exit` and `q`.
- The command-line `port` argument of the node is not modelled.
- `holepunch.py`, `p2p_server.py`, `ws_client.py` and `ws_server.py` are not part of this model.
