# Contracts calls, transfer events and block polling in subxt

This project models two pieces of the subxt client library.

The first is the call family of the `Contracts` runtime module:
- The builders `put_code`, `create` and `call` each address the pair (`"Contracts"`, function name).
- Each serialises its argument tuple field by field, in declared order. Gas and balances are compact integers. Byte vectors are a compact length followed by the bytes. Hashes and addresses are written raw.
- A runtime must provide both `System` and `Balances` to qualify for `Contracts`.
- The module's one event is `CodeStored(hash)`: variant index 0, then the hash.

The second is the block-by-block event polling example:
- A cursor starts at block 1 and runs while it is below 50.
- For each index it asks for the block hash. When the hash comes back, it fetches that block's event log, drops the entries the lower layer failed to parse, reports the `Balances`/`Transfer` events whose fields decode, and only then moves to the next index.
- When no hash comes back it waits and asks again for the same index.

The compact integer codec is the one in the SCALE codec appendix of the Polkadot Protocol Specification ("Compact/General Integers"). The two low bits of the first byte select the mode:
- single byte: values below 2^6;
- two bytes: values below 2^14;
- four bytes: values below 2^30;
- big integer: a length byte, then at least four little-endian value bytes.

Decoding is canonical, as parity-scale-codec does it. A value written in a wider mode than it needs is refused (`OutOfRange`). A big-integer header that declares more bytes than the target type has is refused too (`UnexpectedPrefix`).

Files:
- `bytes.dfy`: bytes and little-endian integers.
- `wrappers.dfy`: `Option` and `Result`.
- `compact.dfy`: the compact codec.
- `scale.dfy`: vectors, fixed-size values and u128.
- `calls.dfy`: metadata lookup and call encoding.
- `capabilities.dfy`: runtime capabilities.
- `contracts.dfy`: the contracts call family and its event.
- `events.dfy`: the transfer event and the per-block scan.
- `poller.dfy`: the polling loop.

The Rust generics are replaced by a `RuntimeTypes` record. It gives the hash length, the address length and the balance width in bytes. The block source of the polling loop is an oracle: a finite script of answers, consumed one per request.

Reading an event as a transfer has three outcomes: no match, a decode error on a tag match, or the decoded transfer. `TransferEvents.AsTransfer` keeps the first two apart, as a stricter probe would. The example collapses them with `.ok().flatten()`, and so does `TransferEvents.Probe`, whose contract states what the collapse loses.

## Model

| member | source | states |
|---|---|---|
| Compact.DecodeEncode | src/paint/contracts.rs:93 | decoding the compact encoding of any value that fits the target width gives the value back, and leaves the bytes after it untouched |
| Compact.EncodeOfDecode | src/paint/contracts.rs:93 | whatever decodes is exactly the encoding of the decoded value followed by the remaining bytes, so no value has a second accepted encoding |
| Compact.EncodeInjective | src/paint/contracts.rs:93 | distinct values have distinct compact encodings |
| Compact.Encode | src/paint/contracts.rs:93 | what `compact(...)` writes: the mode bits of the first byte name the narrowest mode that holds the value (0b00 below 2^6, 0b01 below 2^14, 0b10 below 2^30, 0b11 otherwise), and the encoding is one, two or four bytes long, or a length byte followed by the fewest value bytes (at least four) |
| Scale.DecodeVecEncode | src/paint/contracts.rs:91-93 | a byte vector written as compact length then bytes reads back byte for byte, with the bytes after it untouched |
| Scale.EncodeVecOfDecode | src/paint/contracts.rs:91-93 | whatever decodes as a vector is exactly that vector's encoding followed by the rest |
| Scale.DecodeFixed | src/paint/contracts.rs:113-118 | a fixed-size value is read raw: it succeeds exactly when enough bytes remain, and splits the input at that width; otherwise it fails with `NotEnoughData` |
| Scale.DecodeU128Encode | examples/examples/query_events.rs:27 | a u128 is sixteen little-endian bytes and reads back unchanged |
| Scale.EncodeU128OfDecode | examples/examples/query_events.rs:27 | any sixteen bytes are the u128 encoding of the value they read as |
| Calls.EncodeCall | src/paint/contracts.rs:93 | encoding a call succeeds exactly when the module and then the function are found in the metadata; the result is the module's tag, the function's tag, then the argument bytes unchanged |
| Calls.EncodeCallInjective | src/paint/contracts.rs:93 | under metadata whose tags are distinct, two calls with the same encoding are the same call |
| Capabilities.Missing | src/paint/contracts.rs:27 | names a missing base capability exactly when some component of the requested capability is not provided, and the one it names is a component the runtime lacks |
| Capabilities.ContractsIsConjunction | src/paint/contracts.rs:27-39 | a runtime qualifies for `Contracts` exactly when it qualifies for `System` and for `Balances` |
| Capabilities.StructuralNotNominal | src/paint/contracts.rs:27-39 | declaring `Contracts` by name neither grants nor removes the capability; only `System` and `Balances` count |
| Contracts.GasRoundTrip | src/paint/contracts.rs:24 | every u64 gas value survives compact encoding and decoding, whatever bytes follow |
| Contracts.GasOfDecode | src/paint/contracts.rs:24 | a decoded gas value fits u64, and the bytes it came from are exactly its encoding |
| Contracts.GasEncodingInjective | src/paint/contracts.rs:24 | distinct gas values have distinct encodings |
| Contracts.BalanceRoundTrip | src/paint/contracts.rs:111-118 | a balance of the runtime's balance type survives compact encoding and decoding |
| Contracts.PutCodeRoundTrip | src/paint/contracts.rs:88-94 | `put_code`'s arguments are compact gas, then compact length and code; splitting them at these boundaries recovers the gas and a byte-identical code |
| Contracts.CreateRoundTrip | src/paint/contracts.rs:109-120 | `create`'s arguments are compact endowment, compact gas, raw code hash, then length-prefixed data, with nothing between; every field is recovered at its boundary |
| Contracts.CallRoundTrip | src/paint/contracts.rs:130-139 | `call`'s arguments are raw destination, compact value, compact gas, then length-prefixed data; every field is recovered at its boundary |
| Contracts.ArgsRoundTrip | src/paint/contracts.rs:88-139 | for each builder, the argument tuple splits back into exactly the call that produced it |
| Contracts.PutCodeOfDecode | src/paint/contracts.rs:88-94 | any bytes that split as `put_code` arguments are exactly the encoding of a well-typed `put_code` call, followed by the rest |
| Contracts.CreateOfDecode | src/paint/contracts.rs:109-120 | any bytes that split as `create` arguments are exactly the encoding of a well-typed `create` call, followed by the rest |
| Contracts.CallOfDecode | src/paint/contracts.rs:130-139 | any bytes that split as `call` arguments are exactly the encoding of a well-typed `call` call, followed by the rest |
| Contracts.ArgsOfDecode | src/paint/contracts.rs:88-139 | whatever decodes as a contracts function's arguments is that function's well-typed call encoded, so there is no second way to write a call |
| Contracts.DecodeArgs | src/paint/contracts.rs:88-139 | argument decoding fails with `UnknownFunction` exactly for names other than `put_code`, `create` and `call` |
| Contracts.EncodeArgs | src/paint/contracts.rs:88-139 | each builder's argument tuple ends with its raw byte payload (the code for `put_code`, the data for `create` and `call`), and `call`'s begins with the raw destination address |
| Contracts.Build | src/paint/contracts.rs:71-78 | building fails with `MissingCapability` exactly when the runtime lacks `System` or `Balances`, and names the one it lacks; otherwise it succeeds exactly when the metadata has module `Contracts` and the builder's function, and otherwise fails with that module's or that function's lookup error |
| Contracts.BuildTargetsContracts | src/paint/contracts.rs:77-139 | a built call starts with the `Contracts` module's tag and the builder's function tag, and its argument bytes split back into the call |
| Contracts.NoArgumentValidation | src/paint/contracts.rs:88-139 | argument values are not inspected: two calls of the same function succeed or fail together, with the same error |
| Contracts.DecodeEvent | src/paint/contracts.rs:143-147 | an event decodes exactly when its index is 0 and a hash's worth of bytes follow, and then it is `CodeStored` of exactly those bytes; any other index is `NoSuchVariant` |
| Contracts.EventRoundTrip | src/paint/contracts.rs:143-147 | a `CodeStored` event reads back from its encoding |
| Contracts.EncodeEventOfDecode | src/paint/contracts.rs:143-147 | whatever decodes as an event is exactly that event's encoding followed by the rest |
| TransferEvents.DecodeTransfer | examples/examples/query_events.rs:23-28 | the transfer fields decode exactly when 80 bytes are present, and the result has the field types |
| TransferEvents.TransferRoundTrip | examples/examples/query_events.rs:23-28 | a transfer is from (32 bytes), to (32 bytes) and amount (16 bytes little-endian), and reads back unchanged |
| TransferEvents.TransferOfDecode | examples/examples/query_events.rs:23-28 | whatever decodes as a transfer is exactly that transfer's encoding followed by the rest |
| TransferEvents.AsTransfer | examples/examples/query_events.rs:30-33 | reading an event as a transfer is "no match" exactly on a tag other than (`Balances`, `Transfer`), an error exactly on a tag match whose fields do not decode, and the decoded transfer otherwise |
| TransferEvents.Probe | examples/examples/query_events.rs:49 | the probe yields a transfer exactly for an event with the transfer tag whose fields decode, and then the decoded fields; a decode error on a tag match yields nothing, just like a tag mismatch |
| TransferEvents.ScanBlock | examples/examples/query_events.rs:46-52 | the scan of a block's log reports exactly the transfers of its entries, in log order |
| TransferEvents.TransfersConcat | examples/examples/query_events.rs:47-52 | scanning two stretches of log one after the other is scanning them joined |
| TransferEvents.CorruptEntrySkipped | examples/examples/query_events.rs:47 | an entry the lower layer failed to parse contributes nothing and does not stop the scan of the entries after it |
| TransferEvents.TransfersMembership | examples/examples/query_events.rs:47-51 | a transfer is reported exactly when some parsed entry of the log probes as it |
| Poller.Init | examples/examples/query_events.rs:38-41 | the cursor starts at block 1, nothing is reported or processed yet, and the loop is running |
| Poller.Step | examples/examples/query_events.rs:41-56 | the cursor moves on by exactly one exactly when a block is delivered, and only after that block's transfers are reported; a missing hash changes nothing but the wait count; a transport error stops the loop |
| Poller.StepKeepsInv | examples/examples/query_events.rs:40-56 | every step keeps the cursor within [1, 50] and never decreases it, keeps the processed indices exactly 1, 2, ..., cursor - 1 in order, and stops exactly when the cursor reaches 50 |
| Poller.Poll | examples/examples/query_events.rs:36-59 | the loop's final state satisfies the invariant, its reported transfers are those of the delivered blocks in order, it stops only on cursor 50, a transport error or the end of the script, and it reaches cursor 50 whenever the source delivers 49 blocks without a transport error |

## Left out

- The network: `OnlineClient::new`, `rpc().block_hash` and `events().at` become the answer script. A hard transport error from one of them ends the loop without moving the cursor.
- The 10-second sleep becomes an abstract wait step with a counter and no clock.
- Console output (`println!`) is not modelled.
- Key pairs, signatures and the `Pair`, `Verify` and `IdentifyAccount` bounds concern signing, not encoding.
- Client creation at examples/examples/query_events.rs:37 belongs to the network layer.
- The internals of `XtBuilder::set_call` and of the metadata lookup inside `module.call` are not part of this model. Metadata is a map from module names to a one-byte module tag and a map of function names to one-byte call tags.
- metadata.rs is not part of this model. A lookup either finds the names or fails with `ModuleNotFound` or `CallNotFound`.
- The remote semantics in the doc comments of `create` and `call` (address derivation, existential deposit, code execution) happen in the runtime, not in the client.
- The extra bounds of the blanket impl (`paint_contracts::Trait`, `Debug`, a deserialisable header) are Rust trait mechanics. A capability is checked by set membership.
- Async execution and concurrency are not modelled.
- Capabilities.ValidTypes: balance types narrower than four bytes are not modelled. The compact decoder here is parametrised by a width of at least four bytes, which covers u32, u64 and u128.
- Scale.EncodeVec: vectors of 2^32 bytes or more are excluded, because their length does not fit the u32 the codec writes.
- Poller.Poll: the live chain is a finite script. The loop therefore also stops when the script runs out. Termination is proved under fairness: the script holds 49 deliveries and no transport error.
- TransferEvents.DecodeTransfer: trailing bytes after the 80 field bytes are not rejected. The subxt events module, which decides this, is not part of this model.
- The subxt events iterator's own behaviour after a failed entry is not part of this model. A failed entry is one element of the log and is skipped.
