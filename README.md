# cryptonight-miner core, modelled in Dafny

This project models the core of a small proof-of-work mining client written in JavaScript.
A worker process logs in to a mining pool and receives jobs. It hashes candidate inputs
built from the job's blob and a random 32-bit nonce. It submits the nonces whose digest is
below the job's target. A cluster master adds up the statistics its workers report.

The model covers the two source files of the core:

- `miner.js` is the worker singleton. It holds the hex codec (`hexToBytes`, `bytesToHex`),
  the target test (`meetsTarget`), and the target-building and nonce-writing blocks of `work`.
  It also holds the session state (`job`, `workerId`, `inProcess`, `hashes`, `sending`,
  `accepted`), which `parseCommand`, `setJob`, `send` and `work` update.
- `index.js` is the cluster master. It keeps per-pid statistics maps, overwrites them on each
  worker message and totals them on each timer tick.

Files and modules:

- `wrappers.dfy` (`Wrappers`): `Option`, standing for a JavaScript field that may be absent.
- `hex.dfy` (`Hex`): the `Byte` type and the codec. `HexEncode` and `HexDecode` are the
  specification functions. The methods `HexToBytes` and `BytesToHex` are the source's loops,
  proved against those functions.
- `target.dfy` (`Target`): `LittleEndian`, the value of a buffer with index 0 least
  significant. `Below` is the mathematical target test. `MeetsTarget` is the source's
  top-down scan, proved equal to `Below`. `WidenTarget` and `BuildTarget` cover the 0xFF-padded
  8-byte target.
- `candidate.dfy` (`CandidateBuffer`): the 84-byte candidate input. The nonce bytes are
  modelled with JavaScript's signed 32-bit `&` and `>>` followed by the Uint8Array store.
- `miner.dfy` (`Mining`): the message and job datatypes and the class `Miner`. Its methods
  are `ParseCommand`, `SetJob`, `Work`, `Send` and `SearchStep`. `SearchStep` is one iteration
  of the search loop.
- `supervision.dfy` (`Supervision`): the class `Supervisor`, with the `message` handler
  (`OnMessage`) and the interval callback (`Tick`). `Total` is the sum of a map's values.

Inputs the source takes from its environment are parameters of the model:

- the nonce drawn by `Math.random`;
- the native hash function, a total function returning 32 bytes;
- the socket's `writable` flag;
- whether `process.send` exists (`supervised`);
- the process identity `Miner.id`;
- the bytes of the freshly allocated input buffer.

Where the code does not do what its own structure suggests it is meant to do, the model follows the code:

- `hexToBytes` does not validate its input. The model requires even-length hex instead of
  raising a format error.
- The hash primitive receives `blob.length` as its length. The digest is therefore taken over
  the first |blob| bytes of the 84-byte input, not over all 84 bytes.
- `meetsTarget` is defined for any target length. With a target longer than the digest, the
  reads past the digest's start yield `undefined`. Both comparisons are then false, so only the
  top |digest| bytes of the target are compared.
- `accepted <= sending` is not an invariant of the code. `parseCommand` counts every result
  whose status is "OK", whether or not a submission preceded it. The model keeps
  `sending == |submitted|` as its invariant and nothing about `accepted`.
- The data handler does not split deliveries on newlines (see "Left out").
- The search loop (miner.js:158-206) is a synchronous `do … while (true)` that never yields to
  Node's event loop. Once it starts, the `data` handler never runs again. No later job push
  reaches `setJob`. The submit request is still written, but the pool's reply is never read,
  so `accepted` never changes once the loop runs. Because the loop re-reads `Miner.job` on each
  iteration, a job pushed while it runs is evidently meant to be used by the next iteration;
  the code never uses it. The model lets `ParseCommand` and `SearchStep` be called
  in any order, so `Mining.NextIterationSeesNewJob` states only what the loop body would do
  if a push were handled between iterations.

## Model

| member | source | states |
|---|---|---|
| Hex.HexValue | miner.js:98 | a hex digit of either case has a value in 0..15 |
| Hex.HexDigit | miner.js:106-107 | a nibble's `toString(16)` digit is lower-case and reads back as that nibble |
| Hex.HexEncodeShape | miner.js:104-111 | the encoding has 2·n characters, all lower-case hex; character 2i is byte i's high nibble and 2i+1 its low nibble |
| Hex.HexDecodeShape | miner.js:94-101 | decoding even-length hex gives one byte per two characters; byte i is the value of characters 2i and 2i+1, most significant first |
| Hex.DecodeEncode | miner.js:94-111 | decoding the encoding of any byte sequence gives that sequence back |
| Hex.EncodeDecode | miner.js:94-111 | encoding the decoding of a lower-case hex string gives that string back |
| Hex.DecodeIdempotent | miner.js:94-111 | decode, encode, decode equals decode |
| Hex.HexToBytes | miner.js:94-101 | the counting loop fills a fresh buffer with exactly the decoding of the string |
| Hex.BytesToHex | miner.js:104-111 | the accumulating loop returns the encoding: 2·n lower-case digits, high nibble then low nibble per byte |
| Target.LittleEndian | miner.js:114-126 | the little-endian value of an n-byte buffer is below 256^n |
| Target.TopByteDecides | miner.js:119-122 | when the most significant bytes differ, the smaller one marks the smaller number |
| Target.FirstDifferenceDecides | miner.js:115-123 | if two equal-length buffers agree above index j and differ at j, the one with the smaller byte at j is the smaller number |
| Target.EqualIsNotBelow | miner.js:115-125 | a digest whose last bytes equal the target byte for byte does not meet it |
| Target.FirstDifferenceExample | miner.js:114-126 | window 00 00 00 01 00 00 00 00 is below 00 00 00 02 00 00 00 00 |
| Target.MeetsTarget | miner.js:114-126 | the top-down scan returns true exactly when the digest window's little-endian value is strictly below the target window's; equal windows give false |
| Target.WidenTargetShape | miner.js:160-176 | the built target has length 8 when the raw target has at most 8 bytes, else the raw length; its high-order (last) bytes are the raw target and the bytes below them are 0xFF |
| Target.WidenTargetValue | miner.js:160-176 | as a number, a raw target of r ≤ 8 bytes becomes raw · 256^(8-r) + 256^(8-r) - 1: shifted up, with all-ones below; a longer one keeps its value |
| Target.LittleEndianAppend | miner.js:114-126 | the value of a concatenation is the first part's value plus 256^(its length) times the second part's value |
| Target.MaximalTargetExample | miner.js:160-176 | raw target ffffffff widens to eight 0xFF bytes, which every digest not ending in eight 0xFF bytes meets |
| Target.BuildTarget | miner.js:160-176 | up to 8 raw bytes are right-aligned into 8 bytes with leading 0xFF; a longer raw target is returned as the same buffer |
| CandidateBuffer.StoredFieldIsByte | miner.js:179-182 | the signed 32-bit mask-and-shift, stored into a Uint8Array, gives exactly the nonce byte at that position |
| CandidateBuffer.NonceRoundTrip | miner.js:179-182 | the four nonce bytes read big-endian give the nonce back |
| CandidateBuffer.NonceHexShape | miner.js:191 | the nonce hex has 8 lower-case digits and decodes to the nonce big-endian |
| CandidateBuffer.CandidateShape | miner.js:163-182 | bytes 39..42 hold the nonce big-endian and decode back to it; every other byte is the blob's byte where the blob reaches and the buffer's old byte beyond |
| CandidateBuffer.CopyBlob | miner.js:164 | the blob overwrites the start of the input and the rest is unchanged |
| CandidateBuffer.WriteNonce | miner.js:179-182 | the four stores replace input bytes 39..42 with the nonce's big-endian bytes and change nothing else |
| Mining.PrepareCandidate | miner.js:160-182 | the input becomes the candidate for the job's blob and the nonce, and the target is the widened decoding of the job's raw target |
| Mining.Miner.constructor | miner.js:5-20 | a new miner has no job and no worker id, is not searching, and all counters are 0 |
| Mining.Miner.Work | miner.js:149-150 | starting work sets `inProcess` and starts exactly one loop; nothing else changes |
| Mining.Miner.SetJob | miner.js:85-91 | the job is always replaced; a loop starts only if none was running, so at most one loop ever runs |
| Mining.Miner.ParseCommand | miner.js:65-82 | a result with an id sets the worker id and installs its job; another result adds 1 to `accepted` exactly when its status is "OK"; a "job" message installs its params; anything else changes nothing; `sending` and `hashes` never change |
| Mining.Miner.Send | miner.js:129-146 | a writable socket receives one submit request and `sending` grows by 1; otherwise no state changes |
| Mining.Miner.SearchStep | miner.js:158-202 | one iteration builds the candidate from the current job and the nonce, adds 1 to `hashes`, and finds a hit exactly when the digest is below the widened target; a hit on a writable socket submits the job id, nonce hex and digest hex; a hit under a supervisor reports the counters |
| Mining.NextIterationSeesNewJob | miner.js:158-164 | if a job push were handled between iterations, the next candidate would be built from the new job and no second loop would start (the synchronous loop never lets a push be handled) |
| Supervision.TotalRemove | index.js:25-28 | the total is the same whichever pid is added first |
| Supervision.TotalUpdate | index.js:12-16 | overwriting one pid's count changes the total by the difference; a new pid adds its count |
| Supervision.Supervisor.constructor | index.js:2-4 | the master starts with no reports |
| Supervision.Supervisor.OnMessage | index.js:12-16 | the reporting pid's entries are overwritten with the message's values, all other pids are kept, and both maps keep the same key set |
| Supervision.Supervisor.Tick | index.js:19-31 | each tick's total starts from 0 and is the sum of the latest counts of the pids that reported; with no reports it is 0 |

## Left out

- Socket plumbing (miner.js:23-62 and the call at miner.js:211) is I/O. This covers connecting, the login write, and the error and close handlers. The socket's `writable` flag is a parameter of `Send`, and written submissions are the `submitted` sequence.
- The `data` handler's framing (miner.js:43-52) is not modelled. It tests `lines > 0` on an array. Under JavaScript coercion that test is false for any delivery containing a newline, so the whole delivery goes to `parseCommand` unsplit. Two messages in one delivery therefore make `JSON.parse` throw. `ParseCommand` models one already-decoded message.
- `JSON.parse` (miner.js:66) is left out. Messages are the decoded `Message` datatype, and malformed JSON simply throws in the source.
- `hexToBytes` on odd-length or non-hex input is excluded by a precondition. The source drops a trailing nibble. It parses each pair with `parseInt(…, 16)`, which skips leading whitespace and a sign and reads the longest hex-digit prefix: "1g" gives 1, " f" gives 15, "-1" gives -1 (stored as 255), and a pair with no leading digit such as "g1" gives NaN (stored as 0).
- Mining.Miner.ParseCommand requires a login result to carry a job and a "job" message to carry params. Without them the source throws in `setJob`.
- `Miner.SearchStep` requires a job whose blob decodes to at most 84 bytes, as `input.set` demands.
- `Miner.SearchStep` takes the nonce as a parameter anywhere in [0, 2^32). `Math.random() * 4294967295 + 1 >>> 0` draws it from [1, 2^32 - 1].
- The native hash, `_malloc` and the WebAssembly heap are left out. The hash is a function parameter. The input buffer's uninitialised bytes are the caller's array, and the output buffer is a fresh 32-byte array. The source never frees either buffer; memory is not modelled.
- Elapsed time, `hashesPerSecond` and its display are left out (floating point and the clock). So are its aggregation and `toFixed` formatting (miner.js:155, 188, 194; index.js:13, 26, 30). `WorkerReport` and the master's maps carry only `hashes` and `accepted`.
- Supervision.Supervisor.Tick iterates the keys of `hashes`, not those of `hashesPerSecond`. The three maps are written together, so their key sets are equal.
- The endless `do … while (true)` loop is modelled by one iteration, `SearchStep`. Process forking, `os.cpus`, `process.send` delivery and `setInterval` scheduling are concurrency plumbing and are left out.
- `hashes`, `accepted` and `sending` are JavaScript Numbers, exact only below 2^53; the model's counters are unbounded `nat`.
- Console logging, including the only effect of an error message in `parseCommand`, is left out.
