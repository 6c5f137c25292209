# zenpaper host-side wasm marshalling, in Dafny

zenpaper's editor front end talks to its analysis module, a WebAssembly
instance, only through the module's linear memory. This project models the
host half of that boundary:

- `frontend/wasm_types.ts`: the typed read-only views over memory. These are
  `Highlight` (9 bytes: tag `u8` at +0, `start` `u32` at +1, `end` `u32` at
  +5) and `DocumentUpdated` (8 bytes: `highlights_ptr` `u32` at +0,
  `highlights_len` `u32` at +4). Each has one-record (`OnePtr`) and strided
  many-record (`ManyPtr`) pointers, with the record sizes 9 and 8.
- `frontend/wasm_agent.ts`, `WasmAgent.updateDocument`. It does four things:
  - asks the module where to put the encoded text (`startDocumentUpdate`);
  - copies the text into memory there (`Uint8Array.prototype.set`);
  - lets the module analyse it (`endDocumentUpdate`);
  - decodes the `DocumentUpdated` header the module returned and walks the
    highlight records it points to.

Files:

- `bytes.dfy` (module `Bytes`): bytes, unsigned 32-bit integers, and
  little-endian decoding and encoding.
- `js.dfy` (module `Js`): the JavaScript runtime operations the code uses,
  on memory taken as a value.
  - `DataView.getUint8` and `DataView.getUint32(…, true)`.
  - `Uint8Array.prototype.set`.
  - Their `RangeError` on out-of-bounds access, modelled as a `Throw` result.
- `wasm_types.dfy` (module `WasmTypes`): the record views.
  - The pointers are value datatypes over the buffer's bytes as they
    were when the pointer was built (see "## Left out").
  - The decoders are functions, so they cannot write memory.
  - Each record also has an `Encode` that gives the layout the module
    writes, so that round trips can be stated.
- `wasm_agent.dfy` (module `Agent`): `WasmAgent` as a class.
  - The memory buffer is an `array<byte>`. A module call that grows the
    memory replaces the buffer with a new array.
  - `DecodeDocumentUpdate` is the specification of the decode.
  - `ReadHighlights` is the decode loop as written (header reads, stride
    `1 + 2 * 4`, loop `ptr < end`). It is proved equal to
    `DecodeDocumentUpdate`.

The code does not do the following, and neither does the model:

- A returned address of `0` is not treated as "no result".
- A `highlights_ptr` of `0` is not treated as absent.
- Tag bytes are not checked against the tag enumeration.
- The code reads whatever bytes lie at the addresses it is given. It fails
  only where `DataView` does, with a `RangeError` outside the buffer.
- When the count is 0 the loop does not run, so no record byte is read
  (`ZeroCountDecodesEmpty`).

## Model

| member | source | states |
|---|---|---|
| Bytes.ToLittleEndian | frontend/wasm_types.ts:57-58 | the 4-byte layout of a `u32` has the right width and reads back as the value |
| Bytes.ToFromLittleEndian | frontend/wasm_types.ts:57-58 | little-endian reading is injective: bytes are the only encoding of the value they read as |
| Bytes.FromLittleEndian4 | frontend/wasm_types.ts:57-58 | four bytes read little-endian are `b0 + 2^8 b1 + 2^16 b2 + 2^24 b3`, which is below 2^32 |
| Js.GetUint8 | frontend/wasm_types.ts:56 | `getUint8` succeeds exactly when the offset is inside the buffer. It yields the one-byte little-endian value there, read by the same decoder as `getUint32`, and otherwise throws `RangeError` |
| Js.GetUint32 | frontend/wasm_types.ts:57-58 | `getUint32(o, true)` succeeds exactly when `[o, o+4)` lies in the buffer, yields the little-endian value of those four bytes (a `u32`), and otherwise throws `RangeError` |
| Js.GetUint32RoundTrip | frontend/wasm_types.ts:25-26 | reading the four encoded bytes of `x`, wherever they sit, gives `x` |
| Js.SetBytes | frontend/wasm_agent.ts:36 | `set(encoded, ptr)` succeeds exactly when the text fits at `ptr`. It keeps the length, places the text at `[ptr, ptr+len)` and leaves every other byte as it was. Otherwise it throws `RangeError` |
| WasmTypes.DocumentUpdatedOnePtr.Deref | frontend/wasm_types.ts:4-6 | a one-pointer reads the same record as element 0 of a many-pointer at its address |
| WasmTypes.DocumentUpdatedManyPtr.Deref | frontend/wasm_types.ts:12-14 | element `i` succeeds exactly when the 8 bytes at `address + 8i` lie in the buffer. It is decoded from those 8 bytes alone. Otherwise it throws `RangeError` |
| WasmTypes.DocumentUpdated.Deref | frontend/wasm_types.ts:22-28 | the header succeeds exactly when its 8 bytes are in the buffer. `highlights_ptr` is the little-endian `u32` at +0 and points into the same buffer. `highlights_len` is the `u32` at +4 |
| WasmTypes.DocumentUpdatedRoundTrip | frontend/wasm_types.ts:22-28 | an encoded header, wherever it sits, decodes to its pointer address and length |
| WasmTypes.HighlightOnePtr.Deref | frontend/wasm_types.ts:34-36 | a one-pointer reads the same record as element 0 of a many-pointer at its address |
| WasmTypes.HighlightManyPtr.Deref | frontend/wasm_types.ts:42-44 | element `i` is exactly the decode of the 9 bytes at `address + 9i` taken on their own. It reads no other byte, and throws `RangeError` when they are not all in the buffer |
| WasmTypes.Highlight.Deref | frontend/wasm_types.ts:53-60 | a highlight succeeds exactly when its 9 bytes are in the buffer. The tag is the byte at +0, `start` the little-endian `u32` at +1, `end` the one at +5 |
| WasmTypes.Highlight.Encode | frontend/wasm_types.ts:48 | the layout of a highlight is `Highlight.size` = 9 bytes long |
| WasmTypes.HighlightRoundTrip | frontend/wasm_types.ts:53-60 | an encoded highlight, wherever it sits, decodes to the same highlight |
| WasmTypes.EncodedHighlightDecodes | frontend/wasm_types.ts:53-60 | the 9 encoded bytes on their own decode to the highlight |
| Agent.HighlightsAt | frontend/wasm_agent.ts:47-53 | `n` records from a many-pointer succeed exactly when `n = 0` or all `9n` bytes lie in the buffer. They then hold `n` highlights, the `k`-th equal to `deref(k)`. Otherwise they throw `RangeError` |
| Agent.DecodeDocumentUpdate | frontend/wasm_agent.ts:39-55 | the decode succeeds exactly when the header at `result` is in memory and `count = 0` or `start + 9·count` is within memory. It then yields `count` highlights, entry `k` equal to `HighlightManyPtr(start).deref(k)`. Every failure is a `RangeError` |
| Agent.ZeroCountDecodesEmpty | frontend/wasm_agent.ts:45-47 | a header whose count is 0 decodes to no highlights, whatever its pointer field holds |
| Agent.DecodeReadsOnlyHeaderAndRecords | frontend/wasm_agent.ts:43-52 | the decode reads only the 8 header bytes and the `9·count` bytes from `start`: memories of equal length that agree there decode alike |
| Agent.DecodeRoundTrip | frontend/wasm_agent.ts:43-53 | a header `(start, n)` followed by `n` encoded highlights at `start` decodes to exactly those highlights |
| Agent.RecordMissing | frontend/wasm_agent.ts:47-52 | once one of the counted records is not wholly in memory, the whole decode throws `RangeError` |
| Agent.RecordsCollected | frontend/wasm_agent.ts:47-55 | once every counted record has been read as the matching element of a list, the decode yields that list |
| Agent.ReadHighlights | frontend/wasm_agent.ts:39-55 | the header reads and the stride-`1 + 2*4` loop over `[start, start + count·9)` yield exactly `DecodeDocumentUpdate`: the same highlights in order, or the same `RangeError` |
| Agent.WasmAgent.constructor | frontend/wasm_agent.ts:8-12 | a new agent owns a newly allocated, zero-filled memory of 32 pages of 64 KiB and has no exports yet |
| Agent.WasmAgent.Init | frontend/wasm_agent.ts:24 | after instantiation the exports are set |
| Agent.WasmAgent.TakeMemory | frontend/wasm_agent.ts:35-39 | after a module call, `this.memory.buffer` holds the memory the call left. The old buffer is kept exactly when the length is the same, and a newly allocated one is used when the length changed |
| Agent.WasmAgent.Set | frontend/wasm_agent.ts:36 | the in-place copy leaves the buffer equal to `SetBytes` of the old buffer on success, and unchanged when it throws |
| Agent.WasmAgent.UpdateDocument | frontend/wasm_agent.ts:33-56 | `updateDocument` leaves the exports alone and throws `TypeError` before `init`. Otherwise it writes the text where `startDocumentUpdate` says, or throws `RangeError` if it does not fit. It then returns `DecodeDocumentUpdate` of the memory that `endDocumentUpdate` left, at the address it returned, and that memory is the agent's memory afterwards. The memory buffer afterwards is the old one or a newly allocated one, so a caller can call it again |

## Left out

- `WasmAgent.init`'s fetch and `WebAssembly.instantiateStreaming`: these are network and host I/O. `Init` only records the exports.
- The `consoleLog` import: it prints text; console I/O is not modelled.
- `TextEncoder`: the text arrives as its UTF-8 bytes `encoded`. The encoding itself is not modelled.
- The module's own code: `startDocumentUpdate` and `endDocumentUpdate` are arbitrary functions of the memory they run on. The model does not assume memory only grows, or grows by whole pages.
- Traps in the module: each export is assumed to return. A trap makes `updateDocument` throw `WebAssembly.RuntimeError`, possibly after memory has changed. `JsError` has no case for it, and the model cannot express it.
- Live pointers: in `frontend/wasm_types.ts` a pointer holds a reference to the `ArrayBuffer` and reads it when `deref` runs. In the model a pointer holds the bytes as they were when it was built. So a later write by the module does not show through a pointer. The model also does not capture that a buffer detached by memory growth makes `new DataView(buffer)` throw `TypeError`. `updateDocument` keeps no pointer across a module call, so the decode it performs is not affected.
- The JavaScript `number` conversions at the wasm boundary:
  - the length passed in and the addresses returned are plain integers;
  - addresses are not truncated to `i32`;
  - a negative address throws `RangeError` in the `DataView` and `set` models, as in JavaScript;
  - every sum the decode forms stays below 2^53, so exact integers model the `number` arithmetic.
- The `HighlightTag` enumerations in both files: tags are kept as raw bytes, because nothing in the code checks them.
- `Highlighter`, the CodeMirror theme and `codeMirrorWasmAgent`: these are editor glue outside the marshalling. `frontend/index.ts` is not part of this model.
- The `Highlight` interface in `frontend/wasm_agent.ts` has the same fields as the `Highlight` class. Both are `WasmTypes.Highlight`.
