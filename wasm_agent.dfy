/** The host side of a full document update: `WasmAgent.updateDocument`
    copies the encoded text into linear memory at the address the module
    asks for, lets the module run, and decodes the `DocumentUpdated` header
    and the highlights it points to from memory as the module left it. */
module Agent {
  import opened Bytes
  import opened Js
  import opened WasmTypes

  /** WebAssembly's page size, and the page count the memory is created with. */
  const PageSize: nat := 0x1_0000
  const InitialPages: nat := 32

  /** The record stride the decode loop advances by: one tag byte and two
      32-bit integers, the size of a `Highlight`. */
  const HighlightSizeInBytes: nat := 1 + 2 * 4

  /** What a call into the module hands back: the address it returned and
      linear memory as it left it. */
  datatype Call = Call(address: int, memory: seq<byte>)

  /** The two module exports `updateDocument` calls. Their code is not part
      of this model: each is an arbitrary function of the memory it runs on
      (and, for `startDocumentUpdate`, of the text length it is given). */
  datatype WasmExports = WasmExports(
    startDocumentUpdate: (seq<byte>, nat) -> Call,
    endDocumentUpdate: seq<byte> -> Call)

  datatype Option<T> = None | Some(value: T)

  /** Records `0 .. n - 1` of `p`, in order, or the exception the first of
      them that does not fit in the buffer throws. */
  function HighlightsAt(p: HighlightManyPtr, n: nat): (r: Result<seq<Highlight>>)
    ensures r.Ok? <==> n == 0 || InRange(p.buffer, p.address, n * Highlight.Size)
    ensures r.Throw? ==> r.error == RangeError
    ensures r.Ok? ==> |r.value| == n
    ensures r.Ok? ==> forall k :: 0 <= k < n ==> p.Deref(k) == Ok(r.value[k])
  {
    if n == 0 then Ok([])
    else
      var init :- HighlightsAt(p, n - 1);
      var last :- p.Deref(n - 1);
      Ok(init + [last])
  }

  /** What `updateDocument` decodes from `memory` once the module has
      returned `result`: the `DocumentUpdated` header at `result`, then the
      `highlights_len` records its `highlights_ptr` points to. */
  function DecodeDocumentUpdate(memory: seq<byte>, result: int): (r: Result<seq<Highlight>>)
    ensures r.Throw? ==> r.error == RangeError
    ensures r.Ok? <==>
      && InRange(memory, result, DocumentUpdated.Size)
      && var start := LittleEndian32(memory[result], memory[result + 1],
                                     memory[result + 2], memory[result + 3]);
         var count := LittleEndian32(memory[result + 4], memory[result + 5],
                                     memory[result + 6], memory[result + 7]);
         count == 0 || start + count * Highlight.Size <= |memory|
    ensures r.Ok? ==>
      var header := DocumentUpdatedOnePtr(memory, result).Deref().value;
      && |r.value| == header.highlightsLen
      && forall k :: 0 <= k < |r.value| ==> header.highlightsPtr.Deref(k) == Ok(r.value[k])
  {
    var header :- DocumentUpdatedOnePtr(memory, result).Deref();
    HighlightsAt(header.highlightsPtr, header.highlightsLen)
  }

  /** A header whose count field is 0 decodes to no highlights, wherever its
      pointer field points: not one record byte is read. */
  lemma ZeroCountDecodesEmpty(memory: seq<byte>, result: int)
    requires InRange(memory, result, DocumentUpdated.Size)
    requires memory[result + 4..result + 8] == [0, 0, 0, 0]
    ensures DecodeDocumentUpdate(memory, result) == Ok([])
  {
  }

  /** Whether `a` and `b` hold the same bytes at the positions in
      `[lo, hi)` that both have. */
  ghost predicate AgreeOn(a: seq<byte>, b: seq<byte>, lo: int, hi: int) {
    forall i :: lo <= i < hi && 0 <= i < |a| && i < |b| ==> a[i] == b[i]
  }

  /** The decode reads only the 8 header bytes at `result` and the
      `9 * highlights_len` record bytes its pointer field names: two memories
      of one length that agree there decode alike. */
  lemma {:induction false} DecodeReadsOnlyHeaderAndRecords(m1: seq<byte>, m2: seq<byte>, result: int)
    requires |m1| == |m2|
    requires AgreeOn(m1, m2, result, result + DocumentUpdated.Size)
    requires var header := DocumentUpdated.Deref(m1, result);
      header.Ok? ==>
        var start := header.value.highlightsPtr.address;
        AgreeOn(m1, m2, start, start + header.value.highlightsLen * Highlight.Size)
    ensures DecodeDocumentUpdate(m1, result) == DecodeDocumentUpdate(m2, result)
  {
    var h1, h2 := DocumentUpdated.Deref(m1, result), DocumentUpdated.Deref(m2, result);
    if h1.Ok? {
      assert h2.Ok?;
      var start, count := h1.value.highlightsPtr.address, h1.value.highlightsLen;
      assert h2.value.highlightsPtr.address == start && h2.value.highlightsLen == count;
      var p1, p2 := HighlightManyPtr(m1, start), HighlightManyPtr(m2, start);
      forall k | 0 <= k < count
        ensures p1.Deref(k) == p2.Deref(k)
      {
        var at := start + k * Highlight.Size;
        if InRange(m1, at, Highlight.Size) {
          assert m1[at..at + Highlight.Size] == m2[at..at + Highlight.Size];
        }
      }
      var r1, r2 := HighlightsAt(p1, count), HighlightsAt(p2, count);
      if r1.Ok? {
        assert r1.value == r2.value;
      }
    }
  }

  /** Whether `memory` holds the records of `hs` one after another from
      `start` on, as the module lays out the highlights array. */
  ghost predicate RecordsAt(memory: seq<byte>, start: int, hs: seq<Highlight>) {
    && InRange(memory, start, |hs| * Highlight.Size)
    && forall k :: 0 <= k < |hs| ==>
         memory[start + k * Highlight.Size..start + k * Highlight.Size + Highlight.Size] == hs[k].Encode()
  }

  /** Decoding what the module wrote gives back what it wrote: a header
      holding `start` and `|hs|` at `result`, and the records of `hs` at
      `start`, decode to exactly `hs`, in order. */
  lemma DecodeRoundTrip(memory: seq<byte>, result: int, start: u32, hs: seq<Highlight>)
    requires |hs| < 0x1_0000_0000
    requires InRange(memory, result, DocumentUpdated.Size)
    requires memory[result..result + DocumentUpdated.Size]
             == ToLittleEndian(start, 4) + ToLittleEndian(|hs|, 4)
    requires RecordsAt(memory, start, hs)
    ensures DecodeDocumentUpdate(memory, result) == Ok(hs)
  {
    var d := DocumentUpdated(HighlightManyPtr(memory, start), |hs|);
    HeaderAt(memory, result, d);
    forall k | 0 <= k < |hs|
      ensures d.highlightsPtr.Deref(k) == Ok(hs[k])
    {
      HighlightRecordAt(memory, start, hs, k);
    }
    var r := HighlightsAt(d.highlightsPtr, |hs|);
    assert r.value == hs;
  }

  /** The encoded header of `d` at `result` decodes to `d`, pointing into
      `memory`. */
  lemma HeaderAt(memory: seq<byte>, result: int, d: DocumentUpdated)
    requires d.highlightsPtr.buffer == memory && 0 <= d.highlightsPtr.address < 0x1_0000_0000
    requires InRange(memory, result, DocumentUpdated.Size)
    requires memory[result..result + DocumentUpdated.Size] == d.Encode()
    ensures DocumentUpdatedOnePtr(memory, result).Deref() == Ok(d)
  {
    var prefix, suffix := memory[..result], memory[result + DocumentUpdated.Size..];
    assert memory == prefix + d.Encode() + suffix;
    DocumentUpdatedRoundTrip(d, prefix, suffix);
  }

  /** Record `k` of the records of `hs` at `start` decodes to `hs[k]`. */
  lemma HighlightRecordAt(memory: seq<byte>, start: u32, hs: seq<Highlight>, k: nat)
    requires k < |hs|
    requires RecordsAt(memory, start, hs)
    ensures HighlightManyPtr(memory, start).Deref(k) == Ok(hs[k])
  {
    var at := start + k * Highlight.Size;
    RecordWithin(k, |hs|);
    assert memory[at..at + Highlight.Size] == hs[k].Encode();
    EncodedHighlightDecodes(hs[k]);
  }

  /** Record `k` starts before record `n` exactly when `k < n`, and then
      it ends within the first `n` records. */
  lemma RecordWithin(k: nat, n: nat)
    ensures k < n <==> k * Highlight.Size < n * Highlight.Size
    ensures k < n <==> k * Highlight.Size + Highlight.Size <= n * Highlight.Size
  {
    assert Highlight.Size == 9;
  }

  /** The three field reads of the loop body, at record `k`, are record `k`. */
  lemma RecordFields(p: HighlightManyPtr, k: int, at: int, tag: byte, start: u32, end: u32)
    requires at == p.address + k * Highlight.Size
    requires GetUint8(p.buffer, at) == Ok(tag)
    requires GetUint32(p.buffer, at + 1) == Ok(start)
    requires GetUint32(p.buffer, at + 5) == Ok(end)
    ensures p.Deref(k) == Ok(Highlight(tag, start, end))
  {
  }

  /** With a readable header, the decode throws as soon as one of the
      records the header counts does not lie wholly in memory. */
  lemma RecordMissing(memory: seq<byte>, result: int, k: nat)
    requires DocumentUpdated.Deref(memory, result).Ok?
    requires var header := DocumentUpdated.Deref(memory, result).value;
      && k < header.highlightsLen
      && !InRange(memory, header.highlightsPtr.address + k * Highlight.Size, Highlight.Size)
    ensures DecodeDocumentUpdate(memory, result) == Throw(RangeError)
  {
    var header := DocumentUpdated.Deref(memory, result).value;
    RecordWithin(k, header.highlightsLen);
  }

  /** With a readable header, the decode yields `hs` once every record the
      header counts has been read as the matching element of `hs`. */
  lemma RecordsCollected(memory: seq<byte>, result: int, hs: seq<Highlight>)
    requires DocumentUpdated.Deref(memory, result).Ok?
    requires var header := DocumentUpdated.Deref(memory, result).value;
      && |hs| == header.highlightsLen
      && forall k :: 0 <= k < |hs| ==> header.highlightsPtr.Deref(k) == Ok(hs[k])
    ensures DecodeDocumentUpdate(memory, result) == Ok(hs)
  {
    var header := DocumentUpdated.Deref(memory, result).value;
    if |hs| > 0 {
      assert header.highlightsPtr.Deref(|hs| - 1).Ok?;
      RecordWithin(|hs| - 1, |hs|);
    }
    var r := HighlightsAt(header.highlightsPtr, |hs|);
    assert r.value == hs;
  }

  /** The decode of `updateDocument` (from the `DataView` over the
      post-call memory on): read the header at `result`, then walk the
      records `HighlightSizeInBytes` apart from `start` up to
      `start + count * HighlightSizeInBytes`, collecting them in order. */
  method ReadHighlights(dv: seq<byte>, result: int) returns (r: Result<seq<Highlight>>)
    ensures r == DecodeDocumentUpdate(dv, result)
  {
    var highlights: seq<Highlight> := [];
    var start :- GetUint32(dv, result);
    var count :- GetUint32(dv, result + 4);
    var end := start + count * HighlightSizeInBytes;
    ghost var records := HighlightManyPtr(dv, start);
    assert DocumentUpdated.Deref(dv, result) == Ok(DocumentUpdated(records, count));
    assert HighlightSizeInBytes == Highlight.Size;
    var ptr := start;
    while ptr < end
      invariant ptr == start + |highlights| * HighlightSizeInBytes
      invariant |highlights| <= count
      invariant forall k :: 0 <= k < |highlights| ==> records.Deref(k) == Ok(highlights[k])
      decreases end - ptr
    {
      RecordWithin(|highlights|, count);
      assert ptr == start + |highlights| * Highlight.Size;
      if !InRange(dv, ptr, Highlight.Size) {
        RecordMissing(dv, result, |highlights|);
      }
      var tag :- GetUint8(dv, ptr);
      var hStart :- GetUint32(dv, ptr + 1);
      var hEnd :- GetUint32(dv, ptr + 5);
      RecordFields(records, |highlights|, ptr, tag, hStart, hEnd);
      highlights := highlights + [Highlight(tag, hStart, hEnd)];
      ptr := ptr + HighlightSizeInBytes;
    }
    RecordWithin(|highlights|, count);
    RecordsCollected(dv, result, highlights);
    r := Ok(highlights);
  }

  /** The host's handle on the module: its linear memory and its exports. */
  class WasmAgent {
    /** `this.memory.buffer`: the bytes of linear memory as the host sees
        them. Growing the memory replaces this buffer by a longer one. */
    var buffer: array<byte>
    /** `this.wasmExports`: unset until `Init` has run. */
    var wasmExports: Option<WasmExports>

    /** A fresh agent owns a zero-filled memory of `InitialPages` pages and
        no module yet. */
    constructor ()
      ensures buffer.Length == InitialPages * PageSize
      ensures forall i :: 0 <= i < buffer.Length ==> buffer[i] == 0
      ensures wasmExports == None
      ensures fresh(buffer)
    {
      buffer := new byte[InitialPages * PageSize](_ => 0);
      wasmExports := None;
    }

    /** Records the exports of the instantiated module. */
    method Init(exports: WasmExports)
      modifies this`wasmExports
      ensures wasmExports == Some(exports)
    {
      wasmExports := Some(exports);
    }

    /** Takes on the memory a module call left: written over the same buffer
        when its length is unchanged, a new buffer when the memory grew or
        otherwise changed length. */
    method TakeMemory(memory: seq<byte>)
      modifies this`buffer, buffer
      ensures buffer[..] == memory
      ensures |memory| == old(buffer.Length) ==> buffer == old(buffer)
      ensures |memory| != old(buffer.Length) ==> fresh(buffer)
    {
      if |memory| == buffer.Length {
        forall i | 0 <= i < |memory| {
          buffer[i] := memory[i];
        }
      } else {
        buffer := new byte[|memory|](i requires 0 <= i < |memory| => memory[i]);
      }
    }

    /** `new Uint8Array(this.memory.buffer).set(source, offset)`: copies
        `source` over the buffer in place, or throws and writes nothing. */
    method Set(source: seq<byte>, offset: int) returns (r: Result<()>)
      modifies buffer
      ensures var written := SetBytes(old(buffer[..]), source, offset);
        && (r.Ok? <==> written.Ok?)
        && (r.Throw? ==> r.error == RangeError)
        && buffer[..] == if written.Ok? then written.value else old(buffer[..])
    {
      if !InRange(buffer[..], offset, |source|) {
        return Throw(RangeError);
      }
      forall i | 0 <= i < |source| {
        buffer[offset + i] := source[i];
      }
      r := Ok(());
      assert buffer[..] == SetBytes(old(buffer[..]), source, offset).value;
    }

    /** `updateDocument(text)` for the UTF-8 bytes `encoded` of the text. */
    method UpdateDocument(encoded: seq<byte>) returns (r: Result<seq<Highlight>>)
      modifies this`buffer, buffer
      ensures buffer == old(buffer) || fresh(buffer)
      ensures wasmExports == old(wasmExports)
      ensures old(wasmExports).None? ==> r == Throw(TypeError) && buffer[..] == old(buffer[..])
      ensures old(wasmExports).Some? ==>
        var exports := old(wasmExports).value;
        var started := exports.startDocumentUpdate(old(buffer[..]), |encoded|);
        var written := SetBytes(started.memory, encoded, started.address);
        if written.Throw? then
          r == Throw(RangeError) && buffer[..] == started.memory
        else
          var ended := exports.endDocumentUpdate(written.value);
          r == DecodeDocumentUpdate(ended.memory, ended.address) && buffer[..] == ended.memory
    {
      if wasmExports.None? {
        return Throw(TypeError);
      }
      var exports := wasmExports.value;
      var started := exports.startDocumentUpdate(buffer[..], |encoded|);
      TakeMemory(started.memory);
      var ptr := started.address;
      var copied := Set(encoded, ptr);
      if copied.Throw? {
        return Throw(copied.error);
      }
      var ended := exports.endDocumentUpdate(buffer[..]);
      TakeMemory(ended.memory);
      var result := ended.address;
      var dv := buffer[..];
      r := ReadHighlights(dv, result);
    }
  }
}
