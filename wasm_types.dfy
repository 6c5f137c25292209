/** The records the analysis module leaves in linear memory and the typed
    pointers the host decodes them through. Every decoder reads a buffer
    that it never changes: it is a function of the buffer's bytes, an
    address and, for the many-pointers, an index.

    Layouts (byte-packed, integers little-endian):
      Highlight        9 bytes: tag u8 at +0, start u32 at +1, end u32 at +5
      DocumentUpdated  8 bytes: highlights_ptr u32 at +0, highlights_len u32 at +4 */
module WasmTypes {
  import opened Bytes
  import opened Js

  /** A pointer to one `DocumentUpdated` record. */
  datatype DocumentUpdatedOnePtr = DocumentUpdatedOnePtr(buffer: seq<byte>, address: int) {
    /** The record at `address`: the same record as element 0 of a
        many-pointer at that address. */
    function Deref(): (r: Result<DocumentUpdated>)
      ensures r == DocumentUpdatedManyPtr(buffer, address).Deref(0)
    {
      DocumentUpdated.Deref(buffer, address)
    }
  }

  /** A pointer to consecutive `DocumentUpdated` records, 8 bytes apart. */
  datatype DocumentUpdatedManyPtr = DocumentUpdatedManyPtr(buffer: seq<byte>, address: int) {
    /** Record number `index`, read from the 8 bytes at
        `address + index * 8` and from no other byte. */
    function Deref(index: int): (r: Result<DocumentUpdated>)
      ensures var at := address + index * DocumentUpdated.Size;
        && (r.Ok? <==> InRange(buffer, at, DocumentUpdated.Size))
        && (r.Throw? ==> r.error == RangeError)
        && (r.Ok? ==> r.value == DocumentUpdated.Decode(buffer, buffer[at..at + DocumentUpdated.Size]))
    {
      DocumentUpdated.Deref(buffer, address + index * DocumentUpdated.Size)
    }
  }

  /** The result of a document update: where the highlights start and how
      many there are. */
  datatype DocumentUpdated = DocumentUpdated(highlightsPtr: HighlightManyPtr, highlightsLen: u32) {
    static const Size: nat := 8

    /** The record held in the 8 bytes `record`; its highlight pointer
        points into `buffer`, the buffer the record was read from. */
    static function Decode(buffer: seq<byte>, record: seq<byte>): DocumentUpdated
      requires |record| == Size
    {
      DocumentUpdated(
        HighlightManyPtr(buffer, LittleEndian32(record[0], record[1], record[2], record[3])),
        LittleEndian32(record[4], record[5], record[6], record[7]))
    }

    /** The record at `address`; throws unless all 8 bytes lie in `buffer`. */
    static function Deref(buffer: seq<byte>, address: int): (r: Result<DocumentUpdated>)
      ensures r.Ok? <==> InRange(buffer, address, Size)
      ensures r.Throw? ==> r.error == RangeError
      ensures r.Ok? ==> r.value.highlightsPtr.buffer == buffer
      ensures r.Ok? ==> r.value.highlightsPtr.address
                        == LittleEndian32(buffer[address], buffer[address + 1],
                                          buffer[address + 2], buffer[address + 3])
      ensures r.Ok? ==> r.value.highlightsLen
                        == LittleEndian32(buffer[address + 4], buffer[address + 5],
                                          buffer[address + 6], buffer[address + 7])
    {
      var ptr :- GetUint32(buffer, address + 0);
      var len :- GetUint32(buffer, address + 4);
      Ok(DocumentUpdated(HighlightManyPtr(buffer, ptr), len))
    }

    /** The 8 bytes that hold this record, as the module lays it out. */
    function Encode(): (bytes: seq<byte>)
      requires 0 <= highlightsPtr.address < 0x1_0000_0000
    {
      ToLittleEndian(highlightsPtr.address, 4) + ToLittleEndian(highlightsLen, 4)
    }
  }

  /** Reading back an encoded `DocumentUpdated`, wherever it sits in the
      buffer, gives its pointer and its length. */
  lemma DocumentUpdatedRoundTrip(d: DocumentUpdated, prefix: seq<byte>, suffix: seq<byte>)
    requires 0 <= d.highlightsPtr.address < 0x1_0000_0000
    ensures var buffer := prefix + d.Encode() + suffix;
      DocumentUpdated.Deref(buffer, |prefix|)
      == Ok(DocumentUpdated(HighlightManyPtr(buffer, d.highlightsPtr.address), d.highlightsLen))
  {
    var ptrBytes, lenBytes := ToLittleEndian(d.highlightsPtr.address, 4), ToLittleEndian(d.highlightsLen, 4);
    var buffer := prefix + d.Encode() + suffix;
    assert buffer == prefix + ptrBytes + (lenBytes + suffix);
    GetUint32RoundTrip(prefix, d.highlightsPtr.address, lenBytes + suffix);
    assert buffer == (prefix + ptrBytes) + lenBytes + suffix;
    GetUint32RoundTrip(prefix + ptrBytes, d.highlightsLen, suffix);
  }

  /** A pointer to one `Highlight` record. */
  datatype HighlightOnePtr = HighlightOnePtr(buffer: seq<byte>, address: int) {
    /** The record at `address`: the same record as element 0 of a
        many-pointer at that address. */
    function Deref(): (r: Result<Highlight>)
      ensures r == HighlightManyPtr(buffer, address).Deref(0)
    {
      Highlight.Deref(buffer, address)
    }
  }

  /** A pointer to consecutive `Highlight` records, 9 bytes apart. */
  datatype HighlightManyPtr = HighlightManyPtr(buffer: seq<byte>, address: int) {
    /** Record number `index`, read from the 9 bytes at
        `address + index * 9` and from no other byte: decoding them on
        their own gives the same record. */
    function Deref(index: int): (r: Result<Highlight>)
      ensures var at := address + index * Highlight.Size;
        r == if InRange(buffer, at, Highlight.Size)
             then Highlight.Deref(buffer[at..at + Highlight.Size], 0)
             else Throw(RangeError)
    {
      Highlight.Deref(buffer, address + index * Highlight.Size)
    }
  }

  /** A classified byte range `[start, end)` of the submitted text. The tag
      is kept as the raw byte: nothing checks it against the tag enum. */
  datatype Highlight = Highlight(tag: byte, start: u32, end: u32) {
    static const Size: nat := 9

    /** The record at `address`; throws unless all 9 bytes lie in `buffer`. */
    static function Deref(buffer: seq<byte>, address: int): (r: Result<Highlight>)
      ensures r.Ok? <==> InRange(buffer, address, Size)
      ensures r.Throw? ==> r.error == RangeError
      ensures r.Ok? ==> r.value.tag == buffer[address]
      ensures r.Ok? ==> r.value.start
                        == LittleEndian32(buffer[address + 1], buffer[address + 2],
                                          buffer[address + 3], buffer[address + 4])
      ensures r.Ok? ==> r.value.end
                        == LittleEndian32(buffer[address + 5], buffer[address + 6],
                                          buffer[address + 7], buffer[address + 8])
    {
      var tag :- GetUint8(buffer, address + 0);
      var start :- GetUint32(buffer, address + 1);
      var end :- GetUint32(buffer, address + 5);
      Ok(Highlight(tag, start, end))
    }

    /** The 9 bytes that hold this record, as the module lays it out. */
    function Encode(): (bytes: seq<byte>)
      ensures |bytes| == Size
    {
      [tag] + ToLittleEndian(start, 4) + ToLittleEndian(end, 4)
    }
  }

  /** Reading back an encoded `Highlight`, wherever it sits in the buffer,
      gives the highlight. */
  lemma HighlightRoundTrip(h: Highlight, prefix: seq<byte>, suffix: seq<byte>)
    ensures Highlight.Deref(prefix + h.Encode() + suffix, |prefix|) == Ok(h)
  {
    var startBytes, endBytes := ToLittleEndian(h.start, 4), ToLittleEndian(h.end, 4);
    var buffer := prefix + h.Encode() + suffix;
    assert buffer == prefix + [h.tag] + startBytes + endBytes + suffix;
    assert buffer[|prefix|] == h.tag;
    assert buffer == (prefix + [h.tag]) + startBytes + (endBytes + suffix);
    GetUint32RoundTrip(prefix + [h.tag], h.start, endBytes + suffix);
    assert buffer == (prefix + [h.tag] + startBytes) + endBytes + suffix;
    GetUint32RoundTrip(prefix + [h.tag] + startBytes, h.end, suffix);
  }

  /** An encoded `Highlight` on its own decodes to the highlight. */
  lemma EncodedHighlightDecodes(h: Highlight)
    ensures Highlight.Deref(h.Encode(), 0) == Ok(h)
  {
    HighlightRoundTrip(h, [], []);
    assert [] + h.Encode() + [] == h.Encode();
  }
}
