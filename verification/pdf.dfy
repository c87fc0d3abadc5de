/**
 * The PDF library as the extractor sees it: a document's indirect-object
 * table, each entry's raw dictionary text, and what the library's
 * image extraction yields for it. Parsing and stream decoding belong to the
 * library and are represented only by their results.
 */
module Pdf {

  type Bytes = seq<bv8>

  /** The dictionary the library's `extract_image` returns for one xref. */
  datatype ImageRecord = ImageRecord(
    ext: string,        // lower-case format tag: "png", "jpeg", "jpx", ...
    colorspace: int,    // number of colour components
    smask: nat,         // xref of the soft-mask object, 0 when there is none
    image: Bytes)       // the encoded image stream

  /** What `extract_image(xref)` does: return a record, or raise. */
  datatype Extraction =
    | Extracted(record: ImageRecord)
    | RaisesValueError   // the object is not an image (or the xref is out of range)
    | RaisesOtherError   // any other failure inside the library

  /** One entry of the object table. */
  datatype PdfObject = PdfObject(source: string, extraction: Extraction)

  /**
   * An opened document. `objects[x]` is the object with xref `x`; entry 0 is
   * the head of the free list and is never a real object.
   */
  datatype Document = Document(objects: seq<PdfObject>) {

    /** `xref_length()`: the length of the object table, entry 0 included. */
    function XrefLength(): (n: nat)
    {
      |objects|
    }

    /** `xref_object(xref, compressed=True)`: the object's dictionary text. */
    function XrefObject(xref: nat): (text: string)
      requires 0 < xref < XrefLength()
    {
      objects[xref].source
    }

    /**
     * `extract_image(xref)`. Deterministic: asking twice gives the same
     * answer. An xref outside 1 .. XrefLength()-1 raises ValueError.
     */
    function ExtractImage(xref: nat): (e: Extraction)
    {
      if 0 < xref < XrefLength() then objects[xref].extraction else RaisesValueError
    }
  }
}
