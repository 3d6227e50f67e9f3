/** File contents as stored by gitlet (Blob.java). */
module Blobs {
  import opened Wrappers

  /** One octet of file content. */
  newtype byte = x: int | 0 <= x < 256

  /** The contents of a file. */
  type Bytes = seq<byte>

  /** The bytes of a string all of whose characters are ASCII. */
  function Ascii(s: string): (r: Bytes)
    requires forall i :: 0 <= i < |s| ==> s[i] as int < 128
    ensures |r| == |s|
    ensures forall i :: 0 <= i < |s| ==> r[i] as int == s[i] as int
  {
    seq(|s|, i requires 0 <= i < |s| => s[i] as int as byte)
  }

  /** A snapshot of one file's contents. The digest the source computes at
      construction only names the blob's file on disk, so it is not a field here. */
  datatype Blob = Blob(content: Bytes)
  {
    /** The bytes given at construction. */
    function GetContent(): (r: Bytes)
      ensures Blob(r) == this
    {
      content
    }

    /** Java's equals: the same object, or another Blob with element-wise equal
        contents; false for null (None). Content equality is value equality. */
    function Equals(o: Option<Blob>): (r: bool)
      ensures r <==> o == Some(this)
      ensures r ==> o.value.content == content
    {
      match o
      case None => false
      case Some(b) => b == this || b.content == content
    }
  }

  /** Equality of blobs is symmetric. */
  lemma EqualsSymmetric(a: Blob, b: Blob)
    ensures a.Equals(Some(b)) <==> b.Equals(Some(a))
  {
  }
}
