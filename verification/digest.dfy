/** md5_of_file: the digest of a file, computed by feeding the file to an
    incremental hasher in fixed-size chunks. The MD5 algorithm itself is a
    parameter (any function from bytes to a hex digest); what is modelled is
    the read loop that decides which bytes reach the hasher. */
module Digest {
  import opened Files

  /** A hex digest, as hashlib's hexdigest() returns it. */
  type Digest = string

  /** The chunk size md5_of_file uses by default, and the only one its caller uses. */
  const ChunkSize := 4096

  /** What one f.read(size) returns when the file position is pos: a negative
      size reads to the end of the file, any other size at most size bytes. */
  function Read(content: seq<byte>, pos: nat, size: int): (chunk: seq<byte>)
    requires pos <= |content|
    ensures pos + |chunk| <= |content| && chunk == content[pos..pos + |chunk|]
    ensures size >= 0 ==> |chunk| <= size
    ensures size < 0 || |chunk| == size || pos + |chunk| == |content|
    ensures chunk == [] <==> pos == |content| || size == 0
  {
    if size < 0 || |content| - pos <= size then content[pos..] else content[pos..pos + size]
  }

  /** The bytes of the chunks one after the other. */
  function Flatten(chunks: seq<seq<byte>>): seq<byte>
  {
    if chunks == [] then [] else Flatten(chunks[..|chunks| - 1]) + chunks[|chunks| - 1]
  }

  /** Reads chunks until a read returns nothing, handing each chunk to the
      hasher. The hasher's state is the bytes it has been given: updating an
      MD5 object with a and then b gives the digest of a + b. The chunks
      handed over are returned as a ghost record: every byte of the file
      reaches the hasher once and in order, in non-empty chunks of at most
      size bytes. A read of 0 bytes returns nothing at once, so with size 0
      the digest is that of no bytes at all. */
  method Md5OfFile(hash: seq<byte> -> Digest, content: seq<byte>, size: int)
    returns (digest: Digest, ghost chunks: seq<seq<byte>>)
    ensures size != 0 ==> Flatten(chunks) == content
    ensures size == 0 ==> chunks == []
    ensures forall i :: 0 <= i < |chunks| ==> chunks[i] != [] && (size > 0 ==> |chunks[i]| <= size)
    ensures digest == hash(Flatten(chunks))
    ensures digest == if size == 0 then hash([]) else hash(content)
  {
    var fed: seq<byte> := [];
    var pos := 0;
    chunks := [];
    var chunk := Read(content, pos, size);
    while chunk != []
      invariant pos <= |content|
      invariant chunk == Read(content, pos, size)
      invariant fed == Flatten(chunks) == content[..pos]
      invariant size == 0 ==> chunks == []
      invariant forall i :: 0 <= i < |chunks| ==> chunks[i] != [] && (size > 0 ==> |chunks[i]| <= size)
      decreases |content| - pos
    {
      fed := fed + chunk;
      chunks := chunks + [chunk];
      assert Flatten(chunks) == Flatten(chunks[..|chunks| - 1]) + chunk;
      assert content[..pos + |chunk|] == content[..pos] + chunk;
      pos := pos + |chunk|;
      chunk := Read(content, pos, size);
    }
    digest := hash(fed);
  }
}
