/** Files as TFTP carries them (RFC 1350, sections 2 and 6): blocks of 512 bytes, ended by a
    shorter one. */
module TftpBlocks {
  import opened Bytes

  const CHUNK: nat := 512 // TFTP_CHUNK_SIZE

  function NumBlocks(file: seq<byte>): nat {
    |file| / CHUNK + 1
  }

  /** The block that follows the first k. */
  function Block(file: seq<byte>, k: nat): seq<byte> {
    if CHUNK * k >= |file| then []
    else if CHUNK * k + CHUNK <= |file| then file[CHUNK * k..CHUNK * k + CHUNK]
    else file[CHUNK * k..]
  }

  /** The first k blocks put together. */
  function Prefix(file: seq<byte>, k: nat): seq<byte> {
    if CHUNK * k <= |file| then file[..CHUNK * k] else file
  }

  lemma PrefixStep(file: seq<byte>, k: nat)
    ensures Prefix(file, k) + Block(file, k) == Prefix(file, k + 1)
  {}

  lemma PrefixAll(file: seq<byte>, k: nat)
    ensures k >= NumBlocks(file) ==> Prefix(file, k) == file
    ensures Prefix(file, 0) == []
  {}

  /** All blocks are full but the last, which is shorter. */
  lemma BlockSize(file: seq<byte>, k: nat)
    ensures |Block(file, k)| <= CHUNK
    ensures |Block(file, k)| == CHUNK <==> k + 1 < NumBlocks(file)
  {}

  /** In numbers: full blocks of 512 bytes, and one of what is left, if only 0 bytes. */
  lemma BlockBytes(file: seq<byte>, k: nat, i: nat)
    requires k < NumBlocks(file)
    ensures NumBlocks(file) == |file| / 512 + 1
    ensures |Block(file, k)| == if k < |file| / 512 then 512 else |file| % 512
    ensures i < |Block(file, k)| ==> 512 * k + i < |file| && Block(file, k)[i] == file[512 * k + i]
  {}
}
