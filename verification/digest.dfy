/**
  The incremental hash object the Fiat-Shamir transform owns, reduced to its
  observable behaviour: `update` appends to a pending buffer, and
  `finalize_reset` hashes the buffer and empties it. The hash function itself
  is a parameter and stays uninterpreted.
*/
module Digest {
  import opened Lib

  type HashFn = seq<byte> -> seq<byte>

  /** Every digest is long enough to take a 32-byte prefix of. */
  ghost predicate DigestWide(hash: HashFn) {
    forall m :: |hash(m)| >= LABEL_LENGTH
  }

  datatype Hasher = Hasher(buffer: seq<byte>) {

    function Update(data: seq<byte>): (h: Hasher)
      ensures h.buffer == buffer + data
    {
      Hasher(buffer + data)
    }

    /** Returns the digest of everything fed in since the last reset, and a reset hasher. */
    function FinalizeReset(hash: HashFn): (r: (seq<byte>, Hasher))
      ensures r.0 == hash(buffer)
      ensures r.1.buffer == []
    {
      (hash(buffer), Hasher([]))
    }
  }
}
