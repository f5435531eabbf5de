/** Byte strings as both hashes read them: equal stretches, what has been fed, and concatenation. */
module XxhBytes {
  // n bytes of a from p are those of b from q.
  ghost predicate SameBytes(a: seq<bv8>, p: nat, b: seq<bv8>, q: nat, n: nat) {
    p + n <= |a| && q + n <= |b| && forall i :: p <= i < p + n ==> a[i] == b[i - p + q]
  }

  lemma SameBytesTransitive(a: seq<bv8>, p: nat, b: seq<bv8>, q: nat, c: seq<bv8>, r: nat, n: nat)
    requires SameBytes(a, p, b, q, n) && SameBytes(b, q, c, r, n)
    ensures SameBytes(a, p, c, r, n)
  {
  }

  lemma FedPrefix(fed: seq<bv8>, data: seq<bv8>, m: nat)
    requires m <= |fed|
    ensures SameBytes(fed, 0, fed + data, 0, m)
  {
  }

  lemma FedSuffix(fed: seq<bv8>, data: seq<bv8>, p: nat, n: nat)
    requires p + n <= |data|
    ensures SameBytes(data, p, fed + data, |fed| + p, n)
  {
  }

  // Two inputs of the same length differ, and only inside the w bytes at i.
  ghost predicate ChangedAt(a: seq<bv8>, b: seq<bv8>, i: nat, w: nat) {
    && |a| == |b| && i + w <= |a|
    && (forall k :: 0 <= k < i || i + w <= k < |a| ==> a[k] == b[k])
    && exists k :: i <= k < i + w && a[k] != b[k]
  }

  function Concat(chunks: seq<seq<bv8>>): seq<bv8> {
    if chunks == [] then [] else Concat(chunks[..|chunks| - 1]) + chunks[|chunks| - 1]
  }
}
