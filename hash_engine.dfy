/**
 * The leaf hash of `generate_hash`: the encoded bytes cut into consecutive
 * 31-byte slices, each read as a big-endian integer, and the list of those
 * integers given to `poseidon_hash_many`.
 */
module HashEngine {
  import opened FeltCodec
  import opened FieldEncoder

  const ChunkSize: nat := 31

  /**
   * The two Poseidon functions of the hashing library, which this model does
   * not define: `many` is `poseidon_hash_many`, `single` is
   * `poseidon_hash_single`.
   */
  datatype Poseidon = Poseidon(many: seq<nat> -> nat, single: nat -> nat)

  function Min(a: int, b: int): int {
    if a <= b then a else b
  }

  /** The number of slice offsets 0, 31, 62, ... below `n`. */
  function ChunkCount(n: nat): nat {
    (n + ChunkSize - 1) / ChunkSize
  }

  /** The slices of `bs` at stride 31: consecutive 31-byte pieces, the last one possibly shorter. */
  function Chunks(bs: Bytes): seq<Bytes> {
    seq(ChunkCount(|bs|), k requires 0 <= k < ChunkCount(|bs|) =>
      bs[ChunkSize * k .. Min(ChunkSize * k + ChunkSize, |bs|)])
  }

  /** The bytes read as an unsigned big-endian integer. */
  function BigEndian(s: Bytes): nat {
    if s == [] then 0 else BigEndian(s[..|s| - 1]) * 256 + s[|s| - 1]
  }

  function Pow256(k: nat): (r: nat)
    ensures r >= 1
  {
    if k == 0 then 1 else 256 * Pow256(k - 1)
  }

  /**
   * The integer list handed to `poseidon_hash_many`: the big-endian value of
   * the first (at most) 31 bytes, then those of the rest.
   */
  function ChunkValues(bs: Bytes): seq<nat>
    decreases |bs|
  {
    if bs == [] then []
    else
      var m := Min(ChunkSize, |bs|);
      [BigEndian(bs[..m])] + ChunkValues(bs[m..])
  }

  /** The leaf hash of one record: Poseidon over its chunk values. */
  function GenerateHash(p: Poseidon, r: Record): nat {
    p.many(ChunkValues(Encode(r)))
  }

  function Flatten(cs: seq<Bytes>): Bytes {
    if cs == [] then [] else cs[0] + Flatten(cs[1..])
  }

  /** Peeling off the first slice leaves the slicing of the rest. */
  lemma ChunksFirst(bs: Bytes)
    requires |bs| > 0
    ensures Chunks(bs) == [bs[..Min(ChunkSize, |bs|)]] + Chunks(bs[Min(ChunkSize, |bs|)..])
  {
    var cs := Chunks(bs);
    var m := Min(ChunkSize, |bs|);
    var rest := bs[m..];
    var ds := Chunks(rest);
    assert |cs| == 1 + |ds|;
    forall k | 1 <= k < |cs|
      ensures cs[k] == ds[k - 1]
    {
      assert m == ChunkSize;
      assert ds[k - 1] == rest[ChunkSize * (k - 1) .. Min(ChunkSize * (k - 1) + ChunkSize, |rest|)];
    }
    assert cs == [cs[0]] + ds;
  }

  /**
   * The value list is the slice-by-slice list of process_metadata.py:47:
   * element `k` is the big-endian value of slice `k`, and there is one per slice.
   */
  lemma {:induction false} ChunkValuesAreSlices(bs: Bytes)
    ensures |ChunkValues(bs)| == |Chunks(bs)|
    ensures forall k :: 0 <= k < |Chunks(bs)| ==> ChunkValues(bs)[k] == BigEndian(Chunks(bs)[k])
    decreases |bs|
  {
    if bs != [] {
      var m := Min(ChunkSize, |bs|);
      ChunksFirst(bs);
      ChunkValuesAreSlices(bs[m..]);
      var cs := Chunks(bs);
      var vs := ChunkValues(bs);
      assert vs == [BigEndian(bs[..m])] + ChunkValues(bs[m..]);
      forall k | 0 <= k < |cs|
        ensures vs[k] == BigEndian(cs[k])
      {
        if k > 0 {
          assert vs[k] == ChunkValues(bs[m..])[k - 1];
          assert cs[k] == Chunks(bs[m..])[k - 1];
        }
      }
    }
  }

  /** Chunking covers the input exactly: the slices concatenate back to it. */
  lemma {:induction false} ChunksCover(bs: Bytes)
    ensures Flatten(Chunks(bs)) == bs
    decreases |bs|
  {
    if |bs| > 0 {
      var m := Min(ChunkSize, |bs|);
      ChunksFirst(bs);
      var cs := Chunks(bs);
      assert cs[0] == bs[..m] && cs[1..] == Chunks(bs[m..]);
      ChunksCover(bs[m..]);
      assert bs[..m] + bs[m..] == bs;
    }
  }

  /**
   * The number of slices is the ceiling of `|bs| / 31`; every slice but the
   * last has 31 bytes, and the last has between 1 and 31.
   */
  lemma ChunkShape(bs: Bytes)
    ensures var cs := Chunks(bs);
      && |cs| * ChunkSize >= |bs| > (|cs| - 1) * ChunkSize
      && (forall k :: 0 <= k < |cs| - 1 ==> |cs[k]| == ChunkSize)
      && (|cs| > 0 ==> 1 <= |cs[|cs| - 1]| <= ChunkSize)
  {
  }

  /** Only the empty byte string has no slices. */
  lemma ChunksNonEmpty(bs: Bytes)
    ensures |Chunks(bs)| >= 1 <==> |bs| >= 1
  {
  }

  /** A big-endian integer of `k` bytes is below `256^k`. */
  lemma {:induction false} BigEndianBound(s: Bytes)
    ensures BigEndian(s) < Pow256(|s|)
  {
    if s != [] {
      var init := s[..|s| - 1];
      BigEndianBound(init);
      assert (BigEndian(init) + 1) * 256 <= Pow256(|init|) * 256;
    }
  }

  /** Reading equal-length byte strings as big-endian integers is injective. */
  lemma {:induction false} BigEndianInjective(s: Bytes, t: Bytes)
    requires |s| == |t| && BigEndian(s) == BigEndian(t)
    ensures s == t
  {
    if s != [] {
      var s0, t0 := s[..|s| - 1], t[..|t| - 1];
      assert BigEndian(s0) * 256 + s[|s| - 1] == BigEndian(t0) * 256 + t[|t| - 1];
      assert s[|s| - 1] == t[|t| - 1] && BigEndian(s0) == BigEndian(t0) by {
        DivModUnique(BigEndian(s0), s[|s| - 1], BigEndian(t0), t[|t| - 1]);
      }
      BigEndianInjective(s0, t0);
      assert s == s0 + [s[|s| - 1]] && t == t0 + [t[|t| - 1]];
    }
  }

  lemma DivModUnique(q1: nat, r1: Byte, q2: nat, r2: Byte)
    requires q1 * 256 + r1 == q2 * 256 + r2
    ensures q1 == q2 && r1 == r2
  {
    assert (q1 * 256 + r1) / 256 == q1;
    assert (q2 * 256 + r2) / 256 == q2;
  }

  /** A leading zero byte does not change the value, so the length of a slice is not recorded. */
  lemma {:induction false} BigEndianLeadingZero(s: Bytes)
    ensures BigEndian([0] + s) == BigEndian(s)
  {
    if s != [] {
      assert ([0] + s)[..|s|] == [0] + s[..|s| - 1];
      BigEndianLeadingZero(s[..|s| - 1]);
    }
  }

  lemma Pow256Mono(j: nat, k: nat)
    requires j <= k
    ensures Pow256(j) <= Pow256(k)
  {
    if j < k {
      Pow256Mono(j, k - 1);
    }
  }

  /**
   * Every value handed to `poseidon_hash_many` is below 256^31 = 2^248, so it
   * is a field element without reduction.
   */
  lemma ChunkValuesBound(bs: Bytes)
    ensures forall k :: 0 <= k < |ChunkValues(bs)| ==> ChunkValues(bs)[k] < Pow256(ChunkSize)
  {
    var cs := Chunks(bs);
    ChunkValuesAreSlices(bs);
    forall k | 0 <= k < |cs|
      ensures ChunkValues(bs)[k] < Pow256(ChunkSize)
    {
      ChunkShape(bs);
      BigEndianBound(cs[k]);
      Pow256Mono(|cs[k]|, ChunkSize);
    }
  }

  /** Every record hashes at least one chunk. */
  lemma LeafHasChunks(r: Record)
    ensures |ChunkValues(Encode(r))| >= 1
  {
    EncodeNonEmpty(r);
    ChunksNonEmpty(Encode(r));
    ChunkValuesAreSlices(Encode(r));
  }

  /**
   * Because the encoding has no delimiters, records that differ only in where
   * the name ends and the birthplace begins get the same leaf hash, whatever
   * the hash function.
   */
  lemma BoundaryShiftSameLeaf(p: Poseidon, r: Record, x: Bytes, y: Bytes, z: Bytes)
    ensures GenerateHash(p, r.(personName := x + y, birthplace := z))
         == GenerateHash(p, r.(personName := x, birthplace := y + z))
  {
    NameBirthplaceBoundary(r, x, y, z);
  }
}
