/**
 * The ingestion side (`main` and `store_in_mongodb` of process_metadata.py,
 * without the spreadsheet reading and the database calls): one leaf per
 * record in row order, the root of those leaves, and every record stamped
 * with its own `hash` and the shared `merkle_root`, both as 77-character text.
 */
module Ingestion {
  import opened Wrappers
  import opened FeltCodec
  import opened HashEngine
  import opened MerkleBuilder
  import opened Documents

  /** The rows as they are handed to `insert_one`, given a non-empty batch. */
  function Ingested(p: Poseidon, rows: seq<Metadata>): (out: seq<Metadata>)
    requires |rows| > 0
    ensures |out| == |rows|
  {
    var leaves := Leaves(p, rows);
    var root := Root(p.single, leaves).value;
    seq(|rows|, i requires 0 <= i < |rows| =>
      rows[i].(hash := Text(ToFelt252(leaves[i])), merkleRoot := Text(ToFelt252(root))))
  }

  /**
   * The loop of `main`: each row gets its leaf hash as an integer under
   * `hash`, and the leaves are collected in row order into the returned list.
   */
  method HashRecords(p: Poseidon, docs: array<Metadata>) returns (hashes: HashList)
    modifies docs
    ensures fresh(hashes)
    ensures hashes.items == Leaves(p, old(docs[..]))
    ensures forall i :: 0 <= i < docs.Length ==> docs[i] == old(docs[i]).(hash := Int(hashes.items[i]))
  {
    ghost var rows := docs[..];
    hashes := new HashList([]);
    var i := 0;
    while i < docs.Length
      invariant 0 <= i <= docs.Length
      invariant fresh(hashes)
      invariant hashes.items == Leaves(p, rows[..i])
      invariant forall j :: 0 <= j < i ==> docs[j] == rows[j].(hash := Int(hashes.items[j]))
      invariant forall j :: i <= j < docs.Length ==> docs[j] == rows[j]
    {
      var row := docs[i];
      var leaf := GenerateHash(p, row.fields);
      LeavesSnoc(p, rows, i);
      docs[i] := row.(hash := Int(leaf));
      hashes.Append(leaf);
      i := i + 1;
    }
    assert rows[..i] == rows;
  }

  /**
   * The loop of `store_in_mongodb`: every row gets the stored text of the
   * root under `merkle_root`, then the stored text of its own integer `hash`
   * under `hash`.  It is called only after `main` has put an integer under
   * every `hash`.
   */
  method StoreInMongoDb(docs: array<Metadata>, root: nat)
    requires forall i :: 0 <= i < docs.Length ==> docs[i].hash.Int?
    modifies docs
    ensures forall i :: 0 <= i < docs.Length ==>
      docs[i] == old(docs[i]).(merkleRoot := Text(ToFelt252(root)),
                               hash := Text(ToFelt252(old(docs[i]).hash.n)))
  {
    var i := 0;
    while i < docs.Length
      invariant 0 <= i <= docs.Length
      invariant forall j :: 0 <= j < i ==>
        docs[j] == old(docs[j]).(merkleRoot := Text(ToFelt252(root)),
                                 hash := Text(ToFelt252(old(docs[j]).hash.n)))
      invariant forall j :: i <= j < docs.Length ==> docs[j] == old(docs[j])
    {
      docs[i] := docs[i].(merkleRoot := Text(ToFelt252(root)));
      docs[i] := docs[i].(hash := Text(ToFelt252(docs[i].hash.n)));
      i := i + 1;
    }
  }

  /**
   * The body of `main` after reading the sheet: hash the rows, compute the root (which fails on an
   * empty batch before anything is stored), then stamp the rows.
   */
  method IngestAndCommit(p: Poseidon, docs: array<Metadata>) returns (root: Option<nat>)
    modifies docs
    ensures root == Root(p.single, Leaves(p, old(docs[..])))
    ensures root.None? <==> docs.Length == 0
    ensures root.Some? ==> docs[..] == Ingested(p, old(docs[..]))
  {
    ghost var rows := docs[..];
    var hashes := HashRecords(p, docs);
    root := ComputeMerkleRoot(p.single, hashes);
    if root.None? {
      return;
    }
    StoreInMongoDb(docs, root.value);
    assert Leaves(p, rows) == old(Leaves(p, docs[..]));
    assert docs[..] == Ingested(p, rows);
  }

  /**
   * Every stamped row keeps its fields, carries the same `merkle_root`, and
   * its stored texts read back as its own leaf and the batch root whenever
   * those are below 10^77.
   */
  lemma IngestedReadsBack(p: Poseidon, rows: seq<Metadata>, i: nat)
    requires |rows| > 0 && i < |rows|
    ensures var out := Ingested(p, rows);
      var leaf := Leaves(p, rows)[i];
      var root := Root(p.single, Leaves(p, rows)).value;
      && out[i].fields == rows[i].fields
      && out[i].merkleRoot == out[0].merkleRoot
      && (leaf < FeltBound ==> ReadInt(out[i].hash) == Some(leaf))
      && (root < FeltBound ==> ReadInt(out[i].merkleRoot) == Some(root))
  {
    StoredTextReadsBack(Leaves(p, rows)[i]);
    StoredTextReadsBack(Root(p.single, Leaves(p, rows)).value);
  }

  /** A leaf of 78 or more digits is stored truncated and no longer reads back as itself. */
  lemma TruncatedLeafIsLost(p: Poseidon, rows: seq<Metadata>, i: nat)
    requires |rows| > 0 && i < |rows|
    requires Leaves(p, rows)[i] >= FeltBound
    ensures ReadInt(Ingested(p, rows)[i].hash) != Some(Leaves(p, rows)[i])
  {
    StoredTextReadsBack(Leaves(p, rows)[i]);
  }
}
