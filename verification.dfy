/**
 * `verify_data` of verify.py, without the database query and the printed
 * messages: a pass/fail verdict per stored document, then the root of the
 * regenerated leaves compared with the `merkle_root` of the first document.
 */
module Verification {
  import opened Wrappers
  import opened FeltCodec
  import opened HashEngine
  import opened MerkleBuilder
  import opened Documents
  import opened Ingestion

  /** The exceptions that stop `verify_data` before it reports the root. */
  datatype VerifyError =
    | StoredHashUnreadable(index: nat)  // `int(metadata["hash"])` raises on this document
    | EmptyCollection                   // `hashes[0]` inside `compute_merkle_root`
    | StoredRootUnreadable              // `int(metadata_list[0]["merkle_root"])` raises

  /** The per-document verdicts in retrieval order and the root verdict. */
  datatype Report = Report(hashVerdicts: seq<bool>, rootVerdict: bool)

  /**
   * The per-document loop over a prefix of the documents: verdict `i` is
   * whether the regenerated leaf equals the stored hash; the first stored hash
   * that `int` cannot read stops the loop.
   */
  function CheckHashes(p: Poseidon, docs: seq<Metadata>): (r: Result<seq<bool>, VerifyError>)
    ensures r.Ok? ==> |r.value| == |docs|
    ensures r.Err? ==> r.error.StoredHashUnreadable? && r.error.index < |docs|
    decreases |docs|
  {
    if docs == [] then Ok([])
    else
      var init := docs[..|docs| - 1];
      var last := docs[|docs| - 1];
      match CheckHashes(p, init)
      case Err(e) => Err(e)
      case Ok(verdicts) =>
        match ReadInt(last.hash)
        case None => Err(StoredHashUnreadable(|docs| - 1))
        case Some(stored) => Ok(verdicts + [GenerateHash(p, last.fields) == stored])
  }

  /**
   * When the loop gets through: it succeeds exactly when every stored hash
   * reads as an integer, and a failure names the first unreadable document.
   */
  lemma {:induction false} CheckHashesReadable(p: Poseidon, docs: seq<Metadata>)
    ensures CheckHashes(p, docs).Ok? <==> forall i :: 0 <= i < |docs| ==> ReadInt(docs[i].hash).Some?
    ensures CheckHashes(p, docs).Err? ==>
      && ReadInt(docs[CheckHashes(p, docs).error.index].hash).None?
      && forall j :: 0 <= j < CheckHashes(p, docs).error.index ==> ReadInt(docs[j].hash).Some?
    decreases |docs|
  {
    if docs != [] {
      var init := docs[..|docs| - 1];
      CheckHashesReadable(p, init);
      assert forall i :: 0 <= i < |init| ==> init[i] == docs[i];
    }
  }

  /**
   * What the loop computes when every stored hash is readable: verdict `i`
   * compares leaf `i` with stored hash `i`.
   */
  lemma {:induction false} CheckHashesVerdicts(p: Poseidon, docs: seq<Metadata>)
    requires forall i :: 0 <= i < |docs| ==> ReadInt(docs[i].hash).Some?
    ensures CheckHashes(p, docs).Ok?
    ensures forall i :: 0 <= i < |docs| ==>
      CheckHashes(p, docs).value[i] == (Leaves(p, docs)[i] == ReadInt(docs[i].hash).value)
    decreases |docs|
  {
    if docs != [] {
      var init := docs[..|docs| - 1];
      var last := docs[|docs| - 1];
      assert forall i :: 0 <= i < |init| ==> init[i] == docs[i];
      CheckHashesVerdicts(p, init);
      assert Leaves(p, docs) == Leaves(p, init) + [GenerateHash(p, last.fields)];
      var verdicts := CheckHashes(p, init).value;
      assert CheckHashes(p, docs).value == verdicts + [GenerateHash(p, last.fields) == ReadInt(last.hash).value];
    }
  }

  /** The whole of `verify_data` on the documents `find` returned, in that order. */
  function Verify(p: Poseidon, docs: seq<Metadata>): (r: Result<Report, VerifyError>)
    ensures r.Ok? ==> 0 < |docs| == |r.value.hashVerdicts|
    ensures r == Err(EmptyCollection) <==> docs == []
    ensures r.Err? && r.error.StoredHashUnreadable? ==> r.error.index < |docs|
  {
    match CheckHashes(p, docs)
    case Err(e) => Err(e)
    case Ok(verdicts) =>
      match Root(p.single, Leaves(p, docs))
      case None => Err(EmptyCollection)
      case Some(root) =>
        match ReadInt(docs[0].merkleRoot)
        case None => Err(StoredRootUnreadable)
        case Some(stored) => Ok(Report(verdicts, root == stored))
  }

  /** The loop stops at the first document whose stored hash cannot be read. */
  lemma FirstUnreadable(p: Poseidon, docs: seq<Metadata>, k: nat)
    requires k < |docs| && ReadInt(docs[k].hash).None?
    requires forall j :: 0 <= j < k ==> ReadInt(docs[j].hash).Some?
    ensures CheckHashes(p, docs) == Err(StoredHashUnreadable(k))
  {
    CheckHashesReadable(p, docs);
    var r := CheckHashes(p, docs);
    assert r.Err?;
    var idx := r.error.index;
    assert !(idx < k);
    assert !(k < idx);
  }

  /** One more iteration of the loop: the check of the next document extends the verdicts. */
  lemma CheckHashesStep(p: Poseidon, docs: seq<Metadata>, i: nat, verdicts: seq<bool>)
    requires i < |docs| && CheckHashes(p, docs[..i]) == Ok(verdicts)
    ensures CheckHashes(p, docs[..i + 1]) ==
      match ReadInt(docs[i].hash)
      case None => Err(StoredHashUnreadable(i))
      case Some(stored) => Ok(verdicts + [GenerateHash(p, docs[i].fields) == stored])
  {
    assert docs[..i + 1][..i] == docs[..i];
  }

  /**
   * The per-document loop of `verify_data`: it regenerates every leaf into
   * the local list `hashes` and compares it with the stored hash, stopping at
   * the first stored hash that `int` cannot read.
   */
  method CheckStoredHashes(p: Poseidon, docs: seq<Metadata>) returns (r: Result<seq<bool>, VerifyError>, hashes: HashList)
    ensures fresh(hashes)
    ensures r == CheckHashes(p, docs)
    ensures r.Ok? ==> hashes.items == Leaves(p, docs)
  {
    hashes := new HashList([]);
    var verdicts: seq<bool> := [];
    var i := 0;
    while i < |docs|
      invariant 0 <= i <= |docs|
      invariant CheckHashes(p, docs[..i]) == Ok(verdicts)
      invariant hashes.items == Leaves(p, docs[..i])
    {
      var regenerated := GenerateHash(p, docs[i].fields);
      var stored := ReadInt(docs[i].hash);
      if stored.None? {
        CheckHashesReadable(p, docs[..i]);
        assert forall j :: 0 <= j < i ==> docs[..i][j] == docs[j];
        FirstUnreadable(p, docs, i);
        return Err(StoredHashUnreadable(i)), hashes;
      }
      CheckHashesStep(p, docs, i, verdicts);
      verdicts := verdicts + [regenerated == stored.value];
      LeavesSnoc(p, docs, i);
      hashes.Append(regenerated);
      i := i + 1;
    }
    assert docs[..i] == docs;
    r := Ok(verdicts);
  }

  /**
   * `verify_data`.  The documents are values: nothing is written back, and
   * the only list it changes is its own local `hashes`.
   */
  method VerifyData(p: Poseidon, docs: seq<Metadata>) returns (r: Result<Report, VerifyError>)
    ensures r == Verify(p, docs)
  {
    var verdicts, hashes := CheckStoredHashes(p, docs);
    if verdicts.Err? {
      return Err(verdicts.error);
    }
    var regeneratedRoot := ComputeMerkleRoot(p.single, hashes);
    if regeneratedRoot.None? {
      return Err(EmptyCollection);
    }
    var storedRoot := ReadInt(docs[0].merkleRoot);
    if storedRoot.None? {
      return Err(StoredRootUnreadable);
    }
    r := Ok(Report(verdicts.value, regeneratedRoot.value == storedRoot.value));
  }

  /** An empty collection fails at `hashes[0]`. */
  lemma VerifyEmpty(p: Poseidon)
    ensures Verify(p, []) == Err(EmptyCollection)
  {
  }

  /**
   * What a report means: one verdict per document in retrieval order, each
   * comparing the regenerated leaf with the stored hash, and a root verdict
   * comparing the root of the regenerated leaves with the first document's
   * stored root.
   */
  lemma VerifyReport(p: Poseidon, docs: seq<Metadata>)
    requires Verify(p, docs).Ok?
    ensures var rep := Verify(p, docs).value;
      && |docs| > 0
      && |rep.hashVerdicts| == |docs|
      && (forall i :: 0 <= i < |docs| ==>
            (rep.hashVerdicts[i] <==> Some(Leaves(p, docs)[i]) == ReadInt(docs[i].hash)))
      && (rep.rootVerdict <==> Root(p.single, Leaves(p, docs)) == ReadInt(docs[0].merkleRoot))
  {
    CheckHashesReadable(p, docs);
    CheckHashesVerdicts(p, docs);
  }

  /** Only the first document's `merkle_root` is read: the others may hold anything. */
  lemma OnlyFirstRootRead(p: Poseidon, docs: seq<Metadata>, other: seq<Metadata>)
    requires |docs| == |other| > 0
    requires forall i :: 0 <= i < |docs| ==> docs[i].fields == other[i].fields && docs[i].hash == other[i].hash
    requires docs[0].merkleRoot == other[0].merkleRoot
    ensures Verify(p, docs) == Verify(p, other)
  {
    LeavesIgnoreStoredValues(p, docs, other);
    assert CheckHashes(p, docs) == CheckHashes(p, other) by {
      CheckHashesAgree(p, docs, other);
    }
  }

  /** The loop reads of each document only its fields and its `hash`. */
  lemma {:induction false} CheckHashesAgree(p: Poseidon, docs: seq<Metadata>, other: seq<Metadata>)
    requires |docs| == |other|
    requires forall i :: 0 <= i < |docs| ==> docs[i].fields == other[i].fields && docs[i].hash == other[i].hash
    ensures CheckHashes(p, docs) == CheckHashes(p, other)
    decreases |docs|
  {
    if docs != [] {
      CheckHashesAgree(p, docs[..|docs| - 1], other[..|other| - 1]);
    }
  }

  /** The loop's verdicts after changing one readable stored hash to another readable value. */
  lemma CheckHashesOneChanged(p: Poseidon, docs: seq<Metadata>, k: nat, e: Entry)
    requires k < |docs| && CheckHashes(p, docs).Ok? && ReadInt(e).Some?
    ensures CheckHashes(p, docs[k := docs[k].(hash := e)])
         == Ok(CheckHashes(p, docs).value[k := Leaves(p, docs)[k] == ReadInt(e).value])
  {
    var tampered := docs[k := docs[k].(hash := e)];
    CheckHashesReadable(p, docs);
    assert forall i :: 0 <= i < |tampered| ==> ReadInt(tampered[i].hash).Some?;
    CheckHashesVerdicts(p, docs);
    CheckHashesVerdicts(p, tampered);
    LeavesIgnoreStoredValues(p, docs, tampered);
    var before := CheckHashes(p, docs).value;
    var after := CheckHashes(p, tampered).value;
    var expected := before[k := Leaves(p, docs)[k] == ReadInt(e).value];
    assert |after| == |expected|;
    forall i | 0 <= i < |after|
      ensures after[i] == expected[i]
    {
      if i != k {
        assert tampered[i] == docs[i];
        assert after[i] == (Leaves(p, docs)[i] == ReadInt(docs[i].hash).value);
      }
    }
    assert after == expected;
    assert CheckHashes(p, tampered) == Ok(after);
  }

  /**
   * Changing only the stored hash of document `k` (to another readable value)
   * changes at most verdict `k` and leaves the root verdict as it was: the
   * root is built from regenerated leaves, never from stored hashes.
   */
  lemma StoredHashChangesOneVerdict(p: Poseidon, docs: seq<Metadata>, k: nat, e: Entry)
    requires k < |docs| && Verify(p, docs).Ok? && ReadInt(e).Some?
    ensures var tampered := docs[k := docs[k].(hash := e)];
      var rep := Verify(p, docs).value;
      && Verify(p, tampered).Ok?
      && Verify(p, tampered).value.hashVerdicts
           == rep.hashVerdicts[k := Leaves(p, docs)[k] == ReadInt(e).value]
      && Verify(p, tampered).value.rootVerdict == rep.rootVerdict
  {
    var tampered := docs[k := docs[k].(hash := e)];
    LeavesIgnoreStoredValues(p, docs, tampered);
    CheckHashesOneChanged(p, docs, k, e);
    assert tampered[0].merkleRoot == docs[0].merkleRoot;
  }

  /**
   * Tampering with one stored hash is caught by that document's verdict only:
   * the root verdict still passes on a store that passed before.
   */
  lemma TamperedHashDetected(p: Poseidon, docs: seq<Metadata>, k: nat, forged: nat)
    requires k < |docs| && Verify(p, docs).Ok?
    requires forged != GenerateHash(p, docs[k].fields)
    ensures Verify(p, docs[k := docs[k].(hash := Int(forged))]).Ok?
    ensures var rep := Verify(p, docs[k := docs[k].(hash := Int(forged))]).value;
      && k < |rep.hashVerdicts| && !rep.hashVerdicts[k]
      && rep.rootVerdict == Verify(p, docs).value.rootVerdict
  {
    LeafAt(p, docs, k);
    StoredHashChangesOneVerdict(p, docs, k, Int(forged));
  }

  /** When every stored hash reads back as the regenerated leaf, every verdict passes. */
  lemma CheckHashesAllPass(p: Poseidon, docs: seq<Metadata>)
    requires forall i :: 0 <= i < |docs| ==> ReadInt(docs[i].hash) == Some(Leaves(p, docs)[i])
    ensures CheckHashes(p, docs) == Ok(seq(|docs|, i => true))
  {
    CheckHashesReadable(p, docs);
    CheckHashesVerdicts(p, docs);
    var verdicts := CheckHashes(p, docs).value;
    assert forall i :: 0 <= i < |docs| ==> verdicts[i];
    assert verdicts == seq(|docs|, i => true);
  }

  /**
   * Soundness on untouched data: documents stored by ingestion, read back in
   * the same order, pass every per-document check and the root check,
   * provided every leaf and the root are below 10^77 (so none was truncated).
   */
  lemma IngestThenVerify(p: Poseidon, rows: seq<Metadata>)
    requires |rows| > 0
    requires forall i :: 0 <= i < |rows| ==> Leaves(p, rows)[i] < FeltBound
    requires Root(p.single, Leaves(p, rows)).value < FeltBound
    ensures Verify(p, Ingested(p, rows)) == Ok(Report(seq(|rows|, i => true), true))
  {
    var out := Ingested(p, rows);
    LeavesIgnoreStoredValues(p, rows, out);
    forall i | 0 <= i < |rows|
      ensures ReadInt(out[i].hash) == Some(Leaves(p, out)[i])
    {
      IngestedReadsBack(p, rows, i);
    }
    CheckHashesAllPass(p, out);
    IngestedReadsBack(p, rows, 0);
  }

  /** Every output of `poseidon_hash_single` and `poseidon_hash_many` is below 10^77. */
  ghost predicate OutputsFitFeltWidth(p: Poseidon) {
    (forall xs :: p.many(xs) < FeltBound) && (forall x :: p.single(x) < FeltBound)
  }

  /**
   * The same soundness under an assumption on the hash library alone: if both
   * Poseidon functions always return values below 10^77, as field elements
   * below 2^252 do, an untouched store always verifies.
   */
  lemma IngestThenVerifyFieldOutputs(p: Poseidon, rows: seq<Metadata>)
    requires |rows| > 0
    requires OutputsFitFeltWidth(p)
    ensures Verify(p, Ingested(p, rows)) == Ok(Report(seq(|rows|, i => true), true))
  {
    var ls := Leaves(p, rows);
    LeavesAt(p, rows);
    RootIsLeafOrPairHash(p.single, ls);
    IngestThenVerify(p, rows);
  }

  /**
   * The converse case: a leaf of 78 or more digits is stored truncated, so
   * even untouched data fails that document's verdict.
   */
  lemma TruncatedLeafFailsVerdict(p: Poseidon, rows: seq<Metadata>, k: nat)
    requires k < |rows|
    requires Leaves(p, rows)[k] >= FeltBound
    ensures Verify(p, Ingested(p, rows)).Ok?
    ensures var rep := Verify(p, Ingested(p, rows)).value;
      k < |rep.hashVerdicts| && !rep.hashVerdicts[k]
  {
    var out := Ingested(p, rows);
    var leaves := Leaves(p, rows);
    LeavesIgnoreStoredValues(p, rows, out);
    assert forall i :: 0 <= i < |out| ==> ReadInt(out[i].hash).Some?;
    CheckHashesVerdicts(p, out);
    var verdicts := CheckHashes(p, out).value;
    TruncatedLeafIsLost(p, rows, k);
    assert !verdicts[k];
    var root := Root(p.single, leaves).value;
    assert ReadInt(out[0].merkleRoot).Some?;
    assert Verify(p, out) == Ok(Report(verdicts, root == ReadInt(out[0].merkleRoot).value));
  }
}
