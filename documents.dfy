/**
 * The metadata dictionaries as the two scripts see them: the record's
 * fields plus the `hash` and `merkle_root` keys, whose values change type
 * during ingestion (absent, then an integer, then a 77-character string).
 */
module Documents {
  import opened Wrappers
  import opened FeltCodec
  import opened FieldEncoder
  import opened HashEngine

  /** The value under one dictionary key. */
  datatype Entry = Missing | Int(n: nat) | Text(s: string)

  datatype Metadata = Metadata(fields: Record, hash: Entry, merkleRoot: Entry)

  /**
   * `int(metadata[key])`: a missing key raises `KeyError`, and text that is
   * not a decimal numeral, or has more than `MaxStrDigits` digits, raises
   * `ValueError`; both are modelled as `None`.
   */
  function ReadInt(e: Entry): (r: Option<nat>)
    ensures r.Some? <==> e.Int? || (e.Text? && 0 < |e.s| <= MaxStrDigits && AllDigits(e.s))
    ensures e.Int? ==> r == Some(e.n)
  {
    match e
    case Missing => None
    case Int(n) => Some(n)
    case Text(s) => ParseInt(s)
  }

  /** The leaf hash of every document, in list order, as the loops append them. */
  function Leaves(p: Poseidon, docs: seq<Metadata>): (ls: seq<nat>)
    ensures |ls| == |docs|
    decreases |docs|
  {
    if docs == [] then []
    else Leaves(p, docs[..|docs| - 1]) + [GenerateHash(p, docs[|docs| - 1].fields)]
  }

  /** Leaf `i` is the hash of document `i`'s fields. */
  lemma {:induction false} LeavesAt(p: Poseidon, docs: seq<Metadata>)
    ensures forall i :: 0 <= i < |docs| ==> Leaves(p, docs)[i] == GenerateHash(p, docs[i].fields)
    decreases |docs|
  {
    if docs != [] {
      var init := docs[..|docs| - 1];
      LeavesAt(p, init);
      assert forall i :: 0 <= i < |init| ==> init[i] == docs[i];
    }
  }

  /** The same, for one document. */
  lemma LeafAt(p: Poseidon, docs: seq<Metadata>, i: nat)
    requires i < |docs|
    ensures Leaves(p, docs)[i] == GenerateHash(p, docs[i].fields)
  {
    LeavesAt(p, docs);
  }

  /** One more loop iteration appends the next document's leaf. */
  lemma LeavesSnoc(p: Poseidon, docs: seq<Metadata>, i: nat)
    requires i < |docs|
    ensures Leaves(p, docs[..i + 1]) == Leaves(p, docs[..i]) + [GenerateHash(p, docs[i].fields)]
  {
    assert docs[..i + 1][..i] == docs[..i];
  }

  /** The text `to_felt252` stores reads back as the value exactly when the value is below 10^77. */
  lemma StoredTextReadsBack(v: nat)
    ensures ReadInt(Text(ToFelt252(v))) == Some(v) <==> v < FeltBound
  {
    FeltRoundTrip(v);
  }

  /** The leaves depend on the record fields only, not on the stored `hash` or `merkle_root`. */
  lemma LeavesIgnoreStoredValues(p: Poseidon, docs: seq<Metadata>, other: seq<Metadata>)
    requires |docs| == |other|
    requires forall i :: 0 <= i < |docs| ==> docs[i].fields == other[i].fields
    ensures Leaves(p, docs) == Leaves(p, other)
  {
    LeavesAt(p, docs);
    LeavesAt(p, other);
  }
}
