/**
 * The leaf encoding of `generate_hash`: the record's fields concatenated, with
 * no separator and no length prefix, in the fixed order token id (as decimal
 * text), person name, birthplace, ethnicity, occupation, special trait.
 */
module FieldEncoder {
  import opened Wrappers
  import opened FeltCodec

  type Byte = b: int | 0 <= b < 256
  type Bytes = seq<Byte>

  /** One metadata row; the string fields are their encoded bytes. */
  datatype Record = Record(
    tokenId: nat,
    personName: Bytes,
    birthplace: Bytes,
    ethnicity: Bytes,
    occupation: Bytes,
    specialTrait: Option<Bytes>)

  /**
   * `str(token_id).encode()`: the ASCII codes of the decimal digits, most
   * significant first.  This is `FeltCodec.Decimal` again, written on bytes
   * as its own recursion so that proofs about the leaf hash need not unfold
   * the character-level definition; `TokenBytesAreDecimal` proves the two agree.
   */
  function TokenBytes(id: nat): (r: Bytes)
    ensures |r| >= 1
  {
    if id < 10 then ['0' as int + id] else TokenBytes(id / 10) + ['0' as int + id % 10]
  }

  /** The token bytes are the characters of `str(token_id)`, one byte per digit. */
  lemma {:induction false} TokenBytesAreDecimal(id: nat)
    ensures |TokenBytes(id)| == |Decimal(id)|
    ensures forall i :: 0 <= i < |TokenBytes(id)| ==> TokenBytes(id)[i] == Decimal(id)[i] as int
    ensures forall i :: 0 <= i < |TokenBytes(id)| ==> '0' as int <= TokenBytes(id)[i] <= '9' as int
  {
    if id >= 10 {
      TokenBytesAreDecimal(id / 10);
    }
  }

  /** `(special_trait or "")`: an absent trait contributes no bytes. */
  function TraitBytes(t: Option<Bytes>): Bytes {
    match t
    case None => []
    case Some(b) => b
  }

  /** The byte string that is chunked and hashed for one record; it always starts with the token digits. */
  function Encode(r: Record): (out: Bytes)
    ensures |out| >= |TokenBytes(r.tokenId)| >= 1
    ensures out[..|TokenBytes(r.tokenId)|] == TokenBytes(r.tokenId)
  {
    TokenBytes(r.tokenId) + r.personName + r.birthplace + r.ethnicity + r.occupation
      + TraitBytes(r.specialTrait)
  }

  /**
   * The encoding is the six parts laid end to end: its length is the sum of
   * theirs, and each part sits at the offset given by the lengths before it.
   */
  lemma EncodeLayout(r: Record)
    ensures var t := TokenBytes(r.tokenId);
      var a := |t|;
      var b := a + |r.personName|;
      var c := b + |r.birthplace|;
      var d := c + |r.ethnicity|;
      var e := d + |r.occupation|;
      var out := Encode(r);
      && |out| == e + |TraitBytes(r.specialTrait)|
      && out[..a] == t
      && out[a..b] == r.personName
      && out[b..c] == r.birthplace
      && out[c..d] == r.ethnicity
      && out[d..e] == r.occupation
      && out[e..] == TraitBytes(r.specialTrait)
  {
  }

  /** The encoding is never empty: `str(token_id)` has at least one digit. */
  lemma EncodeNonEmpty(r: Record)
    ensures |Encode(r)| >= 1
  {
  }

  /** A missing special trait encodes exactly like an empty one. */
  lemma AbsentTraitIsEmpty(r: Record)
    ensures Encode(r.(specialTrait := None)) == Encode(r.(specialTrait := Some([])))
  {
  }

  /**
   * No delimiters: moving the boundary between the person name and the
   * birthplace (name `x + y`, birthplace `z` versus name `x`, birthplace
   * `y + z`) gives the same bytes.
   */
  lemma NameBirthplaceBoundary(r: Record, x: Bytes, y: Bytes, z: Bytes)
    ensures Encode(r.(personName := x + y, birthplace := z))
         == Encode(r.(personName := x, birthplace := y + z))
  {
  }

  /** Appending a digit `d` to the decimal text of `id >= 1` gives the text of `10 * id + d`. */
  lemma TokenBytesSnoc(id: nat, d: nat)
    requires id >= 1 && d < 10
    ensures TokenBytes(10 * id + d) == TokenBytes(id) + ['0' as int + d]
  {
    var n := 10 * id + d;
    assert n / 10 == id && n % 10 == d;
  }

  /**
   * No delimiters, at the first boundary: for every token `id >= 1` and digit
   * `d`, token `id` with a person name starting with `d` encodes like token
   * `10 * id + d` with the rest of the name (token 1 with name "2" is token 12
   * with an empty name).
   */
  lemma TokenNameBoundary(r: Record, id: nat, d: nat, rest: Bytes)
    requires id >= 1 && d < 10
    ensures Encode(r.(tokenId := id, personName := ['0' as int + d] + rest))
         == Encode(r.(tokenId := 10 * id + d, personName := rest))
  {
    TokenBytesSnoc(id, d);
  }
}
