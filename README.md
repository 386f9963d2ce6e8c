# Poseidon Merkle commitment over NFT metadata, in Dafny

This project models a commitment pipeline over NFT metadata records, in two
scripts.

`process_metadata.py` does the ingestion:
- It hashes every record into a leaf with Poseidon. The record's fields are
  concatenated and cut into 31-byte big-endian chunks.
- It folds the leaves into a Merkle root. Odd levels are padded by
  duplicating their last element, and a pair `(a, b)` becomes
  `poseidon_hash_single(a + b)`.
- It stamps every record with its own `hash` and the shared `merkle_root`.
  Both are stored as 77-character zero-padded decimal text (`to_felt252`).

`verify.py` reads the stored records back:
- it regenerates every leaf and compares it with the stored `hash`;
- it compares the root of the regenerated leaves with the first record's
  stored `merkle_root`.

The two scripts carry copies of `generate_hash`, `compute_merkle_root` and
`to_felt252` (`verify.py:13-42` against `process_metadata.py:37-66`) whose
code is identical; only two comments differ (`process_metadata.py:51`
against `verify.py:27`, and "hex" at `process_metadata.py:62` against
"decimal" at `verify.py:38`). Both copies are modelled by one set of members,
so the same record gives the same leaf and root on either side by
construction.

Modules, in dependency order:

| module | models |
|---|---|
| `Wrappers` | `Option`, `Result` |
| `FeltCodec` | `str(n)`, `int(s)` on digit strings, `zfill`, `to_felt252` |
| `FieldEncoder` | the byte concatenation of `generate_hash` |
| `HashEngine` | 31-byte chunking, big-endian reading, the leaf hash |
| `MerkleBuilder` | `compute_merkle_root`: a recursive `Root` specification and the in-place loop, including the `HashList` class for a Python list |
| `Documents` | the stored dictionaries (`Metadata`, `Entry`), `int(metadata[key])`, the leaf list |
| `Ingestion` | the loops of `main` and `store_in_mongodb` over an `array` of records |
| `Verification` | `verify_data`: per-record verdicts and the root verdict |

How the program's parts are represented:
- **Poseidon.** The two Poseidon functions come from a foreign library. They
  are a parameter: `HashEngine.Poseidon(many, single)` holds arbitrary
  functions. The properties hold for every choice, with stated exceptions:
  `OrderMattersAcrossPairs` is proved for one pair hash, `h(x) == x * x`, and
  shows that order across pairs can matter (it need not: a constant `h`
  ignores it); `IngestThenVerify` and `IngestThenVerifyFieldOutputs` assume
  the leaves and the root, or the Poseidon outputs (`OutputsFitFeltWidth`),
  are below 10^77.
- **Bytes and records.** String fields are byte sequences (`FieldEncoder.Bytes`).
- **Dictionary values.** A dictionary value is absent, an integer or a text
  (`Documents.Entry`), because `hash` changes type during ingestion.
- **Mutation.** `compute_merkle_root` appends to its caller's list, so that
  list is a `HashList` object. `ComputeMerkleRoot` states both the root and
  the caller's list afterwards.

What the code does where its comments say otherwise or say nothing (the
model follows the code):
- **Decimal, not hex.** The comment at `process_metadata.py:62` calls the
  stored format hex. The code writes decimal, and so does the model.
- **Silent truncation.** A value of 78 or more digits is cut to its leading
  77 digits without an error (`FeltTruncated`). Untouched data holding such a
  leaf then fails its own verdict (`TruncatedLeafFailsVerdict`).
- **Only the first stored root is read.** The other records' `merkle_root`
  may hold anything (`OnlyFirstRootRead`).
- **Tampering stays local.** The root is built from regenerated leaves, never
  from stored hashes. Replacing a stored hash by another readable value
  changes at most that record's verdict and never the root verdict
  (`StoredHashChangesOneVerdict`). An unreadable value instead stops the run
  at that record (`FirstUnreadable`).
- **Sibling order is not committed.** A node is `h(a + b)`, so swapping two
  sibling leaves keeps the root (`SiblingSwap`). Order across pairs can still
  matter (`OrderMattersAcrossPairs`).

## Model

| member | source | states |
|---|---|---|
| FieldEncoder.TokenBytesAreDecimal | process_metadata.py:39 | the token bytes are exactly the characters of `str(token_id)`, one ASCII digit code per decimal digit |
| FieldEncoder.EncodeLayout | process_metadata.py:38-45 | the encoding is token digits, person name, birthplace, ethnicity, occupation, trait laid end to end: its length is the sum of theirs and each part sits at its offset |
| FieldEncoder.EncodeNonEmpty | process_metadata.py:38-45 | the encoding is never empty, because `str(token_id)` has a digit |
| FieldEncoder.AbsentTraitIsEmpty | process_metadata.py:44 | a `None` special trait encodes exactly like an empty one |
| FieldEncoder.NameBirthplaceBoundary | process_metadata.py:40-41 | no delimiter: moving the boundary between person name and birthplace gives the same bytes |
| FieldEncoder.Encode | process_metadata.py:38-45 | the concatenation always starts with the token digits and so is never empty; its full layout is `EncodeLayout` |
| FieldEncoder.TokenBytesSnoc | process_metadata.py:39 | for `id >= 1` and a digit `d`, the text of `10 * id + d` is the text of `id` followed by `d` |
| FieldEncoder.TokenNameBoundary | process_metadata.py:39-40 | no delimiter after the token id: for every `id >= 1` and digit `d`, token `id` with a name starting with `d` encodes like token `10 * id + d` with the rest of the name |
| HashEngine.Chunks | process_metadata.py:47 | the slices `concatenated[i:i+31]` for `i` in `range(0, len, 31)`; their shape is `ChunkShape` and their cover `ChunksCover` |
| HashEngine.BigEndian | process_metadata.py:47 | `int.from_bytes(slice, 'big')`; its bound, injectivity and leading-zero behaviour are the three `BigEndian` lemmas |
| HashEngine.ChunkValues | process_metadata.py:47 | the chunk-value list, one slice at a time; `ChunkValuesAreSlices` proves it equal to the comprehension over `Chunks` |
| HashEngine.GenerateHash | process_metadata.py:37-49 | `poseidon_hash_many` of the chunk values of the encoding; `LeafHasChunks`, `ChunkValuesBound` and `BoundaryShiftSameLeaf` state what it hashes |
| HashEngine.ChunkValuesAreSlices | process_metadata.py:47 | the list given to `poseidon_hash_many` has one value per 31-byte slice, and value `k` is the big-endian reading of slice `k` |
| HashEngine.ChunksFirst | process_metadata.py:47 | the slicing is the first (at most) 31 bytes followed by the slicing of the rest |
| HashEngine.ChunksCover | process_metadata.py:47 | the slices concatenate back to the encoded bytes |
| HashEngine.ChunkShape | process_metadata.py:47 | there are ceil(len / 31) slices; every one but the last has 31 bytes and the last has 1 to 31 |
| HashEngine.ChunksNonEmpty | process_metadata.py:47 | there is at least one slice exactly when the input is non-empty |
| HashEngine.BigEndianBound | process_metadata.py:47 | a big-endian value of `k` bytes is below 256^k |
| HashEngine.BigEndianInjective | process_metadata.py:47 | equal-length slices with equal values are equal |
| HashEngine.BigEndianLeadingZero | process_metadata.py:47 | a leading zero byte does not change the value, so slice length is not committed |
| HashEngine.ChunkValuesBound | process_metadata.py:46-47 | every value given to `poseidon_hash_many` is below 256^31 = 2^248 |
| HashEngine.LeafHasChunks | process_metadata.py:38-48 | every record hashes a non-empty list of chunk values |
| HashEngine.BoundaryShiftSameLeaf | process_metadata.py:37-49 | records that differ only in where the name ends and the birthplace begins have the same leaf hash under any Poseidon |
| MerkleBuilder.HashList.constructor | process_metadata.py:86 | a new list holds exactly the given items |
| MerkleBuilder.HashList.Append | process_metadata.py:90 | `append` adds one element at the end and changes nothing else |
| MerkleBuilder.Pad | process_metadata.py:54-55 | the padded level has even length, extends the level by at most one element and keeps its last element |
| MerkleBuilder.NextLevel | process_metadata.py:56-58 | the level above an even-length level has half as many elements |
| MerkleBuilder.NextLevelAt | process_metadata.py:57-58 | element `i` of the level above is `h(level[2i] + level[2i+1])` |
| MerkleBuilder.NextLevelFromElements | process_metadata.py:56-58 | any list with those elements is the level above |
| MerkleBuilder.Root | process_metadata.py:52-60 | a root exists exactly when the list is non-empty |
| MerkleBuilder.RoundHalves | process_metadata.py:53-59 | one round maps `n >= 2` elements to ceil(n / 2) < n, so the loop terminates |
| MerkleBuilder.RootEmpty | process_metadata.py:60 | an empty list has no root (`hashes[0]` fails) |
| MerkleBuilder.RootSingle | process_metadata.py:53 | one leaf is its own root, with no combination |
| MerkleBuilder.RootOddPadding | process_metadata.py:54-55 | on an odd list of 3 or more, appending a copy of the last element does not change the root |
| MerkleBuilder.RootPairOfEqual | process_metadata.py:53-58 | two equal leaves give `h(x + x)` |
| MerkleBuilder.RootThree | process_metadata.py:53-59 | three leaves give `h(h(a + b) + h(c + c))` |
| MerkleBuilder.RootFour | process_metadata.py:53-59 | four leaves give `h(h(a + b) + h(c + d))` |
| MerkleBuilder.SiblingSwap | process_metadata.py:58 | swapping leaves `2k` and `2k + 1` leaves the root unchanged |
| MerkleBuilder.TwoLeavesUnordered | process_metadata.py:58 | `[a, b]` and `[b, a]` have the same root |
| MerkleBuilder.OrderMattersAcrossPairs | process_metadata.py:56-58 | with a squaring pair hash, swapping the 2nd and 3rd of four leaves changes the root |
| MerkleBuilder.RootIsLeafOrPairHash | process_metadata.py:53-60 | the root of one leaf is that leaf; the root of several is an output of the pair hash |
| MerkleBuilder.RootStep | process_metadata.py:53-59 | the root of a level of two or more is the root of the padded, paired level above |
| MerkleBuilder.PairLevel | process_metadata.py:56-58 | the inner `for` loop builds a fresh list equal to the level above |
| MerkleBuilder.ComputeMerkleRoot | process_metadata.py:52-60 | returns the root of the list as passed in; the caller's list gains one copy of its last element when it has an odd length of 3 or more, and is otherwise unchanged |
| FeltCodec.Decimal | process_metadata.py:65 | `str(n)` is non-empty, all digits, and starts with '0' only for 0 |
| FeltCodec.ParseInt | verify.py:56 | `int(s)` on ASCII text succeeds exactly on non-empty digit strings of at most 4300 digits |
| FeltCodec.DecimalRoundTrip | verify.py:56 | `int(str(n)) == n` |
| FeltCodec.DecimalWidth | process_metadata.py:64-66 | `str(n)` has at most `k` digits exactly when `n < 10^k` |
| FeltCodec.LeadingZeros | verify.py:56 | leading zeros do not change the value `int` reads |
| FeltCodec.DigitsValueBound | verify.py:56 | a digit string of length `k` denotes a value below 10^k |
| FeltCodec.ZFill | process_metadata.py:66 | `zfill(width)` keeps the text and puts '0's in front of it up to `width` characters, and keeps a longer text unchanged |
| FeltCodec.ZFillFits | process_metadata.py:66 | padding to a width the text fits in adds exactly the missing zeros in front |
| FeltCodec.ToFelt252 | process_metadata.py:63-66 | the stored text is always exactly 77 digits |
| FeltCodec.FeltPadded | process_metadata.py:63-66 | below 10^77 the stored text is the decimal text left-padded with '0' |
| FeltCodec.FeltTruncated | process_metadata.py:63-66 | from 10^77 on the stored text is the leading 77 digits |
| FeltCodec.FeltRoundTrip | process_metadata.py:63-66 | `int(to_felt252(v)) == v` holds exactly when `v < 10^77` |
| FeltCodec.FeltInjective | process_metadata.py:63-66 | below 10^77 distinct values get distinct stored texts |
| Documents.ReadInt | verify.py:56 | `int(metadata[key])` succeeds exactly on an integer or a non-empty digit text of at most 4300 digits, and returns an integer unchanged |
| Documents.Leaves | process_metadata.py:86-90 | one leaf per record |
| Documents.LeavesAt | process_metadata.py:87-90 | leaf `i` is `generate_hash` of record `i`, in list order |
| Documents.LeavesSnoc | process_metadata.py:88-90 | one more iteration appends the next record's leaf |
| Documents.StoredTextReadsBack | verify.py:56 | the stored text of a value reads back as that value exactly when it is below 10^77 |
| Documents.LeavesIgnoreStoredValues | verify.py:55 | leaves depend on the record fields only, never on the stored `hash` or `merkle_root` |
| Ingestion.Ingested | process_metadata.py:77-80 | the stamped batch has one record per input record |
| Ingestion.HashRecords | process_metadata.py:86-90 | returns the leaves in row order in a fresh list, and sets each record's `hash` to its own leaf as an integer, changing nothing else |
| Ingestion.StoreInMongoDb | process_metadata.py:77-79 | every record gets the stored text of the root under `merkle_root` and the stored text of its integer `hash` under `hash`, other fields unchanged |
| Ingestion.IngestAndCommit | process_metadata.py:86-93 | the root is that of the records' leaves; an empty batch fails before anything is stored; otherwise the records become exactly the stamped batch |
| Ingestion.IngestedReadsBack | process_metadata.py:77-79 | every stamped record keeps its fields, carries the same `merkle_root` as the first, and its texts read back as its leaf and the root when those are below 10^77 |
| Ingestion.TruncatedLeafIsLost | process_metadata.py:79 | a leaf of 78 or more digits no longer reads back from its stored text |
| Verification.CheckHashes | verify.py:53-63 | the loop yields one verdict per record, or an unreadable-hash error at a valid index |
| Verification.CheckHashesReadable | verify.py:53-56 | the loop gets through exactly when every stored hash is readable; an error names the first unreadable record |
| Verification.CheckHashesVerdicts | verify.py:53-58 | verdict `i` is whether leaf `i` equals stored hash `i` |
| Verification.FirstUnreadable | verify.py:56 | the loop stops at the first record whose stored hash `int` cannot read |
| Verification.CheckHashesStep | verify.py:53-63 | one more iteration extends the verdicts by the next comparison, or stops at an unreadable hash |
| Verification.CheckStoredHashes | verify.py:53-63 | the imperative loop computes the verdicts of `CheckHashes`, and its local list holds the regenerated leaves in retrieval order |
| Verification.Verify | verify.py:45-72 | a report has one verdict per record of a non-empty collection; the empty collection, and only it, fails at `hashes[0]`; an unreadable hash is named by a valid index. `VerifyReport` gives the verdicts their meaning |
| Verification.VerifyData | verify.py:45-72 | the method computes `Verify`: per-record verdicts, then the root of the regenerated leaves against the first record's stored root, with each error case |
| Verification.VerifyEmpty | verify.py:66 | an empty collection fails at `hashes[0]` |
| Verification.VerifyReport | verify.py:53-69 | a report has one verdict per record in retrieval order, each comparing the regenerated leaf with the stored hash, and a root verdict comparing the regenerated root with record 0's stored root |
| Verification.OnlyFirstRootRead | verify.py:67 | records that agree on fields, on hashes and on record 0's root verify alike, whatever the other stored roots are |
| Verification.CheckHashesAgree | verify.py:55-56 | the loop reads only each record's fields and `hash` |
| Verification.CheckHashesOneChanged | verify.py:56-58 | changing one readable stored hash changes only that record's verdict |
| Verification.StoredHashChangesOneVerdict | verify.py:56-69 | changing record `k`'s stored hash changes at most verdict `k` and never the root verdict |
| Verification.TamperedHashDetected | verify.py:56-69 | a forged hash fails its own verdict while the root verdict stays as it was |
| Verification.CheckHashesAllPass | verify.py:53-58 | when every stored hash reads as its leaf, every verdict passes |
| Verification.IngestThenVerify | verify.py:53-69 | records stored by ingestion and read back in order pass every verdict and the root verdict, provided every leaf and the root are below 10^77 |
| Verification.IngestThenVerifyFieldOutputs | verify.py:53-69 | the same, assuming only that both Poseidon functions return values below 10^77 |
| Verification.TruncatedLeafFailsVerdict | verify.py:56-58 | on untouched ingested data, a leaf of 78 or more digits fails its own verdict |

## Left out

- MongoDB access is not modelled: `MongoClient`, `delete_many`, `insert_one` and `find`. Ingestion ends with the stamped records; verification starts from the records `find` returned, assumed to be in insertion order.
- `load_dotenv`, `os.getenv`, the `print` messages and the `main` entry points are I/O and configuration.
- The non-atomic clear-then-insert rebuild of the collection is a storage concern and is not modelled.
- `read_metadata` is not modelled. It parses an ODS sheet through a foreign library, so records start as values.
- The internals of `poseidon_hash_many` and `poseidon_hash_single` come from a foreign library. They are arbitrary function parameters, and their output range is an explicit assumption (`OutputsFitFeltWidth`).
- Python's UTF-8 `str.encode()` is not modelled. String fields are byte sequences from the start.
- FeltCodec.ParseInt: Python's `int` also accepts surrounding whitespace, a leading sign, single underscores between digits and non-ASCII decimal digits; the model rejects all of these, so a tampered store holding such text (" 5", "+5", "1_0") stops `Verify` at that record where Python would read a value and give a verdict. The 4300-digit limit is CPython's default since 3.11 (and in the security releases of earlier versions); it is configurable, and older interpreters have none.
- Documents.ReadInt: inherits both gaps of `ParseInt`; all the text ingestion writes is plain 77-digit text, which both read alike.
- FeltCodec.Decimal: CPython's `str()` also raises `ValueError` on an integer of more than 4300 digits; the model gives every natural its text. This concerns `Decimal`, `ToFelt252` and `FieldEncoder.TokenBytes`. It is unreachable with the real Poseidon, whose outputs are below 2^252, and with token ids read by `int`; only the unconstrained Poseidon parameter reaches it, in `FeltTruncated` and `TruncatedLeafFailsVerdict`.
- Negative values in `to_felt252`, for which `zfill` keeps the '-' in front, are not modelled: leaves and roots are naturals.
- Ingestion.StoreInMongoDb: requires an integer under every `hash`, which `main` guarantees before calling it; the Python code would also accept other values.
- The chunk-value list is written as a recursion that peels off one slice at a time, not as the list comprehension of `process_metadata.py:47`. `HashEngine.ChunkValuesAreSlices` proves the two equal.
