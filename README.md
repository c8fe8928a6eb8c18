# NeuroStamp watermark codec and ownership registry, in Dafny

NeuroStamp stamps an image with its owner's public id and later checks a suspect image for that
id. It has three core parts:

- **The coefficient codec** (`src/core.py`). Stamping decomposes one channel with a one-level
  Haar wavelet transform and flattens the HL sub-band into a vector. It keeps an untouched copy
  of that vector as the owner's key, then adds `alpha` to coefficient `i + 1000` for every
  payload bit `i` that is `'1'` and still fits. Extraction decomposes the suspect channel the
  same way. It reads bit `i` as `'1'` when coefficient `i + 1000` exceeds the key's by more than
  `alpha / 2`. Colour images carry the mark in channel 2; grey images carry it whole.
- **The text codec** (`src/utils.py`). Text becomes bits through `format(ord(c), '08b')`.
  Bits become text again by cutting them into 8-character chunks and converting every full
  chunk that parses. Loading an image trims each odd dimension by one pixel.
- **The service decisions** (`main.py`). Registration refuses an existing username.
  - Stamping looks the user up and scans the registry for the first record whose perceptual
    hash is at Hamming distance below 10 from the upload's.
  - A match owned by another uid is a copyright conflict. Otherwise the image is stamped with
    `"ID:" + uid` at strength 40, the user's single key slot is overwritten, and a record is
    appended only when nothing matched.
  - Verification extracts `8 * len("ID:" + uid)` bits with the stored key, decodes them, and
    reports a match when the text equals `"ID:" + uid`.

The model has four modules:

- `Wrappers` (`wrappers.dfy`): an `Option` type.
- `Utils` (`utils.dfy`): the text codec as a specification function `Decoded` that the loop
  method `BinaryToText` is proved against. It proves round trips both ways, the one-character
  per-chunk shape and the trim arithmetic.
- `Core` (`core.dfy`) covers:
  - the in-place embedding loop, on an `array<real>`, proved against `Embedded`;
  - the extraction loop, proved against `Extracted`;
  - the colour/grey dispatch;
  - the round-trip theorems (the part of the payload that fits comes back, and a text comes back
    exactly when all its bits fit after the offset).
- `Service` (`service.dfy`): a `Store` class whose `users` and `registry` fields are the two
  tables in row order. `Register`, `Stamp` and `Verify` are its methods. `Stamp` is proved
  against the decision function `StampPlan`, and the registry scan method `Scan` against
  `FirstMatch`. `Valid` keeps usernames, uids and image hashes unique, and every record owned by
  a known uid.

The model represents the rest of the system as follows:

- The wavelet transform is two function parameters. `hl` is "decompose and flatten HL";
  `rebuild` is "reshape the modified HL vector and invert the transform".
- The Hamming distance between two hashes is a function parameter, and the perceptual hash of
  an upload is an input.
- The uid that `uuid4` would generate is an input to `Register`.
- Coefficients are mathematical reals.

## Model

| member | source | states |
|---|---|---|
| Utils.BinaryDigitsValue | src/utils.py:36 | the binary numeral `format(n, 'b')` denotes n and has no leading zero |
| Utils.Format08b | src/utils.py:36 | `format(n, '08b')` is made of binary digits and is at least eight long |
| Utils.Format08bValue | src/utils.py:36 | the padded numeral denotes n, and it is exactly eight digits iff n < 256 |
| Utils.TextToBinary | src/utils.py:35-36 | text_to_binary yields binary digits, at least eight per character |
| Utils.TextToBinaryLength | src/utils.py:35-36 | the output is exactly 8 bits per character iff every character's code point is below 256 |
| Utils.TextToBinaryAppend | src/utils.py:36 | encoding distributes over concatenation of texts |
| Utils.TextToBinaryGroup | src/utils.py:36 | for single-byte text, character k's eight bits start at offset 8k, between the bits of the characters before and after it |
| Utils.DecodeChunk | src/utils.py:42-46 | a chunk yields at most one character, and yields one iff it is 8 long and all binary digits |
| Utils.DecodeChunkInverse | src/utils.py:42-44 | a chunk that yields a character is exactly that single-byte character's `'08b'` encoding |
| Utils.BinaryToText | src/utils.py:38-47 | the chunking loop that skips short and unparsable chunks computes `Decoded(b)`; the chunks are `Utils.Chunks`, 8-character slices from offsets 0, 8, 16, … with a possibly shorter last one |
| Utils.DecodedShape | src/utils.py:38-47 | for binary input: one character per full chunk, each below 256, character k being the value of bits [8k, 8k+8) |
| Utils.PartialChunkDropped | src/utils.py:39-42 | a trailing chunk shorter than eight bits contributes nothing |
| Utils.TextRoundTrip | src/utils.py:35-47 | `binary_to_text(text_to_binary(s)) == s` for every text of single-byte characters |
| Utils.BitsRoundTrip | src/utils.py:35-47 | `text_to_binary(binary_to_text(b)) == b` for binary b whose length is a multiple of 8 |
| Utils.EvenTrim | src/utils.py:16-17 | the trimmed size is even, at most one below the original, and equal to it iff it was even |
| Utils.TrimDimensions | src/utils.py:13-22 | both trimmed dimensions are even and within one of the originals; the array is cut iff a dimension was odd |
| Core.Capacity | src/core.py:26-27 | the number of payload bits that fit is at most the payload length, fits after offset 1000, and falls short only when the vector ends |
| Core.EmbeddedSlots | src/core.py:25-30 | embedding keeps the length; slot 1000+i rises by exactly alpha iff bit i is '1'; every slot below 1000, of a '0' bit, or past the payload is unchanged; bits past the vector's end are dropped |
| Core.EmbedVector | src/core.py:25-30 | the in-place loop with its early `break` leaves the array equal to `Embedded` of its old contents |
| Core.EmbedChannel | src/core.py:13-35 | the returned key is the HL vector before any change, and the channel is rebuilt from the embedded vector |
| Core.ExtractChannel | src/core.py:37-54 | reads `Capacity` bits, fails (IndexError) iff the key is shorter than a slot read, and bit i is '1' iff the coefficient exceeds the key's by more than alpha/2; the result is the closed form `Core.Extracted` |
| Core.EmbedWatermark | src/core.py:58-85 | a colour image keeps channels 0 and 1 and has channel 2 marked with `text_to_binary(text)`; a grey image is marked whole; the key is the target's HL vector; the target channel is `Core.Target` |
| Core.ExtractWatermark | src/core.py:87-98 | extraction reads channel 2 of a colour image and a grey image whole; the target channel is `Core.Target` |
| Core.EmbedExtractRoundTrip | src/core.py:25-54 | with the untouched vector as key and an extraction strength in [0, 2*alpha), extraction returns exactly the prefix of the payload that fit |
| Core.TextWatermarkRoundTrip | src/core.py:58-98 | a non-empty single-byte text is always extracted, and decodes back to itself iff 1000 + 8*len(text) <= N |
| Core.DecodedPayloadPrefix | src/utils.py:38-47 | decoding a prefix of a text's bits returns the text iff the prefix is whole |
| Service.Tag | main.py:116 | the watermark text is `"ID:"` followed by the uid |
| Service.ByName | main.py:55 | `.first()` by username: the first row with that name, or none iff no row has it |
| Service.ByUid | main.py:105 | `.first()` by uid: the first row with that uid, or none iff no row has it |
| Service.FirstMatch | main.py:94-99 | the first record with distance < 10, all earlier ones at distance >= 10; none iff no record qualifies |
| Service.Scan | main.py:91-99 | the scan loop with its `break` returns `FirstMatch` |
| Service.RegisteredHashMatches | main.py:94-99 | a registered hash at distance < 10 from itself is always matched by the scan |
| Service.OwnerName | main.py:105-106 | the conflict names the owner's username, or "Unknown" when no user has that uid |
| Service.StampPlan | main.py:77-127 | unknown user iff no such name; conflict iff the first match belongs to another uid, naming its owner; append iff no record is within the threshold; with the append, the hash is new; without it, a near record belongs to the user |
| Service.NoHashClash | main.py:125-129 | when every hash is within the threshold of itself, the unique-hash commit failure never happens |
| Service.VerifyAfterStamp | main.py:166-186 | if the suspect's HL vector is the stored key with the user's tag embedded at strength 40, verification answers a match for that user iff the whole tag fits after offset 1000 |
| Service.Store.Register | main.py:55-66 | an existing username is refused with nothing added; otherwise exactly one keyless user with the fresh uid is appended; the tables stay consistent (usernames unique) |
| Service.Store.Stamp | main.py:77-129 | every refusal is the plan's reason with both tables unchanged; otherwise the image is marked with the user's tag at 40, the user's key slot is overwritten with the new key, and the record is appended iff the plan says so |
| Service.Store.Decide | main.py:77-111 | the lookups and the scan settle the request as `StampPlan` does |
| Service.Store.Commit | main.py:119-129 | overwrites one user's key and appends at most one record, keeping usernames, uids and hashes unique |
| Service.Store.Verify | main.py:149-187 | an unknown or keyless user gets an error; otherwise the answer is a match iff the decoded text equals `"ID:" + uid`, with the owner reported only on a match; the result is the verify_image decision `Service.Verdict` |
| Service.KeyUpdateConsistent | src/database.py:35-39 | replacing one user's key keeps every uniqueness and ownership invariant |
| Service.AppendConsistent | src/database.py:58-62 | appending a record with a new hash and a known owner keeps the invariants |

## Left out

- Wavelet transform: `pywt.dwt2` and `idwt2` (src/core.py:5-9) are a foreign library with floating-point Haar scaling. They become the `hl` and `rebuild` parameters. No pixel-level round trip is claimed, because the inverse transform and the clipping and `uint8` rounding in `save_image` (src/utils.py:30) break exact recovery. `Service.VerifyAfterStamp` therefore takes the HL vector of the suspect image as a hypothesis.
- Floating point: coefficients are reals, so the comparison against `alpha * 0.5` is exact.
- Image I/O: `load_image`, `save_image` and the upload copying (main.py:82-84, 158-160, 132-136) are file I/O. Only the trim arithmetic of `load_image` is modelled, and every loaded image is taken to have the channel layout `load_image` produces.
- Database layer: the SQLAlchemy session, Fernet encryption, the JSON encoding of the key and the key file (src/database.py) are foreign calls and I/O. The key store is a plain field. `get_key_data` returning `None` on a decryption error is not modelled.
- Exceptions: the unique columns of src/database.py make a violating commit raise. The model returns `UidTaken` or `HashTaken` with both tables unchanged. An `IndexError` from a short key in `extract_channel` becomes `ExtractFailed`.
- Service.Store.Stamp: it decides the unique-hash refusal before embedding, whereas the source embeds and then fails at commit. Embedding has no lasting effect, so the outcome is the same.
- Service.Store.Register: it takes the fresh uid, the first 12 characters of `uuid4` (main.py:60), as an input.
- The `/attack` route (main.py:300-353), the `/db-viewer` page (main.py:190-297), the home page and the `print` debug output are randomness, image filters and HTML with no decision logic.
- Missing functions: `compute_dhash` and `calculate_hamming_distance` are imported at main.py:16-17 but defined nowhere in src/utils.py. The hash is an input and the distance a function parameter.
- The `username=` keyword: main.py:119 and main.py:170 pass it to `embed_watermark` and `extract_watermark`, which do not accept it (src/core.py:58, 87). The model follows the decision logic, not this interface mismatch.
- Core.ExtractWatermark: the `length=None` default of src/core.py:87 would fail in `range(None)`, so the model takes an explicit natural-number length.
- Utils.DecodeChunk: it parses a chunk only when all eight characters are `'0'` or `'1'`. Python's `int(c, 2)` also accepts signs, underscores and surrounding whitespace, so for such chunks the model skips where Python would produce a character.
- Concurrency: two simultaneous uploads of one image racing between the scan and the insert are not modelled. Every method runs alone.

