# ephemeral, modelled in Dafny

`ephemeral` lets one party ask another for a secret over a public channel
without a pre-shared key. The requester draws an elliptic-curve key on a
randomly chosen curve and publishes a *public request*: an identifier, the
public key and a description. The responder draws a key of its own on the
same curve and derives an AES-256 key from the ECDH secret by an XOR fold.
It encrypts the payload in output-feedback mode, with the IV in front of the
ciphertext, and answers with a *response*: its public key and the ciphertext.
The requester recovers the same AES key from its private key and the
responder's public key, and decrypts. Messages travel as text *envelopes*:
- a free prelude;
- a `----- BEGIN NAME -----` line;
- the zlib-compressed data in base64, wrapped at 64 columns;
- a `----- END NAME -----` line;
- a free postlude.

The model has one module per concern:

- `Wrappers` holds `Result` and `Option`.
- `Octets` holds bytes as `bv8` and byte-wise XOR.
- `Sequences` holds the flattening of a sequence of pieces and small facts about concatenation that the proofs cite.
- `Base64` is the standard alphabet of RFC 4648, section 4. It follows Go's
  encoder and its streaming decoder, which skips line breaks.
- `Text` models the parts of Go's `strings` package that the codec uses:
  `Split`, `TrimSpace`, `TrimPrefix` and `ToUpper`.
- `Envelope` holds `wrap`, the `Envelope` class with `MarshalText`,
  `UnmarshalText`, `DataReader` and `DataWriter`, and the `buffWriter` as the
  `BuffWriter` class.
- `Curves` holds the curve enumeration and `RandomCurve`.
- `Keys` describes the ECDH keys from the outside.
- `Cipher` holds the key derivation of `cipherFromKeys` and the OFB `encrypt`
  and `decrypt`.
- `Requests` holds `Public`, `Encode`, `Decode` and `NewRequest`.
- `Short` holds the phase detection of the one-page web flow.

Foreign code is passed in as function values. The facts the program relies
on are stated as predicates, and the lemmas that need those facts take them
as hypotheses:
- zlib, with `Zlib.Inverse`: unzip undoes zip.
- Key generation, the public half of a key and the ECDH secret, with
  `KeyOps.Valid`: keys stay on their curve, the secret is symmetric (as the
  comment at `data/private_key.go:78-82` describes), and a secret has the
  curve's size.
- The AES block function. The OFB keystream is defined on top of it,
  following section 6.4 of NIST SP 800-38A.

Randomness also becomes a parameter: the curve byte, the key seeds, the IV and
the request identifier. `None` stands for a failed read.

Some behaviour of the code is easy to miss:
- `decrypt` slices the input without a length check. Data shorter than one
  block panics; there is no decryption error. The model requires at least one
  block (see "## Left out").
- `UnmarshalText` overwrites prelude and name before the body is decoded. A
  body that fails to decode leaves them changed while data and postlude keep
  their old values, so partial success is possible. The model states exactly
  this.
- `NewRequest` returns a partly filled request together with the error. The
  model returns the error and no request (see "## Left out").
- Curve selection aborts the process (`log.Fatal`) when no random byte can be
  read. The model returns a failure that names the abort.

## Model

| member | source | states |
|---|---|---|
| Octets.XorInvolution | data/cipher.go:45-60 | XOR with the same pad twice gives the data back, which is why the OFB stream undoes itself |
| Base64.Encode | envelope/envelope.go:51-62 | the encoding has 4 characters per started 3 bytes |
| Base64.EncodeAlphabet | envelope/envelope.go:51-62 | every character of the encoding is from the alphabet or the padding character |
| Base64.RoundTrip | envelope/envelope.go:51-71 | decoding the encoding of any byte string gives that byte string |
| Base64.DecodedLength | envelope/envelope.go:64-71 | a successful decoding consumes whole quanta of four characters and yields three bytes per quantum, less at most two |
| Base64.Decode | envelope/envelope.go:64-71 | line breaks are dropped first; success needs whole quanta, and yields three bytes per quantum less at most two |
| Base64.DecodeEncode | envelope/envelope.go:64-71 | the decoder recovers the bytes from any text that becomes their encoding once line breaks are removed |
| Base64.EncodeHasNoDash | envelope/envelope.go:54 | the standard alphabet holds neither `-` nor a line break, so an encoded body cannot hold the delimiter |
| Base64.DropLineBreaksAppend | envelope/envelope.go:67 | skipping line breaks distributes over concatenation |
| Text.IndexOf | envelope/envelope.go:117 | reports the first occurrence of the separator, or that there is none |
| Text.Split | envelope/envelope.go:117 | cuts at the first occurrence of the separator and splits the rest, so there is always at least one part |
| Text.SplitJoinsBack | envelope/envelope.go:117 | joining the parts with the separator gives the text back |
| Text.SplitPartsLackSeparator | envelope/envelope.go:117 | no part holds the separator |
| Text.SplitJoin | envelope/envelope.go:117 | splitting parts joined by the separator gives the parts back, when each part but the last ends before the next separator |
| Text.TrimSpace | envelope/envelope.go:121-132 | the result neither starts nor ends with white space |
| Text.TrimSpaceCutsOnlySpace | envelope/envelope.go:121-132 | the result is a slice of the input with only white space cut on either side |
| Text.TrimSpaceSkipsLeading | envelope/envelope.go:121-132 | white space in front makes no difference to trimming |
| Text.TrimmedFront | envelope/envelope.go:121-132 | trailing white space after trimmed text is all that trimming removes |
| Text.TrimSpaceOfPadded | envelope/envelope.go:121-132 | trimming white space from around a trimmed string gives that string |
| Text.TrimPrefix | envelope/envelope.go:122 | removes the prefix exactly when the text starts with it, and otherwise leaves the text alone |
| Text.TrimPrefixOfJoin | envelope/envelope.go:122 | the prefix a text was built with is exactly what is removed |
| Text.ToUpper | envelope/envelope.go:99 | same length; every character is mapped on its own |
| Envelope.Chunks | envelope/envelope.go:73-94 | ceil(n/64) lines, none empty, all of 64 characters but the last, concatenating to the input |
| Envelope.Wrap | envelope/envelope.go:73-94 | the loop writes each 64-character chunk and then the remainder, each followed by a line feed |
| Envelope.WrappedLength | envelope/envelope.go:75-91 | the wrapped text has n + ceil(n/64) characters, and empty input gives empty output |
| Envelope.WrappedDropLineBreaks | envelope/envelope.go:73-94 | removing line breaks from the wrapped text is the same as removing them from the input |
| Envelope.JoinLinesEndsInLineFeed | envelope/envelope.go:84-91 | a non-empty wrapped body ends in a line feed |
| Envelope.WrappedDashless | envelope/envelope.go:105 | wrapping adds no dash |
| Envelope.NoDelimiterPadded | envelope/envelope.go:117 | text without the delimiter stays without it when dash-free text is put around it |
| Envelope.ArmoredIsJoin | envelope/envelope.go:96-113 | the armored text is five parts joined by `-----` |
| Envelope.SplitArmored | envelope/envelope.go:96-117 | when no field holds `-----`, splitting the armored text gives exactly those five parts |
| Envelope.ReadParts | envelope/envelope.go:117-132 | fails exactly when there are not five parts |
| Envelope.EndPartIgnored | envelope/envelope.go:117-132 | the END part is never read: replacing it leaves the result unchanged |
| Envelope.LinesReadBack | envelope/envelope.go:121-132 | a trimmed prelude and postlude survive their surrounding line feeds |
| Envelope.NameReadBack | envelope/envelope.go:122 | the BEGIN part reads back as the upper-cased name |
| Envelope.BodyReadBack | envelope/envelope.go:124 | the body part base64-decodes to the compressed bytes |
| Envelope.ArmoredRoundTrip | envelope/envelope.go:96-134 | reading armored text back gives the prelude, the upper-cased name, the wrapped body and the postlude, for fields that are trimmed and free of `-----` |
| Envelope.DecodeBody | envelope/envelope.go:124-131 | a body that is not base64 gives a decode error, and only then; every other failure is an unzip error |
| Envelope.BodyRoundTrip | envelope/envelope.go:101-130 | the armored body decodes and unzips to the original data when unzip undoes zip |
| Sequences.FlattenSnoc | envelope/envelope.go:163-170 | appending one more chunk extends the data by that chunk |
| Envelope.Envelope.constructor | envelope/envelope.go:13-18 | sets the four fields |
| Envelope.Envelope.MarshalText | envelope/envelope.go:96-114 | a zip failure is an error; otherwise the text is exactly the prelude line, the BEGIN line, the wrapped base64 body, the END line and the postlude line |
| Envelope.Envelope.UnmarshalText | envelope/envelope.go:116-134 | with other than five parts it reports the count and changes nothing; prelude and name are set first; on a decode or unzip error data and postlude keep their old values; otherwise all four fields are set |
| Envelope.Envelope.DataReader | envelope/envelope.go:159-161 | reads the envelope's current payload |
| Envelope.Envelope.DataWriter | envelope/envelope.go:172-174 | returns a new writer bound to this envelope |
| Envelope.BuffWriter.Write | envelope/envelope.go:163-170 | appends the bytes to the data, reports their count and changes no other field |
| Envelope.Transcribe | envelope/envelope_test.go:21-62 | marshalling and then unmarshalling into a fresh envelope gives back every field, with the name upper-cased, when the fields are trimmed and free of `-----` and unzip undoes zip |
| Envelope.WriteThenRead | envelope/envelope.go:159-174 | writing chunks one by one and then reading gives the old data followed by the chunks in order; the other fields do not change |
| Curves.Ordinal | data/curves.go:13-25 | the constants are numbered 0 to 3 in order |
| Curves.FromOrdinal | data/curves.go:33 | the inverse of the numbering |
| Curves.OrdinalInjective | data/curves.go:13-25 | distinct curves have distinct numbers |
| Curves.RandomCurve | data/curves.go:27-44 | a failed read aborts with no curve substituted; otherwise the result is never the invalid curve |
| Curves.Pick | data/curves.go:33 | the curve numbered by the byte modulo 3 |
| Curves.RandomCurveTotal | data/curves.go:33-42 | every byte selects the curve numbered by its value modulo 3, so the second abort is unreachable |
| Curves.Hits | data/curves.go:33 | the count of byte values below n that select a curve is at most n |
| Curves.HitsStep | data/curves.go:33 | three more byte values add one selection of each real curve and none of the invalid one |
| Curves.HitsPerThree | data/curves.go:33 | each block of three consecutive byte values selects each real curve once and the invalid curve never |
| Curves.Distribution | data/curves.go:33 | over the 256 byte values, P-256 is chosen 86 times, P-384 and P-521 85 times each, and the invalid curve never |
| Keys.SecretSize | data/private_key.go:83-85 | the shared secret of every curve is at least 32 bytes, so the key derivation loop ends |
| Cipher.NewCipher | data/cipher.go:29-33 | accepts exactly the AES key sizes 16, 24 and 32 and binds the key |
| Cipher.Repeat | data/cipher.go:22-24 | n copies have n times the length |
| Cipher.DoubledIsRepetition | data/cipher.go:22-24 | the doubling loop leaves the secret repeated 2^k times for the least k that reaches 32 bytes |
| Cipher.DerivedKey | data/cipher.go:21-27 | the key is always 32 bytes |
| Cipher.SlotXorShort | data/cipher.go:25-27 | with at most 32 bytes, slot j holds byte j, or zero past the end |
| Cipher.ExactSecretIsKey | data/cipher.go:21-27 | a 32-byte secret, the P-256 case, is the key unchanged |
| Cipher.SlotXorStep | data/cipher.go:25-27 | one more secret byte changes only the slot its position falls into |
| Cipher.DeriveKey | data/cipher.go:21-27 | the two loops compute the derived key: slot j is the XOR of every doubled-secret byte at a position congruent to j modulo 32 |
| Cipher.SharedCipher | data/cipher.go:16-34 | fails exactly when the shared secret cannot be computed; otherwise AES under the derived key |
| Cipher.CipherFromKeys | data/cipher.go:16-34 | computes the shared cipher |
| Cipher.Keystream | data/cipher.go:45-46 | the keystream has exactly the requested length |
| Cipher.Sealed | data/cipher.go:36-51 | the IV followed by the ciphertext, one block plus the data's length, with no padding |
| Cipher.Opened | data/cipher.go:53-64 | the IV is the first block; the plaintext is one block shorter than the input |
| Cipher.OpenSealed | data/cipher.go:36-64 | decrypting an encryption under the same cipher gives the data back, whatever the IV |
| Cipher.StreamXor | data/cipher.go:45-47 | the stream copy appends the data XORed byte by byte with the keystream to what the buffer holds |
| Cipher.Encrypt | data/cipher.go:36-51 | a failed IV read is an error; otherwise the IV followed by the data XORed with the keystream the IV seeds |
| Cipher.Decrypt | data/cipher.go:53-64 | the loop computes the opened plaintext |
| Requests.Public | data/private_request.go:19-25 | copies the identifier and description, and holds the public half of the key on the same curve |
| Requests.Encode | data/public_request.go:20-38 | each failure of key generation, key agreement or IV read gives no response; a response copies the request identifier, carries the public half of a fresh key on the request's curve, starts with the IV, is one block longer than the message and never equals it; its data is exactly the message sealed under the shared cipher and the IV |
| Requests.Decode | data/private_request.go:29-39 | fails exactly when key agreement fails, without decrypting; otherwise the plaintext is one block shorter than the response data |
| Requests.DecodeIgnoresId | data/private_request.go:29-39 | the response identifier does not affect decoding |
| Requests.RoundTrip | data/data_test.go:52-64 | the private request decodes any response built for its public request back to the message |
| Requests.NewRequest | data/private_request.go:42-54 | a failed curve read aborts; success exactly when the key is generated on the curve the byte selects; the identifier and description are stored verbatim |
| Short.PhaseOrdinal | server/short.go:28-33 | the phases are numbered 0 to 3, with the request phase as zero |
| Short.PhaseOrdinalInjective | server/short.go:28-33 | distinct phases have distinct numbers |
| Short.FormValue | server/short.go:36-38 | the first value submitted for a field, or the empty string |
| Short.DetectPhase | server/short.go:35-52 | a GET is the respond screen exactly when `public` is set; otherwise `public` and `data` give the respond submission first, then `private` and `data` give the receive submission; the map is absent exactly in the request phase, and it holds the fields that phase needs with their non-empty form values |
| Short.AsForm | server/short.go:36-38 | a form whose fields read back as the given values |
| Short.DetectionStable | server/short.go:35-52 | the fields handed to a screen are enough to detect the same phase again |

## Left out

- zlib compression and decompression are foreign code. They are parameters, and the round trip is the hypothesis `Zlib.Inverse`.
- AES, ECDH key generation, the public half of a key and the shared secret are foreign code. They are parameters, with their properties as hypotheses.
- Marshalling keys through x509, PKCS #8 and PKIX, and their base64 text form, are not modelled. Keys are values that know their curve.
- `Stuff` and `Open` (gob serialisation into the data) are not modelled. Their byte-level effect is the append that `Envelope.WriteThenRead` covers.
- `Reader`, `ReadFrom` and `errorReader` are I/O adapters and are not modelled.
- The write errors of `bytes.Buffer`, the base64 encoder and `wrap` cannot occur and are not modelled.
- Logging is not modelled. `log.Fatal` becomes a failure result.
- The HTTP handlers and templates of `server/short.go`, `server/server.go` and the command-line tools in `cmd/` are not part of this model.
- Text.ToUpper: only ASCII letters are mapped; the Unicode case mapping of Go's `strings.ToUpper` is not modelled.
- Text.Split: only a non-empty separator is modelled; the envelope always splits on `-----`.
- Cipher.DeriveKey: requires a non-empty secret. The source loops forever on an empty one, and ECDH secrets are at least 32 bytes.
- Cipher.Decrypt: requires at least one block of input, because the source panics on shorter data.
- Requests.Decode: requires a full block of response data whenever key agreement succeeds, for the same reason. The callers at `server/short.go:162` and `cmd/receive.go:66` pass response data read from outside, so a crafted short response makes the source panic.
- Requests.Encode: a failure returns no response rather than the zero `Response` value the source returns alongside the error.
- Requests.NewRequest: a failure returns no request rather than the partly filled request the source returns alongside the error.
- Envelope.Transcribe: the name comes back upper-cased. It equals the original only for names already in upper case, as in the source's test.
- Envelope.Envelope.DataWriter: returns the writer object; Go's `io.Writer` interface is not modelled.
- Envelope.Envelope.DataReader: returns the data itself instead of a reader over it.
- Texts are `seq<char>`, while `MarshalText` and `UnmarshalText` work on `[]byte`. Byte input that is not valid UTF-8, which `strings.Split` and `TrimSpace` accept, cannot be expressed.
- Base64.Decode: padding may close only the last quantum of the whole text. Go's streaming decoder checks this only within each chunk it reads from the underlying reader (up to 1024 characters), so text with padding at a chunk boundary followed by more quanta decodes in the source and fails in the model. Such text is never produced by the encoder.
- Short.DetectPhase: the request method and the submitted form are parameters instead of an HTTP request. A nil map is `None`.
