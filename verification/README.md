# Verified model of the PKI toolkit's codecs and ACME session machines

This project models the parts of the toolkit whose correctness is hardest to see from the code, and proves what they promise:

- the DER codec (`lib/asn1-der.js`): a bounded recursive parser with a scoped BER mode, and encoders that count octets and fill buffers from the end;
- the deterministic CBOR codec (`lib/cbor-det.js`): shortest heads, ascending unique map keys, shortest floats, preferred bignums;
- the bytes an alternative signature covers (`lib/alt-sig.js`): a DER tree rewritten and re-encoded;
- the ACME client's loops (`lib/acme.js`): the nonce pool and the retried, re-signed POST, status polling, the renewal scheduler, the Link header scanners;
- the octet cursors (`lib/byte-writer.js`, `lib/byte-reader.js`).

## How the model is built

Each operation that changes things step by step in the source is a method here: decoders advance cursors and tick a shared counter object, encoders write into arrays, the writer, the reader, the nonce pool and the scheduler are classes. Every such method is proved to compute a function of its inputs, or to take a step of a machine, and the theorems are about those functions and machines.

- *DER.* `DerSyntax` is the concrete tree (a constructed element remembers whether its length was indefinite), its encoder and its form rules. `DerParse` restates the branches of the decoder in order, with their errors; `DerDecoder` is the decoder with its loops, and builds the nodes of `DerNode`. `DerHeaders` and `DerBijection` prove that the two directions are inverse, `DerTheorems` what follows for values, BER mode and spans. `DerEncoder` writes headers and contents into buffers. `DerInteger`, `DerOid`, `DerBitString`, `DerTime` (over `Calendar`) and `DerSetOf` (over `Sorting`) are the leaf codecs and the SET OF builder. `DerTables`, `DerValues` and `DerTimeMeaning` say in octets and numbers what those definitions mean.
- *CBOR.* `CborSyntax`, `CborParse`, `CborDecoder` and `CborBijection` have the same roles; `CborFloat` is the value of a half, single or double and the width rule, `CborFloatWidths` and `CborLayout` what floats and octets of all kinds are in numbers; `CborBuild` and `CborBuildTheorems` are the builders and what decoding gives back from them; `CborRead` and `CborMap` the readers and the keyed lookup; `CborSpans` where the nodes lie; `Utf8` what the fatal decoder accepts and `Utf8Order` its octets.
- *Alternative signatures.* `AltSig` says on trees what is dropped and kept; `AltSigPreimage` is the code, over decoded nodes, and the octets; `AltSigLayout` is what is left out, by position and tag.
- *ACME.* `AcmeNonce` is a machine over the steps of any number of calls in flight and `AcmeSession` the object that takes those steps; `AcmePoll`, `AcmeRenewal` and `AcmeRenewalRuns` run over arbitrary lists of replies and clock readings; `AcmeLink`, `AcmeLinkParams` and `AcmeLinkValue` are the header scanners and `AcmeLinkPrint` their printer. `AcmeAnswers`, `AcmePollTables`, `AcmeRenewalSteps`, `AcmeLinkForms` and `AcmeLinkGrammar` state what one reply, status, round, parameter and piece leads to without those definitions.
- *Octets.* `Octets`, `OctetOrder`, `Radix`, `Base128`, `BigEndian` hold what the codecs share; `ByteWriter`, `ByteReader` and `ByteFields` the cursors and their round trip.

Caps (`maxBytes`, `maxDepth`, `maxItems`, string nesting, integer, OID and bignum sizes) are parameters. Where a proof needs the six-octet length cap of the DER decoder not to bind, inputs are below 2^48 octets, and CBOR inputs are below 2^64.

## What the proofs found

- The refusal of an empty Extensions list in the preimage is never reached: the algorithm extension whose absence is refused first is itself kept (`AltSig.NeverEmpty`).
- A GeneralizedTime with more than three fraction digits is read and its further digits are dropped, so the text does not come back from the instant read; it does exactly for texts of at most 19 octets (`DerTime.FractionalReadBuild`, `DerTime.LongFractionTruncated`). `20200101000000.1234Z` and `20200101000000.123Z` are both accepted, as one instant (`DerTime.LongFractionAccepted`).
- `build.array` checks that its output decodes, not that each part is one item, so parts that split or span items are regrouped; the parts come back exactly when each is one item (`CborBuildTheorems.ArrayReadsParts`, `CborBuildTheorems.ArrayRegroups`).
- The writer accepts vector lengths of one to four octets, the reader reads every width but three as two; a written vector reads back exactly for widths two and three (`ByteFields.FieldReadsBack`).
- A failed request for a nonce sets the pool back to the length it had when the request was made. That length is always zero, so nonces other responses pooled meanwhile are discarded too. In every run a nonce is lost exactly when it is the oldest of a full pool as another is harvested, or is pooled as a request for a nonce fails (`AcmeNonce.DiscardedExactly`, `AcmeNonce.ClearedExactly`), and some runs do lose one (`AcmeNonce.PooledNonceLost`).
- The scheduler ends for every certificate exactly when it has no renew callback or a budget of checks (`AcmeRenewalRuns.EndsExactly`); for one certificate also when that does not parse or has expired at the start (`AcmeRenewalRuns.BoundedExactly`). Otherwise a callback that keeps returning certificates due at once keeps it going for any number of rounds. A wait budget alone does not bound them, because rounds need no time; it ends every run in which each check takes a millisecond (`AcmeRenewalRuns.RenewalsNeedNotEnd`, `AcmeRenewalRuns.WaitBudgetEnds`). With a callback every run in which no new certificate comes back ends all the same (`AcmeRenewalRuns.SchedulerTerminates`).
- `scheduleRenewal` never passes `replaced` to the window check, so a run ends with the reason `replaced` only when the lookup or the reply itself says so (`AcmeRenewalRuns.ReplacedOnlyWhenTold`).
- The reader accepts a negative count. Its containment holds exactly for the others: a negative count moves the cursor back, and one that reaches back past the start of the buffer takes octets counted from the buffer's end, which can lie past the window (`ByteReader.FixedInside`). No caller in the repository passes one.

## Model

| member | source | states |
|---|---|---|
| `DerDecoder.Counter.Tick` | lib/asn1-der.js:221-233 | each decoded element is counted once and refused past the cap |
| `DerDecoder.ReadTag` | lib/asn1-der.js:236-258 | the tag loop reads the tag number, or gives the error, the parse function assigns to the identifier octets |
| `DerDecoder.ReadLength` | lib/asn1-der.js:293-312 | the length loop agrees with the parse function on short, long and indefinite forms and on every refusal |
| `DerDecoder.ReadHeader` | lib/asn1-der.js:234-317 | identifier, reserved-tag, form and nesting rules and length are checked in the source's order with its errors |
| `DerDecoder.DecodeKids` | lib/asn1-der.js:341-348 | the definite-length loop appends exactly the nodes of the elements that fill the content |
| `DerDecoder.DecodeUntilEnd` | lib/asn1-der.js:326-340 | the indefinite-length loop appends the nodes up to the end-of-contents pair and stops at it |
| `DerDecoder.Reassemble` | lib/asn1-der.js:367-377 | segments are joined in order, and any segment that is not an OCTET STRING is refused |
| `DerDecoder.DecodeTlv` | lib/asn1-der.js:229-383 | one element is decoded to the node of the tree parsed, with the same error, end offset and count |
| `DerDecoder.DecodeConstructed` | lib/asn1-der.js:319-383 | the same for a constructed element whose header has been read |
| `DerDecoder.Decode` | lib/asn1-der.js:212-227 | the whole decoder, with size cap and trailing-octet rule, agrees with the parse function |
| `DerHeaders.HeaderSound` | lib/asn1-der.js:234-317 | an accepted header is the one minimal encoding of the class, form, tag and length read from it |
| `DerHeaders.HeaderComplete` | lib/asn1-der.js:234-317 | every minimal header is accepted and read back as the same class, form, tag and length |
| `DerBijection.TlvSound` | lib/asn1-der.js:229-383 | an accepted element encodes to exactly the octets it was read from, is well formed and within depth, item and nesting caps |
| `DerBijection.TlvComplete` | lib/asn1-der.js:229-383 | the encoding of any well-formed tree within the caps is accepted, anywhere in a buffer, as that tree |
| `DerBijection.AcceptsExactly` | lib/asn1-der.js:212-383 | decode accepts an input as a tree if and only if the tree is well formed, within the caps and encodes to the input |
| `DerBijection.AcceptedInputs` | lib/asn1-der.js:212-227 | the accepted inputs are exactly the encodings of well-formed trees within the caps |
| `DerBijection.PrefixFree` | lib/asn1-der.js:229-383 | one encoding is a prefix of another only if the trees are equal |
| `DerBijection.UniqueSplit` | lib/asn1-der.js:319-348 | a content splits into element encodings in one way only |
| `DerTheorems.DecodeOfEncode` | lib/asn1-der.js:22-27 | strict decoding of the encoding of a value gives that value |
| `DerTheorems.EncodeOfDecode` | lib/asn1-der.js:22-27 | re-encoding what strict decoding returns gives the input, octet for octet |
| `DerTheorems.OneEncodingPerValue` | lib/asn1-der.js:22-27 | no value has two accepted encodings |
| `DerTheorems.AcceptedPrefixFree` | lib/asn1-der.js:212-227 | no accepted input is a proper prefix of another |
| `DerTheorems.BerExtendsStrict` | lib/asn1-der.js:283-302 | BER mode accepts what strict mode accepts, with the same nodes up to the BER mark |
| `DerTheorems.OctetStringContent` | lib/asn1-der.js:367-378 | an OCTET STRING of any nesting and mix of length forms becomes one primitive content, its leaves in order |
| `DerTheorems.BerOctetStringRead` | lib/asn1-der.js:323-378 | every such encoding within the caps is accepted in BER mode with that content |
| `DerTheorems.ReadOctetStringImplicit` | lib/asn1-der.js:476-494 | the context-tagged reader returns the content or the joined segments, and each error in its own case only |
| `DerTheorems.ImplicitOctetStringContent` | lib/asn1-der.js:379-381 | under an IMPLICIT tag the children pass every check of that reader and join to the leaves |
| `DerTheorems.TwoOctetsEach` | lib/asn1-der.js:229-235 | every element takes at least two octets of its own |
| `DerTheorems.DecodedSize` | lib/asn1-der.js:212-235 | decoded elements are at most half the octets and at most the item cap, and nesting is at most the depth cap |
| `DerTheorems.DecodedSpans` | lib/asn1-der.js:314-365 | in strict mode children tile their parent's content, every node's octets are those of its span, and headers and primitive contents add up to the input |
| `DerTables.TwoOctetsExactly` | lib/asn1-der.js:92-156 | of the inputs [b, 0] strict decoding accepts those whose first octet is in a list written out: the primitive and the constructed types of X.680, each in its own form, and every low tag of the other classes; BER mode adds 0x24 |
| `DerTables.HighTagsExactly` | lib/asn1-der.js:236-277 | of the inputs [b, t, 0] with a high tag number t those are accepted with t from 31, and among the universal types the primitive ones up to 36 |
| `DerTables.IdentifierOctets` | lib/asn1-der.js:822-877 | the identifier of every class, form and tag number below 2^28, octet by octet |
| `DerTables.LengthOctets` | lib/asn1-der.js:769-789 | a length below 128 is its own octet, the next ones stand behind 0x81 and 0x82, and 0x80 is the indefinite one |
| `DerTables.LongerLength` | lib/asn1-der.js:769-789 | each further octet of a length adds one to the count and stands behind the others |
| `DerTables.NestedSequences` | lib/asn1-der.js:221-233 | d nested SEQUENCEs are accepted if and only if d is within the depth cap, d + 1 within the item cap and the octets within the size cap |
| `DerTables.NestedStrings` | lib/asn1-der.js:283-291 | in BER mode d nested constructed OCTET STRINGs must also be within the cap on string nesting |
| `DerTables.IndefiniteString` | lib/asn1-der.js:323-378 | 24 80 04 01 x 00 00 is an OCTET STRING of indefinite length if and only if the caps admit two elements, one inside the other |
| `DerEncoder.EncodeLength` | lib/asn1-der.js:769-789 | the length octets written are the minimal ones, and lengths of more than 126 octets are refused |
| `DerEncoder.EncodeHighTag` | lib/asn1-der.js:864-876 | the high-tag-number octets written are the base-128 numeral of the tag with its continuation bits |
| `DerEncoder.EncodeIdentifier` | lib/asn1-der.js:822-877 | bad class arguments, oversized and reserved tags are refused in order, and otherwise the identifier is the minimal one |
| `DerEncoder.EncodeTlv` | lib/asn1-der.js:910-914 | header and unchanged content, or the header's error |
| `DerEncoder.CopyParts` | lib/asn1-der.js:806-820 | parts land one after another behind what the buffer already holds |
| `DerEncoder.EncodeConstructed` | lib/asn1-der.js:806-820 | one allocation holds the header of the total length and every part in order |
| `DerSetOf.SetOf` | lib/asn1-der.js:1181-1184 | setOf sorts its members by octets and writes them in one SET |
| `DerSetOf.OrdersAgree` | lib/asn1-der.js:1181-1184 | on encodings plain bytewise order is the zero-padded order of section 11.6 of X.690 |
| `DerSetOf.SetOfIsCanonical` | lib/asn1-der.js:1181-1184 | for well-formed members the result is a well-formed SET of those members in the standard's order |
| `DerSetOf.SetOfIgnoresOrder` | lib/asn1-der.js:1181-1184 | every order of the members gives the same octets or the same refusal |
| `Sorting.SortedCopyCorrect` | lib/asn1-der.js:1181-1184 | the sorted copy is ascending and has the same elements |
| `Sorting.SortedCopyCanonical` | lib/cbor-det.js:691 | where keys tell elements apart, sorting gives the same list for every order of them |
| `DerInteger.IntToDer` | lib/asn1-der.js:967-996 | the two loops write the shortest two's-complement content of either sign |
| `DerInteger.PositiveToDer` | lib/asn1-der.js:967-996 | the positive branch, with its padding octet |
| `DerInteger.NegativeToDer` | lib/asn1-der.js:967-996 | the negative branch: octets counted against the halves, the complement written from the end |
| `DerInteger.SignedOfBytes` | lib/asn1-der.js:967-996 | what is written is minimal and has the integer's value |
| `DerInteger.BytesOfSigned` | lib/asn1-der.js:408-423 | a minimal content is the one written for its value |
| `DerInteger.ReadsExactly` | lib/asn1-der.js:408-423 | the reader accepts a content as an integer if and only if intToDer writes it and it is within the cap |
| `DerInteger.WritesShortest` | lib/asn1-der.js:967-996 | no content of the same integer is shorter |
| `DerValues.SignedGrows` | lib/asn1-der.js:408-423 | an octet is a number from -128 to 127, and an octet more multiplies by 256 and adds it, whatever the sign |
| `DerValues.KnownIntegers` | lib/asn1-der.js:967-996 | the contents of 0, 127, 128, 256, -1, -128, -129 and -32768 |
| `DerOid.DecodeOidContent` | lib/asn1-der.js:548-598 | the scan returns the arcs of the sub-identifiers, with the first one unpacked, or the source's error |
| `DerOid.WriteSubid` | lib/asn1-der.js:998-1027 | one sub-identifier is written in its shortest base-128 form or refused by its cap |
| `DerOid.EncodeOidContent` | lib/asn1-der.js:998-1027 | the first two arcs packed as 40*a+b, every sub-identifier in shortest form, or the refusal |
| `DerOid.OidRoundTrip` | lib/asn1-der.js:548-598 | encoding arcs gives a content if and only if decoding that content gives those arcs |
| `DerValues.SubidOctets` | lib/asn1-der.js:998-1027 | the octets of every sub-identifier below 2^28, seven bits to each |
| `DerValues.LongerSubid` | lib/asn1-der.js:998-1027 | seven bits more are one octet more behind the others |
| `DerValues.EncodesExactly` | lib/asn1-der.js:998-1027 | an identifier is written if and only if it begins 0 or 1 and then at most 39, or 2, and the caps hold: first 40 a + b, then the other sub-identifiers |
| `DerValues.KnownIdentifier` | lib/asn1-der.js:998-1027 | the six octets of 1.2.840.113549 |
| `DerBitString.NamedBitString` | lib/asn1-der.js:1127-1139 | exactly the named bits are set, with no trailing zero bits, and positions that are not 31-bit naturals are refused |
| `DerBitString.BitStringExactly` | lib/asn1-der.js:443-455 | reading and writing BIT STRING contents are inverse, on exactly the strings whose unused bits are zero |
| `DerBitString.NamedBitsUnique` | lib/asn1-der.js:1127-1139 | two named-bit contents are equal if and only if they name the same bits |
| `DerValues.BitsCounted` | lib/asn1-der.js:443-455 | bits are counted from the most significant one, and the unused ones are the lowest |
| `DerValues.KnownBits` | lib/asn1-der.js:1127-1139 | the bits 5 and 6 are named by 01 06 |
| `Calendar.FieldsOfInstant` | lib/asn1-der.js:756-765 | the fields of the instant of an existing date and time are that date and time |
| `Calendar.InstantOfFields` | lib/asn1-der.js:1050-1090 | every instant has existing fields and is their instant |
| `Calendar.MonthStartLaw` | lib/asn1-der.js:756-765 | the days of a year before each month, in closed form, for every year |
| `DerTime.ReadDigits` | lib/asn1-der.js:689-698 | a run of decimal digits is read as its number, or refused |
| `DerTime.ScanTimeFields` | lib/asn1-der.js:700-727 | the scan agrees with the field-by-field reading, fraction digits counted and the first three kept |
| `DerTime.FractionString` | lib/asn1-der.js:1062-1070 | milliseconds are written without trailing zeros, and none for zero |
| `DerTime.CheckedExactly` | lib/asn1-der.js:756-765 | the component check passes exactly for dates and times that exist |
| `DerTimeMeaning.CheckMeaning` | lib/asn1-der.js:756-765 | the check passes for the days of the Gregorian calendar, months and leap years written out, and gives their milliseconds from 1970 |
| `DerTimeMeaning.UtcTimeMeaning` | lib/asn1-der.js:729-766 | what the reader makes of every text as a UTCTime: twelve digits and Z, the century by 50, and the instant or the refusal |
| `DerTimeMeaning.GeneralizedTimeMeaning` | lib/asn1-der.js:729-766 | the same for GeneralizedTime: fourteen digits and Z |
| `DerTimeMeaning.FractionalTimeMeaning` | lib/asn1-der.js:700-766 | the same with the fractional option: a point and digits that do not end in zero, the first three of them milliseconds |
| `DerTimeMeaning.UtcTimeRange` | lib/asn1-der.js:1050-1090 | the builders refuse exactly the instants outside 1950 to 2049, and outside the years 0 to 9999 |
| `DerTime.UtcTimeExactly` | lib/asn1-der.js:729-766 | a UTCTime is read as an instant if and only if it is the text built from that whole-second instant |
| `DerTime.GeneralizedTimeExactly` | lib/asn1-der.js:729-766 | the same for GeneralizedTime without fractions |
| `DerTime.GeneralizedTimeAccepted` | lib/asn1-der.js:729-766 | with fractions allowed, the accepted texts are exactly those that name a real instant without a trailing fraction zero |
| `DerTime.FractionalBuildRead` | lib/asn1-der.js:1050-1070 | building a fractional GeneralizedTime and reading it gives the same millisecond |
| `DerTime.FractionalReadBuild` | lib/asn1-der.js:712-727 | reading then building gives the same octets exactly for fractions of at most three digits |
| `DerTime.LongFractionTruncated` | lib/asn1-der.js:712-727 | a longer fraction is read as the instant of its whole seconds and the milliseconds its first three digits name, and that instant has another text |
| `DerTime.LongFractionAccepted` | lib/asn1-der.js:712-727 | a concrete text with four fraction digits is accepted, as the same instant as the text with three |
| `AltSig.NeverEmpty` | lib/alt-sig.js:236-266 | the refusal of an empty Extensions list cannot be reached |
| `AltSig.PreTbsExactly` | lib/alt-sig.js:236-288 | two toBeSigned trees of one kind have the same reduced tree if and only if they agree on all other components and extensions |
| `AltSigLayout.CertificateLayout` | lib/alt-sig.js:236-288 | a certificate with an optional [0] version, serial number, signature field, anything next and extensions under [3] is reduced to the same without the signature field and the extension 2.5.29.74, tags and identifier octets written out |
| `AltSigLayout.CrlLayout` | lib/alt-sig.js:236-288 | the same for a CRL: an optional INTEGER version, the signature field, anything next, extensions under [0] |
| `AltSigLayout.NotStated` | lib/alt-sig.js:236-266 | a tree is refused for want of an algorithm extension if and only if none carries 2.5.29.73 |
| `AltSigPreimage.ReadExtOid` | lib/alt-sig.js:168-173 | the OID of an extension node, none where the reader would fail |
| `AltSigPreimage.FindBlock` | lib/alt-sig.js:156-166 | the backward scan finds the last extension wrapper |
| `AltSigPreimage.FindExt` | lib/alt-sig.js:184-187 | the scan finds an extension exactly when one carries the OID |
| `AltSigPreimage.KeepExts` | lib/alt-sig.js:260-266 | the octets of all extensions but altSignatureValue, in order |
| `AltSigPreimage.KeepFields` | lib/alt-sig.js:254-259 | the octets of all components but the signature field and the block, in order |
| `AltSigPreimage.Rebuild` | lib/alt-sig.js:267-287 | only the enclosing headers are recomputed: the result encodes the reduced tree |
| `AltSigPreimage.Preimage` | lib/alt-sig.js:236-288 | the bytes returned are the encoding of the reduced tree, or the refusal |
| `AltSigPreimage.PreTbsWellFormed` | lib/alt-sig.js:236-288 | those bytes are valid DER |
| `AltSigPreimage.PreimageCoversExactly` | lib/alt-sig.js:189-218 | equal preimages if and only if equal but for the signature field, altSignatureValue and what follows the toBeSigned |
| `AltSigPreimage.RefusalIgnoresSignatures` | lib/alt-sig.js:236-266 | whether a preimage exists does not depend on the parts left out |
| `CborDecoder.ReadHead` | lib/cbor-det.js:101-137 | initial octet, argument and minimality are checked in the source's order with its errors |
| `CborDecoder.DecodeItems` | lib/cbor-det.js:148-156 | the array loop appends the nodes of exactly the declared count of items |
| `CborDecoder.DecodePairs` | lib/cbor-det.js:157-172 | the map loop compares each key with the one before it and refuses unsorted and duplicate keys |
| `CborDecoder.CheckMajor7` | lib/cbor-det.js:176-201 | simple values, the one NaN and the shortest-float rule |
| `CborDecoder.DecodeItem` | lib/cbor-det.js:95-215 | one item is decoded to the node of the item parsed, its offsets included, with the same error, end offset and count |
| `CborDecoder.DecodeContent` | lib/cbor-det.js:139-215 | the same for an item whose head has been read |
| `CborDecoder.Decode` | lib/cbor-det.js:246-259 | the whole decoder agrees with the parse function |
| `CborSpans.DecodedSpans` | lib/cbor-det.js:202-215 | every decoded node's octets and content are those of its span, and its parts follow one another from the start of its content to its end |
| `CborBijection.RawHeadSound` | lib/cbor-det.js:101-137 | an accepted head is the shortest one of its argument |
| `CborBijection.ItemSound` | lib/cbor-det.js:95-215 | an accepted item encodes to exactly the octets it was read from and obeys the profile and the caps |
| `CborBijection.ItemComplete` | lib/cbor-det.js:95-215 | the encoding of any item that obeys the profile and the caps is accepted as that item |
| `CborBijection.AcceptsExactly` | lib/cbor-det.js:246-259 | decode accepts an input as an item if and only if the item obeys the deterministic profile and the caps and encodes to the input |
| `CborBijection.EncodeOfDecode` | lib/cbor-det.js:246-259 | re-encoding an accepted item gives its octets |
| `CborBijection.PrefixFree` | lib/cbor-det.js:95-215 | one encoding is a prefix of another only if the items are equal |
| `CborLayout.EncodedAsLaid` | lib/cbor-det.js:95-215 | at every level of every item of the profile the octets are those of a layout written out: three bits of major type, the argument in its shortest width, octet by octet, and what follows |
| `CborLayout.OneOctetExactly` | lib/cbor-det.js:101-215 | which single octets are accepted: integers from -24 to 23, the four empty containers and strings, and the simple values up to 23 |
| `CborLayout.TwoOctetSimple` | lib/cbor-det.js:179-183 | of the simple values in two octets those from 32 on are accepted |
| `CborLayout.NestedExactly` | lib/cbor-det.js:95-100 | d arrays of one item, or tags, around null are accepted if and only if d is within the depth cap and d + 1 within the item and size caps |
| `CborFloat.ValueInjective` | lib/cbor-det.js:80-84 | in one width two non-NaN floats of equal value have equal bits |
| `CborFloat.OneFloatForm` | lib/cbor-det.js:186-199 | two accepted floats of one value are the same float, NaN included |
| `CborFloat.RoundsBackExactly` | lib/cbor-det.js:86-93 | rounding to a narrower format gives a value back if and only if some float of that format has the value |
| `CborFloat.NearestIsNearest` | lib/cbor-det.js:86-93 | the float rounded to is the nearest, the even one of two as near |
| `CborFloat.OneNaN` | lib/cbor-det.js:187-190 | the canonical half-width NaN is accepted and no other NaN of any width is |
| `CborFloat.EveryDoubleHasAForm` | lib/cbor-det.js:186-199 | every double but a NaN is accepted in some width with the same value |
| `CborFloatWidths.HalfIsSingle` | lib/cbor-det.js:80-84 | every normal half has the value of the single with exponent e + 112 and mantissa m * 2^13 |
| `CborFloatWidths.SingleIsDouble` | lib/cbor-det.js:80-84 | every normal single has the value of the double with exponent e + 896 and mantissa m * 2^29 |
| `CborFloatWidths.NormalDouble` | lib/cbor-det.js:80-84 | a normal double is its 53-bit significand times 2^(e-1), in units of the least double |
| `CborFloatWidths.HalfSubnormal` | lib/cbor-det.js:80-84 | subnormal halves count up from 2^-24 |
| `CborFloatWidths.SingleSubnormal` | lib/cbor-det.js:80-84 | subnormal singles count up from 2^-149 |
| `CborFloatWidths.DoubleSubnormal` | lib/cbor-det.js:80-84 | subnormal doubles count up from 2^-1074 |
| `CborFloatWidths.HalfSpecial` | lib/cbor-det.js:80-84 | a half with all exponent bits set is an infinity or no number |
| `CborFloatWidths.SingleSpecial` | lib/cbor-det.js:80-84 | the same for singles |
| `CborFloatWidths.DoubleSpecial` | lib/cbor-det.js:80-84 | the same for doubles |
| `CborFloatWidths.OnePointZero` | lib/cbor-det.js:80-84 | 1.0 is 0x3c00, 0x3f800000 and 0x3ff0000000000000 |
| `CborFloatWidths.HalfHolds` | lib/cbor-det.js:186-199 | a single in the range of the normal halves is refused if and only if the last 13 bits of its mantissa are zero |
| `CborFloatWidths.BeyondHalf` | lib/cbor-det.js:186-199 | every finite single from 65536 on is accepted |
| `CborFloatWidths.GreatestHalf` | lib/cbor-det.js:186-199 | the single 65504.0 is refused and the single 65536.0 is accepted |
| `Utf8.Utf8Exactly` | lib/cbor-det.js:72-78 | a string decodes to a text if and only if it is the encoding of that text |
| `Utf8Order.BitGroups` | lib/cbor-det.js:72-78 | the octets of every scalar value, six bits to each trailing octet, the lowest last |
| `Utf8Order.OneOfEachLength` | lib/cbor-det.js:72-78 | the octets of one character of each length |
| `Utf8Order.OrderKept` | lib/cbor-det.js:72-78 | two encodings compare by octets exactly as their texts do by scalar values |
| `OctetOrder.LessExactly` | lib/cbor-det.js:166-170 | one string is below another if and only if at the first place where they part it ends or has the lower octet |
| `BigEndian.WriteBigEndian` | lib/cbor-det.js:669-671 | a big-endian write fills the buffer's tail with the fixed-width numeral and nothing else |
| `BigEndian.ReadBigEndian` | lib/cbor-det.js:121-126 | a big-endian read gives the number of those octets |
| `OctetOrder.WidthGrows` | lib/cbor-det.js:669-671 | in a fixed width the lowest eight bits stand last, behind those of the rest |
| `CborBuild.Head` | lib/cbor-det.js:662-672 | the head written is the shortest one, and arguments below zero or past 64 bits are refused |
| `CborBuild.RepeatsKey` | lib/cbor-det.js:692 | the loop finds equal neighbours exactly when there are some |
| `CborBuild.JoinEntries` | lib/cbor-det.js:693-695 | head, then keys and values in turn |
| `CborBuild.BuildMap` | lib/cbor-det.js:684-696 | sort, duplicate test, join and final strict decode |
| `CborBuildTheorems.ChecksItem` | lib/cbor-det.js:631-634 | the final decode passes an item's octets exactly when the item is within the decoder's limits |
| `CborBuildTheorems.ArrayOfItems` | lib/cbor-det.js:679-683 | for item parts build.array gives their array exactly when it is within the limits, and decoding gives the items back |
| `CborBuildTheorems.ArrayReadsParts` | lib/cbor-det.js:679-683 | whatever is accepted decodes to as many items, and those are the parts if and only if each part is one item |
| `CborBuildTheorems.ArrayRegroups` | lib/cbor-det.js:679-683 | a concrete list of parts that is accepted and regrouped |
| `CborBuildTheorems.TagOfItem` | lib/cbor-det.js:697 | for one item build.tag gives it under its tag exactly when within the limits |
| `CborBuildTheorems.TagReadsInner` | lib/cbor-det.js:697 | nothing but one item is accepted, and decoding gives it back |
| `CborBuildTheorems.RepeatsExactly` | lib/cbor-det.js:691-692 | neighbours are compared after sorting, and that finds a repeated key if and only if there is one |
| `CborBuildTheorems.MapOfPairs` | lib/cbor-det.js:684-696 | for pairs of items the only refusals are a repeated key and the limits, and decoding gives the same pairs in ascending key order |
| `CborBuildTheorems.MapIgnoresOrder` | lib/cbor-det.js:684-696 | every order of the pairs gives the same octets or the same refusal |
| `CborBuildTheorems.IntBuilt` | lib/cbor-det.js:674-676 | exactly the integers from -2^64 to 2^64-1 are built, and each decodes to its own item |
| `CborBuildTheorems.ByteStringBuilt` | lib/cbor-det.js:677 | a byte string is built exactly within the size cap and decodes to its content |
| `CborBuildTheorems.TextStringBuilt` | lib/cbor-det.js:678 | a text is built exactly when it has no unpaired surrogate and fits, and decodes to that text |
| `CborRead.OneIntForm` | lib/cbor-det.js:327-331 | one item reads as a given integer, the one build.int gives |
| `CborRead.OneNumberForm` | lib/cbor-det.js:562-572 | each non-negative integer is read from exactly one item, by read.uint below 2^64 and read.biguint from there to the cap |
| `CborRead.BiguintBuilt` | lib/cbor-det.js:701-709 | build.biguint gives the one item of every integer from 2^64 up to the cap and of no other |
| `CborLayout.LeastBignum` | lib/cbor-det.js:701-709 | 2^64 is tag 2 around nine octets, C2 49 01 and eight zeros |
| `CborLayout.IntegerExamples` | lib/cbor-det.js:662-676 | 0, 23, 24 and 1000 as in Appendix A of RFC 8949 |
| `CborLayout.WideExamples` | lib/cbor-det.js:662-676 | 1000000 and 1000000000000, in four octets and eight |
| `CborLayout.NegativeExamples` | lib/cbor-det.js:662-676 | -1, -100 and -1000 |
| `CborMap.MapGet` | lib/cbor-det.js:437-457 | the scan returns the first pair with the key, an error on a node that is not a map |
| `CborMap.KeyNamesItem` | lib/cbor-det.js:437-457 | keys equal as integers or texts are the same item |
| `CborMap.KeysAscendApart` | lib/cbor-det.js:166-170 | comparing neighbours orders all keys, near or far |
| `CborMap.AtMostOneMatch` | lib/cbor-det.js:420-423 | at most one pair of a decoded map has a given key |
| `CborMap.MapGetIsLookup` | lib/cbor-det.js:437-457 | the lookup is that of a finite map, null exactly when the key is absent |
| `ByteWriter.ByteWriter.Uint` | lib/byte-writer.js:66-77 | an integer is written in its width, or refused with the writer unchanged |
| `ByteWriter.ByteWriter.U64` | lib/byte-writer.js:78-86 | the same for 64 bits |
| `ByteWriter.ByteWriter.Push` | lib/byte-writer.js:62-90 | the buffer itself is kept, so what is written is what it holds when the writer is built |
| `ByteWriter.ByteWriter.Vector` | lib/byte-writer.js:91-110 | length and a copy of the body are written exactly when bounds and width admit them, and nothing otherwise |
| `ByteWriter.ByteWriter.Build` | lib/byte-writer.js:111-112 | everything written, in order, of the length kept |
| `ByteReader.ByteReader.Uint` | lib/byte-reader.js:28-41 | on any window, the value, the refusal, the range error or the undefined of the source; from inside the windows only octets inside this one and every ancestor's, and a short read moves nothing |
| `ByteReader.ByteReader.Fixed` | lib/byte-reader.js:42-45 | on any window and count what subarray gives; from inside the windows the cursor stays in them exactly when the count is not negative, and the octets are then the next ones |
| `ByteReader.FixedInside` | lib/byte-reader.js:28-45 | which octets a count takes, and exactly when they and the cursor stay in the windows |
| `ByteReader.ByteReader.Vector` | lib/byte-reader.js:46-52 | the same for a length and its body, with the source's bounds; from inside the windows it always stays there |
| `ByteReader.ByteReader.SubReader` | lib/byte-reader.js:53-56 | the new reader's window lies inside this one's and every ancestor's exactly when the length is not negative, and this reader goes on after it |
| `ByteFields.FieldReadsBack` | lib/byte-reader.js:28-58 | a written field reads back if and only if its length width is two or three |
| `ByteFields.FieldsReadBack` | lib/byte-writer.js:62-112 | every list of such fields reads back as its values and the reader stops where the writer stopped |
| `ByteFields.WriteThenRead` | lib/byte-writer.js:62-112 | the same through the two classes themselves, with nothing left to read |
| `AcmeSession.ChooseResignKey` | lib/acme.js:1993-2001 | the nested scan picks the first listed key whose alg is advertised |
| `AcmeSession.Session.HarvestNonce` | lib/acme.js:2073-2079 | shifting and pushing is the harvest step |
| `AcmeSession.Session.TakeNonce` | lib/acme.js:2141-2143 | a pooled nonce at once, else a request, is the take step |
| `AcmeSession.Session.NonceFetched` | lib/acme.js:2144-2148 | the answer to a nonce request is the machine's step, pool cleared on an error |
| `AcmeSession.Session.SignRequest` | lib/acme.js:2155-2158 | signing with the nonce held is the sign step |
| `AcmeSession.Session.ReplyArrived` | lib/acme.js:2159-2174 | retry, signing again, answer or error is the reply step |
| `AcmeNonce.StepSafe` | lib/acme.js:2073-2188 | every step keeps conservation, the pool bound, nonce uniqueness and the bounds of every call |
| `AcmeNonce.NoncesConserved` | lib/acme.js:2073-2149 | in every run used, pooled, held, evicted, cleared and dropped nonces are as a multiset the ones harvested, and at most 32 are pooled |
| `AcmeNonce.NoNonceSignsTwice` | lib/acme.js:2141-2158 | in every run two different POSTs carry two different harvested nonces |
| `AcmeNonce.PostsBoundedAndSigned` | lib/acme.js:2151-2188 | a call sends at most maxNonceRetries+2 POSTs, each under the account key of the time or, after one choice, under the first listed advertised key |
| `AcmeNonce.BadNonceRetried` | lib/acme.js:2151-2165 | in every run in which a call meets only bad nonces it sends at most maxNonceRetries+1 POSTs, goes on after each bad nonce up to the maxNonceRetries-th POST and fails after the next |
| `AcmeNonce.SignedAgainOnce` | lib/acme.js:2165-2172 | in every run a refused algorithm ends a call that has signed again, may not, or finds no key; any other goes on, and in every continuation its further POSTs are signed under the key chosen |
| `AcmeAnswers.ReplySettles` | lib/acme.js:2151-2174 | in every run a reply is the answer of its call if and only if its status is below 300 and expected and it is no problem document; it leads to another POST if and only if it reports a bad nonce with retries left, or a refused algorithm to an account request that has not signed again and is offered a key kept; any other fails the call |
| `AcmeAnswers.AnswersExpected` | lib/acme.js:2172-2173 | in every reachable state an answered call expected the status of its answer |
| `AcmeAnswers.RunContinues` | lib/acme.js:2151-2174 | over every run a call keeps its signer, its expected statuses and its POSTs, and an answer or a failure is final |
| `AcmeAnswers.KeyInForce` | lib/acme.js:2440-2441 | from a change of key until the next one that key is in force, and there are none to sign again with |
| `AcmeNonce.NewestTaken` | lib/acme.js:2141-2148 | in every run the newest pooled nonce is taken first, by a call that begins and by one whose request for a nonce has been answered |
| `AcmeNonce.OldestEvicted` | lib/acme.js:2077 | in every run a full pool evicts only nonces older than all that stay |
| `AcmeNonce.DiscardedExactly` | lib/acme.js:2073-2146 | in every run the nonces lost are those evicted and those cleared, and a nonce is lost exactly when it is the oldest of a full pool at a harvest or is pooled when a request for a nonce fails |
| `AcmeNonce.ClearedExactly` | lib/acme.js:2141-2146 | a run loses nonces to failures if and only if some request for a nonce fails with nonces in the pool |
| `AcmeNonce.PooledNonceLost` | lib/acme.js:2141-2146 | a run in which a nonce issued to one request is lost to the failure of another |
| `AcmePoll.ChangeRises` | lib/acme.js:489-517 | every legal change of status moves up a rank |
| `AcmePoll.Poll` | lib/acme.js:2241-2269 | the loop over replies is the polling function |
| `AcmePoll.PollWithinBudgets` | lib/acme.js:2241-2269 | at most maxPolls rounds and maxTotalWait seconds, a terminal status on return, and an end after maxPolls replies |
| `AcmePoll.PollReturnsExactly` | lib/acme.js:2241-2269 | an object is returned after n rounds if and only if the first n statuses climb legally to a terminal one within both budgets |
| `AcmePoll.ClimbRises` | lib/acme.js:489-517 | between consecutive observed statuses the rank rises at every change |
| `AcmePollTables.LegalExactly` | lib/acme.js:489-517 | a change of status is legal if and only if it is one of eighteen written out or none |
| `AcmePollTables.TerminalExactly` | lib/acme.js:2249 | the statuses at which polling an order, and an authorization, ends |
| `AcmePollTables.WaitsThenReturns` | lib/acme.js:2241-2269 | a status that stays put for any number of polls and then changes: within the budgets a terminal status is returned after one poll more and with every sleep asked for, and a change that is not legal is refused |
| `AcmePollTables.UsualWaits` | lib/acme.js:2241-2269 | an order is so awaited from processing to valid or invalid and from pending to ready or invalid, an authorization from pending to valid, invalid or deactivated; an order that goes from pending to valid is refused |
| `AcmePollTables.ReturnedAtOnce` | lib/acme.js:2241-2269 | an order first seen ready, valid or invalid is returned at once |
| `AcmeRenewal.Scheduler.Sleep` | lib/acme.js:2561-2562 | out of checks, or asleep no longer than the wait budget leaves |
| `AcmeRenewal.Scheduler.OnDecision` | lib/acme.js:2577-2597 | what follows a decision is the machine's step |
| `AcmeRenewal.Scheduler.OnProblem` | lib/acme.js:2598-2607 | what follows an error is the machine's step, fatal ones rethrown |
| `AcmeRenewal.Scheduler.Turn` | lib/acme.js:2572-2608 | one turn of the loop is one round |
| `AcmeRenewal.Scheduler.Loop` | lib/acme.js:2572-2610 | turns until one gives a reason are the run |
| `AcmeRenewalRuns.RoundAdvances` | lib/acme.js:2572-2608 | a round that does not end the run advances the clock, unless it has used up the wait budget |
| `AcmeRenewalRuns.SchedulerTerminates` | lib/acme.js:2539-2610 | with no new certificate every run ends, within one round for each millisecond of validity and two |
| `AcmeRenewalRuns.CheckBudgetEnds` | lib/acme.js:2572-2576 | with a budget of checks every run ends within as many rounds and one, whatever the callback returns |
| `AcmeRenewalRuns.WaitBudgetEnds` | lib/acme.js:2572-2581 | with a wait budget every run ends in which each check takes a millisecond, whatever the callback returns |
| `AcmeRenewalRuns.RenewalsNeedNotEnd` | lib/acme.js:2581-2591 | in every configuration with a renew callback and no budget of checks, certificates that are always due, under any window the reply check admits that has begun, keep a run going for any number of rounds |
| `AcmeRenewalRuns.BoundedExactly` | lib/acme.js:2539-2610 | the rounds of the runs for a certificate are bounded if and only if there is no renew callback, or a budget of checks, or the certificate does not parse or has expired at the start |
| `AcmeRenewalRuns.EndsExactly` | lib/acme.js:2539-2610 | they are bounded for every certificate if and only if there is no renew callback or a budget of checks |
| `AcmeRenewalRuns.FetchReadsReply` | lib/acme.js:2455-2475 | a check that sends no fetch gives the same result for every reply, and one that sends it gives back whatever error the reply is |
| `AcmeRenewalRuns.NoLateFetch` | lib/acme.js:2455-2469 | a reply that changes the outcome of a run was fetched in its round, with the clock not past the certificate's notAfter |
| `AcmeRenewalRuns.FetchIsAnswered` | lib/acme.js:2469-2483 | every fetch of a run is answered by its reply: a fatal error there ends the run in that round |
| `AcmeRenewalRuns.DecisionsFetched` | lib/acme.js:2455-2469 | in every run no fetch is sent past notAfter and no decision is made without a fetch |
| `AcmeRenewalRuns.ReplacedOnlyWhenTold` | lib/acme.js:2598-2601 | the reason replaced comes only from a lookup or a reply that says so |
| `AcmeRenewalRuns.DrawInRange` | lib/acme.js:2520-2525 | a draw between 0 and 1 lands in the clipped window after rounding |
| `AcmeRenewalRuns.SelectionsInClip` | lib/acme.js:2508-2525 | every selected instant lies in its window clipped to notAfter, and that window ends after it starts |
| `AcmeRenewalRuns.OneInstantPerRun` | lib/acme.js:2512-2519 | two checks of a run select the same instant when between them no certificate was installed and no other window text met |
| `AcmeRenewalRuns.RetryClamped` | lib/acme.js:2526-2527 | the next check is due after 60 to 86400 seconds, the server's own number when it lies between, six hours when it gives none |
| `AcmeRenewalSteps.CheckRefused` | lib/acme.js:2461-2506 | how a check ends before its fetch: a certificate past its end at a reading of the clock, or a failed lookup |
| `AcmeRenewalSteps.FetchesExactly` | lib/acme.js:2455-2506 | a check fetches if and only if the certificate parses, no reading is past its end and the lookup succeeds |
| `AcmeRenewalSteps.RefusedReply` | lib/acme.js:2470-2472 | an error reply is passed on, and a window that does not end after it starts is refused |
| `AcmeRenewalSteps.DrawnNearest` | lib/acme.js:2520-2525 | a draw is rounded to the nearest millisecond, halves upwards; 0 gives the start of the window and 1 its end |
| `AcmeRenewalSteps.WindowMeaning` | lib/acme.js:2508-2535 | the decision on a proper window: the last instant clamped while the window text is the same, else the draw; whether it is due; and when to ask again |
| `AcmeRenewalSteps.EndsBefore` | lib/acme.js:2572-2575 | a round ends before its check by the callback or by a budget, in that order |
| `AcmeRenewalSteps.RenewsExactlyWhenDue` | lib/acme.js:2577-2597 | a renewal starts if and only if the instant has passed or is notAfter; otherwise the run sleeps exactly until the instant or the next check, whichever comes first, or what the wait budget leaves of it |
| `AcmeRenewalSteps.ProblemLeads` | lib/acme.js:2598-2607 | after an error the run ends, or sleeps exactly the backoff, which doubles, or the long-term wait, which sets it back |
| `AcmeRenewalSteps.ChecksApart` | lib/acme.js:2561-2597 | in every run without a wait budget two successive checks for one certificate lie at least the wanted sleep apart: until the instant or the next check is due, after a decision |
| `AcmeRenewalRuns.BackoffDoubles` | lib/acme.js:2603-2606 | the wait after the k-th temporary failure in a row is min(base*2^(k-1), longTerm), and after any other failure that does not end the run longTerm |
| `AcmeRenewalRuns.WithinBudgets` | lib/acme.js:2553-2576 | at most maxChecks checks and at most maxWait of sleep |
| `AcmeLinkParams.CutAt` | lib/acme.js:1764-1790 | the scan loop of both splitters cuts exactly at separators outside quotes and brackets |
| `AcmeLinkParams.SplitLinkValues` | lib/acme.js:1764-1779 | the pieces, or the refusal of an open quote or bracket |
| `AcmeLinkParams.SplitLinkParams` | lib/acme.js:1780-1811 | every part trimmed, named and valued, only the first may be empty |
| `AcmeLinkParams.ReadParam` | lib/acme.js:1796-1808 | one part around its first equals sign, or the source's refusal |
| `AcmeLinkParams.TrimOWS` | lib/acme.js:1583-1588 | blanks and tabs are taken off both ends and nothing else |
| `AcmeLinkParams.IsValidQuotedInterior` | lib/acme.js:133-146 | no bare quote, no dangling backslash, no escaped line end |
| `AcmeLinkParams.UnescapeQuotedPair` | lib/acme.js:1662-1672 | each escape is replaced by its character |
| `AcmeLinkParams.EscapeRoundTrip` | lib/acme.js:133-146 | escaping any text gives a valid interior, and unescaping it gives the text |
| `AcmeLinkForms.TokenCharExactly` | lib/acme.js:112 | token characters are the visible ASCII characters that are no delimiters of section 3.2.6 of RFC 7230 |
| `AcmeLinkForms.LowerExactly` | lib/acme.js:1797 | folding takes A to Z to the letters 32 places on and the Kelvin sign to k, and leaves the rest |
| `AcmeLinkForms.TrimExactly` | lib/acme.js:1583-1588 | trimming gives a text if and only if that has no blank at its ends and lies between blanks and tabs |
| `AcmeLinkForms.InteriorExactly` | lib/acme.js:133-146 | a quoted string is valid if and only if it is a row of plain characters and of characters behind a backslash that are no line ends, and it stands for those characters |
| `AcmeLinkForms.ValueExactly` | lib/acme.js:1801-1807 | a value is read if and only if it is written as a token or as such a quoted string |
| `AcmeLinkForms.ParamExactly` | lib/acme.js:1792-1809 | a part is read as a parameter if and only if it is a name alone, or a name in either case and a value around its first equals sign, with blanks around both |
| `AcmeLink.CutExactly` | lib/acme.js:1764-1790 | cutting gives some pieces if and only if none of them can be cut and joined they give the string |
| `AcmeLink.SplitValuesExactly` | lib/acme.js:1764-1779 | a header splits into some pieces if and only if they are balanced and joined with commas give the header |
| `AcmeLinkGrammar.BalancedExactly` | lib/acme.js:1764-1790 | the scanner leaves a piece whole if and only if a grammar of plain characters, quoted strings and bracketed targets spells it |
| `AcmeLinkGrammar.HeaderPieces` | lib/acme.js:1764-1779 | a header splits into some pieces if and only if that grammar spells each and joined with commas they give the header |
| `AcmeLinkPrint.ParamsReadBack` | lib/acme.js:1780-1811 | parameters with lower-case token names, printed with escaped quoted values, come back unchanged |
| `AcmeLinkPrint.LinksSplitBack` | lib/acme.js:1764-1779 | a header of printed links splits into those links, whatever commas they hold |
| `AcmeLinkValue.ReadMeaning` | lib/acme.js:1831-1840 | the loop takes the first rel and refuses a second anchor or one without a value |
| `AcmeLinkForms.MeaningExactly` | lib/acme.js:1831-1840 | parameters mean a relation and an anchor if and only if at most one is an anchor, it has a value, the anchor is that value and the relation that of the first rel |
| `AcmeLinkValue.ReadLinkValue` | lib/acme.js:1820-1842 | one piece trimmed, its target cut at the first closing bracket, its parameters read, with the source's refusals |
| `AcmeLinkValue.LinkValueExactly` | lib/acme.js:1820-1842 | a piece is read as a link value if and only if, trimmed, it is the target in brackets and parameters that mean that value |
| `AcmeLinkValue.HeaderReadsBack` | lib/acme.js:1764-1842 | a header of printed links reads back as their targets and what their parameters say of relation and anchor |

## Left out

- DerDecoder.Decode: the input buffer is a sequence, because nothing writes to it; views share no memory with it here. The same holds for the CBOR decoder and the reader.
- The conversions of DataView and `Math.fround` are stood for by rounding to the nearest float, ties to even.
- CborBijection.AcceptsExactly: covers inputs below 2^64 octets, more than any buffer holds.
- DerBijection.AcceptsExactly: covers inputs below 2^48 octets, so that six length octets suffice.
- AltSigPreimage.PreimageCoversExactly: assumes what the certificate and CRL parsers check, that the signature field is followed by the issuer Name and the extension block comes last.
- AltSigPreimage.Preimage: takes a decoded root whose toBeSigned has a component, as the parsers that run before it guarantee, and of fewer than 2^48 octets.
- DerTime.GeneralizedTimeExactly: the choice between UTCTime and GeneralizedTime by the node's tag is the caller's here.
- ByteReader.ByteReader.SubReader: starts, ends and counts are whole numbers; the constructor cuts the first two to 32 bits, and the exactness is stated where that changes nothing.
- AcmeNonce.StepSafe: taking a nonce is a step of its own after the reply that asks for another POST, which allows more interleavings than the event loop does.
- AcmeSession.Session.HarvestNonce: nonces carry a number that tells equal strings apart; whether a header value is usable base64url is decided outside.
- AcmeLinkValue.ReadLinkValue: which texts are URI references is a parameter.
- AcmeRenewal.Scheduler.Turn: window texts name instants, a reply whose texts do not being an error reply; milliseconds are integers, a draw is a real number, and the text of a selected instant is its instant.
- AcmePoll.Poll: the number of seconds in a Retry-After header is given, or its being malformed.
- AcmeLinkParams.SplitLinkParams: lower-casing covers the characters whose lower case is a token character, and no others can pass.
- Sorting.SortedCopyCorrect: the library sort is stood for by an insertion sort with the same comparison.
- `build.set`: sorts by encoding, which is not the tag order of section 10.3 of X.690.
- The string readers and builders of DER, CBOR time and OID wrappers: each is settled by one loop or one call.
- `identify`, the ACME field validators, Link target resolution and relation matching, order and account requests: branches over fields.
- Option checks, captured intrinsics and accessor defences, error messages.
- Cryptography, key import, compression, transport, TLS and the URL parser.
