# ASN.1 content codecs and Firebase Storage tasks

A Dafny model of the algorithms that the app depends on, from the BoringSSL and Firebase Storage
sources under `sugar/ios/Pods`, with proofs of what they are for. `dafny verify dfyconfig.toml`
checks everything.

| file | models |
|---|---|
| `Common.dfy` | `INT_MAX`, powers and an option type |
| `Bytes.dfy` | octets, magnitudes and two's complement values, shortest forms |
| `IntegerCodec.dfy` | `i2c_ASN1_INTEGER` and `c2i_ASN1_INTEGER` |
| `IntegerSetters.dfy` | `ASN1_INTEGER_set`, `ASN1_ENUMERATED_set` and their getters, for a `long` of 1 to 8 octets |
| `BitStrings.dfy` | the BIT STRING type: length, codec, `set_bit`, `get_bit`, `check` |
| `ObjectIds.dfy` | the OBJECT IDENTIFIER validator and copy |
| `MetadataDiff.dfy` | the update patch of `StorageMetadata` |
| `Utf8.dfy` | the UTF-8 reader and writer of one character |
| `Transcoder.dfy` | `ASN1_mbstring_ncopy` and `ASN1_PRINTABLE_type` |
| `CharMap.dfy` | the character table of `charmap.h` |
| `StringPrinter.dfy` | `ASN1_STRING_print_ex` |
| `PrintedStrings.dfy` | the transcoder and the printer together |
| `StringTable.dfy` | the string type table, alone and shared by threads |
| `TimeSupport.dfy` | Julian day numbers, `OPENSSL_gmtime_adj` and `OPENSSL_gmtime_diff` |
| `GeneralizedTime.dfy` | the GeneralizedTime parser and printer |
| `ObserverIndex.dfy` | the observers of a `StorageObservableTask`, alone and with interleaved calls |
| `CompletionOnce.dfy` | the completion wiring of downloads and uploads |

In the C code an octet is a `byte`, an integer below 256, except in `BitStrings.dfy`, where it is a
`bv8` because that code works on bits. `x ^ 0xff` is `255 - x`, a shift by 8 is a multiplication by
256, and results cut to an octet or to 64 bits are cut explicitly. Buffers are arrays, an object's
fields are the fields of a class, and each method with a loop is proved against a function that says
what the loop is for; the lemmas are about those functions. `ASN1_STRING`, which all these types share
in C, is a class in each file with the fields that file uses. Flag words whose values are defined in
`asn1.h`, which is not part of this model, are records of bits.

Threads and queues are state machines: a locked section is one step, and what a call reads before it
takes the lock is kept as a step of its own. Where there is no lock, as in the closures of a download or
an upload, each assignment and each firing of a status is a step. A run is any sequence of enabled steps.

Some findings, each stated as an exact condition in the model:

- Decoding an INTEGER inverts encoding only for canonical magnitudes; reading and writing again drops
  one octet of non-minimal content, not all that are redundant.
- `ASN1_INTEGER_get` returns -1 for `LONG_MIN`, although the setter stores it correctly.
- The metadata patch cannot carry a null that is part of the new metadata, and sends every leaf that is
  not a text even when it did not change.
- A GeneralizedTime without a zone is accepted: the check that the source comments as a missing time
  zone only refuses a character that is not the end of the text. The model follows the code.
- A text with an offset that is not zero can pass the check and yet not be converted: it is refused
  exactly when its UTC time is outside the years 1900 to 9999. With an offset of zero, or none, every
  year from 0 on is converted.
- A second of 60, which `struct tm` allows but neither a POSIX `gmtime_r` nor `OPENSSL_gmtime_adj`
  produces, would be printed and is not accepted back.
- Text that is converted to UTF-8 when printed determines the characters exactly when they are not of
  four octets: the six-octet form drops the 32nd bit, which nothing checks. Other printed text determines
  them exactly when some escape flag is set or they are single octets to begin with: with no flag a
  backslash is left alone, and wider characters can then print like others.
- With the flag of RFC 2253 a string that is a single number sign is printed without the backslash that
  the RFC requires, and no other string of octets is printed differently from what it requires.
- `observe` with status unknown does not reach its `fatalError`, as that status has no dictionary; it
  leaves a handle with a status and no handler.
- The two maps of observers stay in agreement over a step exactly when it does not observe status unknown
  and is not a bulk removal that takes a handler it has not seen or one whose observe is not finished. A
  removal between the two writes of `observe` leaves a status on record for a handler that is gone.
- Resuming a running download is documented to have no effect; the code has no such guard and queues
  another start. The model follows the code.
- The completion is called at most once in every run exactly when the callback queue is serial or an
  upload cannot start.
- On a serial queue that has drained it has been called exactly when success or failure was fired while
  an observer of that status was in place, and with what was fired first. A caller can lose it by removing all observers, or only those
  of the status that is then fired.

## Model

| member | source | states |
|---|---|---|
| `Bytes.MinimalIsShortest` | sugar/ios/Pods/BoringSSL-GRPC/src/crypto/asn1/a_int.c:107-115 | the nine-bit rule of section 8.3.2 of X.690 holds of exactly the octets that are shortest among all with their value |
| `Bytes.MinimalIffTight` | sugar/ios/Pods/BoringSSL-GRPC/src/crypto/asn1/a_int.c:107-115 | octets break the nine-bit rule exactly when their value fits without the first octet, which can then be dropped with no change of value |
| `IntegerCodec.EncodingKeepsValue` | sugar/ios/Pods/BoringSSL-GRPC/src/crypto/asn1/a_int.c:118-186 | for every sign and magnitude, empty, with leading zeros or negative zero, the content octets read as two's complement are the signed value |
| `IntegerCodec.EncodingMinimal` | sugar/ios/Pods/BoringSSL-GRPC/src/crypto/asn1/a_int.c:85-116 | the encoding is the shortest possible exactly when the value does not fit in fewer places than the magnitude has; always so for canonical magnitudes |
| `IntegerCodec.PadRule` | sugar/ios/Pods/BoringSSL-GRPC/src/crypto/asn1/a_int.c:125-154 | the padding decision of the encoder, the 80-and-zeros case included, is exactly whether the value fits in as many octets as the magnitude |
| `IntegerCodec.NegatedOctets` | sugar/ios/Pods/BoringSSL-GRPC/src/crypto/asn1/a_int.c:96-105 | octets that add up with the magnitude to the next power of 256 are, padded when needed, the encoding of the negative value |
| `IntegerCodec.NegateFirst` | sugar/ios/Pods/BoringSSL-GRPC/src/crypto/asn1/a_int.c:176-178 | complement and increment of the octet after trailing zeros negates that suffix, with truncation to an octet |
| `IntegerCodec.NegateNext` | sugar/ios/Pods/BoringSSL-GRPC/src/crypto/asn1/a_int.c:179-181 | complement of each octet further up extends the negation of a suffix by one place |
| `IntegerCodec.NegateBackward` | sugar/ios/Pods/BoringSSL-GRPC/src/crypto/asn1/a_int.c:165-182 | the in-place backward loops leave the negation of the magnitude and touch nothing else in the buffer |
| `IntegerCodec.WriteOctets` | sugar/ios/Pods/BoringSSL-GRPC/src/crypto/asn1/a_int.c:159-182 | padding and content written in place are the reference octets |
| `IntegerCodec.I2c` | sugar/ios/Pods/BoringSSL-GRPC/src/crypto/asn1/a_int.c:118-186 | the length returned, with or without an output, is the number of octets of the reference encoding, which is what is written at the output pointer, and nothing else changes |
| `IntegerCodec.DecodingKeepsValue` | sugar/ios/Pods/BoringSSL-GRPC/src/crypto/asn1/a_int.c:190-287 | the sign and magnitude built from any content string, minimal or not, have its two's complement value |
| `IntegerCodec.SkipZeros` | sugar/ios/Pods/BoringSSL-GRPC/src/crypto/asn1/a_int.c:235-246 | the zero-skip loop that reads an octet before testing its count stays within the content and counts the trailing zeros |
| `IntegerCodec.DecodeNegativeInto` | sugar/ios/Pods/BoringSSL-GRPC/src/crypto/asn1/a_int.c:233-264 | the negative branch, FF followed by zeros included, builds the reference magnitude |
| `IntegerCodec.C2i` | sugar/ios/Pods/BoringSSL-GRPC/src/crypto/asn1/a_int.c:190-287 | lengths below zero or above INT_MAX / 2 are refused with nothing changed; otherwise the object given, or a new one, holds the reference decoding in a new buffer and the input pointer is moved by the length |
| `IntegerCodec.DecodeOfEncode` | sugar/ios/Pods/BoringSSL-GRPC/src/crypto/asn1/a_int.c:118-287 | decoding inverts encoding on exactly the canonical values |
| `IntegerCodec.ReencodingDropsOneOctet` | sugar/ios/Pods/BoringSSL-GRPC/src/crypto/asn1/a_int.c:118-287 | reading and writing again returns minimal content unchanged and any other content without its first octet |
| `IntegerCodec.ReencodingTerminates` | sugar/ios/Pods/BoringSSL-GRPC/src/crypto/asn1/a_int.c:118-287 | doing so often enough, at most once for each octet of x after the first, ends in the one minimal string with the value of x |
| `IntegerSetters.SetUint64` | sugar/ios/Pods/BoringSSL-GRPC/src/crypto/asn1/a_int.c:303-330 | the eight big-endian octets are cut down in place to the canonical magnitude of v |
| `IntegerSetters.SetInteger` | sugar/ios/Pods/BoringSSL-GRPC/src/crypto/asn1/a_int.c:289-301 | an INTEGER set from any long of 1 to 8 octets holds exactly that value in canonical form |
| `IntegerSetters.GetInteger` | sugar/ios/Pods/BoringSSL-GRPC/src/crypto/asn1/a_int.c:332-369 | the 64-bit accumulation returns the value held if the magnitude is at most eight octets and at most LONG_MAX, and -1 otherwise or for another type |
| `IntegerSetters.IntegerGetOfSet` | sugar/ios/Pods/BoringSSL-GRPC/src/crypto/asn1/a_int.c:289-369 | get returns the value set exactly when it is not LONG_MIN, whose magnitude is kept although get returns -1 |
| `IntegerSetters.SetEnumerated` | sugar/ios/Pods/BoringSSL-GRPC/src/crypto/asn1/a_enum.c:73-109 | the octets taken lowest first and copied reversed are the magnitude without leading zeros, none at all for zero |
| `IntegerSetters.GetEnumerated` | sugar/ios/Pods/BoringSSL-GRPC/src/crypto/asn1/a_enum.c:111-148 | as for INTEGER, with the ENUMERATED types |
| `IntegerSetters.EnumeratedGetOfSet` | sugar/ios/Pods/BoringSSL-GRPC/src/crypto/asn1/a_enum.c:73-148 | get returns every value set above LONG_MIN |
| `IntegerSetters.SettersAgree` | sugar/ios/Pods/BoringSSL-GRPC/src/crypto/asn1/a_enum.c:68-71 | the two setters leave the same magnitude except for zero, [0] against nothing, and always the same content octets |
| `BitStrings.HistoryLaw` | sugar/ios/Pods/BoringSSL-GRPC/src/crypto/asn1/a_bitstr.c:211-258 | after any sequence of set_bit calls every bit is the value last written to it, or the initial one |
| `BitStrings.HistoriesCanonical` | sugar/ios/Pods/BoringSSL-GRPC/src/crypto/asn1/a_bitstr.c:211-247 | from nothing, two sequences of set_bit calls leave the same octets exactly when they leave the same bits |
| `BitStrings.WriteTrims` | sugar/ios/Pods/BoringSSL-GRPC/src/crypto/asn1/a_bitstr.c:218-246 | a call leaves no zero octet at the end, unless it clears a bit past the end, which leaves the octets as they are |
| `BitStrings.TrimIsCanonical` | sugar/ios/Pods/BoringSSL-GRPC/src/crypto/asn1/a_bitstr.c:83-87 | trimmed octets are equal exactly when the sets of one-bits are |
| `BitStrings.EncodingIsCanonical` | sugar/ios/Pods/BoringSSL-GRPC/src/crypto/asn1/a_bitstr.c:74-134 | with the bits-left flag clear two strings encode alike exactly when they have the same one-bits |
| `BitStrings.LastUsedBitIsOne` | sugar/ios/Pods/BoringSSL-GRPC/src/crypto/asn1/a_bitstr.c:83-99 | with the flag clear the last used bit is one and no later bit is set (section 11.2.2 of X.690) |
| `BitStrings.EncodingLayout` | sugar/ios/Pods/BoringSSL-GRPC/src/crypto/asn1/a_bitstr.c:112-134 | the first octet counts the unused bits, the octets after it hold the bits in use, and the unused ones are zero (section 8.6 of X.690) |
| `BitStrings.EncodeOfDecode` | sugar/ios/Pods/BoringSSL-GRPC/src/crypto/asn1/a_bitstr.c:112-206 | every accepted content is written back unchanged |
| `BitStrings.DecodeOfEncode` | sugar/ios/Pods/BoringSSL-GRPC/src/crypto/asn1/a_bitstr.c:112-206 | every encoding is accepted and read back with the same bit length, the same bits below it and none above |
| `BitStrings.AcceptedIffEncoding` | sugar/ios/Pods/BoringSSL-GRPC/src/crypto/asn1/a_bitstr.c:136-177 | the contents accepted are exactly those that some string is encoded as |
| `BitStrings.LastPadding` | sugar/ios/Pods/BoringSSL-GRPC/src/crypto/asn1/a_bitstr.c:88-97 | the bit loop counts the zero bits below the lowest one-bit |
| `BitStrings.BitString.Length` | sugar/ios/Pods/BoringSSL-GRPC/src/crypto/asn1/a_bitstr.c:74-100 | the octets in use and the unused bits, explicit or recomputed, without change to the string |
| `BitStrings.BitString.NumBytes` | sugar/ios/Pods/BoringSSL-GRPC/src/crypto/asn1/a_bitstr.c:102-110 | an octet count exactly when the bit length is a multiple of eight |
| `BitStrings.BitString.I2c` | sugar/ios/Pods/BoringSSL-GRPC/src/crypto/asn1/a_bitstr.c:112-134 | the count returned and the octets written, with the unused bits masked, are the encoding; the rest of the buffer is unchanged |
| `BitStrings.C2i` | sugar/ios/Pods/BoringSSL-GRPC/src/crypto/asn1/a_bitstr.c:136-206 | accepts exactly 1 to INT_MAX octets with an unused-bit count below eight and those bits zero; refusal changes nothing |
| `BitStrings.BitString.SetBit` | sugar/ios/Pods/BoringSSL-GRPC/src/crypto/asn1/a_bitstr.c:211-247 | growth, early return, write and trimming leave the octets of the reference write, with the bits-left flag cleared |
| `BitStrings.WithBitAt` | sugar/ios/Pods/BoringSSL-GRPC/src/crypto/asn1/a_bitstr.c:216-246 | the reference write changes the one bit and no other, through growth and trimming |
| `BitStrings.BitString.GetBit` | sugar/ios/Pods/BoringSSL-GRPC/src/crypto/asn1/a_bitstr.c:249-258 | reads the bit, zero past the end |
| `BitStrings.BitString.Check` | sugar/ios/Pods/BoringSSL-GRPC/src/crypto/asn1/a_bitstr.c:266-284 | one exactly when every bit set is among the first flags_len octets of flags |
| `ObjectIds.WellFormedIffOid` | sugar/ios/Pods/BoringSSL-GRPC/src/crypto/asn1/a_object.c:182-199 | the one-pass test accepts exactly the concatenations of minimal base-128 encodings of a non-empty list of numbers (section 8.19.2 of X.690) |
| `ObjectIds.ArcsUnique` | sugar/ios/Pods/BoringSSL-GRPC/src/crypto/asn1/a_object.c:182-199 | that list is unique |
| `ObjectIds.ArcDigits` | sugar/ios/Pods/BoringSSL-GRPC/src/crypto/asn1/a_object.c:182-191 | the octets of a number in the grammar are its base-128 digits, highest first, marked in all but the last (section 8.19.2 of X.690) |
| `ObjectIds.UnreadOfRead` | sugar/ios/Pods/BoringSSL-GRPC/src/crypto/asn1/a_object.c:192-199 | octets without a bad start are recovered from the numbers read off them |
| `ObjectIds.ReadOfEncode` | sugar/ios/Pods/BoringSSL-GRPC/src/crypto/asn1/a_object.c:182-199 | reading the octets of a list gives the list |
| `ObjectIds.Scan` | sugar/ios/Pods/BoringSSL-GRPC/src/crypto/asn1/a_object.c:192-199 | the loop finds a leading 80 octet if there is one |
| `ObjectIds.C2i` | sugar/ios/Pods/BoringSSL-GRPC/src/crypto/asn1/a_object.c:174-248 | accepts exactly grammatical content of 1 to INT_MAX octets; says which object is returned, when its buffer is reused, and that refusal changes nothing |
| `MetadataDiff.Remove` | sugar/ios/Pods/FirebaseStorage/FirebaseStorage/Sources/StorageMetadata.swift:247-272 | the loop over the old keys, in whatever order, computes the reference patch |
| `MetadataDiff.PatchInverts` | sugar/ios/Pods/FirebaseStorage/FirebaseStorage/Sources/StorageMetadata.swift:247-272 | applied to the old tree as a merge patch (section 2 of RFC 7396) the patch gives the new tree exactly when the new tree holds no null |
| `MetadataDiff.DiffEntries` | sugar/ios/Pods/FirebaseStorage/FirebaseStorage/Sources/StorageMetadata.swift:247-272 | key by key, inside subtrees too: an entry is left out exactly when it did not change and has only text leaves; a key that is gone is sent as null, a tree in both as its own patch, anything else as the new value |
| `MetadataDiff.NoEntryToSpare` | sugar/ios/Pods/FirebaseStorage/FirebaseStorage/Sources/StorageMetadata.swift:256-268 | without any one entry of texts, or any one deletion, the patch gives a different tree |
| `MetadataDiff.EmptyDiff` | sugar/ios/Pods/FirebaseStorage/FirebaseStorage/Sources/StorageMetadata.swift:256-268 | the patch is empty exactly when the trees are equal and have only text leaves |
| `MetadataDiff.MergeOntoNothing` | sugar/ios/Pods/FirebaseStorage/FirebaseStorage/Sources/StorageMetadata.swift:251-255 | a subtree sent whole for a key that had none arrives unchanged exactly when it holds no null |
| `Utf8.GetOfPut` | sugar/ios/Pods/BoringSSL-GRPC/src/crypto/asn1/a_utf8.c:75-236 | reading what was written for any 31-bit character gives it back, whatever follows |
| `Utf8.PutOfGet` | sugar/ios/Pods/BoringSSL-GRPC/src/crypto/asn1/a_utf8.c:75-236 | an accepted character is always the octets that would be written for it: no overlong form is read |
| `Utf8.Layout` | sugar/ios/Pods/BoringSSL-GRPC/src/crypto/asn1/a_utf8.c:168-236 | the lead and continuation octets of every character of up to 31 bits (section 3 of RFC 3629, and the longer forms before it) |
| `Transcoder.ChooseIsMinimal` | sugar/ios/Pods/BoringSSL-GRPC/src/crypto/asn1/a_mbstr.c:153-217 | the type chosen is the first in the order Printable, IA5, T61, BMP, Universal, UTF8 that is permitted and holds every character; none exactly when there is no such type |
| `Transcoder.PlanIs` | sugar/ios/Pods/BoringSSL-GRPC/src/crypto/asn1/a_mbstr.c:88-217 | a type is decided on exactly when it is the first of Printable, IA5, T61, BMP, Universal, UTF8 that is permitted and holds every character, the text can be decoded, has no byte-order mark and is not shorter or longer than the limits above zero; no mask means a directory string |
| `Transcoder.HoldsIffEncodable` | sugar/ios/Pods/BoringSSL-GRPC/src/crypto/asn1/a_mbstr.c:153-173 | the tests that narrow the mask are exactly what the encodings can write, but for the two ASCII types |
| `Transcoder.OneIsBigEndian` | sugar/ios/Pods/BoringSSL-GRPC/src/crypto/asn1/a_mbstr.c:102-128 | a character of one, two or four octets is their big-endian number, if that is a code point |
| `Transcoder.DecodedAreValid` | sugar/ios/Pods/BoringSSL-GRPC/src/crypto/asn1/a_mbstr.c:102-128 | every character decoded is at most 10FFFF, no surrogate and no noncharacter |
| `Transcoder.ContentKeepsMeaning` | sugar/ios/Pods/BoringSSL-GRPC/src/crypto/asn1/a_mbstr.c:189-277 | read in the type chosen the output is the code points of the input, and where it is re-encoded it has the estimated size |
| `Transcoder.DecodeOfEncode` | sugar/ios/Pods/BoringSSL-GRPC/src/crypto/asn1/a_mbstr.c:102-128 | each of the four encodings reads back as the code points written |
| `Transcoder.FirstPass` | sugar/ios/Pods/BoringSSL-GRPC/src/crypto/asn1/a_mbstr.c:131-173 | the pass that narrows the mask refuses only undecodable text, a byte-order mark or text no permitted type holds, and otherwise leaves the narrowed mask and both counts |
| `Transcoder.SecondPass` | sugar/ios/Pods/BoringSSL-GRPC/src/crypto/asn1/a_mbstr.c:249-262 | after the first pass neither decoding nor encoding can fail |
| `Transcoder.Write` | sugar/ios/Pods/BoringSSL-GRPC/src/crypto/asn1/a_mbstr.c:219-277 | same-encoding copy or re-encoding into the object given or a new one; the one failure is INT_MAX octets or more |
| `Transcoder.Copy` | sugar/ios/Pods/BoringSSL-GRPC/src/crypto/asn1/a_mbstr.c:88-284 | the type returned, when the call fails, and what the output holds, on every input |
| `Transcoder.MbstringNcopy` | sugar/ios/Pods/BoringSSL-GRPC/src/crypto/asn1/a_mbstr.c:88-284 | with a length or a terminating zero, success leaves an object that reads back as the code points of the input; the call fails exactly when no type can be decided on, by decoding, mark, limits and mask, or the output would be INT_MAX octets or more |
| `Transcoder.PrintableType` | sugar/ios/Pods/BoringSSL-GRPC/src/crypto/asn1/a_print.c:64-83 | T61 for text with an octet above 127, otherwise Printable or IA5 by its characters; the same type as the transcoder picks for Latin-1 text and these three |
| `StringPrinter.DoEscChar` | sugar/ios/Pods/BoringSSL-GRPC/src/crypto/asn1/a_strex.c:100-156 | the count returned with no stream is the number of octets written to one with room; quotes are asked for in the same cases |
| `StringPrinter.OctetRules` | sugar/ios/Pods/BoringSSL-GRPC/src/crypto/asn1/a_strex.c:115-155 | for every octet, flags and place: when it stands alone in quotes, gets a backslash, is written as two hex digits, is doubled or is left as it is |
| `StringPrinter.CharTypeIsTable` | sugar/ios/Pods/BoringSSL-GRPC/src/crypto/asn1/charmap.h:6-15 | the properties that the rules ask for are the bits of the table at every octet below 128 |
| `StringPrinter.FollowsRfc2253` | sugar/ios/Pods/BoringSSL-GRPC/src/crypto/asn1/a_strex.c:195-230 | with the flag of RFC 2253 alone, octets are printed as section 2.4 of the RFC requires exactly when they are not a single number sign |
| `StringPrinter.UnitsPlaced` | sugar/ios/Pods/BoringSSL-GRPC/src/crypto/asn1/a_strex.c:195-230 | at every width the last character counts as last, the first of several as first, the others as neither |
| `StringPrinter.DoBuf` | sugar/ios/Pods/BoringSSL-GRPC/src/crypto/asn1/a_strex.c:167-256 | dry and real runs return the same count for every width, conversion and flags, real runs write exactly those octets, and the reader ends on the end of the buffer or fails |
| `StringPrinter.DoHexDump` | sugar/ios/Pods/BoringSSL-GRPC/src/crypto/asn1/a_strex.c:260-277 | two octets a character, counted without a stream and written with one |
| `StringPrinter.DoDump` | sugar/ios/Pods/BoringSSL-GRPC/src/crypto/asn1/a_strex.c:285-332 | the same for a dump of the content or of the DER encoding |
| `StringPrinter.PrintBody` | sugar/ios/Pods/BoringSSL-GRPC/src/crypto/asn1/a_strex.c:380-433 | the width taken from the tag and the flags, then a dump or the two passes over the characters, returns the count of the text |
| `StringPrinter.PrintEx` | sugar/ios/Pods/BoringSSL-GRPC/src/crypto/asn1/a_strex.c:357-433 | the value returned without a stream is the value returned with one that has room, which then holds exactly that many octets more: prefix, quotes, escapes or dump |
| `StringPrinter.UnescapeOfEscape` | sugar/ios/Pods/BoringSSL-GRPC/src/crypto/asn1/a_strex.c:100-156 | with any escape flag set, printed characters of all widths read back unambiguously |
| `StringPrinter.BufferReadsBack` | sugar/ios/Pods/BoringSSL-GRPC/src/crypto/asn1/a_strex.c:195-255 | so what is printed for a buffer with any escape flag reads back as its characters, or as the octets they were converted to |
| `StringPrinter.PrintedTellsApart` | sugar/ios/Pods/BoringSSL-GRPC/src/crypto/asn1/a_strex.c:144-255 | for every width, conversion and flag octet a call can pass, buffers that print alike, quotes included, always hold the same characters exactly when, converted, they are not of four octets, or, not converted, an escape flag is set or they are single octets |
| `StringPrinter.ConvertedAlike` | sugar/ios/Pods/BoringSSL-GRPC/src/crypto/asn1/a_strex.c:203-247 | two UniversalStrings of one character that differ in it and are converted to the same text under every flag octet |
| `Utf8.TopBitLost` | sugar/ios/Pods/BoringSSL-GRPC/src/crypto/asn1/a_utf8.c:225-235 | a character of 32 bits is written like the one without the top bit, if that takes six octets |
| `StringPrinter.Ambiguous` | sugar/ios/Pods/BoringSSL-GRPC/src/crypto/asn1/a_strex.c:111-116 | two buffers of two-octet, four-octet or UTF-8 characters that print alike with no flags: a backslash, a U and four digits, and the character they stand for |
| `StringPrinter.SpellingIsFaithful` | sugar/ios/Pods/BoringSSL-GRPC/src/crypto/asn1/a_strex.c:225-247 | for characters of up to 31 bits the octets of the conversion determine them |
| `StringPrinter.EscapedIsPrintable` | sugar/ios/Pods/BoringSSL-GRPC/src/crypto/asn1/a_strex.c:118-155 | with control characters and high octets escaped only printable ASCII is written |
| `StringPrinter.HexDumpReadsBack` | sugar/ios/Pods/BoringSSL-GRPC/src/crypto/asn1/a_strex.c:262-274 | each octet of a dump can be read off its two digits |
| `PrintedStrings.Widths` | sugar/ios/Pods/BoringSSL-GRPC/src/crypto/asn1/a_strex.c:340-398 | how many octets a character has, for every tag and option, or that the string is dumped |
| `PrintedStrings.ReadAtWidth` | sugar/ios/Pods/BoringSSL-GRPC/src/crypto/asn1/a_strex.c:380-398 | data that is well formed for its string type is read as its characters at the width of its tag |
| `PrintedStrings.PrintsTheInput` | sugar/ios/Pods/BoringSSL-GRPC/src/crypto/asn1/a_strex.c:357-433 | what the transcoder writes for any input is printed as text that reads back as the characters of the input, or as their UTF-8 octets when conversion is asked for |
| `PrintedStrings.TextParts` | sugar/ios/Pods/BoringSSL-GRPC/src/crypto/asn1/a_strex.c:357-433 | the type and a colon if asked for, then a number sign and the dump, or the characters between quotes when one asks for them; UTF-8 is never converted twice |
| `PrintedStrings.PrintableIsMarked` | sugar/ios/Pods/BoringSSL-GRPC/src/crypto/asn1/a_mbstr.c:287-297 | the PrintableString characters of the transcoder are those marked in the table of the printer |
| `StringTable.Tables.Get` | sugar/ios/Pods/BoringSSL-GRPC/src/crypto/asn1/a_strnid.c:186-206 | the fixed table first, then the hash table |
| `StringTable.Tables.AddLocked` | sugar/ios/Pods/BoringSSL-GRPC/src/crypto/asn1/a_strnid.c:218-255 | the section under the write lock adds one entry or fails, and the insertion never replaces one |
| `StringTable.Tables.Add` | sugar/ios/Pods/BoringSSL-GRPC/src/crypto/asn1/a_strnid.c:208-256 | alone, an add succeeds exactly for a nid without an entry |
| `StringTable.RunsAreSerial` | sugar/ios/Pods/BoringSSL-GRPC/src/crypto/asn1/a_strnid.c:186-256 | in every run of any number of threads each call returns what it would in a serial execution, and the table is the successful adds in that order |
| `StringTable.EntriesStay` | sugar/ios/Pods/BoringSSL-GRPC/src/crypto/asn1/a_strnid.c:202-204 | entries are only added: an older table is a prefix of every newer one |
| `StringTable.FoundForever` | sugar/ios/Pods/BoringSSL-GRPC/src/crypto/asn1/a_strnid.c:202-206 | an entry once returned by a get is what every later lookup finds |
| `StringTable.OneAddSucceeds` | sugar/ios/Pods/BoringSSL-GRPC/src/crypto/asn1/a_strnid.c:211-233 | of all the adds for one nid, concurrent or not, at most one succeeds |
| `StringTable.FailedAddMeansPresent` | sugar/ios/Pods/BoringSSL-GRPC/src/crypto/asn1/a_strnid.c:211-233 | an add fails only if its nid has an entry, which stays |
| `StringTable.NoShadowing` | sugar/ios/Pods/BoringSSL-GRPC/src/crypto/asn1/a_strnid.c:186-195 | at no time are there two entries for a nid or one for a nid of the fixed table |
| `TimeSupport.JulianCountsDays` | sugar/ios/Pods/BoringSSL-GRPC/src/crypto/asn1/time_support.c:81-85 | the Julian day number of the next Gregorian date is the next number, leap years and centuries included, and 1970 starts at 2440588 |
| `TimeSupport.FromOfTo` | sugar/ios/Pods/BoringSSL-GRPC/src/crypto/asn1/time_support.c:81-100 | julian_to_date gives back every real date from year -4799 on from the number date_to_julian gives it |
| `TimeSupport.ToOfFrom` | sugar/ios/Pods/BoringSSL-GRPC/src/crypto/asn1/time_support.c:81-100 | every number from 0 on is turned into a real date that has this number |
| `TimeSupport.AdjustedMeaning` | sugar/ios/Pods/BoringSSL-GRPC/src/crypto/asn1/time_support.c:144-172 | moving a time succeeds exactly when the instant moved to is in the years 1900 to 9999, and gives the one time of a real date at that instant |
| `TimeSupport.AdjustBack` | sugar/ios/Pods/BoringSSL-GRPC/src/crypto/asn1/time_support.c:144-172 | moving a time by any days and seconds and back gives it back, if the first move succeeds |
| `TimeSupport.InstantsCountSeconds` | sugar/ios/Pods/BoringSSL-GRPC/src/crypto/asn1/time_support.c:103-142 | the instant of the next second by clock and calendar is the next instant |
| `TimeSupport.JulianAdj` | sugar/ios/Pods/BoringSSL-GRPC/src/crypto/asn1/time_support.c:103-142 | the split with its truncating division and one carry gives the day and the second of the instant moved to, and fails exactly before Julian day 0 |
| `TimeSupport.GmtimeAdj` | sugar/ios/Pods/BoringSSL-GRPC/src/crypto/asn1/time_support.c:144-172 | the fields written are the moved time; a failed move changes none of them |
| `TimeSupport.GmtimeDiff` | sugar/ios/Pods/BoringSSL-GRPC/src/crypto/asn1/time_support.c:174-206 | the days and seconds returned add up to the difference of the instants, with the same sign and less than a day of seconds |
| `TimeSupport.AdjustByDifference` | sugar/ios/Pods/BoringSSL-GRPC/src/crypto/asn1/time_support.c:144-206 | days and seconds move one time to another exactly when they add up to the difference of the two |
| `GeneralizedTime.ParserDecidesGrammar` | sugar/ios/Pods/BoringSSL-GRPC/src/crypto/asn1/a_gentm.c:67-182 | the texts accepted are exactly those of in-range stamps, and each text is of one stamp |
| `GeneralizedTime.TextOctets` | sugar/ios/Pods/BoringSSL-GRPC/src/crypto/asn1/a_gentm.c:67-182 | the texts of that grammar: two digits for century, year, month, day, hour, minute, perhaps second, a point and a fraction, Z or a signed offset |
| `GeneralizedTime.FractionIsIgnored` | sugar/ios/Pods/BoringSSL-GRPC/src/crypto/asn1/a_gentm.c:133-146 | deleting a fraction of any number of digits leaves an accepted text with the same fields and zone |
| `GeneralizedTime.TimeString.ReadFields` | sugar/ios/Pods/BoringSSL-GRPC/src/crypto/asn1/a_gentm.c:84-132 | the field loop accepts exactly in-range digit pairs, with or without seconds, and stores them; every read is within 0 to length |
| `GeneralizedTime.TimeString.SkipFraction` | sugar/ios/Pods/BoringSSL-GRPC/src/crypto/asn1/a_gentm.c:133-146 | the fraction loop ends after the digits, within the text |
| `GeneralizedTime.TimeString.ReadZone` | sugar/ios/Pods/BoringSSL-GRPC/src/crypto/asn1/a_gentm.c:148-178 | Z, a signed offset of up to 12:59, or the end of the text |
| `GeneralizedTime.TimeString.Parse` | sugar/ios/Pods/BoringSSL-GRPC/src/crypto/asn1/a_gentm.c:67-182 | succeeds exactly on accepted texts whose offset, if any, can be taken out, and leaves the fields of the time in UTC |
| `GeneralizedTime.ConvertedToUtc` | sugar/ios/Pods/BoringSSL-GRPC/src/crypto/asn1/a_gentm.c:148-181 | an offset ahead of UTC is taken off the local time and one behind is added, to the second; conversion fails exactly for an offset that is not zero and leads out of the years 1900 to 9999, and without one the fields stand as they are |
| `GeneralizedTime.TimeString.Format` | sugar/ios/Pods/BoringSSL-GRPC/src/crypto/asn1/a_gentm.c:240-261 | fails exactly for years outside 0 to 9999, and otherwise leaves the text of the time, in the old buffer when that is long enough |
| `GeneralizedTime.TimeString.Adj` | sugar/ios/Pods/BoringSSL-GRPC/src/crypto/asn1/a_gentm.c:214-261 | leaves the text of the time moved by the offsets, and fails exactly when it cannot be moved or its year cannot be printed |
| `GeneralizedTime.AdjReadsBack` | sugar/ios/Pods/BoringSSL-GRPC/src/crypto/asn1/a_gentm.c:214-261 | a time moved, printed and parsed again is at the instant it was moved to |
| `GeneralizedTime.PrintedIsParsed` | sugar/ios/Pods/BoringSSL-GRPC/src/crypto/asn1/a_gentm.c:67-182 | a printed time parses back to the same six fields, a second of 60 alone being refused |
| `GeneralizedTime.PrintedOctets` | sugar/ios/Pods/BoringSSL-GRPC/src/crypto/asn1/a_gentm.c:256-260 | fifteen octets: four digits of the year, two of each other field, and Z |
| `ObserverIndex.ObservableTask.ObserveStatus` | sugar/ios/Pods/FirebaseStorage/FirebaseStorage/Sources/StorageObservableTask.swift:39-79 | both writes of observe, and every handler of the status fired once when the task state matches |
| `ObserverIndex.ObservableTask.RemoveByHandle` | sugar/ios/Pods/FirebaseStorage/FirebaseStorage/Sources/StorageObservableTask.swift:85-92 | removes the handle from both maps |
| `ObserverIndex.ObservableTask.RemoveForStatus` | sugar/ios/Pods/FirebaseStorage/FirebaseStorage/Sources/StorageObservableTask.swift:99-108 | empties one dictionary and drops its handles from the other map |
| `ObserverIndex.ObservableTask.RemoveEvery` | sugar/ios/Pods/FirebaseStorage/FirebaseStorage/Sources/StorageObservableTask.swift:113-120 | empties both maps, the five dictionaries staying in place |
| `ObserverIndex.ObservableTask.FireHandlers` | sugar/ios/Pods/FirebaseStorage/FirebaseStorage/Sources/StorageObservableTask.swift:167-178 | queues every handler given exactly once, in some order |
| `ObserverIndex.ObserveConsistent` | sugar/ios/Pods/FirebaseStorage/FirebaseStorage/Sources/StorageObservableTask.swift:39-79 | observing keeps the two maps consistent exactly when the status is not unknown |
| `ObserverIndex.CallsOnRegistry` | sugar/ios/Pods/FirebaseStorage/FirebaseStorage/Sources/StorageObservableTask.swift:39-120 | observing adds one registration, removing by handle drops it, by status all of that status, and the last removal all there are |
| `ObserverIndex.IndexRefinesRegistry` | sugar/ios/Pods/FirebaseStorage/FirebaseStorage/Sources/StorageObservableTask.swift:39-120 | over any sequence of calls the two maps are consistent and behave as one map of registrations |
| `ObserverIndex.LiveHandlersAccounted` | sugar/ios/Pods/FirebaseStorage/FirebaseStorage/Sources/StorageObservableTask.swift:39-159 | in every interleaving of observes and removals a live handler has its status on record or its observe is in flight |
| `ObserverIndex.QuiescentHandlersRemovable` | sugar/ios/Pods/FirebaseStorage/FirebaseStorage/Sources/StorageObservableTask.swift:85-92 | so with no observe in flight every live handler can be removed by its handle |
| `ObserverIndex.AgreementIffUndisturbed` | sugar/ios/Pods/FirebaseStorage/FirebaseStorage/Sources/StorageObservableTask.swift:39-120 | a step of any thread keeps the two maps in agreement in both directions exactly when it observes no unknown status, removes no handler it has not seen and none whose observe is in flight |
| `ObserverIndex.CalmIffAgreed` | sugar/ios/Pods/FirebaseStorage/FirebaseStorage/Sources/StorageObservableTask.swift:39-120 | so over a whole run they agree after every step exactly when no step is disturbed |
| `ObserverIndex.ConsistentIffAgreeing` | sugar/ios/Pods/FirebaseStorage/FirebaseStorage/Sources/StorageObservableTask.swift:39-120 | with no observe in flight the maps are consistent exactly when they agree, and always after an undisturbed run |
| `ObserverIndex.DisturbedRun` | sugar/ios/Pods/FirebaseStorage/FirebaseStorage/Sources/StorageObservableTask.swift:74-118 | a removal between the two writes of an observe leaves a status on record for a handler that is gone |
| `CompletionOnce.CalledAtMostOnce` | sugar/ios/Pods/FirebaseStorage/FirebaseStorage/Sources/StorageReference.swift:220-338 | over all interleavings of pause, resume, cancel, progress, fetch reports, their assignments and fires, and observer removal, the completion is called at most once in every run exactly when the callback queue is serial or the task is an upload that cannot start |
| `CompletionOnce.CalledTwice` | sugar/ios/Pods/FirebaseStorage/FirebaseStorage/Sources/StorageReference.swift:241-246 | every other task has a run with a concurrent callback queue in which two cancels call it twice |
| `CompletionOnce.CalledExactlyOnce` | sugar/ios/Pods/FirebaseStorage/FirebaseStorage/Sources/StorageReference.swift:220-338 | in every run, whenever the callback queue has drained, the completion has been called once if success or failure was ever fired with an observer of that status in place, and otherwise not at all; with an error if failure was told first, otherwise with the result, or with the size error if a count was above the limit of getData when the handler of success first ran |
| `CompletionOnce.ToldIsCompleted` | sugar/ios/Pods/FirebaseStorage/FirebaseStorage/Sources/StorageReference.swift:657-677 | from any point of any run steps of the callback queue alone drain it, and then the completion has been called once if an observer was told of success or failure, with an error exactly if of failure first, and otherwise not at all |
| `CompletionOnce.EarlyRemovalDecides` | sugar/ios/Pods/FirebaseStorage/FirebaseStorage/Sources/StorageObservableTask.swift:94-120 | an observer of success or failure is told as soon as one is fired, if the caller removed neither before; none is ever told if the caller removed both before |
| `CompletionOnce.RemovedObserversLoseIt` | sugar/ios/Pods/FirebaseStorage/FirebaseStorage/Sources/StorageObservableTask.swift:113-120 | every kind of task has a run in which all observers are removed and the completion is never called |
| `CompletionOnce.RemovedSuccessLosesIt` | sugar/ios/Pods/FirebaseStorage/FirebaseStorage/Sources/StorageObservableTask.swift:94-108 | every task that can start has a run in which only the observers of success are removed, it succeeds, and the completion is never called |
| `CompletionOnce.PauseIsIdempotent` | sugar/ios/Pods/FirebaseStorage/FirebaseStorage/Sources/StorageDownloadTask.swift:41-61 | a pause, run alone, has no effect right after a pause |
| `CompletionOnce.ResumeWithoutEffect` | sugar/ios/Pods/FirebaseStorage/FirebaseStorage/Sources/StorageDownloadTask.swift:71-82 | a resume, run alone, leaves everything as it was exactly for a running upload whose resumption nobody observes, and so never for a download |

## Left out

- IntegerCodec.I2c: does not cover contents of more than INT_MAX octets, whose number overflows a C int.
- IntegerSetters.SetEnumerated: does not cover LONG_MIN, where negating the long is undefined in C.
- BitStrings.DecodeOfEncode: does not cover a string of INT_MAX octets, whose encoding has one octet more than an int counts.
- StringPrinter.PrintEx: does not model overflow of the int that counts the text, for strings whose text is longer than INT_MAX.
- Transcoder.Copy: does not say which of the error codes is raised, and after a failed output into a new object does not model that object being freed.
- GeneralizedTime.TimeString.Format: does not cover broken-down times outside the clock ranges, which the time library does not produce.
- TimeSupport.JulianAdj: does not cover a time of day outside one day, for which the single carry is not enough, nor years and offsets so large that an int or a long overflows.
- TimeSupport.GmtimeAdj: the same.
- TimeSupport.GmtimeDiff: the same.
- Allocation failure and the error queue: allocation succeeds, and an error is a failure result.
- `OPENSSL_gmtime`: it is the C library's own conversion, so the printer starts from the broken-down time.
- `cbs_get_*` and `cbb_add_*`: they are not in the repository; their code point rules are stated from section 3 of RFC 3629 and from the comment on noncharacters in `a_mbstr.c`.
- `i2d_ASN1_TYPE` and `ASN1_tag2str`: the DER octets and the tag name are parameters of the printer.
- BIO: a stream takes octets until its room is used up and then fails; one that fails and later recovers is not modelled.
- `bsearch` and the hash function: a lookup finds the first entry with the nid, so the order of the fixed table plays no part.
- `ASN1_INTEGER_cmp` and the BIGNUM conversions: their meaning rests on routines that are not in the repository.
- `ASN1_get_object` and `ASN1_put_object`: the model stays at content octets.
- `ASN1_STRING_set_by_NID`, `ASN1_STRING_to_UTF8` and the wrappers around the functions modelled: easy members.
- `dictionaryRepresentation` and `updatedMetadata`: they apply the patch function to formatted dates and numbers.
- GTMSessionFetcher, requests and snapshots: progress, resume data and the end of a fetch are reports that can come at any time once there is a fetcher.
- Other observers of a task: only those that lead to the completion are in the completion model, and removing one of them by its handle is the same there as removing those of its status.
- Downloads and uploads as objects: the completion model keeps the task as a value changed by steps, so aliasing and update in place are not captured there.
- Firing a status: reading its handlers and queueing them is one step, as they are read once.
- Runner, window, plugin and header-only files: no algorithm to state a property of.
