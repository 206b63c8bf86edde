# Models of the vendored libraries

The application in this repository is a thin layer over five vendored pieces under `Common/`: a JSON library, an XML
parser with its printer and node tree, an HTTP client, a stop protocol for its handlers, and a streaming MD5 hash. This
project models those pieces in Dafny and proves the laws they exist for.

`dafny verify dfyconfig.toml` checks everything.

## What is modelled

**JSON values** (`Jsons`, `JsonEquality`, `Doubles`, `DoubleIntegers`, `Widening`, `Decimals`, `Bytes`, `Wrappers`). A
value is a tree without the library's "discarded" marker; objects are maps whose keys are visited in `std::string`
order. Numbers keep the library's three kinds, a double being its eight bytes. `Equal` is `operator==` with its
conversions, including that of a 64-bit integer to the nearest double; `NanFree` characterises the values that equal
themselves; `JsonEquality` and `DoubleIntegers` say which values it tells apart. Exceptions are values of `Result`.

**Patches** (`JsonPointerText`, `JsonPointers`, `JsonPatches`, `JsonPatchLaws`, `JsonPatchEdits`, `JsonDiff`). JSON
Pointers are split and printed with the library's two passes of `replace_substring`; operations of RFC 6902 edit a
working copy, and what each of them does is told by what `at` finds before and after; `diff` emits a patch document. The
theorem is that applying the emitted document to the source never throws, and that the result equals the target exactly
when the target holds no NaN.

**Flattening** (`JsonFlatten`, `JsonUnflatten`, `JsonUnflattenLaws`). `unflatten` undoes `flatten` exactly on the values
that have no empty container and no object that its visiting order mistakes for an array; the second condition is
decided by the keys alone (`Misread`). What one assignment of `unflatten` does is stated for any value.

**Binary formats** (`Binary`, `Cbor`, `CborIndefinite`, `Insertions`, `MessagePack`, `BinaryNumbers`). Encoders append
to a vector, decoders advance an index through a vector with any prefix and suffix. Each is tied to a function, and the
functions invert each other. The items that the encoders never write, of indefinite length, wider than needed or of
lower precision, are given by bytes of their own.

**JSON text** (`Utf8`, `Hexadecimals`, `JsonStrings`, `JsonEscapes`, `JsonStringRoundTrip`, `JsonLexer`, `JsonDump`,
`JsonDumpLayouts`, `JsonParser`, `JsonLayouts`, `JsonBlanks`, `JsonTextRoundTrip`). The string states of the generated
lexer are written out as an automaton and proved to accept exactly the strings of RFC 7159, section 7, over the UTF-8 of
RFC 3629, section 4. `parse(dump(j))` is then determined for every value without floating-point numbers and every
layout: it is `j` up to `operator==` when the strings of `j` are well-formed UTF-8, and an exception otherwise. Escapes
are given by literal tables and by numbers written in hexadecimal; blanks at the boundaries of tokens change nothing, in
any text.

**XML text** (`XmlText`, `XmlReferences`, `XmlNewlines`). `GetStr` decodes inside its buffer with a read and a write
pointer. It is tied to `InPlace`, which reads the byte at the write pointer where the code leaves it alone; `InPlace` is
the decoding one expects exactly when no such byte is stale.

**XML documents** (`XmlDocuments`, `XmlParser`, `XmlPrinter`, `XmlRoundTrip`, `XmlLayouts`). The recursive parser hands
an end tag back to the parent; the visiting printer, in compact mode, is its inverse on every printable document. The
same tree is read from every layout of such a document.

**The node tree and its memory** (`DynArrays`, `Sequences`, `MemPools`, `Siblings`, `Pruning`, `XmlDom`). Nodes are
objects with the five links of the library. `Document.Valid` says that the sibling lists are doubly linked lists, that
the nodes form a forest, that the list of unlinked nodes holds exactly the parentless ones once each, and that the
pools' counters count. Every public operation keeps it and states the new lists of children.

**The HTTP client** (`HttpPool`, `HttpRequests`, `ChunkedReader`). Each asynchronous handler is one atomic step; the
network, the choice among idle connections and the identity of new objects are nondeterministic. The chunked reader is a
loop over a socket that delivers any nonempty piece of what is pending.

**The stop protocol** (`ScopeRunner`). Each atomic access to the counter is one step of one of any number of threads;
`compare_exchange_weak` may fail spuriously.

**MD5** (`Md5`). The compression function is a parameter. The buffered object with its split counter is proved equal to
the fold over the padded message of RFC 1321, sections 3.1 to 3.5.

Where a method and a function occur together, the method is the code and its postcondition equates it with the function;
the theorems are about the functions and therefore about the code. Methods such as `JsonDiff.PatchWithDiff`,
`Cbor.RoundTrip`, `JsonTextRoundTrip.DumpAndParse`, `XmlPrinter.PrintAndParse`, `ChunkedReader.ReceiveBody` and
`Md5.HashPieces` run the code of both directions.

## Results that differ from what is documented

- `diff` promises that patching the source with it gives the target. It holds exactly when no NaN occurs in the target:
  `JsonDiff.PatchInvertsDiff`, with a failing pair in `JsonDiff.NanIsNeverReached`.
- `unflatten` promises to restore every flattened value whose containers are not empty. An object whose first leaf in
  visiting order lies below its key `"0"` is rebuilt as an array: `JsonUnflatten.UnflattenInvertsFlatten` gives the
  exact condition, `JsonUnflatten.KeyZeroIsLost` a value.
- `GetStr` skips a `&` that starts no known reference without writing it. Behind a reference that has shrunk, the byte
  that stays there is an old one: `XmlText.InPlaceDecodes` gives the exact condition,
  `XmlText.UnknownReferenceIsClobbered` a text.
- `PrintString` flushes the last run of a string with a single write of at most `INT_MAX` bytes. A longer run is cut:
  `XmlText.DecodingInvertsPrinting` gives the exact condition under which a string is read back,
  `XmlText.LongRunIsCut` a string that is not.
- A string that is not well-formed UTF-8 is dumped as it is, and the parser then throws:
  `JsonTextRoundTrip.ParseInvertsDump`.

## Model

| member | source | states |
|---|---|---|
| Jsons.EqualNeedsNoNan | Common/json.hpp:5882-5955 | two values can only be equal when neither holds a NaN anywhere |
| Jsons.EqualReflexive | Common/json.hpp:5882-5955 | a value equals itself exactly when no NaN occurs in it |
| Jsons.CanonicalEqual | Common/json.hpp:5882-5955 | making non-negative signed numbers unsigned, at any depth, gives an equal value, NaNs apart |
| JsonEquality.EqualIsSame | Common/json.hpp:5882-5955 | values without floating-point numbers are equal exactly when they are the same, integers of both kinds taken modulo 2^64 |
| JsonEquality.EqualShapes | Common/json.hpp:5882-5955 | values that are equal have the same nesting, keys, strings, booleans and nulls, whatever their numbers |
| JsonEquality.FloatsEqual | Common/json.hpp:5882-5928 | two doubles are equal exactly when they have the same bits or are zeros, and are no NaN, told by exponent and fraction |
| DoubleIntegers.ConversionIsExact | Common/json.hpp:5929-5950 | the double of an integer of at most 53 bits has the value of that integer, read off its sign, exponent and fraction |
| DoubleIntegers.DenotesOnce | Common/json.hpp:5929-5950 | no other double has that value, zeros apart |
| DoubleIntegers.IntegerEqualsItsDouble | Common/json.hpp:5929-5950 | an integer of at most 53 bits, signed or unsigned, equals exactly the doubles of that value, on either side |
| DoubleIntegers.MixedIntegers | Common/json.hpp:5929-5950 | a signed and an unsigned integer are equal exactly when they agree modulo 2^64 |
| Widening.ConversionIsNearest | Common/json.hpp:5929-5950 | an integer of more than 53 bits becomes a double at most half a unit in the last place away, the even one of two |
| Doubles.RoundsToNearestEven | Common/json.hpp:5929-5944 | the conversion of an integer to a double rounds to the nearest significand, and to the even one of two that are equally near |
| Decimals.DecimalInjective | Common/json.hpp:12158-12164 | different array indices are printed as different tokens |
| Decimals.StoiInvertsDecimal | Common/json.hpp:11888-11925 | std::stoi reads back every printed index up to INT_MAX |
| Decimals.StoiOfPrefixed | Common/json.hpp:11888-11925 | std::stoi skips blanks, takes either sign, ignores what follows the digits and refuses what is no int |
| JsonPointerText.ReplaceSubstring | Common/json.hpp:12102-12114 | the loop terminates, and replaces all occurrences found from left to right, never touching what it has inserted |
| JsonPointerText.TwoPassesEscape | Common/json.hpp:12117-12123 | escaping in two passes, the tilde first, equals encoding every byte of the token by itself |
| JsonPointerText.TwoPassesUnescape | Common/json.hpp:12126-12132 | unescaping in two passes, "~1" first, equals decoding the escapes from left to right |
| JsonPointerText.Escape | Common/json.hpp:12117-12123 | the code of the two passes computes the encoding byte by byte |
| JsonPointerText.Unescape | Common/json.hpp:12126-12132 | the code of the two passes computes the decoding from left to right |
| JsonPointerText.UnescapeInvertsEscape | Common/json.hpp:12117-12132 | every token comes back from its escaped form, which is always well escaped |
| JsonPointerText.EscapeInvertsUnescape | Common/json.hpp:12117-12132 | every well-escaped text without a slash is the escaped form of what it denotes |
| JsonPointerText.CheckEscapes | Common/json.hpp:12064-12080 | the loop over the tildes accepts exactly the tokens in which each is followed by 0 or 1 |
| JsonPointerText.SplitPointer | Common/json.hpp:12029-12087 | the loop over the slashes yields the fields between them, unescaped, or the error of the first bad one |
| JsonPointerText.SplitInvertsToString | Common/json.hpp:11693-12132 | splitting the printed form of any list of tokens gives the list |
| JsonPointerText.ToStringInvertsSplit | Common/json.hpp:11693-12132 | the accepted texts are exactly the empty one and the well-escaped ones that start with a slash, and printing their tokens gives the text |
| JsonPointers.CheckedIndex | Common/json.hpp:11888-11925 | an index that at() accepts lies inside the array |
| JsonPointers.At | Common/json.hpp:11888-11930 | following the tokens with the loop is following them recursively, with the same error |
| JsonPointers.WithChild | Common/json.hpp:11888-11930 | after an assignment through a checked reference the child is the assigned value |
| JsonPointers.Padded | Common/json.hpp:11821-11886 | operator[] grows an array up to the index and leaves an array that is long enough as it is |
| JsonPointers.IndexToken | Common/json.hpp:11888-11925 | a printed index addresses its element when it is inside, and is out of range otherwise |
| JsonPatches.Patch | Common/json.hpp:12472-12731 | operations are read and applied in order to a working copy; the first failure is the outcome |
| JsonPatchLaws.FirstFailureWins | Common/json.hpp:12602-12731 | when the operations before it succeed and one fails, its error is the outcome whatever follows: no document is returned |
| JsonPatchLaws.TestLaw | Common/json.hpp:12698-12719 | a test of one place succeeds exactly when at(path) exists and equals the value, and then leaves the document as it is; a missing place and another value are domain errors |
| JsonPatchLaws.CopyLaw | Common/json.hpp:12688-12696 | after a copy at(path) is the old at(from), or still out of range when it was appended, and every place apart from path keeps its value; a missing from is the outcome |
| JsonPatchLaws.CopySucceeds | Common/json.hpp:12688-12696 | a copy to a place that exists, or to a new member of an existing object, succeeds |
| JsonPatchLaws.MoveIsRemoveThenAdd | Common/json.hpp:12671-12686 | a move has the outcome of removing from and then adding the old at(from) at path, with every error, in any document |
| JsonPatchLaws.MoveLaw | Common/json.hpp:12671-12686 | after a move between members of objects at(path) is the old at(from), from is out of range, and every place apart from both keeps its value |
| JsonPatchLaws.EditKeepsApart | Common/json.hpp:12472-12572 | an edit through a path changes no place apart from it |
| JsonPatchLaws.AssignedIsFound | Common/json.hpp:12472-12572 | at() finds what operator[] has assigned, unless it was appended |
| JsonPatchLaws.InsertionShifts | Common/json.hpp:12533-12560 | adding at index i of an array keeps the elements before i and moves those from i on up by one; "-" appends |
| JsonPatchLaws.RemovalShifts | Common/json.hpp:12575-12600 | removing index i keeps the elements before i and moves those behind it down by one |
| JsonPatchEdits.OperationsNeeded | Common/json.hpp:12602-12731 | an operation is accepted exactly when it is an object with one of the six names, its string and value members and well-formed pointers; anything else is an error |
| JsonPatchEdits.ReplaceLaw | Common/json.hpp:12664-12669 | a replacement succeeds exactly when at(path) exists, then finds the value there and keeps every place apart from it; a missing place is the error of at |
| JsonPatchEdits.AddLaw | Common/json.hpp:12511-12572 | adding below a parent that exists changes the parent as one insertion says, with its error, and keeps every place apart from it |
| JsonPatchEdits.AddMemberLaw | Common/json.hpp:12511-12572 | adding a member to an object finds it at its path and keeps everything apart from it, siblings included |
| JsonPatchEdits.AddElsewhere | Common/json.hpp:12511-12572 | the root is replaced, a path whose first token leads nowhere is the error of at, and a null parent becomes an object |
| JsonPatchEdits.RemoveLaw | Common/json.hpp:12575-12600 | a removal fails as at() of the parent does, or for a missing member; below a primitive it changes nothing |
| JsonPatchEdits.RemoveMemberLaw | Common/json.hpp:12575-12600 | a removed member is out of range afterwards and everything apart from it stays |
| JsonPatchEdits.NullBecomes | Common/json.hpp:11821-11886 | operator[] turns a null into an array, filled with nulls up to the index, for a number or "-", and into an object for any other token |
| JsonDiff.ApplyUnder | Common/json.hpp:12472-12731 | an operation behind a longer path does to the child what the operation itself does to the child alone |
| JsonDiff.ApplyAllUnder | Common/json.hpp:12794-12859 | the same for whole nested patches: prefixing a token confines them to that child |
| JsonDiff.DiffIsLocal | Common/json.hpp:12765-12895 | no operation of a diff removes or adds the whole value, which alone behaves differently below a prefix |
| JsonDiff.ElemsReach | Common/json.hpp:12794-12802 | diffs of the common elements, applied in order, change each element on its own and leave the others alone |
| JsonDiff.RemovalsTruncate | Common/json.hpp:12804-12819 | removing the surplus elements in reversed order leaves exactly the common prefix and never misses an index |
| JsonDiff.AdditionsAppend | Common/json.hpp:12821-12831 | the additions append the rest of the target in order |
| JsonDiff.MembersReach | Common/json.hpp:12838-12859 | operations on different keys do not disturb each other |
| JsonDiff.AdditionsInsert | Common/json.hpp:12861-12875 | exactly the keys that only the target has are added |
| JsonDiff.DiffReaches | Common/json.hpp:12765-12895 | for any two values, applying the operations succeeds and reaches the target |
| JsonDiff.DocumentUnder | Common/json.hpp:12794-12859 | extending the path prefix of a nested diff is the same as deepening its operations |
| JsonDiff.Diff | Common/json.hpp:12765-12895 | the code of diff emits the printed form of those operations |
| JsonDiff.ReadRendered | Common/json.hpp:12609-12731 | patch reads back every operation diff can print |
| JsonDiff.ApplyDocumentIsApplyAll | Common/json.hpp:12602-12731 | patching with the printed document is applying the operations |
| JsonDiff.PatchInvertsDiff | Common/json.hpp:12738-12743 | for all values whose arrays have int indices: patching the source with diff(source, target) throws nothing, and equals the target exactly when the target holds no NaN |
| JsonDiff.PatchWithDiff | Common/json.hpp:12472-12895 | the same for the code of diff followed by that of patch |
| JsonDiff.NanIsNeverReached | Common/json.hpp:12738-12743 | a source and a target for which the documented equality fails |
| JsonFlatten.Flatten | Common/json.hpp:12141-12192 | the recursive loop adds to the result one entry for every leaf |
| JsonFlatten.Unflatten | Common/json.hpp:12199-12225 | entries are assigned through get_and_create in the order of their keys; a non-object is an error |
| JsonFlatten.PathInjective | Common/json.hpp:12098-12192 | different places have different pointer texts |
| JsonUnflatten.StoredIsLeaf | Common/json.hpp:12141-12192 | every key of the flattened object is the text of the place of a leaf |
| JsonUnflatten.LeafIsStored | Common/json.hpp:12141-12192 | every leaf is stored under the text of its place |
| JsonUnflatten.ZeroOrder | Common/json.hpp:11746-11800 | which keys of an object are visited before its key "0", from the order of the escaped texts |
| JsonUnflatten.LeafBeforeIndex | Common/json.hpp:12199-12225 | before any element of an array other than the first, some leaf of the first is visited |
| JsonUnflatten.CreateStep | Common/json.hpp:11746-11800 | one assignment keeps the correspondence between the value built so far and the leaves already visited |
| JsonUnflatten.UnflattenRun | Common/json.hpp:12199-12225 | the correspondence holds over the whole loop, and a value that cannot be restored is never reached |
| JsonUnflatten.UnflattenInvertsFlatten | Common/json.hpp:12402-12411 | unflatten(flatten(j)) is j exactly when no container is empty and no object has its first visited leaf below key "0"; it equals j by operator== when, besides, no NaN occurs |
| JsonUnflatten.FlattenAndUnflatten | Common/json.hpp:12141-12225 | the same for the code of both directions |
| JsonUnflatten.KeyZeroIsLost | Common/json.hpp:12402-12411 | an object without empty containers that is not restored |
| JsonUnflattenLaws.CreatedIsFound | Common/json.hpp:11746-11800 | in any value, at() finds what unflatten has assigned |
| JsonUnflattenLaws.CreateKeepsApart | Common/json.hpp:11746-11800 | an assignment of unflatten changes no place apart from its own |
| JsonUnflattenLaws.NothingBelowPrimitives | Common/json.hpp:11746-11800 | assigning below a primitive value that is there is an error |
| JsonUnflattenLaws.ArraysGrow | Common/json.hpp:11746-11800 | an array grows with nulls up to a new index and keeps its other elements |
| Binary.ByteVector.AddToVector | Common/json.hpp:6546-6587 | the bytes of a number are appended, most significant first, whatever its sign |
| Binary.GetFromVector | Common/json.hpp:6626-6640 | filling the object representation from the back reads the big-endian number behind the position, or fails when the vector is too short |
| Binary.FromBigEndianInverts | Common/json.hpp:6546-6640 | a number that fits in k bytes is read back from them |
| Binary.SignedInverts | Common/json.hpp:7325-7347 | a signed number that fits in k bytes is read back with its sign |
| Binary.WrapsAround | Common/json.hpp:6546-6587 | a negative number is written as its residue modulo 256^k |
| Binary.Sized | Common/json.hpp:6626-7194 | reading a sized number ends inside the vector |
| Cbor.ToCbor | Common/json.hpp:6898-7150 | the recursive encoder appends the encoding of the value to what the vector holds |
| Cbor.Decode | Common/json.hpp:7448-7916 | on every byte vector and index the decoder terminates, and it throws or ends behind the index and inside the vector |
| Cbor.FromCbor | Common/json.hpp:7448-7916 | the code that advances an index by reference computes that result and index |
| Cbor.ReadChunks | Common/json.hpp:7631-7642 | the loop over the chunks of a string of indefinite length terminates and concatenates them |
| Cbor.ReadItemsUntilBreak | Common/json.hpp:7727-7737 | the loop over an array of indefinite length terminates at the break or at an error |
| Cbor.ReadPairs | Common/json.hpp:7764-7825 | a declared count, however large, ends with an error when the input does; later keys replace earlier ones |
| Cbor.ReadPairsUntilBreak | Common/json.hpp:7827-7838 | the loop over a map of indefinite length terminates at the break or at an error |
| Cbor.ArgumentOfHead | Common/json.hpp:6898-7136 | the shortest header of every size is read back with its argument and its length |
| Cbor.DecodeEncodedElems | Common/json.hpp:7086-7104 | the elements of an encoded array are decoded one behind the other, wherever they start |
| Cbor.DecodeEncodedMembers | Common/json.hpp:7106-7143 | the same for the members of an object, in the order of their keys |
| Cbor.DecodeEncoded | Common/json.hpp:6898-7916 | at any position of any vector that holds it, the encoding of j decodes to j, with non-negative integers unsigned, and ends where it ends |
| Cbor.DecodeInvertsEncode | Common/json.hpp:7983-8042 | decoding prefix, encode(j), suffix at the end of the prefix succeeds, stops at the start of the suffix, and equals j exactly when j holds no NaN |
| Cbor.RoundTrip | Common/json.hpp:7983-8042 | the same for the code of both directions |
| CborIndefinite.StringUntilBreak | Common/json.hpp:7631-7642 | 0x7F, chunks and 0xFF decode to the concatenation of the chunks, and end behind the break |
| CborIndefinite.ArrayUntilBreak | Common/json.hpp:7727-7737 | 0x9F, encoded elements and 0xFF decode to the array of these elements in order, and end behind the break |
| CborIndefinite.MapUntilBreak | Common/json.hpp:7827-7838 | 0xBF, encoded keys and values in any order, repeated keys included, and 0xFF decode to the map they are inserted into in that order |
| CborIndefinite.MapCounted | Common/json.hpp:7764-7825 | the same for a map of declared size |
| Insertions.LaterKeyWins | Common/json.hpp:7764-7838 | a map holds exactly the keys inserted into it, each with the last of its values |
| MessagePack.ToMsgpack | Common/json.hpp:6652-6886 | the recursive encoder appends the encoding of the value to what the vector holds |
| MessagePack.Decode | Common/json.hpp:7210-7432 | on every byte vector and index the decoder terminates, and it throws or ends behind the index and inside the vector |
| MessagePack.FromMsgpack | Common/json.hpp:7210-7432 | the code that advances an index by reference computes that result and index |
| MessagePack.ReadPairs | Common/json.hpp:7222-7424 | the loop over the pairs ends with an error when the input does, whatever the declared count |
| MessagePack.DecodeEncodedUnsigned | Common/json.hpp:6672-6775 | unsigned numbers of all widths come back |
| MessagePack.DecodeEncodedNegative | Common/json.hpp:6708-6741 | negative numbers come back, across the fixint, int8, int16, int32 and int64 boundaries |
| MessagePack.DecodeEncoded | Common/json.hpp:6652-7432 | at any position of any vector that holds it, the encoding of j decodes to j and ends where it ends |
| MessagePack.DecodeInvertsEncode | Common/json.hpp:7919-7979 | for all values whose sizes the format can express: decoding prefix, encode(j), suffix stops at the suffix and equals j exactly when j holds no NaN |
| MessagePack.RoundTrip | Common/json.hpp:7919-7979 | the same for the code of both directions |
| BinaryNumbers.HalfIsRead | Common/json.hpp:7855-7885 | 0xF9 and two bytes, the high one first, are decoded to the double that widening gives |
| BinaryNumbers.SingleIsRead | Common/json.hpp:7277-7897 | the same for 0xFA, and 0xCA of MessagePack, and four bytes |
| Widening.HalfIsWidened | Common/json.hpp:7855-7885 | a half-precision number, subnormal or not, becomes a double of exactly its value and sign; infinities and NaNs stay what they are |
| Widening.SingleIsWidened | Common/json.hpp:7887-7897 | the same for single precision |
| BinaryNumbers.WideArgument | Common/json.hpp:7448-7560 | unsigned and negative numbers of CBOR are read from any width, however short they could have been written |
| BinaryNumbers.WideNumber | Common/json.hpp:7301-7347 | the same for the numbers of MessagePack, signed and unsigned |
| BinaryNumbers.NoItem | Common/json.hpp:7210-7916 | the bytes that start no item are errors |
| Utf8.EncodedDecodes | Common/json.hpp:9645-9707 | the encoding of every scalar value is one character of the grammar of RFC 3629, with that value |
| Utf8.EncodeInvertsDecode | Common/json.hpp:9645-9707 | every character of the grammar is the encoding of a scalar value: no overlong form, no surrogate, nothing past U+10FFFF |
| Utf8.WellFormedAppend | Common/json.hpp:10975-11088 | well-formed texts can be joined, and so do their code points |
| JsonStrings.ExtraSpaceIsExact | Common/json.hpp:8097-8128 | the buffer is sized exactly: the escaped string is extra_space(s) longer than s, and is s itself when that is 0 |
| JsonStrings.EscapeString | Common/json.hpp:8143-8248 | filling the preallocated buffer through pos yields the concatenation of the escaped characters |
| JsonStrings.RunsOverChar | Common/json.hpp:9965-10413 | from inside a string the automaton passes over one character or escape exactly when there is one |
| JsonStrings.AcceptsExactly | Common/json.hpp:9773-10819 | the lexer finds the end of a string token at e exactly when what lies between the quotes is a sequence of RFC 7159 characters over RFC 3629 UTF-8; the end is the first unescaped quote |
| JsonStrings.FirstChar | Common/json.hpp:11009-11053 | an escape or pair of escapes stands for a scalar value, and what follows it is again a string content |
| JsonStrings.GetString | Common/json.hpp:10975-11088 | copying runs between backslashes and converting escapes yields the value of the token, or an error at an unpaired surrogate |
| JsonStrings.StringValueIsUtf8 | Common/json.hpp:10975-11088 | get_string rejects a token exactly when a surrogate is unpaired; otherwise its result is well-formed UTF-8 for exactly the escaped code points |
| JsonEscapes.LetterIsRead | Common/json.hpp:11002-11044 | the eight letter escapes stand for the bytes of a literal table |
| JsonEscapes.NoOtherLetter | Common/json.hpp:10223-10301 | no other letter but u may follow a backslash |
| JsonEscapes.UnicodeIsRead | Common/json.hpp:11047-11080 | four digits written by division, in either case, for any number outside the surrogates become the UTF-8 of that number |
| JsonEscapes.PairIsRead | Common/json.hpp:11047-11080 | two escapes written for a high and a low surrogate become the UTF-8 of 0x10000 + (high - 0xD800) * 0x400 + (low - 0xDC00) |
| JsonEscapes.HalfIsRefused | Common/json.hpp:11047-11080 | a low surrogate by itself, and a high one without the escape of a low one behind it, are an error |
| JsonEscapes.EscapedSpelled | Common/json.hpp:8143-8248 | what is written for each byte: two letters for quote, backslash and five controls, \u00 and two lower-case digits for the other controls, and the byte itself for all others |
| JsonStringRoundTrip.EscapedRun | Common/json.hpp:8143-10413 | the lexer finds the end of an escaped string exactly when the string is well-formed UTF-8, and then behind its quote |
| JsonStringRoundTrip.EscapedValue | Common/json.hpp:8143-11088 | get_string undoes escape_string on every well-formed string |
| JsonLexer.Scan | Common/json.hpp:9773-10819 | the token behind the blanks lies inside the input, strings are grammatical, and integer tokens are digits behind an optional minus |
| JsonLexer.ScanNumber | Common/json.hpp:10006-10637 | a number token never runs past the input, and an integer one consists of digits |
| JsonLexer.Lexer.SkipExponent | Common/json.hpp:10520-10637 | an exponent without digits is given back: the cursor returns to the marker |
| JsonLexer.Lexer.ScanStringAt | Common/json.hpp:9965-10413 | running the states from the opening quote finds the same end, or fails with the cursor behind the quote |
| JsonLexer.Lexer.GetToken | Common/json.hpp:9773-10819 | the code that moves the cursor delivers the next token and leaves the cursor at its end |
| JsonDump.NumToStr | Common/json.hpp:8273-8304 | writing digits from the last to the first and reversing them prints every int64 and uint64 exactly, the minimum included |
| JsonDump.DumpTo | Common/json.hpp:8415-8545 | the recursive writer appends the text of the value in the given layout |
| JsonDumpLayouts.DumpIsRendered | Common/json.hpp:8415-8545 | the text is a sequence of words, line breaks and gaps that no layout changes; the compact layout drops breaks and gaps, the indented one writes a break as LF and step times its depth spaces, and a gap as one space |
| JsonParser.ParseValue | Common/json.hpp:11396-11589 | parsing a value terminates and ends behind its start and inside the input |
| JsonParser.Parser.GetToken | Common/json.hpp:11592-11596 | the token read last is the one behind the previous position |
| JsonParser.Parser.ParseInternal | Common/json.hpp:11396-11589 | recursive descent with one token of lookahead parses one value and has read the token behind it |
| JsonParser.Parser.ParseItems | Common/json.hpp:11509-11528 | the loop over the values of an array accepts commas between them and one closing bracket |
| JsonParser.Parser.ParsePairs | Common/json.hpp:11430-11472 | the loop over the members of an object accepts string keys and colons; a repeated key takes the later value |
| JsonParser.ParseText | Common/json.hpp:11379-11392 | one value and nothing behind it is parsed, or an error is thrown |
| JsonLayouts.BlankBytes | Common/json.hpp:9785-9965 | the bytes skipped in front of a token are exactly space, tab, line feed and carriage return |
| JsonLayouts.BlanksAreNoTokens | Common/json.hpp:9785-9965 | any run of these four bytes contributes nothing to the sequence of tokens |
| JsonLayouts.LayoutIsIrrelevant | Common/json.hpp:11396-11589 | texts with the same tokens have the same value or the same error, whatever stands between them |
| JsonBlanks.TokensMove | Common/json.hpp:9773-10819 | the tokens from a position on depend only on the bytes from there on |
| JsonBlanks.TokenKept | Common/json.hpp:9773-10819 | a token depends only on its own bytes, and for a number on the next byte not prolonging it |
| JsonBlanks.BlanksAreFree | Common/json.hpp:9773-11589 | blanks inserted at the beginning of any text or behind any of its tokens change neither its value nor its error |
| JsonLayouts.MembersInOrder | Common/json.hpp:11396-11461 | an object is what its members make when inserted in the order of the text, so that the later of two equal keys wins |
| JsonTextRoundTrip.StringScanned | Common/json.hpp:8143-11088 | an escaped string between quotes is one token with the original value, or a parse error when it is not UTF-8 |
| JsonTextRoundTrip.UnsignedParses | Common/json.hpp:8273-11325 | a printed non-negative number is read back as an unsigned one |
| JsonTextRoundTrip.NegativeParses | Common/json.hpp:8273-11325 | a printed negative number is read back, the minimum included |
| JsonTextRoundTrip.ElemsParse | Common/json.hpp:8415-11531 | from any element on, the text of an array parses to the remaining elements, or to the error of the first bad string |
| JsonTextRoundTrip.MembersParse | Common/json.hpp:8415-11479 | the same for the members of an object |
| JsonTextRoundTrip.ValueParses | Common/json.hpp:8415-11589 | the text of a value parses to it wherever it stands, provided nothing prolongs a number |
| JsonTextRoundTrip.ParseInvertsDump | Common/json.hpp:8397-11589 | for every value without floats, in compact form and with every indentation: parse(dump(j)) is j with non-negative integers unsigned, hence equal to j, when all strings are well-formed UTF-8, and throws otherwise |
| JsonTextRoundTrip.DumpAndParse | Common/json.hpp:8415-11589 | the same for the code of both directions |
| XmlText.ConvertUtf32ToUtf8 | Common/tinyxml2.cpp:405-455 | the bytes written backwards are the encoding, at most four, of the code point |
| XmlText.ReadDigits | Common/tinyxml2.cpp:470-545 | multiplying from the last digit with wrapping arithmetic gives the number modulo 2^32, and any other character is refused |
| XmlText.GetCharacterRef | Common/tinyxml2.cpp:458-551 | a reference is read to its semicolon and its bytes are written, or the ampersand is left to stand for itself |
| XmlText.FirstPiece | Common/tinyxml2.cpp:269-367 | what is written for a piece of text is never longer than the piece |
| XmlText.StrPair.DecodePiece | Common/tinyxml2.cpp:281-355 | one round reads a piece and writes its replacement, changing nothing else of the buffer |
| XmlText.StrPair.DecodeAll | Common/tinyxml2.cpp:269-367 | the write pointer never passes the read pointer, and what is written is the in-place decoding of the original text |
| XmlText.StrPair.GetStr | Common/tinyxml2.cpp:269-367 | the first call decodes inside the string's own stretch and ends it with NUL; later calls change nothing; bytes outside are untouched |
| XmlText.InPlaceDecodes | Common/tinyxml2.cpp:269-367 | decoding in place is newline normalisation with entity and character-reference decoding exactly when every unknown ampersand meets an ampersand at the write pointer |
| XmlText.KnownReferencesDecode | Common/tinyxml2.cpp:269-367 | in particular whenever every ampersand starts a known reference |
| XmlNewlines.LineEndsAreAlike | Common/tinyxml2.cpp:282-305 | a text reads the same with LF, CR LF or CR as line ends |
| XmlNewlines.ValueNormalizes | Common/tinyxml2.cpp:264-349 | where no reference is decoded, a string is read as its line-end normalization, never containing CR |
| XmlReferences.EntityIsRead | Common/tinyxml2.h:127-137 | each of the five entities, spelled out, becomes its byte |
| XmlReferences.HexReferenceIsRead | Common/tinyxml2.cpp:458-551 | a number written in hexadecimal by division, in either case and with leading zeros, becomes the UTF-8 of that number, taken modulo 2^32 |
| XmlReferences.DecimalReferenceIsRead | Common/tinyxml2.cpp:458-551 | a number written in decimal becomes the UTF-8 of that number, taken modulo 2^32 |
| XmlReferences.NoNumberIsLeft | Common/tinyxml2.cpp:458-551 | a reference with any other byte among its digits is no reference: its ampersand is text |
| XmlText.UnknownReferenceIsClobbered | Common/tinyxml2.cpp:329-348 | a text whose unknown ampersand is replaced by a stale byte |
| XmlText.DecodedPrinted | Common/tinyxml2.cpp:269-2501 | reading printed text decodes to the original, and CR never survives reading |
| XmlText.DecodingInvertsPrinting | Common/tinyxml2.cpp:269-2501 | decoding in place what PrintString writes, for text or attributes, gives the string back exactly when it contains no CR and no NUL and its last run of bytes without escapes is at most INT_MAX long |
| XmlText.LongRunIsCut | Common/tinyxml2.cpp:2493-2500 | a string without CR and NUL that loses its last byte because the final flush writes INT_MAX bytes once, and one that is cut at its NUL |
| XmlDocuments.ParseNodes | Common/tinyxml2.cpp:990-1088 | parsing terminates because each node consumes input; an end tag that ends a list lies inside the text |
| XmlDocuments.ParseAttributes | Common/tinyxml2.cpp:1803-1860 | the attribute list of a tag ends behind its start and inside the text |
| XmlDocuments.ParseElement | Common/tinyxml2.cpp:1886-1911 | an element and the end tag it may hand to its parent lie inside the text |
| XmlParser.ReadAttribute | Common/tinyxml2.cpp:1344-1369 | a name, an equals sign and a quoted value with the same quote at both ends, or an error |
| XmlParser.ReadAttributes | Common/tinyxml2.cpp:1803-1860 | attributes are read up to ">" or "/>"; a repeated name is an error |
| XmlParser.ScanText | Common/tinyxml2.cpp:195-217 | a string ends at the first occurrence of its end tag, and fails at the end of the text |
| XmlParser.IdentifyAndParse | Common/tinyxml2.cpp:658-725 | the first bytes decide the kind of node, and its own parser reads the rest |
| XmlParser.WellLocated | Common/tinyxml2.cpp:1030-1049 | a declaration is accepted only at document level behind nothing but declarations |
| XmlParser.ParseContent | Common/tinyxml2.cpp:1051-1084 | an element's start tag must meet an end tag of the same name, which its child list has handed back |
| XmlParser.ParseDeep | Common/tinyxml2.cpp:990-1088 | the loop over the nodes collects the children up to an end tag, the end of the text or an error |
| XmlParser.Parse | Common/tinyxml2.cpp:2260-2365 | a whole document is parsed, with its byte-order mark; an empty one is an error |
| XmlPrinter.Printer.PrintString | Common/tinyxml2.cpp:2451-2501 | for every string: runs are copied, in portions where an escape follows and once at the end, flagged characters are replaced, and what is written is the escaped form of the bytes before the first NUL, less what the single final write leaves out of a last run longer than INT_MAX |
| XmlPrinter.Printer.OpenElement | Common/tinyxml2.cpp:2516-2534 | a pending start tag is closed first, the name is remembered |
| XmlPrinter.Printer.PushAttribute | Common/tinyxml2.cpp:2537-2545 | an attribute is appended with its value escaped |
| XmlPrinter.Printer.CloseElement | Common/tinyxml2.cpp:2588-2613 | an element without content gets the short form, any other its end tag with the remembered name |
| XmlPrinter.Printer.PushText | Common/tinyxml2.cpp:2626-2639 | text is escaped, CDATA is copied between its brackets |
| XmlPrinter.Printer.Accept | Common/tinyxml2.cpp:1954-2795 | visiting a node appends its compact text and leaves the stack of names as it was |
| XmlPrinter.Printer.PrintAllOf | Common/tinyxml2.cpp:2291-2301 | visiting a document prints the texts of its nodes one behind the other |
| XmlRoundTrip.TagParses | Common/tinyxml2.cpp:1803-1911 | a printed start tag is read back with its name and attributes in order |
| XmlRoundTrip.TextParses | Common/tinyxml2.cpp:1135-1159 | printed text before markup is read back with its leading blanks |
| XmlRoundTrip.CommentParses | Common/tinyxml2.cpp:1200-1208 | a printed comment is read back |
| XmlRoundTrip.CDataParses | Common/tinyxml2.cpp:1135-1159 | a printed CDATA section is read back |
| XmlRoundTrip.DeclarationParses | Common/tinyxml2.cpp:1249-1257 | a printed declaration is read back |
| XmlRoundTrip.UnknownParses | Common/tinyxml2.cpp:1297-1305 | a printed unknown node is read back, unless its text makes it a comment or CDATA |
| XmlRoundTrip.ContentParses | Common/tinyxml2.cpp:990-1911 | children and end tag of a printed element are read back to the element |
| XmlRoundTrip.ChildrenParse | Common/tinyxml2.cpp:990-1088 | from any child on, the printed children are read back in order |
| XmlRoundTrip.ParseInvertsPrint | Common/tinyxml2.cpp:990-2795 | every document of elements, comments, CDATA, declarations and unknown nodes with valid distinct names, no CR or NUL, no adjacent or blank texts and no end marks inside comes back from its compact form as the same tree, without error |
| XmlLayouts.LaidAttributeParses | Common/tinyxml2.cpp:1344-1369 | an attribute is read back from either kind of quotes, whatever blanks stand around its equals sign |
| XmlLayouts.LaidTagParses | Common/tinyxml2.cpp:1803-1911 | a start tag is read back whatever blanks stand before its name, between its attributes and before its end |
| XmlLayouts.LaidCloseParses | Common/tinyxml2.cpp:1803-1911 | the same for an end tag |
| XmlLayouts.LaidChildrenParse | Common/tinyxml2.cpp:990-1088 | children are read back in order whatever blanks stand before their markup |
| XmlLayouts.LayoutIsIrrelevant | Common/tinyxml2.cpp:658-1911 | any run of the bytes 0x20 and 0x09 to 0x0D before markup, inside tags, between attributes and around an equals sign, with either kind of quotes and either form of an empty element, gives the same tree as the compact text |
| XmlLayouts.NameStartsAreRead | Common/tinyxml2.h:564-571 | the bytes a name may start with are the letters, colon, underscore and those past ASCII |
| XmlLayouts.NameBytesAreRead | Common/tinyxml2.h:573-580 | digits, dots and hyphens may follow |
| XmlNewlines.CommentNormalizes | Common/tinyxml2.cpp:1200-1208 | the content of any comment keeps its references and has its line ends normalized |
| XmlNewlines.CDataNormalizes | Common/tinyxml2.cpp:1135-1144 | the same for a CDATA section |
| XmlNewlines.DeclarationNormalizes | Common/tinyxml2.cpp:1249-1257 | the same for a declaration |
| XmlNewlines.UnknownNormalizes | Common/tinyxml2.cpp:1297-1305 | the same for an unknown node |
| XmlPrinter.PrintAndParse | Common/tinyxml2.cpp:990-2795 | the same for the code of printer and parser |
| DynArrays.DynArray.EnsureCapacity | Common/tinyxml2.h:289-303 | growing to twice the capacity asked for keeps the contents |
| DynArrays.DynArray.Push | Common/tinyxml2.h:212-217 | the contents are extended by one element; all growth together copies at most twice as many elements as were ever asked for |
| DynArrays.DynArray.PushArr | Common/tinyxml2.h:219-226 | room for the elements is made behind the contents, which stay |
| DynArrays.DynArray.Pop | Common/tinyxml2.h:228-232 | the last element is returned and the rest stays |
| DynArrays.DynArray.PopArr | Common/tinyxml2.h:234-237 | exactly the last elements are dropped |
| DynArrays.DynArray.SwapRemove | Common/tinyxml2.h:268-273 | the last element takes the place of the removed one |
| DynArrays.SwapRemovedKeepsOthers | Common/tinyxml2.h:268-273 | all other elements are still there, each as often as before |
| MemPools.MemPool.constructor | Common/tinyxml2.h:334-337 | a new pool has no live items |
| MemPools.MemPool.Alloc | Common/tinyxml2.h:362-386 | an item that is not live becomes live: the most recently freed one, or one of a new block; free and live items stay exactly the items of all blocks |
| MemPools.MemPool.Free | Common/tinyxml2.h:388-399 | a live item goes to the front of the free list; freeing null does nothing |
| MemPools.MemPool.SetTracked | Common/tinyxml2.h:406-408 | one item less is untracked |
| MemPools.MemPool.Clear | Common/tinyxml2.h:342-353 | all blocks are given back and the counters are reset |
| MemPools.MemPool.EveryItemCounted | Common/tinyxml2.h:334-445 | at any time, live items and free items together are the items of all blocks |
| MemPools.MemPool.LinkItems | Common/tinyxml2.h:368-373 | the items of a new block form a chain that ends in null |
| MemPools.ChainIsList | Common/tinyxml2.h:368-373 | items linked one to the next, the last to nothing, are an acyclic list |
| MemPools.Extended | Common/tinyxml2.h:363-374 | a new block joins the partition into live and free items when none is free |
| Siblings.SpliceKeepsLinks | Common/tinyxml2.cpp:806-937 | inserting or removing one node by rewiring its neighbours keeps all sibling lists doubly linked |
| Siblings.LinkKeepsRanks | Common/tinyxml2.cpp:843-937 | hanging a node below one that is not under it keeps the nodes a forest |
| Siblings.NoneUnder | Common/tinyxml2.cpp:904-937 | when nothing below a node is left, no other node is under it |
| XmlDom.Document.UntrackedAreUnlinked | Common/tinyxml2.h:1886-1896 | the untracked counts of the pools sum to the number of unlinked nodes |
| XmlDom.Document.constructor | Common/tinyxml2.cpp:1995-2013 | a new document is valid and has no nodes |
| XmlDom.Document.NewNode | Common/tinyxml2.h:1886-1896 | a created node is live, has no parent and is in the list of unlinked nodes |
| XmlDom.Document.MarkInUse | Common/tinyxml2.cpp:2022-2033 | the search removes the node from the list of unlinked nodes if it is there, and nothing else |
| XmlDom.Document.Unlink | Common/tinyxml2.cpp:806-827 | a child leaves the list of its parent and keeps its own children; all other lists stay |
| XmlDom.Document.InsertChildPreamble | Common/tinyxml2.cpp:1105-1117 | a node to insert is taken out of its list, or out of the list of unlinked nodes |
| XmlDom.Document.InsertEndChild | Common/tinyxml2.cpp:843-870 | the node becomes the last child, and a node of another document is refused; the document stays valid |
| XmlDom.Document.InsertFirstChild | Common/tinyxml2.cpp:873-901 | the node becomes the first child, and a node of another document is refused; the document stays valid |
| XmlDom.Document.InsertAfterChild | Common/tinyxml2.cpp:904-937 | the node stands directly behind the given child; a child of another parent is refused, and a child behind itself stays |
| XmlDom.Document.AfterRemoval | Common/tinyxml2.cpp:904-937 | taking the node out leaves nothing behind the child exactly when it was the last, or the node was next to it and the last |
| XmlDom.Document.DeleteChildren | Common/tinyxml2.cpp:796-803 | exactly what was below the node is destroyed |
| XmlDom.Document.Destroy | Common/tinyxml2.cpp:1090-1103 | a parentless node goes with all that is below it, and the counters follow |
| XmlDom.Document.DeleteChild | Common/tinyxml2.cpp:830-840 | exactly the child and what is below it are destroyed, and the parent's list loses the child; the document stays valid |
| XmlDom.Document.DeleteNode | Common/tinyxml2.cpp:2136-2151 | the same for a child of any node, and for unlinked nodes; the document stays valid |
| XmlDom.Document.Clear | Common/tinyxml2.cpp:2035-2065 | the loop over the unlinked nodes terminates, and every node has been freed: lists and counters are empty |
| XmlDom.Document.AllGone | Common/tinyxml2.cpp:2035-2065 | when neither the document nor the list of unlinked nodes holds a node, none is live |
| Pruning.PrunedToLeaf | Common/tinyxml2.cpp:796-803 | when the last child of a node has been destroyed, everything below the node is gone, and nothing else |
| Pruning.CutWhole | Common/tinyxml2.cpp:1090-1103 | freeing the node itself then completes the destruction of its whole subtree |
| Pruning.CutUnlinked | Common/tinyxml2.cpp:830-840 | unlinking and then destroying removes the child from one list and its subtree from the forest |
| Pruning.PrunedFurther | Common/tinyxml2.cpp:796-803 | destroying one more child after others destroys nothing outside |
| HttpPool.CallbackKeepsInv | Common/client_http.hpp:230-254 | releasing the connection and pruning the pool keeps all invariants, whichever idle connection is kept |
| HttpPool.FailedConnectionLeavesPool | Common/client_http.hpp:237-249 | a connection on which a request has failed is not offered again |
| HttpPool.ReconnectKeepsInv | Common/client_http.hpp:533-553 | replacing a failed pooled connection by a new one keeps all invariants |
| HttpPool.RequestKeepsInv | Common/client_http.hpp:383-415 | taking an idle connection, or a new one when none is idle, keeps all invariants |
| HttpPool.HeaderKeepsInv | Common/client_http.hpp:464-554 | every outcome of reading the header keeps all invariants |
| HttpPool.StepKeepsInv | Common/client_http.hpp:225-686 | every handler step, and stopping, keeps all invariants |
| HttpPool.PoolIsSafe | Common/client_http.hpp:225-686 | over all interleavings: unfinished sessions never share a connection, their connections are marked in use, and the pool holds at most one idle connection |
| HttpPool.CallbackFiresOnce | Common/client_http.hpp:225-686 | over all interleavings: the callback of a request fires at most once, exactly when it is done, and the request reconnects at most once |
| HttpPool.DoneForever | Common/client_http.hpp:225-686 | a finished session stays as it is |
| HttpRequests.RequestStarts | Common/client_http.hpp:383-415 | a request on an open connection starts by writing, any other by resolving |
| HttpRequests.SuccessMovesOn | Common/client_http.hpp:450-690 | a successful resolve leads to connecting, then to writing, then to the header, then to the body or to the end, on one connection |
| HttpRequests.FailureEnds | Common/client_http.hpp:450-690 | a failure calls the callback, or starts the request over on a connection never used before; after the stop the handler returns at once |
| HttpRequests.PhasesInOrder | Common/client_http.hpp:225-686 | over all interleavings: as long as no error occurs, a request has moved on by one phase for each of its handlers that ran, and is done only from the header or the body |
| HttpRequests.FiveHandlersSuffice | Common/client_http.hpp:225-686 | over all interleavings: after five handlers without an error the request is done and its callback has been called |
| HttpRequests.CanComplete | Common/client_http.hpp:225-686 | from every state the invariant allows, before the stop, the handlers of a request alone can complete it |
| HttpPool.Client.GetConnectionOf | Common/client_http.hpp:383-415 | the loop over the pool, in any order, finds an idle connection if there is one |
| HttpPool.Client.SessionCallback | Common/client_http.hpp:230-254 | the loop over the pool, in any order, erases the failed connection and all idle ones but one |
| HttpPool.Client.HeaderError | Common/client_http.hpp:533-553 | a failed header leads to one new attempt on a new connection, or to the callback |
| HttpPool.Client.constructor | Common/client_http.hpp:361-381 | a new client is in the initial state of the protocol |
| HttpPool.Client.StartRequest | Common/client_http.hpp:225-269 | starting a request is a step of the protocol and keeps its invariant |
| HttpPool.Client.OnResolved | Common/client_http.hpp:654-682 | the handler of the resolver is a step of the protocol and keeps its invariant, stopped or not |
| HttpPool.Client.OnConnected | Common/client_http.hpp:665-678 | the same for the handler of the connection |
| HttpPool.Client.OnWritten | Common/client_http.hpp:450-462 | the same for the handler of the request |
| HttpPool.Client.OnHeaderRead | Common/client_http.hpp:464-555 | the same for the handler of the header, with every outcome and the one reconnect |
| HttpPool.Client.OnBodyRead | Common/client_http.hpp:487-636 | the same for the handlers of the body |
| HttpPool.Client.StopHandlers | Common/client_http.hpp:356-358 | stopping the scope is a step of the protocol |
| HttpPool.Client.Stop | Common/client_http.hpp:347-354 | the loop empties the pool, which is a step of the protocol and keeps its invariant |
| ChunkedReader.Stoul | Common/client_http.hpp:573-580 | the size a line denotes fits in an unsigned long |
| ChunkedReader.StoulOfHexText | Common/client_http.hpp:573-580 | any size, written in hexadecimal by division with leading zeros and digits of either case, is read as that size, and refused past ULONG_MAX |
| ChunkedReader.StoulOfPrefixed | Common/client_http.hpp:573-580 | blanks, a sign and 0x may stand in front of the digits, and a minus wraps around 2^32 |
| ChunkedReader.ReadUntilCrlf | Common/client_http.hpp:557-567 | reading until a line end loses nothing and stops at the line end, the end of the stream or a full buffer |
| ChunkedReader.ReadExactly | Common/client_http.hpp:584-600 | reading a given length loses nothing and stops at that length, the end of the stream or a full buffer |
| ChunkedReader.SizeLineArrived | Common/client_http.hpp:568-571 | the size line depends only on the stream, not on how much of it has arrived |
| ChunkedReader.ReadChunkedTransferEncoded | Common/client_http.hpp:557-636 | below the buffer limit, outcome, content and the bytes left over are functions of the stream alone, however the socket cuts it |
| ChunkedReader.StoulOfLine | Common/client_http.hpp:569-580 | the line of a well-formed chunk, its size field being such a text of the length of the data, denotes that length with or without extension |
| ChunkedReader.ChunkedOfBody | Common/client_http.hpp:557-636 | a body of nonempty chunks ended by an empty one is delivered as the concatenation of their data, and exactly its bytes are consumed |
| ChunkedReader.ReceiveBody | Common/client_http.hpp:557-636 | the same for the code: however much of the body is already buffered, whatever follows it and however the socket cuts the rest, the content arrives and exactly the bytes of the body are consumed |
| ScopeRunner.StepKeepsInv | Common/utility.hpp:325-353 | each atomic access keeps the counter at -1 with no live lock, or at the number of live locks; -1 is permanent |
| ScopeRunner.CounterCountsLocks | Common/utility.hpp:314-353 | at every moment of every run the counter is -1 without live locks, or the number of live locks |
| ScopeRunner.StoppedForever | Common/utility.hpp:345-353 | -1 is never left again |
| ScopeRunner.StopExcludesLocks | Common/utility.hpp:344-353 | once any stop has returned, no lock is live at any later moment, so none is granted again |
| ScopeRunner.GivingUpMeansStopped | Common/utility.hpp:332-342 | continue_lock refuses a lock only after the stop |
| ScopeRunner.Runner.CompareExchangeWeak | Common/utility.hpp:335-347 | the exchange may fail without cause, and a failure reports the current value |
| ScopeRunner.Runner.TryAcquire | Common/utility.hpp:333-342 | one round of the loop of continue_lock is one step of the protocol, and grants a live lock or learns the counter |
| ScopeRunner.Runner.TryStop | Common/utility.hpp:345-353 | one round of the loop of stop is one step of the protocol, and returns only when no lock is live |
| ScopeRunner.Runner.ReleaseLock | Common/utility.hpp:325-327 | the destructor ends one live lock |
| Md5.PaddedShape | Common/md5.cpp:182-216 | the padded message is a whole number of 64-byte blocks, starts with the message and goes on with a one bit |
| Md5.PaddedEnd | Common/md5.cpp:182-211 | zeros fill the padding, and the last eight bytes, lowest first, are the number of bits of the message modulo 2^64 |
| Md5.WordsAreLowFirst | Common/md5.cpp:437-445 | every word is written so that its bytes, weighted 1, 2^8, 2^16 and 2^24 in this order, add up to it |
| Md5.DigestWords | Common/md5.cpp:182-216 | the sixteen bytes of the digest are the four words of the final state, each lowest byte first |
| Md5.CountedAdds | Common/md5.cpp:84-88 | adding to the two words with a carry is adding the bits modulo 2^64 |
| Md5.Context.constructor | Common/md5.cpp:302-314 | a new context has hashed the empty message |
| Md5.Context.CompressInput | Common/md5.cpp:91-107 | filling the buffer once and then bypassing it compresses all whole blocks of the message so far |
| Md5.Context.Update | Common/md5.cpp:71-112 | the message grows by the input: counter, state and buffer are its bit length, the fold over its whole blocks and its remainder; a finalized digest stays |
| Md5.EncodeWords | Common/md5.cpp:437-445 | words are written low-order byte first: the four bytes at 4i, weighted 1, 2^8, 2^16 and 2^24, are the i-th word |
| Md5.DecodeWords | Common/md5.cpp:454-461 | words are read low-order byte first |
| Md5.EncodeAndDecode | Common/md5.cpp:437-461 | decode reads back what encode has written |
| Md5.Context.Finalize | Common/md5.cpp:182-216 | the digest is the fold over the padded message; a second call changes nothing |
| Md5.HashPieces | Common/md5.cpp:71-216 | for every way of cutting a message into updates the digest is that of the whole message |

## Left out

Contracts that cover less than every conceivable input:

- JsonDiff.PatchInvertsDiff: arrays have at most `INT_MAX` + 1 elements, because `patch` reads indices with `std::stoi`.
- JsonUnflatten.UnflattenInvertsFlatten: arrays have at most `INT_MAX` + 1 elements, for the same reason.
- MessagePack.DecodeInvertsEncode: strings, arrays and objects have at most 2^32 - 1 bytes or elements; the encoder writes no header for longer ones.
- Cbor.DecodeInvertsEncode: the whole vector has at most 2^63 - 1 bytes, the most a vector of bytes can hold.
- JsonTextRoundTrip.ParseInvertsDump: values contain no floating-point numbers; their text and its conversion (`snprintf`, `strtod`, the locale) are the parameters `fromDouble` and `toDouble`.
- XmlRoundTrip.ParseInvertsPrint: plain texts that are adjacent, empty or blank, CR and NUL, and end marks inside comments, CDATA, declarations and unknown nodes are excluded, because the format merges, drops or misreads them.
- XmlDom.Document.InsertAfterChild: the node is not the sibling directly behind `afterThis` when that sibling is also the last child. The code tests `afterThis->_next` before it unlinks the node and would then follow a null pointer; `AfterRemoval` shows that this is the only such case.
- XmlDom.Document.InsertEndChild: a node is not inserted below itself or its own descendants, which the source leaves to its callers (also for the other insertions).
- ChunkedReader.ReadChunkedTransferEncoded: nothing is said about the result when the stream reaches the buffer limit, where the outcome depends on how the socket cuts it.
- ChunkedReader.StreamStep: an empty size line, on which the code calls `pop_back`, and sizes within 2 of `ULONG_MAX`, where 2 + length wraps around, are reported as `Undefined`.
- Md5.Context.Update: the length leaves room for 63 more in 32 bits, because the loop computes `input_index + 63` in that width.
- XmlPrinter.Printer.Accept: the strings of the tree contain no NUL and end with at most `INT_MAX` bytes that need no escape; what `PrintString` does with others is stated at that method, but the text of a whole tree that holds one is not.
- MemPools.MemPool.Alloc: the counters and the block list do not exceed an `int`.

Parts of the source that are not modelled:

- JSON: references into the value are modelled as edits of the whole value along a path, which gives up aliasing; error messages, allocators, move operations, iterators and callbacks are left out, and so are discarded values.
- JSON: where C++ leaves the evaluation order of operands open in the operations of `patch`, one order is fixed.
- JSON: an `add` below a primitive parent, which the source excludes by `assert(false)`, is the error `AssertionFailed`.
- JSON: stream input, refilling of the line buffer and the byte-order mark of streams; the lexer's input is one text followed by NUL.
- JSON: overflow of the indentation counter.
- XML: pretty printing, whitespace collapsing, `processEntities = false`, line numbers, error texts and file access.
- XML: the parser returns values; that it keeps strings as stretches of one buffer and terminates them lazily is modelled for each string by itself in `XmlText.StrPair`.
- XML: the printer's buffer is a sequence without its closing NUL.
- XML: in `XmlDom`, values and attributes of nodes and the attribute pool; nodes are objects of their own, and the pools appear through their counters. The parser's error paths, on which a node may be destroyed without having been marked as tracked, are not part of it.
- `MemPoolT`: items are objects, so overwriting freed memory and the overlay of links and user data do not occur.
- HTTP: sockets, timers, resolving, mutexes and the contents of requests; a handler that holds the mutex is one step, and the destructor is the step that stops the scope followed by the one that empties the pool.
- HTTP: header parsing and bodies with a `Content-Length`, except as outcomes of a step; the content a failed body leaves in the buffer.
- `ScopeRunner`: memory orders other than the sequentially consistent default, and overflow of the counter.
- MD5: the 64 rounds of `transform`, the forms of `update` that read files and streams, and the hexadecimal digest.
- `unsigned long` has 32 bits, as on the platform the programs are built for.
- `Common/server_http.hpp`, whose chunked reader repeats the client's, `Percent`, `QueryString`, and the programs under `Client/` and `Server/` would only add easier members.
