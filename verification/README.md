# The JSON engine, modelled and verified

This project models the JSON library that the server uses to read its requests and to write its answers
(`lib/jsonparser/include/json.hpp`, version 2.1.1 of the library by Niels Lohmann) and proves what it promises.
Verify it with `dafny verify dfyconfig.toml`.

All components share the datatype `Value.Json`: null, booleans, signed and unsigned 64-bit integers, floats as
64-bit patterns, byte strings, arrays, and objects as maps that are visited in the byte order of their names.
Bytes are integers from 0 to 255. Exceptions are values of `Wrappers.Result`.

- **Text.** `Scanner` is the generated automaton, one state per label; `Lexer` is the object that runs it on its
  buffer, refills the buffer, decodes strings and converts numbers; `Parser` is the recursive descent parser on top.
  Three independent descriptions say what they compute: `Lexical` (where tokens end), `Strings` and `Numbers` (the
  characters and numbers of RFC 7159), `Grammar` (syntax trees, the texts that spell them and the values they
  denote). The main result, `Tokens.ParseIff`, is an equivalence over all byte buffers. `Escape` and `Dump` are the
  printer; `DumpParse` proves that the parser undoes it.
- **Binary formats.** `Cbor` and `MsgPack` hold the encoders, which append to a vector, the decoders, which advance
  an index passed by reference, and the round trips with framing.
- **Pointers.** `Pointer` edits strings in place and splits them; `Access` follows pointers with and without checks.
- **Flattening.** `Flatten` and `FlattenRoundTrip`: when `unflatten` restores what `flatten` took apart.
- **Patches.** `Diff`, `Patch` and `DiffPatch`: an edit script, its interpreter, and what running one on the
  other gives.
- **Order.** `Order` treats `operator<` next to `operator==`: trichotomy for all values without NaN, and for
  which numbers `<` is transitive. `Double` models the conversion of integers to doubles with its rounding.

Where the original updates something step by step, the model has a method with the same loops and branches, proved
equal to a function; the laws are then proved about the functions. Two of the loops return C++ references for the
caller to assign to; they exist as functions only: `get_unchecked` as `Access.Target` and `Access.SetUnchecked`,
`get_and_create` as `Flatten.CreateSet`.

Two conversions of the C library are parameters, so that every statement holds whatever they compute:
`strtod` (text to float) and the float case of `numtostr` (float to text).

## Where the code and its documentation disagree

- `flatten` documents that, apart from empty containers, `j == j.flatten().unflatten()`. The code takes a first
  token `0` for the start of an array, so an object whose first visited member is named `0` comes back as an array
  (`FlattenRoundTrip.ZeroMemberLost`); indices beyond the range of `int` are not restored, and a value with a NaN
  equals nothing. `FlattenRoundTrip.DocumentedRoundTrip` gives the exact condition.
- `diff` documents that patching with a diff always gives the target. The code reads array indices with
  `std::stoi`, so it fails beyond the range of `int` (`DiffPatch.TooLongArray`), and a target with a NaN equals
  nothing. `DiffPatch.PatchRestoresTarget` gives the exact condition.
- "remove" wants the place to exist, says section 4.2 of RFC 6902. The code throws for the root, which exists; it does
  nothing below a value that is neither an object nor an array (`Patch.RemoveBelowNull`), and it does not reject
  leading zeros in an array index, so `/00` removes the first element (`Patch.RemovePaddedIndex`).
  `Patch.RemoveRequiresExistence` gives the exact condition.
- A zero byte between tokens ends the text, and what follows it is ignored (`Tokens.ZeroByteAccepted`), although
  RFC 7159 has no such rule. `Tokens.WronglyAccepted` says exactly which buffers pass for that reason.
- The binary formats represent infinities and NaN, and the encoders write them; the decoders turn them into null
  (`Cbor.InfinityLost`, `MsgPack.InfinityLost`). `Cbor.RoundTrip` and `MsgPack.RoundTrip` give the exact conditions.

The conversions that `operator<` applies to numbers of different types are documented (6025-6030); what follows from
them is not: `<` is not transitive on all numbers. `Order.NumbersConsistent` says exactly on which triples it is, and
`Order.Transitivity` carries the condition through containers.

## Model

| member | source | states |
|---|---|---|
| Value.EqReflexive | lib/jsonparser/include/json.hpp:5882-5955 | `j == j` holds exactly when no float in `j` is a NaN |
| Value.EqSymmetric | lib/jsonparser/include/json.hpp:5882-5955 | `operator==` is symmetric, mixed number types included |
| Value.RebuiltEq | lib/jsonparser/include/json.hpp:268-286 | a decoder rebuilds non-negative signed numbers as unsigned ones and non-finite floats as null; the rebuilt value is equal exactly when every float is finite |
| Order.Trichotomy | lib/jsonparser/include/json.hpp:5882-6122 | on all values without NaN, exactly one of `a < b`, `b < a`, `a == b` holds |
| Order.SelfTrichotomy | lib/jsonparser/include/json.hpp:5882-6122 | no value is smaller than itself, and it equals itself exactly without NaN |
| Order.NumbersConsistent | lib/jsonparser/include/json.hpp:6075-6116 | for any three numbers, `<` and being tied are transitive in every order of the three exactly when none of them contradicts the other two: a NaN beside numbers that differ, a float to which two different integers are rounded, or a number between a signed one and an unsigned one that the cast to signed does not leave above it |
| Order.Transitivity | lib/jsonparser/include/json.hpp:6046-6122 | values of any types, nested containers included, are ordered consistently if no three numbers at corresponding places are in conflict |
| Order.ConflictShows | lib/jsonparser/include/json.hpp:6055-6058 | behind any common elements, three numbers make arrays inconsistent exactly when they are in conflict |
| Order.IntegerCompare | lib/jsonparser/include/json.hpp:6109-6116 | integers of either type compare like the numbers they stand for exactly when they do not clash |
| Order.SignedClashBreaks | lib/jsonparser/include/json.hpp:6109-6116 | between a signed and an unsigned number that clash there is a number that compares correctly with both, and with which `<` is not transitive |
| Order.SignedCompatible | lib/jsonparser/include/json.hpp:6046-6122 | nothing is in conflict in values whose numbers are integers of `int64_t` |
| Order.CompareExact | lib/jsonparser/include/json.hpp:6046-6122 | neither of two values without NaN is smaller than the other exactly when they are equal |
| Order.UnsignedCycle | lib/jsonparser/include/json.hpp:6109-6116 | an instance: `0 < 2^64-1`, `2^64-1 == -1`, `-1 < 0` |
| Double.OfIntegerMonotone | lib/jsonparser/include/json.hpp:6093-6108 | converting integers of both ranges to double, as the mixed comparisons do, preserves their order |
| Bytes.LessTrichotomy | lib/jsonparser/include/json.hpp:1230-1246 | the order of member names is total and antisymmetric |
| Bytes.SortedKeys | lib/jsonparser/include/json.hpp:1230-1246 | objects are visited in strictly increasing order of their names, each name once |
| Decimal.XWrite | lib/jsonparser/include/json.hpp:8272-8304 | the 64-byte buffer holds the text of the integer and then zeros; at most 20 characters; both assertions hold, for the smallest `int64_t` too |
| Decimal.NumToStr | lib/jsonparser/include/json.hpp:8254-8268 | `c_str()` yields the decimal text of every `int64_t` and `uint64_t` |
| Decimal.ReversedLowDigits | lib/jsonparser/include/json.hpp:8286-8303 | digits taken lowest first and reversed are the decimal numeral |
| Decimal.IntegerTextLength | lib/jsonparser/include/json.hpp:8266-8299 | no integer needs more than 20 characters |
| Decimal.StoiNumeral | lib/jsonparser/include/json.hpp:11916-11919 | `std::stoi` reads a printed index back exactly when it fits into an `int` |
| Numbers.IntegerScansBack | lib/jsonparser/include/json.hpp:8272-8304 | what `numtostr` writes is scanned as one integer token and `get_number` gives the integer back |
| Pointer.StringCell.ReplaceSubstring | lib/jsonparser/include/json.hpp:12102-12114 | the in-place loop replaces exactly the non-overlapping occurrences, left to right |
| Pointer.Escape | lib/jsonparser/include/json.hpp:12117-12123 | two in-place passes equal one pass over the characters |
| Pointer.TwoPassUnescape | lib/jsonparser/include/json.hpp:12126-12132 | decoding `~1` and then `~0` in place equals one-pass decoding; `~01` gives `~1` |
| Pointer.UnescapeEscaped | lib/jsonparser/include/json.hpp:12117-12132 | unescaping undoes escaping for every token |
| Pointer.EscapeUnescaped | lib/jsonparser/include/json.hpp:12117-12132 | escaping undoes unescaping for every properly escaped string |
| Pointer.SplitPointer | lib/jsonparser/include/json.hpp:12029-12087 | the loop over the slashes computes the tokens or throws, as the functional parser does |
| Pointer.SplitAccepts | lib/jsonparser/include/json.hpp:12029-12087 | accepted are exactly the strings of section 3 of RFC 6901 |
| Pointer.SplitToString | lib/jsonparser/include/json.hpp:11679-11701 | `json_pointer(p.to_string()) == p` for every token list |
| Pointer.ToStringSplit | lib/jsonparser/include/json.hpp:11693-11701 | `json_pointer(s).to_string() == s` for every accepted string |
| Access.GetChecked | lib/jsonparser/include/json.hpp:11888-11930 | the loop follows the tokens with range checks, as the recursive description does |
| Access.GetSet | lib/jsonparser/include/json.hpp:11888-11930 | `at(ptr)` can be assigned exactly when it resolves, and then reads back the assigned value |
| Access.UncheckedAgrees | lib/jsonparser/include/json.hpp:11821-11930 | where `at(ptr)` resolves, `operator[](ptr)` refers to the same place |
| Access.WriteThenRead | lib/jsonparser/include/json.hpp:11821-11930 | after `j[ptr] = v` succeeded, `at(ptr)` is `v` exactly when the write did not append through `-`; otherwise it throws |
| Access.WriteFrame | lib/jsonparser/include/json.hpp:11821-11930 | a write leaves every place unchanged whose pointer parts from the written one, across null conversion and null filling |
| Access.CanonicalWriteFrame | lib/jsonparser/include/json.hpp:11821-11930 | with canonical indices that is every resolvable pointer that is neither prefix nor extension of the written one |
| Flatten.FlatObject.Flatten | lib/jsonparser/include/json.hpp:12141-12192 | the recursive method adds exactly the entries of the flattened value to the result |
| Flatten.FlattenValue | lib/jsonparser/include/json.hpp:12388-12393 | `flatten` returns the object of all entries |
| Flatten.FlatMapHolds | lib/jsonparser/include/json.hpp:12141-12192 | the entries are exactly the leaves of the value, each under its own escaped pointer |
| Flatten.UnflattenValue | lib/jsonparser/include/json.hpp:12199-12225 | the loop over the members in key order computes the restored value or throws |
| FlattenRoundTrip.ZeroComesFirst | lib/jsonparser/include/json.hpp:12199-12225 | in the order of pointer strings element 0 precedes every other element, also when `/10` precedes `/2` |
| FlattenRoundTrip.ArrayStartsWithZero | lib/jsonparser/include/json.hpp:11746-11764 | the first pointer that is visited below any array has the token `0` |
| FlattenRoundTrip.ObjectAssign | lib/jsonparser/include/json.hpp:11746-11800 | assignments below an object act on each member separately |
| FlattenRoundTrip.ArrayAssign | lib/jsonparser/include/json.hpp:11746-11800 | assignments below an array act on each element separately, as long as all indices fit into an `int` |
| FlattenRoundTrip.FirstLeafIsFirst | lib/jsonparser/include/json.hpp:12199-12225 | the leaf that a descent into first elements and first visited members finds has the smallest pointer string |
| FlattenRoundTrip.UnflattenFlatten | lib/jsonparser/include/json.hpp:12395-12425 | `j.flatten().unflatten()` is `j` itself with empty containers replaced by null exactly when no object begins with the token `0` and all indices fit into an `int` |
| FlattenRoundTrip.DocumentedRoundTrip | lib/jsonparser/include/json.hpp:12410-12411 | it equals that value for `==` exactly when, besides, no float is a NaN |
| FlattenRoundTrip.NoZeroMemberRoundTrip | lib/jsonparser/include/json.hpp:12410-12411 | in particular for every value without a member named `0` |
| FlattenRoundTrip.ZeroMemberLost | lib/jsonparser/include/json.hpp:11756-11764 | the documented law fails for `{"0": true}`, which comes back as `[true]` |
| Patch.Session.OperationAdd | lib/jsonparser/include/json.hpp:12511-12572 | the lambda changes the document as `Added` says or throws |
| Patch.Session.OperationRemove | lib/jsonparser/include/json.hpp:12575-12602 | the lambda changes the document as `Removed` says or throws |
| Patch.Session.Execute | lib/jsonparser/include/json.hpp:12610-12728 | one operation of a patch, with all its error cases |
| Patch.ApplyPatch | lib/jsonparser/include/json.hpp:12472-12731 | `patch` runs the operations in turn on a copy; the first failure ends it |
| Patch.StepsConcat | lib/jsonparser/include/json.hpp:12610-12728 | a concatenated patch is one patch after the other |
| Patch.ReplaceIsRemoveThenAdd | lib/jsonparser/include/json.hpp:12511-12669 | on every existing place but the root, "replace" has the effect of "remove" followed by "add" |
| Patch.RemoveRequiresExistence | lib/jsonparser/include/json.hpp:12575-12602 | "remove" succeeds exactly on existing places unless the place is the root, or the parent exists and is primitive, or is an array and the index has leading zeros and `stoi` finds it in range |
| Patch.RemoveBelowNull | lib/jsonparser/include/json.hpp:12575-12602 | removing a member of null succeeds, although there is none |
| Patch.RemovePaddedIndex | lib/jsonparser/include/json.hpp:12594-12602 | removing `/00` from an array removes its first element, although `/00` leads nowhere |
| Diff.DiffValues | lib/jsonparser/include/json.hpp:12765-12895 | the recursive method builds the operation list of the functional description |
| Diff.DiffArrays | lib/jsonparser/include/json.hpp:12792-12834 | common elements first, then removals from the back, then additions |
| Diff.DiffObjects | lib/jsonparser/include/json.hpp:12836-12878 | members of the source in key order, then the members that only the target has |
| DiffPatch.DiffApply | lib/jsonparser/include/json.hpp:12765-12895 | a sub-patch, relocated below the place of its value, turns that value into the target and changes nothing else; it fails exactly when an index does not fit into an `int` |
| DiffPatch.DiffEmpty | lib/jsonparser/include/json.hpp:12772-12776 | the patch is empty exactly when the values are equal |
| DiffPatch.PatchRestoresTarget | lib/jsonparser/include/json.hpp:12739-12743 | `source.patch(diff(source, target)) == target` exactly when the indices that are addressed fit into an `int` and the target holds no NaN |
| DiffPatch.DocumentedInvariant | lib/jsonparser/include/json.hpp:12739-12743 | the stated invariant, for all values whose arrays an `int` can index |
| DiffPatch.TooLongArray | lib/jsonparser/include/json.hpp:12739-12743 | beyond that size the invariant fails: the patch throws |
| Wire.ByteVector.AddToVector | lib/jsonparser/include/json.hpp:6546-6578 | appends the bytes of the number in big-endian order, two's complement for negative ones |
| Wire.BigEndianRoundTrip | lib/jsonparser/include/json.hpp:6546-6640 | reading big-endian bytes back gives the number |
| Wire.GetWritten | lib/jsonparser/include/json.hpp:6626-6640 | `get_from_vector` returns a number that was written behind the current byte |
| Wire.CheckLengthExact | lib/jsonparser/include/json.hpp:7175-7193 | `check_length` succeeds exactly when the bytes are there, lengths that wrap included |
| Cbor.ToCbor | lib/jsonparser/include/json.hpp:6898-7150 | the encoder appends the encoding of the value to the vector |
| Cbor.Serialize | lib/jsonparser/include/json.hpp:8004-8009 | `to_cbor` returns the encoding |
| Cbor.FromCbor | lib/jsonparser/include/json.hpp:7448-7916 | the decoder with its index by reference returns what the functional decoder does, non-finite floats becoming null, and advances the index accordingly |
| Cbor.Decode | lib/jsonparser/include/json.hpp:7448-7916 | on arbitrary bytes decoding ends with an exception or with a value and `idx_old < idx_new <= size`, also for headers that announce 2^64 items and for indefinite lengths |
| Cbor.IntegerRead | lib/jsonparser/include/json.hpp:6914-7018 | every integer of `int64_t` and `uint64_t` is read back from its shortest form |
| Cbor.DecodeEncoded | lib/jsonparser/include/json.hpp:6898-7916 | decoding at the start of an encoding inside any bytes gives the rebuilt value and the end of the encoding |
| Cbor.RoundTrip | lib/jsonparser/include/json.hpp:6898-7916 | round trip with framing for every value, any prefix and any suffix; the result is equal for `==` exactly when every float is finite |
| Cbor.InfinityLost | lib/jsonparser/include/json.hpp:7855-7909 | an infinity is encoded and comes back as null |
| MsgPack.ToMsgPack | lib/jsonparser/include/json.hpp:6652-6886 | the encoder appends the encoding of the value to the vector |
| MsgPack.Serialize | lib/jsonparser/include/json.hpp:7941-7946 | `to_msgpack` returns the encoding |
| MsgPack.FromMsgPack | lib/jsonparser/include/json.hpp:7210-7432 | the decoder with its index by reference returns what the functional decoder does, non-finite floats becoming null, and advances the index accordingly |
| MsgPack.Decode | lib/jsonparser/include/json.hpp:7210-7432 | on arbitrary bytes decoding ends with an exception or with a value and `idx_old < idx_new <= size` |
| MsgPack.UnsignedRead | lib/jsonparser/include/json.hpp:6670-6776 | every unsigned number is read back, whatever width class it is written in |
| MsgPack.NegativeNumberRead | lib/jsonparser/include/json.hpp:6708-6742 | every negative number is read back, whatever signed width class it is written in |
| MsgPack.StringHeadRead | lib/jsonparser/include/json.hpp:6789-6820 | string headers of every class below 2^32 are told apart and give the length back |
| MsgPack.ContainerHeadRead | lib/jsonparser/include/json.hpp:6822-6880 | array and map headers of every class below 2^32 are told apart and give the count back |
| MsgPack.RoundTrip | lib/jsonparser/include/json.hpp:6652-7432 | round trip with framing exactly for values in which nothing reaches 2^32 bytes, elements or members and every float is finite; in between, non-finite floats become null |
| MsgPack.InfinityLost | lib/jsonparser/include/json.hpp:7277-7298 | an infinity is encoded and comes back as null |
| Utf8.MultiByteDecodes | lib/jsonparser/include/json.hpp:10302-10413 | a multi-byte sequence in the sense of section 4 of RFC 3629 is the encoding of a scalar value |
| Utf8.EncodedIsMultiByte | lib/jsonparser/include/json.hpp:9676-9703 | the encoding of a scalar value from U+0080 on has that syntax and decodes to the same code point |
| Utf8.ComposeEncodes | lib/jsonparser/include/json.hpp:9676-9706 | the shifts and masks of `to_unicode` produce the UTF-8 encoding |
| Utf8.ToUnicodePair | lib/jsonparser/include/json.hpp:9648-9703 | a surrogate pair gives a code point in 0x10000..0x10FFFF, and the emitted bytes decode to it |
| Utf8.ToUnicodeSingle | lib/jsonparser/include/json.hpp:9648-9703 | a code point of the Basic Multilingual Plane gives its encoding |
| Scanner.StringRunIs | lib/jsonparser/include/json.hpp:10128-10413 | the string labels accept exactly the sequences of legal characters up to a quotation mark, else they go back behind the opening one |
| Scanner.MultiByteRun | lib/jsonparser/include/json.hpp:10302-10413 | the labels for multi-byte sequences accept exactly well-formed UTF-8 |
| Scanner.NumberRun | lib/jsonparser/include/json.hpp:9991-10662 | the number labels, with their backtracking, find the token of the number grammar |
| Scanner.Run51 | lib/jsonparser/include/json.hpp:10520-10566 | an exponent that is not complete makes the automaton go back to the marker |
| Scanner.TokenRun | lib/jsonparser/include/json.hpp:9796-10817 | from a non-blank byte the automaton finds exactly the token of the grammar |
| Scanner.RunIsLex | lib/jsonparser/include/json.hpp:9773-10819 | the automaton skips blanks and finds the next token, from every state of its registers |
| Lexer.SlackStep | lib/jsonparser/include/json.hpp:9830-10817 | the buffer checks of the generated code suffice: what each label reads is available |
| Lexer.Lexer.FillLineBuffer | lib/jsonparser/include/json.hpp:10849-10908 | padding keeps every pointer at its place in the text; all pointer assertions hold |
| Lexer.Lexer.Scan | lib/jsonparser/include/json.hpp:9773-10819 | `scan` returns the next token of the text; every byte it reads lies inside the buffer |
| Lexer.Lexer.GetString | lib/jsonparser/include/json.hpp:10975-11088 | the loop computes the decoded string or throws, and never reads beyond the buffer |
| Lexer.Lexer.GetUnicode | lib/jsonparser/include/json.hpp:11040-11085 | one `\u` escape, with its partner if it is a high surrogate |
| Lexer.Lexer.GetNumber | lib/jsonparser/include/json.hpp:11259-11325 | the branches of `get_number` on the memory at the start of the token |
| Strings.DecodedIsDenotation | lib/jsonparser/include/json.hpp:10975-11088 | `get_string` yields the UTF-8 encoding of the code points of the string, or throws exactly if a surrogate is not paired |
| Strings.GetStringWellFormed | lib/jsonparser/include/json.hpp:10975-11088 | for every string token `get_string` throws or returns well-formed UTF-8 |
| Strings.StringEndSpelled | lib/jsonparser/include/json.hpp:10128-10413 | what the scanner accepts as a string is a sequence of legal characters |
| Strings.SpelledStringEnd | lib/jsonparser/include/json.hpp:10128-10413 | every sequence of legal characters before a quotation mark is accepted, in only one way |
| Escape.ExtraSpaceIsExact | lib/jsonparser/include/json.hpp:8097-8128 | `extra_space` is exactly what escaping adds; it is 0 only if nothing changes |
| Escape.FillEscaped | lib/jsonparser/include/json.hpp:8152-8247 | the pre-filled buffer is filled exactly, every write in bounds, the final `pos` being `s.size() + extra_space(s)` |
| Escape.EscapeString | lib/jsonparser/include/json.hpp:8143-8248 | `escape_string`, with its early exit, returns the escaped text |
| Escape.DecodedEscape | lib/jsonparser/include/json.hpp:8143-8248 | `get_string` undoes `escape_string` on every byte string, control and zero bytes included |
| Escape.EscapeLegal | lib/jsonparser/include/json.hpp:8143-8248 | the written form is a legal string exactly when the string is well-formed UTF-8 |
| Numbers.TokenIsNumber | lib/jsonparser/include/json.hpp:9991-10662 | a number token is a number by section 6 of RFC 7159, of the kind its parts tell |
| Numbers.LongestNumber | lib/jsonparser/include/json.hpp:9991-10662 | the token is the longest prefix that is a number; it is an error exactly for a leading zero before a digit |
| Numbers.GetNumberMeaning | lib/jsonparser/include/json.hpp:11207-11325 | an integer token that fits becomes that integer, every other number a float, a float that is not finite null |
| Syntax.TreeParsed | lib/jsonparser/include/json.hpp:11396-11589 | the parser turns the tokens of a syntax tree into its meaning and stops behind them |
| Syntax.ParsedTree | lib/jsonparser/include/json.hpp:11396-11589 | whatever the parser returns is the meaning of a syntax tree of the tokens it consumed |
| Syntax.MembersParsed | lib/jsonparser/include/json.hpp:11430-11469 | of members with the same name the last one counts |
| Tokens.ScannedSpells | lib/jsonparser/include/json.hpp:9773-10819 | the text is spelled by its tokens, with blanks between them |
| Tokens.SpelledIsScanned | lib/jsonparser/include/json.hpp:9773-10819 | tokens that spell a text are what the scanner finds |
| Tokens.ParseIff | lib/jsonparser/include/json.hpp:11379-11621 | the parser accepts a buffer, and returns a value, exactly when the buffer is a JSON text by sections 2 to 7 of RFC 7159 that denotes the value |
| Tokens.WholeText | lib/jsonparser/include/json.hpp:11379-11392 | without a zero byte the whole buffer must be the text |
| Tokens.CutAtZero | lib/jsonparser/include/json.hpp:9773-10819 | the outcome is that of the buffer cut off at its first zero byte |
| Tokens.WronglyAccepted | lib/jsonparser/include/json.hpp:11379-11392 | accepted without being a JSON text are exactly the buffers with a zero byte and a JSON text before the first one |
| Tokens.ZeroByteAccepted | lib/jsonparser/include/json.hpp:9773-9800 | the bytes `31 00 78` are accepted as the number 1 |
| Parser.Parser.ParseInternal | lib/jsonparser/include/json.hpp:11396-11589 | the recursive method agrees with the parser on tokens and leaves the same tokens |
| Parser.Parser.ParseArray | lib/jsonparser/include/json.hpp:11481-11535 | the do-while loop over the elements |
| Parser.Parser.ParseObject | lib/jsonparser/include/json.hpp:11402-11479 | the do-while loop over the members |
| Parser.Parser.Parse | lib/jsonparser/include/json.hpp:11379-11392 | `parse` computes the outcome that `Tokens.ParseIff` characterises |
| Parser.ParseBuffer | lib/jsonparser/include/json.hpp:11347-11376 | `json::parse` on a buffer |
| Dump.Write | lib/jsonparser/include/json.hpp:8415-8545 | the recursive method writes the text of the value, wrapping the indentation as `unsigned int` does |
| Dump.Serialize | lib/jsonparser/include/json.hpp:2647-2661 | `dump(indent)` returns the text for every `int` |
| DumpParse.DumpSpells | lib/jsonparser/include/json.hpp:8415-8545 | the text of a value, wherever it stands, spells a syntax tree |
| DumpParse.TreeMeaning | lib/jsonparser/include/json.hpp:8415-8545 | that tree denotes the value, non-negative numbers being unsigned |
| DumpParse.MeaningUtf8 | lib/jsonparser/include/json.hpp:10975-11088 | the parser builds well-formed strings and member names only |
| DumpParse.DumpParseRoundTrip | lib/jsonparser/include/json.hpp:2647-2661 | for every value without floats and every indentation, `parse(dump(j, indent)) == j` exactly when all strings and member names are well-formed UTF-8 |

## Left out

- Patch.Session.OperationAdd: the tree is a value that is replaced, not changed through C++ references; what an operation leaves behind in the tree when it throws half-way is visible in the original only inside `patch`, which discards its copy.
- Access.UncheckedAgrees: `operator[]` with a pointer is modelled on values; a failing access that has already converted null or filled an array leaves these changes behind in the original.
- Flatten.UnflattenValue: `get_and_create` is modelled on values: assigning through the reference it returns is one step that gives the new value.
- Access.WriteThenRead: a negative or huge index of `std::stoi` is an error of kind `LengthError`, where the original tries to grow the array beyond its maximal size (and for index -1 reads outside of it).
- Patch.Session.Execute: the assertion in `operation_add` for a parent that cannot hold children is modelled as the error `AssertionFailure`; "copy" evaluates its argument before the target, an order C++ left open before C++17.
- Order.Transitivity: the condition is exact for numbers and, by `Order.ConflictShows`, for arrays that end with them; through containers in general it is sufficient, because a position behind the first difference is never compared, and numbers that are tied can still be told apart by what follows them.
- DumpParse.DumpParseRoundTrip: is stated for values without floats, because their text is made by the C library.
- Numbers.GetNumberMeaning: `strtod` is a parameter that sees the token only; the original lets it see what follows, and drops a number whose conversion stopped elsewhere, but then the next token is an error anyway.
- Lexer.Lexer.GetNumber: as there, `strtod` sees the token only, and the outcome `false` of a conversion that stopped elsewhere is absent.
- Lexer.Lexer.FillLineBuffer: reading from contiguous storage only; input streams, their line buffer and the byte-order mark are not part of this model.
- Wire.CheckLengthExact: sizes of vectors are below 2^63, as `std::vector` guarantees.
- Parser callbacks and discarded values.
- Error messages: only the kind of the exception is modelled.
- Decimal-point handling of the locale, and the text of floats.
- Iterators, allocators, hashing, conversions to and from C++ types, constructors and the other members of `basic_json`.
- Running out of memory or of stack.
- The server itself (Boost.Asio and SSL plumbing), the graph test and the headers of OGDF and COIN.
