# Verified model of the compiler's text, type and store algorithms

The repository is a C11 compiler with a language service. This project models the parts of it whose
correctness is more than bookkeeping, and proves what they are for:

- **Restartable UTF-8 and UTF-16 conversion** (`include/uchar.h`): the packed `mbstate_t` words as a
  class updated in place, proved against a specification of one call, and whole runs over texts cut
  into chunks. The diagnostic printer's second decoder and its escaper (`src/diag/diag.c`).
  Files `Unicode`, `Uchar`, `Mbstate`, `UcharStreams`, `DiagText`, `Escapes`.
- **Translation phases 1 and 2 in the language service** (`src/language_analysis.c`): the tokenizer's
  two passes over trigraphs and line splices are the reference; offset mapping, logical lines,
  conditional directives and identifier spans work on the original text and are proved to agree with
  it. Files `Phases`, `OffsetMap`, `LogicalLines`, `Conditionals`, `DirectiveKinds`,
  `IdentifierSpans`, `SpanWords`, `WordRuns`.
- **Canonical type signatures** (`src/type_signature.c`): a printer over a possibly cyclic type table.
  `TypeGraph` assigns every type a term with references to ancestors, `Signatures` gives terms their
  text, `SignatureDecoding` shows that the text determines the term, `Faces` which fields of a type are
  told, `Unfoldings` what equal signatures mean, `Repetitions` which types they tell apart that are not
  different, `SignatureFailures` which types have none, `SignatureExamples` what they look like, and
  `SignatureWriter` (with `TextWriters` and `Decimals`) that the writer prints that text.
- **C declarator printing** (`src/type_display.c`): `Declarators` gives declarators the meaning of
  section 6.7.6 of C11, `DeclaratorGrammar` is a reader of the grammar, `DeclaratorReading` proves that
  it reads what is printed, `DeclaratorEdges` and `DeclaratorRefusals` which texts C does not read,
  `DeclaratorWriter` models the growing fragment and the two formatters, and `DeclaratorTables` says
  what their text tells of the type table.
- **Stores**: the bounded diagnostic records (`DiagRecords`) and the project index (`Snapshots`,
  `ProjectEntries`, `ProjectIndex`).
- **Layouts and sized writers**: type layout (`TargetInfo`, `TypeLayouts`), JSON snapshots (`Json`,
  `SnapshotJson`, `JsonWriter`, `SnapshotFields`, `JsonUtf8`), and comment normalization (`CommentText`, `CommentWriter`).

`Options` and `Prefixes` hold two small shared notions. `dafny verify dfyconfig.toml` checks everything.

A class stands for a C struct whose fields the code updates; a method stands for code with loops and
is proved against a function; theorems are lemmas about those functions. Texts are strings of bytes
(`Unicode` and its users use numbers below 256). Trigraph processing is the parameter `tri`.

## What turned out not to hold

Each of these is a lemma with a concrete input, next to a lemma that says exactly when the code does
what it should.

- `mbrtoc16` and `mbrtoc32` answer -2 after E0 80 and three more kinds of byte pairs although no
  character starts with them; section 7.28.1 of C11 reserves -2 for potentially valid input
  (`Uchar.IncompleteButHopeless`, `Uchar.IncompleteDecodes`). The error is reported with the last byte
  of the announced length, or with an earlier byte that is no tail (`Uchar.HopelessIsRejectedLast`).
- The diagnostic escaper does not escape a backslash, so a line feed and the escape for it are written
  alike (`Escapes.EscapingIsLossy`). What is written for a text is written for no other exactly when
  the text needs no escaping and no backslash in it starts an escape (`Escapes.WrittenUniquelyIff`).
  Texts in which no backslash starts an escape are told apart from each other
  (`Escapes.EscapingIsInjective`).
- An identifier that is interrupted by two line splices in a row is found as two identifiers
  (`SpanWords.TwoSplicesCutAName`). The span found is the whole word exactly when no two neighbouring
  bytes of the word are separated by two splices or more (`WordRuns.SpanIsWordIff`).
- The signature of a qualified function type is that of the function type with a qualified result
  (`SignatureDecoding.QualifiedFunctionIsAmbiguous`). C has no qualified function types, and the
  theorems about equal signatures ask for tables without them.
- Types with the same unfoldings can have different signatures: after `struct S; typedef struct S *P;
  struct S { P p; };` an inner `struct S { P p; };` unfolds like the outer one and is signed
  differently (`Repetitions.RedeclaredStructuresDiffer`). Against a type on whose ways down no two
  types have the same unfolding, another type with the same unfolding has the same signature exactly
  when the same holds for it (`Repetitions.SameTreesSameSignatureIff`).
- `typedef int *_Atomic AP; AP (*a)[];` is printed as `int * _Atomic (*a)[]`, where C takes `_Atomic (`
  for a type specifier (`DeclaratorRefusals.AtomicPointersAreLost`), and a list with nothing but an
  ellipsis as `(...)` (`DeclaratorRefusals.BareEllipsisIsLost`). A printed type is read back by C
  exactly when all its tags are words, no pointer whose last qualifier is `_Atomic` stands in front of
  a parenthesis, and no list has an ellipsis only (`DeclaratorRefusals.ReadsBackIff`); a parameter list
  with one parameter of type `void` is then read as `(void)` (`DeclaratorReading.LoneVoidIsLost`).
  Reading means the syntax of section 6.7.6; a constraint such as that on `[*]` outside a prototype
  (section 6.7.6.2, paragraph 4) is not checked.
- The search for the directive that opened a group does not see a `#` spelled `%:`
  (`DirectiveKinds.DigraphIsMissed`) or as a trigraph, nor a comment delimiter with a splice inside
  (`DirectiveKinds.SplitCloserHidesDirective`). On every line in which no end of a comment is split it
  finds the directive of the normalized line, or none where the line is misread
  (`DirectiveKinds.KindAgrees`).
- A message is cut to the size of its record without regard to characters, and the JSON writer copies
  what is left (`JsonUtf8.CutMessageIsNotUtf8`, `JsonUtf8.MessageSpoilsDocument`), while section 8.1 of
  RFC 8259 asks for UTF-8. The document is UTF-8 exactly when all strings in it are
  (`JsonUtf8.TextIsUtf8Iff`).

## Model

| member | source | states |
|---|---|---|
| Unicode.Utf8 | include/uchar.h:132-161 | the octets of a scalar: one of the well-formed sequences of the ABNF in section 4 of RFC 3629, and the code point read from them is the scalar |
| Unicode.Utf8IsOnto | include/uchar.h:48-84 | every well-formed UTF-8 character is the encoding of the scalar it stands for |
| Unicode.PrefixCode | include/uchar.h:48-84 | two texts that start with a character each and are equal start with the same character and go on alike |
| Unicode.Utf8AllInjective | include/uchar.h:132-161 | different sequences of scalars have different UTF-8 |
| Uchar.Unpack | include/uchar.h:56-63 | byte i of the packed word is the i-th byte stored in it |
| Uchar.PackAppend | include/uchar.h:117-118 | or-ing a shifted byte into the word appends it to the bytes stored |
| Uchar.ValueCheckIsRangeCheck | include/uchar.h:56-84 | rejecting by the decoded value is rejecting by the byte ranges of RFC 3629, and what is accepted has the right value |
| Uchar.Scan | include/uchar.h:86-130 | an accepted text starts with a well-formed character, of this value and this length |
| Uchar.ScanAccepts | include/uchar.h:86-130 | no well-formed character is rejected, neither whole nor cut short |
| Uchar.ScanIsStable | include/uchar.h:86-130 | a text that was accepted or rejected stays so whatever follows |
| Uchar.IncompleteIsCompletable | include/uchar.h:110-121 | bytes the scan asks more for start some character exactly when they do not begin with one of the four kinds of byte pairs the decoder does not look at |
| Uchar.IncompleteButHopeless | include/uchar.h:110-121 | the pair E0 80 is answered with -2 although no character starts with it |
| Uchar.IncompleteDecodes | include/uchar.h:86-130 | after a call answered with -2 the state holds all bytes received, and they start some character exactly when they do not begin with one of the four kinds of byte pairs |
| Uchar.HopelessIsRejectedLast | include/uchar.h:110-125 | once such a pair is held, a call asks for more exactly while tails come and the announced length is not reached, and reports an error otherwise; no character is delivered |
| Uchar.Decode | include/uchar.h:86-130 | the state stays valid over every call, and a stored value is a scalar |
| Uchar.Mbrtoc16 | include/uchar.h:163-190 | the state stays valid over every call, whatever is pending in it |
| Uchar.C16rtomb | include/uchar.h:192-222 | the state stays valid over every call |
| Uchar.StoredConsumes | include/uchar.h:110-129 | a completed character uses at least one byte of the call that completes it, and is the character the bytes kept and the new ones begin with |
| Mbstates.Mbstate.Reset | include/uchar.h:40-46 | the state is the initial one |
| Mbstates.Mbstate.ReadTails | include/uchar.h:110-121 | the loop over the tails decides exactly as the scan of all bytes received, and packs them |
| Mbstates.Mbstate.DecodeInPlace | include/uchar.h:86-130 | updating the words in place gives the state, the returned code and the stored value of the specification |
| Mbstates.Mbstate.Mbrtoc16InPlace | include/uchar.h:163-190 | updating the words in place gives the state, the returned code and the stored unit of the specification |
| Mbstates.Mbstate.C16rtombInPlace | include/uchar.h:192-222 | the words and the buffer afterwards: the octets at its front, the rest as it was, or nothing written |
| Mbstates.Mbstate.C32rtombInPlace | include/uchar.h:231-247 | a pending state is refused and reset; otherwise the octets of the scalar are written, and nothing for another value |
| Mbstates.ShiftedOctetsAreUtf8 | include/uchar.h:141-160 | shifting and masking each octet on its own gives the encoding |
| Mbstates.Encode | include/uchar.h:132-161 | the buffer holds the encoding in front of what it held, for scalars only |
| UcharStreams.TwoCalls | include/uchar.h:86-130 | two calls in a row decide what one call on the joined bytes decides, with the consumed bytes adding up |
| UcharStreams.ChunkInvariance | include/uchar.h:86-130 | however a text is cut into calls, empty ones included, the final state, outcome and total consumption are those of one call |
| UcharStreams.CollectIsTranscode | include/uchar.h:163-190 | a caller's whole run over chunks gives what the stateless conversion of the whole text gives, from any valid state |
| UcharStreams.TranscodeAcceptsOnlyUtf8 | include/uchar.h:48-84 | a run that finishes was fed the UTF-8 of some scalars: overlong forms, surrogates and values out of range are rejected |
| UcharStreams.Mbrtoc16Stream | include/uchar.h:163-190 | a run over any chunks finishes exactly for UTF-8 text, and then collects its UTF-16 units |
| UcharStreams.CallerIsCollect | include/uchar.h:163-190 | the numbers that are returned and stored tell a caller all that a conversion comes to |
| UcharStreams.CallerStream | include/uchar.h:163-190 | a caller that sees only the results of mbrtoc16 and the stored units gets all of the UTF-16 of a text in any chunks, exactly if it is UTF-8 |
| UcharStreams.Caller32Stream | include/uchar.h:86-130 | the same for mbrtoc32 and the scalars of the text |
| UcharStreams.NullStartsAnew | include/uchar.h:92-95 | a null pointer is answered with 0, stores nothing, and what follows is converted from the initial state |
| UcharStreams.CollectAcceptsOnlyUtf16 | include/uchar.h:192-222 | a run over units that finishes was fed the UTF-16 of some scalars |
| UcharStreams.C16rtombStream | include/uchar.h:192-222 | a run over units finishes exactly for UTF-16 text, and then gives its UTF-8 |
| UcharStreams.RefusalStartsAnew | include/uchar.h:200-219 | after a refused unit what follows is converted like a text of its own |
| UcharStreams.RoundTrip | include/uchar.h:163-222 | what mbrtoc16 makes of a text in any chunks, c16rtomb turns into the text again |
| DiagText.DecodeOneIsScan | src/diag/diag.c:356-394 | the decoder that checks byte ranges accepts what the scan accepts, with value and length |
| DiagText.DecodersAgree | src/diag/diag.c:356-394 | the two decoders accept the same byte strings, with the same value and the same length |
| DiagText.Escape | src/diag/diag.c:402-456 | the loop writes the escaped text and returns its length |
| DiagText.EscapeRound | src/diag/diag.c:406-454 | one round of the loop: the piece for what stands at the cursor, and how far it moves |
| DiagText.EscapedIsClean | src/diag/diag.c:402-456 | for every byte string the output is UTF-8 without control or bidirectional control characters |
| DiagText.CleanIsKept | src/diag/diag.c:444-446 | text that is clean already is written as it is |
| DiagText.EscapedIffNeeded | src/diag/diag.c:402-456 | the output equals the input exactly when the input is clean |
| DiagText.EscapeSays | src/diag/diag.c:409-454 | an escape names what it stands for: a letter for three controls, else the byte or the code point in hexadecimal digits |
| DiagText.Hex2ReadsBack | src/diag/diag.c:427 | two digits are read back as the byte |
| DiagText.Hex4ReadsBack | src/diag/diag.c:436-437 | four digits are read back as the code point |
| DiagText.HiddenIff | src/diag/diag.c:435 | hidden are the controls of ASCII and Latin-1 and the twelve characters with the property Bidi_Control |
| DiagText.EscapingTwice | src/diag/diag.c:402-456 | escaping twice is escaping once |
| Escapes.EscapingIsLossy | src/diag/diag.c:402-456 | a backslash is not escaped: a line feed, a text without any, is written like the escape for it |
| Escapes.PieceIsEscape | src/diag/diag.c:406-454 | what is written instead of other bytes is one of the escapes listed, each a backslash and printable characters |
| Escapes.EscapeIsWritten | src/diag/diag.c:406-454 | every such escape is written for some shorter bytes, in front of any clean text |
| Escapes.WrittenUniquelyIff | src/diag/diag.c:402-456 | what is written for a text is written for no other exactly when the text is clean and no backslash in it starts an escape |
| Escapes.EscapingIsInjective | src/diag/diag.c:402-456 | among texts in which no backslash starts an escape no two are written alike |
| Escapes.PlainIsHarmless | src/diag/diag.c:402-456 | texts without a backslash are among them |
| Phases.SpliceSize | src/language_analysis.c:198-222 | a splice is 2 to 5 bytes that end in a line feed, more than 3 only with trigraphs |
| Phases.SpliceAfterPhaseOne | src/language_analysis.c:198-222 | phase 1 puts a splice at the front of a text exactly when the original bytes hold one, plain or spelled with a trigraph |
| Phases.TrigraphsAre | src/tokenizer/trigraph.c:25-55 | the nine trigraphs of section 5.2.1.1 of C11, and no other |
| Phases.SplicesAre | src/tokenizer/tokenizer.c:620-673 | a splice is a backslash and a line feed, with a return between them or not |
| Phases.OnePassIsNormalize | src/tokenizer/tokenizer.c:620-673 | reading the original once, element by element, gives what the tokenizer's two passes give |
| Phases.NormalizeStep | src/tokenizer/trigraph.c:25-55 | normalizing goes element by element |
| OffsetMap.CutBetween | src/language_analysis.c:6460-6489 | cutting a source between two elements cuts its normalized text in two |
| OffsetMap.OriginalOffset | src/language_analysis.c:6460-6489 | the loop finds the offset of the specification, or none |
| OffsetMap.LocateIsRightInverse | src/language_analysis.c:6460-6489 | the original text in front of the mapped offset normalizes to exactly the normalized text in front of it, and likewise behind; only offsets past the end have no original |
| OffsetMap.LocateIsExtreme | src/language_analysis.c:6470-6481 | with the flag set the map picks the last place with that many normalized bytes in front, without it the first |
| OffsetMap.NotAtSplice | src/language_analysis.c:6470-6477 | with the flag set the map never stops in front of a splice |
| OffsetMap.StrictlyMonotone | src/language_analysis.c:6460-6489 | a later normalized offset has a later original, whatever the flags |
| OffsetMap.RangeNormalizesBack | src/language_analysis.c:6491-6519 | the original range normalizes to exactly the normalized range, is empty only if that is, and no range between elements for the same bytes is tighter |
| OffsetMap.RangeIsPlaced | src/language_analysis.c:6491-6519 | in front of and behind every range found, an empty one as well, stands what normalizes to the text in front and behind; an empty one is behind all that is removed there |
| OffsetMap.SourceNeedsOffsetMapping | src/language_analysis.c:6430-6443 | the scan answers whether there is a splice or a trigraph |
| OffsetMap.NeedsMappingIffChanged | src/language_analysis.c:6430-6443 | it answers yes exactly for the sources that normalizing changes |
| OffsetMap.IdentityWhenUnchanged | src/language_analysis.c:6501-6507 | where nothing changes, the map is the identity: the fast path agrees with the slow one |
| OffsetMap.OriginalRange | src/language_analysis.c:6491-6519 | the answer of both paths: the range of the map, or the same offsets where the text is the original |
| LogicalLines.SplicesDisjoint | src/language_analysis.c:198-222 | no byte belongs to two splices |
| LogicalLines.SpliceBeforeIsComplete | src/language_analysis.c:224-237 | looking for a splice from behind finds it whenever there is one in front |
| LogicalLines.LineSpliceBefore | src/language_analysis.c:224-237 | the loop over the four sizes finds the splice that ends there |
| LogicalLines.LogicalLineStart | src/language_analysis.c:357-370 | the backward scan stops at the start of the line that holds the cursor |
| LogicalLines.LogicalLineEnd | src/language_analysis.c:460-475 | the forward scan stops at the end of the line that starts there |
| LogicalLines.ScansAgree | src/language_analysis.c:357-370 | between a start and the end found for it, the backward scan leads every offset to that start and to no other |
| LogicalLines.LinesAreAdjacent | src/language_analysis.c:460-475 | the next line starts where this one ends |
| LogicalLines.FirstLineNormalizes | src/language_analysis.c:460-475 | a logical line normalizes to one line: up to and including its first line feed, or all of it |
| LogicalLines.LinesOfNormalizedText | src/language_analysis.c:460-475 | the logical lines of a source are the lines of its normalized text, one by one |
| LogicalLines.FirstLineIsEndOf | src/language_analysis.c:460-475 | the scan of the rest of a text from a line start finds the same line |
| Conditionals.SkipDirectiveSpacing | src/language_analysis.c:574-602 | the loop skips blanks, splices and comments as specified |
| Conditionals.MatchDirectiveWord | src/language_analysis.c:391-409 | the loop matches a word with splices inside as specified |
| Conditionals.OpenAfterLine | src/language_analysis.c:652-684 | reading one more line is one more step of the stack |
| Conditionals.CounterStep | src/language_analysis.c:664-681 | one step of the nesting counter, backwards, undoes one step of the stack |
| Conditionals.MatchingConditionalOpener | src/language_analysis.c:652-684 | the backward search returns exactly the directive on top of the stack of a forward reading, or none, whatever #endif lines are too many |
| DirectiveKinds.SpacingIsRaw | src/language_analysis.c:574-602 | what the code skips on a line is what the same reading of the line alone skips |
| DirectiveKinds.TailAgrees | src/language_analysis.c:589-598 | where no end of a comment is split, the comment ends at the same place in the source and in the normalized text |
| DirectiveKinds.SpacingAgrees | src/language_analysis.c:574-602 | spacing and comments end at the same place in both, unless the opening of a comment is split |
| DirectiveKinds.NameAgrees | src/language_analysis.c:391-409 | a name is matched in the source exactly when the normalized text starts with it, and what follows is the same |
| DirectiveKinds.KindAgrees | src/language_analysis.c:604-650 | on a line that no comment runs into, and in which no end of a comment is split, the kind is that of the directive on the normalized line, or none where the `#` or a comment opening is hidden |
| DirectiveKinds.KindsAgreeIff | src/language_analysis.c:604-650 | the two kinds differ exactly where a directive is hidden |
| DirectiveKinds.OpenDirectivesAgree | src/language_analysis.c:652-684 | where all lines are read right, the directives open at a line are those of the normalized lines in front of it |
| DirectiveKinds.DigraphIsMissed | src/language_analysis.c:604-650 | a conditional opened with `%:` is not seen |
| DirectiveKinds.SplitCloserHidesDirective | src/language_analysis.c:589-598 | a splice inside the end of a comment hides the directive behind it |
| IdentifierSpans.NextPrev | src/language_analysis.c:270-295 | stepping forwards and backwards through a span are inverse |
| IdentifierSpans.LastOfFirst | src/language_analysis.c:270-295 | all bytes of a span have the same first and last byte |
| IdentifierSpans.SpanAt | src/language_analysis.c:239-316 | a span is found exactly where the cursor touches an identifier: from its first byte to behind its last; it is that identifier, and none is found elsewhere |
| IdentifierSpans.SelectAt | src/language_analysis.c:243-268 | the byte a cursor selects: under it, in front of it, or in front of a splice around it |
| IdentifierSpans.SelectedIff | src/language_analysis.c:243-268 | a byte is selected exactly where some identifier is touched, and it is a byte of that one |
| IdentifierSpans.IdentifierBytesAre | src/language_analysis.c:170-171 | the bytes of identifiers are the letters, the digits, the underscore, and the bytes of characters beyond ASCII |
| IdentifierSpans.ScanStart | src/language_analysis.c:270-282 | the backward scan ends at the first byte of the span |
| IdentifierSpans.ScanEnd | src/language_analysis.c:284-295 | the forward scan ends behind the last byte of the span |
| IdentifierSpans.CountBytes | src/language_analysis.c:297-309 | the count is the length of the span's normalized text |
| IdentifierSpans.SpanMatches | src/language_analysis.c:318-340 | a span matches a name exactly when the span's normalized text is the name |
| IdentifierSpans.SameSpanEverywhere | src/language_analysis.c:239-316 | the span found at a cursor is the span found at every cursor inside it and at its end |
| WordRuns.SpanIsInWord | src/language_analysis.c:239-316 | the span found for a byte is cut out of the normalized text and is a part of the word, the maximal run of identifier bytes, around that byte |
| WordRuns.SpanIsWordIff | src/language_analysis.c:239-316 | the span found for a byte is the whole word around it exactly when no two neighbouring bytes of the word are separated by two splices or more |
| SpanWords.CutByTwoSplices | src/language_analysis.c:270-295 | where the word goes on behind an end of the span, at least two splices follow each other there |
| SpanWords.TwoSplicesCutAName | src/language_analysis.c:270-295 | an identifier over two adjacent splices is found as two |
| TypeGraph.Distance | src/type_signature.c:23-31 | the distance of a type on the path, to its nearest occurrence, or -1 |
| TypeGraph.BuildInjective | src/type_signature.c:132-276 | what is printed about a type itself and about the types it refers to can be told from the node |
| TypeGraph.LabelFits | src/type_signature.c:132-276 | every shape refers to as many types as its label says |
| TypeGraph.TermsOfAt | src/type_signature.c:225-231 | the terms of a list of types are those of its types, one by one |
| Signatures.HoistKeepsText | src/type_signature.c:116-124 | moving the qualifiers of a function type to its result does not change the text |
| Signatures.HoistPlain | src/type_signature.c:116-124 | where no function type is qualified there is nothing to move |
| SignatureDecoding.LeafCancels | src/type_signature.c:133-204 | two texts that start with leaves and are equal start with the same leaf and go on alike |
| SignatureDecoding.SpineDetermines | src/type_signature.c:216-242 | the innermost result and the parameter lists around it determine a function type |
| SignatureDecoding.TermsCancel | src/type_signature.c:107-277 | two texts that start with terms and are equal start with the same term and go on alike; the result of a function stands in front |
| SignatureDecoding.MembersCancel | src/type_signature.c:279-334 | the same for the members of a record |
| SignatureDecoding.ArgumentsCancel | src/type_signature.c:222-241 | the same for parameter lists, ellipsis included |
| SignatureDecoding.SameTextIffSameHoisted | src/type_signature.c:107-277 | two terms print alike exactly when they agree once qualifiers of function types are counted to their results |
| SignatureDecoding.TextDeterminesTerm | src/type_signature.c:107-277 | where no function type is qualified, the text determines the term |
| SignatureDecoding.QualifiedFunctionIsAmbiguous | src/type_signature.c:107-277 | a qualified function type prints like the function type with a qualified result |
| Unfoldings.SameTermSameTree | src/type_signature.c:125-131 | equal terms below paired ancestors unfold to equal trees; a reference is followed to the ancestor it names |
| Faces.FacesAgreeIff | src/type_signature.c:132-276 | the face of a type is the same exactly for types that agree in constructor, integer kind, sign apart from plain char, floating kind, complexity, positive length, ellipsis, struct or union, tag and all member fields; tags of anonymous records and generated tags of enumerations are left out |
| Faces.LabelsAgreeIff | src/type_signature.c:132-276 | of two types, of whatever targets, the same is printed exactly if they have the same face, widths included |
| Faces.ShapesPrintAlikeIff | src/type_signature.c:132-276 | for one target the same is printed exactly for types that agree in these fields |
| Faces.GeneratedTags | src/type_signature.c:74-86 | a generated tag is the prefix and a number |
| Unfoldings.EqualSignaturesEqualUnfoldings | src/type_signature.c:107-352 | types with equal signatures, of any two tables and targets, unfold to the same tree of faces and qualifiers at every depth |
| SignatureFailures.SignatureIff | src/type_signature.c:107-352 | a type has a signature exactly when no way down from it leads to a type that is not in the table, a floating type of no kind, or a member with a malformed alignment |
| SignatureExamples.IntegerSignatures | src/type_signature.c:141-179 | the signatures of all integers on the host, letter by letter |
| SignatureExamples.OtherScalarSignatures | src/type_signature.c:133-163 | the signatures of void, bool and plain char |
| SignatureExamples.FloatingSignatures | src/type_signature.c:182-198 | the signatures of all floating types on the host; none for a floating type of no kind |
| SignatureExamples.EnumSignatures | src/type_signature.c:146-162 | the signature of an enumeration has its tag, its sign and its width |
| SignatureExamples.PointerSignature | src/type_signature.c:116-124 | the signature of a qualified pointer to a qualified int |
| SignatureExamples.ArraySignature | src/type_signature.c:200-214 | the signature of an array, VLA or not |
| SignatureExamples.FunctionSignature | src/type_signature.c:216-242 | the signature of a function: result, parameters in order, ellipsis |
| SignatureExamples.RecordSignatures | src/type_signature.c:244-271 | the signatures of a structure with an aligned member, of an incomplete union and of an undeclared structure |
| SignatureExamples.AnonymousSignature | src/type_signature.c:248-256 | the signature of an anonymous union with a bit-field and a second member |
| SignatureExamples.ListSignature | src/type_signature.c:125-131 | the signature of a list, whose pointer names the record around it |
| SignatureExamples.AllLetters | src/type_signature.c:116-124 | the letters of all qualifiers in their order |
| Repetitions.SignatureIsComplete | src/type_signature.c:107-352 | for types on whose ways down no two types have the same unfolding, signatures are equal exactly for types with the same unfoldings |
| Repetitions.EqualSignaturesRepeatAlike | src/type_signature.c:125-131 | of two types with the same signature, both or none meet two types with the same unfolding on a way down |
| Repetitions.SameTreesSameSignatureIff | src/type_signature.c:107-352 | a type has the signature of a type with the same unfoldings that meets no two alike exactly when it meets none itself |
| Repetitions.ReducedIsUnrepeated | src/type_signature.c:125-131 | in a table without duplicates no way down meets two types alike |
| Repetitions.RedeclaredStructuresDiffer | src/type_signature.c:125-131 | a structure and its redeclaration in an inner scope have the same unfoldings and different signatures |
| Unfoldings.RenamedTerm | src/type_signature.c:107-277 | renaming the ids of a table changes no term |
| Unfoldings.SignatureIgnoresIds | src/type_signature.c:336-352 | renaming the ids of a table changes no signature |
| Unfoldings.TermIsScoped | src/type_signature.c:125-131 | every printed distance names one of the nodes around it |
| TextWriters.PutPut | src/type_signature.c:33-48 | writing piece by piece is writing the whole, overflow included |
| TextWriters.TextWriter.WriteBytes | src/type_signature.c:33-48 | the text taken grows by the piece or the writer fails; the buffer holds as much of it as fits |
| TextWriters.TextWriter.WriteUnsigned | src/type_signature.c:54-63 | the decimal numeral is written |
| TextWriters.TextWriter.WriteSigned | src/type_signature.c:65-72 | the signed numeral is written, for the smallest int as well |
| TextWriters.TextWriter.Finish | src/type_signature.c:345-351 | the terminator is inside the buffer, behind a prefix of the text; the answer is the length or -1 |
| TextWriters.DigitsOf | src/type_signature.c:56-61 | the digits of every 32-bit number, the last one first, fit the 16 places |
| SignatureWriter.PathFits | src/type_signature.c:125-131 | a path visits a type at most once, so distances fit 32 bits |
| SignatureWriter.PathDistance | src/type_signature.c:23-31 | the loop computes the distance |
| SignatureWriter.ArgumentsArePut | src/type_signature.c:224-241 | commas in front of all but the first write the list of the specification |
| SignatureWriter.MembersArePut | src/type_signature.c:299-333 | the loop over the members writes their text and fails exactly when one is malformed or has no term |
| SignatureWriter.WriteQualifiers | src/type_signature.c:116-124 | the letters of the qualifiers are written |
| SignatureWriter.WriteType | src/type_signature.c:107-277 | what is written for a type is the text of its term; it fails exactly when there is none or it is too long |
| SignatureWriter.WriteNode | src/type_signature.c:132-276 | the same for one node, for every shape |
| SignatureWriter.WriteRecordBody | src/type_signature.c:279-334 | the members of a record are written |
| SignatureWriter.Format | src/type_signature.c:336-352 | the answer is the length of the signature or -1, with a buffer and without; the buffer holds a terminated prefix |
| Declarators.DeclareKeepsMeaning | src/type_display.c:203-294 | every step of the printer's walk keeps what the declarator under construction declares |
| Declarators.PrintedDeclaratorDenotes | src/type_display.c:194-294 | the finished declarator, applied to the base type, denotes by section 6.7.6 of C11 the type that was printed |
| Declarators.DeclareIsMinimal | src/type_display.c:98-104 | parentheses stand around pointers that a suffix is applied to, and nowhere else |
| Declarators.AroundIsRendered | src/type_display.c:98-130 | the text the printer extends at both ends is the text of the declarator, and its flag says whether that starts with a pointer |
| DeclaratorReading.ReadPointerQualifiers | src/type_display.c:119-130 | the qualifiers of a pointer are read back; strictly, unless the last of them is `_Atomic` and a parenthesis follows |
| DeclaratorReading.QualifiersInOrder | src/type_display.c:119-139 | all qualifiers of a base and of a pointer, in their order |
| DeclaratorReading.ReadSpecifierBack | src/type_display.c:142-192 | the specifier of a base type is read back |
| DeclaratorReading.FilledIsRendered | src/type_display.c:297-311 | putting the name in the place of the hole, or nothing and dropping the blank in front, gives the declarator with that name |
| DeclaratorReading.TypeTextIsRendered | src/type_display.c:194-315 | the text of a type is its base and the declarator that denotes it |
| DeclaratorEdges.DeclareParses | src/type_display.c:203-294 | whether the finished declarator is one that C reads is told by walking along the type |
| DeclaratorEdges.RenderEdge | src/type_display.c:98-130 | what the text of a declarator starts with: a parenthesis exactly where the walk says so |
| DeclaratorReading.ReadDeclaratorBack | src/type_display.c:194-315 | the grammar reads a printed declarator as that declarator; strictly, if it is one that C reads |
| DeclaratorReading.ReadTypeBack | src/type_display.c:194-315 | the grammar reads the text of a type or declaration as that type, under the same condition |
| DeclaratorReading.PrintedTypeReadsBack | src/type_display.c:194-315 | the same for every type with proper tags, `(void)` read as C reads it |
| DeclaratorRefusals.AtomicStops | src/type_display.c:119-130 | in front of a parenthesis the last qualifier `_Atomic` of a pointer is not read as one |
| DeclaratorRefusals.TypeIsRefused | src/type_display.c:194-315 | a printed type with an atomic pointer in front of a parenthesis, or with a list of an ellipsis only, is not read at all |
| DeclaratorRefusals.ReadsBackIff | src/type_display.c:194-315 | C reads a printed type back exactly when no tag in it is missing or no word, no pointer with `_Atomic` as its last qualifier is printed in front of a parenthesis, and no list has an ellipsis only |
| DeclaratorRefusals.LenientlyReadBackIffSpelled | src/type_display.c:150-186 | a reader that is lenient on the last two reads a printed type back exactly when no tag in it is missing or no word |
| DeclaratorRefusals.AtomicPointersAreLost | src/type_display.c:98-130 | a pointer to an array of atomic pointers is printed as a text that is no declaration |
| DeclaratorRefusals.BareEllipsisIsLost | src/type_display.c:277-284 | a list with an ellipsis only is printed as a text that is no type name |
| DeclaratorReading.SameTextIffSameType | src/type_display.c:194-315 | two types have the same text exactly when they are the same type to C |
| DeclaratorReading.LoneVoidIsLost | src/type_display.c:236-244 | a list with one parameter of type void prints like the empty one |
| DeclaratorWriter.Fragment.Reserve | src/type_display.c:42-58 | the buffer doubles until the text fits, which is kept |
| DeclaratorWriter.Fragment.Append | src/type_display.c:68-83 | the text grows at its end, or not at all when it would be too long |
| DeclaratorWriter.Fragment.Prepend | src/type_display.c:85-96 | the text grows at its front, or not at all |
| DeclaratorWriter.Fragment.WrapForPostfix | src/type_display.c:98-104 | parentheses are added exactly for a fragment that starts with a pointer |
| DeclaratorWriter.Fragment.AppendNumber | src/type_display.c:106-117 | the numeral is appended |
| DeclaratorWriter.Fragment.PrependPointer | src/type_display.c:119-130 | the star and its qualifiers are put in front |
| DeclaratorWriter.WriteSpecifier | src/type_display.c:142-192 | the specifier of a base type is written |
| DeclaratorWriter.WriteFilled | src/type_display.c:300-311 | the last pass writes the fragment with its hole filled |
| DeclaratorWriter.FormatParameter | src/type_display.c:248-276 | measuring a parameter and writing it into a buffer of that size appends its text |
| DeclaratorWriter.AppendList | src/type_display.c:243-284 | the loop over the parameters appends the list, and fails exactly when a parameter has no text or it gets too long |
| DeclaratorWriter.FormatType | src/type_display.c:194-315 | the text of the type, or failure exactly when an id is unknown, parameter lists nest too deep, or a text is too long |
| DeclaratorWriter.Format | src/type_display.c:317-346 | the length of the text or -1; the buffer holds a terminated prefix, and is terminated after -1 as well |
| DeclaratorWriter.FormattedReadsBack | src/type_display.c:317-346 | C reads what was formatted back as the type in the table exactly when its tags are words, no atomic pointer is printed in front of a parenthesis, and no list has an ellipsis only |
| DeclaratorTables.TypeOfDescribes | src/type_display.c:194-294 | the type that is printed is the one that says what the table says: pointers with their qualifiers, lengths or VLA marks, the parameters one by one with prototype and ellipsis, and the kind, sign or tag at the end |
| DeclaratorTables.DescribedOnce | src/type_display.c:194-294 | there is only one such type |
| DeclaratorTables.FormattedIff | src/type_display.c:194-315 | a use is formatted exactly when such a type exists, with parameters nested at most 64 deep and texts that are not too long |
| DeclaratorTables.FormattedTells | src/type_display.c:317-346 | what is formatted is the text of the type that says what the table says, and C reads it as that type under the exact condition |
| DeclaratorTables.FormattedAlikeIff | src/type_display.c:317-346 | two uses, of whatever tables, are formatted alike exactly when C takes what the tables say for the same type |
| DiagRecords.KeepsWhatFits | src/diag/diag.c:133-178 | with limits enforced a run keeps the longest prefix of its reports that fits both limits, and nothing where more is kept already than they allow; the refusal says whether it is all of them and which limit cut it |
| DiagRecords.RefusalLasts | src/diag/diag.c:141-154 | once refused, nothing more is kept and the reason stands |
| DiagRecords.KeepsFirstRecords | src/diag/diag.c:142-145 | without enforced limits the first records are kept and no reason is given |
| DiagRecords.Store.ReserveRecord | src/diag/diag.c:112-131 | below the limit there is always room for one more, and moving to a larger array keeps all records and totals |
| DiagRecords.Store.Append | src/diag/diag.c:156-178 | the record is stored, clipped, and both totals stay the sums over what is kept |
| DiagRecords.StoredIsRecord | src/diag/diag.c:156-178 | a record has severity, range and source name of the report, at most 7 characters of its code and at most 2047 of its message |
| DiagRecords.ErrorsAreCounted | src/diag/diag.c:172-176 | the error count is the number of reports of severity 1 |
| DiagRecords.BytesAreCounted | src/diag/diag.c:147-178 | the byte total counts codes, source names and messages as they are kept |
| DiagRecords.Store.Report | src/diag/diag.c:133-178 | one report is kept or refused exactly as specified |
| DiagRecords.ReportAll | src/diag/diag.c:133-178 | a whole run of reports on a store leaves the contents specified for the run, and as many are stored as were accepted |
| DiagRecords.Store.Reset | src/diag/diag.c:226-236 | nothing is kept, no refusal stands, the limits remain |
| DiagRecords.Store.SetLimits | src/diag/diag.c:283-291 | positive limits are enforced from now on; others change nothing |
| DiagRecords.Store.RecordAt | src/diag/diag.c:293-297 | records are found by index, and only those kept |
| ProjectEntries.NamesAreTheExported | src/language_analysis.c:9361-9382 | a name is in the index exactly when some exported function has it |
| ProjectEntries.NamesAreDistinct | src/language_analysis.c:9222-9230 | no name is in the index twice |
| ProjectEntries.ExportedIff | src/language_analysis.c:9366-9373 | exported are the functions of scope depth 0 that are not static, all of them and no other |
| ProjectEntries.DeclarationIsTheFirst | src/language_analysis.c:9286-9323 | the declaration of an entry is that of the first symbol of its name |
| ProjectEntries.DefinitionsAreTheUnion | src/language_analysis.c:9325-9359 | an entry holds exactly the definitions that exported functions of its name bring, none twice |
| ProjectEntries.SameRangeIff | src/language_analysis.c:9162-9169 | ranges are one where source, start and end are |
| ProjectEntries.DefinitionsAreThose | src/language_analysis.c:9382-9397 | an entry holds the candidates of its symbols, and the single definition of a symbol without any |
| ProjectEntries.DocumentationIsTheFirstBest | src/language_analysis.c:9258-9283 | the documentation is that of the first symbol of the name with the highest priority |
| ProjectEntries.PrototypeWins | src/language_analysis.c:9236-9283 | the documentation of the first prototype that has one is kept, whatever definitions are documented |
| ProjectEntries.DefinitionIsKept | src/language_analysis.c:9236-9283 | where only definitions are documented, the first of them is kept |
| ProjectEntries.UndocumentedStaysSo | src/language_analysis.c:9258-9264 | where nothing is documented, nothing is kept |
| ProjectEntries.OneMoreSymbol | src/language_analysis.c:9366-9398 | merging a symbol changes the entry of its name or appends one; the other entries stay |
| ProjectIndexes.ProjectIndex.Find | src/language_analysis.c:9222-9230 | the first entry of the name, or none |
| ProjectIndexes.ProjectIndex.StoreDocumentation | src/language_analysis.c:9258-9283 | the documentation is replaced by one of higher priority only; it fails exactly when a request for memory was refused, and the index is as it was |
| ProjectIndexes.ProjectIndex.AddEntry | src/language_analysis.c:9286-9323 | a new entry comes last; it fails exactly when a request for memory was refused, and the index is as it was |
| ProjectIndexes.ProjectIndex.AddDefinition | src/language_analysis.c:9325-9359 | a definition is added unless it is there; the total stays the sum, and the limit is kept; lack of memory is answered exactly when a request was refused |
| ProjectIndexes.ProjectIndex.MergeSymbol | src/language_analysis.c:9366-9398 | the index of the symbols so far becomes that of one more, or the limit is answered; lack of memory exactly when a request was refused |
| ProjectIndexes.ProjectIndex.Merge | src/language_analysis.c:9361-9399 | the same for all exported functions of a snapshot |
| ProjectIndexes.CheckAll | src/language_analysis.c:9418-9471 | the checks of the sources, in the order of the code |
| ProjectIndexes.RequestPassesIff | src/language_analysis.c:9418-9471 | a request passes exactly when its sources are few enough, usable, of different names, and small enough one by one and together |
| ProjectIndexes.DefaultsAre | src/language_analysis.c:137-168 | the limits that stand for zero, and positive limits as they are |
| ProjectIndexes.RequestFailsAtFirst | src/language_analysis.c:9424-9471 | what is reported of a request: the number of sources, else the first that is unusable, a duplicate or too long, else the sum of the sizes |
| ProjectIndexes.AllMergedIff | src/language_analysis.c:9361-9399 | with memory everything merges exactly when neither names nor definitions exceed the limit, and the limit is answered otherwise |
| ProjectIndexes.RebuildSucceedsIff | src/language_analysis.c:9481-9541 | with memory a rebuild succeeds exactly when every source was analyzed, no diagnostic has severity 1, and the whole index is within the limit |
| ProjectIndexes.UpdateSucceedsIff | src/language_analysis.c:9401-9541 | with memory an update succeeds exactly when its request is one, and the index is of its revision already or the request passes, every source was analyzed without an error, and the whole index is within the limit |
| ProjectIndexes.FirstErrorDecides | src/language_analysis.c:9504-9514 | an analysis is held up exactly when some diagnostic has severity 1, and the code reported is that of the first one, the empty code included |
| ProjectIndexes.RebuildFailsAtFirst | src/language_analysis.c:9515-9538 | with memory the first source that holds a rebuild up decides what is reported: the failure of its analysis, its first error, or the limit |
| ProjectIndexes.OnlyAnalysesLackMemory | src/language_analysis.c:9533-9537 | where no allocation of the index is refused, lack of memory is reported only if an analysis reported it |
| ProjectIndexes.ProjectIndex.Update | src/language_analysis.c:9401-9550 | lack of memory is reported if a request for memory was refused, and what is specified otherwise, so that an index whose requests are all granted is updated; all or nothing in every case: after a failure or for the current revision functions, count and revision are as before, after a success they are those of the exported functions of all sources; nothing is left pending |
| TypeLayouts.DoubledIsLeast | src/type_layout.c:137-141 | doubling from one gives the least power of two that is not below the size |
| TypeLayouts.ApplyAtomic | src/type_layout.c:126-148 | the loop promotes the size, and fails exactly for incomplete or empty types or when the promoted size exceeds the target's largest |
| TypeLayouts.AtomicIsLeastPower | src/type_layout.c:126-148 | on the shipped targets promotion never fails, gives the least power of two up to the largest promoted size, and keeps size a multiple of the alignment |
| TypeLayouts.AtomicLayoutIs | src/type_layout.c:126-148 | on every target: the size becomes the least power of two that holds it, the alignment the larger of the old one and of the promoted size as far as the target allows |
| TypeLayouts.ScalarLayouts | src/target_info.c:5-39 | sizes and alignments of integers on both targets |
| TypeLayouts.FloatingLayouts | src/target_info.c:5-39 | sizes and alignments of floating types on both targets |
| TypeLayouts.PointerLayouts | src/target_info.c:5-39 | size and alignment of pointers on both targets |
| TypeLayouts.QualifiedLayout | src/type_layout.c:150-178 | only `_Atomic` changes a layout, and an array cannot be atomic |
| TypeLayouts.CompleteArray | src/type_layout.c:109-124 | the division check answers exactly whether the product fits an int |
| TypeLayouts.LayoutOfType | src/type_layout.c:150-178 | the recursion computes the layout of the specification |
| TypeLayouts.SizeOf | src/type_layout.c:207-218 | the size of a complete type, 0 otherwise |
| TypeLayouts.LayoutsAreAligned | src/target_info.c:5-39 | on the shipped targets every complete layout has a power of two as alignment and a multiple of it as size, if those of the records do |
| TypeLayouts.ArraySizeIsProduct | src/type_layout.c:109-124 | the size of nested arrays is the exact product of all lengths and the element's size, and there is no layout exactly when that exceeds an int |
| TypeLayouts.CompleteArraysAreFixed | src/type_layout.c:115-117 | an array type is complete only if every array in it has a length and the innermost element is complete |
| Json.ReadCharsBack | src/language_analysis.c:9734-9753 | unescaping an escaped string by section 7 of RFC 8259 gives its bytes |
| Json.ReadBack | src/language_analysis.c:9710-9753 | every value reads back as itself |
| JsonWriter.WriteString | src/language_analysis.c:9734-9753 | the escaped string in quotation marks is written |
| JsonWriter.WriteRange | src/language_analysis.c:9763-9770 | the text of the range's value is written |
| JsonWriter.WriteSymbol | src/language_analysis.c:9772-9857 | the text of the symbol's value is written, member by member |
| JsonWriter.WriteDocument | src/language_analysis.c:9864-9900 | the text of the snapshot's value is written |
| JsonWriter.Write | src/language_analysis.c:9859-9908 | the answer is the document's length, -1 or -2, whether it is measured or written; the buffer holds a terminated prefix |
| JsonWriter.DocumentReadsBack | src/language_analysis.c:9859-9908 | the document is JSON for the value the snapshot stands for |
| SnapshotFields.DocumentSays | src/language_analysis.c:9859-9908 | the value read from the document has the diagnostics, symbols, hover, dependencies and the partial flag under their names |
| SnapshotFields.DiagnosticSays | src/language_analysis.c:9864-9880 | a diagnostic has its fields under their names |
| SnapshotFields.SymbolSays | src/language_analysis.c:9772-9857 | a symbol has its seventeen values under their names |
| SnapshotFields.InitializerSays | src/language_analysis.c:9809-9819 | an initializer has its state, constant and range under their names |
| SnapshotFields.FunctionSays | src/language_analysis.c:9820-9837 | a function has its details under their names, another symbol has none |
| SnapshotFields.MacroSays | src/language_analysis.c:9838-9854 | a macro has its details under their names, another symbol has none |
| SnapshotFields.ParameterSays | src/language_analysis.c:9829-9835 | a parameter has name and type under their names |
| SnapshotFields.RangeSays | src/language_analysis.c:9763-9770 | a range has its source and its ends under their names |
| SnapshotFields.PositionSays | src/language_analysis.c:9755-9761 | a position has line, column and offset under their names |
| SnapshotFields.ListsSay | src/language_analysis.c:9772-9857 | lists of ranges, parameters and strings hold their values in order |
| SnapshotFields.EntriesSay | src/language_analysis.c:9864-9895 | the lists of diagnostics and symbols hold their values in order |
| SnapshotFields.KindsDiffer | src/language_analysis.c:9772-9857 | different names stand for different kinds |
| SnapshotFields.NameSpacesDiffer | src/language_analysis.c:9772-9857 | different names stand for different name spaces |
| SnapshotFields.StatesDiffer | src/language_analysis.c:9772-9857 | different names stand for different initializer states |
| JsonUtf8.EscapesAreUtf8 | src/language_analysis.c:9734-9753 | escaping keeps UTF-8 and makes nothing UTF-8 that is not |
| JsonUtf8.TextIsUtf8Iff | src/language_analysis.c:9710-9753 | the text of a value is UTF-8 exactly when every string and key in it is |
| JsonUtf8.DocumentIsUtf8Iff | src/language_analysis.c:9859-9908 | the document is UTF-8 exactly when every string in it is |
| JsonUtf8.MessageSpoilsDocument | src/language_analysis.c:9864-9880 | one diagnostic whose message is not UTF-8 makes a document that is not |
| JsonUtf8.CutMessageIsNotUtf8 | src/diag/diag.c:147-148 | a message of ASCII characters and a last one of two bytes, one byte too long, is UTF-8, and what is kept of it is not |
| CommentText.SummaryIsRight | src/language_documentation.c:417-437 | the first pass finds the outermost lines that are not blank and the least indentation |
| CommentText.EmitIsJoin | src/language_documentation.c:442-472 | the second pass writes the lines between them, outdented and joined |
| CommentText.NormalizedIsOutdented | src/language_documentation.c:410-478 | the normalized text: the outer lines are not blank, no line ends with a blank, some line starts without one; empty exactly without visible text |
| CommentText.NormalizedReadsBack | src/language_documentation.c:368-478 | however lines are decorated and indented as a comment, of either style, normalizing gives them back |
| CommentWriter.CommentReadsBack | src/language_documentation.c:396-478 | the same for a whole comment with its marks, wherever it stands in the source |
| CommentWriter.LineContent | src/language_documentation.c:368-393 | the offsets found cut out the content of the line |
| CommentWriter.SummarizeLines | src/language_documentation.c:417-437 | the first loop computes the summary |
| CommentWriter.WriteLines | src/language_documentation.c:442-472 | the second loop counts the whole text and writes as much as fits, the same text with and without a buffer |
| CommentWriter.Normalize | src/language_documentation.c:410-478 | the length of the normalized text, whatever the buffer; the buffer holds a terminated prefix |
| CommentWriter.NormalizeInto | src/language_documentation.c:485-490 | the answer says whether the buffer holds the whole text |

## Left out

- Uchar.Decode: `errno`, and output pointers that are null, are not modelled; lengths are those of sequences.
- Conditionals.MatchingConditionalOpener: what kind of directive a line is, is taken as the code decides it (`KindOf`).
- DirectiveKinds.KindAgrees: a comment that runs into the line from an earlier one is not known to the code and not part of the reading; for lines with a split end of a comment there is an example only.
- DeclaratorGrammar.ReadType: reads the spellings of specifiers that the printer uses, with blanks only where the printer puts them; takes any word as a tag, a keyword too, which the tokenizer never makes one; the declarator part is the grammar of section 6.7.6 of C11 without array qualifiers, expressions as bounds, and parameter names.
- DeclaratorWriter.FormatType: the chain of bases of every type in the table must end (`Ranked`), which it does because a base is interned before the types built on it (src/semantic/type_identity.c:436-441); on a cyclic chain the code would fail once the text is too long; running out of memory is not modelled. Array and function qualifiers, plain versus signed `char` and the prototype flag of a non-empty parameter list are not printed, so they are not part of the type that is read back.
- SignatureWriter.Format: negative lengths, null names and null member arrays, which make the code fail, have no counterpart in the table; the layout's validity is a parameter.
- DiagRecords.Store: formatting of messages, source names looked up by id, stderr, fatal recovery and running out of memory; the capacity is doubled without an upper bound, where the code's `int` would overflow beyond 2^30 records.
- ProjectIndexes.ProjectIndex.Update: analyses of the sources are inputs; which requests for memory are refused is an input; array capacities of the index, null arguments, and the optional error object are not modelled. The checks for missing names and codes are not modelled either: an analysis copies every text into its snapshot and makes a missing one empty, so these checks never fail.
- TypeLayouts.LayoutOf: record layouts are inputs, keyed by the type of the record, and assumed aligned where alignment is claimed.
- JsonWriter.WriteDocument: the number formatting of `snprintf` is taken to be the decimal numeral; null texts, which are written as empty strings, do not occur in a snapshot.
- CommentWriter.Normalize: finding comments and the declarations they belong to is not modelled; `size_t` does not wrap.
- src/tokenizer, the preprocessor, the parser, semantic analysis, IR and code generation: only the two input passes of the tokenizer are modelled.
- The `build_*_recovery_source` functions of src/language_analysis.c: ad hoc editing of incomplete sources without a specification to prove.
- `ag_language_analyze_project_source`: replaces documentation and definitions of one snapshot by those of the index, symbol by symbol.
- src/compilation_session.c, src/main.c, src/config, src/source_manager.c, src/codegen_emit.c, src/declaration_pipeline.c: construction and plumbing.
- include/math.h, include/complex.h: floating-point approximation.
- Message catalogs and locales.
