# Verified model of zq's search, index, archive, parallel execution and encoding

This project models the parts of zq whose correctness is not visible in any one function, in
Dafny, and proves what they promise. Code that the source writes as objects and loops is written
here as classes and methods with loops; each such method is proved against a function that says
what it computes, and the theorems are about those functions and about runs of those methods.

## What is modelled

**String search** (`StringSearch.dfy`, `filter/search.go`). The bad-character table, the two passes
that fill the good-suffix table in place, and the search that skips with both. An entry of the
finished table is the least shift that lines the matched suffix up again under a different byte; the
search returns the first occurrence, and the search without regard to case the first place where the
pattern stands up to the case of ASCII letters.

**The buffer prefilter** (`Utf8.dfy`, `Fields.dfy`, `FieldNames.dfy`, `Filter.dfy`,
`BufferFilter.dfy`). The slow meaning of a query over a decoded record (byte-level loops over the
encoding are proved equal to a meaning over value trees), the cheap test compiled from the query,
and the theorem that joins them: whatever the buffer, the cheap test does not turn it away if it
holds a matching record in which no value equals a literal of the query under another encoding. Two
kinds of values do: an IPv4 address mapped into sixteen bytes, and a subnet with the literal's
address but another mask, since `filter/compare.go:314` compares addresses only. For these the test
does turn buffers away, and for records of one value the condition is exact. A search for a
field name panics when it comes to a cut-off message or a record type without columns; on a buffer
where it cannot, the test answers true, and where it can is proved exactly. What the test answers is
itself stated exactly, from the query, the buffer's bytes and the names of its types. The order that
comparisons ask for is stated byte by byte, and what a search finds leaf by leaf. Simple case folding is a parameter, of which only its ASCII part is used. Literals are
strings, addresses and subnets; a leaf with any other literal the query language has, a search for a
subnet and the operators =~ and !~ are an arbitrary predicate (`Other`), because no filter is built
for them. The names listed for a record type and for its values agree exactly when no record column
at the top has an empty name. A subnet literal keeps its address exactly when that has an IPv4 form
or is zero (`zng/net.go:28-31` copies nothing else), so all other subnets of one mask are the same
literal.

**Nested value encoding** (`Zcode.dfy`, `zcode/`). The builder that reserves one tag byte and shifts
bodies inside the buffer, the iterators that read the result, and the round trip through both. The
format itself is stated apart from the code that writes it: the varint in front of each value, its
number, and the bytes behind it.

**Column builder** (`ColumnBuilder.dfy`, `proc/colbuilder.go`). Which lists of dotted names are
accepted (exactly those that are prefix-free and keep each record's fields together), and that the
typed columns and the encoded record, walked field by field, give back the leaves in order; under
exactly the names given if and only if no name starts with a dot (`zng/fielditer.go:43-45` drops it).

**Microindex** (`Microindex.dfy`, `MicroindexFrames.dfy`, `MicroindexWriter.dfy`, `MicroindexFinder.dfy`). Layers written in
one pass with parents created on demand, assembled root first, and searched from the root down. Every frame
ends at the first record that takes its layer to the threshold, and a write fails only when nineteen
layers exist. The search agrees with a linear scan of the base layer although the last frame of a layer
is never passed up. The comment at `microindex/writer.go:286-287` says that closing a layer passes its last key up; the
code does not, and the model follows the code.

**Archive read** (`Sorting.dfy`, `Spans.dfy`, `Overlap.dfy`, `Combiner.dfy`, `Scan.dfy`,
`ScanArchive.dfy`). The sweep that turns a day's overlapping chunks into spans, filtering scanners and
the merge of their records, and the walk over directories. A scan of any archive delivers the wanted
records and no others, in order. Where a chunk starts at the timestamp right after another's end while
a third chunk is open across both, the sweep makes two spans for these two timestamps
(`archive/overlap.go:21-31`), so the third chunk is read there twice. A scan delivers each record as
often as it is stored if and only if no such third chunk holds a wanted record at one of the two
timestamps, and how often it delivers a record is stated exactly.

**Archive import** (`Import.dfy`, `ImportScan.dfy`). Records are filed by day, buffered, spilled and written to sorted
chunks. The files hold exactly the records imported, a day is written out just when it has outgrown the
threshold, memory stays within its bound, and the recorded
first and last timestamps bound the records exactly when the chunk does not start at time zero and end
elsewhere. Records after 1970 imported into an empty archive come back from a scan: just those wanted,
and in order.

**Parallel execution** (`Dealing.dfy`, `Flowgraph.dfy`, `ProcMeaning.dfy`, `Batches.dfy`,
`ParallelGroup.dfy`). What each proc computes, said by positions in its input; the
rewriting of a pipeline into branches and an ordered merge; what procs and the merge do with batches of
records; and the heads that share one channel of sources, as a state machine in which no run gets stuck.
For every pipeline, number of branches, distribution of sorted input and cutting into batches, and for
every interleaving of the heads, the rewritten pipeline computes what the original does, with three
exceptions, each with an input and its exact condition. The merge panics when a branch hands it an empty
batch (`proc/orderedmerge/orderedmerge.go:73-118` indexes into it): that is when a filter in the branch
drops all of a batch and no cut follows in the branch, the branch does not end in a tail or in a head
that has enough, and the procs behind the merge still ask for records. When the first proc can neither
run in the branches nor be copied into them, the rewritten pipeline does not compile
(`proc/compiler/compiler.go:192-194`). A rename of the sort field is let into the branches by
`driver/compile.go:491-499` and loses the order, which for a pipeline of one rename is exact for any
number of branches.

**Text form of byte strings and canonical sets** (`Bstring.dfy`, `UnescapedText.dfy`, `Sets.dfy`).
Escaping and its inverse, which byte strings come back from the one format that does not escape a
backslash, finding the end of a field in a line, and the canonical form of set bodies with its checker.

`Bytes.dfy` holds the byte strings and the result types all files share, `Dealing.dfy` what merges of
any kind have in common.

## Model

| member | source | states |
|---|---|---|
| StringSearch.PrefixIsRealign | filter/search.go:78-86 | A suffix of the pattern is a prefix of it exactly when shifting by its start lines up everything past any earlier position |
| StringSearch.SecondPassWritesGoodShift | filter/search.go:88-95 | The shift the second pass would write at step i is a good shift for j exactly when j is the entry it writes and the bytes before differ |
| StringSearch.SkipIsSafe | filter/search.go:112-127 | No shift smaller than what either table allows can hold an occurrence |
| StringSearch.LongestCommonSuffix | filter/search.go:101-107 | Returns the length of the longest common suffix |
| StringSearch.StringFinder.constructor | filter/search.go:58-99 | Both tables are as promised for any pattern |
| StringSearch.StringFinder.BuildBadChar | filter/search.go:66-76 | For every byte the entry is the distance from its last occurrence before the end, or the pattern length |
| StringSearch.StringFinder.BuildPrefixShifts | filter/search.go:78-86 | After the first pass each entry is the least shift that makes a prefix of the pattern meet its end |
| StringSearch.StringFinder.TryShift | filter/search.go:88-95 | One round of the second pass leaves every entry the least good shift among those tried so far |
| StringSearch.StringFinder.BuildSuffixShifts | filter/search.go:88-97 | After the second pass each entry less (last - j) is the least shift of at least one that realigns the matched suffix and changes the byte before it |
| StringSearch.StringFinder.Next | filter/search.go:112-127 | Returns the least index at which the pattern occurs, or -1 when it occurs nowhere |
| StringSearch.SameLetterIsSameLower | filter/search.go:163-168 | Two bytes are lower-cased alike exactly when they are the same or the capital and small form of one letter |
| StringSearch.LikeInIsLower | filter/search.go:146-161 | A pattern stands in a text up to the case of ASCII letters exactly when it occurs with both lower-cased |
| StringSearch.StringFinder.NextFold | filter/search.go:146-161 | Returns the first occurrence in the lower-cased text or -1, which for a pattern without capitals is the least place where it stands up to the case of ASCII letters |
| Utf8.DecodeRune | filter/filter.go:124-126 | Bytes below 0x80 are runes by themselves, longer runes hold no such byte, and a byte that does not decode gives the replacement rune |
| Utf8.DecodeOfEncoded | zng/bstring.go:51 | Every rune that has a UTF-8 encoding is decoded from it, whatever follows |
| Utf8.DecodedIsEncoded | zng/bstring.go:51 | What is decoded stood there encoded, and U+FFFD over one byte means that no rune did |
| Utf8.EqualFoldIsAsciiLower | filter/filter.go:124-143 | Against an ASCII text of the same length folded equality is equality of lower-cased bytes |
| Utf8.SearchFold | filter/filter.go:126-143 | Finds the term, up to folding, in a window of its own length exactly when there is one |
| Utf8.FoldOccursIsLowerOccurs | filter/filter.go:126-143 | For an ASCII term the slow search and the search in lower-cased bytes agree |
| Zcode.UvarintRoundTrip | zcode/bytes.go:133-155 | Every 64-bit value is decoded from its varint, whatever follows |
| Zcode.UvarintForm | zcode/bytes.go:133-140 | The bytes of a varint are the number's groups of seven bits, lowest first, all but the last with the top bit set, and none superfluous |
| Zcode.DecodedIs | zcode/bytes.go:152-156 | Decoding gives the number of the first varint in the buffer and its size; it fails just when there is none or its number does not fit in 64 bits |
| Zcode.AppendUvarint | zcode/bytes.go:133-140 | Appends the varint of a value |
| Zcode.SizeOfUvarint | zcode/bytes.go:143-150 | Counts the bytes of a varint |
| Zcode.Iter.Next | zcode/iter.go:21-39 | Returns the next body, absent for an unset value, and moves past it; leaves the buffer alone when the tag does not decode |
| Zcode.Iter.NextTagAndBody | zcode/iter.go:41-52 | Returns the next value with its tag, and moves past it |
| Zcode.StepOfEncoded | zcode/iter.go:21-39 | Reading an encoded value gives its body and kind and leaves exactly the rest |
| Zcode.TreeRoundTrip | zcode/bytes.go:112-131 | Reading an encoding back level by level gives the value tree, with unset, empty and non-empty bodies apart |
| Zcode.TaggedForm | zcode/bytes.go:158-178 | The number in front of a value is 0 when it is unset, twice the length and two for a primitive, twice the length and one for a container, and the body follows |
| Zcode.EncodingFormat | zcode/bytes.go:158-178 | So throughout the encoding of a tree |
| Zcode.Builder.BeginContainer | zcode/builder.go:25-32 | Opens a container; the buffer stays the layout of all open ones |
| Zcode.Builder.EndContainer | zcode/builder.go:35-53 | Closes the innermost container, shifting its body for a longer tag; offsets of outer containers stay right |
| Zcode.Builder.TransformContainer | zcode/builder.go:55-60 | Replaces the innermost body by its image |
| Zcode.Builder.AppendContainer | zcode/builder.go:62-65 | Appends a tagged container body or an unset value |
| Zcode.Builder.AppendPrimitive | zcode/builder.go:67-70 | Appends a tagged primitive or an unset value |
| Zcode.Builder.AppendNull | zcode/builder.go:72-75 | Appends an unset value |
| Zcode.Builder.Finish | zcode/builder.go:77-83 | With nothing open the buffer is the recursive encoding |
| Zcode.BodyOutgrowsTag | zcode/builder.go:35-53 | A body that needs a longer tag is long enough for the tag to be written over it |
| Zcode.BuildWith | zcode/builder.go:14-83 | Any balanced run of calls on a reset builder gives the recursive encoding of the tree it describes, which reads back as that tree when only unset values and primitives were appended |
| Zcode.CallsWriteTree | zcode/builder.go:24-75 | The calls for any tree add exactly that tree to whatever is open |
| Zcode.BuildTree | zcode/builder.go:14-83 | Building any tree gives its recursive encoding, in the format of zcode, which reads back as the tree |
| Fields.FieldIter.constructor | zng/fielditer.go:10-28 | A new iterator has all leaves of the record before it |
| Fields.FieldIter.Next | zng/fielditer.go:30-74 | Delivers the next leaf with its dotted name, or the error that ends the walk, in the order of the value tree |
| FieldNames.FieldNameIter.Next | filter/fieldnamefinder.go:91-117 | Delivers the next dotted name of the record type, or panics at a record type without columns |
| FieldNames.WalkEndsExactly | filter/fieldnamefinder.go:91-117 | The names of a record type are listed without a panic exactly when no record type in it is without columns |
| FieldNames.LeavesHaveTypeNames | filter/fieldnamefinder.go:72-117 | Both iterators meet the same fields in the same order; a name of the type walk is that of the value walk after one dot for each empty record name it starts with |
| FieldNames.NamesAgreeExactly | filter/fieldnamefinder.go:72-117 | When the value walk finishes, both list the same names if and only if no record column at the top has an empty name |
| FieldNames.EmptyRecordNameShows | zng/fielditer.go:41-45 | A record type for which the names differ |
| Filter.SameIPIsSameEncoding | zng/ip.go:17-23 | Two addresses are equal exactly when they are encoded alike |
| Filter.SameIPIsSameLong | filter/compare.go:157-166 | Two addresses are equal exactly when their sixteen-byte forms are |
| Filter.MaskedIs | filter/compare.go:324-348 | Masking an address keeps just the bits set in the mask, when a short mask meets an IPv4 address in either form or a long mask begins with ones |
| Bytes.LessIsBefore | filter/compare.go:236-245 | A string is less when it is a proper prefix or has the smaller byte where the two first differ |
| Filter.StringsCompare | filter/compare.go:236-245 | Each operator asks for that order, its converse, or either with equality |
| Filter.ValuesCompare | filter/compare.go:157-376 | How a value compares with a string, address or subnet literal, for every operator and type |
| Filter.FieldMatches | filter/filter.go:28-58 | A query for a field matches exactly when the field exists and it, or with "in" an element of it, compares so |
| Filter.AnyMatches | filter/filter.go:60-97 | A query for any column matches exactly when some column compares so |
| Filter.SearchMatches | filter/filter.go:151-210 | A search matches exactly when a field's name, a string or a string in a set or array holds the term up to case |
| Filter.AddressSearchMatches | filter/filter.go:151-210 | A search for an address matches exactly when a value or element is the address or a string holds its text |
| Filter.QueriesCombine | filter/filter.go:212-296 | And, or and not combine queries as in logic |
| Filter.CheckFor | filter/compare.go:171-260 | Testing the bytes of a value, or of its elements, as read off the encoding gives the meaning over the value tree |
| Filter.CheckInside | filter/compare.go:386-405 | Looking into a set or array finds an element that compares exactly when there is one |
| Filter.CheckColumns | filter/filter.go:60-97 | The walk over columns, nested or not, finds one that compares exactly when there is one |
| Filter.SearchRecord | filter/filter.go:151-210 | A string search matches exactly when a leaf's name or text holds the term, a search for an address when a leaf or element is the address or holds its text |
| Filter.NthFromContainer | expr/expr.go:651-668 | Counting through a container reaches the element at the index, if there is one |
| Filter.FieldStep | expr/fieldexpr.go:38-57 | One step of a field reference on bytes reaches the column or element of the value tree, or nothing when that has none |
| Filter.FieldValue | expr/fieldexpr.go:38-80 | Resolving a field reference on bytes gives the field of the value tree |
| Filter.Apply | filter/filter.go:212-296 | The compiled filter, run on encoded bytes, decides the meaning of the query, for comparisons as said byte by byte |
| BufferFilters.MessageRoundTrip | zio/zngio/writer.go:128-139 | A record message is read back with its body and rest, but its type identifier only when that is below the escape code |
| BufferFilters.WrittenBufferRoundTrip | zio/zngio/writer.go:128-139 | A buffer of records with identifiers below the escape is read as exactly those records |
| BufferFilters.EscapedIdentifierIsLost | filter/fieldnamefinder.go:34-40 | The first escaped identifier is read as 0 |
| BufferFilters.NameMatches | filter/fieldnamefinder.go:62-67 | Some name of the record type holds the pattern; a panic only if none before it does |
| BufferFilters.Find | filter/fieldnamefinder.go:25-70 | The first message whose type has a name holding the pattern, is not a known record, or makes the walk panic decides; otherwise a malformed end answers true and a cut-off body panics, although each type is looked at once |
| BufferFilters.FinderAnswersExactly | filter/fieldnamefinder.go:25-70 | Every search for a name gets an answer if and only if, up to the first type that is not a known record, no record type is without columns and no body is cut off |
| BufferFilters.EmptyRecordPanics | filter/fieldnamefinder.go:91-96 | One message of a record type without columns makes every search panic |
| BufferFilters.Run | filter/bufferfilter.go:157-172 | Evaluating the filter tree with searchers decides its meaning |
| BufferFilters.FindsNames | filter/fieldnamefinder.go:25-70 | Where it cannot panic, the search for a name answers true exactly when some type is not a known record or has a name that holds the term up to case, or the buffer is malformed |
| BufferFilters.EqualShows | filter/compare.go:171-260 | A value that equals a literal other than the empty string, and is not an equal value in another encoding, shows the literal's encoding |
| BufferFilters.AnyColumnShows | filter/filter.go:60-97 | A test other than for the empty string that some column passes shows what it looks for in the record's bytes |
| BufferFilters.FieldShows | filter/filter.go:28-58 | So does one that a field reference passes |
| BufferFilters.LeafShows | filter/filter.go:151-210 | A record matched by a search shows what is searched for in its bytes or, for a string, in a field name |
| BufferFilters.PrefilterNeverRejects | filter/bufferfilter.go:31-172 | For every query and every buffer holding a matching record without other encodings of its literals, no filter is built or it does not answer false |
| BufferFilters.PrefilterIsSound | filter/bufferfilter.go:31-172 | It answers true when, besides, the name finder cannot panic on the buffer |
| BufferFilters.FilterAnswersExactly | filter/bufferfilter.go:31-172 | The filter answers true exactly when, by the bytes of its literals and terms and the names of its types, the buffer may hold a match; where no filter is built every buffer may |
| BufferFilters.WrittenRecordsPass | zio/zngio/writer.go:128-139 | So for every buffer the writer fills with records under identifiers below the escape |
| BufferFilters.OneFormIsExact | filter/compare.go:310-322 | For an address or subnet literal and a record of one value equal to it, the filter lets the buffer through if and only if the value is encoded as the literal |
| BufferFilters.SubnetMaskIsIgnored | filter/compare.go:310-322 | Every subnet of the literal's address with another mask is matched and turned away, as 10.0.0.0/16 for 10.0.0.0/8 |
| BufferFilters.MappedAddressIsRejected | filter/bufferfilter.go:123-130 | Every mapped IPv4 address is matched and turned away for its four-byte literal |
| BufferFilters.SubnetKeepsAddress | zng/net.go:16-32 | A subnet literal is encoded with its address if and only if that has an IPv4 form or is zero |
| BufferFilters.SubnetsEncodedAlike | zng/net.go:16-32 | Two subnet literals are encoded alike if and only if they have the same IPv4 address and mask, or neither has an IPv4 address and the masks are the same |
| ColumnBuilders.NewColumnBuilder | proc/colbuilder.go:89-154 | Accepts a list exactly when it is prefix-free and each record's fields are contiguous; the brackets then open each field's records and end with none open; else it names the first field that repeats another or the record it goes back into |
| ColumnBuilders.EnterRecord | proc/colbuilder.go:99-138 | Closes what the next field is not in and opens what it is in, or names a record opened before |
| ColumnBuilders.IsIn | proc/colbuilder.go:156-180 | Tells whether a field is, contains or is contained in one already listed |
| ColumnBuilders.ColumnBuilder.Append | proc/colbuilder.go:199-213 | Writes a leaf between its brackets; the builder holds the fields so far |
| ColumnBuilders.FieldAddsLeaf | proc/colbuilder.go:199-213 | A field is put behind all others under its dotted name, and its brackets nest |
| ColumnBuilders.PlacedAllDistinct | proc/colbuilder.go:227-257 | No open record has a column name twice, nor one named like the record open inside it |
| ColumnBuilders.TypedColumns | proc/colbuilder.go:227-257 | No record is closed that is not open, none stays open, and none repeats a column name |
| ColumnBuilders.DottedNameIsJoin | zng/fielditer.go:40-58 | A field in records is found under its own dotted name if and only if it is in none or the outermost has a name |
| ColumnBuilders.JoinOfSplit | proc/colbuilder.go:94-99 | Joining the parts of a name with dots gives the name back |
| ColumnBuilders.FoundByName | zng/fielditer.go:40-58 | A field is found under the name it was given by if and only if that does not start with a dot |
| ColumnBuilders.LeadingDotIsLost | zng/fielditer.go:43-45 | A field given as .a is found as a |
| ColumnBuilders.BuildAndWalk | proc/colbuilder.go:89-257 | The record built conforms to the columns built, and walking it gives exactly the fields, in order, with their types and values; under exactly the names given if and only if none starts with a dot |
| Microindex.CompareTransitive | microindex/finder.go:46-67 | Full keys of one arity are ordered |
| Microindex.LessAtFirstDifference | microindex/finder.go:46-67 | A key is less when it has the smaller value in the first field in which the two differ |
| MicroindexFrames.RecordFills | microindex/writer.go:294-324 | A record goes into the open frame unless that is full |
| MicroindexFrames.EndedFrameFills | microindex/writer.go:294-334 | A frame that is ended is full, and was not before its last record |
| MicroindexFrames.ClosedFrameIsRight | microindex/writer.go:336-343 | In a finished layer no frame is longer than needed and all but the last are full |
| MicroindexFrames.OneRecordEach | microindex/writer.go:294-324 | At a threshold of one byte every frame has one record |
| MicroindexWriter.IndexWriter.CloseFrame | microindex/writer.go:336-343 | Ends the open frame and records its first key and start |
| MicroindexWriter.IndexWriter.Write | microindex/writer.go:294-324 | Appends a record, first ending a full frame; all layers above index the frames ended below them, and all stay cut where they should be; fails only when nineteen layers exist |
| MicroindexWriter.IndexWriter.EndFrame | microindex/writer.go:326-334 | Passes the frame up and ends it, keeping every layer an index of the one below |
| MicroindexWriter.IndexWriter.AddToParentIndex | microindex/writer.go:345-364 | The parent, created if need be, holds one more entry with the frame's first key and start |
| MicroindexWriter.ChainIsLinear | microindex/writer.go:262-283 | Layers are distinct, each the parent of the one before, and hold exactly what the one before passed up |
| MicroindexWriter.ParentStartsAtZero | microindex/writer.go:345-364 | A parent has one entry for each frame ended in its child, the first at offset zero |
| MicroindexWriter.LayersAtMostRecords | microindex/writer.go:262-283 | There are at most as many layers as records, and just as many when every record fills a frame |
| MicroindexWriter.Writer.Write | microindex/writer.go:117-134 | Takes a record, or fails without taking it, and then nineteen layers exist |
| MicroindexWriter.Writer.CloseTree | microindex/writer.go:186-197 | Closes the last frame of every parent without passing it up |
| MicroindexWriter.ClosedChainIsLinked | microindex/writer.go:150-184 | Once closed, each layer indexes all frames of the one below but the last |
| MicroindexWriter.Writer.Finalize | microindex/writer.go:199-235 | The file holds the base and then the layers from the root down, with their sizes |
| MicroindexWriter.Writer.Close | microindex/writer.go:150-184 | The finished file is such an index over exactly the records written, its root one frame and all frames cut at the threshold, or has no sections |
| MicroindexFinder.Lookup | microindex/finder.go:46-67 | A forward scan finds the equal key, or the last one not above the target |
| MicroindexFinder.ScanFromFrame | microindex/finder.go:69-97 | Scanning from a frame whose first key is not above the target gives what scanning the whole layer gives |
| MicroindexFinder.LayersAreSorted | microindex/writer.go:345-364 | Every layer of an index over sorted records is sorted |
| MicroindexFinder.ChildFrame | microindex/finder.go:69-97 | The entry found in a layer is the start of a frame of its child whose first key is not above the target |
| MicroindexFinder.Finder.Section | microindex/reader.go:99-105 | The start of a section is the size of those before it |
| MicroindexFinder.Finder.NewSectionReader | microindex/reader.go:107-113 | Reads from the given frame of the section to its end |
| MicroindexFinder.Finder.Search | microindex/finder.go:69-97 | Reaches a base frame to scan from, or reports that the target is below every key |
| MicroindexFinder.Finder.LookupExact | microindex/finder.go:99-116 | Returns what a linear scan of the base layer returns |
| MicroindexFinder.Finder.LookupClosest | microindex/finder.go:149-162 | Returns the record with the largest key not above the target, and an error only in a layered index without one |
| MicroindexWriter.IndexedLookup | microindex/writer.go:150-184 | For sorted records, any threshold and any number of layers, both lookups answer as a scan of the records does; nineteen records are indexed at any threshold, and at one byte no more |
| Sorting.SortSorted | archive/overlap.go:100-102 | Sorting by an order gives a sorted list |
| Spans.IntersectContains | pkg/nano/span.go:107-156 | The intersection holds exactly the common timestamps, and spans with one overlap |
| Spans.OverlapsExactly | pkg/nano/span.go:107-156 | Spans that are not empty overlap exactly when they have a timestamp in common |
| Spans.FirstLastContains | archive/overlap.go:66-70 | The span of two timestamps holds all between them, in either direction |
| Overlap.CopyChunks | archive/overlap.go:53-64 | Keeps exactly the chunks not skipped by id |
| Overlap.SortedPoints | archive/overlap.go:94-102 | Lists both ends of every chunk once, in the direction of the data, ties by chunk id |
| Overlap.Sweep.Visit | archive/overlap.go:18-49 | Each boundary keeps everything before it shown exactly as often as it should be, the spans never going back, each span inside the chunks it lists, and the spans disjoint exactly while no chunk started right after another under a third |
| Overlap.Boundaries | archive/overlap.go:94-125 | Visits every boundary once, in order, with exactly the chunks that start and end there |
| Overlap.EmitTwoPoints | archive/overlap.go:21-31 | A start right after an end under an open chunk makes a span that reaches back and lists neither |
| Overlap.InOrderIsExact | archive/overlap.go:10-13 | Disjoint spans that show everything list every chunk covering them |
| Overlap.MergeChunksToSpans | archive/overlap.go:14-51 | The spans never go back, listed chunks cover their span, and each filtered timestamp of a chunk is shown once and once more for each end of an adjacent pair it is under; the spans are disjoint, and list exactly the covering chunks, if and only if no chunk starts right after another under a third |
| Overlap.AdjacentExample | archive/overlap.go:14-51 | Three chunks for which the spans computed are not disjoint: one chunk is shown twice at two timestamps |
| Combiners.BestComesFirst | zbuf/combiner.go:35-41 | The record taken comes first among all heads; ties go to the first reader forward and to the last in reverse |
| Combiners.MergeIsDealt | zbuf/combiner.go:70-99 | Merging takes heads of the inputs until none is left, keeping each input's order |
| Combiners.MergeInOrder | zbuf/combiner.go:43-46 | Merging sorted inputs gives a sorted output, in reverse too |
| Combiners.DealtCount | zbuf/combiner.go:70-99 | What is made by taking heads of inputs holds each record as often as the inputs |
| Combiners.Scanner.Read | scanner/scanner.go:85-108 | Delivers the next record in the span that passes the filter, counting all it has read |
| Combiners.Scanner.Pull | zbuf/batch.go:34-53 | Cuts the stream into batches; a short batch ends it |
| Combiners.PullerReader.Read | zbuf/batch.go:86-107 | Reading batches record by record changes nothing |
| Combiners.Combiner.Read | zbuf/combiner.go:70-99 | Delivers the merge of what is left of all readers, then nothing forever |
| Combiners.Combiner.Pull | scanner/combiner.go:36-38 | Delivers the merge in batches |
| Combiners.Combiner.Stats | scanner/combiner.go:40-46 | At the end the counters are the sums over all records of all readers |
| Scans.ScanSpan | archive/multisource.go:63-101 | A span delivers the merge of its chunks' records in it, whether it has one chunk or several |
| Scans.SpansLoseNothing | archive/multisource.go:32-42 | A day's spans deliver every wanted record of its chunks and no other |
| Scans.SpansDeliver | archive/multisource.go:32-42 | A day's spans deliver a wanted record as often as the chunks hold it, each chunk times how often it is shown there |
| Scans.DeliveredExactly | archive/multisource.go:32-42 | That is as often as it is stored if and only if no chunk holding it lies across an adjacent pair at its timestamp |
| Scans.NotAdjacentNotRepeated | archive/multisource.go:32-42 | So whenever no chunk starts right after another under a third |
| Scans.RepeatExample | archive/multisource.go:32-42 | A day whose scan delivers two of three records twice |
| Scans.ScanDay | archive/multisource.go:32-42 | A day delivers exactly its wanted records in order, and each as often as stored if and only if no chunk holds one where two others are adjacent under it |
| ArchiveScans.TsDirEntriesToChunks | archive/walk.go:176-210 | Lists exactly the allowed chunks with both files whose span overlaps the filter, each once |
| ArchiveScans.TsDirsToVisit | archive/walk.go:141-163 | Visits the days that overlap the filter, in the archive's order |
| ArchiveScans.StoredIsListed | archive/walk.go:176-210 | The chunks stored are those a listing names by a data file and its last seek index file |
| ArchiveScans.ScanArchive | archive/multisource.go:32-101 | A scan of any archive delivers the wanted records and no others, sorted, and each as often as stored if and only if on no day a chunk holds one where two others are adjacent under it |
| Imports.InItsDay | pkg/nano/time.go:83-89 | A timestamp lies in the day it is filed under exactly when it is not before 1970 or is a day's start |
| Imports.MidnightIs | pkg/nano/time.go:83-89 | From 1970 on a day starts at a multiple of its nanoseconds, at most a day before the timestamp |
| Imports.MergeSort.Spill | proc/spill/merge.go:63-78 | Adds a sorted run with exactly these records |
| Imports.MergeSort.Read | proc/spill/merge.go:92-113 | Takes the least next record of all runs, until all are used up |
| Imports.ChunkWriter.Write | archive/import.go:278-302 | Appends the record; first is the first timestamp that is not zero, last the latest |
| Imports.BoundsUnlessZeroFirst | archive/import.go:286-289 | The recorded timestamps bound all records if and only if the chunk does not start at time zero and end elsewhere |
| Imports.TsDirWriter.WriteOne | archive/import.go:164-173 | Keeps the record with the others up to the threshold, and beyond it writes them all to one new chunk file, with both byte counts in step |
| Imports.TsDirWriter.Spill | archive/import.go:175-192 | Moves the records from memory to a run, losing none |
| Imports.TsDirWriter.Flush | archive/import.go:194-228 | Writes all records held, if any, to one sorted chunk of the day |
| Imports.ImportWriter.LargestBuffer | archive/import.go:97-105 | Finds the largest buffer, in whatever order the writers are walked |
| Imports.ImportWriter.SpillLargestBuffer | archive/import.go:97-105 | Frees some memory whenever any is in use, so the spill loop ends |
| Imports.ImportWriter.Write | archive/import.go:71-91 | Takes the record and leaves memory within the bound, freeing some only for that; the total is the sum over all buffers |
| Imports.ImportWriter.Close | archive/import.go:107-116 | Everything taken is then in chunk files |
| Imports.Import | archive/import.go:33-40 | The chunk files together hold exactly the records imported, each file sorted and of one day |
| Imports.ImportedChunkFitsItsDay | archive/import.go:278-302 | A chunk of records after 1970 is sorted within its bounds and its day, as a scan relies on |
| ImportScans.ImportedIsOk | archive/import.go:194-228 | The directories made of an import's files, for records after 1970, are an archive that can be scanned |
| ImportScans.ListingHolds | archive/walk.go:176-210 | They hold each record as often as the files do |
| ImportScans.ImportAndScan | archive/import.go:33-40 | Records after 1970 imported into an empty archive and scanned come back: just those wanted, in order, and as often as imported if and only if no chunk holds one where two others are adjacent under it |
| Flowgraph.MergeOfDealt | proc/orderedmerge/orderedmerge.go:73-118 | Choosing by the sort field among the heads of what strictly sorted records were dealt out to gives the records back |
| Flowgraph.NextComesFirst | proc/orderedmerge/orderedmerge.go:73-109 | The record taken comes first among all heads; of those that tie the first parent's is taken |
| Flowgraph.EachKeepsKey | driver/compile.go:450-499 | A proc left in the branches keeps the sort field, if it does not rename it |
| Flowgraph.MergedPrefix | driver/compile.go:450-480 | Record by record, a stateless prefix run in branches and merged is the prefix run on the whole |
| Flowgraph.FirstOfMerge | driver/compile.go:530-536 | The first records of a merge depend only on the first records of its inputs |
| Flowgraph.LastDealt | driver/compile.go:530-536 | The last records of a whole are among the last records of its parts |
| Flowgraph.BuildSplitFlowgraph | driver/compile.go:397-420 | Copies the branch and forces a merge |
| Flowgraph.ParallelizeFlowgraph | driver/compile.go:439-558 | Splits at the first proc that cannot run in the branches, and not at all without a known order |
| Flowgraph.BranchesEmptyExactly | driver/compile.go:397-558 | The branches are without procs if and only if the pipeline is, or its first proc can neither run in them nor be copied into them |
| Flowgraph.SplitMeansTheSame | driver/compile.go:397-558 | What the tail makes of the merged records is what the pipeline makes of the whole input, for any number of branches and any distribution |
| Flowgraph.LostFieldConcatenates | proc/orderedmerge/orderedmerge.go:73-118 | Without the sort field the merge puts one branch after another |
| Flowgraph.RenameAwayLosesOrder | driver/compile.go:491-499 | For every rename that takes the sort field away and any two or more branches, two records and a distribution for which the merge gives another order |
| ProcMeaning.EachPicked | proc/cut/cut.go:69-97 | A stateless proc gives one record for each record it does not drop, in order |
| ProcMeaning.FilterMeaning | proc/filter/filter.go:22-37 | Filter gives just the records that pass, in order |
| ProcMeaning.OneForOne | proc/put/put.go:208-221 | Pass, put and rename give one record for each |
| ProcMeaning.GetIsFirst | expr/fieldexpr.go:38-57 | A field is the column of its name, and null when there is none |
| ProcMeaning.CutMeaning | proc/cut/cutter.go:141-175 | Cut makes a column of each field the record has, in the order of the fields, under its target |
| ProcMeaning.DropMeaning | proc/cut/cutter.go:104-121 | The complement of cut keeps just the other columns, in order |
| ProcMeaning.CutDropsEmpty | proc/cut/cutter.go:184-201 | A cut drops the records it leaves without columns |
| ProcMeaning.PutMeaning | proc/put/put.go:87-206 | Each clause is computed from the record as it came in, the last one for a name sets it, other fields and all positions stay |
| ProcMeaning.PutKeepsOrSets | proc/put/put.go:99-172 | Two clauses for one new column leave the record as it is |
| ProcMeaning.RenameMeaning | proc/rename/rename.go:51-78 | A rename renames the column of that name and leaves its value and all others |
| ProcMeaning.RenamesInOrder | proc/rename/rename.go:80-89 | Renames are made one after the other |
| ProcMeaning.HeadAndTailMeaning | proc/head/head.go:21-48 | Head gives the first records and tail the last, one when no count is given |
| ProcMeaning.UniqMeaning | proc/uniq/uniq.go:47-83 | Uniq gives the first record of every run of records encoded alike, in order, with the length of the run if asked for |
| ProcMeaning.UniqRepeatsNothing | proc/uniq/uniq.go:47-83 | No two neighbours of its output are encoded alike |
| ProcMeaning.CountsAddUp | proc/uniq/uniq.go:28-45 | The counts add up to the number of records |
| ProcMeaning.FuseMeaning | proc/fuse/fuse.go:167-235 | Fuse gives every record the columns of all, its own values or null, in the order in which the records' types, by identifier, first name them |
| ProcMeaning.MergeNeeded | driver/compile.go:461-499 | A proc comes after the merge exactly when it gives another column the sort field's name or is a cut that does not keep it |
| ProcMeaning.KeyOrder | expr/sort.go:59-79 | The sort field is ordered by number with null last, and backwards in reverse |
| Batches.RunDelivers | proc/filter/filter.go:22-37 | However records are cut into batches, a run of procs delivers what it computes from the records, up to a panic before it |
| Batches.PanicsExactly | proc/head/head.go:21-48 | A panic behind some batches comes out of a run of procs if and only if they ask for more than these |
| Batches.MergeDelivers | proc/orderedmerge/orderedmerge.go:73-118 | Reading batch by batch, the merge gives what merging the parents record by record gives, or a beginning of it before it panics |
| Batches.MergePanicsExactly | proc/orderedmerge/orderedmerge.go:73-118 | Read to its end the merge panics if and only if some parent hands over an empty batch |
| Batches.ChunksDeliver | zbuf/batch.go:34-53 | Cutting the merged records into batches keeps them, except for those of a batch that a panic keeps from being filled |
| Batches.ChunkSizes | zbuf/batch.go:34-53 | All batches of the merge but the last have a hundred records, and none is empty |
| Batches.EmptiedExactly | proc/filter/filter.go:22-37 | Stateless procs pass on an empty batch if and only if a filter empties it, or it comes empty, and no cut follows |
| Batches.EmptyAmongHead | proc/head/head.go:21-48 | A head passes on an empty batch if and only if one comes while it still wants records |
| Batches.BranchHandsEmpty | driver/compile.go:439-558 | A branch hands the merge an empty batch if and only if a filter in it empties a batch, no cut follows, and it does not end in a tail or a head that has enough |
| Batches.GraphExactly | proc/orderedmerge/orderedmerge.go:73-118 | A graph panics if and only if it merges, a branch hands over an empty batch and the tail asks that far; else it computes the tail on the merged records |
| Batches.ParallelExactly | driver/compile.go:397-558 | For every pipeline, distribution and batches the rewritten pipeline computes what the original does, unless nothing is left for the branches or the merge comes to an empty batch |
| Batches.RightExactly | driver/compile.go:397-558 | Without a head from the split on, it does so if and only if no branch passes on an empty batch |
| Batches.EmptyBatchPanics | proc/orderedmerge/orderedmerge.go:73-118 | Two records in two batches and a filter that drops one of them: the rewritten pipeline panics where the original answers |
| Batches.UniqDoesNotCompile | proc/compiler/compiler.go:192-194 | A pipeline that begins with uniq is rewritten to one that does not compile |
| Batches.RenameExactly | driver/compile.go:491-499 | For two or more branches, a rename in the branches gives the same output for every input, distribution and non-empty batches if and only if it leaves the sort field alone |
| ParallelGroups.GroupStats | driver/parallel.go:123-131 | The group's counters are the accumulated ones and those of the registered scanners, walked in any order |
| ParallelGroups.DoneSourceKeeps | driver/parallel.go:116-121 | Moving a scanner from the registered ones to the total loses and repeats nothing |
| ParallelGroups.StepKeeps | driver/parallel.go:35-121 | Every step of every head keeps the invariant |
| ParallelGroups.StatsCountEachScannerOnce | driver/parallel.go:123-131 | In every state of every run the counters are the sum over all opened scanners, each once |
| ParallelGroups.NothingIsLost | driver/parallel.go:116-131 | In every state of every run they are all that the scanners have counted in the steps so far |
| ParallelGroups.SourcesAreNotShared | driver/parallel.go:92-114 | No two heads ever have the same source |
| ParallelGroups.StoppedRun | driver/parallel.go:35-136 | At the end every source has gone to one head, and each head has passed on its sources in the order sent |
| ParallelGroups.RunsAreBounded | driver/parallel.go:35-136 | Every step leaves less to do, so no run is longer than the work at its start |
| ParallelGroups.EveryRunCanEnd | driver/parallel.go:35-136 | No run gets stuck: from every reachable state it can be continued until all heads have stopped |
| ParallelGroups.ParallelRunExactly | driver/parallel.go:35-136 | For every interleaving of the heads the parallel pipeline computes what the pipeline computes on all sources in order, or fails exactly as the rewriting does on the batches passed on |
| Bstring.StringOf | zng/bstring.go:43-75 | Copying stretches and escaping bytes gives the text rune by rune |
| Bstring.TextOfAscii | zng/escape.go:15-32 | Which ASCII bytes are written as they are, doubled or escaped, in each format and position |
| Bstring.TextOfRune | zng/bstring.go:59-71 | Other runes are written as they are if they print, and never in the format for ASCII alone |
| Bstring.DigitsOfByte | zng/bstring.go:34-67 | An escape is a backslash, an x and the byte's two hexadecimal digits |
| Bstring.UnescapeBstring | zng/escape.go:34-69 | Replaces every escape, and leaves a backslash that starts none |
| Bstring.TextRoundTrip | zng/bstring.go:43-75 | Unescaping gives back any byte string from its text in any format with escapes |
| UnescapedText.UnescapedReadsBack | zng/escape.go:34-69 | In the format that escapes no backslash a byte string comes back if and only if none of its backslashes stands before a backslash, before a byte written as an escape, or before an x and two bytes of which one is a hexadecimal digit |
| UnescapedText.MisreadExample | zng/escape.go:55-69 | The four characters of an escape are such a byte string |
| Bstring.BoundaryAfterText | zng/parser.go:135-158 | No text holds a semicolon that ends the field early |
| Bstring.ParseField | zng/parser.go:105-160 | Reads a field up to the first semicolon that is not escaped, with no value for a lone hyphen |
| Bstring.FieldRoundTrip | zng/parser.go:105-160 | Parsing the text of a byte string, a semicolon and any rest gives the normalized byte string and leaves the rest |
| Sets.NormalizeSet | zng/set.go:107-131 | Sorts the elements and drops duplicates |
| Sets.NormalizedIsIncreasing | zng/set.go:103-106 | The result is a set body with the same elements, strictly increasing |
| Sets.NormalizationIsCanonical | zng/set.go:103-131 | Bodies with equal element sets give identical bytes, and normalizing twice changes nothing |
| Sets.CheckSet | zng/recordval.go:163-194 | Accepts an unset body, and for an element type that is no container exactly the well-formed bodies whose elements are primitive and strictly increasing |
| Sets.NormalizedPasses | zng/recordval.go:163-194 | Normalized primitive elements are accepted |

## Left out

- Files, networks, processes, context cancellation and error returns of I/O: files are sequences of records or bytes in memory, and a spilled run's size on disk is an arbitrary number.
- 64-bit overflow of timestamps, spans, offsets and counters: integers are unbounded, except that varints and tags are 64-bit.
- Unicode tables: which runes are printable, normalization, and case folding beyond ASCII are parameters.
- Filter.Apply: regular expressions, number, boolean, null and time literals, searches for subnets and general expressions are one arbitrary predicate; no prefilter is built for them. Literal types that the query language does not write (such as int8), which only a hand-made expression tree could hold, are not modelled.
- Fields.FieldIter.Next: bodies are those of conforming records, so the error for bytes behind the last column does not arise.
- Filter.FieldValue: does not model indexing into maps.
- zngScanner's grouping of records into one batch per compressed buffer, and type definition messages in a zng stream.
- LookupAll with fewer keys than the index has, and null or missing keys: lookups are with full keys of one arity.
- The bytes of a microindex record: a write takes an arbitrary positive number of bytes, so every frame threshold and every layout is covered.
- The seek index of a chunk, whose entries the scan does not read, and the names of directories and files beyond the ids and timestamps in them.
- MicroindexWriter.Writer.Write: does not say which layer ran out of levels when it fails.
- Flowgraph.ParallelizeFlowgraph: does not model sort, group-by and top procs, so the flag for pipelines that contain a sort is constant; nested sequential and parallel procs are never split, as in the source.
- Flowgraph.EachKeepsKey: records are flat, so a dotted field name is one name.
- Batches.RunDelivers: tail, fuse and nested pipelines pull all their input before they pass anything on, a nested pipeline is an arbitrary function of its input, and errors of procs are not modelled.
- Batches.ParallelExactly: the sort field is in every record and no two records agree in it, since the order of records that do is not determined.
- ProcMeaning.FuseMeaning: the source renames columns of conflicting types, and the model has one value type; the order of type identifiers is a parameter, the same for a pipeline and its rewritten form.
- ProcMeaning.RenameMeaning: a rename to a name the record has already is an error in the source; errors of procs are not modelled.
- ProcMeaning.CountsAddUp: a record that has a column _uniq already is passed on without its count, as in the source.
- ParallelGroups.StepKeeps: a head that is closed while it scans, and errors of sources, are not steps of the model.
- ColumnBuilders.BuildAndWalk: leaves are primitives, unset values and containers given by their bytes; a leaf that is itself a record is left out, since the walk would go into it.
- Bstring.ParseField: reads byte strings only; containers and unions are reported as errors, and so is a backslash at the very end, where the source slices past it.
- The columns computed for a scan, the setting of sort directions on group-by procs and the lifting of a leading filter into the scan.
- zst, pcap, alpha and the generated query parser.
