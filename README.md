# actix-blog: the blog compiler and its validators, in Dafny

This project models the part of actix-blog that turns a post's markdown into a
stored blog, and the small value checks around it. The Rust sources are not run;
they are restated here and their properties are proved.

**Compilers.** The library's `parse` reads the title from a leading level-1
heading of plain text. It rewrites the URL of every inline image the injector
hosts and records the original URL once. It renders the HTML, turning fenced code
blocks into a single rendered block (`extend_parse`, the block transducer).
`parse_preview` picks the first newline-terminated line of plain prose and keeps a
word-capped run of inline events from there, together with the plain-text
description. The application keeps two older copies of the compiler:

- `src/domain/blog/parse.rs` gates images by a file-name rule instead of the
  injector, and cuts the preview at 40 events;
- `src/modules/blog/parse.rs` cuts the stream with two iterator adapters over a
  `Peekable`.

**Injector and images.** The image host injector moves hosted images under
`{server}/blogs/{blog id}/public/{file}`. Image file names must be bare names
with an extension, checked against per-module whitelists.

**Validators.** The remaining files are small checks and codecs:

- the link island's URL test;
- user names, both the value object and the registration rule;
- the validation error collectors and their messages;
- sub-category lists;
- the preview and content buffers;
- the inline `id,name[,color]` records the database returns, and `;`-separated
  lists of them;
- the role byte;
- the paging parameters;
- the bearer token of the `Authorization` header.

**External code.** The markdown tokenizer (pulldown-cmark's `Parser`), the HTML
renderer (`push_html`), the code-block island renderer and `Uuid::parse_str` belong
to other crates. They are function-typed parameters of the operations that use
them, and every result is stated for any such function. A few tests depend on what
the tokenizer produces for one concrete document. Those lemmas take the token
stream as a hypothesis about the tokenizer argument.

**State.** Code that updates state in place is modelled as classes whose methods
carry `modifies` clauses, each proved against a specification function:

- `VecSet`;
- the iterators `TakeCount`, `LinesIndices`, `Peekable`, `InclusiveTakeUntil` and
  `PeekTakeUntil`;
- the block transducer's closure state;
- `FieldErrors` and `StructErrors`.

Code that computes values is modelled as functions and lemmas. Rust strings are
`seq<char>`. Where the Rust code counts bytes (`len()`, `char_indices`, byte
offsets), the model counts UTF-8 bytes with `Text.Utf8Len`.

## Model

| member | source | states |
|---|---|---|
| VecSets.VecSet.constructor | libs/markdown-parse/src/lib.rs:10-11 | the default set is empty |
| VecSets.VecSet.Insert | libs/markdown-parse/src/lib.rs:17-24 | answers true exactly when the item was absent; then appends it at the end, otherwise changes nothing; never creates a duplicate |
| VecSets.VecSet.Contains | src/shared/vec_set.rs:9 | the linear scan answers true exactly when an equal item is stored |
| VecSets.VecSet.IntoInner | src/utils/vec_set.rs:22-24 | yields the stored items in insertion order, without duplicates |
| VecSets.InsertAllFacts | src/utils/vec_set.rs:13-20 | inserting a whole sequence keeps the old items first and in order, adds exactly the new items, and repeats none |
| VecSets.InsertAllAppend | src/shared/vec_set.rs:8-15 | inserting `a` and then `b` is the same as inserting `a + b` |
| VecSets.InsertAllOrder | libs/markdown-parse/src/lib.rs:17-24 | the items appended after the old ones are new, come from the inserted sequence, and appear in the order of their first occurrences there |
| VecSets.InsertAllFirstSeen | libs/markdown-parse/src/lib.rs:17-24 | inserting into an empty set lists each distinct item once, in first-seen order |
| ImageUrls.Mutate | libs/markdown-parse/src/parse.rs:35-48 | an inline image the injector accepts gets its URL rewritten by the injector and keeps its title; every other event is unchanged |
| ImageUrls.MutateAll | libs/markdown-parse/src/parse.rs:102-105 | the mapped stream has the same length, and each event is the mutation of the event at that position |
| ImageUrls.AcceptedUrlsMembers | libs/markdown-parse/src/parse.rs:40-45 | a URL is recorded exactly when some accepted inline image of the stream has it |
| ImageUrls.CollectImagesFacts | libs/markdown-parse/src/parse.rs:98-105 | the collected images are exactly the original URLs of the accepted inline images, without duplicates, in the order each was first accepted |
| ImageUrls.MutateItem | libs/markdown-parse/src/parse.rs:35-47 | the event becomes its mutation, and the set gains the original URL exactly when the image is accepted and the URL is new |
| ImageUrls.MutateStream | libs/markdown-parse/src/parse.rs:102-107 | mapping a stream item by item gives the mutated stream and the collected images |
| Titles.TitleEndFacts | libs/markdown-parse/src/parse.rs:65-78 | the title loop accepts exactly a run of text closed by the first level-1 heading end or by the end of the stream; it rejects exactly when some other event interrupts the run |
| Titles.TitleOfAppend | libs/markdown-parse/src/parse.rs:80-89 | the title fold of a concatenation is the concatenation of the folds |
| Titles.TitleOfHeading | libs/markdown-parse/src/parse.rs:54-93 | a heading of text events yields their concatenated text as the title, or `InvalidTitle` when that text is empty; the rest starts right after the heading's end |
| Titles.ReadTitle | libs/markdown-parse/src/parse.rs:50-93 | the imperative title loop returns exactly the title and the resume index of the specification; the index is at least 1 and within the stream |
| Compile.Parse | libs/markdown-parse/src/parse.rs:50-114 | the compiled post equals the specification on the tokenizer's stream: title rules first, then the title events and the mutated rest are rendered through the block transducer |
| Compile.RenderBody | libs/markdown-parse/src/parse.rs:56-74 | the content is the title events rendered through one run of the transducer followed by the remaining events, image URLs rewritten, through a second run; the images are the accepted ones of the remaining events |
| Compile.ContentStartsWithTitle | libs/markdown-parse/src/parse.rs:100 | when the heading is closed, the content begins with the HTML of the title events exactly as tokenized |
| Compile.ImagesAreAcceptedAfterTitle | libs/markdown-parse/src/parse.rs:102-113 | the images are exactly the accepted inline-image URLs after the title, each once, in the order each was first accepted |
| Compile.TitleMustComeFirst | libs/markdown-parse/src/parse.rs:266-275 | a document that opens with a paragraph fails with `InvalidTitle` |
| Compile.TitleMustBeText | libs/markdown-parse/src/parse.rs:277-283 | an image inside the heading makes the title invalid |
| Compile.CleanTitle | libs/markdown-parse/src/parse.rs:348-354 | the title is the heading's text without markup |
| Compile.CollectsImages | libs/markdown-parse/src/parse.rs:285-298 | with the test injector, both images are collected in document order, as written |
| Compile.ImagesExampleAccepted | libs/markdown-parse/src/parse.rs:40-45 | for any injector, the example's images collected are exactly those it accepts, in order |
| Compile.NoImagesNoUrls | libs/markdown-parse/src/parse.rs:40 | a stream with no `Start` event records no URL |
| BlockTransducer.MDEventsIter.Next | libs/markdown-parse/src/component_parse.rs:145-150 | yields the single event once, or drains the deque from the back; once empty it yields nothing more |
| BlockTransducer.StepFacts | libs/markdown-parse/src/component_parse.rs:44-116 | one closure call keeps the state consistent; unless it closes a fenced code block, it loses and reorders nothing; a fenced end empties the state and emits exactly one `Html` event |
| BlockTransducer.RunBalance | libs/markdown-parse/src/component_parse.rs:44-116 | over a stream without fenced code, the held events followed by the input equal the emitted events followed by what is still held |
| BlockTransducer.EndingWithEndCloses | libs/markdown-parse/src/component_parse.rs:51-53 | a stream that ends with an `End` event leaves nothing held |
| BlockTransducer.PassThrough | libs/markdown-parse/src/component_parse.rs:40-119 | a stream without fenced code blocks that ends closed comes out unchanged |
| BlockTransducer.TransduceAppend | libs/markdown-parse/src/component_parse.rs:44 | once a prefix has closed every element, the rest is transduced independently |
| BlockTransducer.FencedBlockBecomesOneHtml | libs/markdown-parse/src/component_parse.rs:56-98 | a fenced code block becomes one `Html` event, rendered with the fence's language and its text: newest text first, trimmed, trailing fences stripped |
| BlockTransducer.ElementBuffer.Feed | libs/markdown-parse/src/component_parse.rs:45-115 | the closure's captured deque and flag change exactly as one specification step says, and it emits that step's events |
| BlockTransducer.TransduceEvents | libs/markdown-parse/src/component_parse.rs:44-116 | the `flat_map` loop emits exactly the transduced stream, which is the input itself when there is no fenced code and the stream ends closed |
| BlockTransducer.DrainInto | libs/markdown-parse/src/component_parse.rs:142-151 | iterating one `MDEvents` to its end appends exactly its items, in order |
| BlockTransducer.ExtendParse | libs/markdown-parse/src/component_parse.rs:40-119 | appends to the buffer the HTML of the transduced stream |
| TakeCounts.CappedIsLongestPrefixBelowCap | libs/markdown-parse/src/parse.rs:153-164 | what the adapter yields is the longest prefix whose running weight stays below the cap: it is a prefix, its total is below the cap, and the next item would reach it |
| TakeCounts.TakeCount.constructor | libs/markdown-parse/src/parse.rs:136-143 | a new adapter has counted nothing and will yield exactly the capped prefix |
| TakeCounts.TakeCount.Next | libs/markdown-parse/src/parse.rs:153-164 | pulls one item and adds its weight; yields it only while the count stays below the cap, and what remains shrinks by exactly that item |
| LinesIndices.LinesAreSplitPieces | libs/markdown-parse/src/parse/lines_indices.rs:20-26 | the lines yielded are the pieces of `split('\n')` except the last; the text after the final newline is never yielded |
| LinesIndices.LinesAreLocated | libs/markdown-parse/src/parse/lines_indices.rs:25 | every yielded offset points at its line in the text, followed by a newline |
| LinesIndices.LineOffsetsAdvance | libs/markdown-parse/src/parse/lines_indices.rs:21-23 | the first line starts at byte 0, and each next line starts one byte after the previous line's end |
| LinesIndices.HelloWorldLines | libs/markdown-parse/src/parse/lines_indices.rs:33-38 | `hello\nworld\n` yields `(0, hello)` and `(6, world)` |
| LinesIndices.LinesIndices.constructor | libs/markdown-parse/src/parse/lines_indices.rs:8-14 | a new iterator will yield exactly the lines of the text |
| LinesIndices.LinesIndices.Next | libs/markdown-parse/src/parse/lines_indices.rs:20-26 | advances the cursor past the next newline and yields the head of what remains; yields `None` once no line is left |
| Preview.TakeWhileIsLongestPassingPrefix | libs/markdown-parse/src/parse.rs:185-194 | `take_while` keeps the longest prefix whose every item passes the predicate |
| Preview.FirstQualifyingIsFirst | libs/markdown-parse/src/parse.rs:169-170 | the search answers the offset of the first line whose first 40 events are all readable; it answers nothing exactly when no line qualifies |
| Preview.FindPreviewStart | libs/markdown-parse/src/parse.rs:169-170 | walking the lines iterator until a line qualifies gives the specification's answer |
| Preview.PreviewEventsFacts | libs/markdown-parse/src/parse.rs:172-196 | the preview is a prefix of the stream spending fewer than 30 words; after its first event only allow-listed events follow; it stops at the first event that is not allow-listed or that exhausts the budget |
| Preview.DescriptionAppend | libs/markdown-parse/src/parse.rs:199-209 | the description of a concatenation is the concatenation of the descriptions |
| Preview.DescriptionOfWrappedLine | libs/markdown-parse/src/parse.rs:204 | markup contributes nothing, and a soft break between two texts reads as two spaces |
| Preview.ParsePreview | libs/markdown-parse/src/parse.rs:168-217 | the result equals the preview specification: the line search, then the event selection, then the HTML and the description |
| Preview.SelectPreview | libs/markdown-parse/src/parse.rs:183-196 | the first item of the word-capped iterator followed by the `take_while` run over the same iterator gives the specified preview events |
| Preview.NoPreviewIff | libs/markdown-parse/src/parse.rs:219-233 | there is no preview exactly when no newline-terminated line has only readable events among its first 40 |
| Preview.NoNewlineNoPreview | libs/markdown-parse/src/parse.rs:169 | a document without a newline never gets a preview |
| Preview.PreviewStopsAt | libs/markdown-parse/src/parse.rs:172-196 | a run under the word budget whose events after the first are allow-listed, followed by an event that is not, is exactly the selected preview |
| Preview.PreviewAfterBlankLine | libs/markdown-parse/src/parse.rs:168-170 | when the first line is not prose and the second is blank, the preview is read from the blank line's newline onwards |
| Preview.HeadingIsNotProse | libs/markdown-parse/src/parse.rs:169-170 | a line read as a heading around one text does not qualify as the preview's start |
| PreviewExamples.OneTextParagraphPreview | libs/markdown-parse/src/parse.rs:172-196 | a one-text paragraph under the word budget followed by another paragraph is the whole preview |
| PreviewExamples.ThreeLinkParagraphPreview | libs/markdown-parse/src/parse.rs:172-196 | a paragraph of texts around three links, under the word budget and followed by another paragraph, is the whole preview |
| PreviewExamples.ThreeLinkParagraphDescription | libs/markdown-parse/src/parse.rs:199-209 | such a paragraph's description is its texts and link texts in order, a soft break reading as two spaces |
| PreviewExamples.DelveIntroPreview | libs/markdown-parse/src/parse.rs:240-256 | the first paragraph of `it_takes_by_text` (26 words) is the preview, and its description is the string the test expects |
| PreviewTests.CollectsPreview | libs/markdown-parse/src/parse.rs:301-313 | `collects_preview`: for a tokenizer reading the document as the test's events, the preview is the first paragraph without the image, rendered as the test expects |
| PreviewTests.ItTakesByText | libs/markdown-parse/src/parse.rs:240-256 | `it_takes_by_text`: for a tokenizer reading the document as the test's events, a preview exists and its description is the one the test expects |
| ValueObjects.ValidatePreview | libs/markdown-parse/src/value_objects.rs:20-30 | `Empty` exactly for the empty string and `MaxLen` exactly beyond 400 bytes, so exactly byte lengths 1 to 400 pass |
| ValueObjects.PreviewTryFrom | libs/markdown-parse/src/value_objects.rs:43-57 | succeeds exactly when validation does, keeping the string unchanged, and fails with validation's error |
| ValueObjects.ValidateContent | libs/markdown-parse/src/value_objects.rs:78-84 | fails exactly on the empty string |
| ValueObjects.ContentTryFrom | libs/markdown-parse/src/value_objects.rs:97-111 | succeeds exactly on non-empty strings, keeping them unchanged |
| ValueObjects.PreviewCountsBytes | libs/markdown-parse/src/value_objects.rs:26 | the limit counts bytes: 399 ASCII characters plus one more pass exactly when that character is ASCII |
| DomainParse.Parse | src/domain/blog/parse.rs:40-102 | this copy's compiled post equals its specification: the same title rules, images gated by the blog file-name rule, no code-block rewrite |
| DomainParse.ImagesAreBlogFilenames | src/domain/blog/parse.rs:25-38 | every collected image is a valid blog file name with no directory part and is the URL of an inline image after the title; every inline image after the title with such a URL is collected; no duplicates, in first-seen order |
| DomainParse.CollectsOnlyBareImages | src/domain/blog/parse.rs:209-219 | `./bruda.png` has a directory part, so only `image.png` is collected |
| DomainParse.DomainPreviewEventsFacts | src/domain/blog/parse.rs:109-120 | the preview is a prefix of at most 40 events that starts with the stream's first event; later events are allow-listed; it stops at the first event that is not |
| DomainParse.ParsePreview | src/domain/blog/parse.rs:104-125 | this copy's preview equals its specification |
| DomainParse.DomainNoPreviewIff | src/domain/blog/parse.rs:127-137 | there is no preview exactly when no newline-terminated line has only text and readable containers among its first 40 events |
| TakeUntil.InclusivePrefixFacts | src/modules/blog/parse/inclusive_take_until.rs:24-33 | the adapter yields a prefix of its source in which only the last item may match, and stops early only right after a match |
| TakeUntil.UntilMatchFacts | src/modules/blog/parse/peek_take_until.rs:21-30 | the adapter yields a prefix with no matching item, and stops only at a matching item |
| TakeUntil.RecordedIsCollected | src/modules/blog/parse.rs:29-37 | pulling events one at a time through the `inspect` hook collects exactly their accepted images |
| TakeUntil.InspectedParser.Next | src/modules/blog/parse.rs:29-37 | yields the next event and advances by one, or `None` at the end |
| TakeUntil.Peekable.Peek | src/modules/blog/parse.rs:40 | shows the next item without consuming it |
| TakeUntil.Peekable.Next | src/modules/blog/parse.rs:40 | yields the head of what remains, and what remains loses exactly that item |
| TakeUntil.InclusiveTakeUntil.constructor | src/modules/blog/parse/inclusive_take_until.rs:8-14 | the new adapter will yield the inclusive prefix of its source |
| TakeUntil.InclusiveTakeUntil.Next | src/modules/blog/parse/inclusive_take_until.rs:24-33 | once ended it yields nothing and leaves its source untouched; otherwise it passes one item on and latches when the item matches |
| TakeUntil.PeekTakeUntil.constructor | src/modules/blog/parse/peek_take_until.rs:9-11 | the new adapter will yield the items before the first match |
| TakeUntil.PeekTakeUntil.Next | src/modules/blog/parse/peek_take_until.rs:21-30 | yields the next item only when the peeked item does not match; a match stays peeked |
| ModulesParse.PreTitleFacts | src/modules/blog/parse.rs:42-46 | the pre-title is a prefix that holds no level-1 heading start except as its last event, and it stops short only at such a start |
| ModulesParse.TitleFacts | src/modules/blog/parse.rs:48-52 | the title is the run after the pre-title with no level-1 heading end; it stops at the end of the stream or at such an end |
| ModulesParse.DropsHeadingEnd | src/modules/blog/parse.rs:39-56 | as written, the three renderings see every event except the heading's end, which the dropped `Peekable` held |
| ModulesParse.HeadingEndLost | src/modules/blog/parse.rs:39-56 | for `# Hello world\nFoo bar` as written, the heading's end event reaches no renderer |
| ModulesParse.ParseAsWritten | src/modules/blog/parse.rs:24-67 | the imperative parse as written returns its specification, in which the rest is read from the parser |
| ModulesParse.RendersEveryEvent | src/modules/blog/parse.rs:39-56 | when the rest is read from the `Peekable`, the three renderings together see every event in order |
| ModulesParse.Parse | src/modules/blog/parse.rs:24-67 | the corrected parse returns its specification, which keeps the heading's end |
| ModulesParse.NoHeadingIsEmptyTitle | src/modules/blog/parse.rs:58-60 | without a level-1 heading the title is empty, so the parse fails with `EmptyTitle` |
| ModulesParse.ImagesAreModuleFilenames | src/modules/blog/parse.rs:29-37 | the images are exactly the module-valid URLs of inline images anywhere in the stream, without duplicates, in first-seen order |
| ModulesParse.ReadHeading | src/modules/blog/parse.rs:39-53 | reading through the `Peekable` gives the pre-title and the title of the specification |
| ModulesParse.DrainPeek | src/modules/blog/parse.rs:52 | draining the peek adapter yields the items before the match, and the match stays peeked |
| ModulesParse.DrainInclusive | src/modules/blog/parse.rs:46 | draining the inclusive adapter yields the inclusive prefix |
| ModulesParse.PreTitleStopsBeforeHeading | src/modules/blog/parse.rs:73-93 | the heading start ends the pre-title and is the next event peeked |
| ModulesParse.InclusiveCutKeepsHeadingEnd | src/modules/blog/parse.rs:120-143 | an inclusive cut at the heading end keeps that end in the title |
| ModulesParse.CollectsImages | src/modules/blog/parse.rs:145-157 | `./bruda.png` has a directory part, so only `image.png` is collected |
| Filenames.NewWithExtension | src/domain/images.rs:49-65 | `HasParent` whenever a `/` occurs; otherwise the name is returned unchanged with the text after its last dot, which is non-empty |
| Filenames.NewWithExtensionIff | src/domain/images.rs:49-65 | a name is accepted exactly when it has no `/`, has a dot, and does not end with its last dot |
| Filenames.NewWithExtensionExamples | src/domain/images.rs:110-132 | the module's tests: `foo` and `foo.` are refused as `InvalidExtension` and `foo/bar` as `HasParent`; an added example beyond those tests: `image.png` gives extension `png` |
| Filenames.NewWithin | src/domain/blog/images.rs:53-61 | a name passes exactly when it is an image file name whose extension is on the whitelist |
| Filenames.ExtensionOf | src/domain/images.rs:58-63 | a name `stem.ext`, where `ext` has no dot and no `/`, has extension `ext` |
| Filenames.UnknownExtensionRefused | src/domain/blog/images.rs:84-88 | an unknown extension is refused by both whitelists |
| Filenames.JpegAccepted | src/modules/blog/images.rs:135-139 | `filename.jpeg` passes both whitelists |
| Filenames.JpgOnlyInBlog | src/modules/blog/images.rs:11 | `jpg` passes the blog's rule and fails the oldest module's |
| Uuids.HexByteRoundTrip | src/domain/blog/img_host_injector.rs:41 | a byte's two hexadecimal digits give the byte back |
| Uuids.HexBytesInjective | src/domain/blog/img_host_injector.rs:41 | equal-length byte strings with equal hexadecimal digits are equal |
| Uuids.Hyphenated | src/domain/blog/img_host_injector.rs:41 | a UUID displays as 36 characters |
| Uuids.HyphenatedInjective | src/domain/blog/img_host_injector.rs:38-44 | distinct blog identifiers display differently |
| Uuids.NilHyphenated | src/domain/blog/img_host_injector.rs:66-68 | the nil UUID displays as zeros in the 8-4-4-4-12 groups |
| ImgHostInjector.Create | src/domain/blog/img_host_injector.rs:20-25 | the injector carries the factory's server address and the given blog id |
| ImgHostInjector.Inject | src/domain/blog/img_host_injector.rs:38-44 | the rewritten URL is the server address, `/blogs/`, the displayed blog id, `/public/`, then the original URL |
| ImgHostInjector.InjectInjective | src/domain/blog/img_host_injector.rs:38-44 | on one server, the rewritten URL determines the original URL and the blog |
| ImgHostInjector.AsInjector | src/domain/blog/img_host_injector.rs:34-36 | the injector accepts exactly the valid blog file names and rewrites with `inject` |
| ImgHostInjector.WosiCompiled | src/domain/blog/img_host_injector.rs:53-69 | for any injector hosting `wosi.jpg`, the test document compiles with title `Hello my brodas` and images `[wosi.jpg]` |
| ImgHostInjector.WosiContent | src/domain/blog/img_host_injector.rs:53-69 | its content is the title's HTML followed by the HTML of the paragraph with the rewritten image |
| ImgHostInjector.InjectsUrl | src/domain/blog/img_host_injector.rs:53-69 | with the nil blog on localhost, the original `wosi.jpg` is collected, and the body renders with the URL under `/blogs/{nil}/public/` |
| ImgHostInjector.OnlyCollectsValidImages | src/domain/blog/img_host_injector.rs:72-86 | with this injector, `./bruda.png` is not collected and `image.png` is |
| Islands.IsUrlIff | libs/markdown-islands/src/lib.rs:89-94 | a text is a URL exactly when its first `://` has at least one character before it and at least one after it |
| Islands.OnlyFirstSeparatorCounts | libs/markdown-islands/src/lib.rs:90 | only the first `://` counts: `://a://b` is not a URL although its second separator is surrounded |
| Islands.SchemeUrl | libs/markdown-islands/src/lib.rs:89-94 | a lower-case scheme, `://` and a non-empty rest make a URL |
| Islands.NoColon | libs/markdown-islands/src/lib.rs:90 | every URL contains a colon, so text without one is never taken for a URL |
| Islands.CheckUrl | libs/markdown-islands/src/lib.rs:100-103 | `https://google.com` is a URL |
| Islands.CheckHasOneTrailing | libs/markdown-islands/src/lib.rs:105-108 | `https://a` is a URL |
| Islands.CheckNotUrl | libs/markdown-islands/src/lib.rs:110-113 | `google.com` is not a URL |
| Islands.CheckHasTrailing | libs/markdown-islands/src/lib.rs:115-118 | `https://` is not a URL |
| Islands.CheckHasProtocol | libs/markdown-islands/src/lib.rs:120-123 | `://google.com` is not a URL |
| Usernames.CheckStr | src/domain/user/value_objects/username.rs:30-44 | `Empty` exactly for the empty name, `Maxlen` exactly beyond 100 bytes, `InvalidChar` exactly when some character is invalid, in that order of priority |
| Usernames.AcceptedIsShortAlphanumeric | src/domain/user/value_objects/username.rs:15-21 | a name is accepted exactly when it has 1 to 100 characters, all ASCII letters or digits |
| Usernames.FromUnchecked | src/domain/user/value_objects/username.rs:57-81 | trims the name, adds one message per failed rule in order, and fails with those messages or returns the trimmed name |
| Usernames.FromUncheckedAgreesWithCheckStr | src/domain/user/value_objects/username.rs:57-81 | it accepts exactly what `check_str` accepts after trimming; it reports one or two messages; an empty name gives `min length is 1, got: 0` |
| Usernames.UncheckedErrorsFacts | src/domain/user/value_objects/username.rs:61-74 | no message is gathered exactly when `check_str` accepts the trimmed name; at most two are; an empty name gives only `min length is 1, got: 0` |
| Usernames.StoredNameIsTrimmed | src/domain/user/value_objects/username.rs:60 | an accepted name is non-empty and has no whitespace at either end |
| Usernames.ValidateUsername | src/routes/auth/register.rs:28-40 | fails, with code `invalid`, exactly when some character is invalid |
| Usernames.RegisterVersusCheckStr | src/routes/auth/register.rs:18 | the registration rules accept what `check_str` accepts plus names over 100 bytes; the empty name passes the character check |
| Usernames.RegisterName | src/routes/auth/register.rs:69-72 | the given name, or the user name when none is given |
| Validation.Custom | src/server/shared/domain_validation/error.rs:51-53 | the message is kept as given |
| Validation.MinLenUnambiguous | src/server/shared/domain_validation/error.rs:35-37 | a `minlen` message determines both of its numbers |
| Validation.MaxLenUnambiguous | src/server/shared/domain_validation/error.rs:39-41 | a `maxlen` message determines both of its numbers |
| Validation.LenUnambiguous | src/server/shared/domain_validation/error.rs:43-45 | a `len` message determines both of its numbers |
| Validation.LengthMessagesDiffer | src/server/shared/domain_validation/error.rs:35-45 | the three kinds of length message never coincide |
| Validation.MinLenExample | src/server/shared/domain_validation/error.rs:35-37 | `minlen(0, 1)` reads `min length is 1, got: 0` |
| Validation.MaxLenExample | src/server/shared/domain_validation/error.rs:39-41 | `maxlen(11, 10)` reads `max length is 10, got: 11` |
| Validation.LenExample | src/server/shared/domain_validation/error.rs:43-45 | `len(3, 4)` reads `length is 3, expected: 4` |
| Validation.FieldErrors.Add | src/server/shared/domain_validation/error.rs:56-60 | appends the message at the end |
| Validation.FieldErrors.IsEmpty | src/server/shared/domain_validation/error.rs:19-22 | true exactly when no message was added |
| Validation.FieldErrors.Into | src/server/shared/domain_validation/error.rs:68-72 | the field error carries the messages in order |
| Validation.StructErrors.Add | src/server/shared/domain_validation/error.rs:29-31 | records the field's error and replaces any earlier one; other fields are kept |
| Validation.StructErrors.IsEmpty | src/server/shared/domain_validation/error.rs:25-27 | true exactly when no field was added |
| Validation.StructErrors.Into | src/server/shared/domain_validation/error.rs:62-66 | the structure error carries the map of fields |
| Validation.StructErrorsReplace | src/server/shared/domain_validation/error.rs:29-31 | adding to one field twice leaves only the second error |
| Validation.FieldErrorsInOrder | src/server/shared/domain_validation/error.rs:56-60 | messages come out in the order they were added, and the collection is then not empty |
| SubCategoryLists.FromUnchecked | src/domain/blog/value_objects/sub_categories.rs:10-26 | succeeds exactly for 1 to 10 ids, keeping them; otherwise fails with `minlen(0, 1)` or `maxlen(len, 10)` |
| SubCategoryLists.AsRef | src/domain/blog/value_objects/sub_categories.rs:29-33 | the ids in the order given |
| InlineDecode.TagFromInline | src/domain/blog_grouping/models/headless_tag.rs:30-49 | `Id` exactly when the first part is not a UUID, `Name` exactly when there is no second part, `Color` exactly when there is no third part; otherwise the first three parts in order |
| InlineDecode.TagRoundTrip | src/domain/blog_grouping/models/headless_tag.rs:30-49 | comma-free parts joined by commas decode to the tag they encode; parts after the third are ignored |
| InlineDecode.SubCategoryFromInline | src/domain/blog_grouping/models/headless_sub_category.rs:27-41 | `Id` exactly when the first part is not a UUID, `Name` exactly when there is no second part; otherwise the first two parts |
| InlineDecode.SubCategoryRoundTrip | src/domain/blog_grouping/models/headless_sub_category.rs:27-41 | comma-free parts joined by commas decode to the sub-category they encode; later parts are ignored |
| InlineDecode.LoneIdHasNoName | src/domain/blog_grouping/models/headless_sub_category.rs:33-35 | a record without a comma, even a valid id, fails with a missing name |
| InlineDecode.CollectAllFacts | src/persistence/db/decode.rs:27 | collecting succeeds exactly when every piece decodes, with one value per piece in order; otherwise it fails with the first failing piece's error |
| InlineDecode.DecodeJoined | src/persistence/db/decode.rs:23-30 | `;`-free records joined by `;` decode to one item per record, in order, exactly when every record decodes |
| InlineDecode.DecodeCountsPieces | src/persistence/db/decode.rs:27-29 | a decoded row has one item per `;`-separated piece, each that piece's value |
| InlineDecode.IntoInner | src/persistence/db/decode.rs:16-19 | the decoded items, unchanged |
| Roles.Serialize | src/domain/user/value_objects/role.rs:10-20 | `User` is written as 0 and `Admin` as 1 |
| Roles.Deserialize | src/domain/user/value_objects/role.rs:22-34 | 0 reads as `User`, 1 as `Admin`; any other byte fails with `Invalid role` |
| Roles.RoleRoundTrip | src/domain/user/value_objects/role.rs:10-34 | reading back what was written gives the same role |
| Roles.ByteRoundTrip | src/domain/user/value_objects/role.rs:28-30 | every accepted byte is the one its role is written as |
| Paging.Default | src/shared/models/select_slice.rs:17-24 | limit 20, offset 0 |
| Paging.FromPartial | src/shared/models/select_slice.rs:29-36 | a missing limit becomes 20 and a missing offset 0; given values are kept |
| Paging.EmptyPartialIsDefault | src/shared/models/select_slice.rs:17-36 | the partial slice gives the default exactly when each field is absent or equal to its default |
| Paging.ParseU32Iff | src/shared/models/flatten_slice.rs:19 | a string parses exactly when, after an optional `+`, it is a non-empty run of digits whose value fits in 32 bits; the result is that value |
| Paging.ParseU32RoundTrip | src/shared/models/flatten_slice.rs:19 | every `u32` printed in decimal parses back to itself |
| Paging.ParseU32Rejects | src/shared/models/flatten_slice.rs:19 | the empty string and a leading minus sign are refused |
| Paging.ParseField | src/shared/models/flatten_slice.rs:11-20 | an absent field gives the default; a present one gives its parse |
| Paging.DeserializeFacts | src/shared/models/flatten_slice.rs:35-39 | the slice is read exactly when both fields are absent or parse; a bad limit is reported first; absent fields take 20 and 0 |
| Paging.DeserializeDecimal | src/shared/models/flatten_slice.rs:35-39 | both fields given in decimal are read as given |
| Paging.StandaloneExample | src/shared/models/flatten_slice.rs:49-56 | `limit=10&offset=20` gives (10, 20) |
| Paging.PartialExample | src/shared/models/flatten_slice.rs:75-90 | a query with only `offset=12` gives (20, 12) |
| Bearer.ToStr | src/utils/http.rs:5 | a header is text exactly when every byte is visible ASCII or a tab, and the text has the same characters |
| Bearer.TokenIff | src/utils/http.rs:3-14 | a header yields the token `t` exactly when its text is `Bearer`, one space, `t` (which holds no space and may be empty), then nothing or a space and anything; no header yields no token |
| Bearer.TokenTextShape | src/utils/http.rs:9-13 | text that yields a token is laid out as `Bearer`, a space, the token, then nothing or a space |
| Bearer.ShapedTextToken | src/utils/http.rs:9-13 | text laid out as `Bearer`, a space, a space-free `t`, then nothing or a space yields `t` |
| Bearer.TokenRoundTrip | src/server/auth/utils.rs:7-13 | `Bearer`, a token and any further pieces, joined by single spaces, give the token back |
| Bearer.OtherSchemeHasNoToken | src/server/auth/utils.rs:10-12 | a header whose first piece is not exactly `Bearer` has no token |
| Bearer.SchemeAloneHasNoToken | src/utils/http.rs:11 | the bare word `Bearer` has no token |
| Bearer.NonTextHasNoToken | src/server/auth/utils.rs:4-5 | a header that is not text has no token |

## Findings

| source | as written | input that shows it | evidently intended | confidence | as-written member | corrected member |
|---|---|---|---|---|---|---|
| src/modules/blog/parse.rs:39-56 | The title's `PeekTakeUntil` peeks the level-1 heading end into the `Peekable`. The `Peekable` is then dropped, and the rest is rendered from `parser`, so the heading end reaches no renderer. | `# Hello world\nFoo bar`: the content has the heading start, the title text and the paragraph, but not the heading end. | Every event is rendered once, in order, with the heading end opening the rest. | not executed | ModulesParse.DropsHeadingEnd | ModulesParse.RendersEveryEvent |

## Left out

- The tokenizer, `push_html` and the code-block island renderer are parameters. The model proves what the compilers do with their output, not the markdown or HTML grammar.
- PreviewTests.CollectsPreview and PreviewTests.ItTakesByText take the events the tokenizer gives for the tests' documents as hypotheses. They hold for any tokenizer producing those events; the events after the first paragraph of `it_takes_by_text` are left arbitrary.
- The library's `parse` feeds the lazy `parser.map(mutate_item)` to `push_html` item by item. The model maps the whole rest first and then renders it. Both orders give the same images and the same stream, because the renderer only sees the mapped events.
- `ImageUrlInjector::inject` overwrites the URL in place. The model returns the new URL as a value; there is no aliasing to capture.
- The block transducer concatenates a code block's text newest first (`push_front`, then a front-to-back iteration). The model does the same. Whether this ever reorders text depends on the tokenizer emitting several text events per block, which is outside the model.
- The title loop also accepts a heading that is never closed, when the stream ends first. The model keeps that case. The rest is then empty.
- The first event of the library's preview is subject to the 30-word cap too. A first event of 30 or more words gives an empty preview. The model follows the code.
- TakeCounts.TakeCount.Next: `count` is a `usize`, whose overflow the model does not represent. The count is an unbounded natural.
- `Preview::from_boxed_unchecked`, the `AsRef` and `Display` impls and the `MarkdownParser` leptos runtime wrapper are not modelled: they only convert types or manage a runtime.
- `Uuid::parse_str` is a parameter of the inline decoders. The model does not restate the UUID text grammar.
- The database value's `as_str` failure in `InlineVec::decode` is not modelled. The row is given as text.
- The query string to `RawSlice` step (`serde_urlencoded`) is not modelled. `Paging.Deserialize` starts from the two optional field texts, and the tests are stated on those.
- `u8::deserialize` failing before the match in the role's `Deserialize` is not modelled. The input is a byte.
- Registration's password hashing, database access and token issuing are not modelled. Only the user-name rules and the name defaulting are.
- The `length(min = 1)` attribute of the registration request is represented by `|s| >= 1` in `Usernames.RegisterVersusCheckStr`. The validator crate counts characters there.
- The file-system parts of the image modules (path factories, `create_ancestors`) are not modelled.
