# Verification of the local filesystem adapter

A Dafny 4.11 model of the adapter's stateful and textual core, with proofs that
range over every input, every run and every interleaving.

| file | models |
|---|---|
| `PathText.dfy`, `Utf8.dfy` | byte texts, `split('/')`, UTF-8 after section 4 of RFC 3629, the error positions of `str::from_utf8` |
| `UriPathCodec.dfy`, `UriPathLaws.dfy` | the `file:` URI path codec (loops as methods, what they compute as functions) and its laws |
| `UriPathReference.dfy` | the codec against references that share none of its definitions: digit tables, code points, the RFC 3986 grammar, every spelling of bytes |
| `UriSyntax.dfy`, `Resolution.dfy` | the generic URI syntax of section 3 of RFC 3986 with recomposition, `decode_config`, and replaying a canonical URI |
| `CleanupControl.dfy`, `ProviderFamily.dfy` | the shared cleanup limits and the registry provider whose clones share them |
| `TempLifecycle.dfy`, `TempRuns.dfy` | the temporary-resource adapter, and all its runs under concurrent limit changes |
| `Listing.dfy`, `ListingTree.dfy` | list options, the prefix filter, the lazy stream, and listing a whole tree |
| `WriterSession.dfy` | the writer session, over every sequence of calls |
| `RangeReader.dfy` | the byte window, over every sequence of short or failing reads |

Reading guide:

- A Rust `&str` is a `seq<Byte>` satisfying `Utf8.Valid`. The table of byte
  classes is checked against code points (`Utf8.EncodingOfCodePoint`,
  `Utf8.CodePointOfEncoding`). The Windows build is a boolean parameter.
- `&mut String` buffers are passed in and returned grown; objects whose methods
  update their fields are classes.
- Native calls answer through parameters. What is assumed of them is stated in
  predicates: `TempRuns.Lawful` and `KeepsReleased`, `RangeReader.LawfulRead`, `ListingTree.WalksTree`
  and `ListingTree.ListsUnder`, `WriterSession.KeepsBytes`, `CountsBytes` and
  `RetainedUnpublished`. A maximum listing depth counts the listed directory as zero
  (src/local_list_resource_limits.rs:20-25).
- `Path::parse` and `Uri::parse` are function-valued parameters; `ResolveFixedPoint`
  assumes only `Resolution.Platform.Rules`: parsing invents no component, a parsed
  path parses to itself, and an accepted URI can be converted again. URI texts are
  kept verbatim and divided as Appendix B of RFC 3986 prescribes.
- Behaviour a reader may not expect, modelled as the code has it: the unescaped set
  of `is_uri_pchar` leaves out `=`, which section 3.3 of RFC 3986 allows, so the
  grammar claim is one-way; a fragment in a configured URI is ignored; a commit
  refused on a terminal session always carries the state `NotPublished`.
- That last state is wrong after a commit that succeeded, after a commit that lost
  its writer to a published target, and after an abort that found it published
  (`WriterSession.RefusedAfterPublication`); the facade in front of the adapter
  answers `Published` after a success
  (tests/local_file_system_behavior_tests.rs:93-118). `RefusedCommitExact` says for
  every run when it is right: exactly when the call that took the writer was itself
  answered `NotPublished`.

## Model

| member | source | states |
|---|---|---|
| UriPathCodec.DecodeUriBytes | src/registry/local_file_uri_path.rs:139-168 | the index loop computes strict percent-decoding, rejecting truncated or malformed escapes and NUL |
| UriPathCodec.PushUriEscapedByte | src/registry/local_file_uri_path.rs:246-251 | appends exactly the uppercase triplet whose two digits have the byte's nibbles as values |
| UriPathCodec.PushUriScalars | src/registry/local_file_uri_path.rs:228-238 | appends each scalar of valid text, escaping percent signs and control characters bytewise |
| UriPathCodec.CanonicalizeUriBytes | src/registry/local_file_uri_path.rs:198-220 | on every byte string the chunked UTF-8 scan equals the one-step recursion: emit the scalar that starts here, else escape one byte |
| UriPathCodec.CanonicalOfInvalidSubpart | src/registry/local_file_uri_path.rs:209-216 | escaping a maximal invalid subpart at once (one byte when its length is unknown) is the same as escaping byte by byte |
| UriPathCodec.CanonicalOfValidFront | src/registry/local_file_uri_path.rs:202-210 | a valid stretch can be canonicalized apart from what follows it |
| UriPathCodec.DecodeComponent | src/registry/local_file_uri_path.rs:117-124 | decodes one component and rejects canonical text holding a separator (a backslash too on Windows) |
| UriPathCodec.DecodeText | src/registry/local_file_uri_path.rs:35-43 | decodes components left to right, answers the first failure, and joins the results with the same separators |
| UriPathCodec.EncodeUriPath | src/registry/local_file_uri_path.rs:62-91 | the re-encoder, with its index on a scalar boundary before every step |
| Utf8.FromUtf8 | src/registry/local_file_uri_path.rs:202-211 | succeeds exactly on valid text; a failure names a valid prefix after which no scalar starts |
| Utf8.InvalidSubpart | src/registry/local_file_uri_path.rs:211-215 | no scalar starts at any byte inside a maximal invalid subpart |
| Utf8.ErrorLenUnknown | src/registry/local_file_uri_path.rs:211 | the length of an error is unknown exactly when the text stops inside a sequence that further bytes would complete |
| Utf8.ErrorLenMaximal | src/registry/local_file_uri_path.rs:209-216 | an error of known length covers a maximal subpart: its bytes begin some scalar if it is longer than one, and one byte more never does |
| Utf8.CodePointsOfText | src/registry/local_file_uri_path.rs:228-231 | the valid texts are the encodings of code point sequences, which `chars` reads back |
| Utf8.EncodingOfCodePoint | src/registry/local_file_uri_path.rs:228-238 | every byte sequence taken as a scalar is the RFC 3629 encoding of its code point |
| Utf8.CodePointOfEncoding | src/registry/local_file_uri_path.rs:228-238 | every Unicode scalar value is recognised from its encoding |
| UriPathLaws.DecodeCanonical | src/registry/local_file_uri_path.rs:139-251 | percent-decoding the canonical text of any bytes, UTF-8 or not, gives those bytes back |
| UriPathLaws.DecodedBytesOfCanonical | src/registry/local_file_uri_path.rs:139-220 | the codec accepts the canonical text of exactly the NUL-free byte strings and recovers them |
| UriPathLaws.CanonicalInjective | src/registry/local_file_uri_path.rs:198-220 | different native bytes have different canonical texts |
| UriPathLaws.ControlsByCodePoint | src/registry/local_file_uri_path.rs:230 | the escaped control characters are U+0000 to U+001F and U+007F to U+009F |
| UriPathLaws.CanonicalValid | src/registry/local_file_uri_path.rs:198-251 | canonical text is always valid UTF-8 |
| UriPathLaws.SeparatorsOfCanonical | src/registry/local_file_uri_path.rs:117-124 | testing canonical text for separators is the same as testing the decoded bytes |
| UriPathLaws.DecodeExact | src/registry/local_file_uri_path.rs:35-44 | a raw path is accepted iff every component is well escaped and decodes without NUL or separator; components are kept one for one, each depending on its raw component alone |
| UriPathLaws.DecodeBlames | src/registry/local_file_uri_path.rs:35-43 | a rejected path is blamed on its first unacceptable component: for the encoding if an escape is malformed or a NUL appears, else for the separator |
| UriPathLaws.EncodeKeepsBytes | src/registry/local_file_uri_path.rs:62-92 | encoding never changes which bytes a text names, stray percent signs included |
| UriPathLaws.EncodeNormal | src/registry/local_file_uri_path.rs:62-101 | every encoding consists of slashes, unescaped path characters and complete triplets, and is at most three times as long |
| UriPathLaws.EncoderFixedPoints | src/registry/local_file_uri_path.rs:62-101 | encoding twice is encoding once, and the unchanged texts are exactly those in normal form |
| UriPathLaws.NormalIsRfc3986 | src/registry/local_file_uri_path.rs:95-101 | normal form lies inside the path grammar of section 3.3 of RFC 3986 and holds no query or fragment mark |
| UriPathLaws.EncodeComponents | src/registry/local_file_uri_path.rs:62-92 | encoding a path encodes its components separately and keeps their number |
| UriPathLaws.DecodeIsCanonical | src/registry/local_file_uri_path.rs:35-44 | every component of a decoded path is the canonical text of acceptable bytes |
| UriPathLaws.DecoderFixedPoints | src/registry/local_file_uri_path.rs:35-44 | decoding leaves a text unchanged iff it is canonical |
| UriPathLaws.RoundTrip | src/registry/local_file_uri_path.rs:35-92 | decoding the canonical URI path of any accepted raw path gives exactly its canonical text |
| UriPathLaws.RoundTripExact | src/registry/local_file_uri_path.rs:46-92 | a path text comes back from its own URI spelling iff it is canonical, the domain the encoder is documented for |
| UriPathLaws.UniqueSpelling | src/registry/local_file_uri_path.rs:35-92 | two accepted raw paths share a canonical URI path iff they have equally many components naming equal bytes |
| UriPathReference.HexValueExact | src/registry/local_file_uri_path.rs:179-186 | the digits of both cases have their values and no other byte has one |
| UriPathReference.DecodedBytesExact | src/registry/local_file_uri_path.rs:139-168 | a component decodes to some bytes iff they hold no NUL and it spells them, each byte plainly or as a triplet with digits in any mixture of cases |
| UriPathReference.CanonicalReference | src/registry/local_file_uri_path.rs:198-238 | over all bytes, in terms of code points alone: the code point encoded here is copied unless it is the percent sign or a control, and a byte none starts at is escaped alone |
| UriPathReference.CanonicalOfScalar | src/registry/local_file_uri_path.rs:228-238 | one scalar becomes its triplets iff it is U+0025, at most U+001F or from U+007F to U+009F, and stays itself otherwise |
| UriPathReference.CanonicalFixedPoints | src/registry/local_file_uri_path.rs:228-238 | a valid text is its own canonical text iff it holds no such code point |
| UriPathReference.PcharExact | src/registry/local_file_uri_path.rs:95-101 | the unescaped set is the `pchar` of section 3.3 of RFC 3986, letter ranges spelled out, without `=` |
| UriPathReference.EncodeReference | src/registry/local_file_uri_path.rs:62-90 | an escape with digits of either case is copied, and any other code point stands for itself iff it is a slash or in that set, else its encoding is escaped |
| UriPathReference.EncoderLeavesAlone | src/registry/local_file_uri_path.rs:62-101 | the encoder leaves alone exactly the texts of slashes, that set and escapes |
| UriSyntax.RecomposedParse | src/registry/local_file_system_provider.rs:225-249 | dividing a URI text loses nothing: recomposing the parts gives the text, and each part ends at its own mark |
| UriSyntax.ParseOfRecomposed | src/registry/local_file_system_provider.rs:225-249 | recomposed parts are read back as they are |
| UriSyntax.ParseFileUri | src/registry/local_file_uri_path.rs:91 | an absolute normal-form path after `file://` is read back as that path with an empty authority, no query and no fragment |
| Resolution.ConfigExact | src/registry/local_file_system_provider.rs:224-255 | a configuration resolves iff it passes the checks before the path, every component of its path is well escaped and names bytes without NUL or separator, and those names make an absolute path that has a URI; the resolution is that path and URI; a foreign scheme and nothing else is unsupported, and a component is blamed only when everything before the path is in order |
| Resolution.ConfigRefusals | src/registry/local_file_system_provider.rs:225-248 | each refusal before the path is answered iff its check is the first to fail |
| Resolution.ConfigPathRefusals | src/registry/local_file_system_provider.rs:249-253 | the same for a path that is undecodable, unparsable, relative or without a URI, with the component to blame |
| Resolution.SameNamesResolveAlike | src/registry/local_file_system_provider.rs:224-255 | local configurations whose paths name equal bytes component by component resolve, or fail to, alike |
| Resolution.DecodedPathReturns | src/registry/local_file_system_provider.rs:249-253 | every path that `decode_config` hands to `canonical_uri` comes back from the URI path it is given |
| Resolution.FileUriParts | src/registry/local_file_system_provider.rs:224-255 | the canonical URI of an absolute path passes every check of `decode_config` |
| Resolution.DecodedPathCanonical | src/registry/local_file_uri_path.rs:43 | whatever components `Path::parse` drops, the resulting path is canonical |
| Resolution.ResolveFixedPoint | src/registry/local_file_system_provider.rs:224-255 | resolving the canonical URI of a resolution gives the same path and the same canonical URI |
| Resolution.UriIdentifiesPath | src/registry/local_file_system_provider.rs:224-255 | two resolutions have equal canonical URIs iff their paths are equal |
| CleanupControl.UseHandles | src/local_temp_cleanup_control.rs:34-65 | however handles are cloned from handles, a read through any of them answers the last value set through any of them |
| CleanupControl.ReadAfterSet | src/local_temp_cleanup_control.rs:51-64 | a read after a set answers the set value, whichever handles they go through |
| CleanupControl.NativeExact | src/local_temp_cleanup_resource_limits.rs:82-88 | each limit becomes the native bound of its own measure, and no limits bound nothing |
| CleanupControl.LocalTempCleanupControl.SetLimits | src/local_temp_cleanup_control.rs:62-64 | overwrites the one shared value |
| ProviderFamily.LocalFileSystemProvider.TempCleanupControl | src/registry/local_file_system_provider.rs:202-206 | initializes the cell once, unbounded, and always returns the same control |
| ProviderFamily.LocalFileSystemProvider.Clone | src/registry/local_file_system_provider.rs:74-83 | original and clone hold one control, even when the clone comes before any use |
| ProviderFamily.LocalFileSystemProvider.CreateConfigured | src/registry/local_file_system_provider.rs:301-311 | failures to decode touch nothing; a resolution carries the decoded path and URI and the provider's own control |
| ProviderFamily.CreateTempDirectory | src/spi/local_file_system_spi.rs:973-1033 | a created directory keeps the file system's control and authority and starts under its current limits; the parent, native creation and the created path are checked in this order, and nothing is handed out when one fails |
| ProviderFamily.Family.Apply | src/registry/local_file_system_provider.rs:74-206 | each use of any family member keeps every handed-out part on one control, hands out a new part exactly when its use succeeds, and a limit set through any handle is the one all of them read |
| ProviderFamily.UseFamily | src/registry/local_file_system_provider.rs:74-311 | after any script of cloning, access, resolution and creation, all parts of the family hold the root's control |
| TempLifecycle.StateTableFaithful | src/spi/local_temp_resource_spi.rs:695-734 | a failure state gives back the publication and source it was built from, unless publication is unknown or the pair is contradictory |
| TempLifecycle.LocalTempResourceSpi.RefreshDirectoryCleanupLimits | src/spi/local_temp_resource_spi.rs:108-122 | only a live directory with a control takes over the control's current value |
| TempLifecycle.LocalTempResourceSpi.RequireOwned | src/spi/local_temp_resource_spi.rs:156-175 | rejects unless the slot owns its source, reporting that source and an unchanged effect |
| TempLifecycle.LocalTempResourceSpi.Target | src/spi/local_temp_resource_spi.rs:192-207 | checks ownership before converting the target |
| TempLifecycle.LocalTempResourceSpi.PersistNative | src/spi/local_temp_resource_spi.rs:390-467 | takes the resource out of the slot and restores the returned one exactly after a failure |
| TempLifecycle.LocalTempResourceSpi.KeepNative | src/spi/local_temp_resource_spi.rs:519-678 | the same for keep, including a published target that has no logical form |
| TempLifecycle.LocalTempResourceSpi.Persist | src/spi/local_temp_resource_spi.rs:227-241 | refreshes, then performs one persist step: new slot, answer and native call |
| TempLifecycle.LocalTempResourceSpi.Keep | src/spi/local_temp_resource_spi.rs:253-279 | refreshes, then performs one keep step: new slot, answer and native call |
| TempLifecycle.LocalTempResourceSpi.Cleanup | src/spi/local_temp_resource_spi.rs:292-312 | refreshes, then performs one cleanup step, never emptying the slot |
| TempLifecycle.LocalTempResourceSpi.Drop | src/spi/local_temp_resource_spi.rs:315-319 | refreshes once more before native destruction |
| TempRuns.AuthorityNeverReturns | src/spi/local_temp_resource_spi.rs:156-279 | in every run, once the source is not owned it stays so, and every persist or keep is rejected with the current source, an unchanged effect, an untouched slot and no native call |
| TempRuns.AtMostOneConfirmed | src/spi/local_temp_resource_spi.rs:153-279 | every run confirms at most one publication, by success or in a failure, and a confirmed one ends the authority |
| TempRuns.ReportsTruthful | src/spi/local_temp_resource_spi.rs:156-734 | in every run native code is called exactly when authority, slot and target allow it, afterwards the slot holds what native code returned, every native answer is reported as what it is and nothing else is; each failure's source part agrees with the slot, its effect with its state, its target with this call, a confirmation with a native confirmation |
| TempRuns.RunChained | src/spi/local_temp_resource_spi.rs:108-122 | in every run a call finds what the call before it left: same authority, and the same limits too unless the resource is a controlled directory |
| TempRuns.ReleasedForever | src/spi/local_temp_resource_spi.rs:156-312 | once a cleanup returned a released source, or a publication succeeded, every later persist or keep is rejected with `NotPublishedSourceReleased` and no native call |
| TempRuns.AttemptsUseSnapshots | src/spi/local_temp_resource_spi.rs:108-122 | in every interleaving each native attempt of a controlled directory runs under the value its own refresh read |
| TempRuns.InterleavingIsAtomic | src/spi/local_temp_resource_spi.rs:227-319 | every interleaving with limit changes has the same answers and final state as calls that read and act in one step |
| TempRuns.AtomicIsRun | src/spi/local_temp_resource_spi.rs:227-319 | the atomic machine is itself one of the runs, so every law of runs holds of it |
| TempRuns.UnownedAttempts | src/spi/local_temp_resource_spi.rs:156-313 | a script on an adapter without authority makes no native call but cleanup |
| TempRuns.Replay | src/spi/local_temp_resource_spi.rs:210-313 | the adapter object, driven by any script, ends in the state, gives the reports and makes the native calls of that atomic machine, in order |
| Listing.SubtreeTextExact | src/spi/internal/listing_options.rs:63-80 | for any prefix text, a relative path matches iff the prefix spells a non-empty run of its leading components |
| Listing.SubtreeIsComponentPrefix | src/spi/internal/listing_options.rs:63-80 | on canonical prefixes the text test is the component-list prefix test |
| Listing.OtherFilters | src/spi/internal/listing_options.rs:63-80 | without a filter every entry matches; a literal prefix is a prefix of the relative text |
| Listing.ListOptions | src/spi/local_options_mapper.rs:67-99 | a subtree filter forces recursion and withholds the request's entry cap; literal prefixes and unsupported symlink policies are refused |
| Listing.LocalDirectoryStreamSpi.NextEntry | src/spi/local_directory_stream_spi.rs:113-155 | answers the first visible item of the walker and leaves the rest; ends only when nothing visible remains; terminates |
| Listing.LocalDirectoryStreamSpi.Drain | src/spi/local_directory_stream_spi.rs:113-155 | repeated calls give, in order, the walker's items with dropped entries left out, errors kept one for one and matches projected |
| ListingTree.FilteredWalkIsSubtree | src/spi/internal/listing_options.rs:63-80 | filtering the walk of any tree by a component prefix leaves the entry at the prefix and its descendants, in order |
| ListingTree.AnyWalkIsSubtree | src/spi/internal/listing_options.rs:63-80 | the same for a walk in any order, down to any maximum depth, and as an inclusion for a walk that misses entries |
| ListingTree.SeenUnderRoot | src/spi/local_directory_stream_spi.rs:131-149 | over any walk, failing ones included, the visible paths are the requested root followed by the components of the matching expressible entries, absolute exactly as requested, and every error is kept in number and order |
| ListingTree.SeenUnfiltered | src/spi/local_directory_stream_spi.rs:131-149 | without a filter, over any walk, the visible paths are the root followed by the names of every expressible entry |
| ListingTree.SeenFactsExact | src/spi/local_directory_stream_spi.rs:149-155 | every visible entry has the kind of its own item, and that item's metadata iff metadata were asked for |
| ListingTree.EachEntryOnce | src/spi/local_directory_stream_spi.rs:113-155 | a walk of a well-named tree holds no path twice |
| ListingTree.ListSubtree | src/spi/local_file_system_spi.rs:569-596 | a subtree request, recursive or not, with any entry cap and maximum depth, returns only the entry at the prefix and its descendants down to that depth, each at most once, under the requested root, and all of them when the stream shows no error |
| ListingTree.ListDirectory | src/spi/local_file_system_spi.rs:569-596 | a request without a filter returns the whole tree if recursive and the top level if not, down to the maximum depth: nothing else, each at most once, and all of it when no cap was asked for and no error is shown |
| WriterSession.LocalFileWriterSpi.WriteUnchecked | src/spi/local_file_writer_spi.rs:109-111 | hands exactly the selected range to the live writer, or fails on a terminal session |
| WriterSession.LocalFileWriterSpi.CommitWriter | src/spi/local_file_writer_spi.rs:140-196 | one commit step: the live writer is the one handed to native code, kept only when native code returns it, with the abort outcome stored when it does not; a refusal hands over nothing and reports `NotPublished` without an effect |
| WriterSession.LocalFileWriterSpi.AbortWriter | src/spi/local_file_writer_spi.rs:208-227 | one abort step: native abort of a live writer, else the stored outcome once, else invalid state |
| WriterSession.CommitAbortExclusive | src/spi/local_file_writer_spi.rs:140-227 | in every call sequence live writer and stored outcome never coexist, and the session is closed iff exactly one commit or abort was answered successfully |
| WriterSession.CallsServed | src/spi/local_file_writer_spi.rs:109-227 | in every run a call that finds a live writer reaches it and passes its answer on, and the writer is given up only when native code takes it; a commit reports the native atomicity, method, count and durability |
| WriterSession.ClosedForever | src/spi/local_file_writer_spi.rs:141-217 | once closed every call is refused and nothing changes |
| WriterSession.StoredOutcomeAnsweredOnce | src/spi/local_file_writer_spi.rs:208-217 | with a stored outcome the first abort gets it and every other call, before or after, is refused |
| WriterSession.UnrecoverableCommit | src/spi/local_file_writer_spi.rs:177-217 | a commit that loses its writer is followed by exactly one abort answer, the one its failure state stands for |
| WriterSession.ReportsTruthful | src/spi/local_file_writer_spi.rs:140-306 | in every run every claim about the destination, the stored abort outcome included, is the latest thing native code said; retryable is reported iff that was not published and the writer is still held, and the effect agrees with it; only refused commits are exempt |
| WriterSession.RefusedCommitExact | src/spi/local_file_writer_spi.rs:141-150 | in every run the `NotPublished` of a refused commit is the latest thing native code said iff the call that took the writer was answered `NotPublished` |
| WriterSession.RefusedCommitContradicts | src/spi/local_file_writer_spi.rs:141-150 | if native code returns no writer with a published target, some earlier report had said published iff the answer of the call that took the writer did |
| WriterSession.RefusedAfterPublication | src/spi/local_file_writer_spi.rs:141-150 | after a successful commit, a commit lost to a published target, or an abort that found it published, the refused commit reports not published |
| WriterSession.WriterHoldsReportedBytes | src/spi/local_file_writer_spi.rs:109-196 | a live writer holds exactly the bytes whose acceptance was reported, in order |
| WriterSession.CommitPublishesReportedBytes | src/spi/local_file_writer_spi.rs:109-174 | a commit that succeeds hands native code exactly the bytes reported before it, and reports their number |
| WriterSession.Replay | src/spi/local_file_writer_spi.rs:109-227 | the adapter object, driven by any calls, ends in the state, gives the reports and hands over the writers of that run, in order |
| RangeReader.LocalRangeReader.New | src/spi/local_range_reader.rs:47-60 | seeks only for a non-empty window past zero, compares offsets past the signed range with the recorded length, and propagates a failed seek |
| RangeReader.OpeningFails | src/spi/local_range_reader.rs:47-60 | opening fails iff the seek fails and was needed: a non-empty window past zero that the recorded length does not place beyond the native range |
| RangeReader.LocalRangeReader.ReadUnchecked | src/spi/local_range_reader.rs:79-82 | fills exactly the requested output range with the next bytes and lowers the allowance by their number |
| RangeReader.WindowExact | src/spi/local_range_reader.rs:47-82 | for any file, recorded length, offset, length and sequence of short or failing reads, the delivered bytes are a prefix of the window, no byte past it is consumed, and a non-empty read returning zero means all of it was delivered, iff the recorded length did not hide a window past the signed range |
| RangeReader.AllowanceConserved | src/spi/local_range_reader.rs:79-82 | position and allowance trade off one for one over any reads |
| RangeReader.ReadsExhaust | src/spi/local_range_reader.rs:79-82 | as many successful non-empty reads as the window has bytes deliver all of it |

## Left out

- Native code: `qubit-local-files`, `qubit-fs`, `qubit-io` and `qubit-spi` are not part of this model; they appear as answers, contracts and parameters.
- Path conversion: `local_path_mapper` and `LocalTempPathProjection` are partial functions on component lists and path texts.
- Length limits: whatever `Path::parse` and `Uri::parse` refuse for size is part of the functions that stand for them.
- Errors: messages, provider identifiers, source chains and the mapping of native error kinds; the states and effects they carry are modelled.
- Publication facts: atomicity, method and residual cleanup state are copied from the native outcome one for one.
- Persist options: overwrite and parent creation are passed through unchanged by the source and have no place in the model.
- Limits tightening: combining a request with the provider's ceilings happens in `qubit-local-files`; `ListSubtree` speaks of requests whose own maximum depth is the stricter one and that meet no provider entry cap.
- File changes: `RangeReader` takes the file's content as fixed while it is read; the recorded length is separate.
- Lock poisoning: the control cell keeps and exposes its last value in that case, so a plain field models it.
- Constructors that fail: opening the root of a rooted provider.
- Easy members: the copy, write, delete and rename option mappers, the resource policy structures, the error and outcome tables, the random-access reader, capability declarations and inventory submission.
