# XTST core in Dafny

A model of the sequential core of XTST, the XSLT Transformation Server Tool.
XTST is a Java server. It accepts one XML document per TCP connection,
applies one or more XSLT stylesheets to it, merges the outputs, and sends the
result back. Handlers group stylesheets and schemas under a keyword. They are
found in a directory tree of `xtst.properties` descriptors, and they reload
their files when the files change on disk.

The model covers four parts, with one or more modules each:

- **Wire framing and one connection** (`utf8.dfy`, `wire.dfy`, `server.dfy`).
  - A frame is a 4-byte big-endian signed length, then that many bytes of UTF-8.
  - `Server.Server` reads and writes frames over stream objects whose byte
    sequences its methods update.
  - `HandleConnection` writes the greeting, one status frame and, on success
    only, one result frame, then closes the connection.
  - Each method is proved against the pure functions `ReadFrame`, `Frame`,
    `Respond` and `Reply`. Lemmas state the round trips and the shape of a
    reply.
- **Registry construction** (`paths.dfy`, `discovery.dfy`, `handler_manager.dfy`, `command_line.dfy`).
  - A directory tree is a datatype. A readable properties file is the
    `map<string, string>` it loads into; a file that cannot be opened is a
    node of its own.
  - `Discovery.FoundIn` lists the descriptors a depth-first walk meets.
  - `Discovery.Register` is the registry those descriptors build, or the
    first error. It exists in two variants: the current reader of
    `DocumentHandlerManager` and the legacy reader of `CommandLine`.
  - The imperative walks are proved to produce exactly that registry, and to
    install a new map only after it is complete.
- **Hot-reload bookkeeping** (`document_handler.dfy`).
  - A `DocumentHandler` object keeps insertion-ordered path lists and maps
    from path to recorded modification time.
  - Its loops are proved against `AfterLoadXslt`, `AfterLoadXsd` and
    `AfterCheck`, which are functions on a `Tracked` value.
  - Lemmas state the throttle, the "strictly newer reloads the whole group"
    rule, and the idempotence of a check.
- **The result merge** (`transformer.dfy`).
  - Documents are element trees.
  - `MergeResults` copies the source root's children into the target root in
    place. It is proved equal to `Merged`: reversed markers, then the old
    children, then the other copies.
  - The fold over the stylesheets is proved equal to `Combine`.

Outside effects are parameters:

- Applying a stylesheet is `apply: (string, Source) -> Result<Root, string>`.
- Serialising is `serialize: Option<Root> -> string`.
- The clock, `File.lastModified`, whether a schema file opens, and whether the
  schema compiler accepts the files form an `Env`.
- The argument parser's outcome is a `Namespace` value.
- Ending the process with status 1 is the outcome `Exited`, or a `LoadError`
  in the registry code.

The code and the protocol description of the project disagree in places, and
the model follows the code:

- The length field is a signed Java `int`. A negative length is an error
  outcome, not a large unsigned length.
- `Server.java` serves a single transformer with no keyword exchange and no
  reload command.
- At most ten stylesheet keys and ten schema keys are read (`xsl_file`,
  `xsl_file1` … `xsl_file9`).
- A reload of the schemas does not advance the check time.
- The stream's `read` is modelled by the contract of `InputStream.read`,
  which checks its arguments before it reports the end of the stream. When
  the client's stream ends early, `read` returns -1 and the running total
  goes negative. The next `read`, with a negative length, then throws an
  `IndexOutOfBoundsException`, and the connection reports
  `Error: java.lang.IndexOutOfBoundsException`.

## Model

| member | source | states |
|---|---|---|
| Utf8.Encode | nl/tjeb/XTST/Server.java:159 | `getBytes("UTF-8")`: the UTF-8 bytes of each character in turn; `DecodeEncode` shows it is decoded back |
| Utf8.Decode | nl/tjeb/XTST/Server.java:120 | `new String(bytes, "UTF-8")`: one code point per `DecodeChar` step; a byte that does not start a shortest-form sequence decodes to U+FFFD |
| Utf8.EncodeChar | nl/tjeb/XTST/Server.java:159 | one code point takes one to four bytes, and exactly one byte when it is ASCII |
| Utf8.DecodeChar | nl/tjeb/XTST/Server.java:120 | decoding one code point consumes between one byte and all of the remaining bytes |
| Utf8.EncodeAppend | nl/tjeb/XTST/Server.java:159 | the UTF-8 form of a concatenation is the concatenation of the UTF-8 forms |
| Utf8.DecodeEncodeChar | nl/tjeb/XTST/Server.java:120 | decoding reads back exactly the code point that was encoded, and consumes exactly its bytes |
| Utf8.DecodeEncode | nl/tjeb/XTST/Server.java:116-121 | decoding the UTF-8 bytes of a string gives back that string |
| Utf8.EncodedLength | nl/tjeb/XTST/Server.java:159-160 | the byte count is at least the character count, and equal to it exactly when every character is ASCII |
| Utf8.EncodedLengthAtMost | nl/tjeb/XTST/Server.java:159-160 | at most four bytes per character |
| Wire.DecodeInt32 | nl/tjeb/XTST/Server.java:101-104 | `ByteBuffer.getInt`: four bytes, most significant first, read as a two's-complement Java int |
| Wire.Frame | nl/tjeb/XTST/Server.java:157-161 | what `sendDataString` writes: the length field of the UTF-8 byte count, then those bytes |
| Wire.Frames | nl/tjeb/XTST/Server.java:182-200 | the frames of several strings, one after the other, as a connection writes them |
| Wire.ReadAllFrames | nl/tjeb/XTST/Server.java:116-121 | a client's reading of a whole reply: one `ReadFrame` after another until the bytes run out, or the first read error |
| Wire.EncodeInt32 | nl/tjeb/XTST/Server.java:141-147 | the length field is four bytes |
| Wire.DecodeEncodeInt32 | nl/tjeb/XTST/Server.java:99-105 | decoding the four bytes written for any Java int gives back that int |
| Wire.EncodeDecodeInt32 | nl/tjeb/XTST/Server.java:99-105 | any four bytes are the encoding of the int they decode to |
| Wire.DecodedSign | nl/tjeb/XTST/Server.java:102-104 | a length field is negative exactly when the top bit of its first byte is set |
| Wire.ShortIsSendable | nl/tjeb/XTST/Server.java:157-161 | a string of fewer than 2^29 characters fits in a frame |
| Wire.ReadFrame | nl/tjeb/XTST/Server.java:116-121 | a frame that reads consumes at least its four length bytes and leaves a suffix of the input |
| Wire.ReadFrameOfFrame | nl/tjeb/XTST/Server.java:116-121 | reading a frame from a stream that starts with the frame of `s` gives `s` and exactly the bytes after the frame |
| Wire.ReadAllFramesOfFrames | nl/tjeb/XTST/Server.java:182-200 | a client splits the bytes of a sequence of frames back into exactly the strings sent |
| Wire.FramesAppend | nl/tjeb/XTST/Server.java:196-200 | the frames of two sequences of strings are the frames of each, one after the other |
| Server.ReadErrorText | nl/tjeb/XTST/Server.java:186-193 | the exception a failed read ends in: past the end of the stream an `IndexOutOfBoundsException`, on a negative length a `NegativeArraySizeException` |
| Server.Respond | nl/tjeb/XTST/Server.java:186-200 | what a connection answers after the greeting: "Error: " and the read error, or "Error: " and the transformation error, or the success status and the serialised result |
| Server.Reply | nl/tjeb/XTST/Server.java:182-200 | the strings a connection sends: the greeting, the status of `Respond`, and its result when there is one |
| Server.InputStream.Read | nl/tjeb/XTST/Server.java:84 | a bad offset or length throws; a zero length reads nothing; at the end of the stream the result is -1; otherwise 1 to `len` bytes are copied to the offset and consumed, and nothing else in the buffer changes |
| Server.OutputStream.Write | nl/tjeb/XTST/Server.java:131 | the bytes are appended to what was written |
| Server.OutputStream.Close | nl/tjeb/XTST/Server.java:201 | the connection is closed and nothing more is written |
| Server.FixedTextsSendable | nl/tjeb/XTST/Server.java:182-193 | the greeting, the success status and every read-error status fit in a frame |
| Server.StatusTextsSendable | nl/tjeb/XTST/Server.java:186-193 | the success status and every read-error status fit in a frame |
| Server.ReplyStartsWithGreeting | nl/tjeb/XTST/Server.java:182-184 | every reply has at least two frames, and the first is the greeting with the version and protocol version |
| Server.ReplyStatus | nl/tjeb/XTST/Server.java:186-200 | the second frame is the success status exactly when the document was read and transformed, and starts with "Error: " otherwise; there are three frames exactly on success and two otherwise |
| Server.Server.constructor | nl/tjeb/XTST/Server.java:65-69 | the server's transformer holds the one stylesheet given |
| Server.Server.ReadData | nl/tjeb/XTST/Server.java:80-87 | when the stream holds `size` bytes they fill the buffer's first `size` places and are consumed; otherwise everything left is consumed and copied, and the call fails; the rest of the buffer is unchanged |
| Server.Server.ReadDataLength | nl/tjeb/XTST/Server.java:99-105 | the next four bytes decoded as a big-endian int, consuming exactly four bytes, or end of stream when fewer remain |
| Server.Server.ReadDataString | nl/tjeb/XTST/Server.java:116-121 | the outcome is `ReadFrame` of the stream: the payload, with exactly the bytes after the frame left unread, or the read error with the input consumed as far as the source reads it |
| Server.Server.SendData | nl/tjeb/XTST/Server.java:130-132 | the bytes are written as they are |
| Server.Server.SendDataSize | nl/tjeb/XTST/Server.java:141-147 | the four bytes of `EncodeInt32(size)` are written |
| Server.Server.SendDataString | nl/tjeb/XTST/Server.java:157-161 | the frame of the string is written: its UTF-8 byte count, then those bytes |
| Server.Server.Process | nl/tjeb/XTST/Server.java:186-194 | the status and optional result are `Respond` of the bytes the client sent, and the input is consumed exactly as `ReadFrame` describes |
| Server.Server.SendOutcome | nl/tjeb/XTST/Server.java:196-200 | the status frame is written, then the result frame only when there is a result |
| Server.Server.HandleConnection | nl/tjeb/XTST/Server.java:173-201 | the bytes written for a connection are exactly the frames of `Reply`: the greeting, one status, and the result only on success; then the connection is closed |
| Server.RespondSendable | nl/tjeb/XTST/Server.java:186-200 | when serialised results and transformation errors fit in a frame, so does everything sent after the greeting |
| Server.CombineFailureSendable | nl/tjeb/XTST/Server.java:192-193 | the error of a failed transformation is the error of one stylesheet, so it fits in a frame |
| Server.OutputsFailureComesFromApply | nl/tjeb/XTST/XSLTTransformer.java:113-120 | a failed fold fails with the error of some stylesheet |
| Server.OutcomeFrames | nl/tjeb/XTST/Server.java:182-200 | the three writes of a connection, in order, are the frames of its reply |
| Transformer.Place | nl/tjeb/XTST/XSLTTransformer.java:214-220 | where one copied child goes: a marker before the first child, anything else after the last |
| Transformer.Merged | nl/tjeb/XTST/XSLTTransformer.java:211-224 | the target's children after a whole merge: the marker copies in reverse source order, the old children, then the other copies in source order |
| Transformer.MergeRoots | nl/tjeb/XTST/XSLTTransformer.java:206-225 | `mergeResults` as a function: the target root keeps its name and gets the `Merged` children |
| Transformer.Outputs | nl/tjeb/XTST/XSLTTransformer.java:113-120 | each stylesheet applied to the same source, in order, or the first failure |
| Transformer.FoldMerge | nl/tjeb/XTST/XSLTTransformer.java:116-120 | the first output with every later output merged into it, in stylesheet order |
| Transformer.Combine | nl/tjeb/XTST/XSLTTransformer.java:110-123 | the result `transformString` and `transformFile` serialise: the folded merge of all outputs, none for no stylesheet, or the first failure |
| Transformer.MergedSnoc | nl/tjeb/XTST/XSLTTransformer.java:214-220 | placing one more copy (a marker before the first child, anything else after the last) agrees with the whole-merge description |
| Transformer.MergedFront | nl/tjeb/XTST/XSLTTransformer.java:214-220 | placing the first remaining copy and merging the rest gives the same children as merging everything that remains, which is the invariant of `mergeResults`' loop |
| Transformer.MergeKeepsEverything | nl/tjeb/XTST/XSLTTransformer.java:211-224 | a merge adds one copy of each source child and removes nothing: the multiset of children grows by the source's children, and so does the count |
| Transformer.MergeLayout | nl/tjeb/XTST/XSLTTransformer.java:214-220 | after a merge come first the markers in reverse source order, then the old children in their order, then the other copies in source order |
| Transformer.MarkersAreMarkers | nl/tjeb/XTST/XSLTTransformer.java:217 | the copies that go to the front are exactly the marker elements |
| Transformer.OutputsSnoc | nl/tjeb/XTST/XSLTTransformer.java:113-120 | one more stylesheet appends its output, or fails the fold |
| Transformer.FoldMergeSnoc | nl/tjeb/XTST/XSLTTransformer.java:116-120 | merging one more output into the folded result equals folding the longer list |
| Transformer.OutputsAreIndependent | nl/tjeb/XTST/XSLTTransformer.java:113-115 | the fold succeeds iff every stylesheet applied to the same input succeeds, and output i is stylesheet i applied to that input; outputs are not chained |
| Transformer.SingleStylesheetUnmerged | nl/tjeb/XTST/XSLTTransformer.java:116-117 | with one stylesheet the result is that stylesheet's output, unmerged |
| Transformer.FoldMergeShape | nl/tjeb/XTST/XSLTTransformer.java:116-120 | the merged document keeps the first output's root element and has one child per child of every output's root |
| Transformer.OutputsFailurePersists | nl/tjeb/XTST/XSLTTransformer.java:113-121 | once a prefix of the stylesheets fails, the whole fold fails with the same error |
| Transformer.XSLTTransformer.constructor | nl/tjeb/XTST/XSLTTransformer.java:71-78 | the transformer holds the stylesheets in the order given |
| Transformer.XSLTTransformer.MergeResults | nl/tjeb/XTST/XSLTTransformer.java:206-225 | the target root becomes `MergeRoots(old target, source)`, and the source document is not modified |
| Transformer.XSLTTransformer.TransformAll | nl/tjeb/XTST/XSLTTransformer.java:112-121 | the loop's result is `Combine`: the first output with each later one merged into it, or the first failure |
| Transformer.XSLTTransformer.Accumulate | nl/tjeb/XTST/XSLTTransformer.java:116-120 | the first output becomes the result document; each later one is merged into the existing result |
| Transformer.XSLTTransformer.TransformString | nl/tjeb/XTST/XSLTTransformer.java:110-123 | the serialised `Combine` of the stylesheets over a fresh reader of the same string, or the failure |
| Transformer.XSLTTransformer.TransformFile | nl/tjeb/XTST/XSLTTransformer.java:145-156 | the serialised `Combine` of the stylesheets over the same file, opened again for each one, or the failure |
| Handler.Keys | nl/tjeb/XTST/DocumentHandler.java:114-122 | the key order of a `LinkedHashMap` after putting the paths one by one: a repeated path keeps its first place |
| Handler.Stamped | nl/tjeb/XTST/DocumentHandler.java:142-147 | the recorded times with each given path overwritten by its current modification time |
| Handler.AfterLoadXslt | nl/tjeb/XTST/DocumentHandler.java:140-150 | `loadXSLT`: every stylesheet stamped, the last stylesheet's modification time, whatever it is, becomes `xsltModified` and the check time becomes now (both only when there is a stylesheet), a transformer over all stylesheets |
| Handler.AfterLoadXsd | nl/tjeb/XTST/DocumentHandler.java:163-190 | `loadXSD`: no schema files means no validator; otherwise files are stamped until one does not open, which abandons the load; when all open, a compiling set replaces the validator and a failing one keeps the old |
| Handler.AfterCheck | nl/tjeb/XTST/DocumentHandler.java:198-221 | `checkModified`: nothing within 5000 ms of the last check; then a newer stylesheet reloads the stylesheets, else a newer schema reloads the schemas, else only the check time advances |
| Handler.Initialized | nl/tjeb/XTST/DocumentHandler.java:111-124 | a new handler: every path recorded at time zero, then the stylesheets and the schemas loaded |
| Handler.KeysInFirstOccurrenceOrder | nl/tjeb/XTST/DocumentHandler.java:114-122 | the tracked paths hold each supplied path once, nothing else, and in the order of first occurrence |
| Handler.KeysOfDistinct | nl/tjeb/XTST/DocumentHandler.java:114-117 | paths supplied without repeats are tracked exactly as supplied |
| Handler.PutKeys | nl/tjeb/XTST/DocumentHandler.java:115-117 | putting the names one by one gives the key order `Keys` |
| Handler.StampedLookup | nl/tjeb/XTST/DocumentHandler.java:142-147 | stamping records the current time of each stamped path, leaves the others alone and adds no other key |
| Handler.FirstMissing | nl/tjeb/XTST/DocumentHandler.java:173-177 | every schema file before the position opens, and the file at it does not |
| Handler.LoadXsltRecordsCurrentTimes | nl/tjeb/XTST/DocumentHandler.java:140-150 | after loading, every stylesheet is recorded at its current time, so none is newer; there is a transformer over all of them; the check time is the load time; the schema side is unchanged |
| Handler.LoadXsdRecordsCurrentTimes | nl/tjeb/XTST/DocumentHandler.java:163-190 | no schema files leaves no validator; when all files open, each is recorded at its current time; when one does not, the files before it are recorded, the others keep their times and the validator is kept |
| Handler.ValidatorAfterLoad | nl/tjeb/XTST/DocumentHandler.java:166-184 | there is a validator after a schema load iff there are schema files and either one existed or all files open and compile |
| Handler.CheckIsThrottled | nl/tjeb/XTST/DocumentHandler.java:201-202 | until strictly more than 5000 ms have passed since the last check, a check changes nothing |
| Handler.CheckReloadsOnlyNewer | nl/tjeb/XTST/DocumentHandler.java:203-219 | anything other than the check time changes only when the interval has passed and some file is strictly newer; with nothing newer only the check time advances |
| Handler.CheckPrefersStylesheets | nl/tjeb/XTST/DocumentHandler.java:203-210 | a newer stylesheet reloads all stylesheets and leaves the schemas and the validator alone, even when schemas changed too |
| Handler.CheckSettles | nl/tjeb/XTST/DocumentHandler.java:198-221 | unless it reloaded schemas, a second check with the same clock and files changes nothing |
| Handler.CheckAfterSchemaReload | nl/tjeb/XTST/DocumentHandler.java:211-217 | a schema reload keeps the old check time, so the next check with the same clock only advances it |
| Handler.DocumentHandler.Single | nl/tjeb/XTST/DocumentHandler.java:58-67 | empty name and description, one stylesheet and at most one schema, then both groups loaded |
| Handler.DocumentHandler.Named | nl/tjeb/XTST/DocumentHandler.java:78-87 | the name and description given, one stylesheet and at most one schema, then both groups loaded |
| Handler.DocumentHandler.WithSchemas | nl/tjeb/XTST/DocumentHandler.java:98-109 | the name and description given, one stylesheet, the schemas in first-occurrence order, then both groups loaded |
| Handler.DocumentHandler.WithLists | nl/tjeb/XTST/DocumentHandler.java:111-124 | the name and description given, both lists in first-occurrence order, then both groups loaded |
| Handler.DocumentHandler.Initialize | nl/tjeb/XTST/DocumentHandler.java:114-123 | every path is recorded at time zero, then the stylesheets and the schemas are loaded |
| Handler.DocumentHandler.GetName | nl/tjeb/XTST/DocumentHandler.java:127-129 | the name the handler was made with |
| Handler.DocumentHandler.GetDescription | nl/tjeb/XTST/DocumentHandler.java:131-133 | the description the handler was made with |
| Handler.DocumentHandler.LoadXslt | nl/tjeb/XTST/DocumentHandler.java:140-150 | the new state is `AfterLoadXslt` of the old one, and every tracked path keeps a recorded time |
| Handler.DocumentHandler.LoadXsd | nl/tjeb/XTST/DocumentHandler.java:163-190 | the new state is `AfterLoadXsd` of the old one, and every tracked path keeps a recorded time |
| Handler.DocumentHandler.CheckModified | nl/tjeb/XTST/DocumentHandler.java:198-221 | the new state is `AfterCheck` of the old one |
| Handler.DocumentHandler.HasXsdValidator | nl/tjeb/XTST/DocumentHandler.java:223-225 | true exactly when there is a validator |
| Handler.DocumentHandler.HasTransformer | nl/tjeb/XTST/DocumentHandler.java:227-229 | true exactly when there is a transformer |
| Handler.InitializedHandler | nl/tjeb/XTST/DocumentHandler.java:111-124 | a new handler has a transformer over all its stylesheets, each recorded at its current time, and a validator iff there are schema files, all open and they compile |
| Paths.Resolve | nl/tjeb/XTST/DocumentHandlerManager.java:132 | the Unix file system joining a child path to a parent, with one separator between them |
| Paths.Child | nl/tjeb/XTST/DocumentHandlerManager.java:132 | `new File(parent, child)`: no parent leaves the child alone, an empty parent means the root, otherwise `Resolve` |
| Paths.GetFile | nl/tjeb/XTST/DocumentHandlerManager.java:59-65 | `getFile`: a name starting with "/" is used as it is, any other is joined to the parent of the properties file |
| Paths.Parent | nl/tjeb/XTST/DocumentHandlerManager.java:63 | the parent is a proper prefix of the path, and there is none exactly when the path is the root or has no separator |
| Paths.ParentOfChild | nl/tjeb/XTST/DocumentHandlerManager.java:132 | the parent of an entry found in a directory is that directory |
| Paths.GetFileInDirectory | nl/tjeb/XTST/DocumentHandlerManager.java:59-65 | for a descriptor found in a directory, an absolute file name is kept as it is, and any other name is joined to that directory |
| Paths.ChildIgnoresAbsolute | nl/tjeb/XTST/CommandLine.java:142-146 | below any directory but the root, an absolute name is appended to the directory, not kept |
| Paths.ChildOfRelative | nl/tjeb/XTST/DocumentHandlerManager.java:63 | a relative name is joined with one separator, and it lands directly in the directory iff it is a single path component |
| Discovery.Met | nl/tjeb/XTST/DocumentHandlerManager.java:69-72 | a descriptor entry: a readable file gives its properties, a directory or an unreadable file cannot be opened |
| Discovery.FoundOne | nl/tjeb/XTST/DocumentHandlerManager.java:131-139 | one entry of `checkDirectory`: its descriptor if it has the descriptor name, then everything below it if it is a directory |
| Discovery.FoundIn | nl/tjeb/XTST/DocumentHandlerManager.java:129-141 | the descriptors a depth-first walk meets, in listing order |
| Discovery.FileList | nl/tjeb/XTST/DocumentHandlerManager.java:85-95 | the resolved files of the bare key and of the numbered keys 1 to 9 that are present, in that order |
| Discovery.DescriptorOf | nl/tjeb/XTST/DocumentHandlerManager.java:85-122 | what an accepted descriptor describes: in the current reader its name, description and both file lists; in the legacy reader one stylesheet and at most one schema joined to the descriptor's directory |
| Discovery.Register | nl/tjeb/XTST/DocumentHandlerManager.java:129-141 | the registry after reading the descriptors in order, each against the keywords registered before it, or the first error |
| Discovery.WalkEntersEverySubdirectory | nl/tjeb/XTST/DocumentHandlerManager.java:137-139 | everything found below any subdirectory is part of what the walk finds, whether or not the parent has a descriptor, as one contiguous run right after what was found before that subdirectory and its own descriptor |
| Discovery.WalkReadsEveryDescriptor | nl/tjeb/XTST/DocumentHandlerManager.java:133-135 | every `xtst.properties` entry of a directory is read |
| Discovery.FileListMembers | nl/tjeb/XTST/DocumentHandlerManager.java:85-95 | the listed files are exactly the resolved values of the bare key and the numbered keys 1 to 9 present |
| Discovery.FileListIgnoresOtherKeys | nl/tjeb/XTST/DocumentHandlerManager.java:90-95 | a key that is neither the bare key nor a numbered key 1 to 9 does not change the list |
| Discovery.TenAndZeroAreNotKeys | nl/tjeb/XTST/DocumentHandlerManager.java:90 | `xsl_file10` and `xsl_file0` are not among the keys read |
| Discovery.OnlyBareKey | nl/tjeb/XTST/DocumentHandlerManager.java:86-95 | with only the bare key present, the list is that one resolved file |
| Discovery.ReadFound | nl/tjeb/XTST/DocumentHandlerManager.java:73-83 | a descriptor is read iff it opens, has a keyword that is new, and (in the legacy reader) has `xsl_file`; then it gives its keyword and what it describes |
| Discovery.UnopenableDescriptorFails | nl/tjeb/XTST/DocumentHandlerManager.java:67-69 | an entry named `xtst.properties` that cannot be opened as a file (a directory, or a file without read permission) makes the whole build fail |
| Discovery.RegisterOnePerDescriptor | nl/tjeb/XTST/DocumentHandlerManager.java:129-141 | the registry builds iff every descriptor is read; it then keeps the earlier entries and has exactly one entry per descriptor, under its keyword |
| Discovery.RegisterSucceeds | nl/tjeb/XTST/DocumentHandlerManager.java:129-141 | the registry builds iff every descriptor is readable, names a keyword and no keyword repeats or was known before |
| Discovery.RegisterContents | nl/tjeb/XTST/DocumentHandlerManager.java:129-141 | a built registry keeps the known entries, adds one entry per descriptor under its keyword, and its size is the known size plus the number of descriptors |
| Discovery.AllAcceptedCons | nl/tjeb/XTST/DocumentHandlerManager.java:129-141 | the descriptors are acceptable iff the first is, with a new keyword, and the rest are against the keywords grown by it |
| Discovery.DuplicateKeywordFails | nl/tjeb/XTST/DocumentHandlerManager.java:79-83 | two accepted descriptors with the same keyword make the build fail |
| Discovery.CurrentDescriptor | nl/tjeb/XTST/DocumentHandlerManager.java:85-122 | the current reader's lists hold exactly the resolved bare and numbered keys, without repeats; name and description default to empty |
| Discovery.RequiredKeys | nl/tjeb/XTST/DocumentHandlerManager.java:73-83 | no keyword, a repeated keyword, and (legacy only) no `xsl_file` are errors; the current reader accepts every descriptor with a new keyword |
| Discovery.AbsoluteFileNames | nl/tjeb/XTST/CommandLine.java:142 | for the same descriptor, the current reader keeps an absolute stylesheet name while the legacy reader appends it to the directory |
| Discovery.RegisterFailurePersists | nl/tjeb/XTST/DocumentHandlerManager.java:129-141 | a failure part-way through the walk is the failure of the whole build |
| HandlerManager.Loaded | nl/tjeb/XTST/DocumentHandlerManager.java:41-49 | what `load` installs: in multimode the registry below the base directory, empty when it is not a directory; in single mode the one "default" handler |
| HandlerManager.LoadedHandlers | nl/tjeb/XTST/DocumentHandlerManager.java:41-49 | single mode holds exactly one handler, "default"; multimode over a non-directory holds none and does not fail; over a directory it builds iff every descriptor is read, with one handler each |
| HandlerManager.CollectFiles | nl/tjeb/XTST/DocumentHandlerManager.java:85-95 | the loop over the bare key and keys 1 to 9 builds `FileList` |
| HandlerManager.DocumentHandlerManager.constructor | nl/tjeb/XTST/DocumentHandlerManager.java:20-28 | the configuration is kept, and no handler is installed yet |
| HandlerManager.DocumentHandlerManager.ReplaceHandlers | nl/tjeb/XTST/DocumentHandlerManager.java:33-34 | the new map is installed by one assignment |
| HandlerManager.DocumentHandlerManager.Load | nl/tjeb/XTST/DocumentHandlerManager.java:41-49 | on success the installed handlers describe `Loaded` and are all new; on failure the error is `Loaded`'s and the installed map is unchanged |
| HandlerManager.DocumentHandlerManager.GetDocumentHandlerCount | nl/tjeb/XTST/DocumentHandlerManager.java:51-53 | the number of keywords |
| HandlerManager.DocumentHandlerManager.GetDocumentHandler | nl/tjeb/XTST/DocumentHandlerManager.java:55-57 | a handler exactly for a registered keyword, and it is the one registered |
| HandlerManager.DocumentHandlerManager.ReadXtstProperties | nl/tjeb/XTST/DocumentHandlerManager.java:67-127 | the map after reading one descriptor is `Register` of it, and the earlier entries are kept |
| HandlerManager.DocumentHandlerManager.CheckDirectory | nl/tjeb/XTST/DocumentHandlerManager.java:129-141 | the map after the walk of a directory is `Register` of everything `FoundIn` finds, in order, and the earlier entries are kept |
| HandlerManager.DocumentHandlerManager.ReadDirectories | nl/tjeb/XTST/DocumentHandlerManager.java:143-150 | a directory is walked; anything else adds nothing and does not fail |
| HandlerManager.Create | nl/tjeb/XTST/DocumentHandlerManager.java:20-31 | a new manager after its first load has the handlers `Loaded` describes, or the load's error |
| CommandLine.Parsed | nl/tjeb/XTST/CommandLine.java:89-118 | the settings after parsing: every option given replaces its default; none on a parse error or on multimode with a schema file |
| CommandLine.LegacyRegistry | nl/tjeb/XTST/CommandLine.java:167-174 | the legacy registry below the directory, or an empty one when it is not a directory |
| CommandLine.Ran | nl/tjeb/XTST/CommandLine.java:181-212 | what `run` ends in: with an XML file the printed result or an exit; in multimode a server over the legacy registry, or an exit when it fails or is empty; otherwise a server with the one "default" handler |
| CommandLine.Program | nl/tjeb/XTST/CommandLine.java:214-217 | `main`: parse, exit when parsing does, otherwise run |
| CommandLine.ParsedExits | nl/tjeb/XTST/CommandLine.java:89-118 | the process exits exactly on a parse error or on multimode with a schema file |
| CommandLine.ParsedOverridesDefaults | nl/tjeb/XTST/CommandLine.java:101-114 | every option given replaces its default, every option left out keeps it, and the positional arguments are taken as they are |
| CommandLine.ParsedWithoutOptions | nl/tjeb/XTST/CommandLine.java:49-59 | with no options, the settings are the defaults (localhost, port 35791, no XML file, single mode, 30 seconds) plus the positional arguments |
| CommandLine.MultimodeServesEveryDescriptor | nl/tjeb/XTST/CommandLine.java:194-200 | a multimode server starts iff every descriptor is read and there is at least one, and then has one handler per descriptor |
| CommandLine.MultimodeNeedsDirectory | nl/tjeb/XTST/CommandLine.java:167-174 | multimode over something that is not a directory exits |
| CommandLine.SingleModeServesDefault | nl/tjeb/XTST/CommandLine.java:201-203 | single mode serves exactly one handler, "default", with the stylesheet and schema given |
| CommandLine.FileModeTransformsOnce | nl/tjeb/XTST/CommandLine.java:182-191 | with an XML file no server starts; the output of the one stylesheet is printed, or the process exits when it fails |
| CommandLine.ServingNeedsHandlers | nl/tjeb/XTST/CommandLine.java:193-206 | a server is only started from arguments that parsed, and never with an empty handler map |
| CommandLine.CommandLine.constructor | nl/tjeb/XTST/CommandLine.java:49-59 | the defaults, then the parsed arguments; exits exactly when parsing does |
| CommandLine.CommandLine.ParseArguments | nl/tjeb/XTST/CommandLine.java:89-118 | the settings become `Parsed` of the arguments, or the process exits |
| CommandLine.CommandLine.ReadXtstProperties | nl/tjeb/XTST/CommandLine.java:121-151 | the map after reading one descriptor is the legacy `Register` of it, and the earlier entries are kept |
| CommandLine.CommandLine.CheckDirectory | nl/tjeb/XTST/CommandLine.java:153-165 | the map after the walk is the legacy `Register` of everything `FoundIn` finds, in order |
| CommandLine.CommandLine.ReadDirectories | nl/tjeb/XTST/CommandLine.java:167-174 | a directory is walked; anything else adds nothing |
| CommandLine.CommandLine.Run | nl/tjeb/XTST/CommandLine.java:181-212 | what `run` ends in is `Ran` of the settings: the printed result, an exit, or a server with the handlers built, all of them new |
| CommandLine.Execute | nl/tjeb/XTST/CommandLine.java:214-217 | the program's outcome is `Program` of the arguments: parse, then run |

## Left out

- Sockets, `ServerSocket.accept`, socket timeouts and the outer loop of
  `Server.run`: network plumbing. One connection is modelled over byte
  sequences.
- Concurrency: `replaceHandlers` is `synchronized` in the source. The swap is
  one assignment here.
- XSLT compilation and execution, schema compilation and validation, XML
  parsing and serialisation (Saxon and JAXP): these are foreign library
  calls and become the parameters `apply`, `serialize` and `Env.schemaBuilds`.
- The process exit in `setupTransformer` when a stylesheet does not compile:
  a compiled stylesheet is represented by its path.
- `transformOne`'s re-parsing of the output, and its debug printing.
- Logging to standard output, everywhere.
- `LineNumbers.java` is not part of this model. It is a Saxon extension
  function.
- `send_document.py` is not part of this model. It is an example client.
- Argument parsing by argparse4j. The model starts from the parsed `Namespace`
  or from the parse error.
- `Properties.load`: a properties file is given as the map it loads into.
- Symbolic links: `isDirectory()` follows them, so a link cycle makes
  `checkDirectory` recurse without end. A directory tree here is finite and
  has no cycles, so such cycles are not modelled.
- `File.list` returning null is not modelled. It happens for a directory that
  cannot be listed.
- Path normalisation by `java.io.File`: repeated and trailing separators are
  not collapsed, so paths are taken as already normal.
- Java strings are UTF-16. Unpaired surrogates, which `getBytes` replaces, are
  not modelled: a Dafny `char` is a Unicode scalar value.
- `Utf8.Decode`: malformed UTF-8 in a received payload decodes to U+FFFD per
  malformed byte. The JDK may group malformed sequences differently.
- `Server.Server.ReadData`: a stream that reports the end of the stream
  before it checks its arguments is not modelled. The legacy
  `SocketInputStream` is one: on it `readData` keeps adding -1 to the total
  until the 32-bit total wraps around past `Integer.MIN_VALUE`, and then
  returns normally with a partly filled buffer. The model also departs on
  purpose from the assumption that each `read` returns at least one byte, so
  that a stream that ends early is modelled.
- `Server.Server.ReadDataString`: a declared length the Java VM cannot
  allocate is not modelled. In the source, `new byte[size]`
  (`Server.java:118`) then throws an `OutOfMemoryError`, for example for
  length `0x7FFFFFFF` on HotSpot or any length beyond the heap. The model
  allocates the array, and the short payload ends in `StreamEnded`.
- `Server.Respond`: for a length the VM cannot allocate, the source sends no
  status, because the `OutOfMemoryError` is an `Error`, which
  `catch (Exception …)` at `Server.java:190-194` does not take. The model
  gives the status `Error: java.lang.IndexOutOfBoundsException` instead.
- `Server.Reply`: for a length the VM cannot allocate, the source sends only
  the greeting. The model sends the greeting and a status frame.
- `Server.Server.Process`: its outcome is `Respond`'s, so the same
  unallocatable-length case is not modelled.
- `Server.Server.HandleConnection`: for a length the VM cannot allocate, the
  `OutOfMemoryError` escapes the catches at `Server.java:202-210` too. The
  serving loop then ends after the greeting, without closing the socket, and
  no further connection is accepted. The model sends a status and closes the
  connection.
- `Server.ReadErrorText`: only the class name of the exception is modelled,
  not the full text of `toString()`.
- `Server.Server.HandleConnection` requires that every serialised result and
  every transformation error fits in a Java byte array (under 2^31 bytes).
  Strings too long to be framed are not modelled.
- `Server.Server.constructor`: the source passes a single file name where
  `XSLTTransformer` expects a list. The model builds the one-element list.
- `CommandLine.CommandLine.Run`: the source builds the transformer from a
  single file name, as above, and hands the handler map to a `Server`
  constructor that `Server.java` does not have. The model returns the map in
  the outcome `Serving` and starts no server.
- `Handler.DocumentHandler.Single` and `Handler.DocumentHandler.Named` take
  no schema as "no schema file". The source puts a null path into the schema
  map. Loading it calls `new File((String) null)`, which throws a
  `NullPointerException` (`DocumentHandler.java:153-154`, `:174`). The catches
  of `loadXSD` take only `FileNotFoundException` and `SAXException`, so the
  exception leaves the constructor. That null path is not modelled.
- `CommandLine.CommandLine.Run`: in the source, single mode without a schema
  file ends in `System.exit(1)`, through the null schema path above
  (`CommandLine.java:202`, `:206-209`). The model starts a server with the
  handler "default" instead.
- `CommandLine.SingleModeServesDefault`: holds of the model, which takes a
  missing schema as no schema file. In the source, single mode without a
  schema file always exits, as above.
- `CommandLine.CommandLine.ReadXtstProperties`: in the source, every legacy
  descriptor without `xsd_file` builds a handler with a null schema path
  (`CommandLine.java:149`). The `NullPointerException` ends the process. The
  model registers the handler with no schema.
- `HandlerManager.LoadedHandlers`: in the source, single mode without a schema
  file makes `load` throw the `NullPointerException`
  (`DocumentHandlerManager.java:46`). The model installs the handler
  "default" with no schema.
- In the legacy reader, a descriptor without `xsd_file` leaves the schema
  path null (`CommandLine.java:143`). The handler built at
  `CommandLine.java:149` then throws the `NullPointerException` of the null
  schema path, and `run` ends in `System.exit(1)` (`CommandLine.java:207-209`).
  The model registers such a descriptor with no schema. The following
  members state the model's outcome, not the source's:
- `CommandLine.CommandLine.Run`: in multimode with such a descriptor the
  source exits. The model may start a server.
- `CommandLine.Ran`: a legacy registry with such a descriptor gives
  `Serving`, where the source exits.
- `CommandLine.Program`: the same as `CommandLine.Ran`.
- `CommandLine.Execute`: the same as `CommandLine.Program`.
- `CommandLine.LegacyRegistry`: holds such a descriptor's handler, where the
  source's walk throws.
- `CommandLine.MultimodeServesEveryDescriptor`: holds of the model. In the
  source, no multimode server starts while any descriptor lacks `xsd_file`,
  although `CommandLine.java:87` calls that key optional.
- `CommandLine.CommandLine.CheckDirectory`: the source's walk stops with the
  exception at such a descriptor. The model reads on.
- `CommandLine.CommandLine.ReadDirectories`: the same as
  `CommandLine.CommandLine.CheckDirectory`.
- `Discovery.Register`: with the legacy reader, accepts such a descriptor,
  where the source throws while building its handler.
- `HandlerManager.Loaded`: in single mode without a schema file, the source's
  `load` throws the `NullPointerException` of the null schema path
  (`DocumentHandlerManager.java:46`). The model installs the handler
  "default" with no schema.
- `HandlerManager.DocumentHandlerManager.Load`: the same as
  `HandlerManager.Loaded`.
- `HandlerManager.Create`: the same as `HandlerManager.Loaded`, so in the
  source no manager is built in single mode without a schema file.
- `Handler.DocumentHandler.LoadXslt`: the source reads the clock once per
  stylesheet. The model reads it once per operation, as `Env.now`.
- `Handler.DocumentHandler.CheckModified`: modification times are Java
  `long`s, modelled as unbounded integers. Overflow of
  `modifyChecked + 5000` is not modelled.
- The `checkEverySeconds` argument is accepted and ignored, as in the source.
  The interval is the fixed 5000 milliseconds.
- Getters that return the transformer, the validator or the handler map
  (`getTransformer`, `getXSDValidator`, `getHandlers`) are plain field
  reads.
- In `mergeResults`, the source takes the first child of each document as
  its root. A leading comment or processing instruction is not modelled:
  the root is the document element.
