# IntermediateReader, modelled in Dafny

This project models MonoGame's content-pipeline `IntermediateReader`. The reader walks an
intermediate-format XML document with a cursor and reads an object graph from it. It
registers two kinds of deferred fixups during the main pass:

- shared-resource callbacks, composed per id;
- external-reference callbacks, kept as an ordered list per id.

It replays them when it reaches the `Resources` and `ExternalReferences` sections.

The model has six modules:

- `Content` holds values, failures and the content identity (path, tool, `"line,column"`)
  attached to every `InvalidContentException`.
- `XmlCursor` stands in for `XmlReader`. The document is a sequence of tokens (element,
  end element, text, white space, and an ignorable node for comments, processing
  instructions and declarations), each carrying its line and column. The `Cursor` class
  holds a position and the attribute the reader is on. Its methods are `MoveToContent`,
  `GetAttribute`, `MoveToAttribute`, `Skip`, `ReadStartElement`, `ReadEndElement`,
  `ReadContentAsString`, `ReadElementContentAsString` and `ReadElementString`.
  - `MoveToContent` passes over white space and ignorable nodes.
  - Text and white space are both content. All three string reads return them, so
    `<Item>  </Item>` reads as two spaces.
  - The `ReadContentAs` methods pass over comments and processing instructions inside
    the text. `ReadElementString` stops at one and fails with an `XmlException`.
- `Fixups` models callbacks as data:
  - a shared-resource callback stores the resolved object into a slot;
  - a composed callback is `Single` or `Then(previous, next)`, as the nested closures are;
  - an external-reference callback is a slot plus the type `T` it expects.

  Running a callback is modelled by the `Write` it makes into the object graph.
- `IntermediateSpec` holds the collaborators the reader calls but does not define (type
  lookup, assignability, the serializers' `Deserialize`, directory name and path join) as
  function-valued fields of `Env`. It defines one function per read. Each gives the
  result, where the cursor ends and the moves made around `Deserialize`.
- `Intermediate` is the `IntermediateReader` class. Its fields are the fixup dictionaries,
  the enumeration order of the shared-fixup dictionary and the writes made so far. Two
  ghost fields hold the registration history and the trace of cursor moves.
  - Each read method is proved against the `IntermediateSpec` function for that read.
  - `MoveToElement` and `ReadTypeName` are proved against the cursor functions
    `SkipIgnorable` and `ContentAsString`.
  - `ReplayFixups` and `InvokeExternal` are proved against the `Fixups` functions
    `ReplayWrites` and `RunExternal`.
  - The constructor states the initial state.

  Every method also states what it has written when it fails.
- `IntermediateProperties` states what the reads promise, as lemmas over those functions.

Two behaviours of the code are easy to miss:

- `ReadExternalReferences` does not check that every registered external id appears in
  the section. A registered id that no entry names is left unresolved without an error.
  `RegisteredIdMayBeAbsent` states this.
- The "Missing shared resource" error at line 277 is built without a content identity,
  unlike the errors built by `NewInvalidContentException`.

Failures are exceptions in the code, and the callbacks run before one is thrown stay
applied. The model returns the failure together with the writes made so far:

- an external entry whose callback rejects the type keeps the `Filename`s set by the
  callbacks before it;
- a shared-resource replay that reaches an id with no resource keeps the writes of the
  ids before it.

## Model

All source paths are under `MonoGame.Framework.Content.Pipeline/Serialization/Intermediate/`.

| member | source | states |
|---|---|---|
| Intermediate.IntermediateReader.constructor | MonoGame.Framework.Content.Pipeline/Serialization/Intermediate/IntermediateReader.cs:33-40 | A new reader keeps its collaborators, document and path, and starts with no fixups and nothing written |
| Intermediate.IntermediateReader.NewInvalidContentException | MonoGame.Framework.Content.Pipeline/Serialization/Intermediate/IntermediateReader.cs:343-349 | The error carries its kind and an identity with the reader's file path and an empty tool name; its fragment parses back to the cursor's line and column |
| Intermediate.IntermediateReader.MoveToElement | MonoGame.Framework.Content.Pipeline/Serialization/Intermediate/IntermediateReader.cs:47-52 | Skips to the next content node and answers true exactly when that node is an element with the given name |
| Intermediate.IntermediateReader.ReadTypeName | MonoGame.Framework.Content.Pipeline/Serialization/Intermediate/IntermediateReader.cs:355-359 | Reads the content at the cursor as a string and returns the type lookup's answer for it, or the read's failure |
| Intermediate.IntermediateReader.ReadObject | MonoGame.Framework.Content.Pipeline/Serialization/Intermediate/IntermediateReader.cs:88-121 | Result, final position and Deserialize trace are those of ObjectRead from the starting position |
| Intermediate.IntermediateReader.ReadRawObject | MonoGame.Framework.Content.Pipeline/Serialization/Intermediate/IntermediateReader.cs:173-197 | Result, final position and Deserialize trace are those of RawRead from the starting position |
| Intermediate.IntermediateReader.ReadEmptyElement | MonoGame.Framework.Content.Pipeline/Serialization/Intermediate/IntermediateReader.cs:184-191 | On a self-closing element, matches RawRead: Deserialize on the element, then Skip |
| Intermediate.IntermediateReader.ReadEnclosedElement | MonoGame.Framework.Content.Pipeline/Serialization/Intermediate/IntermediateReader.cs:184-196 | On an element with content, matches RawRead: start tag, Deserialize, end tag |
| Intermediate.IntermediateReader.ReadResourceId | MonoGame.Framework.Content.Pipeline/Serialization/Intermediate/IntermediateReader.cs:225-235 | The id is the inline content (flatten) or the named element's text; a missing element fails with ElementNotFound |
| Intermediate.IntermediateReader.ReadSharedResource | MonoGame.Framework.Content.Pipeline/Serialization/Intermediate/IntermediateReader.cs:223-252 | On failure nothing is registered. An empty id registers nothing. Otherwise the callback is composed after the id's earlier ones and the id joins the order only if new, with the registration history and fixup table kept consistent |
| Intermediate.IntermediateReader.ReadResourceEntries | MonoGame.Framework.Content.Pipeline/Serialization/Intermediate/IntermediateReader.cs:264-269 | The loop builds exactly the table ResourceEntries describes, with the same failure, position and trace |
| Intermediate.IntermediateReader.ReadResourcesSection | MonoGame.Framework.Content.Pipeline/Serialization/Intermediate/IntermediateReader.cs:256-270 | Ok(None) when there is no Resources element, otherwise the table between its start and end tags, as ResourcesSection |
| Intermediate.IntermediateReader.ReadResourcesElement | MonoGame.Framework.Content.Pipeline/Serialization/Intermediate/IntermediateReader.cs:259-270 | Once on the Resources element, reads start tag, entries and end tag as ResourcesSection |
| Intermediate.IntermediateReader.ReadResourcesContent | MonoGame.Framework.Content.Pipeline/Serialization/Intermediate/IntermediateReader.cs:263-269 | Consumes the Resources start tag and reads the entries after it as ResourceEntries, with the same failure, position and trace |
| Intermediate.IntermediateReader.ReplayFixups | MonoGame.Framework.Content.Pipeline/Serialization/Intermediate/IntermediateReader.cs:272-279 | Fails with MissingSharedResource on the first id in enumeration order that lacks a resource. Passes otherwise. Either way, appends exactly ReplayWrites: the composed writes of every id before the stop |
| Intermediate.IntermediateReader.ReadSharedResources | MonoGame.Framework.Content.Pipeline/Serialization/Intermediate/IntermediateReader.cs:254-280 | No Resources element: no writes. Section failure: that failure and no writes. Otherwise: the replay's outcome, with its ReplayWrites appended whether it passes or fails |
| Intermediate.IntermediateReader.ReadExternalReference | MonoGame.Framework.Content.Pipeline/Serialization/Intermediate/IntermediateReader.cs:290-309 | No Reference element: nothing registered. Otherwise one callback is appended to that id's list and other ids' lists are unchanged (AddExternal) |
| Intermediate.IntermediateReader.ReadExternalEntry | MonoGame.Framework.Content.Pipeline/Serialization/Intermediate/IntermediateReader.cs:322-338 | Outcome, position and appended writes are those of ExternalEntry, including the writes of callbacks that ran before a failure |
| Intermediate.IntermediateReader.ReadExternalFilename | MonoGame.Framework.Content.Pipeline/Serialization/Intermediate/IntermediateReader.cs:332-338 | Once the target type is resolved: the entry's element text is read with ReadElementString (XmlException if it fails), joined to the directory, and the callbacks run as RunExternal says, their writes appended; a rejected type fails with InvalidReferenceType after the element |
| Intermediate.IntermediateReader.InvokeExternal | MonoGame.Framework.Content.Pipeline/Serialization/Intermediate/IntermediateReader.cs:337-338 | The loop over an id's callbacks appends exactly the writes of RunExternal and reports whether every callback accepted the type |
| Intermediate.IntermediateReader.ReadExternalEntries | MonoGame.Framework.Content.Pipeline/Serialization/Intermediate/IntermediateReader.cs:320-339 | Outcome, position and the whole write log are those of ExternalEntries, started from the writes already made |
| Intermediate.IntermediateReader.ReadExternalReferences | MonoGame.Framework.Content.Pipeline/Serialization/Intermediate/IntermediateReader.cs:311-341 | Outcome and position are those of ExternalReferencesSection, and its writes are appended, on failure as well |
| Intermediate.IntermediateReader.ReadExternalSection | MonoGame.Framework.Content.Pipeline/Serialization/Intermediate/IntermediateReader.cs:316-340 | Once on the ExternalReferences element, reads start tag, entries and end tag as ExternalReferencesSection, keeping the writes made before a failure |
| Content.IdentityAt | MonoGame.Framework.Content.Pipeline/Serialization/Intermediate/IntermediateReader.cs:345-347 | The identity names the file, has an empty tool name, and its fragment parses back to the given line and column |
| Content.LineColumnRoundTrip | MonoGame.Framework.Content.Pipeline/Serialization/Intermediate/IntermediateReader.cs:346 | Parsing the formatted `"line,column"` string gives back the line and column |
| Content.NatRoundTrip | MonoGame.Framework.Content.Pipeline/Serialization/Intermediate/IntermediateReader.cs:346 | The decimal text of a number parses back to that number |
| IntermediateSpec.ToBoolean | MonoGame.Framework.Content.Pipeline/Serialization/Intermediate/IntermediateReader.cs:97 | Some(true) exactly for trimmed "true"/"1", Some(false) exactly for trimmed "false"/"0", and None (a FormatException) exactly for anything else |
| IntermediateSpec.Deserialize | MonoGame.Framework.Content.Pipeline/Serialization/Intermediate/IntermediateReader.cs:188 | Fails exactly when the type serializer's read fails; on success the cursor is left at or after where it started and within the document |
| IntermediateSpec.RawRead | MonoGame.Framework.Content.Pipeline/Serialization/Intermediate/IntermediateReader.cs:173-197 | A successful raw read ends within the document, strictly past its element when not flattened; a Deserialize failure is passed on (stated case by case in RawReadFlatten, RawReadEmptyElement and RawReadElement) |
| IntermediateSpec.ObjectRead | MonoGame.Framework.Content.Pipeline/Serialization/Intermediate/IntermediateReader.cs:88-121 | A successful object read ends within the document, strictly past its element when not flattened |
| IntermediateSpec.ResourceEntries | MonoGame.Framework.Content.Pipeline/Serialization/Intermediate/IntermediateReader.cs:264-269 | A successful resources loop keeps every id already in the table |
| IntermediateSpec.ResourceEntriesKeepsTable | MonoGame.Framework.Content.Pipeline/Serialization/Intermediate/IntermediateReader.cs:264-269 | A successful resources loop keeps every entry it starts with, with its value unchanged |
| IntermediateSpec.ResourceEntriesNewKeys | MonoGame.Framework.Content.Pipeline/Serialization/Intermediate/IntermediateReader.cs:264-269 | Every id the loop adds is the ID of a Resource element between its start and end, stored with the object ReadObject reads from that element with the Resource format |
| IntermediateSpec.ResourceEntriesStoresFirst | MonoGame.Framework.Content.Pipeline/Serialization/Intermediate/IntermediateReader.cs:264-269 | The first Resource element read is added under its ID with its object, and the loop continues after it; an ID already present fails with ArgumentException(ID) |
| IntermediateSpec.ResourceEntriesPrefix | MonoGame.Framework.Content.Pipeline/Serialization/Intermediate/IntermediateReader.cs:264-269 | What the resources loop reads does not depend on the moves made before it |
| IntermediateSpec.ReplayOutcome | MonoGame.Framework.Content.Pipeline/Serialization/Intermediate/IntermediateReader.cs:273-277 | The replay passes exactly when every registered id has a resource |
| IntermediateSpec.ResourcesSection | MonoGame.Framework.Content.Pipeline/Serialization/Intermediate/IntermediateReader.cs:256-270 | Ok(None) exactly when no Resources element is at the content node; a successful read ends within the document, and a table is returned only after an end tag |
| IntermediateSpec.SharedResourceId | MonoGame.Framework.Content.Pipeline/Serialization/Intermediate/IntermediateReader.cs:225-235 | Flattened: the id and end position are ReadContentAsString's, or its failure. Otherwise: no element with the format's name fails with ElementNotFound tagged at the cursor; a found element gives its text content and the position after its end tag, or an XmlException |
| IntermediateSpec.ExternalReferenceId | MonoGame.Framework.Content.Pipeline/Serialization/Intermediate/IntermediateReader.cs:292-295 | None exactly when there is no Reference element; otherwise the element's text content and the position after its end tag, or an XmlException exactly when that content is not text |
| IntermediateSpec.ExternalEntry | MonoGame.Framework.Content.Pipeline/Serialization/Intermediate/IntermediateReader.cs:322-338 | A successful entry ends strictly past its element; an entry writes something only when its ID is registered |
| IntermediateSpec.ExternalEntries | MonoGame.Framework.Content.Pipeline/Serialization/Intermediate/IntermediateReader.cs:320-339 | A successful entries loop ends within the document; the writes made before the loop stay, unchanged, at the head of its write log |
| IntermediateSpec.ExternalEntriesPrefix | MonoGame.Framework.Content.Pipeline/Serialization/Intermediate/IntermediateReader.cs:320-339 | What the entries loop writes is appended to whatever was written before it, and its outcome does not depend on that |
| IntermediateSpec.ExternalReferencesSection | MonoGame.Framework.Content.Pipeline/Serialization/Intermediate/IntermediateReader.cs:311-341 | A successful section read ends within the document; without an ExternalReferences element it succeeds and writes nothing |
| IntermediateSpec.CloseExternalReferences | MonoGame.Framework.Content.Pipeline/Serialization/Intermediate/IntermediateReader.cs:340 | The writes of the entries are kept; a failing entry is the section's failure; otherwise the section passes exactly when an end tag follows, and fails with XmlException when not |
| IntermediateSpec.ExternalReferencesSectionEntries | MonoGame.Framework.Content.Pipeline/Serialization/Intermediate/IntermediateReader.cs:316-340 | With an ExternalReferences element, the section is the entries loop over its content, then its end tag, with the entries' writes on every outcome |
| Fixups.Flatten | MonoGame.Framework.Content.Pipeline/Serialization/Intermediate/IntermediateReader.cs:241-251 | A composed fixup holds at least one callback |
| Fixups.Compose | MonoGame.Framework.Content.Pipeline/Serialization/Intermediate/IntermediateReader.cs:241-251 | A first registration holds only the new callback; a later one holds the earlier callbacks followed by the new one |
| Fixups.StoreAll | MonoGame.Framework.Content.Pipeline/Serialization/Intermediate/IntermediateReader.cs:278 | Each callback writes the resource into its own slot, one write per callback, in order |
| Fixups.RunComposed | MonoGame.Framework.Content.Pipeline/Serialization/Intermediate/IntermediateReader.cs:246-250 | Invoking the nested closures makes exactly the writes of the composed callbacks, in registration order, once each |
| Fixups.RegisterKeepsConsistent | MonoGame.Framework.Content.Pipeline/Serialization/Intermediate/IntermediateReader.cs:240-251 | A registration keeps the fixup table, its enumeration order and the registration history in agreement |
| Fixups.NoActionsForUnregistered | MonoGame.Framework.Content.Pipeline/Serialization/Intermediate/IntermediateReader.cs:242-243 | An id never registered has no callbacks |
| Fixups.FirstMissing | MonoGame.Framework.Content.Pipeline/Serialization/Intermediate/IntermediateReader.cs:273-277 | Finds the first id lacking a resource, with every earlier id present, or none when all are present |
| Fixups.ReplayShared | MonoGame.Framework.Content.Pipeline/Serialization/Intermediate/IntermediateReader.cs:273-279 | Every write of every id's composed fixup is in the replay, and the replay has no other writes |
| Fixups.ReplayWrites | MonoGame.Framework.Content.Pipeline/Serialization/Intermediate/IntermediateReader.cs:273-279 | The writes the replay makes before it stops; when every id has a resource, the whole replay |
| Fixups.ReplayWritesUpTo | MonoGame.Framework.Content.Pipeline/Serialization/Intermediate/IntermediateReader.cs:273-278 | When the replay stops at the i-th id, it has run exactly the fixups of the ids before it |
| Fixups.ReplayIsBlocks | MonoGame.Framework.Content.Pipeline/Serialization/Intermediate/IntermediateReader.cs:273-279 | The replay writes, id by id, exactly the writes of that id's registrations |
| Fixups.BlocksAreWrites | MonoGame.Framework.Content.Pipeline/Serialization/Intermediate/IntermediateReader.cs:273-279 | Grouping the registrations by id loses and duplicates none of their writes |
| Fixups.ReplayRunsEachRegistrationOnce | MonoGame.Framework.Content.Pipeline/Serialization/Intermediate/IntermediateReader.cs:273-279 | When every id has a resource, the replay runs every registered callback exactly once with its id's resource |
| Fixups.RunExternal | MonoGame.Framework.Content.Pipeline/Serialization/Intermediate/IntermediateReader.cs:297-303 | Completes exactly when every callback expects the resolved type. The callbacks before the first mismatch have each set only their own reference's Filename, in list order; on a mismatch the stop is at that callback |
| Fixups.AddExternal | MonoGame.Framework.Content.Pipeline/Serialization/Intermediate/IntermediateReader.cs:305-308 | The id's list gains exactly the new callback at its end; every other id's list is unchanged |
| IntermediateProperties.DeserializeCount | MonoGame.Framework.Content.Pipeline/Serialization/Intermediate/IntermediateReader.cs:188 | Zero exactly when a trace has no Deserialize call |
| IntermediateProperties.ElementTextKeepsWhitespace | MonoGame.Framework.Content.Pipeline/Serialization/Intermediate/IntermediateReader.cs:333 | White space between an element's tags is its text for both ReadElementContentAsString and ReadElementString |
| IntermediateProperties.CommentInElementText | MonoGame.Framework.Content.Pipeline/Serialization/Intermediate/IntermediateReader.cs:333 | A comment inside an element is passed over by ReadElementContentAsString but makes ReadElementString fail |
| IntermediateProperties.ElementNotFoundDeserializesNothing | MonoGame.Framework.Content.Pipeline/Serialization/Intermediate/IntermediateReader.cs:90-93 | Off the flatten path, a missing element makes ReadObject and ReadRawObject fail with ElementNotFound at the content node, deserializing nothing |
| IntermediateProperties.NullMarker | MonoGame.Framework.Content.Pipeline/Serialization/Intermediate/IntermediateReader.cs:96-104 | `Null="true"` fails with NullNotAllowed unless null is allowed; if allowed, the subtree is skipped and the default value returned; no Deserialize either way |
| IntermediateProperties.NullMarkerMalformed | MonoGame.Framework.Content.Pipeline/Serialization/Intermediate/IntermediateReader.cs:97 | A `Null` attribute that is not a boolean fails with a FormatException |
| IntermediateProperties.TypeOverride | MonoGame.Framework.Content.Pipeline/Serialization/Intermediate/IntermediateReader.cs:107-116 | An unresolved `Type` fails with UnresolvedType and a non-assignable one with TypeMismatch, both with no Deserialize; an assignable one reads with that type's serializer, so every Deserialize uses it |
| IntermediateProperties.ObjectReadFlatten | MonoGame.Framework.Content.Pipeline/Serialization/Intermediate/IntermediateReader.cs:90-120 | A flattened read looks at no Null or Type attribute: it is the raw read, one Deserialize at the content node with the caller's serializer and existing instance, whose value or failure is the read's |
| IntermediateProperties.NoTypeOverride | MonoGame.Framework.Content.Pipeline/Serialization/Intermediate/IntermediateReader.cs:107-120 | Without a `Type` attribute the given serializer reads the element |
| IntermediateProperties.RawReadFlatten | MonoGame.Framework.Content.Pipeline/Serialization/Intermediate/IntermediateReader.cs:175-179 | Flatten: one Deserialize at the content node, no element boundary consumed; the read succeeds with Deserialize's value or fails with its failure |
| IntermediateProperties.RawReadEmptyElement | MonoGame.Framework.Content.Pipeline/Serialization/Intermediate/IntermediateReader.cs:184-191 | Self-closing element: Deserialize on the element, then Skip; no start or end tag consumed; a Deserialize failure is the read's failure, and a success has Deserialize's value |
| IntermediateProperties.RawReadElement | MonoGame.Framework.Content.Pipeline/Serialization/Intermediate/IntermediateReader.cs:184-196 | Other elements: start tag consumed, Deserialize on the content, then the end tag consumed; a Deserialize failure is the read's failure, and a success has Deserialize's value |
| IntermediateProperties.RawReadDeserializesOnce | MonoGame.Framework.Content.Pipeline/Serialization/Intermediate/IntermediateReader.cs:175-196 | Once its element is found (or when flattened), ReadRawObject calls Deserialize exactly once |
| IntermediateProperties.ObjectReadDeserializesAtMostOnce | MonoGame.Framework.Content.Pipeline/Serialization/Intermediate/IntermediateReader.cs:88-121 | ReadObject calls Deserialize at most once, and exactly once on success unless it returned the null default |
| IntermediateProperties.ComposedFixupRunsRegistrationsInOrder | MonoGame.Framework.Content.Pipeline/Serialization/Intermediate/IntermediateReader.cs:241-251 | The fixup stored for an id stores the resource into every slot registered for that id, in registration order, once each |
| IntermediateProperties.NoResourcesSection | MonoGame.Framework.Content.Pipeline/Serialization/Intermediate/IntermediateReader.cs:256-257 | Without a Resources element the section reads nothing and succeeds with no table |
| IntermediateProperties.DuplicateResourceRejected | MonoGame.Framework.Content.Pipeline/Serialization/Intermediate/IntermediateReader.cs:266-268 | A Resource whose ID is already in the table fails with ArgumentException for that key |
| IntermediateProperties.SectionResourcesReadUnderId | MonoGame.Framework.Content.Pipeline/Serialization/Intermediate/IntermediateReader.cs:256-270 | Every id in the table the Resources section yields is the ID of a Resource element inside the section, mapped to the object read from that element |
| IntermediateProperties.ReplayIsAllOrNothing | MonoGame.Framework.Content.Pipeline/Serialization/Intermediate/IntermediateReader.cs:272-279 | The replay fails exactly when some registered id lacks a resource; on success every registration ran once with its id's resource |
| IntermediateProperties.UnknownExternalId | MonoGame.Framework.Content.Pipeline/Serialization/Intermediate/IntermediateReader.cs:323-325 | An entry whose ID has no registered callbacks fails with UnknownReferenceId at the entry and writes nothing |
| IntermediateProperties.UnresolvedTargetType | MonoGame.Framework.Content.Pipeline/Serialization/Intermediate/IntermediateReader.cs:327-330 | A known id whose TargetType does not resolve fails with UnresolvedType. A missing TargetType fails as a content read. Neither writes anything |
| IntermediateProperties.ExternalEntryInvokesEveryCallback | MonoGame.Framework.Content.Pipeline/Serialization/Intermediate/IntermediateReader.cs:332-338 | The entry passes exactly when every callback of the id expects the resolved type. The callbacks run in list order, each setting its Filename to the name joined to the document's directory. The first mismatching callback fails with InvalidReferenceType after the element, with the earlier writes kept |
| IntermediateProperties.NoExternalReferencesSection | MonoGame.Framework.Content.Pipeline/Serialization/Intermediate/IntermediateReader.cs:313-314 | Without an ExternalReferences element the section succeeds at the content node and invokes nothing |
| IntermediateProperties.RegisteredIdMayBeAbsent | MonoGame.Framework.Content.Pipeline/Serialization/Intermediate/IntermediateReader.cs:319-340 | For any registered callbacks, an ExternalReferences element with no entries succeeds just past its end tag and invokes nothing, so registered ids are left unresolved |

## Left out

- XML text parsing. The document is already a token sequence, and the cursor methods stand
  in for `XmlReader`. `XmlReader` itself is not part of this model.
- Message text of every exception, and the `innerException` argument. Only the error kind
  and the `(path, line, column)` identity are kept.
- The second `ReadContentAsString` calls at lines 111 and 330. They only supply message
  text and do not change the outcome.
- Generic casts `(T)o`. All objects are `Value`.
- Reflection: `FindType`, `IsAssignableFrom`, `GetTypeSerializer`. They are parameters of
  the model, and `GetTypeSerializer` is taken to return a serializer for the type asked.
- `Path.GetDirectoryName` and `Path.Combine`. They are parameters of the model.
- The serializers' `Deserialize`. It is a parameter that may read from the current
  position or fail. On success it is clamped so the cursor never moves backward or past
  the end. It cannot call back into the reader, so nested reads and the fixups they would
  register are not modelled.
- The generic convenience overloads of `ReadObject` and `ReadRawObject` (lines 60-75,
  131-134, 145-160, 209-212). They only pick a default serializer or existing instance
  and forward to the modelled methods.
- Dictionary enumeration order. The fixup table is enumerated in insertion order
  (`fixupOrder`), the order `Dictionary` gives when nothing is removed.
- Line information. While the reader is on an attribute, errors report the element's
  position. At end of input the line and column are 0,0.
- `MonoGame.Framework/Devices/Sensors/SensorBase.cs`,
  `MonoGame.Framework/Content/ContentReaders/ExternalReferenceReader.cs` and
  `SByteReader.cs` are not part of this model. They are device and binary-loading code
  outside the intermediate reader.
- IntermediateSpec.ObjectRead: its own contract states only cursor bounds. What the read
  does (the flattened read, element lookup, `Null`, `Type`, brackets) is stated by the
  lemmas in `IntermediateProperties`, `ObjectReadFlatten` for the flattened case.
