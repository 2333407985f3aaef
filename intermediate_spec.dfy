/** What each read of the intermediate reader does, as functions of the document and the
    cursor position: the result, where the cursor ends up, and the steps taken around
    the type serializer's Deserialize call. */
module IntermediateSpec {
  import opened Content
  import opened XmlCursor
  import opened Fixups

  /** The per-field serialization settings of a read site. */
  datatype Format = Format(elementName: string, flattenContent: bool, allowNull: bool)

  /** A type serializer, known to the reader by the type it deserializes. */
  datatype Serializer = Serializer(targetType: TypeId)

  /** The collaborators the reader calls but does not define: type lookup by name,
      assignability between types, the serializers' Deserialize, and path handling. */
  datatype Env = Env(
    findType: string -> Option<TypeId>,
    isAssignableFrom: (TypeId, TypeId) -> bool,
    deserialize: (TypeId, Format, Value, seq<Token>, nat) -> Result<(Value, nat)>,
    directoryName: string -> string,
    combine: (string, string) -> string,
    objectType: TypeId)

  /** GetTypeSerializer: the serializer registered for a type. */
  function GetTypeSerializer(t: TypeId): (s: Serializer)
    ensures s.targetType == t
  {
    Serializer(t)
  }

  /** The cursor moves the reader makes around a Deserialize call. */
  datatype Step = ConsumedStart | Deserialized(targetType: TypeId, at: nat) | Skipped | ConsumedEnd

  /** What a read produces: its result, where the cursor stands after a successful read,
      and the steps it took. */
  datatype Walk<T> = Walk(result: Result<T>, pos: nat, steps: seq<Step>)

  /** The format ReadSharedResources reads each `Resource` element with. */
  const ResourceFormat := Format("Resource", false, true)

  /** An InvalidContentException tagged with the document path and the position `p`. */
  function Tagged(kind: ContentError, path: string, tokens: seq<Token>, p: nat): Failure {
    var (line, column) := LineInfo(tokens, p);
    InvalidContent(kind, Some(IdentityAt(path, line, column)))
  }

  predicate IsXmlWhitespace(c: char) {
    c == ' ' || c == '\t' || c == '\n' || c == '\r'
  }

  function TrimStart(s: string): string {
    if s != [] && IsXmlWhitespace(s[0]) then TrimStart(s[1..]) else s
  }

  function TrimEnd(s: string): string {
    if s != [] && IsXmlWhitespace(s[|s| - 1]) then TrimEnd(s[..|s| - 1]) else s
  }

  /** XmlConvert.ToBoolean: "true"/"1" and "false"/"0" after trimming white space; None
      for anything else (a FormatException). */
  function ToBoolean(s: string): (r: Option<bool>)
    ensures r == Some(true) <==> TrimEnd(TrimStart(s)) in {"true", "1"}
    ensures r == Some(false) <==> TrimEnd(TrimStart(s)) in {"false", "0"}
    ensures r.None? <==> TrimEnd(TrimStart(s)) !in {"true", "1", "false", "0"}
  {
    var t := TrimEnd(TrimStart(s));
    if t == "true" || t == "1" then Some(true)
    else if t == "false" || t == "0" then Some(false)
    else None
  }

  /** A Deserialize call at `p`: the failure the serializer raises, or its value and
      where it leaves the cursor, which only moves forward and stays within the document. */
  function Deserialize(env: Env, t: TypeId, format: Format, existing: Value, tokens: seq<Token>, p: nat): (r: Result<(Value, nat)>)
    requires p <= |tokens|
    ensures r.Ok? ==> p <= r.value.1 <= |tokens|
    ensures r.Err? <==> env.deserialize(t, format, existing, tokens, p).Err?
  {
    match env.deserialize(t, format, existing, tokens, p)
    case Err(e) => Err(e)
    case Ok((v, q)) => Ok((v, if q < p then p else if q > |tokens| then |tokens| else q))
  }

  /** ReadRawObject: deserialize inline content (flatten), or the element named by the
      format: a self-closing element is deserialized and then skipped, any other has its
      start tag consumed before and its end tag after Deserialize. */
  function RawRead(env: Env, path: string, tokens: seq<Token>, p: nat, format: Format,
                   serializer: Serializer, existing: Value): (w: Walk<Value>)
    requires p <= |tokens|
    ensures w.result.Ok? ==> p <= w.pos <= |tokens|
    ensures w.result.Ok? && !format.flattenContent ==> p < w.pos
  {
    var q := SkipIgnorable(tokens, p);
    var t := serializer.targetType;
    if format.flattenContent then
      match Deserialize(env, t, format, existing, tokens, q)
      case Err(e) => Walk(Err(e), q, [Deserialized(t, q)])
      case Ok((v, q2)) => Walk(Ok(v), q2, [Deserialized(t, q)])
    else if !IsElementNamed(tokens, q, format.elementName) then
      Walk(Err(Tagged(ElementNotFound(format.elementName), path, tokens, q)), q, [])
    else if tokens[q].node.isEmpty then
      match Deserialize(env, t, format, existing, tokens, q)
      case Err(e) => Walk(Err(e), q, [Deserialized(t, q)])
      case Ok((v, q2)) =>
        match SkipEnd(tokens, q2)
        case None => Walk(Err(XmlException), q2, [Deserialized(t, q)])
        case Some(q3) => Walk(Ok(v), q3, [Deserialized(t, q), Skipped])
    else
      match Deserialize(env, t, format, existing, tokens, q + 1)
      case Err(e) => Walk(Err(e), q + 1, [ConsumedStart, Deserialized(t, q + 1)])
      case Ok((v, q2)) =>
        var q3 := SkipIgnorable(tokens, q2);
        if IsEndElementAt(tokens, q3) then Walk(Ok(v), q3 + 1, [ConsumedStart, Deserialized(t, q + 1), ConsumedEnd])
        else Walk(Err(XmlException), q3, [ConsumedStart, Deserialized(t, q + 1)])
  }

  /** ReadObject: locate the element, honour its `Null` marker and `Type` override, then
      read it raw with the (possibly replaced) serializer. */
  function ObjectRead(env: Env, path: string, tokens: seq<Token>, p: nat, format: Format,
                      serializer: Serializer, existing: Value): (w: Walk<Value>)
    requires p <= |tokens|
    ensures w.result.Ok? ==> p <= w.pos <= |tokens|
    ensures w.result.Ok? && !format.flattenContent ==> p < w.pos
  {
    if format.flattenContent then RawRead(env, path, tokens, p, format, serializer, existing)
    else
      var q := SkipIgnorable(tokens, p);
      if !IsElementNamed(tokens, q, format.elementName) then
        Walk(Err(Tagged(ElementNotFound(format.elementName), path, tokens, q)), q, [])
      else
        var isNull := AttributeAt(tokens, q, "Null");
        if isNull.Some? && ToBoolean(isNull.value).None? then Walk(Err(FormatException), q, [])
        else if isNull.Some? && ToBoolean(isNull.value) == Some(true) then
          if !format.allowNull then Walk(Err(Tagged(NullNotAllowed(format.elementName), path, tokens, q)), q, [])
          else match SkipEnd(tokens, q)
            case None => Walk(Err(XmlException), q, [])
            case Some(q2) => Walk(Ok(DefaultValue), q2, [Skipped])
        else match AttributeAt(tokens, q, "Type")
          case None => RawRead(env, path, tokens, q, format, serializer, existing)
          case Some(name) =>
            match env.findType(name)
            case None => Walk(Err(Tagged(UnresolvedType, path, tokens, q)), q, [])
            case Some(t) =>
              if !env.isAssignableFrom(serializer.targetType, t) then
                Walk(Err(Tagged(TypeMismatch(t, serializer.targetType), path, tokens, q)), q, [])
              else RawRead(env, path, tokens, q, format, GetTypeSerializer(t), existing)
  }

  /** The loop of ReadSharedResources over the `Resource` elements, from `p`, after the
      earlier entries have filled `table` and made the moves `steps`: each one's `ID` and
      object go into the table; a missing `ID` or one seen before fails. */
  function ResourceEntries(env: Env, path: string, tokens: seq<Token>, p: nat,
                           table: map<string, Value>, steps: seq<Step>): (w: Walk<map<string, Value>>)
    requires p <= |tokens|
    ensures w.result.Ok? ==> p <= w.pos <= |tokens| && table.Keys <= w.result.value.Keys
    decreases |tokens| - p
  {
    var q := SkipIgnorable(tokens, p);
    if !IsElementNamed(tokens, q, "Resource") then Walk(Ok(table), q, steps)
    else
      var id := AttributeAt(tokens, q, "ID");
      var read := ObjectRead(env, path, tokens, q, ResourceFormat, GetTypeSerializer(env.objectType), DefaultValue);
      if read.result.Err? then Walk(Err(read.result.failure), read.pos, steps + read.steps)
      else if id.None? then Walk(Err(ArgumentNullException), read.pos, steps + read.steps)
      else if id.value in table then Walk(Err(ArgumentException(id.value)), read.pos, steps + read.steps)
      else ResourceEntries(env, path, tokens, read.pos, table[id.value := read.result.value], steps + read.steps)
  }

  /** The resources loop keeps every entry of the table it starts with, value and all. */
  lemma {:induction false} ResourceEntriesKeepsTable(env: Env, path: string, tokens: seq<Token>, p: nat,
                                                     table: map<string, Value>, steps: seq<Step>)
    requires p <= |tokens|
    ensures var w := ResourceEntries(env, path, tokens, p, table, steps);
            w.result.Ok? ==> forall k :: k in table ==> k in w.result.value && w.result.value[k] == table[k]
    decreases |tokens| - p
  {
    var q := SkipIgnorable(tokens, p);
    if IsElementNamed(tokens, q, "Resource") {
      var id := AttributeAt(tokens, q, "ID");
      var read := ObjectRead(env, path, tokens, q, ResourceFormat, GetTypeSerializer(env.objectType), DefaultValue);
      if read.result.Ok? && id.Some? && id.value !in table {
        ResourceEntriesKeepsTable(env, path, tokens, read.pos, table[id.value := read.result.value], steps + read.steps);
      }
    }
  }

  /** A `Resource` element at `i` whose `ID` is `k` and whose object, read with the
      resource format, is `v`. */
  predicate ResourceAt(env: Env, path: string, tokens: seq<Token>, i: nat, k: string, v: Value) {
    i <= |tokens| && IsElementNamed(tokens, i, "Resource") && AttributeAt(tokens, i, "ID") == Some(k) &&
    ObjectRead(env, path, tokens, i, ResourceFormat, GetTypeSerializer(env.objectType), DefaultValue).result == Ok(v)
  }

  /** Every id the resources loop adds to the table is the `ID` of a `Resource` element it
      read, and is stored with that element's object. */
  lemma {:induction false} ResourceEntriesNewKeys(env: Env, path: string, tokens: seq<Token>, p: nat,
                                                  table: map<string, Value>, steps: seq<Step>)
    requires p <= |tokens|
    ensures var w := ResourceEntries(env, path, tokens, p, table, steps);
            w.result.Ok? ==> forall k :: k in w.result.value && k !in table ==>
              exists i :: p <= i < w.pos && ResourceAt(env, path, tokens, i, k, w.result.value[k])
    decreases |tokens| - p
  {
    var w := ResourceEntries(env, path, tokens, p, table, steps);
    var q := SkipIgnorable(tokens, p);
    if IsElementNamed(tokens, q, "Resource") && w.result.Ok? {
      var id := AttributeAt(tokens, q, "ID");
      var read := ObjectRead(env, path, tokens, q, ResourceFormat, GetTypeSerializer(env.objectType), DefaultValue);
      var next := table[id.value := read.result.value];
      assert w == ResourceEntries(env, path, tokens, read.pos, next, steps + read.steps);
      ResourceEntriesNewKeys(env, path, tokens, read.pos, next, steps + read.steps);
      ResourceEntriesKeepsTable(env, path, tokens, read.pos, next, steps + read.steps);
      assert ResourceAt(env, path, tokens, q, id.value, w.result.value[id.value]);
      assert q < read.pos <= w.pos;
    }
  }

  /** The first `Resource` element the loop reads goes into the table with its object,
      and the loop goes on from after it; so each element read adds its id. */
  lemma ResourceEntriesStoresFirst(env: Env, path: string, tokens: seq<Token>, p: nat,
                                   table: map<string, Value>, steps: seq<Step>, k: string, v: Value)
    requires p <= |tokens| && ResourceAt(env, path, tokens, SkipIgnorable(tokens, p), k, v)
    ensures var w := ResourceEntries(env, path, tokens, p, table, steps);
            var read := ObjectRead(env, path, tokens, SkipIgnorable(tokens, p), ResourceFormat,
                                   GetTypeSerializer(env.objectType), DefaultValue);
            (k in table ==> w.result == Err(ArgumentException(k))) &&
            (k !in table ==> w == ResourceEntries(env, path, tokens, read.pos, table[k := v], steps + read.steps)) &&
            (w.result.Ok? ==> k in w.result.value && w.result.value[k] == v)
  {
    var q := SkipIgnorable(tokens, p);
    var read := ObjectRead(env, path, tokens, q, ResourceFormat, GetTypeSerializer(env.objectType), DefaultValue);
    if k !in table {
      ResourceEntriesKeepsTable(env, path, tokens, read.pos, table[k := v], steps + read.steps);
    }
  }

  /** The resources loop begins by skipping ignorable nodes. */
  lemma ResourceEntriesSkip(env: Env, path: string, tokens: seq<Token>, p: nat,
                            table: map<string, Value>, steps: seq<Step>)
    requires p <= |tokens|
    ensures SkipIgnorable(tokens, SkipIgnorable(tokens, p)) == SkipIgnorable(tokens, p)
    ensures ResourceEntries(env, path, tokens, p, table, steps) ==
            ResourceEntries(env, path, tokens, SkipIgnorable(tokens, p), table, steps)
  {
  }

  /** What the resources loop reads does not depend on the moves made before it. */
  lemma {:induction false} ResourceEntriesPrefix(env: Env, path: string, tokens: seq<Token>, p: nat,
                                                 table: map<string, Value>, before: seq<Step>, steps: seq<Step>)
    requires p <= |tokens|
    ensures var a := ResourceEntries(env, path, tokens, p, table, before + steps);
            var b := ResourceEntries(env, path, tokens, p, table, steps);
            a.result == b.result && a.pos == b.pos && a.steps == before + b.steps
    decreases |tokens| - p
  {
    var q := SkipIgnorable(tokens, p);
    if IsElementNamed(tokens, q, "Resource") {
      var id := AttributeAt(tokens, q, "ID");
      var read := ObjectRead(env, path, tokens, q, ResourceFormat, GetTypeSerializer(env.objectType), DefaultValue);
      assert before + steps + read.steps == before + (steps + read.steps);
      if read.result.Ok? && id.Some? && id.value !in table {
        ResourceEntriesPrefix(env, path, tokens, read.pos, table[id.value := read.result.value], before, steps + read.steps);
      }
    }
  }

  /** The reading half of ReadSharedResources: Ok(None) when there is no `Resources`
      element, otherwise the table of its resources. */
  function ResourcesSection(env: Env, path: string, tokens: seq<Token>, p: nat): (w: Walk<Option<map<string, Value>>>)
    requires p <= |tokens|
    ensures w.result == Ok(None) <==> !IsElementNamed(tokens, SkipIgnorable(tokens, p), "Resources")
    ensures w.result.Ok? ==> p <= w.pos <= |tokens|
    ensures w.result.Ok? && w.result.value.Some? ==> p < w.pos && tokens[w.pos - 1].node.EndElement?
  {
    var q := SkipIgnorable(tokens, p);
    if !IsElementNamed(tokens, q, "Resources") then Walk(Ok(None), q, [])
    else CloseResources(tokens, ResourceEntries(env, path, tokens, q + 1, map[], []))
  }

  /** The end of a `Resources` element whose entries loop ended with `entries`: the
      loop's failure, or its table once the end tag follows. */
  function CloseResources(tokens: seq<Token>, entries: Walk<map<string, Value>>): (w: Walk<Option<map<string, Value>>>)
    requires entries.result.Ok? ==> entries.pos <= |tokens|
    ensures w.steps == entries.steps
    ensures w.result.Ok? ==> entries.result.Ok? && w.result == Ok(Some(entries.result.value))
    ensures w.result.Ok? ==> entries.pos < w.pos <= |tokens| && tokens[w.pos - 1].node.EndElement?
  {
    if entries.result.Err? then Walk(Err(entries.result.failure), entries.pos, entries.steps)
    else
      var q2 := SkipIgnorable(tokens, entries.pos);
      if IsEndElementAt(tokens, q2) then Walk(Ok(Some(entries.result.value)), q2 + 1, entries.steps)
      else Walk(Err(XmlException), q2, entries.steps)
  }

  /** Inside a `Resources` element at `q`, the entries loop run with the trace so far,
      `before`, ends with the section's own steps after it, and decides the section's
      outcome. */
  lemma ResourcesSectionEntries(env: Env, path: string, tokens: seq<Token>, p: nat, q: nat, before: seq<Step>)
    requires p <= |tokens| && q == SkipIgnorable(tokens, p) && IsElementNamed(tokens, q, "Resources")
    ensures var w := ResourcesSection(env, path, tokens, p);
            var e := ResourceEntries(env, path, tokens, q + 1, map[], before);
            var c := CloseResources(tokens, e);
            e.steps == before + w.steps && c.result == w.result && c.pos == w.pos
  {
    var e := ResourceEntries(env, path, tokens, q + 1, map[], before);
    var inner := ResourceEntries(env, path, tokens, q + 1, map[], []);
    ResourceEntriesPrefix(env, path, tokens, q + 1, map[], before, []);
    assert before + [] == before;
    ResourcesSectionCloses(env, path, tokens, p, q);
    CloseResourcesIgnoresSteps(tokens, e, inner);
  }

  lemma ResourcesSectionCloses(env: Env, path: string, tokens: seq<Token>, p: nat, q: nat)
    requires p <= |tokens| && q == SkipIgnorable(tokens, p) && IsElementNamed(tokens, q, "Resources")
    ensures ResourcesSection(env, path, tokens, p) == CloseResources(tokens, ResourceEntries(env, path, tokens, q + 1, map[], []))
  {
  }

  lemma CloseResourcesIgnoresSteps(tokens: seq<Token>, a: Walk<map<string, Value>>, b: Walk<map<string, Value>>)
    requires a.result == b.result && a.pos == b.pos && (a.result.Ok? ==> a.pos <= |tokens|)
    ensures CloseResources(tokens, a).result == CloseResources(tokens, b).result
    ensures CloseResources(tokens, a).pos == CloseResources(tokens, b).pos
  {
  }

  /** The replaying half of ReadSharedResources: every registered id must have a
      resource; the first that has none fails, with no document position. */
  function ReplayOutcome(order: seq<string>, table: map<string, Value>): (r: Outcome)
    ensures r.Pass? <==> forall k :: k in order ==> k in table
  {
    match FirstMissing(order, table)
    case None => Pass
    case Some(i) => Fail(InvalidContent(MissingSharedResource(order[i]), None))
  }

  /** The id ReadSharedResource reads: the content at the cursor (flatten) or the text of
      the element named by the format. */
  function SharedResourceId(path: string, tokens: seq<Token>, p: nat, attribute: Option<string>,
                            format: Format): (w: Walk<string>)
    requires PositionOk(tokens, p, attribute)
    ensures w.result.Ok? ==> p <= w.pos <= |tokens|
    ensures w.steps == []
    ensures format.flattenContent ==>
              match ContentAsString(tokens, p, attribute)
              case Err(e) => w.result == Err(e)
              case Ok((s, q)) => w.result == Ok(s) && w.pos == q
    ensures var q := SkipIgnorable(tokens, p);
            !format.flattenContent && !IsElementNamed(tokens, q, format.elementName) ==>
              w.result == Err(Tagged(ElementNotFound(format.elementName), path, tokens, q))
    ensures var q := SkipIgnorable(tokens, p);
            !format.flattenContent && IsElementNamed(tokens, q, format.elementName) ==>
              match ElementContent(tokens, q, true)
              case None => w.result == Err(XmlException)
              case Some((s, q2)) => w.result == Ok(s) && w.pos == q2
  {
    if format.flattenContent then
      match ContentAsString(tokens, p, attribute)
      case Err(e) => Walk(Err(e), p, [])
      case Ok((s, q)) => Walk(Ok(s), q, [])
    else
      var q := SkipIgnorable(tokens, p);
      if !IsElementNamed(tokens, q, format.elementName) then
        Walk(Err(Tagged(ElementNotFound(format.elementName), path, tokens, q)), q, [])
      else match ElementContent(tokens, q, true)
        case None => Walk(Err(XmlException), q, [])
        case Some((s, q2)) => Walk(Ok(s), q2, [])
  }

  /** The id ReadExternalReference reads: None when there is no `Reference` element. */
  function ExternalReferenceId(tokens: seq<Token>, p: nat): (w: Walk<Option<string>>)
    requires p <= |tokens|
    ensures w.result.Ok? ==> p <= w.pos <= |tokens|
    ensures w.steps == []
    ensures w.result == Ok(None) <==> !IsElementNamed(tokens, SkipIgnorable(tokens, p), "Reference")
    ensures w.result.Ok? && w.result.value.Some? ==>
              ElementContent(tokens, SkipIgnorable(tokens, p), true) == Some((w.result.value.value, w.pos))
    ensures w.result.Err? <==> IsElementNamed(tokens, SkipIgnorable(tokens, p), "Reference") &&
                               ElementContent(tokens, SkipIgnorable(tokens, p), true).None?
    ensures w.result.Err? ==> w.result.failure == XmlException
  {
    var q := SkipIgnorable(tokens, p);
    if !IsElementNamed(tokens, q, "Reference") then Walk(Ok(None), q, [])
    else match ElementContent(tokens, q, true)
      case None => Walk(Err(XmlException), q, [])
      case Some((s, q2)) => Walk(Ok(Some(s)), q2, [])
  }

  /** What a read that invokes callbacks does: its outcome, where the cursor stands after
      a successful read, and the writes the callbacks made, including those made before a
      failure. */
  datatype Effect = Effect(outcome: Outcome, pos: nat, writes: seq<Write>)

  /** One `ExternalReference` element at `q`: its `ID` must have registered callbacks and
      its `TargetType` must resolve; every callback for the id is then invoked with that
      type and the filename, read with ReadElementString and joined to the document's
      directory. */
  function ExternalEntry(env: Env, path: string, tokens: seq<Token>, q: nat,
                         refs: map<string, seq<ExternalFixup>>): (w: Effect)
    requires IsElementNamed(tokens, q, "ExternalReference")
    ensures w.outcome.Pass? ==> q < w.pos <= |tokens|
    ensures w.writes != [] ==> AttributeAt(tokens, q, "ID").Some? && AttributeAt(tokens, q, "ID").value in refs
  {
    match AttributeAt(tokens, q, "ID")
    case None => Effect(Fail(ArgumentNullException), q, [])
    case Some(id) =>
      if id !in refs then Effect(Fail(Tagged(UnknownReferenceId(id), path, tokens, q)), q, [])
      else match AttributeAt(tokens, q, "TargetType")
        case None => Effect(Fail(InvalidOperationException), q, [])
        case Some(name) =>
          match env.findType(name)
          case None => Effect(Fail(Tagged(UnresolvedType, path, tokens, q)), q, [])
          case Some(t) =>
            match ElementContent(tokens, q, false)
            case None => Effect(Fail(XmlException), q, [])
            case Some((raw, q2)) =>
              var filename := env.combine(env.directoryName(path), raw);
              var run := RunExternal(refs[id], t, filename);
              if run.completed then Effect(Pass, q2, run.writes)
              else Effect(Fail(Tagged(InvalidReferenceType, path, tokens, q2)), q2, run.writes)
  }

  /** The loop of ReadExternalReferences over the `ExternalReference` elements, from `p`,
      after the earlier entries have written `written`. */
  function ExternalEntries(env: Env, path: string, tokens: seq<Token>, p: nat,
                           refs: map<string, seq<ExternalFixup>>, written: seq<Write>): (w: Effect)
    requires p <= |tokens|
    ensures w.outcome.Pass? ==> p <= w.pos <= |tokens|
    ensures |written| <= |w.writes| && w.writes[..|written|] == written
    decreases |tokens| - p
  {
    var q := SkipIgnorable(tokens, p);
    if !IsElementNamed(tokens, q, "ExternalReference") then Effect(Pass, q, written)
    else
      var entry := ExternalEntry(env, path, tokens, q, refs);
      if entry.outcome.Fail? then Effect(entry.outcome, entry.pos, written + entry.writes)
      else ExternalEntries(env, path, tokens, entry.pos, refs, written + entry.writes)
  }

  /** The entries loop begins by skipping ignorable nodes. */
  lemma ExternalEntriesSkip(env: Env, path: string, tokens: seq<Token>, p: nat,
                            refs: map<string, seq<ExternalFixup>>, written: seq<Write>)
    requires p <= |tokens|
    ensures SkipIgnorable(tokens, SkipIgnorable(tokens, p)) == SkipIgnorable(tokens, p)
    ensures ExternalEntries(env, path, tokens, p, refs, written) ==
            ExternalEntries(env, path, tokens, SkipIgnorable(tokens, p), refs, written)
  {
  }

  /** What the entries loop writes is appended to what was written before it, and its
      outcome does not depend on that. */
  lemma {:induction false} ExternalEntriesPrefix(env: Env, path: string, tokens: seq<Token>, p: nat,
                                                 refs: map<string, seq<ExternalFixup>>, before: seq<Write>,
                                                 written: seq<Write>)
    requires p <= |tokens|
    ensures var a := ExternalEntries(env, path, tokens, p, refs, before + written);
            var b := ExternalEntries(env, path, tokens, p, refs, written);
            a.outcome == b.outcome && a.pos == b.pos && a.writes == before + b.writes
    decreases |tokens| - p
  {
    var q := SkipIgnorable(tokens, p);
    if IsElementNamed(tokens, q, "ExternalReference") {
      var entry := ExternalEntry(env, path, tokens, q, refs);
      if entry.outcome.Pass? {
        ExternalEntriesPrefix(env, path, tokens, entry.pos, refs, before, written + entry.writes);
        assert before + (written + entry.writes) == before + written + entry.writes;
        ExternalEntriesPrefixPass(env, path, tokens, p, q, refs, before, written, entry);
      } else {
        ExternalEntriesPrefixFail(env, path, tokens, p, q, refs, before, written);
      }
    } else {
      ExternalEntriesAbsent(env, path, tokens, p, refs, before + written);
      ExternalEntriesAbsent(env, path, tokens, p, refs, written);
    }
  }

  /** ExternalEntriesPrefix when the entry at `q` fails. */
  lemma ExternalEntriesPrefixFail(env: Env, path: string, tokens: seq<Token>, p: nat, q: nat,
                                  refs: map<string, seq<ExternalFixup>>, before: seq<Write>, written: seq<Write>)
    requires p <= |tokens| && q == SkipIgnorable(tokens, p) && IsElementNamed(tokens, q, "ExternalReference")
    requires ExternalEntry(env, path, tokens, q, refs).outcome.Fail?
    ensures var a := ExternalEntries(env, path, tokens, p, refs, before + written);
            var b := ExternalEntries(env, path, tokens, p, refs, written);
            a.outcome == b.outcome && a.pos == b.pos && a.writes == before + b.writes
  {
    var entry := ExternalEntry(env, path, tokens, q, refs);
    ExternalEntriesStep(env, path, tokens, p, q, refs, before + written, entry);
    ExternalEntriesStep(env, path, tokens, p, q, refs, written, entry);
    assert before + written + entry.writes == before + (written + entry.writes);
  }

  /** ExternalEntriesPrefix when the entry at `q` passes, given the fact after it. */
  lemma ExternalEntriesPrefixPass(env: Env, path: string, tokens: seq<Token>, p: nat, q: nat,
                                  refs: map<string, seq<ExternalFixup>>, before: seq<Write>, written: seq<Write>,
                                  entry: Effect)
    requires p <= |tokens| && q == SkipIgnorable(tokens, p) && IsElementNamed(tokens, q, "ExternalReference")
    requires entry == ExternalEntry(env, path, tokens, q, refs) && entry.outcome.Pass?
    requires var a := ExternalEntries(env, path, tokens, entry.pos, refs, before + written + entry.writes);
             var b := ExternalEntries(env, path, tokens, entry.pos, refs, written + entry.writes);
             a.outcome == b.outcome && a.pos == b.pos && a.writes == before + b.writes
    ensures var a := ExternalEntries(env, path, tokens, p, refs, before + written);
            var b := ExternalEntries(env, path, tokens, p, refs, written);
            a.outcome == b.outcome && a.pos == b.pos && a.writes == before + b.writes
  {
    ExternalEntriesStep(env, path, tokens, p, q, refs, before + written, entry);
    ExternalEntriesStep(env, path, tokens, p, q, refs, written, entry);
  }

  /** With no `ExternalReference` element ahead the entries loop writes nothing more. */
  lemma ExternalEntriesAbsent(env: Env, path: string, tokens: seq<Token>, p: nat,
                              refs: map<string, seq<ExternalFixup>>, written: seq<Write>)
    requires p <= |tokens| && !IsElementNamed(tokens, SkipIgnorable(tokens, p), "ExternalReference")
    ensures ExternalEntries(env, path, tokens, p, refs, written) == Effect(Pass, SkipIgnorable(tokens, p), written)
  {
  }

  /** One turn of the entries loop, with the entry's effect as a plain value. */
  lemma ExternalEntriesStep(env: Env, path: string, tokens: seq<Token>, p: nat, q: nat,
                            refs: map<string, seq<ExternalFixup>>, written: seq<Write>, entry: Effect)
    requires p <= |tokens| && q == SkipIgnorable(tokens, p) && IsElementNamed(tokens, q, "ExternalReference")
    requires entry == ExternalEntry(env, path, tokens, q, refs)
    ensures entry.outcome.Fail? ==>
              ExternalEntries(env, path, tokens, p, refs, written) == Effect(entry.outcome, entry.pos, written + entry.writes)
    ensures entry.outcome.Pass? ==>
              ExternalEntries(env, path, tokens, p, refs, written) ==
              ExternalEntries(env, path, tokens, entry.pos, refs, written + entry.writes)
  {
  }

  /** ReadExternalReferences: nothing when there is no `ExternalReferences` element,
      otherwise the writes of every entry's callbacks, in document order, up to the first
      failure. */
  function ExternalReferencesSection(env: Env, path: string, tokens: seq<Token>, p: nat,
                                     refs: map<string, seq<ExternalFixup>>): (w: Effect)
    requires p <= |tokens|
    ensures w.outcome.Pass? ==> p <= w.pos <= |tokens|
    ensures !IsElementNamed(tokens, SkipIgnorable(tokens, p), "ExternalReferences") ==> w.outcome.Pass? && w.writes == []
  {
    var q := SkipIgnorable(tokens, p);
    if !IsElementNamed(tokens, q, "ExternalReferences") then Effect(Pass, q, [])
    else CloseExternalReferences(tokens, ExternalEntries(env, path, tokens, q + 1, refs, []))
  }

  /** The end of an `ExternalReferences` element whose entries loop ended with `entries`:
      the loop's failure, or a pass once the end tag follows; the writes are kept. */
  function CloseExternalReferences(tokens: seq<Token>, entries: Effect): (w: Effect)
    requires entries.outcome.Pass? ==> entries.pos <= |tokens|
    ensures w.writes == entries.writes
    ensures entries.outcome.Fail? ==> w == entries
    ensures w.outcome.Pass? ==> entries.outcome.Pass? && entries.pos < w.pos <= |tokens| && tokens[w.pos - 1].node.EndElement?
    ensures entries.outcome.Pass? ==>
              (w.outcome.Pass? <==> IsEndElementAt(tokens, SkipIgnorable(tokens, entries.pos))) &&
              (w.outcome.Fail? ==> w.outcome == Fail(XmlException))
  {
    if entries.outcome.Fail? then entries
    else
      var q2 := SkipIgnorable(tokens, entries.pos);
      if IsEndElementAt(tokens, q2) then Effect(Pass, q2 + 1, entries.writes)
      else Effect(Fail(XmlException), q2, entries.writes)
  }

  /** Inside an `ExternalReferences` element at `q`, the section is the entries loop over
      the element's content followed by its end tag: a failing entry is the section's
      failure, and otherwise the end tag must follow, with the writes kept either way. */
  lemma ExternalReferencesSectionEntries(env: Env, path: string, tokens: seq<Token>, p: nat, q: nat,
                                         refs: map<string, seq<ExternalFixup>>)
    requires p <= |tokens| && q == SkipIgnorable(tokens, p) && IsElementNamed(tokens, q, "ExternalReferences")
    ensures var w := ExternalReferencesSection(env, path, tokens, p, refs);
            var e := ExternalEntries(env, path, tokens, q + 1, refs, []);
            w == CloseExternalReferences(tokens, e) && w.writes == e.writes &&
            (e.outcome.Fail? ==> w == e) &&
            (e.outcome.Pass? ==>
               var q2 := SkipIgnorable(tokens, e.pos);
               (IsEndElementAt(tokens, q2) ==> w == Effect(Pass, q2 + 1, e.writes)) &&
               (!IsEndElementAt(tokens, q2) ==> w.outcome == Fail(XmlException)))
  {
    ExternalReferencesSectionCloses(env, path, tokens, p, q, refs);
  }

  lemma ExternalReferencesSectionCloses(env: Env, path: string, tokens: seq<Token>, p: nat, q: nat,
                                        refs: map<string, seq<ExternalFixup>>)
    requires p <= |tokens| && q == SkipIgnorable(tokens, p) && IsElementNamed(tokens, q, "ExternalReferences")
    ensures ExternalReferencesSection(env, path, tokens, p, refs) ==
            CloseExternalReferences(tokens, ExternalEntries(env, path, tokens, q + 1, refs, []))
  {
  }
}
