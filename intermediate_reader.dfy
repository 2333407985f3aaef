/** IntermediateReader: reads objects from the intermediate XML format, registering
    shared-resource and external-reference fixups during the main pass and replaying
    them when the `Resources` and `ExternalReferences` sections are read. */
module Intermediate {
  import opened Content
  import opened XmlCursor
  import opened Fixups
  import opened IntermediateSpec

  class IntermediateReader {
    const env: Env
    const xml: Cursor
    const filePath: string

    /** The composed shared-resource fixup for each id. */
    var resourceFixups: map<string, SharedFixup>
    /** The order in which the fixup dictionary enumerates its ids. */
    var fixupOrder: seq<string>
    /** The external-reference callbacks registered for each id, in registration order. */
    var externalReferences: map<string, seq<ExternalFixup>>
    /** The writes the fixup callbacks have made into the object graph. */
    var applied: seq<Write>

    /** Every shared-resource callback registered, in order. */
    ghost var registrations: seq<Registration>
    /** The moves made around each Deserialize call. */
    ghost var trace: seq<Step>

    ghost predicate Valid()
      reads this, xml
    {
      xml.Valid() && Consistent(registrations, fixupOrder, resourceFixups)
    }

    constructor (env: Env, xml: Cursor, filePath: string)
      requires xml.Valid()
      ensures Valid()
      ensures this.env == env && this.xml == xml && this.filePath == filePath
      ensures resourceFixups == map[] && fixupOrder == [] && externalReferences == map[]
      ensures applied == [] && registrations == [] && trace == []
    {
      this.env := env;
      this.xml := xml;
      this.filePath := filePath;
      resourceFixups := map[];
      fixupOrder := [];
      externalReferences := map[];
      applied := [];
      registrations := [];
      trace := [];
    }

    /** The error raised for `kind` at the cursor's current position. */
    function NewInvalidContentException(kind: ContentError): (f: Failure)
      reads this, xml
      ensures f.InvalidContent? && f.kind == kind && f.identity.Some?
      ensures f.identity.value.sourceFilename == filePath && f.identity.value.sourceTool == ""
      ensures ParseLineColumn(f.identity.value.fragmentIdentifier) == Some(xml.LineNumbers())
    {
      Tagged(kind, filePath, xml.tokens, xml.pos)
    }

    /** Moves to the next content node and says whether it is an element called `name`. */
    method MoveToElement(name: string) returns (found: bool)
      requires Valid()
      modifies xml
      ensures Valid() && xml.attribute == None
      ensures xml.pos == SkipIgnorable(xml.tokens, old(xml.pos))
      ensures found <==> IsElementNamed(xml.tokens, xml.pos, name)
    {
      xml.MoveToContent();
      found := IsElementNamed(xml.tokens, xml.pos, name);
    }

    /** Reads the content at the cursor as a type name and looks the type up. */
    method ReadTypeName() returns (r: Result<Option<TypeId>>)
      requires Valid()
      modifies xml`pos
      ensures Valid()
      ensures var c := ContentAsString(xml.tokens, old(xml.pos), xml.attribute);
              if c.Ok? then r == Ok(env.findType(c.value.0)) && xml.pos == c.value.1
              else r == Err(c.failure)
    {
      var name := xml.ReadContentAsString();
      if name.Err? {
        return Err(name.failure);
      }
      r := Ok(env.findType(name.value));
    }

    /** Reads an object without looking at its `Null` and `Type` attributes. */
    method ReadRawObject(format: Format, serializer: Serializer, existing: Value) returns (r: Result<Value>)
      requires Valid()
      modifies xml, this`trace
      ensures Valid()
      ensures var w := RawRead(env, filePath, xml.tokens, old(xml.pos), format, serializer, existing);
              r == w.result && trace == old(trace) + w.steps && (r.Ok? ==> xml.pos == w.pos)
    {
      var t := serializer.targetType;
      if format.flattenContent {
        xml.MoveToContent();
        var d := Deserialize(env, t, format, existing, xml.tokens, xml.pos);
        trace := trace + [Deserialized(t, xml.pos)];
        if d.Err? {
          return Err(d.failure);
        }
        xml.pos := d.value.1;
        return Ok(d.value.0);
      }
      var found := MoveToElement(format.elementName);
      if !found {
        return Err(NewInvalidContentException(ElementNotFound(format.elementName)));
      }
      if xml.IsEmptyElement() {
        r := ReadEmptyElement(format, serializer, existing, old(xml.pos));
      } else {
        r := ReadEnclosedElement(format, serializer, existing, old(xml.pos));
      }
    }

    /** The self-closing case of ReadRawObject: deserialize on the element, then skip it. */
    method ReadEmptyElement(format: Format, serializer: Serializer, existing: Value, ghost p: nat)
      returns (r: Result<Value>)
      requires Valid() && xml.attribute == None && !format.flattenContent && p <= |xml.tokens|
      requires xml.pos == SkipIgnorable(xml.tokens, p) && IsElementNamed(xml.tokens, xml.pos, format.elementName)
      requires xml.tokens[xml.pos].node.isEmpty
      modifies xml, this`trace
      ensures Valid()
      ensures var w := RawRead(env, filePath, xml.tokens, p, format, serializer, existing);
              r == w.result && trace == old(trace) + w.steps && (r.Ok? ==> xml.pos == w.pos)
    {
      var t := serializer.targetType;
      var d := Deserialize(env, t, format, existing, xml.tokens, xml.pos);
      trace := trace + [Deserialized(t, xml.pos)];
      if d.Err? {
        return Err(d.failure);
      }
      var v := d.value.0;
      xml.pos := d.value.1;
      var skipped := xml.Skip();
      if skipped.Fail? {
        return Err(skipped.failure);
      }
      trace := trace + [Skipped];
      r := Ok(v);
    }

    /** The start/end case of ReadRawObject: consume the start tag, deserialize the
        content, consume the end tag. */
    method ReadEnclosedElement(format: Format, serializer: Serializer, existing: Value, ghost p: nat)
      returns (r: Result<Value>)
      requires Valid() && xml.attribute == None && !format.flattenContent && p <= |xml.tokens|
      requires xml.pos == SkipIgnorable(xml.tokens, p) && IsElementNamed(xml.tokens, xml.pos, format.elementName)
      requires !xml.tokens[xml.pos].node.isEmpty
      modifies xml, this`trace
      ensures Valid()
      ensures var w := RawRead(env, filePath, xml.tokens, p, format, serializer, existing);
              r == w.result && trace == old(trace) + w.steps && (r.Ok? ==> xml.pos == w.pos)
    {
      var t := serializer.targetType;
      var started := xml.ReadStartElement();
      trace := trace + [ConsumedStart];
      var d := Deserialize(env, t, format, existing, xml.tokens, xml.pos);
      trace := trace + [Deserialized(t, xml.pos)];
      if d.Err? {
        return Err(d.failure);
      }
      var v := d.value.0;
      xml.pos := d.value.1;
      var ended := xml.ReadEndElement();
      if ended.Fail? {
        return Err(ended.failure);
      }
      trace := trace + [ConsumedEnd];
      r := Ok(v);
    }

    /** Reads an object: locates its element, handles the `Null` marker and the `Type`
        override, and reads it with the selected serializer. */
    method ReadObject(format: Format, serializer: Serializer, existing: Value) returns (r: Result<Value>)
      requires Valid()
      modifies xml, this`trace
      ensures Valid()
      ensures var w := ObjectRead(env, filePath, xml.tokens, old(xml.pos), format, serializer, existing);
              r == w.result && trace == old(trace) + w.steps && (r.Ok? ==> xml.pos == w.pos)
    {
      var typeSerializer := serializer;
      if !format.flattenContent {
        var found := MoveToElement(format.elementName);
        if !found {
          return Err(NewInvalidContentException(ElementNotFound(format.elementName)));
        }
        var isNull := xml.GetAttribute("Null");
        if isNull.Some? {
          var b := ToBoolean(isNull.value);
          if b.None? {
            return Err(FormatException);
          }
          if b.value {
            if !format.allowNull {
              return Err(NewInvalidContentException(NullNotAllowed(format.elementName)));
            }
            var skipped := xml.Skip();
            if skipped.Fail? {
              return Err(skipped.failure);
            }
            trace := trace + [Skipped];
            return Ok(DefaultValue);
          }
        }
        var hasType := xml.MoveToAttribute("Type");
        if hasType {
          var typeName := ReadTypeName();
          var ty := typeName.value;
          if ty.None? {
            return Err(NewInvalidContentException(UnresolvedType));
          }
          if !env.isAssignableFrom(typeSerializer.targetType, ty.value) {
            return Err(NewInvalidContentException(TypeMismatch(ty.value, typeSerializer.targetType)));
          }
          typeSerializer := GetTypeSerializer(ty.value);
          xml.MoveToElement();
        }
      }
      r := ReadRawObject(format, typeSerializer, existing);
    }

    /** The first half of ReadSharedResource: the id text, read from the content at the
        cursor or from the element named by the format. */
    method ReadResourceId(format: Format) returns (r: Result<string>)
      requires Valid()
      modifies xml
      ensures Valid()
      ensures var w := SharedResourceId(filePath, xml.tokens, old(xml.pos), old(xml.attribute), format);
              r == w.result && (r.Ok? ==> xml.pos == w.pos)
    {
      if format.flattenContent {
        r := xml.ReadContentAsString();
        return;
      }
      var found := MoveToElement(format.elementName);
      if !found {
        return Err(NewInvalidContentException(ElementNotFound(format.elementName)));
      }
      r := xml.ReadElementContentAsString();
    }

    /** Reads a shared-resource id and registers `action` for it, composed after any
        callback already registered for the same id; an empty id registers nothing. */
    method ReadSharedResource(format: Format, action: SharedAction) returns (r: Outcome)
      requires Valid()
      modifies xml, this`resourceFixups, this`fixupOrder, this`registrations
      ensures Valid()
      ensures var w := SharedResourceId(filePath, xml.tokens, old(xml.pos), old(xml.attribute), format);
              if w.result.Err? then
                r == Fail(w.result.failure) && registrations == old(registrations) &&
                resourceFixups == old(resourceFixups) && fixupOrder == old(fixupOrder)
              else
                r == Pass && xml.pos == w.pos &&
                var id := w.result.value;
                if id == "" then
                  registrations == old(registrations) && resourceFixups == old(resourceFixups) &&
                  fixupOrder == old(fixupOrder)
                else
                  registrations == old(registrations) + [Registration(id, action)] &&
                  resourceFixups == old(resourceFixups)[id := Compose(Lookup(old(resourceFixups), id), action)] &&
                  fixupOrder == if id in old(resourceFixups) then old(fixupOrder) else old(fixupOrder) + [id]
    {
      var id := ReadResourceId(format);
      if id.Err? {
        return Fail(id.failure);
      }
      var str := id.value;
      if str == "" {
        return Pass;
      }
      RegisterKeepsConsistent(registrations, fixupOrder, resourceFixups, str, action);
      var previous := Lookup(resourceFixups, str);
      if previous.None? {
        resourceFixups := resourceFixups[str := Single(action)];
        fixupOrder := fixupOrder + [str];
      } else {
        resourceFixups := resourceFixups[str := Then(previous.value, action)];
      }
      registrations := registrations + [Registration(str, action)];
      r := Pass;
    }

    /** The loop of ReadSharedResources over the `Resource` elements. */
    method ReadResourceEntries() returns (r: Result<map<string, Value>>)
      requires Valid()
      modifies xml, this`trace
      ensures Valid()
      ensures var w := ResourceEntries(env, filePath, xml.tokens, old(xml.pos), map[], old(trace));
              r == w.result && trace == w.steps && (r.Ok? ==> xml.pos == w.pos)
    {
      ghost var whole := ResourceEntries(env, filePath, xml.tokens, xml.pos, map[], trace);
      ResourceEntriesSkip(env, filePath, xml.tokens, xml.pos, map[], trace);
      var resources: map<string, Value> := map[];
      var found := MoveToElement("Resource");
      while found
        invariant Valid() && xml.attribute == None
        invariant xml.pos == SkipIgnorable(xml.tokens, xml.pos)
        invariant found <==> IsElementNamed(xml.tokens, xml.pos, "Resource")
        invariant whole == ResourceEntries(env, filePath, xml.tokens, xml.pos, resources, trace)
        decreases |xml.tokens| - xml.pos
      {
        var id := xml.GetAttribute("ID");
        var resource := ReadObject(ResourceFormat, GetTypeSerializer(env.objectType), DefaultValue);
        if resource.Err? {
          return Err(resource.failure);
        }
        if id.None? {
          return Err(ArgumentNullException);
        }
        if id.value in resources {
          return Err(ArgumentException(id.value));
        }
        resources := resources[id.value := resource.value];
        ResourceEntriesSkip(env, filePath, xml.tokens, xml.pos, resources, trace);
        found := MoveToElement("Resource");
      }
      r := Ok(resources);
    }

    /** The reading half of ReadSharedResources: the table of the `Resources` section,
        or None when the document has none. */
    method ReadResourcesSection() returns (r: Result<Option<map<string, Value>>>)
      requires Valid()
      modifies xml, this`trace
      ensures Valid()
      ensures var w := ResourcesSection(env, filePath, xml.tokens, old(xml.pos));
              r == w.result && trace == old(trace) + w.steps && (r.Ok? ==> xml.pos == w.pos)
    {
      var found := MoveToElement("Resources");
      if !found {
        return Ok(None);
      }
      r := ReadResourcesElement(old(xml.pos));
    }

    /** ReadResourcesSection once the cursor is on the section's element. */
    method ReadResourcesElement(ghost p: nat) returns (r: Result<Option<map<string, Value>>>)
      requires Valid() && xml.attribute == None && p <= |xml.tokens|
      requires xml.pos == SkipIgnorable(xml.tokens, p) && IsElementNamed(xml.tokens, xml.pos, "Resources")
      modifies xml, this`trace
      ensures Valid()
      ensures var w := ResourcesSection(env, filePath, xml.tokens, p);
              r == w.result && trace == old(trace) + w.steps && (r.Ok? ==> xml.pos == w.pos)
    {
      ghost var q, t0 := xml.pos, trace;
      ResourcesSectionEntries(env, filePath, xml.tokens, p, q, t0);
      var entries := ReadResourcesContent();
      ghost var e := ResourceEntries(env, filePath, xml.tokens, q + 1, map[], t0);
      assert entries == e.result && trace == e.steps;
      if entries.Err? {
        return Err(entries.failure);
      }
      var ended := xml.ReadEndElement();
      if ended.Fail? {
        return Err(ended.failure);
      }
      r := Ok(Some(entries.value));
    }

    /** Consumes the `Resources` start tag at the cursor and reads the entries after it. */
    method ReadResourcesContent() returns (r: Result<map<string, Value>>)
      requires Valid() && xml.attribute == None && IsElementAt(xml.tokens, xml.pos)
      modifies xml, this`trace
      ensures Valid()
      ensures var e := ResourceEntries(env, filePath, xml.tokens, old(xml.pos) + 1, map[], old(trace));
              r == e.result && trace == e.steps && (r.Ok? ==> xml.pos == e.pos)
    {
      assert SkipIgnorable(xml.tokens, xml.pos) == xml.pos;
      var started := xml.ReadStartElement();
      r := ReadResourceEntries();
    }

    /** The replaying half of ReadSharedResources: runs the composed fixup of every
        registered id, in registration order, with that id's resource. */
    method ReplayFixups(resources: map<string, Value>) returns (r: Outcome)
      requires Valid()
      modifies this`applied
      ensures Valid()
      ensures r == ReplayOutcome(fixupOrder, resources)
      ensures applied == old(applied) + ReplayWrites(fixupOrder, resourceFixups, resources)
    {
      var order, fixups := fixupOrder, resourceFixups;
      var i := 0;
      while i < |order|
        invariant 0 <= i <= |order|
        invariant forall k :: k in order[..i] ==> k in resources
        invariant applied == old(applied) + ReplayShared(order[..i], fixups, resources)
      {
        var key := order[i];
        if key !in resources {
          FirstMissingAt(order, resources, i);
          ReplayWritesUpTo(order, fixups, resources, i);
          return Fail(InvalidContent(MissingSharedResource(key), None));
        }
        ReplayOneMore(old(applied), order, fixups, resources, i);
        applied := applied + RunComposed(fixups[key], resources[key]);
        i := i + 1;
      }
      assert order[..i] == order;
      ReplayWritesUpTo(order, fixups, resources, i);
      r := Pass;
    }

    /** Reads the `Resources` section into a table, then runs every registered fixup
        with its resource. */
    method ReadSharedResources() returns (r: Outcome)
      requires Valid()
      modifies xml, this`trace, this`applied
      ensures Valid()
      ensures var w := ResourcesSection(env, filePath, xml.tokens, old(xml.pos));
              trace == old(trace) + w.steps &&
              (w.result.Err? ==> r == Fail(w.result.failure) && applied == old(applied)) &&
              (w.result == Ok(None) ==> r == Pass && applied == old(applied) && xml.pos == w.pos) &&
              (w.result.Ok? && w.result.value.Some? ==>
                 var table := w.result.value.value;
                 r == ReplayOutcome(fixupOrder, table) &&
                 applied == old(applied) + ReplayWrites(fixupOrder, resourceFixups, table) &&
                 (r.Pass? ==> xml.pos == w.pos))
    {
      var section := ReadResourcesSection();
      if section.Err? {
        return Fail(section.failure);
      }
      if section.value.None? {
        return Pass;
      }
      r := ReplayFixups(section.value.value);
    }

    /** Reads the id of an external reference and registers a callback that will check
        the referenced type and set `Filename` on the reference in `slot`. */
    method ReadExternalReference(slot: SlotId, expected: TypeId) returns (r: Outcome)
      requires Valid()
      modifies xml, this`externalReferences
      ensures Valid()
      ensures var w := ExternalReferenceId(xml.tokens, old(xml.pos));
              if w.result.Err? then
                r == Fail(w.result.failure) && externalReferences == old(externalReferences)
              else
                r == Pass && xml.pos == w.pos &&
                externalReferences == match w.result.value
                  case None => old(externalReferences)
                  case Some(id) => AddExternal(old(externalReferences), id, ExternalFixup(slot, expected))
    {
      var found := MoveToElement("Reference");
      if !found {
        return Pass;
      }
      var str := xml.ReadElementContentAsString();
      if str.Err? {
        return Fail(str.failure);
      }
      var fixup := ExternalFixup(slot, expected);
      var fixups := if str.value in externalReferences then externalReferences[str.value] else [];
      externalReferences := externalReferences[str.value := fixups + [fixup]];
      r := Pass;
    }

    /** One `ExternalReference` element: checks its id and target type, then invokes the
        callbacks registered for the id with the resolved filename, stopping at the first
        one that expects another type. */
    method ReadExternalEntry(currentDir: string) returns (r: Outcome)
      requires Valid() && xml.attribute == None && IsElementNamed(xml.tokens, xml.pos, "ExternalReference")
      requires currentDir == env.directoryName(filePath)
      modifies xml, this`applied
      ensures Valid()
      ensures var w := ExternalEntry(env, filePath, xml.tokens, old(xml.pos), externalReferences);
              r == w.outcome && applied == old(applied) + w.writes &&
              (r.Pass? ==> xml.pos == w.pos && xml.attribute == None)
    {
      var id := xml.GetAttribute("ID");
      if id.None? {
        return Fail(ArgumentNullException);
      }
      if id.value !in externalReferences {
        return Fail(NewInvalidContentException(UnknownReferenceId(id.value)));
      }
      var fixups := externalReferences[id.value];
      var hasTargetType := xml.MoveToAttribute("TargetType");
      var targetType := ReadTypeName();
      if targetType.Err? {
        return Fail(targetType.failure);
      }
      if targetType.value.None? {
        return Fail(NewInvalidContentException(UnresolvedType));
      }
      r := ReadExternalFilename(fixups, targetType.value.value, currentDir, old(xml.pos));
    }

    /** The rest of ReadExternalEntry once the target type `t` is resolved: reads the
        filename from the entry's element at `q` and invokes the callbacks with it joined
        to `currentDir`. */
    method ReadExternalFilename(fixups: seq<ExternalFixup>, t: TypeId, currentDir: string, ghost q: nat)
      returns (r: Outcome)
      requires Valid() && xml.pos == q && IsElementAt(xml.tokens, q)
      modifies xml, this`applied
      ensures Valid()
      ensures var c := ElementContent(xml.tokens, q, false);
              if c.None? then r == Fail(XmlException) && applied == old(applied)
              else
                var run := RunExternal(fixups, t, env.combine(currentDir, c.value.0));
                applied == old(applied) + run.writes && xml.pos == c.value.1 && xml.attribute == None &&
                r == if run.completed then Pass else Fail(Tagged(InvalidReferenceType, filePath, xml.tokens, c.value.1))
    {
      xml.MoveToElement();
      assert SkipIgnorable(xml.tokens, xml.pos) == q;
      var name := xml.ReadElementString();
      if name.Err? {
        return Fail(name.failure);
      }
      var filename := env.combine(currentDir, name.value);
      var completed := InvokeExternal(fixups, t, filename);
      if !completed {
        return Fail(NewInvalidContentException(InvalidReferenceType));
      }
      r := Pass;
    }

    /** Invokes the callbacks registered for one id, in registration order, stopping at the
        first one that expects a type other than `t`; says whether all of them ran. */
    method InvokeExternal(fixups: seq<ExternalFixup>, t: TypeId, filename: string) returns (completed: bool)
      modifies this`applied
      ensures var run := RunExternal(fixups, t, filename);
              completed == run.completed && applied == old(applied) + run.writes
    {
      var ws: seq<Write> := [];
      var j := 0;
      while j < |fixups|
        invariant 0 <= j <= |fixups| && |ws| == j
        invariant forall i :: 0 <= i < j ==> fixups[i].expected == t && ws[i] == SetFilename(fixups[i].slot, filename)
        invariant applied == old(applied) + ws
      {
        if fixups[j].expected != t {
          RunExternalUpTo(fixups, t, filename, ws);
          return false;
        }
        applied := applied + [SetFilename(fixups[j].slot, filename)];
        ws := ws + [SetFilename(fixups[j].slot, filename)];
        j := j + 1;
      }
      RunExternalUpTo(fixups, t, filename, ws);
      completed := true;
    }

    /** The loop of ReadExternalReferences over the `ExternalReference` elements. */
    method ReadExternalEntries(currentDir: string) returns (r: Outcome)
      requires Valid() && currentDir == env.directoryName(filePath)
      modifies xml, this`applied
      ensures Valid()
      ensures var w := ExternalEntries(env, filePath, xml.tokens, old(xml.pos), externalReferences, old(applied));
              r == w.outcome && applied == w.writes && (r.Pass? ==> xml.pos == w.pos)
    {
      ghost var whole := ExternalEntries(env, filePath, xml.tokens, xml.pos, externalReferences, applied);
      ExternalEntriesSkip(env, filePath, xml.tokens, xml.pos, externalReferences, applied);
      var found := MoveToElement("ExternalReference");
      while found
        invariant Valid() && xml.attribute == None
        invariant xml.pos == SkipIgnorable(xml.tokens, xml.pos)
        invariant found <==> IsElementNamed(xml.tokens, xml.pos, "ExternalReference")
        invariant whole == ExternalEntries(env, filePath, xml.tokens, xml.pos, externalReferences, applied)
        decreases |xml.tokens| - xml.pos
      {
        var entry := ReadExternalEntry(currentDir);
        if entry.Fail? {
          return entry;
        }
        ExternalEntriesSkip(env, filePath, xml.tokens, xml.pos, externalReferences, applied);
        found := MoveToElement("ExternalReference");
      }
      r := Pass;
    }

    /** Reads the `ExternalReferences` section and invokes, for each entry, every
        callback registered for its id. */
    method ReadExternalReferences() returns (r: Outcome)
      requires Valid()
      modifies xml, this`applied
      ensures Valid()
      ensures var w := ExternalReferencesSection(env, filePath, xml.tokens, old(xml.pos), externalReferences);
              r == w.outcome && applied == old(applied) + w.writes && (r.Pass? ==> xml.pos == w.pos)
    {
      var found := MoveToElement("ExternalReferences");
      if !found {
        assert applied + [] == applied;
        return Pass;
      }
      r := ReadExternalSection(old(xml.pos));
    }

    /** ReadExternalReferences once the cursor is on the section's element. */
    method ReadExternalSection(ghost p: nat) returns (r: Outcome)
      requires Valid() && xml.attribute == None && p <= |xml.tokens|
      requires xml.pos == SkipIgnorable(xml.tokens, p) && IsElementNamed(xml.tokens, xml.pos, "ExternalReferences")
      modifies xml, this`applied
      ensures Valid()
      ensures var w := ExternalReferencesSection(env, filePath, xml.tokens, p, externalReferences);
              r == w.outcome && applied == old(applied) + w.writes && (r.Pass? ==> xml.pos == w.pos)
    {
      var currentDir := env.directoryName(filePath);
      var started := xml.ReadStartElement();
      ExternalEntriesPrefix(env, filePath, xml.tokens, xml.pos, externalReferences, applied, []);
      assert applied + [] == applied;
      var entries := ReadExternalEntries(currentDir);
      if entries.Fail? {
        return entries;
      }
      var ended := xml.ReadEndElement();
      if ended.Fail? {
        return Fail(ended.failure);
      }
      r := Pass;
    }
  }
}
