/** What the reads of the intermediate reader promise, stated over the functions that
    specify them: the element-level read protocol, the bracket cases around Deserialize,
    the shared-resource replay and the external-reference callbacks. */
module IntermediateProperties {
  import opened Content
  import opened XmlCursor
  import opened Fixups
  import opened IntermediateSpec

  /** How many times a read called Deserialize. */
  function DeserializeCount(steps: seq<Step>): (n: nat)
    ensures n <= |steps|
    ensures n == 0 <==> forall i :: 0 <= i < |steps| ==> !steps[i].Deserialized?
  {
    if steps == [] then 0
    else (if steps[0].Deserialized? then 1 else 0) + DeserializeCount(steps[1..])
  }

  // ----- element lookup -----

  /** Off the flatten path, a read that does not find its element fails with
      ElementNotFound at the content node it stopped on, having deserialized nothing. */
  lemma ElementNotFoundDeserializesNothing(env: Env, path: string, tokens: seq<Token>, p: nat,
                                           format: Format, serializer: Serializer, existing: Value)
    requires p <= |tokens| && !format.flattenContent
    requires !IsElementNamed(tokens, SkipIgnorable(tokens, p), format.elementName)
    ensures var q := SkipIgnorable(tokens, p);
            var failed := Walk(Err(Tagged(ElementNotFound(format.elementName), path, tokens, q)), q, []);
            ObjectRead(env, path, tokens, p, format, serializer, existing) == failed &&
            RawRead(env, path, tokens, p, format, serializer, existing) == failed
  {
  }

  // ----- the Null marker -----

  /** An element marked `Null="true"` fails when the format forbids null; otherwise its
      subtree is skipped and the default value returned, and the type serializer is never
      called. */
  lemma NullMarker(env: Env, path: string, tokens: seq<Token>, p: nat,
                   format: Format, serializer: Serializer, existing: Value, marker: string)
    requires p <= |tokens| && !format.flattenContent
    requires IsElementNamed(tokens, SkipIgnorable(tokens, p), format.elementName)
    requires AttributeAt(tokens, SkipIgnorable(tokens, p), "Null") == Some(marker)
    requires ToBoolean(marker) == Some(true)
    ensures var q := SkipIgnorable(tokens, p);
            var w := ObjectRead(env, path, tokens, p, format, serializer, existing);
            DeserializeCount(w.steps) == 0 &&
            (!format.allowNull ==> w.result == Err(Tagged(NullNotAllowed(format.elementName), path, tokens, q))) &&
            (format.allowNull && SkipEnd(tokens, q).Some? ==>
               w.result == Ok(DefaultValue) && w.pos == SkipEnd(tokens, q).value && w.steps == [Skipped]) &&
            (format.allowNull && SkipEnd(tokens, q).None? ==> w.result == Err(XmlException))
  {
    assert DeserializeCount([Skipped]) == 0;
  }

  /** A `Null` attribute that is not a boolean is a FormatException. */
  lemma NullMarkerMalformed(env: Env, path: string, tokens: seq<Token>, p: nat,
                            format: Format, serializer: Serializer, existing: Value, marker: string)
    requires p <= |tokens| && !format.flattenContent
    requires IsElementNamed(tokens, SkipIgnorable(tokens, p), format.elementName)
    requires AttributeAt(tokens, SkipIgnorable(tokens, p), "Null") == Some(marker)
    requires TrimEnd(TrimStart(marker)) !in {"true", "1", "false", "0"}
    ensures ObjectRead(env, path, tokens, p, format, serializer, existing).result == Err(FormatException)
  {
  }

  // ----- the Type override -----

  /** A `Type` attribute that does not resolve, or resolves to a type the serializer's
      target type is not assignable from, fails at the element; only an assignable type
      replaces the serializer, and then every Deserialize call is made for that type. */
  lemma TypeOverride(env: Env, path: string, tokens: seq<Token>, p: nat,
                     format: Format, serializer: Serializer, existing: Value, name: string)
    requires p <= |tokens| && !format.flattenContent
    requires IsElementNamed(tokens, SkipIgnorable(tokens, p), format.elementName)
    requires var isNull := AttributeAt(tokens, SkipIgnorable(tokens, p), "Null");
             isNull.None? || ToBoolean(isNull.value) == Some(false)
    requires AttributeAt(tokens, SkipIgnorable(tokens, p), "Type") == Some(name)
    ensures var q := SkipIgnorable(tokens, p);
            var w := ObjectRead(env, path, tokens, p, format, serializer, existing);
            match env.findType(name)
            case None =>
              w.result == Err(Tagged(UnresolvedType, path, tokens, q)) && w.steps == []
            case Some(t) =>
              if !env.isAssignableFrom(serializer.targetType, t) then
                w.result == Err(Tagged(TypeMismatch(t, serializer.targetType), path, tokens, q)) && w.steps == []
              else
                w == RawRead(env, path, tokens, q, format, GetTypeSerializer(t), existing) &&
                forall i :: 0 <= i < |w.steps| && w.steps[i].Deserialized? ==> w.steps[i].targetType == t
  {
  }

  /** A flattened read has no element of its own: no `Null` or `Type` attribute is
      looked at, and the content is deserialized in place with the given serializer and
      existing instance. */
  lemma ObjectReadFlatten(env: Env, path: string, tokens: seq<Token>, p: nat,
                          format: Format, serializer: Serializer, existing: Value)
    requires p <= |tokens| && format.flattenContent
    ensures var q := SkipIgnorable(tokens, p);
            var d := env.deserialize(serializer.targetType, format, existing, tokens, q);
            var w := ObjectRead(env, path, tokens, p, format, serializer, existing);
            w == RawRead(env, path, tokens, p, format, serializer, existing) &&
            w.steps == [Deserialized(serializer.targetType, q)] &&
            (d.Ok? ==> w.result == Ok(d.value.0)) &&
            (d.Err? ==> w.result == Err(d.failure))
  {
  }

  /** Without a `Type` attribute the given serializer is used unchanged. */
  lemma NoTypeOverride(env: Env, path: string, tokens: seq<Token>, p: nat,
                       format: Format, serializer: Serializer, existing: Value)
    requires p <= |tokens| && !format.flattenContent
    requires IsElementNamed(tokens, SkipIgnorable(tokens, p), format.elementName)
    requires var isNull := AttributeAt(tokens, SkipIgnorable(tokens, p), "Null");
             isNull.None? || ToBoolean(isNull.value) == Some(false)
    requires AttributeAt(tokens, SkipIgnorable(tokens, p), "Type").None?
    ensures ObjectRead(env, path, tokens, p, format, serializer, existing) ==
            RawRead(env, path, tokens, SkipIgnorable(tokens, p), format, serializer, existing)
  {
    var q := SkipIgnorable(tokens, p);
    assert SkipIgnorable(tokens, q) == q;
  }

  // ----- element text -----

  /** White space between an element's tags is its text: both ReadElementContentAsString
      and ReadElementString return it, so `<Item>  </Item>` reads as two spaces. */
  lemma ElementTextKeepsWhitespace(tokens: seq<Token>, q: nat, passIgnorable: bool, v: string)
    requires q + 2 < |tokens| && IsElementAt(tokens, q) && !tokens[q].node.isEmpty
    requires tokens[q + 1].node == Whitespace(v) && tokens[q + 2].node.EndElement?
    ensures ElementContent(tokens, q, passIgnorable) == Some((v, q + 3))
  {
    assert TextRun(tokens, q + 2, passIgnorable) == ("", q + 2);
    assert v + "" == v;
  }

  /** A comment inside an element is passed over by ReadElementContentAsString but ends
      the text for ReadElementString, which then fails. */
  lemma CommentInElementText(tokens: seq<Token>, q: nat)
    requires q + 2 < |tokens| && IsElementAt(tokens, q) && !tokens[q].node.isEmpty
    requires tokens[q + 1].node.Ignorable? && tokens[q + 2].node.EndElement?
    ensures ElementContent(tokens, q, true) == Some(("", q + 3))
    ensures ElementContent(tokens, q, false) == None
  {
    assert TextRun(tokens, q + 2, true) == ("", q + 2);
  }

  // ----- bracket consumption in ReadRawObject -----

  /** Flatten: Deserialize runs at the content node and no element boundary is consumed;
      the read fails exactly when Deserialize does, with its failure. */
  lemma RawReadFlatten(env: Env, path: string, tokens: seq<Token>, p: nat,
                       format: Format, serializer: Serializer, existing: Value)
    requires p <= |tokens| && format.flattenContent
    ensures var q := SkipIgnorable(tokens, p);
            var d := env.deserialize(serializer.targetType, format, existing, tokens, q);
            var w := RawRead(env, path, tokens, p, format, serializer, existing);
            w.steps == [Deserialized(serializer.targetType, q)] &&
            (d.Ok? ==> w.result == Ok(d.value.0)) &&
            (d.Err? ==> w.result == Err(d.failure))
  {
  }

  /** A self-closing element: Deserialize runs on the element and the element is then
      skipped; no start or end tag is consumed. A Deserialize failure is the read's. */
  lemma RawReadEmptyElement(env: Env, path: string, tokens: seq<Token>, p: nat,
                            format: Format, serializer: Serializer, existing: Value)
    requires p <= |tokens| && !format.flattenContent
    requires IsElementNamed(tokens, SkipIgnorable(tokens, p), format.elementName)
    requires tokens[SkipIgnorable(tokens, p)].node.isEmpty
    ensures var q := SkipIgnorable(tokens, p);
            var d := env.deserialize(serializer.targetType, format, existing, tokens, q);
            var w := RawRead(env, path, tokens, p, format, serializer, existing);
            ConsumedStart !in w.steps && ConsumedEnd !in w.steps &&
            w.steps[0] == Deserialized(serializer.targetType, q) &&
            (d.Err? ==> w.result == Err(d.failure) && w.steps == [Deserialized(serializer.targetType, q)]) &&
            (w.result.Ok? ==> d.Ok? && w.result.value == d.value.0) &&
            (w.result.Ok? ==> w.steps == [Deserialized(serializer.targetType, q), Skipped])
  {
  }

  /** Any other element: its start tag is consumed, Deserialize runs on its content, and
      its end tag is consumed. A Deserialize failure is the read's. */
  lemma RawReadElement(env: Env, path: string, tokens: seq<Token>, p: nat,
                       format: Format, serializer: Serializer, existing: Value)
    requires p <= |tokens| && !format.flattenContent
    requires IsElementNamed(tokens, SkipIgnorable(tokens, p), format.elementName)
    requires !tokens[SkipIgnorable(tokens, p)].node.isEmpty
    ensures var q := SkipIgnorable(tokens, p);
            var d := env.deserialize(serializer.targetType, format, existing, tokens, q + 1);
            var w := RawRead(env, path, tokens, p, format, serializer, existing);
            w.steps[..2] == [ConsumedStart, Deserialized(serializer.targetType, q + 1)] &&
            (d.Err? ==> w.result == Err(d.failure) && w.steps == [ConsumedStart, Deserialized(serializer.targetType, q + 1)]) &&
            (w.result.Ok? ==> d.Ok? && w.result.value == d.value.0) &&
            (w.result.Ok? ==> w.steps == [ConsumedStart, Deserialized(serializer.targetType, q + 1), ConsumedEnd])
  {
  }

  /** Whenever ReadRawObject finds what it reads, it calls Deserialize exactly once. */
  lemma RawReadDeserializesOnce(env: Env, path: string, tokens: seq<Token>, p: nat,
                                format: Format, serializer: Serializer, existing: Value)
    requires p <= |tokens|
    requires format.flattenContent || IsElementNamed(tokens, SkipIgnorable(tokens, p), format.elementName)
    ensures DeserializeCount(RawRead(env, path, tokens, p, format, serializer, existing).steps) == 1
  {
    var w := RawRead(env, path, tokens, p, format, serializer, existing);
    var q := SkipIgnorable(tokens, p);
    var t := serializer.targetType;
    if format.flattenContent {
      assert w.steps == [Deserialized(t, q)];
    } else if tokens[q].node.isEmpty {
      assert w.steps == [Deserialized(t, q)] || w.steps == [Deserialized(t, q), Skipped];
      assert DeserializeCount([Skipped]) == 0;
    } else {
      assert w.steps == [ConsumedStart, Deserialized(t, q + 1)] ||
             w.steps == [ConsumedStart, Deserialized(t, q + 1), ConsumedEnd];
      assert [ConsumedStart, Deserialized(t, q + 1), ConsumedEnd][1..] == [Deserialized(t, q + 1), ConsumedEnd];
      assert DeserializeCount([ConsumedEnd]) == 0;
    }
  }

  /** ReadObject calls Deserialize at most once, and exactly once when it succeeds with
      anything but a null marker. */
  lemma ObjectReadDeserializesAtMostOnce(env: Env, path: string, tokens: seq<Token>, p: nat,
                                         format: Format, serializer: Serializer, existing: Value)
    requires p <= |tokens|
    ensures var w := ObjectRead(env, path, tokens, p, format, serializer, existing);
            DeserializeCount(w.steps) <= 1 &&
            (w.result.Ok? && w.steps != [Skipped] ==> DeserializeCount(w.steps) == 1)
  {
    var q := SkipIgnorable(tokens, p);
    assert SkipIgnorable(tokens, q) == q;
    assert DeserializeCount([Skipped]) == 0;
    if format.flattenContent {
      RawReadDeserializesOnce(env, path, tokens, p, format, serializer, existing);
    } else if IsElementNamed(tokens, q, format.elementName) {
      RawReadDeserializesOnce(env, path, tokens, q, format, serializer, existing);
      match AttributeAt(tokens, q, "Type")
      case None =>
      case Some(name) =>
        match env.findType(name)
        case None =>
        case Some(t) =>
          RawReadDeserializesOnce(env, path, tokens, q, format, GetTypeSerializer(t), existing);
    }
  }

  // ----- shared resources -----

  /** Repeated registrations under one id compose: the stored fixup stores the resource
      into every registered slot for that id, in registration order, once each. */
  lemma {:induction false} ComposedFixupRunsRegistrationsInOrder(regs: seq<Registration>, order: seq<string>,
                                                                 fixups: map<string, SharedFixup>, id: string, v: Value)
    requires Consistent(regs, order, fixups) && id in fixups
    ensures var ws := RunComposed(fixups[id], v);
            var actions := ActionsFor(regs, id);
            |ws| == |actions| &&
            forall i :: 0 <= i < |ws| ==> ws[i] == SetResource(actions[i].slot, v)
  {
  }

  /** Without a `Resources` element the section is not read and nothing is replayed. */
  lemma NoResourcesSection(env: Env, path: string, tokens: seq<Token>, p: nat)
    requires p <= |tokens| && !IsElementNamed(tokens, SkipIgnorable(tokens, p), "Resources")
    ensures ResourcesSection(env, path, tokens, p) == Walk(Ok(None), SkipIgnorable(tokens, p), [])
  {
  }

  /** A `Resource` whose `ID` is already in the table is rejected once its object has been
      read, as Dictionary.Add rejects a key it holds. */
  lemma DuplicateResourceRejected(env: Env, path: string, tokens: seq<Token>, p: nat,
                                  table: map<string, Value>, steps: seq<Step>, id: string)
    requires p <= |tokens|
    requires IsElementNamed(tokens, SkipIgnorable(tokens, p), "Resource")
    requires AttributeAt(tokens, SkipIgnorable(tokens, p), "ID") == Some(id) && id in table
    requires ObjectRead(env, path, tokens, SkipIgnorable(tokens, p), ResourceFormat,
                        GetTypeSerializer(env.objectType), DefaultValue).result.Ok?
    ensures ResourceEntries(env, path, tokens, p, table, steps).result == Err(ArgumentException(id))
  {
  }

  /** Every resource the `Resources` section yields was read under its `ID` from a
      `Resource` element inside the section, with the object read from that element. */
  lemma SectionResourcesReadUnderId(env: Env, path: string, tokens: seq<Token>, p: nat)
    requires p <= |tokens|
    ensures var w := ResourcesSection(env, path, tokens, p);
            w.result.Ok? && w.result.value.Some? ==>
              forall k :: k in w.result.value.value ==>
                exists i :: SkipIgnorable(tokens, p) < i < w.pos &&
                            ResourceAt(env, path, tokens, i, k, w.result.value.value[k])
  {
    var q := SkipIgnorable(tokens, p);
    if IsElementNamed(tokens, q, "Resources") {
      ResourcesSectionCloses(env, path, tokens, p, q);
      ResourceEntriesNewKeys(env, path, tokens, q + 1, map[], []);
    }
  }

  /** The replay either fails on the first registered id that has no resource, or runs
      every registration exactly once with its id's resource. */
  lemma ReplayIsAllOrNothing(regs: seq<Registration>, order: seq<string>,
                             fixups: map<string, SharedFixup>, table: map<string, Value>)
    requires Consistent(regs, order, fixups)
    ensures ReplayOutcome(order, table).Fail? <==> exists i :: 0 <= i < |order| && order[i] !in table
    ensures ReplayOutcome(order, table).Pass? ==>
              (forall r :: r in regs ==> r.id in table) &&
              multiset(ReplayShared(order, fixups, table)) == multiset(Writes(regs, table))
  {
    if ReplayOutcome(order, table).Pass? {
      ReplayRunsEachRegistrationOnce(regs, order, fixups, table);
    } else {
      var i := FirstMissing(order, table).value;
      assert 0 <= i < |order| && order[i] !in table;
    }
  }

  // ----- external references -----

  /** An `ExternalReference` entry whose id has no registered callbacks fails with
      UnknownReferenceId at the entry, invoking nothing. */
  lemma UnknownExternalId(env: Env, path: string, tokens: seq<Token>, q: nat,
                          refs: map<string, seq<ExternalFixup>>, id: string)
    requires IsElementNamed(tokens, q, "ExternalReference")
    requires AttributeAt(tokens, q, "ID") == Some(id) && id !in refs
    ensures ExternalEntry(env, path, tokens, q, refs) == Effect(Fail(Tagged(UnknownReferenceId(id), path, tokens, q)), q, [])
  {
  }

  /** A known id whose `TargetType` does not resolve fails with UnresolvedType at the entry;
      a missing `TargetType` cannot be read as content. Neither invokes a callback. */
  lemma UnresolvedTargetType(env: Env, path: string, tokens: seq<Token>, q: nat,
                             refs: map<string, seq<ExternalFixup>>, id: string)
    requires IsElementNamed(tokens, q, "ExternalReference")
    requires AttributeAt(tokens, q, "ID") == Some(id) && id in refs
    ensures var w := ExternalEntry(env, path, tokens, q, refs);
            match AttributeAt(tokens, q, "TargetType")
            case None => w.outcome == Fail(InvalidOperationException) && w.writes == []
            case Some(name) =>
              env.findType(name).None? ==> w.outcome == Fail(Tagged(UnresolvedType, path, tokens, q)) && w.writes == []
  {
  }

  /** A resolved entry invokes the callbacks registered for its id in registration order,
      with the filename joined to the document's directory, each setting its slot's
      Filename; it stops at the first callback that expects another type, which fails with
      InvalidReferenceType after the entry's element, the earlier callbacks having run. */
  lemma ExternalEntryInvokesEveryCallback(env: Env, path: string, tokens: seq<Token>, q: nat,
                                          refs: map<string, seq<ExternalFixup>>, id: string,
                                          name: string, t: TypeId, raw: string, q2: nat)
    requires IsElementNamed(tokens, q, "ExternalReference")
    requires AttributeAt(tokens, q, "ID") == Some(id) && id in refs
    requires AttributeAt(tokens, q, "TargetType") == Some(name) && env.findType(name) == Some(t)
    requires ElementContent(tokens, q, false) == Some((raw, q2))
    ensures var w := ExternalEntry(env, path, tokens, q, refs);
            var filename := env.combine(env.directoryName(path), raw);
            var callbacks := refs[id];
            w.pos == q2 &&
            (w.outcome.Pass? <==> forall i :: 0 <= i < |callbacks| ==> callbacks[i].expected == t) &&
            (w.outcome.Fail? ==> w.outcome == Fail(Tagged(InvalidReferenceType, path, tokens, q2))) &&
            (w.outcome.Pass? ==> |w.writes| == |callbacks|) &&
            (w.outcome.Fail? ==> |w.writes| < |callbacks| && callbacks[|w.writes|].expected != t) &&
            forall i :: 0 <= i < |w.writes| ==>
              callbacks[i].expected == t && w.writes[i] == SetFilename(callbacks[i].slot, filename)
  {
  }

  /** Without an `ExternalReferences` element nothing is invoked. */
  lemma NoExternalReferencesSection(env: Env, path: string, tokens: seq<Token>, p: nat,
                                    refs: map<string, seq<ExternalFixup>>)
    requires p <= |tokens| && !IsElementNamed(tokens, SkipIgnorable(tokens, p), "ExternalReferences")
    ensures ExternalReferencesSection(env, path, tokens, p, refs) == Effect(Pass, SkipIgnorable(tokens, p), [])
  {
  }

  /** The section is not checked for completeness: whatever callbacks are registered, an
      `ExternalReferences` element with no entries is read successfully and invokes
      nothing, so every registered id is left unresolved. */
  lemma RegisteredIdMayBeAbsent(env: Env, path: string, tokens: seq<Token>, p: nat,
                                refs: map<string, seq<ExternalFixup>>)
    requires p <= |tokens|
    requires IsElementNamed(tokens, SkipIgnorable(tokens, p), "ExternalReferences")
    requires IsEndElementAt(tokens, SkipIgnorable(tokens, SkipIgnorable(tokens, p) + 1))
    ensures var q2 := SkipIgnorable(tokens, SkipIgnorable(tokens, p) + 1);
            ExternalReferencesSection(env, path, tokens, p, refs) == Effect(Pass, q2 + 1, [])
  {
    var q := SkipIgnorable(tokens, p);
    var q2 := SkipIgnorable(tokens, q + 1);
    assert ExternalEntries(env, path, tokens, q + 1, refs, []) == Effect(Pass, q2, []);
  }
}
