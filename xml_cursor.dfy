/** A forward-only cursor over the nodes of an already parsed XML document. It stands in
    for the XmlReader the intermediate reader drives: only the operations that reader
    calls are here, at the level of nodes, not text. */
module XmlCursor {
  import opened Content

  /** A node of the document. Whitespace is white space between markup; Ignorable covers
      comments, processing instructions and declarations. */
  datatype Node =
    | Element(name: string, attributes: map<string, string>, isEmpty: bool)
    | EndElement(name: string)
    | Text(value: string)
    | Whitespace(value: string)
    | Ignorable

  /** The nodes MoveToContent passes over. */
  predicate Skippable(n: Node) {
    n.Whitespace? || n.Ignorable?
  }

  /** The nodes whose value a string read collects. */
  predicate Textual(n: Node) {
    n.Text? || n.Whitespace?
  }

  /** A node with the line and column where it starts. */
  datatype Token = Token(node: Node, line: nat, column: nat)

  predicate IsElementAt(tokens: seq<Token>, p: nat) {
    p < |tokens| && tokens[p].node.Element?
  }

  /** The cursor stands on an element called `name`. */
  predicate IsElementNamed(tokens: seq<Token>, p: nat, name: string) {
    IsElementAt(tokens, p) && tokens[p].node.name == name
  }

  predicate IsEndElementAt(tokens: seq<Token>, p: nat) {
    p < |tokens| && tokens[p].node.EndElement?
  }

  /** The attribute `name` of the element at `p`, if there is one. */
  function AttributeAt(tokens: seq<Token>, p: nat, name: string): Option<string> {
    if IsElementAt(tokens, p) && name in tokens[p].node.attributes
    then Some(tokens[p].node.attributes[name]) else None
  }

  /** Line and column the cursor reports at `p`; (0, 0) once past the last node. */
  function LineInfo(tokens: seq<Token>, p: nat): (nat, nat) {
    if p < |tokens| then (tokens[p].line, tokens[p].column) else (0, 0)
  }

  /** A cursor position is well formed: inside the document, and on an attribute only of
      the element it stands on. */
  predicate PositionOk(tokens: seq<Token>, p: nat, attribute: Option<string>) {
    p <= |tokens| &&
    (attribute.Some? ==> IsElementAt(tokens, p) && attribute.value in tokens[p].node.attributes)
  }

  /** Where MoveToContent stops: the first node at or after `p` that is neither white
      space nor ignorable. */
  function SkipIgnorable(tokens: seq<Token>, p: nat): (q: nat)
    requires p <= |tokens|
    ensures p <= q <= |tokens|
    ensures q < |tokens| ==> !Skippable(tokens[q].node)
    decreases |tokens| - p
  {
    if p == |tokens| || !Skippable(tokens[p].node) then p else SkipIgnorable(tokens, p + 1)
  }

  /** Every node SkipIgnorable passes over is white space, a comment, a processing
      instruction or a declaration. */
  lemma {:induction false} SkippedAreSkippable(tokens: seq<Token>, p: nat)
    requires p <= |tokens|
    ensures forall i :: p <= i < SkipIgnorable(tokens, p) ==> Skippable(tokens[i].node)
    decreases |tokens| - p
  {
    if p < |tokens| && Skippable(tokens[p].node) {
      SkippedAreSkippable(tokens, p + 1);
    }
  }

  /** The position just after the end tag closing an element whose start tag lies before
      `p`, when `depth` further elements are open; None when the document ends first. */
  function AfterMatchingEnd(tokens: seq<Token>, p: nat, depth: nat): (r: Option<nat>)
    requires p <= |tokens|
    ensures r.Some? ==> p < r.value <= |tokens| && tokens[r.value - 1].node.EndElement?
    decreases |tokens| - p
  {
    if p == |tokens| then None
    else match tokens[p].node
      case Element(_, _, empty) => AfterMatchingEnd(tokens, p + 1, if empty then depth else depth + 1)
      case EndElement(_) => if depth == 0 then Some(p + 1) else AfterMatchingEnd(tokens, p + 1, depth - 1)
      case _ => AfterMatchingEnd(tokens, p + 1, depth)
  }

  /** Where Skip leaves the cursor: past a whole non-empty element, one node further
      otherwise, nowhere new at the end of the document. */
  function SkipEnd(tokens: seq<Token>, p: nat): (r: Option<nat>)
    requires p <= |tokens|
    ensures r.Some? ==> p <= r.value <= |tokens| && (p < |tokens| ==> p < r.value)
  {
    if p == |tokens| then Some(p)
    else if tokens[p].node.Element? && !tokens[p].node.isEmpty then AfterMatchingEnd(tokens, p + 1, 0)
    else Some(p + 1)
  }

  /** Whether a string read starting at `p` stops at `p`: at an element, an end tag or
      the end of input, and at an ignorable node unless `passIgnorable`. */
  predicate RunStops(tokens: seq<Token>, p: nat, passIgnorable: bool) {
    p >= |tokens| || tokens[p].node.Element? || tokens[p].node.EndElement? ||
    (!passIgnorable && tokens[p].node.Ignorable?)
  }

  /** The text of the run of text and white-space nodes starting at `p`, and where the run
      ends. With `passIgnorable` comments and processing instructions inside the run are
      passed over, as the ReadContentAs methods do; without it they end the run, as
      ReadString does. */
  function TextRun(tokens: seq<Token>, p: nat, passIgnorable: bool): (r: (string, nat))
    requires p <= |tokens|
    ensures p <= r.1 <= |tokens| && RunStops(tokens, r.1, passIgnorable)
    ensures forall i :: p <= i < r.1 ==> !RunStops(tokens, i, passIgnorable)
    decreases |tokens| - p
  {
    if RunStops(tokens, p, passIgnorable) then ("", p)
    else
      var rest := TextRun(tokens, p + 1, passIgnorable);
      (if Textual(tokens[p].node) then tokens[p].node.value + rest.0 else rest.0, rest.1)
  }

  /** ReadElementContentAsString on the element at `p` (with `passIgnorable`), or
      ReadElementString (without it): its text content and the position after its end tag,
      or None (an XmlException) when something other than text ends the content. */
  function ElementContent(tokens: seq<Token>, p: nat, passIgnorable: bool): (r: Option<(string, nat)>)
    requires p <= |tokens|
    ensures r.Some? ==> IsElementAt(tokens, p) && p < r.value.1 <= |tokens|
    ensures r.Some? && !tokens[p].node.isEmpty ==> tokens[r.value.1 - 1].node.EndElement?
  {
    if !IsElementAt(tokens, p) then None
    else if tokens[p].node.isEmpty then Some(("", p + 1))
    else
      var run := TextRun(tokens, p + 1, passIgnorable);
      if IsEndElementAt(tokens, run.1) then Some((run.0, run.1 + 1)) else None
  }

  /** ReadContentAsString: the value of the attribute the cursor stands on, or the text
      run at the cursor; an element or the end of input cannot be read as content. */
  function ContentAsString(tokens: seq<Token>, p: nat, attribute: Option<string>): (r: Result<(string, nat)>)
    requires PositionOk(tokens, p, attribute)
    ensures r.Ok? ==> p <= r.value.1 <= |tokens|
  {
    if attribute.Some? then Ok((tokens[p].node.attributes[attribute.value], p))
    else if p == |tokens| || tokens[p].node.Element? then Err(InvalidOperationException)
    else Ok(TextRun(tokens, p, true))
  }

  class Cursor {
    const tokens: seq<Token>
    var pos: nat
    /** The attribute the cursor stands on, if any. */
    var attribute: Option<string>

    ghost predicate Valid()
      reads this
    {
      PositionOk(tokens, pos, attribute)
    }

    constructor (tokens: seq<Token>)
      ensures Valid() && this.tokens == tokens && pos == 0 && attribute == None
    {
      this.tokens := tokens;
      pos := 0;
      attribute := None;
    }

    /** Line and column of the current node. */
    function LineNumbers(): (nat, nat)
      reads this
    {
      LineInfo(tokens, pos)
    }

    function GetAttribute(name: string): (r: Option<string>)
      reads this
      ensures r.Some? <==> IsElementAt(tokens, pos) && name in tokens[pos].node.attributes
    {
      AttributeAt(tokens, pos, name)
    }

    predicate IsEmptyElement()
      reads this
    {
      IsElementAt(tokens, pos) && tokens[pos].node.isEmpty
    }

    /** Leaves an attribute for its element, then passes over ignorable nodes. */
    method MoveToContent()
      requires Valid()
      modifies this
      ensures Valid() && attribute == None
      ensures pos == SkipIgnorable(tokens, old(pos))
    {
      attribute := None;
      while pos < |tokens| && Skippable(tokens[pos].node)
        invariant old(pos) <= pos <= |tokens| && attribute == None
        invariant SkipIgnorable(tokens, old(pos)) == SkipIgnorable(tokens, pos)
        decreases |tokens| - pos
      {
        pos := pos + 1;
      }
    }

    method MoveToAttribute(name: string) returns (found: bool)
      requires Valid()
      modifies this`attribute
      ensures Valid()
      ensures found <==> IsElementAt(tokens, pos) && name in tokens[pos].node.attributes
      ensures attribute == if found then Some(name) else old(attribute)
    {
      found := IsElementAt(tokens, pos) && name in tokens[pos].node.attributes;
      if found {
        attribute := Some(name);
      }
    }

    /** Leaves the attribute the cursor stands on for its element. */
    method MoveToElement()
      requires Valid()
      modifies this`attribute
      ensures Valid() && attribute == None
    {
      attribute := None;
    }

    /** Discards the current node and, for a non-empty element, all of its subtree. */
    method Skip() returns (r: Outcome)
      requires Valid()
      modifies this
      ensures Valid() && attribute == None
      ensures r.Pass? <==> SkipEnd(tokens, old(pos)).Some?
      ensures r.Pass? ==> pos == SkipEnd(tokens, old(pos)).value
      ensures r.Fail? ==> r.failure == XmlException
    {
      attribute := None;
      if pos == |tokens| {
        return Pass;
      }
      if !(tokens[pos].node.Element? && !tokens[pos].node.isEmpty) {
        pos := pos + 1;
        return Pass;
      }
      var p, depth: nat := pos + 1, 0;
      while p < |tokens| && !(tokens[p].node.EndElement? && depth == 0)
        invariant pos < p <= |tokens|
        invariant AfterMatchingEnd(tokens, p, depth) == AfterMatchingEnd(tokens, pos + 1, 0)
        decreases |tokens| - p
      {
        match tokens[p].node {
          case Element(_, _, empty) =>
            if !empty {
              depth := depth + 1;
            }
          case EndElement(_) =>
            depth := depth - 1;
          case _ =>
        }
        p := p + 1;
      }
      if p == |tokens| {
        return Fail(XmlException);
      }
      pos := p + 1;
      r := Pass;
    }

    /** Consumes the start tag of the element at the content position. */
    method ReadStartElement() returns (r: Outcome)
      requires Valid()
      modifies this
      ensures Valid() && attribute == None
      ensures var q := SkipIgnorable(tokens, old(pos));
              if IsElementAt(tokens, q) then r == Pass && pos == q + 1
              else r == Fail(XmlException)
    {
      MoveToContent();
      if !IsElementAt(tokens, pos) {
        return Fail(XmlException);
      }
      pos := pos + 1;
      r := Pass;
    }

    /** Consumes the end tag at the content position. */
    method ReadEndElement() returns (r: Outcome)
      requires Valid()
      modifies this
      ensures Valid() && attribute == None
      ensures var q := SkipIgnorable(tokens, old(pos));
              if IsEndElementAt(tokens, q) then r == Pass && pos == q + 1
              else r == Fail(XmlException)
    {
      MoveToContent();
      if !IsEndElementAt(tokens, pos) {
        return Fail(XmlException);
      }
      pos := pos + 1;
      r := Pass;
    }

    /** Collects the text run at the cursor. */
    method ReadTextRun(passIgnorable: bool) returns (s: string)
      requires Valid() && attribute == None
      modifies this`pos
      ensures Valid() && (s, pos) == TextRun(tokens, old(pos), passIgnorable)
    {
      s := "";
      while !RunStops(tokens, pos, passIgnorable)
        invariant old(pos) <= pos <= |tokens|
        invariant TextRun(tokens, old(pos), passIgnorable).0 == s + TextRun(tokens, pos, passIgnorable).0
        invariant TextRun(tokens, old(pos), passIgnorable).1 == TextRun(tokens, pos, passIgnorable).1
        decreases |tokens| - pos
      {
        if Textual(tokens[pos].node) {
          var rest := TextRun(tokens, pos + 1, passIgnorable).0;
          assert TextRun(tokens, pos, passIgnorable).0 == tokens[pos].node.value + rest;
          assert s + (tokens[pos].node.value + rest) == (s + tokens[pos].node.value) + rest;
          s := s + tokens[pos].node.value;
        }
        pos := pos + 1;
      }
      assert TextRun(tokens, pos, passIgnorable) == ("", pos);
      assert s + "" == s;
    }

    /** Reads the text content of the element at the cursor and moves past it, passing
        over comments and processing instructions in it. */
    method ReadElementContentAsString() returns (r: Result<string>)
      requires Valid()
      modifies this
      ensures Valid() && attribute == None
      ensures var c := ElementContent(tokens, old(pos), true);
              if c.Some? then r == Ok(c.value.0) && pos == c.value.1 else r == Err(XmlException)
    {
      r := ReadElementText(true);
    }

    /** Moves to content and reads the text of the element there; a comment or processing
        instruction in it is an XmlException. */
    method ReadElementString() returns (r: Result<string>)
      requires Valid()
      modifies this
      ensures Valid() && attribute == None
      ensures var c := ElementContent(tokens, SkipIgnorable(tokens, old(pos)), false);
              if c.Some? then r == Ok(c.value.0) && pos == c.value.1 else r == Err(XmlException)
    {
      MoveToContent();
      r := ReadElementText(false);
    }

    /** The text of the element at the cursor, ending at its end tag; `passIgnorable` says
        whether comments and processing instructions inside are passed over. */
    method ReadElementText(passIgnorable: bool) returns (r: Result<string>)
      requires Valid()
      modifies this
      ensures Valid() && attribute == None
      ensures var c := ElementContent(tokens, old(pos), passIgnorable);
              if c.Some? then r == Ok(c.value.0) && pos == c.value.1 else r == Err(XmlException)
    {
      attribute := None;
      if !IsElementAt(tokens, pos) {
        return Err(XmlException);
      }
      if tokens[pos].node.isEmpty {
        pos := pos + 1;
        return Ok("");
      }
      pos := pos + 1;
      var s := ReadTextRun(passIgnorable);
      if !IsEndElementAt(tokens, pos) {
        return Err(XmlException);
      }
      pos := pos + 1;
      r := Ok(s);
    }

    /** Reads the current attribute's value, or the text run at the cursor. */
    method ReadContentAsString() returns (r: Result<string>)
      requires Valid()
      modifies this`pos
      ensures Valid()
      ensures var c := ContentAsString(tokens, old(pos), attribute);
              if c.Ok? then r == Ok(c.value.0) && pos == c.value.1 else r == Err(c.failure)
    {
      if attribute.Some? {
        return Ok(tokens[pos].node.attributes[attribute.value]);
      }
      if pos == |tokens| || tokens[pos].node.Element? {
        return Err(InvalidOperationException);
      }
      var s := ReadTextRun(true);
      r := Ok(s);
    }
  }
}
