/** Values, errors and the content identity that the intermediate reader attaches to its errors. */
module Content {

  datatype Option<+T> = None | Some(value: T)

  /** A runtime type, identified by its full name. */
  datatype TypeId = TypeId(fullName: string)

  /** An object handed out by a type serializer; DefaultValue stands for `default(T)`. */
  datatype Value = DefaultValue | Instance(ty: TypeId, handle: nat)

  /** Where an error happened: document path, an (always empty) tool name and "line,column". */
  datatype ContentIdentity = ContentIdentity(sourceFilename: string, sourceTool: string, fragmentIdentifier: string)

  /** The kinds of InvalidContentException the reader raises. */
  datatype ContentError =
    | ElementNotFound(elementName: string)
    | NullNotAllowed(elementName: string)
    | UnresolvedType
    | TypeMismatch(actual: TypeId, target: TypeId)
    | MissingSharedResource(id: string)
    | UnknownReferenceId(id: string)
    | InvalidReferenceType

  /** Every way a read can fail. Only InvalidContent is raised by the reader itself; the
      others are the exceptions of the collaborators it calls (XML cursor, boolean
      conversion, dictionaries). */
  datatype Failure =
    | InvalidContent(kind: ContentError, identity: Option<ContentIdentity>)
    | XmlException              // the cursor met a node it did not expect
    | InvalidOperationException // content read as a string on an element or at end of input
    | FormatException           // a `Null` attribute that is not a boolean
    | ArgumentNullException     // a dictionary key that is null (missing `ID` attribute)
    | ArgumentException(key: string) // Dictionary.Add with a key already present

  datatype Result<+T> = Ok(value: T) | Err(failure: Failure)

  datatype Outcome = Pass | Fail(failure: Failure)

  // ----- decimal rendering of line and column numbers -----

  predicate IsDigit(c: char) {
    '0' <= c <= '9'
  }

  function DigitChar(d: nat): (c: char)
    requires d < 10
  {
    (d + '0' as int) as char
  }

  function DigitValue(c: char): nat
    requires IsDigit(c)
  {
    c as int - '0' as int
  }

  /** Decimal text of a number, as `{0}` formats an int. */
  function NatToString(n: nat): (s: string)
    ensures |s| >= 1
    ensures forall i :: 0 <= i < |s| ==> IsDigit(s[i])
    decreases n
  {
    if n < 10 then [DigitChar(n)] else NatToString(n / 10) + [DigitChar(n % 10)]
  }

  /** Reads a non-empty string of decimal digits back into a number. */
  function ParseNat(s: string): Option<nat>
    decreases |s|
  {
    if s == [] || !IsDigit(s[|s| - 1]) then None
    else if |s| == 1 then Some(DigitValue(s[0]))
    else match ParseNat(s[..|s| - 1])
      case None => None
      case Some(h) => Some(10 * h + DigitValue(s[|s| - 1]))
  }

  lemma {:induction false} NatRoundTrip(n: nat)
    ensures ParseNat(NatToString(n)) == Some(n)
    decreases n
  {
    var s := NatToString(n);
    if n >= 10 {
      NatRoundTrip(n / 10);
      assert s[..|s| - 1] == NatToString(n / 10);
      assert DigitValue(s[|s| - 1]) == n % 10;
    } else {
      assert DigitValue(s[0]) == n;
    }
  }

  /** Index of the first comma, or |s| when there is none. */
  function FindComma(s: string): (i: nat)
    ensures i <= |s|
    ensures i < |s| ==> s[i] == ','
    ensures forall j :: 0 <= j < i ==> s[j] != ','
  {
    if s == [] then 0 else if s[0] == ',' then 0 else 1 + FindComma(s[1..])
  }

  /** The fragment identifier written for a position: "line,column". */
  function FormatLineColumn(line: nat, column: nat): string {
    NatToString(line) + "," + NatToString(column)
  }

  /** Reads a "line,column" fragment identifier back. */
  function ParseLineColumn(s: string): Option<(nat, nat)> {
    var i := FindComma(s);
    if i == |s| then None
    else match (ParseNat(s[..i]), ParseNat(s[i + 1..]))
      case (Some(l), Some(c)) => Some((l, c))
      case _ => None
  }

  /** The fragment identifier determines the position it was made from. */
  lemma {:induction false} LineColumnRoundTrip(line: nat, column: nat)
    ensures ParseLineColumn(FormatLineColumn(line, column)) == Some((line, column))
  {
    var a, b := NatToString(line), NatToString(column);
    var s := a + "," + b;
    assert s[|a|] == ',';
    assert forall j :: 0 <= j < |a| ==> s[j] == a[j] && IsDigit(a[j]);
    var i := FindComma(s);
    assert i == |a|;
    assert s[..i] == a;
    assert s[i + 1..] == b;
    NatRoundTrip(line);
    NatRoundTrip(column);
  }

  /** The identity NewInvalidContentException builds for a document position. */
  function IdentityAt(path: string, line: nat, column: nat): (id: ContentIdentity)
    ensures id.sourceFilename == path && id.sourceTool == ""
    ensures ParseLineColumn(id.fragmentIdentifier) == Some((line, column))
  {
    LineColumnRoundTrip(line, column);
    ContentIdentity(path, "", FormatLineColumn(line, column))
  }
}
