/**
 * The parts of the reader's event model that the map accessor looks at:
 * bytes, start tags with their attribute cursor, and the event kinds that
 * `peek` can hand back.
 */
module Events {
  import opened Results

  newtype byte = b: int | 0 <= b < 256

  type Bytes = seq<byte>

  /** The ASCII colon that separates a namespace prefix from a local name. */
  const COLON: byte := 58

  /** One `key="value"` pair; the value is still escaped. */
  datatype Attribute = Attribute(key: Bytes, value: Bytes)

  /** Why the attribute cursor refused to produce a pair. */
  datatype AttrFault = ExpectedEq | UnquotedValue | UnterminatedValue

  /**
   * What the attribute cursor finds at one offset of a tag's attribute span:
   * a well-formed pair or a malformed one.
   */
  datatype AttrItem = Good(attr: Attribute) | Bad(fault: AttrFault)

  /** Errors of the reader and of the attribute cursor. */
  datatype XmlError = Attr(fault: AttrFault) | Syntax(reason: string)

  /**
   * A start tag: its qualified name and its attribute span, which the
   * cursor parses lazily and which is never materialised by the tag.
   */
  datatype BytesStart = BytesStart(name: Bytes, attrs: seq<AttrItem>)
  {
    /** A fresh cursor over this tag's attributes, placed before the first one. */
    function Attributes(): (c: Attributes)
      ensures c.items == attrs && c.position == 0
    {
      Cursor(attrs, 0)
    }
  }

  /**
   * The resumable attribute cursor: the attribute span and a plain offset.
   * Offsets count attribute entries of the span; `|items|` is its end.
   */
  datatype Attributes = Cursor(items: seq<AttrItem>, position: nat)
  {
    /**
     * Advance once: the pair at the offset and the cursor after it, nothing
     * at the end of the span, or a fault, after which the cursor moves to
     * the end of the span so that it yields nothing more.
     */
    function Next(): (r: (Option<Result<Attribute, AttrFault>>, Attributes))
      ensures r.1.items == items
      ensures r.0.None? <==> position >= |items|
      ensures r.0.None? ==> r.1.position == position
      ensures r.0.Some? && r.0.value.Ok? ==>
        position < |items| && items[position] == Good(r.0.value.value) && r.1.position == position + 1
      ensures r.0.Some? && r.0.value.Err? ==>
        position < |items| && items[position] == Bad(r.0.value.error) && r.1.position == |items|
    {
      if position >= |items| then (None, this)
      else match items[position]
        case Good(a) => (Some(Ok(a)), this.(position := position + 1))
        case Bad(f) => (Some(Err(f)), this.(position := |items|))
    }
  }

  /** Events as the reader delivers them to the deserializer. */
  datatype Event =
    | Start(tag: BytesStart)
    | End(name: Bytes)
    | Empty(tag: BytesStart)
    | Text(content: Bytes)
    | CData(content: Bytes)
    | Comment(content: Bytes)
    | Decl(content: Bytes)
    | PI(content: Bytes)
    | DocType(content: Bytes)
    | Eof

  /** The offset of the first colon of `name`, if it has one. */
  function ColonIndex(name: Bytes): (r: Option<nat>)
    ensures r.None? <==> COLON !in name
    ensures r.Some? ==> r.value < |name| && name[r.value] == COLON && COLON !in name[..r.value]
  {
    if name == [] then None
    else if name[0] == COLON then Some(0)
    else match ColonIndex(name[1..])
      case None => None
      case Some(i) =>
        assert name[..i + 1] == [name[0]] + name[1..][..i];
        Some(i + 1)
  }

  /** A tag name with its namespace prefix (everything up to the first colon) removed. */
  function LocalName(name: Bytes): (r: Bytes)
    ensures COLON !in name ==> r == name
    ensures COLON in name ==>
      exists i :: 0 <= i < |name| && COLON !in name[..i] && name == name[..i] + [COLON] + r
  {
    match ColonIndex(name)
    case None => name
    case Some(i) =>
      assert name == name[..i] + [COLON] + name[i + 1..];
      name[i + 1..]
  }
}
