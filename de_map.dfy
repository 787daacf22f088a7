/**
 * The map accessor of the structural decoding bridge: while one start tag
 * is decoded as a struct, it decides where each next field comes from (an
 * attribute, the inner text, or a nested child element) and hands the
 * matching key and value to the marshalling framework's seeds.
 *
 * Seeds are modelled as identities: a key request returns the deserializer
 * the key would be read from, a value request the deserializer the value
 * would be read from.
 */
module DeMap {
  import opened Results
  import Events

  type Bytes = Events.Bytes

  /** The reserved field name that binds inner text or a flattened run of children. */
  const INNER_VALUE: string := "$value"

  /** The one-shot slot holding what the next value request will decode. */
  datatype MapValue =
    | Empty
    | Attribute(value: Bytes)
    | Nested
    | InnerValue

  /** Errors of the deserializer. */
  datatype DeError =
    | EndOfAttributes
    | Xml(cause: Events.XmlError)

  /**
   * What a key seed is handed: raw bytes behind an escaping deserializer
   * (with its unescape flag), or a plain string.
   */
  datatype KeyInput = KeyBytes(bytes: Bytes, unescape: bool) | KeyStr(text: string)

  /**
   * What a value seed is handed: raw bytes behind an escaping deserializer
   * (with its unescape flag), or the parent deserializer itself.
   */
  datatype ValueInput = ValueBytes(bytes: Bytes, unescape: bool) | Delegate

  /** The accessor's mutable fields, as a value. */
  datatype AccessState = AccessState(position: nat, value: MapValue)

  /** The state of an accessor freshly created for `start`. */
  function Init(start: Events.BytesStart): (s: AccessState)
    ensures s.value == Empty && s.position == start.Attributes().position
  {
    AccessState(start.Attributes().position, Empty)
  }

  /**
   * One step of the attribute cursor resumed at `pos`: the pair found (or
   * nothing, or the cursor's fault) and the offset to save. A fault leaves
   * the saved offset where it was.
   */
  function NextAttrStep(start: Events.BytesStart, pos: nat): (r: (Result<Option<(Bytes, Bytes)>, DeError>, nat))
    ensures r.0 == Ok(None) <==> pos >= |start.attrs|
    ensures r.0 == Ok(None) ==> r.1 == pos
    ensures r.0.Ok? && r.0.value.Some? ==>
      pos < |start.attrs| && r.1 == pos + 1 &&
      start.attrs[pos] == Events.Good(Events.Attribute(r.0.value.value.0, r.0.value.value.1))
    ensures r.0.Err? <==> pos < |start.attrs| && start.attrs[pos].Bad?
    ensures r.0.Err? ==> r.0.error == Xml(Events.Attr(start.attrs[pos].fault)) && r.1 == pos
  {
    var (next, after) := start.Attributes().(position := pos).Next();
    match next
    case None => (Ok(None), after.position)
    case Some(Ok(a)) => (Ok(Some((a.key, a.value))), after.position)
    case Some(Err(f)) => (Err(Xml(Events.Attr(f))), pos)
  }

  /**
   * What a peeked event means once the attributes are exhausted: the new
   * slot content and the key, or nothing when the map has ended.
   */
  function PeekDecision(peeked: Option<Events.Event>, hasValueField: bool): (d: Option<(MapValue, KeyInput)>)
    ensures d.Some? <==> peeked.Some? && (peeked.value.Text? || peeked.value.Start?)
    ensures d.Some? ==> d.value.0 == InnerValue || d.value.0 == Nested
    ensures d.Some? ==> (d.value.0 == InnerValue <==> d.value.1 == KeyStr(INNER_VALUE))
    ensures (d.Some? && d.value.0 == Nested) <==> (peeked.Some? && peeked.value.Start? && !hasValueField)
    ensures d.Some? && d.value.0 == Nested ==>
      d.value.1 == KeyBytes(Events.LocalName(peeked.value.tag.name), false)
  {
    match peeked
    case Some(Text(_)) => Some((InnerValue, KeyStr(INNER_VALUE)))
    case Some(Start(e)) =>
      if hasValueField then Some((InnerValue, KeyStr(INNER_VALUE)))
      else Some((Nested, KeyBytes(Events.LocalName(e.name), false)))
    case _ => None
  }

  /**
   * A key request: the next attribute if there is one (the peeked event is
   * then not looked at), otherwise the decision on the peeked event.
   */
  function KeyStep(start: Events.BytesStart, s: AccessState, peeked: Result<Option<Events.Event>, DeError>,
                   hasValueField: bool): (r: (Result<Option<KeyInput>, DeError>, AccessState))
    ensures s.position < |start.attrs| && start.attrs[s.position].Good? ==>
      var a := start.attrs[s.position].attr;
      r == (Ok(Some(KeyBytes(a.key, false))), AccessState(s.position + 1, Attribute(a.value)))
    ensures s.position < |start.attrs| && start.attrs[s.position].Bad? ==>
      r == (Err(Xml(Events.Attr(start.attrs[s.position].fault))), s)
    ensures s.position >= |start.attrs| && peeked.Err? ==> r == (Err(peeked.error), s)
    ensures s.position >= |start.attrs| && peeked.Ok? ==>
      match PeekDecision(peeked.value, hasValueField)
      case None => r == (Ok(None), s)
      case Some((v, k)) => r == (Ok(Some(k)), AccessState(s.position, v))
    ensures r.0.Ok? && r.0.value.Some? ==> !r.1.value.Empty?
    ensures !(r.0.Ok? && r.0.value.Some?) ==> r.1 == s
    ensures r.0.Ok? && r.0.value.Some? && r.0.value.value.KeyBytes? ==> !r.0.value.value.unescape
  {
    var (attr, pos) := NextAttrStep(start, s.position);
    match attr
    case Err(e) => (Err(e), s)
    case Ok(Some((key, value))) => (Ok(Some(KeyBytes(key, false))), AccessState(pos, Attribute(value)))
    case Ok(None) =>
      match peeked
      case Err(e) => (Err(e), s)
      case Ok(ev) =>
        match PeekDecision(ev, hasValueField)
        case None => (Ok(None), s)
        case Some((v, k)) => (Ok(Some(k)), AccessState(s.position, v))
  }

  /**
   * A value request: it takes the slot, leaving it empty, and hands on an
   * attribute value with unescaping on, or delegates to the parent
   * deserializer; an empty slot is an error.
   */
  function ValueStep(s: AccessState): (r: (Result<ValueInput, DeError>, AccessState))
    ensures r.1 == AccessState(s.position, Empty)
    ensures r.0.Err? <==> s.value.Empty?
    ensures r.0.Err? ==> r.0.error == EndOfAttributes
    ensures s.value.Attribute? ==> r.0 == Ok(ValueBytes(s.value.value, true))
    ensures s.value.Nested? || s.value.InnerValue? ==> r.0 == Ok(Delegate)
  {
    var taken := s.value;
    var r := match taken
      case Attribute(value) => Ok(ValueBytes(value, true))
      case Nested => Ok(Delegate)
      case InnerValue => Ok(Delegate)
      case Empty => Err(EndOfAttributes);
    (r, s.(value := Empty))
  }

  /** The accessor over the attributes and children of one start tag. */
  class MapAccess {
    /** The tag that owns the attributes. */
    const start: Events.BytesStart
    /** Offset in the attribute span from which the next attribute is parsed. */
    var position: nat
    /** What the next value request will decode. */
    var value: MapValue

    /** The saved offset never runs past the end of the attribute span. */
    ghost predicate Valid()
      reads this
    {
      position <= |start.attrs|
    }

    ghost function Current(): AccessState
      reads this
    {
      AccessState(position, value)
    }

    constructor (start: Events.BytesStart)
      ensures Valid()
      ensures this.start == start
      ensures Current() == Init(start)
    {
      this.start := start;
      position := start.Attributes().position;
      value := Empty;
    }

    /**
     * Rebuilds the cursor at the saved offset, advances it once and saves
     * the offset it reached; on a fault the offset is not saved.
     */
    method NextAttr() returns (r: Result<Option<(Bytes, Bytes)>, DeError>)
      requires Valid()
      modifies this`position
      ensures Valid()
      ensures (r, position) == NextAttrStep(start, old(position))
    {
      var attributes := start.Attributes();
      attributes := attributes.(position := position);
      var (next, after) := attributes.Next();
      match next {
        case Some(Err(f)) =>
          return Err(Xml(Events.Attr(f)));
        case Some(Ok(a)) =>
          position := after.position;
          return Ok(Some((a.key, a.value)));
        case None =>
          position := after.position;
          return Ok(None);
      }
    }

    /**
     * Attributes first; once they are exhausted, the peeked event decides
     * the slot and the key, or ends the map.
     */
    method NextKeySeed(peeked: Result<Option<Events.Event>, DeError>, hasValueField: bool)
      returns (r: Result<Option<KeyInput>, DeError>)
      requires Valid()
      modifies this
      ensures Valid()
      ensures (r, Current()) == KeyStep(start, old(Current()), peeked, hasValueField)
    {
      var attr := NextAttr();
      match attr {
        case Err(e) =>
          return Err(e);
        case Ok(Some((key, v))) =>
          value := Attribute(v);
          return Ok(Some(KeyBytes(key, false)));
        case Ok(None) =>
          match peeked {
            case Err(e) =>
              return Err(e);
            case Ok(Some(Text(_))) =>
              value := InnerValue;
              return Ok(Some(KeyStr(INNER_VALUE)));
            case Ok(Some(Start(e))) =>
              if hasValueField {
                value := InnerValue;
                return Ok(Some(KeyStr(INNER_VALUE)));
              }
              var name := Events.LocalName(e.name);
              value := Nested;
              return Ok(Some(KeyBytes(name, false)));
            case Ok(_) =>
              return Ok(None);
          }
      }
    }

    /** Takes the slot, resetting it to empty, and hands on what it held. */
    method NextValueSeed() returns (r: Result<ValueInput, DeError>)
      requires Valid()
      modifies this`value
      ensures Valid()
      ensures (r, Current()) == ValueStep(old(Current()))
    {
      var taken := value;
      value := Empty;
      match taken {
        case Attribute(v) =>
          return Ok(ValueBytes(v, true));
        case Nested =>
          return Ok(Delegate);
        case InnerValue =>
          return Ok(Delegate);
        case Empty =>
          return Err(EndOfAttributes);
      }
    }
  }
}
