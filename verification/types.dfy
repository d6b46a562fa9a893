/**
 * Values shared by every part of the session store: attribute values and
 * maps, the actions of a modification query, codec identifiers and the
 * error kinds the store reports.
 */
module Types {

  /** An attribute value. The store never looks inside a value; it copies it,
      hands it to a codec and asks whether it is null. `Null` is the Java
      null a map may hold; `Obj` is any other serializable object,
      identified by a token so that two values can be compared. */
  datatype Value = Null | Obj(token: string)

  /** One section: attribute name to value. */
  type Section = map<string, Value>

  /** A whole snapshot: section name to section. */
  type Attrs = map<string, Section>

  /** An action of a modification query. `Other` stands for any action
      object that is none of the three known kinds. */
  datatype Action =
    | Add(section: string, attribute: string, value: Value)
    | Set(section: string, attribute: string, value: Value, addIfNotExists: bool)
    | Delete(section: string, attribute: string)
    | Other(section: string, attribute: string)

  /** Identifier of a snapshot codec, as recorded on every snapshot. */
  datatype CodecType = CodecType(name: string)

  /** The codec every write uses. */
  const DEFAULT_CODEC_TYPE: CodecType := CodecType("JSON")

  /** Why an operation failed with the "unexpected error" kind. */
  datatype Unexpected =
    | UnsupportedCodec(codecType: CodecType)
    | UnsupportedAction

  /** The error kinds the store raises. */
  datatype Error =
    | SessionNotFound(uid: string)
    | AttributeAlreadyExists(section: string, attribute: string)
    | AttributeNotExists(section: string, attribute: string)
    | UnexpectedError(reason: Unexpected)

  datatype Option<+T> = None | Some(value: T)

  /** A value or the error that stopped the operation; usable with `:-`. */
  datatype Result<+T> = Ok(value: T) | Err(error: Error) {
    predicate IsFailure() { Err? }

    function PropagateFailure<U>(): Result<U>
      requires Err?
    {
      Err(error)
    }

    function Extract(): T
      requires Ok?
    {
      value
    }
  }

  /** The section an attribute map holds under `name`, or an empty one. */
  function SectionOf(attrs: Attrs, name: string): (s: Section)
    ensures name in attrs ==> s == attrs[name]
    ensures name !in attrs ==> s == map[]
  {
    if name in attrs then attrs[name] else map[]
  }

  /** A key "has a value" when it is present and not mapped to null: the
      test `put(...) != null` and `remove(...) != null` make. */
  predicate Occupied(s: Section, attribute: string)
  {
    attribute in s && s[attribute] != Null
  }

  /** The attribute names of a section; a missing section has none. */
  function AttributeNames(attrs: Attrs, section: string): (names: set<string>)
    ensures section !in attrs ==> names == {}
    ensures forall k :: k in names <==> section in attrs && k in attrs[section]
  {
    if section in attrs then attrs[section].Keys else {}
  }

  /** The value of an attribute; a missing section or attribute reads as
      null, never as an error. */
  function AttributeValue(attrs: Attrs, section: string, attribute: string): (v: Value)
    ensures section !in attrs || attribute !in attrs[section] ==> v == Null
    ensures v != Null ==> section in attrs && attribute in attrs[section] && attrs[section][attribute] == v
    ensures section in attrs && attribute in attrs[section] ==> v == attrs[section][attribute]
  {
    if section in attrs && attribute in attrs[section] then attrs[section][attribute] else Null
  }
}
