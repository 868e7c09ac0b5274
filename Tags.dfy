/** Option, used for the lexer's marked end and for reads that can fail. */
module Wrappers {
  datatype Option<+T> = None | Some(value: T)
}

/**
 * Tags, token kinds and the tag classifier the scanner consults.
 *
 * The classifier (`Tag::for_name`, `Tag::is_void`, `Tag::can_contain` and the
 * default `Tag()` of tag.h) is not part of this model: it is a record of
 * function values, `TagTable`, that the scanner receives at construction.
 */
module Tags {
  /** A byte of a serialization buffer or of an upper-cased tag name. */
  type Byte = b: int | 0 <= b < 256

  /*
   * Type codes of tag.h's TagType enumeration. The enumeration itself is in
   * tag.h, which is not part of this model; these three values stand for it
   * and the model relies only on their being distinct. All three are below
   * 128, so a code stored through a signed `char` reads back unchanged.
   */
  const CUSTOM: Byte := 127
  const SCRIPT: KnownCode := 90
  const STYLE: KnownCode := 100

  /** The code of every tag type other than CUSTOM. */
  type KnownCode = c: Byte | c != CUSTOM witness 0

  /**
   * An open element. A CUSTOM tag carries its upper-cased name; every other
   * tag is its type code alone, so structural equality is tag.h's `==`.
   */
  datatype Tag = Known(code: KnownCode) | Custom(name: seq<Byte>)

  /** The classifier of tag.h, as function values. */
  datatype TagTable = TagTable(
    forName: seq<Byte> -> Tag,
    isVoid: Tag -> bool,
    canContain: (Tag, Tag) -> bool,
    blank: Tag)

  /** The thirteen token kinds the scanner can emit. */
  datatype Token =
    | StartTagName
    | ScriptStartTagName
    | StyleStartTagName
    | EndTagName
    | ErroneousEndTagName
    | SelfClosingTagDelimiter
    | ImplicitEndTag
    | RawText
    | Comment
    | Text
    | RawEchoPhp
    | EchoTagRegularDelimiter
    | EchoTagVerbatimDelimiter

  function Top(tags: seq<Tag>): Tag
    requires tags != []
  {
    tags[|tags| - 1]
  }

  function Pop(tags: seq<Tag>): seq<Tag>
    requires tags != []
  {
    tags[..|tags| - 1]
  }
}
