/**
 * The events an XML pull reader hands to the manifest parser. Tokenising the
 * text is the reader library's business; the model starts from the events it
 * produces, in document order.
 */
module Xml {

  /**
   * One attribute of a start tag as the reader yields it: a key and the raw
   * value text, or an attribute the reader could not make sense of. A key
   * given a second time within the same tag is one of those: the reader
   * checks for duplicate keys and reports the repeat as an error.
   */
  datatype Attribute = Attribute(key: string, value: string) | Malformed

  /**
   * A start tag with its attributes; any other event (text, end tags,
   * comments, declarations, and self-closing tags, which the reader reports
   * apart from start tags and the manifest parser does not match); the end
   * of the document; or a reader error.
   */
  datatype XmlEvent =
    | Start(name: string, attrs: seq<Attribute>)
    | Other
    | Eof
    | Error
}
