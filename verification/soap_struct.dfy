/** The `Stat` struct the request collects, reduced to the dual-serialisation
    contract the request relies on: `toArray(tag)` yields a mapping with the
    single key `tag` whose value is the struct's attributes, and `toXml(tag)`
    yields an element tagged `tag` carrying the same attributes. The struct's
    own attributes (name, description, ...) are kept opaque as a string map. */
module SoapStruct {

  /** The attribute mapping of one struct, as it appears under its tag. */
  type Attrs = map<string, string>

  /** One server statistic to ask for. */
  datatype Stat = Stat(attrs: Attrs)

  /** One XML element: its tag name and its attributes. */
  datatype XmlElement = XmlElement(tag: string, attrs: Attrs)

  /** The array form of a struct under tag name `tag`: exactly one key. */
  function ArrayForm(s: Stat, tag: string): (m: map<string, Attrs>)
    ensures m.Keys == {tag}
  {
    map[tag := s.attrs]
  }

  /** The XML form of a struct under tag name `tag`. */
  function XmlForm(s: Stat, tag: string): (e: XmlElement)
    ensures e.tag == tag
  {
    XmlElement(tag, s.attrs)
  }
}
