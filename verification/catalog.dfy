/**
 * The resource catalog as the mobile export sees it: a sequence of resource
 * entities, each declaring languages and holding entries; each entry has a key,
 * the languages it is present in, and a per-language value lookup.
 */
module Catalog {
  import opened Wrappers

  /** The locale code that stands for a language without a culture. */
  const Neutral: string := "neutral"

  /**
   * A language's culture, already resolved to its two-letter ISO code;
   * None is the neutral language (a null culture).
   */
  type Culture = Option<string>

  /**
   * A resource entry. `values` is the value lookup: a culture that is not a key
   * of the map has no value (the lookup returns null).
   */
  datatype Entry = Entry(key: string, languages: seq<Culture>, values: map<Culture, string>)

  /** A resource entity: the languages it declares and its entries, in order. */
  datatype Entity = Entity(languages: seq<Culture>, entries: seq<Entry>)

  /** The resource manager's entities, in enumeration order. */
  type ResourceCatalog = seq<Entity>

  /** The two-letter name of the culture, or "neutral" for a null culture. */
  function LocaleCode(c: Culture): string
  {
    match c
    case None => Neutral
    case Some(code) => code
  }

  /** The entry's value for a culture, with a missing (null) value read as "". */
  function ValueOf(e: Entry, c: Culture): string
  {
    if c in e.values then e.values[c] else ""
  }
}
