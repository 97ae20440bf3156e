/** Values shared by both passes: a parsed bibliography record and an optional value. */
module Bibliography {

  /** One parsed BibTeX record: field name to field value. The parser has
      already added the plain-text `plain_*` variants of the text fields. */
  type Entry = map<string, string>

  datatype Option<+T> = None | Some(value: T)

  /** No name occurs twice: the keys of an insertion-ordered dictionary. */
  predicate Distinct(s: seq<string>)
  {
    forall i, j :: 0 <= i < j < |s| ==> s[i] != s[j]
  }

  /** A field counts as present when the lookup succeeds and the value is
      truthy, i.e. a non-empty string; a missing key (a caught KeyError) and
      an empty value are both absent. */
  predicate Present(e: Entry, field: string)
  {
    field in e && e[field] != ""
  }
}
