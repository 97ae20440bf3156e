# Bibliography field resolver and keyword classifier

A Dafny model of the two record-transformation passes of the systematic-review
tools. Both passes work over a bibliography that a BibTeX parser has already
read.

- **Field resolver** (`src/bib2fastread.py`). The fast-read exporter keeps an
  ordered table of output columns. Each column has a list of candidate source
  fields and a default value. For every entry it emits one CSV row. Each cell
  is the value of the first candidate field that is present and non-empty. A
  winning `doi` field becomes a `https://dx.doi.org/` link. When no candidate
  matches, the cell is the column's default.
- **Keyword classifier** (`src/systematic-mapping-filter.py`). The
  systematic-mapping filter keeps a list of search fields and, per category,
  a list of terms. For every entry it computes one flag per category. A flag
  is true when some term occurs, ignoring case, in the `plain_` variant of
  some search field. The verdict is the AND of all flags. Every entry gets a
  CSV row (`id, doi, title, abstract`, then the flags). Only entries with a
  true verdict go into the filtered collection, in input order.

Files:

- `bibliography.dfy` (module `Bibliography`): an entry is a `map<string,
  string>`, plus `Option`, `Distinct` and `Present`. `Present` is the source's
  "lookup succeeds and the value is truthy" test.
- `text_match.dfy` (module `TextMatch`): case folding (`Lower`, `Fold`) and
  substring search (`Contains`). `Contains` is proved equal to the
  positional definition `Occurs`, which is what Python's `in` on strings means.
- `field_resolver.dfy` (module `FieldResolver`): the column table (`Config`)
  and its registration function `Register`. The class `Resolver` holds the
  source's `fields` and `default_field_value` dictionaries and updates them in
  `AddField`. Its methods `ResolveCell`, `ResolveRow` and `Run` are the loops
  of `run`, proved against the specification function `FirstMatch`.
  `Configure` folds a sequence of registration calls. The lemmas about it
  state what a whole configuration sequence produces.
- `keyword_classifier.dfy` (module `KeywordClassifier`): `HasTerm`. The class
  `Classifier` holds `search_fields` and `search_terms` and has
  `AddSearchField` and `AddSearchTerms`. Its methods `CategoryResult`,
  `Classify`, `CsvHeader`, `Process` and `ApplyFilters` are the loops of
  `apply_filters`. They are specified by `CategoryMatches`, `Results`,
  `Accepted`, `Selected` and `IsCsvRow`. The module-level methods `Verdict`
  and `CsvRow` build the verdict and one CSV row.

Python dictionaries keep insertion order. Each one is modelled as a sequence
of keys (`headers`, `categories`) beside a map. Under `add_field`, the first
call for a header fixes its position and its default. Under
`add_search_terms`, assigning an existing category keeps its position.

What the code does in a few edge cases:

- No column is mandatory and there is no entry-type allow-set: every entry
  yields a row.
- An empty term matches a present field even when its value is empty, because
  `'' in ''` is true in Python.
- The terms of a category are kept as the list that was passed, with its
  order and duplicates.
- A year read from BibTeX is a string, so the year cell is `Text("2020")`.
  Only the year column's default, the integer `0`, is a `Number`.

## Model

| member | source | states |
|---|---|---|
| FieldResolver.Register | src/bib2fastread.py:20-25 | A new header is appended to the header order, with the given default and an empty candidate list. A repeated header keeps its position and its original default. The candidates, if any (none for `None`), are appended to that header's list. Every other header is unchanged. The table stays well formed. |
| FieldResolver.Resolver.AddField | src/bib2fastread.py:20-25 | The new state of the column table equals `Register` applied to the old one. |
| FieldResolver.ConfigureHeaders | src/bib2fastread.py:41-42 | After any sequence of registrations, a name is a header of the table (and so of the header row) iff some call registered it. |
| FieldResolver.ConfigureOrder | src/bib2fastread.py:41-42 | Headers appear in the order of their first registration: an earlier header was first registered by an earlier call. |
| FieldResolver.ConfigureDefault | src/bib2fastread.py:21-23 | Every header's default is the one passed by the first call that registered it. Later calls never change it. |
| FieldResolver.ConfigureFields | src/bib2fastread.py:24-25 | Every header's candidate list is the concatenation, in call order, of the candidates of all calls for that header. A `None` contributes nothing. |
| FieldResolver.FirstCall | src/bib2fastread.py:21-23 | For a registered header, this is the index of the first call that names it: that call names it and no earlier call does. |
| FieldResolver.FirstMatchWinner | src/bib2fastread.py:46-55 | When candidate k is present and non-empty and no earlier candidate is, candidate k decides the cell. If it is `doi`, the cell is `https://dx.doi.org/` + its value; otherwise it is the value itself. Missing and empty candidates are skipped. |
| FieldResolver.FirstMatchDefault | src/bib2fastread.py:56-57 | When no candidate is present and non-empty, the cell is the header's default. This includes a header with no candidates at all. |
| FieldResolver.FirstMatchSource | src/bib2fastread.py:46-57 | A cell that differs from the default comes from the first present, non-empty candidate. |
| FieldResolver.Resolver.ResolveCell | src/bib2fastread.py:46-57 | The candidate scan, with its early exit and its fallback to the default when the scan finishes, returns exactly `FirstMatch` of the header's candidates and default. |
| FieldResolver.Resolver.ResolveRow | src/bib2fastread.py:44-57 | A row has exactly one cell per registered header, in header order. Cell k is `FirstMatch` for header k. |
| FieldResolver.Resolver.Run | src/bib2fastread.py:41-58 | The header row is the registered header order. There is one row per input entry, in input order. Each row is that entry's resolved row. |
| FieldResolver.RegisterFresh | src/bib2fastread.py:20-25 | Registering a header not yet in the table appends it, with exactly the call's candidates and default. |
| FieldResolver.ConfigureDistinct | src/bib2fastread.py:20-25 | When every call names a different header, column k is call k's header, with exactly that call's candidates and default. |
| FieldResolver.FastReadTable | src/bib2fastread.py:67-71 | The five standard `add_field` calls give the columns `Document Title`, `Abstract`, `Year`, `PDF Link` and `label`, in that order. Each column has its own call's candidates and default. |
| FieldResolver.DeepLearningLookups | src/bib2fastread.py:67-71 | The standard candidate lists and defaults turn an entry with a title, an empty abstract, a year and a DOI into the title, the empty default, the year, the DOI link and `no`. |
| FieldResolver.DeepLearningCells | src/bib2fastread.py:41-71 | The table built by the five standard calls turns that entry into those five cells, in that column order. |
| TextMatch.Fold | src/systematic-mapping-filter.py:24 | Folding keeps the length and lower-cases each character independently. |
| TextMatch.FoldIdempotent | src/systematic-mapping-filter.py:24 | Folding twice is the same as folding once. |
| TextMatch.ContainsIff | src/systematic-mapping-filter.py:24 | The left-to-right scan finds the pattern iff it occurs at some position of the string. This is the meaning of `in` on strings. |
| KeywordClassifier.HasTerm | src/systematic-mapping-filter.py:22-28 | True iff the field is in the entry and the folded term occurs in the folded value. A missing field gives false, not an error. |
| KeywordClassifier.EmptyTermMatches | src/systematic-mapping-filter.py:24 | The empty term matches every entry in which the field is present, even when the value is empty. |
| KeywordClassifier.HasTermIgnoresCase | src/systematic-mapping-filter.py:24 | The result does not change when the term or the field value is replaced by its folded form. |
| KeywordClassifier.Classifier.AddSearchField | src/systematic-mapping-filter.py:30-31 | The field is appended to the search fields. Order and duplicates are kept, and the categories are unchanged. |
| KeywordClassifier.Classifier.AddSearchTerms | src/systematic-mapping-filter.py:33-34 | A new category is appended. An existing one keeps its position and has its term list replaced. The search fields are unchanged. |
| KeywordClassifier.Classifier.CategoryResult | src/systematic-mapping-filter.py:60-63 | The OR over all search fields and all of the category's terms of `HasTerm` on the `plain_` field equals `CategoryMatches`. |
| KeywordClassifier.NothingToSearch | src/systematic-mapping-filter.py:60-63 | With no search fields or no terms, a category's result is false. |
| KeywordClassifier.MoreFieldsMatchMore | src/systematic-mapping-filter.py:30-31 | Appending a search field never turns a category match into a miss. |
| KeywordClassifier.EmptyTermsMatchAnyField | src/systematic-mapping-filter.py:95-98 | A category whose terms are all empty, like the shipped placeholder configuration, matches iff the entry has the `plain_` variant of some search field. |
| KeywordClassifier.Classifier.Classify | src/systematic-mapping-filter.py:58-63 | The flags are one boolean per category, in category order; flag k is `CategoryMatches` for category k. |
| KeywordClassifier.Verdict | src/systematic-mapping-filter.py:65-67 | The verdict is true iff every flag is true. With no flags it is true. |
| KeywordClassifier.CsvRow | src/systematic-mapping-filter.py:70-75 | The row is id, doi, title and abstract, then the flags in order. When `doi` or `plain_abstract` is missing, the doi and abstract cells are both empty. |
| KeywordClassifier.Classifier.CsvHeader | src/systematic-mapping-filter.py:53-56 | The header is `id, doi, title, abstract` followed by the category names in category order. |
| KeywordClassifier.Classifier.Process | src/systematic-mapping-filter.py:58-75 | For one entry, gives its CSV row built from its category flags, and a verdict equal to `Accepted`. |
| KeywordClassifier.Classifier.ApplyFilters | src/systematic-mapping-filter.py:53-76 | The CSV header comes first. There is one CSV row per entry, in input order, whatever the verdict. The filtered collection is exactly `Selected`. |
| KeywordClassifier.SelectedMembers | src/systematic-mapping-filter.py:68-69 | An entry is in the filtered collection iff it is an input entry with a true verdict. |
| KeywordClassifier.SelectedCounts | src/systematic-mapping-filter.py:68-69 | Each accepted input occurrence appears in the filtered collection exactly once. Rejected entries do not appear. |
| KeywordClassifier.SelectedAppend | src/systematic-mapping-filter.py:57-69 | Filtering keeps input order: filtering a concatenation gives the concatenation of the filtered parts. |
| KeywordClassifier.NoCategoriesKeepsAll | src/systematic-mapping-filter.py:65-69 | With no categories the verdict is vacuously true and every entry is kept. |
| KeywordClassifier.FoundVerbatim | src/systematic-mapping-filter.py:24 | A term that appears literally in a value is found in it. |
| KeywordClassifier.MissingInitial | src/systematic-mapping-filter.py:24 | A term whose first letter is absent from the value, in both cases, is not found. |
| KeywordClassifier.StudyResults | src/systematic-mapping-filter.py:58-63 | With categories population `children` and outcome `mortality` searched in the title, the entry titled "Study of children" gets the flags true, false. |
| KeywordClassifier.StudyIsFilteredOut | src/systematic-mapping-filter.py:65-69 | That entry fails the verdict and is not in the filtered collection. |

## Left out

- BibTeX parsing, including the plain-text customisation that adds the
  `plain_*` fields. Entries arrive as maps that already hold those fields.
- CSV encoding and quoting, and BibTeX writing with its indent. The model stops
  at rows as sequences of cells and at the filtered list of entries.
- Rewriting the filtered `.bib` file after every entry. This is file I/O.
  When there is at least one entry, the last write holds the final filtered
  collection, which the model returns. With no entries, no filtered file is
  written at all, so an earlier file survives, while `ApplyFilters` returns
  `[]`.
- All file opening, the command-line `__main__` blocks (argument handling,
  file-name splitting) and the setter methods for file names. The shipped
  configurations appear only as the scenario lemmas `FastReadTable`,
  `DeepLearningCells` and
  `EmptyTermsMatchAnyField`.
- Fold: lower-cases only the ASCII letters A-Z. Python's `casefold` uses full
  Unicode case folding (for example `ß` becomes `ss`), which is not modelled.
- KeywordClassifier.CsvRow: requires `ID` and `plain_title` to be present. When
  they are missing, the source's fallback row raises an uncaught KeyError, and
  that crash is not modelled.
- KeywordClassifier.Classifier.ApplyFilters: requires `ID` and `plain_title`
  in every entry, for the same reason as `CsvRow`.
- `add_field` with a candidate argument that is a string rather than a list.
  Python's `+=` would split such a string into characters. The model takes a
  list or `None`.
- `add_search_terms` with a term argument that is a string rather than a
  list. The source stores the string, and the search loop (line 61 of
  `src/systematic-mapping-filter.py`) then takes its characters as terms.
  The model takes a list of terms.
- Entry values are strings, as the parser produces. The truthiness test
  `if entry[field]` is therefore "non-empty".
