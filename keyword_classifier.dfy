/** The keyword classifier of the systematic-mapping filter: categories of
    search terms matched case-insensitively against the plain-text variants
    of the search fields, a verdict that requires every category to match,
    the CSV audit rows and the filtered collection. */
module KeywordClassifier {
  import opened Bibliography
  import opened TextMatch

  /** Prefix of the plain-text variant of a field. */
  const PlainPrefix := "plain_"

  /** The identifying columns that open every CSV row. */
  const IdentHeaders := ["id", "doi", "title", "abstract"]

  /** A CSV cell: an identifying text or one category's flag. */
  datatype CsvCell = Text(s: string) | Flag(b: bool)

  /** Whether `term` occurs in the value of `field`, ignoring case; a missing
      field (a caught KeyError) never matches. */
  function HasTerm(e: Entry, field: string, term: string): (r: bool)
    ensures r <==> field in e && Occurs(Fold(e[field]), Fold(term))
  {
    if field in e then
      ContainsIff(Fold(e[field]), Fold(term));
      Contains(Fold(e[field]), Fold(term))
    else false
  }

  /** The empty term matches every entry that has the field, even with an
      empty value. */
  lemma EmptyTermMatches(e: Entry, field: string)
    requires field in e
    ensures HasTerm(e, field, "")
  {
    assert OccursAt(Fold(e[field]), Fold(""), 0);
  }

  /** Matching ignores the case of the term and of the field value. */
  lemma HasTermIgnoresCase(e: Entry, field: string, term: string)
    ensures HasTerm(e, field, term) == HasTerm(e, field, Fold(term))
    ensures field in e ==> HasTerm(e, field, term) == HasTerm(e[field := Fold(e[field])], field, term)
  {
    FoldIdempotent(term);
    if field in e {
      FoldIdempotent(e[field]);
    }
  }

  /** The search configuration: the searched fields, the category names in
      insertion order, and each category's terms. */
  datatype Criteria = Criteria(fields: seq<string>, categories: seq<string>, terms: map<string, seq<string>>)

  ghost predicate WellFormed(c: Criteria)
  {
    && Distinct(c.categories)
    && (forall k :: k in c.terms <==> k in c.categories)
  }

  /** A category matches when some search field and some of its terms match,
      the field being looked up under its plain-text name. */
  ghost predicate CategoryMatches(e: Entry, fields: seq<string>, terms: seq<string>)
  {
    exists i, j :: 0 <= i < |fields| && 0 <= j < |terms| && HasTerm(e, PlainPrefix + fields[i], terms[j])
  }

  /** With no search field or no term, no category can match. */
  lemma NothingToSearch(e: Entry, fields: seq<string>, terms: seq<string>)
    requires fields == [] || terms == []
    ensures !CategoryMatches(e, fields, terms)
  {
  }

  /** Adding a search field never turns a match into a miss. */
  lemma MoreFieldsMatchMore(e: Entry, fields: seq<string>, terms: seq<string>, extra: string)
    requires CategoryMatches(e, fields, terms)
    ensures CategoryMatches(e, fields + [extra], terms)
  {
    var i, j :| 0 <= i < |fields| && 0 <= j < |terms| && HasTerm(e, PlainPrefix + fields[i], terms[j]);
    assert (fields + [extra])[i] == fields[i];
  }

  /** A category whose terms are all empty (the placeholders of the shipped
      configuration) matches exactly the entries that have the plain-text
      variant of some search field. */
  lemma EmptyTermsMatchAnyField(e: Entry, fields: seq<string>, terms: seq<string>)
    requires terms != [] && forall j :: 0 <= j < |terms| ==> terms[j] == ""
    ensures CategoryMatches(e, fields, terms) <==> exists i :: 0 <= i < |fields| && PlainPrefix + fields[i] in e
  {
    if i :| 0 <= i < |fields| && PlainPrefix + fields[i] in e {
      EmptyTermMatches(e, PlainPrefix + fields[i]);
      assert HasTerm(e, PlainPrefix + fields[i], terms[0]);
    }
  }

  /** The category flags of one entry, in category order. */
  ghost function Results(e: Entry, c: Criteria): seq<bool>
    requires WellFormed(c)
  {
    seq(|c.categories|, k requires 0 <= k < |c.categories| => CategoryMatches(e, c.fields, c.terms[c.categories[k]]))
  }

  /** The verdict: every category matches. */
  ghost predicate Accepted(e: Entry, c: Criteria)
    requires WellFormed(c)
  {
    forall k :: 0 <= k < |c.categories| ==> CategoryMatches(e, c.fields, c.terms[c.categories[k]])
  }

  /** The entries that reach the filtered collection, in input order. */
  ghost function Selected(es: seq<Entry>, c: Criteria): seq<Entry>
    requires WellFormed(c)
  {
    if es == [] then []
    else
      var last := es[|es| - 1];
      Selected(es[..|es| - 1], c) + (if Accepted(last, c) then [last] else [])
  }

  /** An entry is in the filtered collection iff it is an input entry whose
      verdict is true. */
  lemma {:induction false} SelectedMembers(es: seq<Entry>, c: Criteria, e: Entry)
    requires WellFormed(c)
    ensures e in Selected(es, c) <==> e in es && Accepted(e, c)
  {
    if es != [] {
      var prefix := es[..|es| - 1];
      SelectedMembers(prefix, c, e);
      assert es == prefix + [es[|es| - 1]];
    }
  }

  /** Each accepted input entry appears in the filtered collection as often
      as in the input, a rejected one not at all. */
  lemma {:induction false} SelectedCounts(es: seq<Entry>, c: Criteria, e: Entry)
    requires WellFormed(c)
    ensures multiset(Selected(es, c))[e] == if Accepted(e, c) then multiset(es)[e] else 0
  {
    if es != [] {
      var prefix := es[..|es| - 1];
      SelectedCounts(prefix, c, e);
      assert es == prefix + [es[|es| - 1]];
    }
  }

  /** The filter keeps the input order: filtering a concatenation is the
      concatenation of the filtered parts. */
  lemma {:induction false} SelectedAppend(a: seq<Entry>, b: seq<Entry>, c: Criteria)
    requires WellFormed(c)
    ensures Selected(a + b, c) == Selected(a, c) + Selected(b, c)
    decreases |b|
  {
    if b == [] {
      assert a + b == a;
    } else {
      var last := b[|b| - 1];
      var front := b[..|b| - 1];
      assert (a + b)[..|a + b| - 1] == a + front;
      SelectedAppend(a, front, c);
    }
  }

  /** Filtering one more entry of a prefix. */
  lemma SelectedStep(es: seq<Entry>, i: nat, c: Criteria)
    requires WellFormed(c) && i < |es|
    ensures Selected(es[..i + 1], c) == Selected(es[..i], c) + (if Accepted(es[i], c) then [es[i]] else [])
  {
    assert es[..i + 1][..i] == es[..i];
  }

  /** With no category the verdict holds vacuously and every entry is kept. */
  lemma {:induction false} NoCategoriesKeepsAll(es: seq<Entry>, c: Criteria)
    requires WellFormed(c) && c.categories == []
    ensures Selected(es, c) == es
  {
    if es != [] {
      NoCategoriesKeepsAll(es[..|es| - 1], c);
    }
  }

  /** The verdict over the category flags: true iff every flag is true. */
  method Verdict(results: seq<bool>) returns (verdict: bool)
    ensures verdict <==> forall k :: 0 <= k < |results| ==> results[k]
  {
    verdict := true;
    for k := 0 to |results|
      invariant verdict <==> forall m :: 0 <= m < k ==> results[m]
    {
      verdict := verdict && results[k];
    }
  }

  /** The shape of one CSV row: id, doi, title, abstract, then the flags.
      When the DOI or the plain abstract is missing, both of those cells are
      empty. */
  predicate IsCsvRow(row: seq<CsvCell>, e: Entry, results: seq<bool>)
    requires "ID" in e && "plain_title" in e
  {
    var full := "doi" in e && "plain_abstract" in e;
    && |row| == 4 + |results|
    && row[0] == Text(e["ID"])
    && row[1] == Text(if full then e["doi"] else "")
    && row[2] == Text(e["plain_title"])
    && row[3] == Text(if full then e["plain_abstract"] else "")
    && forall k :: 0 <= k < |results| ==> row[4 + k] == Flag(results[k])
  }

  /** Builds the CSV row of one entry from its category flags. */
  method CsvRow(e: Entry, results: seq<bool>) returns (row: seq<CsvCell>)
    requires "ID" in e && "plain_title" in e
    ensures IsCsvRow(row, e, results)
  {
    if "doi" in e && "plain_abstract" in e {
      row := [Text(e["ID"]), Text(e["doi"]), Text(e["plain_title"]), Text(e["plain_abstract"])];
    } else {
      row := [Text(e["ID"]), Text(""), Text(e["plain_title"]), Text("")];
    }
    for k := 0 to |results|
      invariant |row| == 4 + k
      invariant IsCsvRow(row, e, results[..k])
    {
      row := row + [Flag(results[k])];
    }
    assert results[..|results|] == results;
  }

  /** The search configuration of the mapping filter, updated in place. */
  class Classifier {
    var searchFields: seq<string>
    var categories: seq<string>
    var terms: map<string, seq<string>>

    ghost function Current(): Criteria
      reads this
    {
      Criteria(searchFields, categories, terms)
    }

    ghost predicate Valid()
      reads this
    {
      WellFormed(Current())
    }

    constructor ()
      ensures Valid() && Current() == Criteria([], [], map[])
    {
      searchFields, categories, terms := [], [], map[];
    }

    /** Appends a search field; order and duplicates are kept. */
    method AddSearchField(field: string)
      requires Valid()
      modifies this
      ensures Valid()
      ensures searchFields == old(searchFields) + [field]
      ensures categories == old(categories) && terms == old(terms)
    {
      searchFields := searchFields + [field];
    }

    /** Sets the terms of a category: a new category goes last, an existing
        one keeps its place and has its terms replaced. */
    method AddSearchTerms(category: string, categoryTerms: seq<string>)
      requires Valid()
      modifies this
      ensures Valid()
      ensures categories == if category in old(terms) then old(categories) else old(categories) + [category]
      ensures terms == old(terms)[category := categoryTerms]
      ensures searchFields == old(searchFields)
    {
      if category !in terms {
        categories := categories + [category];
      }
      terms := terms[category := categoryTerms];
    }

    /** One category's flag: OR over every search field and every term. */
    method CategoryResult(e: Entry, category: string) returns (found: bool)
      requires Valid() && category in terms
      ensures found == CategoryMatches(e, searchFields, terms[category])
    {
      var ts := terms[category];
      found := false;
      for i := 0 to |searchFields|
        invariant found <==> exists a, b :: 0 <= a < i && 0 <= b < |ts| && HasTerm(e, PlainPrefix + searchFields[a], ts[b])
      {
        ghost var before := found;
        for j := 0 to |ts|
          invariant found <==> before || exists b :: 0 <= b < j && HasTerm(e, PlainPrefix + searchFields[i], ts[b])
        {
          found := found || HasTerm(e, PlainPrefix + searchFields[i], ts[j]);
        }
      }
    }

    /** The flags of all categories, in category order. */
    method Classify(e: Entry) returns (results: seq<bool>)
      requires Valid()
      ensures results == Results(e, Current())
    {
      results := [];
      for k := 0 to |categories|
        invariant |results| == k
        invariant forall m :: 0 <= m < k ==> results[m] == CategoryMatches(e, searchFields, terms[categories[m]])
      {
        var flag := CategoryResult(e, categories[k]);
        results := results + [flag];
      }
    }

    /** The CSV header: the identifying columns, then the category names. */
    method CsvHeader() returns (header: seq<string>)
      requires Valid()
      ensures header == IdentHeaders + categories
    {
      header := IdentHeaders;
      for k := 0 to |categories|
        invariant header == IdentHeaders + categories[..k]
      {
        header := header + [categories[k]];
        assert categories[..k + 1] == categories[..k] + [categories[k]];
      }
      assert categories[..|categories|] == categories;
    }

    /** The loop body of the pass for one entry: its CSV row and its verdict. */
    method Process(e: Entry) returns (row: seq<CsvCell>, verdict: bool)
      requires Valid()
      requires "ID" in e && "plain_title" in e
      ensures IsCsvRow(row, e, Results(e, Current()))
      ensures verdict == Accepted(e, Current())
    {
      var results := Classify(e);
      verdict := Verdict(results);
      assert forall k :: 0 <= k < |categories| ==> results[k] == CategoryMatches(e, searchFields, terms[categories[k]]);
      row := CsvRow(e, results);
    }

    /** The whole pass: the CSV header, one CSV row per entry in input order,
        and the entries whose verdict is true. */
    method ApplyFilters(entries: seq<Entry>) returns (header: seq<string>, rows: seq<seq<CsvCell>>, filtered: seq<Entry>)
      requires Valid()
      requires forall i :: 0 <= i < |entries| ==> "ID" in entries[i] && "plain_title" in entries[i]
      ensures header == IdentHeaders + categories
      ensures |rows| == |entries|
      ensures forall i :: 0 <= i < |entries| ==> IsCsvRow(rows[i], entries[i], Results(entries[i], Current()))
      ensures filtered == Selected(entries, Current())
    {
      header := CsvHeader();
      rows, filtered := [], [];
      for i := 0 to |entries|
        invariant |rows| == i
        invariant forall m :: 0 <= m < i ==> IsCsvRow(rows[m], entries[m], Results(entries[m], Current()))
        invariant filtered == Selected(entries[..i], Current())
      {
        var row, verdict := Process(entries[i]);
        if verdict {
          filtered := filtered + [entries[i]];
        }
        rows := rows + [row];
        SelectedStep(entries, i, Current());
      }
      assert entries[..|entries|] == entries;
    }
  }

  /** A worked example: a population category found in the title and an
      outcome category that is not. */
  const StudyCriteria := Criteria(["title"], ["population", "outcome"], map["population" := ["children"], "outcome" := ["mortality"]])
  const StudyTitle := "Study of children"
  const StudyEntry: Entry := map["ID" := "s1", PlainPrefix + "title" := StudyTitle]

  /** A term that literally appears in a value is found in it. */
  lemma FoundVerbatim(value: string, term: string, i: nat)
    requires i + |term| <= |value| && value[i..i + |term|] == term
    ensures Occurs(Fold(value), Fold(term))
  {
    FoldSlice(value, i, i + |term|);
    assert OccursAt(Fold(value), Fold(term), i);
  }

  /** A term starting with a letter that the value lacks in both cases is
      not found in it. */
  lemma MissingInitial(value: string, term: string)
    requires term != [] && 'a' <= term[0] <= 'z'
    requires term[0] !in value && (term[0] as int - 32) as char !in value
    ensures !Occurs(Fold(value), Fold(term))
  {
    FoldMember(value, term[0]);
    AbsentFirst(Fold(value), Fold(term));
  }

  lemma StudyMatchesPopulation()
    ensures CategoryMatches(StudyEntry, ["title"], ["children"])
  {
    FoundVerbatim(StudyTitle, "children", 9);
    assert HasTerm(StudyEntry, PlainPrefix + ["title"][0], ["children"][0]);
  }

  lemma StudyMissesOutcome()
    ensures !CategoryMatches(StudyEntry, ["title"], ["mortality"])
  {
    assert ('m' as int - 32) as char == 'M';
    MissingInitial(StudyTitle, "mortality");
    assert !HasTerm(StudyEntry, PlainPrefix + ["title"][0], ["mortality"][0]);
  }

  lemma StudyCriteriaWellFormed()
    ensures WellFormed(StudyCriteria)
  {
    assert |"population"| != |"outcome"|;
  }

  lemma StudyTermsLookup()
    ensures StudyCriteria.terms[StudyCriteria.categories[0]] == ["children"]
    ensures StudyCriteria.terms[StudyCriteria.categories[1]] == ["mortality"]
  {
    assert |"population"| != |"outcome"|;
  }

  /** The example entry gets the flags true and false. */
  lemma StudyResults()
    ensures WellFormed(StudyCriteria)
    ensures Results(StudyEntry, StudyCriteria) == [true, false]
  {
    StudyCriteriaWellFormed();
    StudyTermsLookup();
    StudyMatchesPopulation();
    StudyMissesOutcome();
  }

  /** The example entry fails the verdict and is left out of the filtered
      collection. */
  lemma StudyIsFilteredOut()
    ensures WellFormed(StudyCriteria)
    ensures !Accepted(StudyEntry, StudyCriteria)
    ensures Selected([StudyEntry], StudyCriteria) == []
  {
    StudyCriteriaWellFormed();
    StudyTermsLookup();
    StudyMissesOutcome();
    assert [StudyEntry][..0] == [];
  }
}
