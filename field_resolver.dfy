/** The field resolver of the fast-read exporter: an ordered table of output
    columns, each with candidate source fields and a default, and the pass
    that turns every bibliography entry into one row of cells. */
module FieldResolver {
  import opened Bibliography

  /** Prefix that turns a DOI into a resolver link. */
  const DoiPrefix := "https://dx.doi.org/"

  /** A cell of an output row: a field value, or a default that need not be
      a string (the year column defaults to the integer 0). */
  datatype Cell = Text(s: string) | Number(n: int)

  /** The arguments of one registration call: header, candidate fields
      (possibly None) and default value. */
  datatype FieldCall = FieldCall(header: string, fields: Option<seq<string>>, default: Cell)

  /** The column table: header names in first-registration order (the key
      order of the source's dictionaries), candidate lists and defaults. */
  datatype Config = Config(headers: seq<string>, fields: map<string, seq<string>>, defaults: map<string, Cell>)

  const Empty := Config([], map[], map[])

  /** The header order lists each key of both maps exactly once. */
  ghost predicate WellFormed(c: Config)
  {
    && Distinct(c.headers)
    && (forall h :: h in c.fields <==> h in c.headers)
    && c.fields.Keys == c.defaults.Keys
  }

  function CandidatesOf(call: FieldCall): seq<string>
  {
    match call.fields
    case None => []
    case Some(fs) => fs
  }

  /** Effect of one registration: a new header is appended with an empty
      candidate list and the given default; then the candidates, if any, are
      appended to that header's list. */
  function Register(c: Config, call: FieldCall): (r: Config)
    requires WellFormed(c)
    ensures WellFormed(r)
    ensures r.headers == if call.header in c.fields then c.headers else c.headers + [call.header]
    ensures r.defaults[call.header] == if call.header in c.defaults then c.defaults[call.header] else call.default
    ensures r.fields[call.header] == (if call.header in c.fields then c.fields[call.header] else []) + CandidatesOf(call)
    ensures forall h :: h in c.fields && h != call.header ==> r.fields[h] == c.fields[h] && r.defaults[h] == c.defaults[h]
  {
    var h := call.header;
    var c1 := if h in c.fields then c
              else Config(c.headers + [h], c.fields[h := []], c.defaults[h := call.default]);
    match call.fields
    case None => c1
    case Some(fs) => c1.(fields := c1.fields[h := c1.fields[h] + fs])
  }

  /** The table that a sequence of registration calls builds from nothing. */
  function Configure(calls: seq<FieldCall>): (c: Config)
    ensures WellFormed(c)
  {
    if calls == [] then Empty else Register(Configure(calls[..|calls| - 1]), calls[|calls| - 1])
  }

  /** Some call registers header `h`. */
  ghost predicate Declares(calls: seq<FieldCall>, h: string)
  {
    exists i :: 0 <= i < |calls| && calls[i].header == h
  }

  /** Index of the first call that registers `h`. */
  function FirstCall(calls: seq<FieldCall>, h: string): (k: nat)
    requires Declares(calls, h)
    ensures k < |calls| && calls[k].header == h
    ensures forall j :: 0 <= j < k ==> calls[j].header != h
  {
    if calls[0].header == h then 0
    else
      assert Declares(calls[1..], h) by {
        var i :| 0 <= i < |calls| && calls[i].header == h;
        assert calls[1..][i - 1].header == h;
      }
      1 + FirstCall(calls[1..], h)
  }

  /** All candidates passed for `h`, in call order. */
  function AllCandidates(calls: seq<FieldCall>, h: string): seq<string>
  {
    if calls == [] then []
    else
      var last := calls[|calls| - 1];
      AllCandidates(calls[..|calls| - 1], h) + (if last.header == h then CandidatesOf(last) else [])
  }

  /** A sequence of calls declares `h` iff its prefix does or its last call does. */
  lemma DeclaresSnoc(calls: seq<FieldCall>, h: string)
    requires calls != []
    ensures Declares(calls, h) <==> Declares(calls[..|calls| - 1], h) || calls[|calls| - 1].header == h
  {
    var prefix := calls[..|calls| - 1];
    if Declares(prefix, h) {
      var i :| 0 <= i < |prefix| && prefix[i].header == h;
      assert calls[i].header == h;
    }
    if Declares(calls, h) && calls[|calls| - 1].header != h {
      var i :| 0 <= i < |calls| && calls[i].header == h;
      assert prefix[i].header == h;
    }
  }

  /** The headers of a configured table are exactly the registered ones. */
  lemma {:induction false} ConfigureHeaders(calls: seq<FieldCall>, h: string)
    ensures h in Configure(calls).headers <==> Declares(calls, h)
  {
    if calls != [] {
      var prefix := calls[..|calls| - 1];
      var last := calls[|calls| - 1];
      var before := Configure(prefix);
      var after := Register(before, last);
      assert Configure(calls) == after;
      ConfigureHeaders(prefix, h);
      DeclaresSnoc(calls, h);
      assert h in after.headers <==> h in before.headers || h == last.header;
    }
  }

  /** The headers appear in the order of their first registration. */
  lemma {:induction false} ConfigureOrder(calls: seq<FieldCall>, i: nat, j: nat)
    requires i < j < |Configure(calls).headers|
    ensures Declares(calls, Configure(calls).headers[i]) && Declares(calls, Configure(calls).headers[j])
    ensures FirstCall(calls, Configure(calls).headers[i]) < FirstCall(calls, Configure(calls).headers[j])
  {
    var hs := Configure(calls).headers;
    ConfigureHeaders(calls, hs[i]);
    ConfigureHeaders(calls, hs[j]);
    var prefix := calls[..|calls| - 1];
    var before := Configure(prefix).headers;
    assert hs[i] == before[i];
    ConfigureHeaders(prefix, hs[i]);
    FirstCallOfPrefix(calls, hs[i]);
    if j < |before| {
      assert hs[j] == before[j];
      ConfigureOrder(prefix, i, j);
      ConfigureHeaders(prefix, hs[j]);
      FirstCallOfPrefix(calls, hs[j]);
    } else {
      // the last call appended hs[j], which no earlier call declared
      ConfigureHeaders(prefix, hs[j]);
      FirstCallIsLast(calls);
    }
  }

  /** A header declared before the last call keeps its first call. */
  lemma FirstCallOfPrefix(calls: seq<FieldCall>, h: string)
    requires calls != [] && Declares(calls[..|calls| - 1], h)
    ensures Declares(calls, h) && FirstCall(calls, h) == FirstCall(calls[..|calls| - 1], h)
  {
    var prefix := calls[..|calls| - 1];
    var k := FirstCall(prefix, h);
    assert calls[k].header == h;
    var m := FirstCall(calls, h);
    assert m <= k;
    assert prefix[m].header == h;
  }

  /** No call before the last declares a header the prefix does not declare. */
  lemma NotDeclaredBefore(calls: seq<FieldCall>, h: string)
    requires calls != [] && !Declares(calls[..|calls| - 1], h)
    ensures forall j :: 0 <= j < |calls| - 1 ==> calls[j].header != h
  {
    forall j | 0 <= j < |calls| - 1
      ensures calls[j].header != h
    {
      assert calls[..|calls| - 1][j] == calls[j];
    }
  }

  /** A header declared only by the last call. */
  lemma LastDeclares(calls: seq<FieldCall>, h: string)
    requires Declares(calls, h) && !Declares(calls[..|calls| - 1], h)
    ensures calls[|calls| - 1].header == h
  {
    NotDeclaredBefore(calls, h);
  }

  /** A header first declared by the last call has that call as its first. */
  lemma FirstCallIsLast(calls: seq<FieldCall>)
    requires calls != [] && !Declares(calls[..|calls| - 1], calls[|calls| - 1].header)
    ensures Declares(calls, calls[|calls| - 1].header)
    ensures FirstCall(calls, calls[|calls| - 1].header) == |calls| - 1
  {
    var n := |calls|;
    var h := calls[n - 1].header;
    assert calls[n - 1].header == h;
    NotDeclaredBefore(calls, h);
  }

  /** Every header keeps the default given by the call that first registered it. */
  lemma {:induction false} ConfigureDefault(calls: seq<FieldCall>, h: string)
    requires Declares(calls, h)
    ensures h in Configure(calls).defaults
    ensures Configure(calls).defaults[h] == calls[FirstCall(calls, h)].default
  {
    var n := |calls|;
    var prefix := calls[..n - 1];
    var before := Configure(prefix);
    assert Configure(calls) == Register(before, calls[n - 1]);
    ConfigureHeaders(prefix, h);
    if Declares(prefix, h) {
      ConfigureDefault(prefix, h);
      FirstCallOfPrefix(calls, h);
      var k := FirstCall(prefix, h);
      assert prefix[k] == calls[k];
    } else {
      LastDeclares(calls, h);
      FirstCallIsLast(calls);
    }
  }

  /** Every header's candidate list is the concatenation of the candidates of
      all the calls for it, in call order. */
  lemma {:induction false} ConfigureFields(calls: seq<FieldCall>, h: string)
    requires Declares(calls, h)
    ensures h in Configure(calls).fields
    ensures Configure(calls).fields[h] == AllCandidates(calls, h)
  {
    var prefix := calls[..|calls| - 1];
    var last := calls[|calls| - 1];
    var before := Configure(prefix);
    var after := Register(before, last);
    assert Configure(calls) == after;
    var added := if last.header == h then CandidatesOf(last) else [];
    assert AllCandidates(calls, h) == AllCandidates(prefix, h) + added;
    ConfigureHeaders(prefix, h);
    if Declares(prefix, h) {
      ConfigureFields(prefix, h);
      assert after.fields[h] == before.fields[h] + added;
    } else {
      LastDeclares(calls, h);
      NoCandidatesBeforeDeclared(prefix, h);
      assert after.fields[h] == [] + added;
    }
  }

  /** A header that no call registers has collected no candidates. */
  lemma {:induction false} NoCandidatesBeforeDeclared(calls: seq<FieldCall>, h: string)
    requires !Declares(calls, h)
    ensures AllCandidates(calls, h) == []
  {
    if calls != [] {
      var prefix := calls[..|calls| - 1];
      NoCandidatesBeforeDeclared(prefix, h);
    }
  }

  /** The value a winning candidate contributes: a DOI becomes a link, any
      other field is copied verbatim. */
  function Resolve(field: string, value: string): Cell
  {
    if field == "doi" then Text(DoiPrefix + value) else Text(value)
  }

  /** The cell of one column: the first present candidate wins; with none,
      the column's default. */
  function FirstMatch(e: Entry, cands: seq<string>, default: Cell): Cell
  {
    if cands == [] then default
    else if Present(e, cands[0]) then Resolve(cands[0], e[cands[0]])
    else FirstMatch(e, cands[1..], default)
  }

  /** The candidate at `k` wins when it is present and no earlier one is; a
      winning `doi` gives a resolver link, any other winner its own value. */
  lemma {:induction false} FirstMatchWinner(e: Entry, cands: seq<string>, default: Cell, k: nat)
    requires k < |cands| && Present(e, cands[k])
    requires forall j :: 0 <= j < k ==> !Present(e, cands[j])
    ensures FirstMatch(e, cands, default)
            == if cands[k] == "doi" then Text(DoiPrefix + e[cands[k]]) else Text(e[cands[k]])
  {
    if k > 0 {
      FirstMatchWinner(e, cands[1..], default, k - 1);
    }
  }

  /** With no present candidate, the default is used. */
  lemma {:induction false} FirstMatchDefault(e: Entry, cands: seq<string>, default: Cell)
    requires forall j :: 0 <= j < |cands| ==> !Present(e, cands[j])
    ensures FirstMatch(e, cands, default) == default
  {
    if cands != [] {
      FirstMatchDefault(e, cands[1..], default);
    }
  }

  /** A cell that differs from the default comes from some present candidate
      that no earlier candidate pre-empts. */
  lemma {:induction false} FirstMatchSource(e: Entry, cands: seq<string>, default: Cell)
    requires FirstMatch(e, cands, default) != default
    ensures exists k :: 0 <= k < |cands| && Present(e, cands[k])
                        && (forall j :: 0 <= j < k ==> !Present(e, cands[j]))
                        && FirstMatch(e, cands, default) == Resolve(cands[k], e[cands[k]])
  {
    if !Present(e, cands[0]) {
      FirstMatchSource(e, cands[1..], default);
      var k :| 0 <= k < |cands[1..]| && Present(e, cands[1..][k])
               && (forall j :: 0 <= j < k ==> !Present(e, cands[1..][j]))
               && FirstMatch(e, cands[1..], default) == Resolve(cands[1..][k], e[cands[1..][k]]);
      assert forall j :: 0 < j < k + 1 ==> cands[j] == cands[1..][j - 1];
    } else {
      assert Present(e, cands[0]);
    }
  }

  /** Skipping an absent candidate does not change the outcome. */
  lemma FirstMatchSkip(e: Entry, cands: seq<string>, default: Cell, i: nat)
    requires i < |cands| && !Present(e, cands[i])
    ensures FirstMatch(e, cands[i..], default) == FirstMatch(e, cands[i + 1..], default)
  {
    assert cands[i..][1..] == cands[i + 1..];
  }

  /** The column table of the fast-read exporter, updated in place by AddField. */
  class Resolver {
    var headers: seq<string>
    var fields: map<string, seq<string>>
    var defaults: map<string, Cell>

    ghost function Current(): Config
      reads this
    {
      Config(headers, fields, defaults)
    }

    ghost predicate Valid()
      reads this
    {
      WellFormed(Current())
    }

    constructor ()
      ensures Valid() && Current() == Empty
    {
      headers, fields, defaults := [], map[], map[];
    }

    /** Registers `header` on its first call (with `default`), then appends
        the candidates, if any. */
    method AddField(header: string, candidates: Option<seq<string>>, default: Cell)
      requires Valid()
      modifies this
      ensures Valid()
      ensures Current() == Register(old(Current()), FieldCall(header, candidates, default))
    {
      if header !in fields {
        fields := fields[header := []];
        defaults := defaults[header := default];
        headers := headers + [header];
      }
      if candidates.Some? {
        fields := fields[header := fields[header] + candidates.value];
      }
    }

    /** One column of one row: scan the candidates, stop at the first
        present one, else fall back to the default. */
    method ResolveCell(entry: Entry, header: string) returns (cell: Cell)
      requires Valid() && header in fields
      ensures cell == FirstMatch(entry, fields[header], defaults[header])
    {
      var cands := fields[header];
      var i := 0;
      var found: Option<Cell> := None;
      while i < |cands| && found.None?
        invariant 0 <= i <= |cands|
        invariant found.None? ==> FirstMatch(entry, cands, defaults[header]) == FirstMatch(entry, cands[i..], defaults[header])
        invariant found.Some? ==> found.value == FirstMatch(entry, cands, defaults[header])
        decreases |cands| - i, found.None?
      {
        var field := cands[i];
        if field in entry && entry[field] != "" {
          if field == "doi" {
            found := Some(Text(DoiPrefix + entry[field]));
          } else {
            found := Some(Text(entry[field]));
          }
        } else {
          FirstMatchSkip(entry, cands, defaults[header], i);
          i := i + 1;
        }
      }
      // the loop ran to the end without a break: use the default
      cell := if found.Some? then found.value else defaults[header];
    }

    /** The row of one entry: one cell per registered header, in header order. */
    method ResolveRow(entry: Entry) returns (row: seq<Cell>)
      requires Valid()
      ensures |row| == |headers|
      ensures forall k :: 0 <= k < |headers| ==> row[k] == FirstMatch(entry, fields[headers[k]], defaults[headers[k]])
    {
      row := [];
      for k := 0 to |headers|
        invariant |row| == k
        invariant forall m :: 0 <= m < k ==> row[m] == FirstMatch(entry, fields[headers[m]], defaults[headers[m]])
      {
        var cell := ResolveCell(entry, headers[k]);
        row := row + [cell];
      }
    }

    /** The header row and one row per entry, in entry order. */
    method Run(entries: seq<Entry>) returns (headerRow: seq<string>, rows: seq<seq<Cell>>)
      requires Valid()
      ensures headerRow == headers
      ensures |rows| == |entries|
      ensures forall i :: 0 <= i < |entries| ==> |rows[i]| == |headers|
      ensures forall i, k :: 0 <= i < |entries| && 0 <= k < |headers| ==>
                rows[i][k] == FirstMatch(entries[i], fields[headers[k]], defaults[headers[k]])
    {
      headerRow := headers;
      rows := [];
      for i := 0 to |entries|
        invariant |rows| == i
        invariant forall m :: 0 <= m < i ==> |rows[m]| == |headers|
        invariant forall m, k :: 0 <= m < i && 0 <= k < |headers| ==>
                    rows[m][k] == FirstMatch(entries[m], fields[headers[k]], defaults[headers[k]])
      {
        var row := ResolveRow(entries[i]);
        rows := rows + [row];
      }
    }
  }

  /** The five registrations of the exporter's standard columns. */
  const FastReadCalls := [
    FieldCall("Document Title", Some(["title"]), Text("")),
    FieldCall("Abstract", Some(["abstract"]), Text("")),
    FieldCall("Year", Some(["year"]), Number(0)),
    FieldCall("PDF Link", Some(["doi", "url"]), Text("")),
    FieldCall("label", Some(["paper_is_selected"]), Text("no"))]

  const FastReadHeaders := ["Document Title", "Abstract", "Year", "PDF Link", "label"]

  /** Registering a header that is not yet in the table appends it with the
      call's own candidates and default. */
  lemma RegisterFresh(c: Config, call: FieldCall)
    requires WellFormed(c) && call.header !in c.fields
    ensures Register(c, call)
            == Config(c.headers + [call.header], c.fields[call.header := CandidatesOf(call)],
                      c.defaults[call.header := call.default])
  {
    match call.fields
    case None =>
      assert CandidatesOf(call) == [];
    case Some(fs) =>
      var h := call.header;
      assert [] + fs == fs;
      assert c.fields[h := []][h := [] + fs] == c.fields[h := fs];
  }

  /** When every call names a different header, column k is call k's header,
      with exactly that call's candidates and default. */
  lemma {:induction false} ConfigureDistinct(calls: seq<FieldCall>)
    requires forall i, j :: 0 <= i < j < |calls| ==> calls[i].header != calls[j].header
    ensures var c := Configure(calls);
            && |c.headers| == |calls|
            && forall k :: 0 <= k < |calls| ==>
                 && c.headers[k] == calls[k].header
                 && c.fields[calls[k].header] == CandidatesOf(calls[k])
                 && c.defaults[calls[k].header] == calls[k].default
  {
    if calls != [] {
      var m := |calls| - 1;
      var prefix := calls[..m];
      ConfigureDistinct(prefix);
      var before := Configure(prefix);
      assert calls[m].header !in before.fields by {
        forall k | 0 <= k < m ensures before.headers[k] != calls[m].header {
          assert before.headers[k] == prefix[k].header == calls[k].header;
        }
      }
      RegisterFresh(before, calls[m]);
      var after := Configure(calls);
      assert after == Register(before, calls[m]);
      forall k | 0 <= k < |calls|
        ensures after.headers[k] == calls[k].header
        ensures after.fields[calls[k].header] == CandidatesOf(calls[k])
        ensures after.defaults[calls[k].header] == calls[k].default
      {
        if k < m {
          assert prefix[k] == calls[k];
        }
      }
    }
  }

  /** The standard registrations name five different headers. */
  lemma FastReadHeadersDistinct()
    ensures forall i, j :: 0 <= i < j < |FastReadCalls| ==> FastReadCalls[i].header != FastReadCalls[j].header
    ensures forall k :: 0 <= k < |FastReadCalls| ==> FastReadCalls[k].header == FastReadHeaders[k]
  {
  }

  /** The standard registrations give the five columns in call order, each
      with the candidates and the default of its own call. */
  lemma FastReadTable()
    ensures var c := Configure(FastReadCalls);
            && c.headers == FastReadHeaders
            && forall k :: 0 <= k < |FastReadCalls| ==>
                 && c.fields[FastReadHeaders[k]] == CandidatesOf(FastReadCalls[k])
                 && c.defaults[FastReadHeaders[k]] == FastReadCalls[k].default
  {
    FastReadHeadersDistinct();
    ConfigureDistinct(FastReadCalls);
  }

  /** An entry with a title, an empty abstract, a year and a DOI, but no
      selection flag. */
  const DeepLearningEntry: Entry := map["title" := "Deep Learning", "abstract" := "", "year" := "2020", "doi" := "10.2/ab"]

  /** The standard columns' candidate lists and defaults applied to that entry. */
  lemma DeepLearningLookups()
    ensures FirstMatch(DeepLearningEntry, ["title"], Text("")) == Text("Deep Learning")
    ensures FirstMatch(DeepLearningEntry, ["abstract"], Text("")) == Text("")
    ensures FirstMatch(DeepLearningEntry, ["year"], Number(0)) == Text("2020")
    ensures FirstMatch(DeepLearningEntry, ["doi", "url"], Text("")) == Text("https://dx.doi.org/10.2/ab")
    ensures FirstMatch(DeepLearningEntry, ["paper_is_selected"], Text("no")) == Text("no")
  {
  }

  /** The table built by the standard registrations turns that entry into the
      title, the empty abstract default, the year, the DOI link and the label
      default, in that column order. */
  lemma DeepLearningCells()
    ensures var c := Configure(FastReadCalls);
            && |c.headers| == 5
            && FirstMatch(DeepLearningEntry, c.fields[c.headers[0]], c.defaults[c.headers[0]]) == Text("Deep Learning")
            && FirstMatch(DeepLearningEntry, c.fields[c.headers[1]], c.defaults[c.headers[1]]) == Text("")
            && FirstMatch(DeepLearningEntry, c.fields[c.headers[2]], c.defaults[c.headers[2]]) == Text("2020")
            && FirstMatch(DeepLearningEntry, c.fields[c.headers[3]], c.defaults[c.headers[3]]) == Text("https://dx.doi.org/10.2/ab")
            && FirstMatch(DeepLearningEntry, c.fields[c.headers[4]], c.defaults[c.headers[4]]) == Text("no")
  {
    FastReadTable();
    DeepLearningLookups();
    var c := Configure(FastReadCalls);
    assert c.fields[c.headers[0]] == ["title"] && c.defaults[c.headers[0]] == Text("");
    assert c.fields[c.headers[1]] == ["abstract"] && c.defaults[c.headers[1]] == Text("");
    assert c.fields[c.headers[2]] == ["year"] && c.defaults[c.headers[2]] == Number(0);
    assert c.fields[c.headers[3]] == ["doi", "url"] && c.defaults[c.headers[3]] == Text("");
    assert c.fields[c.headers[4]] == ["paper_is_selected"] && c.defaults[c.headers[4]] == Text("no");
  }
}
