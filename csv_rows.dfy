/** Column validation and row normalisation of the CSV graph view
    (src/components/CsvGraphView.js:95-114, repeated at :35-54 and
    :158-177). The parser's output is the input here. */
module CsvRows {
  import opened Wrappers
  import opened Seqs
  import opened JsStrings

  /** One parsed record: its properties in insertion order, as header name
      and cell text. A header the record has no cell for is absent. */
  type Row = seq<(string, string)>

  /** `row[key]`: the first property with that exact (case-sensitive) name. */
  function Get(row: Row, key: string): Option<string>
  {
    if row == [] then None
    else if row[0].0 == key then Some(row[0].1)
    else Get(row[1..], key)
  }

  /** The lookup finds a cell exactly when some property has that name. */
  lemma {:induction false} GetSpec(row: Row, key: string)
    ensures Get(row, key).None? <==> forall i :: 0 <= i < |row| ==> row[i].0 != key
    ensures Get(row, key).Some? ==> exists i :: 0 <= i < |row| && row[i] == (key, Get(row, key).value)
  {
    if row != [] && row[0].0 != key {
      var t := row[1..];
      GetSpec(t, key);
      assert forall i :: 1 <= i < |row| ==> row[i] == t[i - 1];
      if Get(t, key).Some? {
        var i :| 0 <= i < |t| && t[i] == (key, Get(t, key).value);
        assert row[i + 1] == t[i];
      }
    } else if row != [] {
      assert row[0] == (key, Get(row, key).value);
    }
  }

  /** A string-valued property is truthy: present and non-empty. */
  predicate Truthy(v: Option<string>)
  {
    v.Some? && v.value != ""
  }

  /** What the parser hands over: `meta.fields` (may be absent) and `data`. */
  datatype Parsed = Parsed(fields: Option<seq<string>>, data: seq<Row>)

  /** The record's property names, in insertion order. */
  function FieldNames(row: Row): (r: seq<string>)
    ensures |r| == |row|
    ensures forall i :: 0 <= i < |row| ==> r[i] == row[i].0
  {
    if row == [] then [] else [row[0].0] + FieldNames(row[1..])
  }

  /** `Object.keys(row)`: the array-index names first, in ascending numeric
      order, then the other names in insertion order. */
  function ObjectKeys(row: Row): (r: seq<string>)
    ensures multiset(r) == multiset(FieldNames(row))
  {
    PropertyOrder(FieldNames(row))
  }

  /** `results.meta.fields || Object.keys(results.data[0] || {})`; an empty
      `fields` array is truthy and is used as it is. */
  function Headers(p: Parsed): seq<string>
  {
    if p.fields.Some? then p.fields.value
    else if |p.data| > 0 then ObjectKeys(p.data[0])
    else []
  }

  function RequiredColumns(): seq<string>
  {
    ["title", "parent", "value", "timestamp"]
  }

  /** `headers.some(header => header.toLowerCase() === col.toLowerCase())`. */
  predicate AnyHeaderMatches(headers: seq<string>, col: string)
  {
    headers != [] && (Lower(headers[0]) == Lower(col) || AnyHeaderMatches(headers[1..], col))
  }

  function IsMissing(headers: seq<string>): string -> bool
  {
    col => !AnyHeaderMatches(headers, col)
  }

  /** `requiredColumns.filter(col => !headers.some(...))`. */
  function MissingColumns(headers: seq<string>): seq<string>
  {
    Filter(RequiredColumns(), IsMissing(headers))
  }

  /** `xs.join(sep)`. */
  function Join(xs: seq<string>, sep: string): (r: string)
    ensures xs == [] ==> r == ""
    ensures |xs| == 1 ==> r == xs[0]
  {
    if xs == [] then ""
    else if |xs| == 1 then xs[0]
    else xs[0] + sep + Join(xs[1..], sep)
  }

  function MissingMessage(missing: seq<string>): string
  {
    "Missing required columns: " + Join(missing, ", ")
  }

  /** A normalised row; `value` is not modelled. */
  datatype ProcessedRow = ProcessedRow(
    id: string,
    title: Option<string>,
    parent: Option<string>,
    timestamp: Option<string>,
    originalIndex: nat)

  /** The `map` callback: `id` is the title, or `node-<index>` when the
      title is falsy. */
  function ProcessRow(row: Row, index: nat): ProcessedRow
  {
    var title := Get(row, "title");
    ProcessedRow(if Truthy(title) then title.value else "node-" + NatToString(index),
                 title, Get(row, "parent"), Get(row, "timestamp"), index)
  }

  /** `data.map((row, index) => ...)`, with the indices counted from `start`. */
  function Numbered(data: seq<Row>, start: nat): (r: seq<ProcessedRow>)
    ensures |r| == |data|
  {
    seq(|data|, i requires 0 <= i < |data| => ProcessRow(data[i], start + i))
  }

  predicate HasTitle(r: ProcessedRow)
  {
    Truthy(r.title)
  }

  /** `.filter(row => row.title)` after the map. */
  function ProcessRows(data: seq<Row>): seq<ProcessedRow>
  {
    Filter(Numbered(data, 0), HasTitle)
  }

  /** The whole `complete` callback, minus the state updates: the error it
      throws, or the rows it stores. */
  function LoadRows(p: Parsed): Result<seq<ProcessedRow>, string>
  {
    var missing := MissingColumns(Headers(p));
    if |missing| > 0 then Err(MissingMessage(missing)) else Ok(ProcessRows(p.data))
  }

  // ---------------------------------------------------------------------------
  // Properties

  /** `some` holds exactly when some header lower-cases to the column's
      lower-cased name. */
  lemma {:induction false} AnyHeaderMatchesIff(headers: seq<string>, col: string)
    ensures AnyHeaderMatches(headers, col) <==>
      exists i :: 0 <= i < |headers| && Lower(headers[i]) == Lower(col)
  {
    if headers != [] {
      AnyHeaderMatchesIff(headers[1..], col);
      assert forall i :: 1 <= i < |headers| ==> headers[i] == headers[1..][i - 1];
    }
  }

  /** The required names are already lower-case. */
  lemma RequiredColumnsAreLowercase()
    ensures forall i :: 0 <= i < |RequiredColumns()| ==> Lower(RequiredColumns()[i]) == RequiredColumns()[i]
  {
    var cs := RequiredColumns();
    forall i | 0 <= i < |cs| ensures Lower(cs[i]) == cs[i] {
      assert HasNoCapitals(cs[i]);
      LowerFixesLowercase(cs[i]);
    }
  }

  /** The missing list holds exactly the required columns that no header
      matches case-insensitively, in the order they are required. */
  lemma MissingColumnsSpec(headers: seq<string>)
    ensures forall c :: c in MissingColumns(headers) <==>
      c in RequiredColumns() && forall i :: 0 <= i < |headers| ==> Lower(headers[i]) != c
    ensures IsSubsequence(MissingColumns(headers), RequiredColumns())
  {
    var cs := RequiredColumns();
    RequiredColumnsAreLowercase();
    FilterMembers(cs, IsMissing(headers));
    FilterIsSubsequence(cs, IsMissing(headers));
    forall c | c in cs
      ensures IsMissing(headers)(c) <==> forall i :: 0 <= i < |headers| ==> Lower(headers[i]) != c
    {
      AnyHeaderMatchesIff(headers, c);
      var k :| 0 <= k < |cs| && cs[k] == c;
      assert Lower(cs[k]) == cs[k];
    }
  }

  /** The missing list depends only on which headers there are, not on
      their order or how often they repeat: reordering by `Object.keys`
      cannot change it. */
  lemma MissingColumnsIgnoreOrder(hs: seq<string>, ks: seq<string>)
    requires forall h :: h in hs <==> h in ks
    ensures MissingColumns(hs) == MissingColumns(ks)
  {
    var cs := RequiredColumns();
    forall i | 0 <= i < |cs| ensures IsMissing(hs)(cs[i]) == IsMissing(ks)(cs[i]) {
      MatchCarriesOver(hs, ks, cs[i]);
      MatchCarriesOver(ks, hs, cs[i]);
    }
    FilterCongruent(cs, IsMissing(hs), IsMissing(ks));
  }

  lemma MatchCarriesOver(hs: seq<string>, ks: seq<string>, col: string)
    requires forall h :: h in hs ==> h in ks
    ensures AnyHeaderMatches(hs, col) ==> AnyHeaderMatches(ks, col)
  {
    AnyHeaderMatchesIff(hs, col);
    AnyHeaderMatchesIff(ks, col);
    if AnyHeaderMatches(hs, col) {
      var i :| 0 <= i < |hs| && Lower(hs[i]) == Lower(col);
      assert hs[i] in ks;
      var j :| 0 <= j < |ks| && ks[j] == hs[i];
      assert Lower(ks[j]) == Lower(col);
    }
  }

  /** In particular the record's names in insertion order give the same
      missing list as `Object.keys`. */
  lemma ObjectKeysOrderIrrelevant(row: Row)
    ensures MissingColumns(ObjectKeys(row)) == MissingColumns(FieldNames(row))
  {
    var hs, ks := ObjectKeys(row), FieldNames(row);
    forall h ensures h in hs <==> h in ks {
      assert h in hs <==> h in multiset(hs);
      assert h in ks <==> h in multiset(ks);
    }
    MissingColumnsIgnoreOrder(hs, ks);
  }

  /** Loading fails exactly when some required column has no matching
      header, and then reports the missing list; otherwise it yields the
      processed rows. */
  lemma LoadRowsSpec(p: Parsed)
    ensures LoadRows(p).Err? <==>
      exists c :: c in RequiredColumns() && forall i :: 0 <= i < |Headers(p)| ==> Lower(Headers(p)[i]) != c
    ensures LoadRows(p).Err? ==> LoadRows(p).error == MissingMessage(MissingColumns(Headers(p)))
    ensures LoadRows(p).Ok? ==> LoadRows(p).value == ProcessRows(p.data)
  {
    var m := MissingColumns(Headers(p));
    MissingColumnsSpec(Headers(p));
    if |m| > 0 {
      assert m[0] in m;
    }
  }

  function OriginalIndex(r: ProcessedRow): int
  {
    r.originalIndex
  }

  /** Row processing keeps the records with a truthy `title`, in their
      original order, each with its position as `originalIndex` and its
      title as `id`. */
  lemma ProcessRowsSpec(data: seq<Row>)
    ensures forall k :: 0 <= k < |ProcessRows(data)| ==>
      var r := ProcessRows(data)[k];
      r.originalIndex < |data| &&
      r == ProcessRow(data[r.originalIndex], r.originalIndex) &&
      Truthy(Get(data[r.originalIndex], "title")) &&
      r.title == Some(r.id)
    ensures IncreasingBy(ProcessRows(data), OriginalIndex)
    ensures forall i :: 0 <= i < |data| && Truthy(Get(data[i], "title")) ==>
      ProcessRow(data[i], i) in ProcessRows(data)
  {
    var n := Numbered(data, 0);
    FilterMembers(n, HasTitle);
    forall k | 0 <= k < |ProcessRows(data)|
      ensures var r := ProcessRows(data)[k];
        r.originalIndex < |data| && r == ProcessRow(data[r.originalIndex], r.originalIndex)
    {
      var r := ProcessRows(data)[k];
      var j :| 0 <= j < |n| && n[j] == r;
      assert r == ProcessRow(data[j], j);
    }
    assert IncreasingBy(n, OriginalIndex);
    FilterIncreasing(n, HasTitle, OriginalIndex);
    forall i | 0 <= i < |data| && Truthy(Get(data[i], "title"))
      ensures ProcessRow(data[i], i) in ProcessRows(data)
    {
      assert n[i] == ProcessRow(data[i], i);
    }
  }

  /** Validation is case-insensitive: headers spelt `Title`, `Parent`,
      `Value`, `Timestamp` pass it. */
  lemma CapitalisedHeadersPass()
    ensures MissingColumns(["Title", "Parent", "Value", "Timestamp"]) == []
  {
    var hs := ["Title", "Parent", "Value", "Timestamp"];
    var cs := RequiredColumns();
    RequiredColumnsAreLowercase();
    assert Lower(hs[0]) == "title" && Lower(hs[1]) == "parent";
    assert Lower(hs[2]) == "value" && Lower(hs[3]) == "timestamp";
    forall i | 0 <= i < |cs| ensures !IsMissing(hs)(cs[i]) {
      AnyHeaderMatchesIff(hs, cs[i]);
      assert Lower(hs[i]) == Lower(cs[i]);
    }
    FilterEmpty(cs, IsMissing(hs));
  }

  /** The title lookup is case-sensitive, though: records whose property is
      named `Title` have no `title`, and all of them are dropped. */
  lemma CapitalisedHeadersDropAllRows(data: seq<Row>)
    requires forall i :: 0 <= i < |data| ==> FieldNames(data[i]) == ["Title", "Parent", "Value", "Timestamp"]
    ensures ProcessRows(data) == []
  {
    ProcessRowsSpec(data);
    var r := ProcessRows(data);
    if |r| > 0 {
      var idx := r[0].originalIndex;
      GetSpec(data[idx], "title");
      assert false;
    }
  }
}
