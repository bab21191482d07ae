/** The row-to-statement transformation of `generate_cypher_queries`: every
    CSV record gives one `CREATE (s:Show {...})` node statement and one
    two-line `MERGE` relationship statement per director, cast member,
    country and genre. Records arrive already parsed, as maps from column
    name to text. */
module Cypher {
  import opened PyStr
  import opened Text

  /** The columns of the CSV header that the loop body reads. */
  datatype Field =
    | ShowId | Type | Title | Director | Cast | Country
    | ReleaseYear | Rating | Duration | ListedIn | Description

  /** One CSV record: column to field text. A column the file lacks is
      absent from the map. */
  type Row = map<Field, string>

  datatype Option<T> = None | Some(value: T)

  /** The two statement lists, or the `KeyError` for a column that a record
      lacks, which aborts the whole conversion. */
  datatype Outcome =
    | Queries(nodeQueries: seq<string>, relationshipQueries: seq<string>)
    | KeyError(column: Field)

  /** The four kinds of related entity, in the order their statements are emitted. */
  datatype Category = Directors | Actors | Countries | Genres

  /** The separator between the names of a multi-valued field. */
  const Separator: string := ", "

  /** The record has every column the loop body reads. */
  predicate HasColumns(row: Row) {
    && Title in row && Description in row && ShowId in row && Type in row
    && ReleaseYear in row && Rating in row && Duration in row
    && Director in row && Cast in row && Country in row && ListedIn in row
  }

  /** The first column, in the order the loop body reads them, that the record lacks. */
  function MissingColumn(row: Row): (m: Option<Field>)
    ensures m == None <==> HasColumns(row)
    ensures m.Some? ==> m.value !in row
  {
    if Title !in row then Some(Title)
    else if Description !in row then Some(Description)
    else if ShowId !in row then Some(ShowId)
    else if Type !in row then Some(Type)
    else if ReleaseYear !in row then Some(ReleaseYear)
    else if Rating !in row then Some(Rating)
    else if Duration !in row then Some(Duration)
    else if Director !in row then Some(Director)
    else if Cast !in row then Some(Cast)
    else if Country !in row then Some(Country)
    else if ListedIn !in row then Some(ListedIn)
    else None
  }

  // ------------------------------------------------------------ node statement

  /** The text of the node statement cut at its single quotes: the fixed
      text with the quoted values at the odd positions and `release_year`,
      unquoted, inside segment 6. */
  function NodeSegments(showId: string, kind: string, title: string, releaseYear: string,
                        rating: string, duration: string, description: string): (parts: seq<string>)
    ensures |parts| == 13
  {
    ["CREATE (s:Show {id: ", showId, ", type: ", kind, ", title: ", title,
     ", release_year: " + releaseYear + ", rating: ", rating, ", duration: ", duration,
     ", description: ", description, "})"]
  }

  /** The node statement, from the already escaped title and description and
      the raw remaining fields: its segments joined by single quotes. */
  function NodeStatement(showId: string, kind: string, title: string, releaseYear: string,
                         rating: string, duration: string, description: string): string
  {
    Join(NodeSegments(showId, kind, title, releaseYear, rating, duration, description), "'")
  }

  /** The node statement of a record: title and description normalized and
      escaped, the other fields as they are. */
  function NodeQuery(nfkd: string -> string, row: Row): string
    requires HasColumns(row)
  {
    var title := EscapeQuotes(NormalizeText(nfkd, row[Title]));
    var description := EscapeQuotes(NormalizeText(nfkd, row[Description]));
    NodeStatement(row[ShowId], row[Type], title, row[ReleaseYear],
                  row[Rating], row[Duration], description)
  }

  /** Cut at its quotes, a node statement falls back into its thirteen
      segments when no field contains a quote. */
  lemma NodeStatementSegments(showId: string, kind: string, title: string, releaseYear: string,
                              rating: string, duration: string, description: string)
    requires '\'' !in showId && '\'' !in kind && '\'' !in title && '\'' !in releaseYear
    requires '\'' !in rating && '\'' !in duration && '\'' !in description
    ensures Split(NodeStatement(showId, kind, title, releaseYear, rating, duration, description), "'")
         == NodeSegments(showId, kind, title, releaseYear, rating, duration, description)
  {
    var parts := NodeSegments(showId, kind, title, releaseYear, rating, duration, description);
    assert '\'' !in ", release_year: " + releaseYear + ", rating: ";
    SplitJoin(parts, "'");
  }

  /** The quote count of a thirteen-piece list, spelled out piece by piece. */
  lemma CountThirteen(p: seq<string>, c: char)
    requires |p| == 13
    ensures CountAll(p, c) == CountChar(p[0], c) + CountChar(p[1], c) + CountChar(p[2], c)
      + CountChar(p[3], c) + CountChar(p[4], c) + CountChar(p[5], c) + CountChar(p[6], c)
      + CountChar(p[7], c) + CountChar(p[8], c) + CountChar(p[9], c) + CountChar(p[10], c)
      + CountChar(p[11], c) + CountChar(p[12], c)
  {
    assert p[12..][1..] == [];
    assert CountAll(p[12..], c) == CountChar(p[12], c);
    assert CountAll(p[11..], c) == CountChar(p[11], c) + CountAll(p[12..], c);
    assert CountAll(p[10..], c) == CountChar(p[10], c) + CountAll(p[11..], c);
    assert CountAll(p[9..], c) == CountChar(p[9], c) + CountAll(p[10..], c);
    assert CountAll(p[8..], c) == CountChar(p[8], c) + CountAll(p[9..], c);
    assert CountAll(p[7..], c) == CountChar(p[7], c) + CountAll(p[8..], c);
    assert CountAll(p[6..], c) == CountChar(p[6], c) + CountAll(p[7..], c);
    assert CountAll(p[5..], c) == CountChar(p[5], c) + CountAll(p[6..], c);
    assert CountAll(p[4..], c) == CountChar(p[4], c) + CountAll(p[5..], c);
    assert CountAll(p[3..], c) == CountChar(p[3], c) + CountAll(p[4..], c);
    assert CountAll(p[2..], c) == CountChar(p[2], c) + CountAll(p[3..], c);
    assert CountAll(p[1..], c) == CountChar(p[1], c) + CountAll(p[2..], c);
  }

  /** Quotes in thirteen pieces joined by quotes, when the even-numbered
      pieces other than the seventh hold none: the twelve joining quotes
      and those of the rest. */
  lemma JoinedThirteenQuotes(p: seq<string>)
    requires |p| == 13
    requires '\'' !in p[0] && '\'' !in p[2] && '\'' !in p[4]
    requires '\'' !in p[8] && '\'' !in p[10] && '\'' !in p[12]
    ensures CountChar(Join(p, "'"), '\'') == 12 + CountChar(p[1], '\'') + CountChar(p[3], '\'')
      + CountChar(p[5], '\'') + CountChar(p[6], '\'') + CountChar(p[7], '\'') + CountChar(p[9], '\'')
      + CountChar(p[11], '\'')
  {
    assert "'" == ['\''];
    JoinCount(p, '\'');
    CountThirteen(p, '\'');
    CountCharAbsent(p[0], '\'');
    CountCharAbsent(p[2], '\'');
    CountCharAbsent(p[4], '\'');
    CountCharAbsent(p[8], '\'');
    CountCharAbsent(p[10], '\'');
    CountCharAbsent(p[12], '\'');
  }

  /** A value between two quote-free texts contributes all the quotes. */
  lemma CountBetween(a: string, x: string, b: string, c: char)
    requires c !in a && c !in b
    ensures CountChar(a + x + b, c) == CountChar(x, c)
  {
    CountCharAbsent(a, c);
    CountCharAbsent(b, c);
    CountCharAppend(a, x, c);
    CountCharAppend(a + x, b, c);
  }

  /** Every quote in the node statement is one of the twelve that delimit
      its string literals or comes from a field: the field values are
      embedded as they are. */
  lemma NodeStatementQuotes(showId: string, kind: string, title: string, releaseYear: string,
                            rating: string, duration: string, description: string)
    ensures CountChar(NodeStatement(showId, kind, title, releaseYear, rating, duration, description), '\'')
         == 12 + CountChar(showId, '\'') + CountChar(kind, '\'') + CountChar(title, '\'')
            + CountChar(releaseYear, '\'') + CountChar(rating, '\'') + CountChar(duration, '\'')
            + CountChar(description, '\'')
  {
    CountBetween(", release_year: ", releaseYear, ", rating: ", '\'');
    JoinedThirteenQuotes(NodeSegments(showId, kind, title, releaseYear, rating, duration, description));
  }

  /** The title and description literals of a record's node statement are
      exactly its normalized, escaped title and description, provided the
      fields embedded without escaping contain no quote. */
  lemma NodeQuerySegments(nfkd: string -> string, row: Row)
    requires HasColumns(row)
    requires '\'' !in row[ShowId] && '\'' !in row[Type] && '\'' !in row[ReleaseYear]
    requires '\'' !in row[Rating] && '\'' !in row[Duration]
    ensures var parts := Split(NodeQuery(nfkd, row), "'");
      && |parts| == 13
      && parts[1] == row[ShowId] && parts[3] == row[Type]
      && parts[5] == EscapeQuotes(NormalizeText(nfkd, row[Title]))
      && parts[6] == ", release_year: " + row[ReleaseYear] + ", rating: "
      && parts[7] == row[Rating] && parts[9] == row[Duration]
      && parts[11] == EscapeQuotes(NormalizeText(nfkd, row[Description]))
  {
    NodeStatementSegments(row[ShowId], row[Type], EscapeQuotes(NormalizeText(nfkd, row[Title])),
                          row[ReleaseYear], row[Rating], row[Duration],
                          EscapeQuotes(NormalizeText(nfkd, row[Description])));
  }

  /** Whatever the fields hold, the quotes of a record's node statement
      are the twelve delimiters plus those of the fields embedded without
      escaping; the escaped title and description add none. So cutting it
      at its quotes gives thirteen pieces exactly when those five fields
      are quote-free. */
  lemma NodeQueryQuotes(nfkd: string -> string, row: Row)
    requires HasColumns(row)
    ensures var n := CountChar(row[ShowId], '\'') + CountChar(row[Type], '\'')
                   + CountChar(row[ReleaseYear], '\'') + CountChar(row[Rating], '\'')
                   + CountChar(row[Duration], '\'');
      && CountChar(NodeQuery(nfkd, row), '\'') == 12 + n
      && |Split(NodeQuery(nfkd, row), "'")| == 13 + n
  {
    var title := EscapeQuotes(NormalizeText(nfkd, row[Title]));
    var description := EscapeQuotes(NormalizeText(nfkd, row[Description]));
    CountCharAbsent(title, '\'');
    CountCharAbsent(description, '\'');
    NodeStatementQuotes(row[ShowId], row[Type], title, row[ReleaseYear],
                        row[Rating], row[Duration], description);
    assert "'" == ['\''];
    SplitCount(NodeQuery(nfkd, row), '\'');
  }

  // ---------------------------------------------------- relationship statements

  /** The text of a relationship statement before the quoted name. */
  function Opening(c: Category): (r: string)
    ensures '\'' !in r
  {
    match c
    case Directors => "MERGE (d:Director {name: "
    case Actors => "MERGE (a:Actor {name: "
    case Countries => "MERGE (c:Country {name: "
    case Genres => "MERGE (g:Genre {name: "
  }

  /** The text of a relationship statement after the quoted name: the end of
      the first line and the whole second line, which links the entity and
      the show. */
  function Closing(c: Category): (r: string)
    ensures '\'' !in r
  {
    match c
    case Directors => "})\nMERGE (d)-[:DIRECTS]->(s)"
    case Actors => "})\nMERGE (a)-[:ACTS_IN]->(s)"
    case Countries => "})\nMERGE (s)-[:PRODUCED_IN]->(c)"
    case Genres => "})\nMERGE (s)-[:LISTED_IN]->(g)"
  }

  /** The two-line statement that merges one named entity and links it to
      the show: the name is escaped but not normalized. */
  function RelationshipQuery(c: Category, name: string): string {
    Opening(c) + "'" + EscapeQuotes(name) + "'" + Closing(c)
  }

  /** Cut at its quotes, a relationship statement has three segments, the
      middle one the escaped name; unescaping it gives the name back. */
  lemma RelationshipQuerySegments(c: Category, name: string)
    ensures var parts := Split(RelationshipQuery(c, name), "'");
      && |parts| == 3 && parts[1] == EscapeQuotes(name)
      && (!Contains(name, QuoteEscape) ==> UnescapeQuotes(parts[1]) == name)
  {
    var n := EscapeQuotes(name);
    var q := "'";
    assert RelationshipQuery(c, name) == Opening(c) + q + (n + q + Closing(c));
    SplitWhole(Closing(c), q);
    SplitAtFirst(n, Closing(c), q);
    SplitAtFirst(Opening(c), n + q + Closing(c), q);
    if !Contains(name, QuoteEscape) {
      EscapeRoundTrip(name);
    }
  }

  /** `f` applied to each element, in order. */
  function MapEach(f: string -> string, xs: seq<string>): seq<string> {
    seq(|xs|, k requires 0 <= k < |xs| => f(xs[k]))
  }

  lemma MapEachSnoc(f: string -> string, xs: seq<string>, j: nat)
    requires j < |xs|
    ensures MapEach(f, xs[..j + 1]) == MapEach(f, xs[..j]) + [f(xs[j])]
  {
    var l, r := MapEach(f, xs[..j + 1]), MapEach(f, xs[..j]) + [f(xs[j])];
    forall k | 0 <= k <= j
      ensures l[k] == r[k]
    {
      assert xs[..j + 1][k] == xs[k];
    }
  }

  /** One relationship statement per name, in order. */
  function RelationshipsFor(c: Category, names: seq<string>): seq<string> {
    MapEach(name => RelationshipQuery(c, name), names)
  }

  lemma RelationshipsForSnoc(c: Category, names: seq<string>, j: nat)
    requires j < |names|
    ensures RelationshipsFor(c, names[..j + 1]) == RelationshipsFor(c, names[..j]) + [RelationshipQuery(c, names[j])]
  {
    MapEachSnoc(name => RelationshipQuery(c, name), names, j);
  }

  /** The statements one multi-valued field contributes: none for an empty
      field, otherwise one per piece of `field.split(", ")`. */
  function FieldStatements(c: Category, field: string): (r: seq<string>)
    ensures field == "" ==> r == []
    ensures field != "" ==> |r| == |Split(field, Separator)| >= 1
  {
    if field == "" then [] else RelationshipsFor(c, Split(field, Separator))
  }

  /** How many statements a field contributes. */
  function FieldCount(field: string): nat {
    if field == "" then 0 else |Split(field, Separator)|
  }

  /** The names behind a field's statements: joined with `", "` they give
      the field back, none contains `", "`, and each sits, escaped, as the
      quoted literal of its own statement, in field order. */
  lemma FieldStatementNames(c: Category, field: string)
    requires field != ""
    ensures var names := Split(field, Separator);
      && Join(names, Separator) == field
      && (forall k :: 0 <= k < |names| ==> !Contains(names[k], Separator))
      && forall k :: 0 <= k < |names| ==>
           && FieldStatements(c, field)[k] == RelationshipQuery(c, names[k])
           && |Split(FieldStatements(c, field)[k], "'")| == 3
           && Split(FieldStatements(c, field)[k], "'")[1] == EscapeQuotes(names[k])
  {
    var names := Split(field, Separator);
    JoinSplit(field, Separator);
    SplitPiecesFree(field, Separator);
    forall k | 0 <= k < |names|
      ensures FieldStatements(c, field)[k] == RelationshipQuery(c, names[k])
      ensures |Split(FieldStatements(c, field)[k], "'")| == 3
      ensures Split(FieldStatements(c, field)[k], "'")[1] == EscapeQuotes(names[k])
    {
      RelationshipQuerySegments(c, names[k]);
    }
  }

  /** Empty pieces are not skipped: a name followed by a trailing separator
      yields a second statement, with an empty name. */
  lemma TrailingSeparator(c: Category, name: string)
    requires ',' !in name
    ensures FieldStatements(c, name + Separator) == [RelationshipQuery(c, name), RelationshipQuery(c, "")]
  {
    SplitAtFirst(name, "", Separator);
    SplitWhole("", Separator);
    assert name + Separator + "" == name + Separator;
    assert Split(name + Separator, Separator) == [name, ""];
  }

  // -------------------------------------------------------------------- records

  /** All relationship statements of a record: directors, then cast, then
      countries, then genres. */
  function RowStatements(row: Row): (r: seq<string>)
    requires HasColumns(row)
    ensures |r| == FieldCount(row[Director]) + FieldCount(row[Cast])
                 + FieldCount(row[Country]) + FieldCount(row[ListedIn])
  {
    FieldStatements(Directors, row[Director]) + FieldStatements(Actors, row[Cast])
    + FieldStatements(Countries, row[Country]) + FieldStatements(Genres, row[ListedIn])
  }

  /** Every record has every column the loop body reads. */
  predicate AllComplete(rows: seq<Row>) {
    forall i :: 0 <= i < |rows| ==> HasColumns(rows[i])
  }

  /** The missing column of the first record that lacks one. */
  function FirstMissing(rows: seq<Row>): Option<Field>
    decreases |rows|
  {
    if rows == [] then None
    else
      var earlier := FirstMissing(rows[..|rows| - 1]);
      if earlier.Some? then earlier else MissingColumn(rows[|rows| - 1])
  }

  /** `FirstMissing` finds nothing exactly when every record is complete, and
      otherwise names a column missing from a record all of whose
      predecessors are complete. */
  lemma {:induction false} FirstMissingSpec(rows: seq<Row>)
    ensures FirstMissing(rows) == None <==> AllComplete(rows)
    ensures FirstMissing(rows).Some? ==>
      exists i :: 0 <= i < |rows| && MissingColumn(rows[i]) == FirstMissing(rows)
                  && forall j :: 0 <= j < i ==> HasColumns(rows[j])
    decreases |rows|
  {
    if rows != [] {
      var n := |rows| - 1;
      var init := rows[..n];
      FirstMissingSpec(init);
      assert forall i :: 0 <= i < n ==> init[i] == rows[i];
      if FirstMissing(init).Some? {
        var i :| 0 <= i < n && MissingColumn(init[i]) == FirstMissing(init)
                 && forall j :: 0 <= j < i ==> HasColumns(init[j]);
        assert MissingColumn(rows[i]) == FirstMissing(rows);
      } else if MissingColumn(rows[n]).Some? {
        assert MissingColumn(rows[n]) == FirstMissing(rows);
      }
    }
  }

  lemma {:induction false} FirstMissingConcat(a: seq<Row>, b: seq<Row>)
    ensures FirstMissing(a + b) == if FirstMissing(a).Some? then FirstMissing(a) else FirstMissing(b)
    decreases |b|
  {
    if b == [] {
      assert a + b == a;
    } else {
      var b' := b[..|b| - 1];
      assert (a + b)[..|a + b| - 1] == a + b';
      FirstMissingConcat(a, b');
    }
  }

  lemma FirstMissingAt(rows: seq<Row>, i: nat)
    requires i < |rows| && FirstMissing(rows[..i]) == None && MissingColumn(rows[i]).Some?
    ensures FirstMissing(rows) == MissingColumn(rows[i])
  {
    assert rows[..i + 1][..i] == rows[..i];
    assert rows == rows[..i + 1] + rows[i + 1..];
    FirstMissingConcat(rows[..i + 1], rows[i + 1..]);
  }

  /** The statement lists of a sequence of records, one after the other. */
  function Flatten(xss: seq<seq<string>>): seq<string>
    decreases |xss|
  {
    if xss == [] then [] else Flatten(xss[..|xss| - 1]) + xss[|xss| - 1]
  }

  lemma {:induction false} FlattenConcat(xss: seq<seq<string>>, yss: seq<seq<string>>)
    ensures Flatten(xss + yss) == Flatten(xss) + Flatten(yss)
    decreases |yss|
  {
    if yss == [] {
      assert xss + yss == xss;
    } else {
      var init := yss[..|yss| - 1];
      assert (xss + yss)[..|xss + yss| - 1] == xss + init;
      assert (xss + yss)[|xss + yss| - 1] == yss[|yss| - 1];
      FlattenConcat(xss, init);
    }
  }

  /** The node statements of complete records: the `i`-th is that of the `i`-th record. */
  function NodeQueries(nfkd: string -> string, rows: seq<Row>): seq<string>
    requires AllComplete(rows)
  {
    seq(|rows|, i requires 0 <= i < |rows| => NodeQuery(nfkd, rows[i]))
  }

  /** The relationship statements of each complete record, as one list per record. */
  function StatementLists(rows: seq<Row>): seq<seq<string>>
    requires AllComplete(rows)
  {
    seq(|rows|, i requires 0 <= i < |rows| => RowStatements(rows[i]))
  }

  /** The relationship statements of complete records, record after record. */
  function RelationshipQueries(rows: seq<Row>): seq<string>
    requires AllComplete(rows)
  {
    Flatten(StatementLists(rows))
  }

  /** What the conversion of a sequence of records produces: the `KeyError`
      of the first record that lacks a column, or else both statement lists. */
  function Generate(nfkd: string -> string, rows: seq<Row>): Outcome {
    match FirstMissing(rows)
    case Some(column) => KeyError(column)
    case None =>
      FirstMissingSpec(rows);
      Queries(NodeQueries(nfkd, rows), RelationshipQueries(rows))
  }

  /** The conversion succeeds exactly when every record is complete, with one
      node statement per record, in order; otherwise it fails with a column
      missing from the first incomplete record. */
  lemma GenerateSpec(nfkd: string -> string, rows: seq<Row>)
    ensures Generate(nfkd, rows).Queries? <==> AllComplete(rows)
    ensures Generate(nfkd, rows).KeyError? ==>
      exists i :: 0 <= i < |rows| && MissingColumn(rows[i]) == Some(Generate(nfkd, rows).column)
                  && forall j :: 0 <= j < i ==> HasColumns(rows[j])
    ensures Generate(nfkd, rows).Queries? ==>
      |Generate(nfkd, rows).nodeQueries| == |rows|
      && forall i :: 0 <= i < |rows| ==>
           HasColumns(rows[i]) && Generate(nfkd, rows).nodeQueries[i] == NodeQuery(nfkd, rows[i])
  {
    FirstMissingSpec(rows);
  }

  lemma AllCompleteConcat(a: seq<Row>, b: seq<Row>)
    requires AllComplete(a) && AllComplete(b)
    ensures AllComplete(a + b)
  {
    assert forall i :: 0 <= i < |a + b| ==> (a + b)[i] == if i < |a| then a[i] else b[i - |a|];
  }

  lemma NodeQueriesConcat(nfkd: string -> string, a: seq<Row>, b: seq<Row>)
    requires AllComplete(a) && AllComplete(b) && AllComplete(a + b)
    ensures NodeQueries(nfkd, a + b) == NodeQueries(nfkd, a) + NodeQueries(nfkd, b)
  {
    var l, r := NodeQueries(nfkd, a + b), NodeQueries(nfkd, a) + NodeQueries(nfkd, b);
    forall i | 0 <= i < |a + b|
      ensures l[i] == r[i]
    {
      var row := if i < |a| then a[i] else b[i - |a|];
      assert (a + b)[i] == row;
      assert l[i] == NodeQuery(nfkd, row);
    }
  }

  lemma StatementListsConcat(a: seq<Row>, b: seq<Row>)
    requires AllComplete(a) && AllComplete(b) && AllComplete(a + b)
    ensures StatementLists(a + b) == StatementLists(a) + StatementLists(b)
  {
    var l, r := StatementLists(a + b), StatementLists(a) + StatementLists(b);
    forall i | 0 <= i < |a + b|
      ensures l[i] == r[i]
    {
      if i >= |a| {
        assert (a + b)[i] == b[i - |a|];
      }
    }
  }

  /** The statement lists of two runs of complete records concatenate. */
  lemma QueriesConcat(nfkd: string -> string, a: seq<Row>, b: seq<Row>)
    requires AllComplete(a) && AllComplete(b)
    ensures AllComplete(a + b)
    ensures NodeQueries(nfkd, a + b) == NodeQueries(nfkd, a) + NodeQueries(nfkd, b)
    ensures RelationshipQueries(a + b) == RelationshipQueries(a) + RelationshipQueries(b)
  {
    AllCompleteConcat(a, b);
    NodeQueriesConcat(nfkd, a, b);
    StatementListsConcat(a, b);
    FlattenConcat(StatementLists(a), StatementLists(b));
  }

  /** Converting `a + b` is converting `a`, then `b`: the first `KeyError`
      wins, and otherwise both lists are concatenated in record order. */
  lemma GenerateConcat(nfkd: string -> string, a: seq<Row>, b: seq<Row>)
    ensures Generate(nfkd, a + b) ==
      match Generate(nfkd, a)
      case KeyError(column) => KeyError(column)
      case Queries(n1, r1) =>
        match Generate(nfkd, b)
        case KeyError(column) => KeyError(column)
        case Queries(n2, r2) => Queries(n1 + n2, r1 + r2)
  {
    FirstMissingConcat(a, b);
    FirstMissingSpec(a);
    FirstMissingSpec(b);
    if FirstMissing(a) == None && FirstMissing(b) == None {
      QueriesConcat(nfkd, a, b);
    }
  }

  lemma QueriesOne(nfkd: string -> string, row: Row)
    requires HasColumns(row)
    ensures AllComplete([row])
    ensures NodeQueries(nfkd, [row]) == [NodeQuery(nfkd, row)]
    ensures RelationshipQueries([row]) == RowStatements(row)
  {
    assert AllComplete([row]);
    var lists := StatementLists([row]);
    assert lists == [RowStatements(row)];
    assert lists[..0] == [];
    assert Flatten(lists) == [] + RowStatements(row);
    assert NodeQueries(nfkd, [row]) == [NodeQuery(nfkd, row)];
  }

  /** A single record gives its node statement and its relationship statements,
      or the `KeyError` of its first missing column. */
  lemma GenerateOne(nfkd: string -> string, row: Row)
    ensures Generate(nfkd, [row]) ==
      if HasColumns(row) then Queries([NodeQuery(nfkd, row)], RowStatements(row))
      else KeyError(MissingColumn(row).value)
  {
    assert [row][..0] == [];
    assert FirstMissing([row]) == MissingColumn(row);
    if HasColumns(row) {
      QueriesOne(nfkd, row);
    }
  }

  /** Appending one complete record appends its statements. */
  lemma QueriesSnoc(nfkd: string -> string, rows: seq<Row>, row: Row)
    requires AllComplete(rows) && HasColumns(row)
    ensures AllComplete(rows + [row])
    ensures NodeQueries(nfkd, rows + [row]) == NodeQueries(nfkd, rows) + [NodeQuery(nfkd, row)]
    ensures RelationshipQueries(rows + [row]) == RelationshipQueries(rows) + RowStatements(row)
  {
    QueriesOne(nfkd, row);
    QueriesConcat(nfkd, rows, [row]);
  }

  // ---------------------------------------------------------------- the loop

  /** `if row[column]: for name in row[column].split(', '): queries.append(...)`. */
  method AppendRelationships(queries: seq<string>, c: Category, field: string)
    returns (result: seq<string>)
    ensures result == queries + FieldStatements(c, field)
  {
    result := queries;
    if field != "" {
      var names := Split(field, Separator);
      var j := 0;
      while j < |names|
        invariant 0 <= j <= |names|
        invariant result == queries + RelationshipsFor(c, names[..j])
      {
        RelationshipsForSnoc(c, names, j);
        result := result + [RelationshipQuery(c, names[j])];
        j := j + 1;
      }
      assert names[..j] == names;
    }
  }

  /** Stated over arbitrary lists so that the statements' text stays out of
      the proof that needs it. */
  lemma AppendAssociative(a: seq<string>, b: seq<string>, c: seq<string>, d: seq<string>, e: seq<string>)
    ensures a + b + c + d + e == a + (b + c + d + e)
  {
  }

  /** The body of `for row in reader` for a record that has every column:
      one node statement, then the director, cast, country and genre
      statements, appended to the two lists. */
  method AppendRow(nfkd: string -> string, row: Row, nodeQueries: seq<string>,
                   relationshipQueries: seq<string>)
    returns (nodes: seq<string>, relationships: seq<string>)
    requires HasColumns(row)
    ensures nodes == nodeQueries + [NodeQuery(nfkd, row)]
    ensures relationships == relationshipQueries + RowStatements(row)
  {
    var title := EscapeQuotes(NormalizeText(nfkd, row[Title]));
    var description := EscapeQuotes(NormalizeText(nfkd, row[Description]));
    var nodeQuery := NodeStatement(row[ShowId], row[Type], title,
      row[ReleaseYear], row[Rating], row[Duration], description);
    nodes := nodeQueries + [nodeQuery];
    relationships := AppendRelationships(relationshipQueries, Directors, row[Director]);
    relationships := AppendRelationships(relationships, Actors, row[Cast]);
    relationships := AppendRelationships(relationships, Countries, row[Country]);
    relationships := AppendRelationships(relationships, Genres, row[ListedIn]);
    AppendAssociative(relationshipQueries, FieldStatements(Directors, row[Director]),
      FieldStatements(Actors, row[Cast]), FieldStatements(Countries, row[Country]),
      FieldStatements(Genres, row[ListedIn]));
  }

  /** The `for row in reader` loop of `generate_cypher_queries`. A record
      without one of the columns read raises `KeyError`, which discards
      everything produced so far; the record is checked up front, in the
      order the loop body reads its columns. */
  method GenerateCypherQueries(nfkd: string -> string, rows: seq<Row>) returns (outcome: Outcome)
    ensures outcome == Generate(nfkd, rows)
  {
    var nodeQueries: seq<string> := [];
    var relationshipQueries: seq<string> := [];
    var i := 0;
    while i < |rows|
      invariant 0 <= i <= |rows|
      invariant AllComplete(rows[..i])
      invariant nodeQueries == NodeQueries(nfkd, rows[..i])
      invariant relationshipQueries == RelationshipQueries(rows[..i])
    {
      var row := rows[i];
      var missing := MissingColumn(row);
      if missing.Some? {
        FirstMissingSpec(rows[..i]);
        FirstMissingAt(rows, i);
        return KeyError(missing.value);
      }
      nodeQueries, relationshipQueries := AppendRow(nfkd, row, nodeQueries, relationshipQueries);
      assert rows[..i + 1] == rows[..i] + [row];
      QueriesSnoc(nfkd, rows[..i], row);
      i := i + 1;
    }
    assert rows[..i] == rows;
    FirstMissingSpec(rows);
    outcome := Queries(nodeQueries, relationshipQueries);
  }

  // ------------------------------------------------------------------ example

  /** A field without a comma names one entity. */
  lemma SingleName(c: Category, name: string)
    requires name != "" && ',' !in name
    ensures FieldStatements(c, name) == [RelationshipQuery(c, name)]
  {
    SplitWhole(name, Separator);
  }

  /** Two comma-free names separated by `", "` name two entities, in order. */
  lemma TwoNames(c: Category, first: string, second: string)
    requires ',' !in first && ',' !in second
    ensures FieldStatements(c, first + Separator + second)
         == [RelationshipQuery(c, first), RelationshipQuery(c, second)]
  {
    SplitAtFirst(first, second, Separator);
    SplitWhole(second, Separator);
  }

  /** A record with one director, two cast members, one country and one
      genre gives one node statement and five relationship statements, in
      the order director, cast, country, genre. */
  lemma OneDirectorTwoActorsExample(nfkd: string -> string, row: Row, actor1: string, actor2: string)
    requires HasColumns(row) && row[Cast] == actor1 + Separator + actor2
    requires ',' !in actor1 && ',' !in actor2
    requires row[Director] != "" && ',' !in row[Director]
    requires row[Country] != "" && ',' !in row[Country]
    requires row[ListedIn] != "" && ',' !in row[ListedIn]
    ensures Generate(nfkd, [row]) == Queries(
      [NodeQuery(nfkd, row)],
      [RelationshipQuery(Directors, row[Director]),
       RelationshipQuery(Actors, actor1), RelationshipQuery(Actors, actor2),
       RelationshipQuery(Countries, row[Country]), RelationshipQuery(Genres, row[ListedIn])])
  {
    GenerateOne(nfkd, row);
    SingleName(Directors, row[Director]);
    TwoNames(Actors, actor1, actor2);
    SingleName(Countries, row[Country]);
    SingleName(Genres, row[ListedIn]);
    ListOfFive(RelationshipQuery(Directors, row[Director]),
      RelationshipQuery(Actors, actor1), RelationshipQuery(Actors, actor2),
      RelationshipQuery(Countries, row[Country]), RelationshipQuery(Genres, row[ListedIn]));
  }

  /** Stated over arbitrary strings so that the statements' text stays out of
      the proof that needs it. */
  lemma ListOfFive(a: string, b: string, c: string, d: string, e: string)
    ensures [a] + [b, c] + [d] + [e] == [a, b, c, d, e]
  {
  }
}
