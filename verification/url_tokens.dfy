/**
 * The `extract_url_tokens` action: on a column of URLs it inserts three new columns right after
 * the source column, named after it with the suffixes `_protocol`, `_host` and `_port`, and fills
 * them with the parts of the row's URL. Parsing a URL is left to a parameter of the model.
 */
module UrlTokens {
  import opened Results
  import opened Ascii
  import opened Decimal
  import opened ColumnIds

  /** The data types a column can have, as far as this action is concerned. */
  datatype ColumnType = StringType | IntegerType | OtherType(name: string)

  /** One column of the row metadata; `domain` is the semantic domain found for it, if any. */
  datatype Column = Column(id: ColumnId, name: string, ctype: ColumnType, domain: Option<string>, headerSize: int)

  /** The row metadata: the columns in display order and the next id it hands out. */
  datatype Schema = Schema(columns: seq<Column>, nextId: ColumnId)

  /** A row: its values by column id (a missing id reads as null) and the metadata it is shown with. */
  datatype Row = Row(values: map<ColumnId, string>, schema: Schema)

  /** What a successful parse of a URL yields; `port` is -1 when the URL names none. */
  datatype Url = Url(protocol: string, host: string, port: int)

  /** Every column id of the metadata is distinct and below the next id to hand out. */
  predicate WellFormed(s: Schema)
  {
    (forall i, j :: 0 <= i < j < |s.columns| ==> s.columns[i].id != s.columns[j].id)
    && (forall i :: 0 <= i < |s.columns| ==> s.columns[i].id < s.nextId)
  }

  /** `acceptColumn`: the column holds text and its domain is `url`, in any case. */
  predicate AcceptColumn(c: Column)
  {
    c.ctype == StringType && c.domain.Some? && EqualsIgnoreCase("url", c.domain.value)
  }

  /** The domain is compared in any case, but only text columns with a domain qualify. */
  lemma AcceptColumnExamples(id: ColumnId, name: string)
    ensures AcceptColumn(Column(id, name, StringType, Some("URL"), 0))
    ensures AcceptColumn(Column(id, name, StringType, Some("url"), 0))
    ensures !AcceptColumn(Column(id, name, IntegerType, Some("url"), 0))
    ensures !AcceptColumn(Column(id, name, StringType, Some("uri"), 0))
    ensures !AcceptColumn(Column(id, name, StringType, None, 0))
  {
    var l := LowerString("url");
    assert l == [l[0], l[1], l[2]] == "url";
    var u := LowerString("URL");
    assert u == [u[0], u[1], u[2]] == "url";
    var i := LowerString("uri");
    assert i[2] == 'i';
  }

  /** The position of the column with id `id`, if the metadata has one. */
  function IndexOf(cols: seq<Column>, id: ColumnId): (r: Option<nat>)
    ensures r.Some? ==> r.value < |cols| && cols[r.value].id == id
    ensures r.None? <==> forall j :: 0 <= j < |cols| ==> cols[j].id != id
    decreases |cols|
  {
    if cols == [] then None
    else if cols[0].id == id then Some(0)
    else
      var r := IndexOf(cols[1..], id);
      assert forall j :: 1 <= j < |cols| ==> cols[1..][j - 1] == cols[j];
      if r.Some? then Some(r.value + 1) else None
  }

  /** With distinct ids the position found is the only one holding `id`. */
  lemma IndexOfDistinct(cols: seq<Column>, id: ColumnId, k: nat)
    requires forall i, j :: 0 <= i < j < |cols| ==> cols[i].id != cols[j].id
    requires k < |cols| && cols[k].id == id
    ensures IndexOf(cols, id) == Some(k)
  {
  }

  /** `block` placed right after position `i` of `cols`. */
  function Place(cols: seq<Column>, i: nat, block: seq<Column>): (r: seq<Column>)
    requires i < |cols|
    ensures |r| == |cols| + |block|
  {
    cols[..i + 1] + block + cols[i + 1..]
  }

  /** Placing one column after position `i` and then a block after it places both as one block. */
  lemma PlaceTwice(cols: seq<Column>, i: nat, c: Column, block: seq<Column>)
    requires i < |cols|
    ensures Place(Place(cols, i, [c]), i + 1, block) == Place(cols, i, [c] + block)
  {
    var once := Place(cols, i, [c]);
    assert once[..i + 2] == cols[..i + 1] + [c];
    assert once[i + 2..] == cols[i + 1..];
  }

  /** The metadata with `c` placed after position `i` under the next free id. */
  function InsertAt(s: Schema, i: nat, c: Column): (r: Schema)
    requires i < |s.columns|
    ensures r.nextId == s.nextId + 1 && |r.columns| == |s.columns| + 1
    ensures r.columns[i + 1] == c.(id := s.nextId)
  {
    Schema(Place(s.columns, i, [c.(id := s.nextId)]), s.nextId + 1)
  }

  /**
   * `RowMetadata.insertAfter`: the column gets the next free id and is placed right after the column
   * with id `after`; the new id is returned along with the new metadata.
   */
  function InsertAfter(s: Schema, after: ColumnId, c: Column): (r: (Schema, ColumnId))
    requires IndexOf(s.columns, after).Some?
    ensures r.1 == s.nextId
  {
    (InsertAt(s, IndexOf(s.columns, after).value, c), s.nextId)
  }

  /** Inserting a column with a fresh id keeps the ids distinct and below the counter. */
  lemma InsertAtWellFormed(s: Schema, i: nat, c: Column)
    requires WellFormed(s) && i < |s.columns|
    ensures WellFormed(InsertAt(s, i, c))
  {
    var t := InsertAt(s, i, c);
    assert t.columns == s.columns[..i + 1] + [c.(id := s.nextId)] + s.columns[i + 1..];
  }

  /**
   * After an insertion the id just handed out names the new column, right after the one inserted
   * after: the next insertion after that id goes to the following position.
   */
  lemma InsertAfterFindsNew(s: Schema, after: ColumnId, c: Column)
    requires WellFormed(s) && IndexOf(s.columns, after).Some?
    ensures WellFormed(InsertAfter(s, after, c).0)
    ensures IndexOf(InsertAfter(s, after, c).0.columns, s.nextId) == Some(IndexOf(s.columns, after).value + 1)
  {
    var i := IndexOf(s.columns, after).value;
    InsertAtWellFormed(s, i, c);
    IndexOfDistinct(InsertAt(s, i, c).columns, s.nextId, i + 1);
  }

  /** The three token extractors, in the order the action runs them. */
  datatype Extractor = Protocol | Host | Port

  const Extractors: seq<Extractor> := [Protocol, Host, Port]

  function Suffix(e: Extractor): string
  {
    match e
    case Protocol => "_protocol"
    case Host => "_host"
    case Port => "_port"
  }

  /** The type of the column an extractor fills: whole numbers for the port, text otherwise. */
  function TokenType(e: Extractor): ColumnType
  {
    if e == Port then IntegerType else StringType
  }

  /** The port as a text: empty when the URL has none, its decimal digits otherwise. */
  function PortText(port: int): (r: string)
    ensures port == -1 <==> r == []
  {
    if port == -1 then [] else IntToString(port)
  }

  /** A port text is empty or reads back as the port: the column's INTEGER type fits its values. */
  lemma PortTextParses(port: int)
    requires port != -1
    ensures ParseInt(PortText(port)) == Some(port)
  {
    ParseIntToString(port);
  }

  /** The part of a parsed URL an extractor takes. */
  function Token(e: Extractor, url: Url): (r: string)
    ensures e == Protocol ==> r == url.protocol
    ensures e == Host ==> r == url.host
    ensures e == Port ==> r == PortText(url.port)
  {
    match e
    case Protocol => url.protocol
    case Host => url.host
    case Port => PortText(url.port)
  }

  /** `createNewColumn`: the source's name with the suffix, the extractor's type, the source's header size. */
  function NewColumn(source: Column, e: Extractor): (c: Column)
    ensures c.name == source.name + Suffix(e) && c.ctype == TokenType(e) && c.headerSize == source.headerSize
    ensures c.domain == None
  {
    Column(0, source.name + Suffix(e), TokenType(e), None, source.headerSize)
  }

  /** The value written for an extractor: its token, or the empty text when the row had no value. */
  function TokenValue(e: Extractor, url: Option<Url>): string
  {
    if url.None? then "" else Token(e, url.value)
  }

  /**
   * The loop over the extractors. `at` is the position of the column to insert after: the source
   * column first, then each new column in turn. The source looks that column up by id; with distinct
   * ids that is the position right after the previous one (`InsertAfterFindsNew`).
   */
  function Extend(row: Row, source: Column, at: nat, url: Option<Url>, es: seq<Extractor>): Row
    requires at < |row.schema.columns|
    decreases |es|
  {
    if es == [] then row
    else
      var n := row.schema.nextId;
      var next := Row(row.values[n := TokenValue(es[0], url)], InsertAt(row.schema, at, NewColumn(source, es[0])));
      Extend(next, source, at + 1, url, es[1..])
  }

  /** The columns the extractors `es` insert, with the ids handed out from `next` on. */
  function NewColumns(source: Column, es: seq<Extractor>, next: ColumnId): (r: seq<Column>)
    ensures |r| == |es|
    ensures forall k :: 0 <= k < |es| ==> r[k] == NewColumn(source, es[k]).(id := next + k)
    decreases |es|
  {
    if es == [] then []
    else
      var rest := NewColumns(source, es[1..], next + 1);
      var r := [NewColumn(source, es[0]).(id := next)] + rest;
      assert forall k :: 1 <= k < |es| ==> r[k] == rest[k - 1] && es[1..][k - 1] == es[k];
      r
  }

  /** The metadata side of the loop: the same insertions, without the values. */
  function ExtendSchema(s: Schema, source: Column, at: nat, es: seq<Extractor>): Schema
    requires at < |s.columns|
    decreases |es|
  {
    if es == [] then s
    else ExtendSchema(InsertAt(s, at, NewColumn(source, es[0])), source, at + 1, es[1..])
  }

  /** The loop's metadata is the metadata side of the loop. */
  lemma {:induction false} ExtendSchemaOf(row: Row, source: Column, at: nat, url: Option<Url>, es: seq<Extractor>)
    requires at < |row.schema.columns|
    ensures Extend(row, source, at, url, es).schema == ExtendSchema(row.schema, source, at, es)
    decreases |es|
  {
    if es != [] {
      var n := row.schema.nextId;
      var next := Row(row.values[n := TokenValue(es[0], url)], InsertAt(row.schema, at, NewColumn(source, es[0])));
      ExtendUnfold(row, source, at, url, es);
      ExtendSchemaOf(next, source, at + 1, url, es[1..]);
    }
  }

  /** The loop puts the new columns in one block, in extractor order, right after position `at`, with consecutive fresh ids. */
  lemma ExtendColumns(row: Row, source: Column, at: nat, url: Option<Url>, es: seq<Extractor>)
    requires at < |row.schema.columns|
    ensures Extend(row, source, at, url, es).schema
              == Schema(Place(row.schema.columns, at, NewColumns(source, es, row.schema.nextId)), row.schema.nextId + |es|)
  {
    ExtendSchemaOf(row, source, at, url, es);
    SchemaColumns(row.schema, source, at, es);
  }

  /** The metadata side of the loop places the new columns as one block with consecutive fresh ids. */
  lemma {:induction false} SchemaColumns(s: Schema, source: Column, at: nat, es: seq<Extractor>)
    requires at < |s.columns|
    ensures ExtendSchema(s, source, at, es) == Schema(Place(s.columns, at, NewColumns(source, es, s.nextId)), s.nextId + |es|)
    decreases |es|
  {
    if es == [] {
      PlaceNothing(s.columns, at);
    } else {
      var n := s.nextId;
      var c := NewColumn(source, es[0]).(id := n);
      var ins := InsertAt(s, at, NewColumn(source, es[0]));
      assert ExtendSchema(s, source, at, es) == ExtendSchema(ins, source, at + 1, es[1..]);
      SchemaColumns(ins, source, at + 1, es[1..]);
      InsertAtPlaces(s, at, NewColumn(source, es[0]));
      PlaceNewColumns(s.columns, at, c, NewColumns(source, es[1..], n + 1), source, es, n);
      assert ins.columns == Place(s.columns, at, [c]);
      assert ins.nextId == n + 1;
      assert NewColumns(source, es[1..], ins.nextId) == NewColumns(source, es[1..], n + 1);
      assert Place(ins.columns, at + 1, NewColumns(source, es[1..], ins.nextId)) == Place(s.columns, at, NewColumns(source, es, n));
      assert ins.nextId + |es[1..]| == n + |es|;
    }
  }

  lemma PlaceNothing(cols: seq<Column>, i: nat)
    requires i < |cols|
    ensures Place(cols, i, []) == cols
  {
    assert cols[..i + 1] + cols[i + 1..] == cols;
  }

  lemma InsertAtPlaces(s: Schema, at: nat, c: Column)
    requires at < |s.columns|
    ensures InsertAt(s, at, c).columns == Place(s.columns, at, [c.(id := s.nextId)])
  {
  }

  /** One turn of the loop, unfolded. */
  lemma ExtendUnfold(row: Row, source: Column, at: nat, url: Option<Url>, es: seq<Extractor>)
    requires at < |row.schema.columns| && es != []
    ensures var n := row.schema.nextId;
            var next := Row(row.values[n := TokenValue(es[0], url)], InsertAt(row.schema, at, NewColumn(source, es[0])));
            Extend(row, source, at, url, es) == Extend(next, source, at + 1, url, es[1..])
  {
  }

  /** Placing the first new column and then the others behind it places the whole block. */
  lemma PlaceNewColumns(cols: seq<Column>, at: nat, c: Column, tail: seq<Column>, source: Column, es: seq<Extractor>, n: nat)
    requires at < |cols| && es != [] && c == NewColumn(source, es[0]).(id := n) && tail == NewColumns(source, es[1..], n + 1)
    ensures Place(Place(cols, at, [c]), at + 1, tail) == Place(cols, at, NewColumns(source, es, n))
  {
    PlaceTwice(cols, at, c, tail);
    NewColumnsCons(source, es, n);
  }

  lemma NewColumnsCons(source: Column, es: seq<Extractor>, next: ColumnId)
    requires es != []
    ensures NewColumns(source, es, next) == [NewColumn(source, es[0]).(id := next)] + NewColumns(source, es[1..], next + 1)
  {
  }

  /** The loop keeps the ids of the metadata distinct and below the counter. */
  lemma {:induction false} ExtendWellFormed(row: Row, source: Column, at: nat, url: Option<Url>, es: seq<Extractor>)
    requires WellFormed(row.schema) && at < |row.schema.columns|
    ensures WellFormed(Extend(row, source, at, url, es).schema)
    decreases |es|
  {
    if es != [] {
      var schema := InsertAt(row.schema, at, NewColumn(source, es[0]));
      InsertAtWellFormed(row.schema, at, NewColumn(source, es[0]));
      var next := Row(row.values[row.schema.nextId := TokenValue(es[0], url)], schema);
      ExtendWellFormed(next, source, at + 1, url, es[1..]);
    }
  }

  /** The values the loop writes, starting with id `n`, apart from the metadata. */
  function Written(values: map<ColumnId, string>, n: ColumnId, url: Option<Url>, es: seq<Extractor>): map<ColumnId, string>
    decreases |es|
  {
    if es == [] then values else Written(values[n := TokenValue(es[0], url)], n + 1, url, es[1..])
  }

  /** The loop's values are those `Written` computes from the row's values and the metadata's next id. */
  lemma {:induction false} ExtendWritten(row: Row, source: Column, at: nat, url: Option<Url>, es: seq<Extractor>)
    requires at < |row.schema.columns|
    ensures Extend(row, source, at, url, es).values == Written(row.values, row.schema.nextId, url, es)
    decreases |es|
  {
    if es != [] {
      var n := row.schema.nextId;
      var schema := InsertAt(row.schema, at, NewColumn(source, es[0]));
      var next := Row(row.values[n := TokenValue(es[0], url)], schema);
      ExtendWritten(next, source, at + 1, url, es[1..]);
    }
  }

  /** `Written` adds one value per extractor under consecutive ids and keeps every other value. */
  lemma {:induction false} WrittenValues(values: map<ColumnId, string>, n: ColumnId, url: Option<Url>, es: seq<Extractor>)
    ensures Written(values, n, url, es).Keys == values.Keys + IdRange(n, |es|)
    ensures forall k :: 0 <= k < |es| ==> Written(values, n, url, es)[n + k] == TokenValue(es[k], url)
    ensures forall id :: id in values && id !in IdRange(n, |es|) ==> Written(values, n, url, es)[id] == values[id]
    decreases |es|
  {
    if es != [] {
      var v := values[n := TokenValue(es[0], url)];
      var rest := es[1..];
      WrittenValues(v, n + 1, url, rest);
      var w := Written(v, n + 1, url, rest);
      assert Written(values, n, url, es) == w;
      forall k | 0 <= k < |es|
        ensures w[n + k] == TokenValue(es[k], url)
      {
        if k > 0 {
          assert rest[k - 1] == es[k] && n + k == (n + 1) + (k - 1);
        } else {
          assert n !in IdRange(n + 1, |rest|);
        }
      }
    }
  }

  /** The ids `n .. n + m - 1`. */
  function IdRange(n: ColumnId, m: nat): (r: set<ColumnId>)
    ensures forall id :: id in r <==> n <= id < n + m
    decreases m
  {
    if m == 0 then {} else {n} + IdRange(n + 1, m - 1)
  }

  /** The three values the action writes, one per extractor, under consecutive ids. */
  lemma WrittenThree(v: map<ColumnId, string>, n: ColumnId, url: Option<Url>)
    ensures Written(v, n, url, Extractors)
              == v[n := TokenValue(Protocol, url)][n + 1 := TokenValue(Host, url)][n + 2 := TokenValue(Port, url)]
  {
    var v1 := v[n := TokenValue(Protocol, url)];
    var v2 := v1[n + 1 := TokenValue(Host, url)];
    var v3 := v2[n + 2 := TokenValue(Port, url)];
    assert Extractors[1..] == [Host, Port];
    assert [Host, Port][1..] == [Port];
    assert [Port][1..] == [];
    calc {
      Written(v, n, url, Extractors);
      Written(v1, n + 1, url, [Host, Port]);
      Written(v2, n + 2, url, [Port]);
      Written(v3, n + 3, url, []);
    }
  }

  /** The value of the row's source column, or `None` for a null. */
  function Original(row: Row, columnId: ColumnId): Option<string>
  {
    if columnId in row.values then Some(row.values[columnId]) else None
  }

  /** The URL parsing gives up on this row: the value is there but `new URL` throws. */
  predicate Malformed(row: Row, columnId: ColumnId, parse: string -> Option<Url>)
  {
    Original(row, columnId).Some? && parse(Original(row, columnId).value).None?
  }

  /** The parsed URL of the row, `None` when its value is null. */
  function UrlOf(row: Row, columnId: ColumnId, parse: string -> Option<Url>): Option<Url>
  {
    if Original(row, columnId).None? then None else parse(Original(row, columnId).value)
  }

  /**
   * `applyOnColumn` on one row. `parse` stands for `new URL(...)`, `None` meaning the URL is malformed.
   * The source column must be in the row metadata, which `getById` relies on.
   */
  function ApplyOnColumn(row: Row, columnId: ColumnId, parse: string -> Option<Url>): Row
    requires IndexOf(row.schema.columns, columnId).Some?
  {
    var i := IndexOf(row.schema.columns, columnId).value;
    if Malformed(row, columnId, parse) then row
    else Extend(row, row.schema.columns[i], i, UrlOf(row, columnId, parse), Extractors)
  }

  /** A malformed URL leaves the row and its metadata untouched: no column is added. */
  lemma MalformedUnchanged(row: Row, columnId: ColumnId, parse: string -> Option<Url>)
    requires IndexOf(row.schema.columns, columnId).Some? && Malformed(row, columnId, parse)
    ensures ApplyOnColumn(row, columnId, parse) == row
  {
  }

  /** The three new columns of the source column `source`, with ids from `n` on. */
  function TokenColumns(source: Column, n: ColumnId): seq<Column>
  {
    [ Column(n, source.name + "_protocol", StringType, None, source.headerSize),
      Column(n + 1, source.name + "_host", StringType, None, source.headerSize),
      Column(n + 2, source.name + "_port", IntegerType, None, source.headerSize) ]
  }

  /**
   * Otherwise exactly three columns `<name>_protocol`, `<name>_host` and `<name>_port` follow the source
   * column, in that order and with fresh consecutive ids; the port column holds integers, the others text;
   * every other column keeps its place and the ids stay distinct.
   */
  lemma ApplyLayout(row: Row, columnId: ColumnId, parse: string -> Option<Url>)
    requires WellFormed(row.schema) && IndexOf(row.schema.columns, columnId).Some?
    requires !Malformed(row, columnId, parse)
    ensures var i := IndexOf(row.schema.columns, columnId).value;
            ApplyOnColumn(row, columnId, parse).schema
              == Schema(Place(row.schema.columns, i, TokenColumns(row.schema.columns[i], row.schema.nextId)),
                        row.schema.nextId + 3)
    ensures WellFormed(ApplyOnColumn(row, columnId, parse).schema)
  {
    var cols := row.schema.columns;
    var i := IndexOf(cols, columnId).value;
    var url := UrlOf(row, columnId, parse);
    ExtendColumns(row, cols[i], i, url, Extractors);
    ExtendWellFormed(row, cols[i], i, url, Extractors);
    var block := NewColumns(cols[i], Extractors, row.schema.nextId);
    assert block == [block[0], block[1], block[2]];
  }

  /**
   * The values written: the protocol, the host and the port (empty without one) of the parsed URL, or
   * three empty texts when the row's value is null; every other value is kept.
   */
  lemma ApplyValues(row: Row, columnId: ColumnId, parse: string -> Option<Url>)
    requires IndexOf(row.schema.columns, columnId).Some?
    requires !Malformed(row, columnId, parse)
    ensures var n := row.schema.nextId;
            var url := UrlOf(row, columnId, parse);
            ApplyOnColumn(row, columnId, parse).values
              == row.values[n := TokenValue(Protocol, url)][n + 1 := TokenValue(Host, url)][n + 2 := TokenValue(Port, url)]
  {
    var i := IndexOf(row.schema.columns, columnId).value;
    ExtendWritten(row, row.schema.columns[i], i, UrlOf(row, columnId, parse), Extractors);
    WrittenThree(row.values, row.schema.nextId, UrlOf(row, columnId, parse));
  }

  /** A null value gives three empty texts. */
  lemma NullGivesEmpty(row: Row, columnId: ColumnId, parse: string -> Option<Url>)
    requires IndexOf(row.schema.columns, columnId).Some? && columnId !in row.values
    ensures var n := row.schema.nextId;
            ApplyOnColumn(row, columnId, parse).values == row.values[n := ""][n + 1 := ""][n + 2 := ""]
  {
    ApplyValues(row, columnId, parse);
  }

  /** A parsed URL gives its protocol, its host and its port text. */
  lemma ParsedGivesTokens(row: Row, columnId: ColumnId, parse: string -> Option<Url>, url: Url)
    requires IndexOf(row.schema.columns, columnId).Some? && columnId in row.values
    requires parse(row.values[columnId]) == Some(url)
    ensures var n := row.schema.nextId;
            ApplyOnColumn(row, columnId, parse).values
              == row.values[n := url.protocol][n + 1 := url.host][n + 2 := PortText(url.port)]
  {
    ApplyValues(row, columnId, parse);
  }

  /** `http://localhost:8080/` gives the port text `8080`; without a port the port column is empty. */
  lemma PortExamples()
    ensures PortText(8080) == "8080" && PortText(-1) == ""
  {
    assert NatToString(8080) == "8080";
  }
}
