/** The `load_csv_data` management command of
    reviews/management/commands/load_csv_data.py: which files are read, in
    which order, and how each CSV row becomes the field values of one new
    object. Reading files and writing rows are outside the model: a file is
    its sequence of rows, and `bulk_create` is a function supplied by the
    caller that returns the primary keys present afterwards. */
module CsvLoader {
  import opened Results
  import Text

  datatype ModelKind = CategoryModel | GenreModel | UserModel | TitleModel | ReviewModel | CommentModel

  /** One entry of `models_config`: the file, its model, and its
      (CSV column, model field) pairs in order. */
  datatype FileConfig = FileConfig(filename: string, model: ModelKind, fields: seq<(string, string)>)

  const ModelsConfig: seq<FileConfig> := [
    FileConfig("category.csv", CategoryModel, [("name", "name"), ("slug", "slug")]),
    FileConfig("genre.csv", GenreModel, [("name", "name"), ("slug", "slug")]),
    FileConfig("users.csv", UserModel, [
      ("id", "id"), ("username", "username"), ("email", "email"), ("role", "role"),
      ("bio", "bio"), ("first_name", "first_name"), ("last_name", "last_name")]),
    FileConfig("titles.csv", TitleModel, [
      ("name", "name"), ("year", "year"), ("description", "description"), ("category", "category")]),
    FileConfig("review.csv", ReviewModel, [
      ("text", "text"), ("score", "score"), ("pub_date", "pub_date"),
      ("title_id", "title"), ("author", "author")]),
    FileConfig("comments.csv", CommentModel, [
      ("id", "id"), ("text", "text"), ("pub_date", "pub_date"),
      ("review_id", "review"), ("author", "author")])
  ]

  /** A value stored into a model field: stripped text, an integer, the ISO
      text of a timestamp, or a resolved foreign key. */
  datatype FieldValue = Plain(text: string) | Int(n: int) | Timestamp(iso: string) | Ref(target: ModelKind, id: int)

  /** The primary keys present in the database for each referenced model. */
  datatype Lookups = Lookups(categories: set<int>, users: set<int>, titles: set<int>, reviews: set<int>)

  /** A row of `csv.DictReader`: column name to raw text. */
  type Row = map<string, string>

  /** The keyword arguments of one new object. */
  type Fields = map<string, FieldValue>

  datatype LoadError = NotAnInteger(column: string, raw: string)

  /** The model a foreign-key column is resolved against. */
  function ReferencedModel(column: string): Option<ModelKind> {
    if column == "category" then Some(CategoryModel)
    else if column == "author" then Some(UserModel)
    else if column == "title_id" then Some(TitleModel)
    else if column == "review_id" then Some(ReviewModel)
    else None
  }

  function KnownIds(ids: Lookups, m: ModelKind): set<int> {
    match m
    case CategoryModel => ids.categories
    case UserModel => ids.users
    case TitleModel => ids.titles
    case ReviewModel => ids.reviews
    case _ => {}
  }

  predicate IsIntField(field: string) {
    field == "id" || field == "year" || field == "score"
  }

  /** The column is present and not white space only. */
  predicate IsFilled(row: Row, column: string) {
    column in row && Text.Strip(row[column]) != ""
  }

  /** A foreign-key column: the raw text is parsed as is (`int()` strips it
      itself), and an id with no row of the target model leaves the field
      unset. */
  function MapReference(column: string, m: ModelKind, raw: string, ids: Lookups): (r: Result<Option<FieldValue>, LoadError>)
    ensures r.Err? <==> Text.ParseInt(raw).None?
    ensures r.Ok? ==> var n := Text.ParseInt(raw).value;
      r.value == (if n in KnownIds(ids, m) then Some(Ref(m, n)) else None)
  {
    match Text.ParseInt(raw)
    case None => Err(NotAnInteger(column, raw))
    case Some(n) => Ok(if n in KnownIds(ids, m) then Some(Ref(m, n)) else None)
  }

  /** Any other column: the value is stripped, then converted for `id` and
      `year`; parsing the stripped text is parsing the raw text. */
  function MapValue(column: string, field: string, raw: string): (r: Result<Option<FieldValue>, LoadError>)
    ensures IsIntField(field) ==>
      && (r.Err? <==> Text.ParseInt(raw).None?)
      && (r.Ok? ==> r.value == Some(Int(Text.ParseInt(raw).value)))
    ensures !IsIntField(field) ==>
      r == Ok(Some(if field == "pub_date" then Timestamp(Text.Strip(raw)) else Plain(Text.Strip(raw))))
  {
    var value := Text.Strip(raw);
    if IsIntField(field) then
      Text.ParseIntIgnoresStrip(raw);
      match Text.ParseInt(value)
      case None => Err(NotAnInteger(column, raw))
      case Some(n) => Ok(Some(Int(n)))
    else if field == "pub_date" then Ok(Some(Timestamp(value)))
    else Ok(Some(Plain(value)))
  }

  /** One filled column. `Ok(None)` leaves the field unset: a foreign key
      whose id matches no row. */
  function MapColumn(column: string, field: string, raw: string, ids: Lookups): (r: Result<Option<FieldValue>, LoadError>)
    ensures ReferencedModel(column).Some? ==>
      && (r.Err? <==> Text.ParseInt(raw).None?)
      && (r.Ok? ==> var n := Text.ParseInt(raw).value; var m := ReferencedModel(column).value;
           r.value == (if n in KnownIds(ids, m) then Some(Ref(m, n)) else None))
    ensures ReferencedModel(column).None? && IsIntField(field) ==>
      && (r.Err? <==> Text.ParseInt(raw).None?)
      && (r.Ok? ==> r.value == Some(Int(Text.ParseInt(raw).value)))
    ensures ReferencedModel(column).None? && !IsIntField(field) ==>
      r == Ok(Some(if field == "pub_date" then Timestamp(Text.Strip(raw)) else Plain(Text.Strip(raw))))
  {
    match ReferencedModel(column)
    case Some(m) => MapReference(column, m, raw, ids)
    case None => MapValue(column, field, raw)
  }

  /** What the pair at position i makes of a row on its own: nothing for a
      missing or blank column, MapColumn's result otherwise. */
  function ColumnResult(fields: seq<(string, string)>, row: Row, ids: Lookups, i: nat): (r: Result<Option<FieldValue>, LoadError>)
    requires i < |fields|
    ensures r.Err? <==> MalformedInteger(fields, row, i)
  {
    if IsFilled(row, fields[i].0) then MapColumn(fields[i].0, fields[i].1, row[fields[i].0], ids) else Ok(None)
  }

  /** The pair at position i reads an integer (a foreign key, `id`, `year`
      or `score`) from a filled column whose text `int()` refuses. */
  predicate MalformedInteger(fields: seq<(string, string)>, row: Row, i: nat)
    requires i < |fields|
  {
    && IsFilled(row, fields[i].0)
    && (ReferencedModel(fields[i].0).Some? || IsIntField(fields[i].1))
    && Text.ParseInt(row[fields[i].0]).None?
  }

  /** Some pair of the mapping meets a malformed integer in the row. */
  predicate HasMalformedInteger(fields: seq<(string, string)>, row: Row) {
    exists i :: 0 <= i < |fields| && MalformedInteger(fields, row, i)
  }

  /** `e` is the error of the first pair that fails on the row. */
  predicate FirstColumnError(fields: seq<(string, string)>, row: Row, ids: Lookups, e: LoadError) {
    exists i :: 0 <= i < |fields| && ColumnResult(fields, row, ids, i) == Err(e)
      && forall j :: 0 <= j < i ==> ColumnResult(fields, row, ids, j).Ok?
  }

  /** The inner loop over a file's field mapping: columns in order, the
      first malformed integer aborting, a later field overwriting an earlier
      one of the same name. Whether a row fails does not depend on the ids
      present: an id with no row is not an error. */
  function MapRow(fields: seq<(string, string)>, row: Row, ids: Lookups): (r: Result<Fields, LoadError>)
    ensures r.Ok? ==> forall f :: f in r.value ==>
      exists i :: 0 <= i < |fields| && fields[i].1 == f && IsFilled(row, fields[i].0)
    ensures r.Err? <==> HasMalformedInteger(fields, row)
    ensures r.Err? ==> FirstColumnError(fields, row, ids, r.error)
  {
    if fields == [] then Ok(map[])
    else
      var rest := MapRow(fields[1..], row, ids);
      TailKeys(fields, row, rest);
      var r :=
        if !IsFilled(row, fields[0].0) then rest
        else
          (match MapColumn(fields[0].0, fields[0].1, row[fields[0].0], ids)
           case Err(e) => Err(e)
           case Ok(v) =>
             if rest.Err? then rest
             else Ok(if v.Some? then map[fields[0].1 := v.value] + rest.value else rest.value));
      MalformedStep(fields, row);
      if r.Err? then FirstErrorStep(fields, row, ids, r.error); r else r
  }

  /** The pairs of a mapping's tail are its pairs from position 1 on. */
  lemma ColumnResultShift(fields: seq<(string, string)>, row: Row, ids: Lookups)
    requires fields != []
    ensures forall i :: 1 <= i < |fields| ==>
      ColumnResult(fields, row, ids, i) == ColumnResult(fields[1..], row, ids, i - 1)
  {
    forall i | 1 <= i < |fields|
      ensures ColumnResult(fields, row, ids, i) == ColumnResult(fields[1..], row, ids, i - 1)
    {
      assert fields[i] == fields[1..][i - 1];
    }
  }

  /** A mapping meets a malformed integer iff its head or its tail does. */
  lemma MalformedStep(fields: seq<(string, string)>, row: Row)
    requires fields != []
    ensures HasMalformedInteger(fields, row) <==>
      MalformedInteger(fields, row, 0) || HasMalformedInteger(fields[1..], row)
  {
    if HasMalformedInteger(fields, row) && !MalformedInteger(fields, row, 0) {
      var i :| 0 <= i < |fields| && MalformedInteger(fields, row, i);
      assert fields[i] == fields[1..][i - 1];
      assert MalformedInteger(fields[1..], row, i - 1);
    }
    if HasMalformedInteger(fields[1..], row) {
      var i :| 0 <= i < |fields[1..]| && MalformedInteger(fields[1..], row, i);
      assert fields[i + 1] == fields[1..][i];
      assert MalformedInteger(fields, row, i + 1);
    }
  }

  /** The first failing pair of a mapping is its head when the head fails,
      and otherwise the first failing pair of its tail. */
  lemma FirstErrorStep(fields: seq<(string, string)>, row: Row, ids: Lookups, e: LoadError)
    requires fields != []
    requires ColumnResult(fields, row, ids, 0) == Err(e)
      || (ColumnResult(fields, row, ids, 0).Ok? && FirstColumnError(fields[1..], row, ids, e))
    ensures FirstColumnError(fields, row, ids, e)
  {
    if ColumnResult(fields, row, ids, 0).Ok? {
      ColumnResultShift(fields, row, ids);
      var i :| 0 <= i < |fields[1..]| && ColumnResult(fields[1..], row, ids, i) == Err(e)
        && forall j :: 0 <= j < i ==> ColumnResult(fields[1..], row, ids, j).Ok?;
      assert ColumnResult(fields, row, ids, i + 1) == Err(e);
      forall j | 0 <= j < i + 1
        ensures ColumnResult(fields, row, ids, j).Ok?
      {
        if j > 0 {
          assert ColumnResult(fields[1..], row, ids, j - 1).Ok?;
        }
      }
    }
  }

  /** A key contributed by the tail of a mapping comes from the whole. */
  lemma TailKeys(fields: seq<(string, string)>, row: Row, rest: Result<Fields, LoadError>)
    requires fields != []
    requires rest.Ok? ==> forall f :: f in rest.value ==>
      exists i :: 0 <= i < |fields[1..]| && fields[1..][i].1 == f && IsFilled(row, fields[1..][i].0)
    ensures rest.Ok? ==> forall f :: f in rest.value ==>
      exists i :: 0 <= i < |fields| && fields[i].1 == f && IsFilled(row, fields[i].0)
  {
    if rest.Ok? {
      forall f | f in rest.value
        ensures exists i :: 0 <= i < |fields| && fields[i].1 == f && IsFilled(row, fields[i].0)
      {
        var i :| 0 <= i < |fields[1..]| && fields[1..][i].1 == f && IsFilled(row, fields[1..][i].0);
        assert fields[i + 1] == fields[1..][i];
      }
    }
  }

  /** No two columns of a mapping feed the same model field. */
  predicate DistinctFields(fields: seq<(string, string)>) {
    forall i, j :: 0 <= i < j < |fields| ==> fields[i].1 != fields[j].1
  }

  /** What a successful row mapping `r` holds for one (column, field)
      pair: an empty or missing column sets nothing, and a filled one sets
      exactly what MapColumn makes of it. */
  predicate FieldAgrees(column: string, field: string, row: Row, ids: Lookups, r: Fields) {
    && (!IsFilled(row, column) ==> field !in r)
    && (IsFilled(row, column) ==>
          var v := MapColumn(column, field, row[column], ids);
          v.Ok? && (field in r <==> v.value.Some?) && (field in r ==> r[field] == v.value.value))
  }

  lemma DistinctFieldsTail(fields: seq<(string, string)>)
    requires fields != [] && DistinctFields(fields)
    ensures DistinctFields(fields[1..])
    ensures forall k :: 0 <= k < |fields[1..]| ==> fields[1..][k].1 != fields[0].1
  {
    forall a, b | 0 <= a < b < |fields[1..]|
      ensures fields[1..][a].1 != fields[1..][b].1
    {
      assert fields[1..][a] == fields[a + 1] && fields[1..][b] == fields[b + 1];
    }
    forall k | 0 <= k < |fields[1..]|
      ensures fields[1..][k].1 != fields[0].1
    {
      assert fields[1..][k] == fields[k + 1];
    }
  }

  /** Every pair of a mapping with distinct fields is reflected in the
      result as FieldAgrees describes. */
  lemma {:induction false} MapRowPointwise(fields: seq<(string, string)>, row: Row, ids: Lookups, i: nat)
    requires DistinctFields(fields)
    requires MapRow(fields, row, ids).Ok?
    requires i < |fields|
    ensures FieldAgrees(fields[i].0, fields[i].1, row, ids, MapRow(fields, row, ids).value)
  {
    DistinctFieldsTail(fields);
    var rest := MapRow(fields[1..], row, ids);
    assert rest.Ok?;
    if i == 0 {
      assert fields[0].1 !in rest.value;
    } else {
      assert fields[1..][i - 1] == fields[i];
      MapRowPointwise(fields[1..], row, ids, i - 1);
      HeadTouchesOwnField(fields, row, ids);
      AgreesThroughOtherField(fields[i].0, fields[i].1, row, ids, MapRow(fields, row, ids).value, rest.value);
    }
  }

  /** The head pair of a mapping only touches its own field. */
  lemma HeadTouchesOwnField(fields: seq<(string, string)>, row: Row, ids: Lookups)
    requires fields != [] && MapRow(fields, row, ids).Ok?
    ensures MapRow(fields[1..], row, ids).Ok?
    ensures forall f :: f != fields[0].1 ==>
      && (f in MapRow(fields, row, ids).value <==> f in MapRow(fields[1..], row, ids).value)
      && (f in MapRow(fields, row, ids).value ==> MapRow(fields, row, ids).value[f] == MapRow(fields[1..], row, ids).value[f])
  {
    var whole := MapRow(fields, row, ids).value;
    var rest := MapRow(fields[1..], row, ids);
    if IsFilled(row, fields[0].0) {
      var v := MapColumn(fields[0].0, fields[0].1, row[fields[0].0], ids);
      assert v.Ok? && rest.Ok?;
      if v.value.Some? {
        assert whole == map[fields[0].1 := v.value.value] + rest.value;
      } else {
        assert whole == rest.value;
      }
    } else {
      assert MapRow(fields, row, ids) == rest;
    }
  }

  /** Agreement at a field depends only on that field's entry. */
  lemma AgreesThroughOtherField(column: string, field: string, row: Row, ids: Lookups, r: Fields, rest: Fields)
    requires field in r <==> field in rest
    requires field in r ==> r[field] == rest[field]
    requires FieldAgrees(column, field, row, ids, rest)
    ensures FieldAgrees(column, field, row, ids, r)
  {
  }

  /** One row: no object at all when nothing was set. */
  function LoadRow(cfg: FileConfig, row: Row, ids: Lookups): (r: Result<Option<Fields>, LoadError>)
    ensures r.Ok? ==> (MapRow(cfg.fields, row, ids).Ok?
      && (r.value.None? <==> MapRow(cfg.fields, row, ids).value == map[])
      && (r.value.Some? ==> r.value.value == MapRow(cfg.fields, row, ids).value))
    ensures r.Err? <==> HasMalformedInteger(cfg.fields, row)
  {
    var fields :- MapRow(cfg.fields, row, ids);
    Ok(if fields == map[] then None else Some(fields))
  }

  /** How the loop over a file's rows sees one row. */
  type RowLoader = Row -> Result<Option<Fields>, LoadError>

  /** The objects a run of row results yields: the values of the rows that
      made one, in order. */
  function Kept(results: seq<Result<Option<Fields>, LoadError>>): (r: seq<Fields>)
    ensures |r| <= |results|
    ensures forall k :: 0 <= k < |r| ==> Ok(Some(r[k])) in results
  {
    if results == [] then []
    else
      var rest := Kept(results[1..]);
      if results[0].Ok? && results[0].value.Some? then [results[0].value.value] + rest else rest
  }

  /** Each row's result, in row order. */
  function RowResults(load: RowLoader, rows: seq<Row>): (r: seq<Result<Option<Fields>, LoadError>>)
    ensures |r| == |rows|
    ensures forall i :: 0 <= i < |rows| ==> r[i] == load(rows[i])
  {
    seq(|rows|, i requires 0 <= i < |rows| => load(rows[i]))
  }

  /** The loop over a file's rows: the objects of the rows that make one,
      in row order; the first failing row stops it with its error. */
  function LoadRows(load: RowLoader, rows: seq<Row>): (r: Result<seq<Fields>, LoadError>)
    ensures r.Err? <==> exists i :: 0 <= i < |rows| && load(rows[i]).Err?
    ensures r.Err? ==> exists i :: (0 <= i < |rows| && load(rows[i]) == Err(r.error)
      && forall j :: 0 <= j < i ==> load(rows[j]).Ok?)
    ensures r.Ok? ==> r.value == Kept(RowResults(load, rows))
    decreases |rows|
  {
    if rows == [] then Ok([])
    else
      match load(rows[0])
      case Err(e) => Err(e)
      case Ok(first) =>
        var rest := LoadRows(load, rows[1..]);
        assert forall i :: 1 <= i < |rows| ==> rows[i] == rows[1..][i - 1];
        assert RowResults(load, rows)[1..] == RowResults(load, rows[1..]);
        if rest.Err? then
          var i :| 0 <= i < |rows[1..]| && load(rows[1..][i]) == Err(rest.error)
            && forall j :: 0 <= j < i ==> load(rows[1..][j]).Ok?;
          assert load(rows[i + 1]) == Err(rest.error);
          Err(rest.error)
        else
          Ok(if first.Some? then [first.value] + rest.value else rest.value)
  }

  function RowLoaderOf(cfg: FileConfig, ids: Lookups): RowLoader {
    (row: Row) => LoadRow(cfg, row, ids)
  }

  /** A file: the objects of its rows, in row order, skipping rows that set
      nothing; the first row with a malformed integer stops it. */
  function LoadFile(cfg: FileConfig, rows: seq<Row>, ids: Lookups): (r: Result<seq<Fields>, LoadError>)
    ensures r.Err? <==> exists i :: 0 <= i < |rows| && LoadRow(cfg, rows[i], ids).Err?
    ensures r.Err? ==> exists i :: (0 <= i < |rows| && LoadRow(cfg, rows[i], ids) == Err(r.error)
      && forall j :: 0 <= j < i ==> LoadRow(cfg, rows[j], ids).Ok?)
    ensures r.Ok? ==> r.value == Kept(RowResults(RowLoaderOf(cfg, ids), rows))
    ensures r.Err? <==> exists i :: 0 <= i < |rows| && HasMalformedInteger(cfg.fields, rows[i])
  {
    LoadRows(RowLoaderOf(cfg, ids), rows)
  }

  /** No object of a loaded file is empty: a row that sets nothing makes
      none. */
  lemma LoadFileObjectsNonEmpty(cfg: FileConfig, rows: seq<Row>, ids: Lookups, k: nat)
    requires LoadFile(cfg, rows, ids).Ok? && k < |LoadFile(cfg, rows, ids).value|
    ensures LoadFile(cfg, rows, ids).value[k] != map[]
  {
    var objects := LoadFile(cfg, rows, ids).value;
    var results := RowResults(RowLoaderOf(cfg, ids), rows);
    assert Ok(Some(objects[k])) in results;
    var i :| 0 <= i < |results| && results[i] == Ok(Some(objects[k]));
    assert LoadRow(cfg, rows[i], ids) == Ok(Some(objects[k]));
  }

  /** A batch handed to `bulk_create`. */
  datatype Batch = Batch(filename: string, model: ModelKind, objects: seq<Fields>)

  /** The position of a model's file in the loading order. */
  function ModelRank(m: ModelKind): nat {
    match m
    case CategoryModel => 0
    case GenreModel => 1
    case UserModel => 2
    case TitleModel => 3
    case ReviewModel => 4
    case CommentModel => 5
  }

  predicate RanksIncrease(configs: seq<FileConfig>) {
    forall i, j :: 0 <= i < j < |configs| ==> ModelRank(configs[i].model) < ModelRank(configs[j].model)
  }

  /** Each batch comes from a present file and a configured model, and
      holds at least one object. */
  predicate BatchesFrom(configs: seq<FileConfig>, files: map<string, seq<Row>>, batches: seq<Batch>) {
    forall k :: 0 <= k < |batches| ==>
      && batches[k].filename in files && batches[k].objects != []
      && exists i :: (0 <= i < |configs| && configs[i].filename == batches[k].filename
           && configs[i].model == batches[k].model)
  }

  predicate RanksOrdered(batches: seq<Batch>) {
    forall k, l :: 0 <= k < l < |batches| ==> ModelRank(batches[k].model) < ModelRank(batches[l].model)
  }

  /** What the command leaves behind: the batches inserted, in order, and
      the error that stopped it, if any. There is no transaction, so the
      batches inserted before a failure stay. */
  datatype LoadOutcome = LoadOutcome(batches: seq<Batch>, failure: Option<LoadError>)

  /** How the loop sees one file: the objects it loads against the current
      lookups, or the error that stops the command. */
  type FileLoader = (FileConfig, Lookups) -> Result<seq<Fields>, LoadError>

  /** What the command takes from a file: its objects, or nothing when it
      is missing. */
  function LoadPresent(cfg: FileConfig, files: map<string, seq<Row>>, ids: Lookups): Result<seq<Fields>, LoadError> {
    if cfg.filename in files then LoadFile(cfg, files[cfg.filename], ids) else Ok([])
  }

  function FromFiles(files: map<string, seq<Row>>): FileLoader {
    (cfg: FileConfig, ids: Lookups) => LoadPresent(cfg, files, ids)
  }

  /** The batch a loaded file contributes: none when it has no objects. */
  function BatchOf(cfg: FileConfig, objects: seq<Fields>): seq<Batch> {
    if objects == [] then [] else [Batch(cfg.filename, cfg.model, objects)]
  }

  /** The lookups after one file: its objects are inserted when it loads
      and has any; otherwise nothing changes. */
  function Advance(cfg: FileConfig, load: FileLoader, ids: Lookups,
                   insert: (Lookups, ModelKind, seq<Fields>) -> Lookups): Lookups {
    var loaded := load(cfg, ids);
    if loaded.Ok? && loaded.value != [] then insert(ids, cfg.model, loaded.value) else ids
  }

  /** The outer loop over the configured files: each file is loaded against
      the lookups present before it and a non-empty batch is inserted. An
      error stops the loop before its file's batch is inserted; there is no
      transaction, so the batches inserted before it stay. */
  function Loop(configs: seq<FileConfig>, load: FileLoader, ids: Lookups,
                insert: (Lookups, ModelKind, seq<Fields>) -> Lookups): LoadOutcome
    decreases |configs|
  {
    if configs == [] then LoadOutcome([], None)
    else
      var loaded := load(configs[0], ids);
      if loaded.Err? then LoadOutcome([], Some(loaded.error))
      else
        var rest := Loop(configs[1..], load, Advance(configs[0], load, ids, insert), insert);
        LoadOutcome(BatchOf(configs[0], loaded.value) + rest.batches, rest.failure)
  }

  /** The loop over the files present: a missing file is skipped. */
  function LoadFrom(configs: seq<FileConfig>, files: map<string, seq<Row>>, ids: Lookups,
                    insert: (Lookups, ModelKind, seq<Fields>) -> Lookups): LoadOutcome {
    Loop(configs, FromFiles(files), ids, insert)
  }

  /** Every inserted batch is non-empty and comes from a present,
      configured file, and the batches follow the configured model order. */
  lemma {:induction false} LoadFromShape(configs: seq<FileConfig>, files: map<string, seq<Row>>, ids: Lookups,
                                         insert: (Lookups, ModelKind, seq<Fields>) -> Lookups)
    ensures BatchesFrom(configs, files, LoadFrom(configs, files, ids, insert).batches)
    ensures RanksIncrease(configs) ==> RanksOrdered(LoadFrom(configs, files, ids, insert).batches)
    ensures |LoadFrom(configs, files, ids, insert).batches| <= |configs|
    decreases |configs|
  {
    if configs != [] {
      var cfg := configs[0];
      var loaded := LoadPresent(cfg, files, ids);
      if loaded.Ok? {
        var next := Advance(cfg, FromFiles(files), ids, insert);
        LoadFromShape(configs[1..], files, next, insert);
        var rest := LoadFrom(configs[1..], files, next, insert);
        var batch := Batch(cfg.filename, cfg.model, loaded.value);
        assert loaded.value != [] ==> cfg.filename in files;
        LoadFromStep(configs, files, batch, rest.batches);
        assert BatchOf(cfg, loaded.value) == (if loaded.value == [] then [] else [batch]);
      }
    }
  }

  /** One step of LoadFrom keeps both of its guarantees. */
  lemma LoadFromStep(configs: seq<FileConfig>, files: map<string, seq<Row>>, batch: Batch, rest: seq<Batch>)
    requires configs != []
    requires batch.filename == configs[0].filename && batch.model == configs[0].model
    requires batch.objects != [] ==> batch.filename in files
    requires BatchesFrom(configs[1..], files, rest)
    requires RanksIncrease(configs) ==> RanksOrdered(rest)
    ensures BatchesFrom(configs, files, rest)
    ensures batch.objects != [] ==> BatchesFrom(configs, files, [batch] + rest)
    ensures RanksIncrease(configs) ==> RanksOrdered(rest)
    ensures RanksIncrease(configs) && batch.objects != [] ==> RanksOrdered([batch] + rest)
  {
    BatchesFromStep(configs, files, batch, rest);
    if RanksIncrease(configs) && batch.objects != [] {
      RanksOrderedStep(configs, files, batch, rest);
    }
  }

  lemma BatchesFromStep(configs: seq<FileConfig>, files: map<string, seq<Row>>, batch: Batch, rest: seq<Batch>)
    requires configs != []
    requires batch.filename == configs[0].filename && batch.model == configs[0].model
    requires batch.objects != [] ==> batch.filename in files
    requires BatchesFrom(configs[1..], files, rest)
    ensures BatchesFrom(configs, files, rest)
    ensures batch.objects != [] ==> BatchesFrom(configs, files, [batch] + rest)
  {
    forall k | 0 <= k < |rest|
      ensures exists i :: (0 <= i < |configs| && configs[i].filename == rest[k].filename
        && configs[i].model == rest[k].model)
    {
      var i :| 0 <= i < |configs[1..]| && configs[1..][i].filename == rest[k].filename
        && configs[1..][i].model == rest[k].model;
      assert configs[i + 1] == configs[1..][i];
    }
    var out := [batch] + rest;
    assert forall k :: 1 <= k < |out| ==> out[k] == rest[k - 1];
    if batch.objects != [] {
      assert out[0] == batch;
    }
  }

  lemma RanksOrderedStep(configs: seq<FileConfig>, files: map<string, seq<Row>>, batch: Batch, rest: seq<Batch>)
    requires configs != [] && batch.model == configs[0].model
    requires BatchesFrom(configs[1..], files, rest)
    requires RanksIncrease(configs) && RanksOrdered(rest)
    ensures RanksOrdered([batch] + rest)
  {
    forall k | 0 <= k < |rest|
      ensures ModelRank(batch.model) < ModelRank(rest[k].model)
    {
      var i :| 0 <= i < |configs[1..]| && configs[1..][i].filename == rest[k].filename
        && configs[1..][i].model == rest[k].model;
      assert configs[i + 1] == configs[1..][i];
    }
    var out := [batch] + rest;
    assert forall k :: 1 <= k < |out| ==> out[k] == rest[k - 1];
  }

  /** The lookups after a run of files that load. */
  function IdsAfter(configs: seq<FileConfig>, load: FileLoader, ids: Lookups,
                    insert: (Lookups, ModelKind, seq<Fields>) -> Lookups): Lookups
    decreases |configs|
  {
    if configs == [] then ids
    else IdsAfter(configs[1..], load, Advance(configs[0], load, ids, insert), insert)
  }

  /** One file on its own: an error is reported with nothing inserted, and
      a file that loads yields its batch when it has objects. */
  lemma LoopOne(cfg: FileConfig, load: FileLoader, ids: Lookups,
                insert: (Lookups, ModelKind, seq<Fields>) -> Lookups)
    ensures load(cfg, ids).Err? ==> Loop([cfg], load, ids, insert) == LoadOutcome([], Some(load(cfg, ids).error))
    ensures load(cfg, ids).Ok? && load(cfg, ids).value == [] ==> Loop([cfg], load, ids, insert) == LoadOutcome([], None)
    ensures load(cfg, ids).Ok? && load(cfg, ids).value != [] ==>
      Loop([cfg], load, ids, insert) == LoadOutcome([Batch(cfg.filename, cfg.model, load(cfg, ids).value)], None)
  {
    assert [cfg][1..] == [];
  }

  /** The equation LoopAppend proves: the loop over a concatenation runs
      the first part and then, unless that failed, the second part from the
      lookups the first left. */
  predicate AppendLaw(c1: seq<FileConfig>, c2: seq<FileConfig>, load: FileLoader,
                      ids: Lookups, insert: (Lookups, ModelKind, seq<Fields>) -> Lookups) {
    var a := Loop(c1, load, ids, insert);
    var b := Loop(c2, load, IdsAfter(c1, load, ids, insert), insert);
    Loop(c1 + c2, load, ids, insert)
      == if a.failure.Some? then a else LoadOutcome(a.batches + b.batches, b.failure)
  }

  lemma {:induction false} LoopAppend(c1: seq<FileConfig>, c2: seq<FileConfig>, load: FileLoader,
                                      ids: Lookups, insert: (Lookups, ModelKind, seq<Fields>) -> Lookups)
    ensures AppendLaw(c1, c2, load, ids, insert)
    decreases |c1|
  {
    if c1 == [] {
      assert c1 + c2 == c2;
    } else {
      assert (c1 + c2)[0] == c1[0];
      assert (c1 + c2)[1..] == c1[1..] + c2;
      LoopAppend(c1[1..], c2, load, Advance(c1[0], load, ids, insert), insert);
    }
  }

  /** The command finishes without an error exactly when every configured
      file loads against the lookups the files before it left. */
  lemma {:induction false} LoopSucceedsIff(configs: seq<FileConfig>, load: FileLoader, ids: Lookups,
                                           insert: (Lookups, ModelKind, seq<Fields>) -> Lookups)
    ensures Loop(configs, load, ids, insert).failure.None? <==>
      forall i :: 0 <= i < |configs| ==> load(configs[i], IdsAfter(configs[..i], load, ids, insert)).Ok?
    decreases |configs|
  {
    if configs != [] {
      var next := Advance(configs[0], load, ids, insert);
      var rest := configs[1..];
      LoopSucceedsIff(rest, load, next, insert);
      assert configs[..0] == [];
      forall j | 0 <= j < |rest|
        ensures IdsAfter(configs[..j + 1], load, ids, insert) == IdsAfter(rest[..j], load, next, insert)
        ensures configs[j + 1] == rest[j]
      {
        assert configs[..j + 1][0] == configs[0];
        assert configs[..j + 1][1..] == rest[..j];
      }
      if load(configs[0], ids).Ok? {
        if forall i :: 0 <= i < |configs| ==> load(configs[i], IdsAfter(configs[..i], load, ids, insert)).Ok? {
          forall j | 0 <= j < |rest| ensures load(rest[j], IdsAfter(rest[..j], load, next, insert)).Ok? {
            assert load(configs[j + 1], IdsAfter(configs[..j + 1], load, ids, insert)).Ok?;
          }
        }
        if forall j :: 0 <= j < |rest| ==> load(rest[j], IdsAfter(rest[..j], load, next, insert)).Ok? {
          forall i | 0 <= i < |configs| ensures load(configs[i], IdsAfter(configs[..i], load, ids, insert)).Ok? {
            if i > 0 {
              assert load(rest[i - 1], IdsAfter(rest[..i - 1], load, next, insert)).Ok?;
            }
          }
        }
      }
    }
  }

  /** A file that loads with no objects contributes nothing wherever it
      stands in the order. */
  lemma EmptyFileSkipped(configs: seq<FileConfig>, load: FileLoader, ids: Lookups,
                         insert: (Lookups, ModelKind, seq<Fields>) -> Lookups, i: nat)
    requires i < |configs|
    requires load(configs[i], IdsAfter(configs[..i], load, ids, insert)) == Ok([])
    ensures Loop(configs, load, ids, insert) == Loop(configs[..i] + configs[i + 1..], load, ids, insert)
  {
    var tail := configs[i + 1..];
    assert configs == configs[..i] + ([configs[i]] + tail);
    LoopAppend(configs[..i], [configs[i]] + tail, load, ids, insert);
    LoopAppend(configs[..i], tail, load, ids, insert);
    assert ([configs[i]] + tail)[1..] == tail;
  }

  /** A missing file contributes nothing wherever it stands in the order. */
  lemma MissingFileSkipped(configs: seq<FileConfig>, files: map<string, seq<Row>>, ids: Lookups,
                           insert: (Lookups, ModelKind, seq<Fields>) -> Lookups, i: nat)
    requires i < |configs| && configs[i].filename !in files
    ensures LoadFrom(configs, files, ids, insert) == LoadFrom(configs[..i] + configs[i + 1..], files, ids, insert)
  {
    var x := IdsAfter(configs[..i], FromFiles(files), ids, insert);
    assert FromFiles(files)(configs[i], x) == LoadPresent(configs[i], files, x) == Ok([]);
    EmptyFileSkipped(configs, FromFiles(files), ids, insert, i);
  }

  /** A file that loads, after earlier files that loaded, has its batch
      inserted right after theirs, from the lookups they left; whatever the
      later files do, even fail, the batches so far are kept. */
  lemma FileBatchKept(configs: seq<FileConfig>, load: FileLoader, ids: Lookups,
                      insert: (Lookups, ModelKind, seq<Fields>) -> Lookups, i: nat)
    requires i < |configs|
    requires Loop(configs[..i], load, ids, insert).failure.None?
    requires load(configs[i], IdsAfter(configs[..i], load, ids, insert)).Ok?
    ensures var x := IdsAfter(configs[..i], load, ids, insert);
      var later := Loop(configs[i + 1..], load, Advance(configs[i], load, x, insert), insert);
      Loop(configs, load, ids, insert) == LoadOutcome(
        Loop(configs[..i], load, ids, insert).batches + BatchOf(configs[i], load(configs[i], x).value) + later.batches,
        later.failure)
  {
    var tail := configs[i + 1..];
    assert configs == configs[..i] + ([configs[i]] + tail);
    LoopAppend(configs[..i], [configs[i]] + tail, load, ids, insert);
    assert ([configs[i]] + tail)[1..] == tail;
  }

  /** A file that fails, after earlier files that loaded, stops the
      command: the earlier batches stay and nothing more is inserted. */
  lemma FileFailureStops(configs: seq<FileConfig>, load: FileLoader, ids: Lookups,
                         insert: (Lookups, ModelKind, seq<Fields>) -> Lookups, i: nat)
    requires i < |configs|
    requires Loop(configs[..i], load, ids, insert).failure.None?
    requires load(configs[i], IdsAfter(configs[..i], load, ids, insert)).Err?
    ensures Loop(configs, load, ids, insert) == LoadOutcome(
      Loop(configs[..i], load, ids, insert).batches,
      Some(load(configs[i], IdsAfter(configs[..i], load, ids, insert)).error))
  {
    var tail := configs[i + 1..];
    assert configs == configs[..i] + ([configs[i]] + tail);
    LoopAppend(configs[..i], [configs[i]] + tail, load, ids, insert);
  }

  /** Without files the loop creates nothing and nothing fails. */
  lemma {:induction false} NoFilesNoBatches(configs: seq<FileConfig>, ids: Lookups,
                                            insert: (Lookups, ModelKind, seq<Fields>) -> Lookups)
    ensures LoadFrom(configs, map[], ids, insert) == LoadOutcome([], None)
  {
    if configs != [] {
      NoFilesNoBatches(configs[1..], ids, insert);
    }
  }

  /** Command.handle: the configured files in order. */
  function Handle(files: map<string, seq<Row>>, ids: Lookups,
                  insert: (Lookups, ModelKind, seq<Fields>) -> Lookups): (r: LoadOutcome)
    ensures forall k :: 0 <= k < |r.batches| ==> r.batches[k].filename in files
    ensures RanksOrdered(r.batches)
    ensures |r.batches| <= |ModelsConfig|
    ensures files == map[] ==> r == LoadOutcome([], None)
  {
    assert RanksIncrease(ModelsConfig);
    LoadFromShape(ModelsConfig, files, ids, insert);
    NoFilesNoBatches(ModelsConfig, ids, insert);
    LoadFrom(ModelsConfig, files, ids, insert)
  }

  /** The loading order is category, genre, users, titles, review,
      comments; every mapping has distinct model fields; and every foreign
      key column points at a model whose file is loaded earlier. */
  lemma ConfigLoadsReferencesFirst()
    ensures |ModelsConfig| == 6
    ensures forall i :: 0 <= i < |ModelsConfig| ==> ModelRank(ModelsConfig[i].model) == i
    ensures [ModelsConfig[0].filename, ModelsConfig[1].filename, ModelsConfig[2].filename,
             ModelsConfig[3].filename, ModelsConfig[4].filename, ModelsConfig[5].filename]
         == ["category.csv", "genre.csv", "users.csv", "titles.csv", "review.csv", "comments.csv"]
    ensures forall i :: 0 <= i < |ModelsConfig| ==> DistinctFields(ModelsConfig[i].fields)
    ensures forall i, k :: (0 <= i < |ModelsConfig| && 0 <= k < |ModelsConfig[i].fields|
      && ReferencedModel(ModelsConfig[i].fields[k].0).Some?) ==>
        ModelRank(ReferencedModel(ModelsConfig[i].fields[k].0).value) < i
  {
  }

  /** For every configured file and column: a missing or blank column sets
      nothing, an unresolved foreign key sets nothing, and every other
      filled column sets what MapColumn makes of it. */
  lemma ConfiguredRowFields(i: nat, row: Row, ids: Lookups, k: nat)
    requires i < |ModelsConfig| && k < |ModelsConfig[i].fields|
    requires MapRow(ModelsConfig[i].fields, row, ids).Ok?
    ensures FieldAgrees(ModelsConfig[i].fields[k].0, ModelsConfig[i].fields[k].1, row, ids,
                        MapRow(ModelsConfig[i].fields, row, ids).value)
  {
    ConfigLoadsReferencesFirst();
    MapRowPointwise(ModelsConfig[i].fields, row, ids, k);
  }
}
