/** The manifests table of one service under create-manifest, set-criteria (replacing) and
    delete-manifest: the check-then-write of each command and what every run of them keeps. */
module ManifestTable {
  import opened Text
  import opened CriteriaDatabase
  import opened PublishManifest
  import opened Admission
  import opened LostWords
  import opened BestMatch
  import opened InstanceNumbers

  /** Each MAX column stands right after its MIN column, as the positional INSERT relies on. */
  ghost predicate Adjacent(cols: seq<Column>) {
    && (forall i | 0 <= i < |cols| && cols[i].MaxOf? :: i > 0 && cols[i - 1] == MinOf(cols[i].crit))
    && (forall i | 0 <= i < |cols| && cols[i].MinOf? :: i + 1 < |cols| && cols[i + 1] == MaxOf(cols[i].crit))
    && (forall i, j | 0 <= i < j < |cols| :: cols[i] != cols[j])
  }

  lemma ManifestColumnsAreAdjacent()
    ensures Adjacent(MANIFEST_COLUMNS)
  {
    forall i: nat | i < |MANIFEST_COLUMNS| {
      ManifestColumnAt(i);
    }
    forall i, j | 0 <= i < j < |MANIFEST_COLUMNS|
      ensures MANIFEST_COLUMNS[i] != MANIFEST_COLUMNS[j]
    {
      ManifestColumnsDiffer(i, j);
    }
  }

  lemma UpperTwice(s: string)
    ensures Upper(Upper(s)) == Upper(s)
  {}

  lemma {:induction false} SanitizeUpper(s: string)
    ensures SanitizeSQL(Upper(s)) == Upper(SanitizeSQL(s))
  {
    if s != "" {
      SanitizeUpper(s[1..]);
      assert Upper(s)[1..] == Upper(s[1..]);
      assert IsSqlSpecial(Upper(s)[0]) <==> IsSqlSpecial(s[0]);
      if !IsSqlSpecial(s[0]) {
        assert Upper(SanitizeSQL(s)) == [UpperChar(s[0])] + Upper(SanitizeSQL(s[1..]));
      } else {
        assert SanitizeSQL(s) == SanitizeSQL(s[1..]);
        assert SanitizeSQL(Upper(s)) == SanitizeSQL(Upper(s)[1..]);
      }
    }
  }

  /** The literal insert_SQL writes for one bound, as HEX() or the number reads it back. */
  function InsertedBound(crit: string, v: string): Cell {
    if v == "unbounded" then Null
    else if crit == "mac" then Hex(Upper(SanitizeSQL(Upper(v))))
    else Number(IntegerOf(SanitizeSQL(Upper(v))))
  }

  lemma InsertedIsBound(crit: string, v: string)
    ensures InsertedBound(crit, v) == BoundCell(crit, v)
  {
    SanitizeUpper(v);
    UpperTwice(SanitizeSQL(v));
    UpperParse(SanitizeSQL(v), 10);
  }

  /** insert_SQL's value list: MIN columns are skipped and written together with their MAX. */
  method InsertValues(cols: seq<Column>, criteria: Criteria) returns (cells: seq<Cell>)
    requires Adjacent(cols) && Prepared(cols, criteria)
    ensures |cells| == |cols| && forall i | 0 <= i < |cols| :: cells[i] == StoredCell(criteria, cols[i])
  {
    cells := [];
    for k := 0 to |cols|
      invariant |cells| == if k > 0 && cols[k - 1].MinOf? then k - 1 else k
      invariant forall i | 0 <= i < |cells| :: cells[i] == StoredCell(criteria, cols[i])
    {
      var crit := cols[k];
      if crit.MinOf? {
        continue;
      }
      var values := GetCriterion(criteria, crit.crit);
      if values.None? {
        cells := cells + if crit.MaxOf? then [Null, Null] else [Null];
      } else if !crit.MaxOf? {
        cells := cells + [Word(StoredText(values.value))];
      } else {
        assert cols[k - 1] == MinOf(crit.crit);
        BothBounds(cols, criteria, crit.crit);
        InsertedIsBound(crit.crit, values.value[0]);
        InsertedIsBound(crit.crit, values.value[1]);
        cells := cells + [InsertedBound(crit.crit, values.value[0]), InsertedBound(crit.crit, values.value[1])];
      }
    }
  }

  method InsertCells(cols: seq<Column>, criteria: Criteria) returns (cells: map<Column, Cell>)
    requires Adjacent(cols) && Prepared(cols, criteria)
    ensures cells == StoredCells(cols, criteria)
  {
    var values := InsertValues(cols, criteria);
    cells := map i | 0 <= i < |cols| :: cols[i] := values[i];
  }

  /** The column under which the loop of set_criteria comes to this one. */
  function Lead(col: Column): Column {
    if col.MaxOf? then MinOf(col.crit) else col
  }

  /** set_criteria without append: every criterion of the schema is assigned, NULL when not given. */
  method ReplacementCells(cols: seq<Column>, criteria: Criteria) returns (pairs: map<Column, Cell>)
    requires ValidSchema(cols) && Prepared(cols, criteria)
    ensures pairs == StoredCells(cols, criteria)
  {
    pairs := map[];
    for k := 0 to |cols|
      invariant forall col :: col in pairs <==> Lead(col) in cols[..k]
      invariant forall col | col in pairs :: pairs[col] == StoredCell(criteria, col)
    {
      assert cols[..k + 1] == cols[..k] + [cols[k]];
      if cols[k].MaxOf? {
        continue;
      }
      var crit := cols[k].crit;
      var values := GetCriterion(criteria, crit);
      if cols[k].MinOf? {
        if values.None? {
          pairs := pairs[MinOf(crit) := Null][MaxOf(crit) := Null];
        } else {
          BothBounds(cols, criteria, crit);
          pairs := pairs[MinOf(crit) := BoundCell(crit, values.value[0])][MaxOf(crit) := BoundCell(crit, values.value[1])];
        }
      } else {
        pairs := pairs[ValueOf(crit) := if values.None? then Null else Word(StoredText(values.value))];
      }
    }
    assert cols[..|cols|] == cols;
    assert forall col :: Lead(col) in cols <==> col in cols;
  }

  /** The two checks in the order both commands call them. */
  method CheckCriteria(cols: seq<Column>, criteria: Criteria, rows: seq<Row>, exclude: set<string>) returns (r: Result<()>)
    requires Prepared(cols, criteria)
    ensures r.Ok? <==> Admitted(cols, criteria, rows, exclude)
  {
    var collisions := FindCollidingCriteria(cols, criteria, rows, exclude);
    if collisions.Err? {
      return Err(collisions.failure);
    }
    r := FindCollidingManifests(cols, criteria, rows, collisions.value);
  }

  lemma CheckedLast(cols: seq<Column>, criteria: Criteria, k: nat, rows: seq<Row>, exclude: set<string>)
    requires Prepared(cols, criteria) && k < |criteria| && CollisionsUpTo(cols, criteria, k + 1, rows, exclude).Ok?
    ensures RangeChecked(cols, criteria, k) && CollisionsUpTo(cols, criteria, k, rows, exclude).Ok?
  {
    CollisionsNext(cols, criteria, k, rows, exclude);
  }

  lemma {:induction false} CheckedRange(cols: seq<Column>, criteria: Criteria, k: nat, j: nat, rows: seq<Row>, exclude: set<string>)
    requires Prepared(cols, criteria) && k < j <= |criteria| && CollisionsUpTo(cols, criteria, j, rows, exclude).Ok?
    ensures RangeChecked(cols, criteria, k)
  {
    CheckedLast(cols, criteria, j - 1, rows, exclude);
    if k < j - 1 {
      CheckedRange(cols, criteria, k, j - 1, rows, exclude);
    }
  }

  /** Every range of admitted criteria was found valid. */
  lemma CheckedRanges(cols: seq<Column>, criteria: Criteria, rows: seq<Row>, exclude: set<string>)
    requires Prepared(cols, criteria) && Admitted(cols, criteria, rows, exclude)
    ensures forall k | 0 <= k < |criteria| :: RangeChecked(cols, criteria, k)
  {
    forall k | 0 <= k < |criteria|
      ensures RangeChecked(cols, criteria, k)
    {
      CheckedRange(cols, criteria, k, |criteria|, rows, exclude);
    }
  }

  lemma NoCriteriaNoMatch(cols: seq<Column>, row: Row, client: Client)
    requires row.cells == StoredCells(cols, [])
    ensures !Matches(cols, row, client)
  {
    assert forall col: Column :: row.Get(col) == Null;
  }

  // ----- invariants as predicates on values ------------------------------------------

  ghost predicate ValidTable(cols: seq<Column>, rows: seq<Row>) {
    && ValidSchema(cols) && Adjacent(cols)
    && WellTypedTable(cols, rows)
    && (forall r | r in rows :: InOrder(r) && r.cells.Keys == (set col | col in cols) && SanitizeSQL(r.name) == r.name)
    && Contiguous(rows)
  }

  predicate HasFile(files: set<string>, name: string) {
    exists f :: f in files && SanitizeSQL(f) == name
  }

  ghost predicate UniqueNames(rows: seq<Row>) {
    forall i, j | 0 <= i < j < |rows| :: rows[i].name != rows[j].name
  }

  /** Every two rows are apart, also those of one name. */
  ghost predicate AllApart(cols: seq<Column>, rows: seq<Row>) {
    forall i, j | 0 <= i < j < |rows| :: Apart(cols, rows[i], rows[j])
  }

  /** Some client within the numeric bound meets the criteria as they are stored. */
  ghost predicate Met(cols: seq<Column>, criteria: Criteria) {
    exists client: Client :: WithinInfinity(cols, client) && Matches(cols, StoredRow(cols, criteria), client)
  }

  /** What the commands promise together when no two names are stored as one: one row per name, a
      file for each, and no two rows that constrain the same criteria suit one client. */
  ghost predicate SoundTable(cols: seq<Column>, rows: seq<Row>, files: set<string>) {
    && UniqueNames(rows)
    && (forall r | r in rows :: HasFile(files, r.name))
    && Unambiguous(cols, rows)
  }

  /** Each promise that held before holds afterwards. */
  ghost predicate Keeps(cols: seq<Column>, rows: seq<Row>, files: set<string>, rows': seq<Row>, files': set<string>) {
    && (Unambiguous(cols, rows) ==> Unambiguous(cols, rows'))
    && (AllApart(cols, rows) ==> AllApart(cols, rows'))
    && (SoundTable(cols, rows, files) ==> SoundTable(cols, rows', files'))
  }

  /** No file of another name is stored under the name that this one is stored under. */
  predicate NameFits(files: set<string>, name: string) {
    forall f | f in files && SanitizeSQL(f) == SanitizeSQL(name) :: f == name
  }

  function Inserted(cols: seq<Column>, rows: seq<Row>, name: string, criteria: Criteria): seq<Row> {
    rows + [Row(SanitizeSQL(name), Count(rows, SanitizeSQL(name)), StoredCells(cols, criteria))]
  }

  function Replaced(cols: seq<Column>, rows: seq<Row>, name: string, criteria: Criteria): (r: seq<Row>)
    ensures |r| == |rows|
  {
    seq(|rows|, i requires 0 <= i < |rows| =>
      if rows[i].name == name then rows[i].(cells := StoredCells(cols, criteria)) else rows[i])
  }

  predicate HasName(rows: seq<Row>, name: string) {
    exists r :: r in rows && r.name == name
  }

  /** The name as entered if it has a row, else with .xml behind it. */
  function Found(rows: seq<Row>, name: string): string {
    if HasName(rows, name) then name else name + ".xml"
  }

  predicate Deletable(rows: seq<Row>, name: string, defaultManifest: Option<string>, instance: Option<int>) {
    HasName(rows, name) && defaultManifest != Some(name) && (instance.Some? ==> 0 <= instance.value <= Count(rows, name))
  }

  function Deleted(rows: seq<Row>, name: string, instance: Option<int>): seq<Row> {
    match instance
    case None => Remove(rows, WholeName(name))
    case Some(k) => Close(Remove(rows, Single(name, k)), name, k, Count(rows, name))
  }

  /** UPDATE manifests SET pairs WHERE name = name */
  function Overwritten(rows: seq<Row>, name: string, pairs: map<Column, Cell>): seq<Row> {
    seq(|rows|, i requires 0 <= i < |rows| =>
      if rows[i].name == name then rows[i].(cells := rows[i].cells + pairs) else rows[i])
  }

  // ----- rows stay apart --------------------------------------------------------------

  lemma SameCellsSameMeaning(cols: seq<Column>, r: Row, r': Row)
    requires r.cells == r'.cells
    ensures forall c: string :: r.Constrains(c) <==> r'.Constrains(c)
    ensures forall client: Client :: Matches(cols, r, client) <==> Matches(cols, r', client)
  {
    assert forall col: Column :: r.Get(col) == r'.Get(col);
    assert forall c: string :: r.Constrains(c) <==> r'.Constrains(c);
    forall client: Client
      ensures Matches(cols, r, client) <==> Matches(cols, r', client)
    {
      assert (exists c: string :: r.Constrains(c)) <==> (exists c: string :: r'.Constrains(c));
      assert forall c: string :: Satisfies(cols, r, client, c) <==> Satisfies(cols, r', client, c);
    }
  }

  /** Rows whose name and cells come from an unambiguous table form one. */
  lemma SurvivorsStayApart(cols: seq<Column>, rows: seq<Row>, rows': seq<Row>)
    requires forall r' | r' in rows' :: exists r :: r in rows && r.name == r'.name && r.cells == r'.cells
    ensures Unambiguous(cols, rows) ==> Unambiguous(cols, rows')
  {
    if Unambiguous(cols, rows) {
      forall r', s' | r' in rows' && s' in rows' && r'.name != s'.name
        ensures Apart(cols, r', s')
      {
        var r :| r in rows && r.name == r'.name && r.cells == r'.cells;
        var s :| s in rows && s.name == s'.name && s.cells == s'.cells;
        assert Apart(cols, r, s);
        SameCellsSameMeaning(cols, r, r');
        SameCellsSameMeaning(cols, s, s');
      }
    }
  }

  lemma AdmittedIsApart(cols: seq<Column>, criteria: Criteria, rows: seq<Row>, exclude: set<string>, i: nat, stored: Row)
    requires ValidSchema(cols) && WellTypedTable(cols, rows) && UniqueKeys(rows)
    requires Prepared(cols, criteria) && Safeguarded(cols, criteria) && Admitted(cols, criteria, rows, exclude)
    requires i < |rows| && rows[i].name !in exclude && stored.cells == StoredCells(cols, criteria)
    ensures Apart(cols, rows[i], stored) && Apart(cols, stored, rows[i])
  {
    forall client: Client | SameConstraints(rows[i], stored) && WithinInfinity(cols, client)
      ensures !(Matches(cols, rows[i], client) && Matches(cols, stored, client))
    {
      SafeguardedRowIsUnambiguous(cols, criteria, rows, exclude, i, stored, client);
    }
  }

  lemma InsertedIsApart(cols: seq<Column>, criteria: Criteria, rows: seq<Row>, stored: Row)
    requires ValidSchema(cols) && WellTypedTable(cols, rows) && UniqueKeys(rows)
    requires Prepared(cols, criteria) && Safeguarded(cols, criteria)
    requires (criteria != [] ==> Admitted(cols, criteria, rows, {})) && stored.cells == StoredCells(cols, criteria)
    ensures forall r | r in rows :: Apart(cols, r, stored) && Apart(cols, stored, r)
  {
    forall r | r in rows
      ensures Apart(cols, r, stored) && Apart(cols, stored, r)
    {
      var i :| 0 <= i < |rows| && rows[i] == r;
      if criteria == [] {
        forall client {
          NoCriteriaNoMatch(cols, stored, client);
        }
      } else {
        AdmittedIsApart(cols, criteria, rows, {}, i, stored);
      }
    }
  }

  /** A new row with safeguarded criteria stays apart from all others, whatever its name. */
  lemma InsertedStayApart(cols: seq<Column>, criteria: Criteria, rows: seq<Row>, name: string)
    requires ValidSchema(cols) && WellTypedTable(cols, rows) && UniqueKeys(rows)
    requires Prepared(cols, criteria) && Safeguarded(cols, criteria)
    requires criteria != [] ==> Admitted(cols, criteria, rows, {})
    ensures Unambiguous(cols, rows) ==> Unambiguous(cols, Inserted(cols, rows, name, criteria))
    ensures AllApart(cols, rows) ==> AllApart(cols, Inserted(cols, rows, name, criteria))
  {
    var all := Inserted(cols, rows, name, criteria);
    InsertedIsApart(cols, criteria, rows, all[|rows|]);
    assert forall i | 0 <= i < |rows| :: all[i] == rows[i] && rows[i] in rows;
  }

  lemma ReplacedStayUnambiguous(cols: seq<Column>, criteria: Criteria, rows: seq<Row>, name: string)
    requires ValidSchema(cols) && WellTypedTable(cols, rows) && UniqueKeys(rows)
    requires Prepared(cols, criteria) && Safeguarded(cols, criteria) && Admitted(cols, criteria, rows, {name})
    ensures Unambiguous(cols, rows) ==> Unambiguous(cols, Replaced(cols, rows, name, criteria))
  {
    var updated := Replaced(cols, rows, name, criteria);
    forall r, s | Unambiguous(cols, rows) && r in updated && s in updated && r.name != s.name
      ensures Apart(cols, r, s)
    {
      var i :| 0 <= i < |rows| && updated[i] == r;
      var j :| 0 <= j < |rows| && updated[j] == s;
      if r.name == name {
        AdmittedIsApart(cols, criteria, rows, {name}, j, r);
      } else if s.name == name {
        AdmittedIsApart(cols, criteria, rows, {name}, i, s);
      } else {
        assert rows[i] in rows && rows[j] in rows;
      }
    }
  }

  /** Two rows with the stored cells are apart exactly if no client meets the criteria. */
  lemma TwinsApartExactly(cols: seq<Column>, criteria: Criteria, r: Row, s: Row)
    requires r.cells == s.cells == StoredCells(cols, criteria)
    ensures Apart(cols, r, s) <==> !Met(cols, criteria)
  {
    SameCellsSameMeaning(cols, StoredRow(cols, criteria), r);
    SameCellsSameMeaning(cols, StoredRow(cols, criteria), s);
    assert SameConstraints(r, s);
    if Met(cols, criteria) {
      var client: Client :| WithinInfinity(cols, client) && Matches(cols, StoredRow(cols, criteria), client);
      assert Matches(cols, r, client) && Matches(cols, s, client);
    }
  }

  ghost predicate Twice(rows: seq<Row>, name: string) {
    exists i, j :: 0 <= i < j < |rows| && rows[i].name == name && rows[j].name == name
  }

  lemma TwiceIsCounted(rows: seq<Row>, name: string)
    requires Contiguous(rows)
    ensures Twice(rows, name) <==> Count(rows, name) > 1
  {
    assert Numbered(Instances(rows, name), Count(rows, name));
    if Twice(rows, name) {
      var i, j :| 0 <= i < j < |rows| && rows[i].name == name && rows[j].name == name;
      assert rows[i].inst in Instances(rows, name) && rows[j].inst in Instances(rows, name);
      assert (rows[i].name, rows[i].inst) != (rows[j].name, rows[j].inst);
    }
    if Count(rows, name) > 1 {
      assert 0 in Instances(rows, name) && 1 in Instances(rows, name);
      var i :| 0 <= i < |rows| && rows[i].name == name && rows[i].inst == 0;
      var j :| 0 <= j < |rows| && rows[j].name == name && rows[j].inst == 1;
      assert if i < j then 0 <= i < j < |rows| else 0 <= j < i < |rows|;
    }
  }

  lemma ReplacedPair(cols: seq<Column>, criteria: Criteria, rows: seq<Row>, name: string, i: nat, j: nat)
    requires ValidSchema(cols) && WellTypedTable(cols, rows) && UniqueKeys(rows)
    requires Prepared(cols, criteria) && Safeguarded(cols, criteria) && Admitted(cols, criteria, rows, {name})
    requires AllApart(cols, rows) && i < j < |rows|
    ensures var updated := Replaced(cols, rows, name, criteria);
            Apart(cols, updated[i], updated[j]) <==> !(rows[i].name == name == rows[j].name && Met(cols, criteria))
  {
    var updated := Replaced(cols, rows, name, criteria);
    if rows[i].name == name && rows[j].name == name {
      TwinsApartExactly(cols, criteria, updated[i], updated[j]);
    } else if rows[i].name == name {
      AdmittedIsApart(cols, criteria, rows, {name}, j, updated[i]);
    } else if rows[j].name == name {
      AdmittedIsApart(cols, criteria, rows, {name}, i, updated[j]);
    }
  }

  /** Overwriting keeps all rows apart exactly if it writes one row at most, or criteria that no
      client meets. */
  lemma ReplacedApartExactly(cols: seq<Column>, criteria: Criteria, rows: seq<Row>, name: string)
    requires ValidSchema(cols) && WellTypedTable(cols, rows) && Contiguous(rows)
    requires Prepared(cols, criteria) && Safeguarded(cols, criteria) && Admitted(cols, criteria, rows, {name})
    requires AllApart(cols, rows)
    ensures AllApart(cols, Replaced(cols, rows, name, criteria)) <==> Count(rows, name) <= 1 || !Met(cols, criteria)
  {
    var updated := Replaced(cols, rows, name, criteria);
    forall i: nat, j: nat | i < j < |rows|
      ensures Apart(cols, updated[i], updated[j]) <==> !(rows[i].name == name == rows[j].name && Met(cols, criteria))
    {
      ReplacedPair(cols, criteria, rows, name, i, j);
    }
    TwiceIsCounted(rows, name);
    if Twice(rows, name) {
      var i, j :| 0 <= i < j < |rows| && rows[i].name == name && rows[j].name == name;
      assert Apart(cols, updated[i], updated[j]) <==> !Met(cols, criteria);
    }
  }

  lemma {:induction false} RemovedStayApart(cols: seq<Column>, rows: seq<Row>, gone: Selection)
    ensures AllApart(cols, rows) ==> AllApart(cols, Remove(rows, gone))
  {
    if rows != [] {
      var n := |rows| - 1;
      RemovedStayApart(cols, rows[..n], gone);
      RemoveMembers(rows[..n], gone);
      var kept := Remove(rows[..n], gone);
      if AllApart(cols, rows) {
        forall i | 0 <= i < |kept|
          ensures Apart(cols, kept[i], rows[n])
        {
          assert kept[i] in rows[..n];
          var j :| 0 <= j < n && rows[j] == kept[i];
        }
      }
    }
  }

  lemma ClosedStayApart(cols: seq<Column>, rows: seq<Row>, name: string, k: int, below: int)
    ensures AllApart(cols, rows) ==> AllApart(cols, Close(rows, name, k, below))
  {
    var closed := Close(rows, name, k, below);
    forall i, j | AllApart(cols, rows) && 0 <= i < j < |rows|
      ensures Apart(cols, closed[i], closed[j])
    {
      assert Apart(cols, rows[i], rows[j]);
      SameCellsSameMeaning(cols, rows[i], closed[i]);
      SameCellsSameMeaning(cols, rows[j], closed[j]);
    }
  }

  lemma DeletedStayApart(cols: seq<Column>, rows: seq<Row>, name: string, instance: Option<int>)
    ensures AllApart(cols, rows) ==> AllApart(cols, Deleted(rows, name, instance))
  {
    if instance.None? {
      RemovedStayApart(cols, rows, WholeName(name));
    } else {
      RemovedStayApart(cols, rows, Single(name, instance.value));
      ClosedStayApart(cols, Remove(rows, Single(name, instance.value)), name, instance.value, Count(rows, name));
    }
  }

  // ----- numbers, names and cells -----------------------------------------------------

  lemma RenumberCloses(was: seq<Row>, name: string, k: int, num: int)
    requires k <= num && forall r | r in was && r.name == name :: r.inst != k
    ensures Renumber(Close(was, name, k, num), name, num, num - 1) == Close(was, name, k, num + 1)
  {
    assert forall i | 0 <= i < |was| :: was[i] in was;
  }

  lemma SameNumbering(rows: seq<Row>, rows': seq<Row>)
    requires Contiguous(rows) && |rows'| == |rows|
    requires forall i | 0 <= i < |rows| :: rows[i].name == rows'[i].name && rows[i].inst == rows'[i].inst
    ensures Contiguous(rows')
  {
    forall name
      ensures Numbered(Instances(rows', name), Count(rows', name))
    {
      SameNamesSameCount(rows, rows', name);
      assert Instances(rows', name) == Instances(rows, name);
    }
  }

  lemma BeyondLastIsNoOp(rows: seq<Row>, name: string, k: int)
    requires Contiguous(rows) && k == Count(rows, name)
    ensures Remove(rows, Single(name, k)) == rows && Close(rows, name, k, k + 1) == rows == Close(rows, name, k, k)
  {
    forall r | r in rows
      ensures !Single(name, k).Covers(r)
    {
      var i :| 0 <= i < |rows| && rows[i] == r;
      InstanceOf(rows, i);
    }
    NothingRemoved(rows, Single(name, k));
  }

  /** What the renumbering loop leaves is what a deletion means, and is numbered without a gap. */
  ghost predicate Closed(rows: seq<Row>, name: string, k: int) {
    var kept := Remove(rows, Single(name, k));
    Close(kept, name, k, Count(kept, name) + 1) == Deleted(rows, name, Some(k)) && Contiguous(Deleted(rows, name, Some(k)))
  }

  lemma ClosedBelowLast(rows: seq<Row>, name: string, k: int)
    requires Contiguous(rows) && 0 <= k < Count(rows, name)
    ensures Closed(rows, name, k)
  {
    assert Numbered(Instances(rows, name), Count(rows, name));
    RemoveOneCount(rows, name, k);
    DeleteInstanceContiguous(rows, name, k, Count(rows, name));
  }

  lemma ClosedBeyondLast(rows: seq<Row>, name: string, k: int)
    requires Contiguous(rows) && k == Count(rows, name)
    ensures Closed(rows, name, k)
  {
    BeyondLastIsNoOp(rows, name, k);
  }

  /** Deleting instance k = n of n instances removes nothing; any smaller k leaves a gap that closes. */
  lemma DeletedIsClosed(rows: seq<Row>, name: string, k: int)
    requires Contiguous(rows) && 0 <= k <= Count(rows, name)
    ensures Closed(rows, name, k)
  {
    if k < Count(rows, name) {
      ClosedBelowLast(rows, name, k);
    } else {
      ClosedBeyondLast(rows, name, k);
    }
  }

  lemma DeletedInSteps(rows: seq<Row>, name: string, k: int)
    requires Contiguous(rows) && 0 <= k <= Count(rows, name)
    ensures var kept := Remove(rows, Single(name, k));
            && (forall r | r in kept && r.name == name :: r.inst != k)
            && Close(kept, name, k, Count(kept, name) + 1) == Deleted(rows, name, Some(k))
  {
    DeletedIsClosed(rows, name, k);
    KeptBounds(rows, name, k);
  }

  lemma DeletedNumbering(rows: seq<Row>, name: string, instance: Option<int>)
    requires Contiguous(rows) && (instance.Some? ==> 0 <= instance.value <= Count(rows, name))
    ensures Contiguous(Deleted(rows, name, instance))
    ensures instance.None? ==> !HasName(Deleted(rows, name, instance), name)
  {
    if instance.None? {
      DeleteNameContiguous(rows, name);
      RemoveMembers(rows, WholeName(name));
    } else {
      DeletedIsClosed(rows, name, instance.value);
    }
  }

  /** The row before the instances from k on moved down. */
  function MovedUp(r: Row, name: string, k: int): Row {
    if r.name != name || r.inst < k then r else r.(inst := r.inst + 1)
  }

  /** Of the rows of the name none is left, or the one instance is gone and the later ones have moved
      down by one; all other rows are there as before. */
  ghost predicate OnlyGone(rows: seq<Row>, left: seq<Row>, name: string, instance: Option<int>) {
    forall r: Row :: r in left <==>
      if r.name != name then r in rows else instance.Some? && MovedUp(r, name, instance.value) in rows
  }

  lemma CloseMembers(kept: seq<Row>, name: string, k: int, below: int, r: Row)
    requires forall s | s in kept && s.name == name :: s.inst != k && s.inst < below
    ensures r in Close(kept, name, k, below) <==> MovedUp(r, name, k) in kept
  {
    var left := Close(kept, name, k, below);
    if r in left {
      var i :| 0 <= i < |left| && left[i] == r;
      assert kept[i] in kept;
    }
    if MovedUp(r, name, k) in kept {
      var i :| 0 <= i < |kept| && kept[i] == MovedUp(r, name, k);
      assert left[i] == r;
    }
  }

  lemma ClosedIsGone(rows: seq<Row>, name: string, k: int)
    requires Contiguous(rows)
    ensures OnlyGone(rows, Deleted(rows, name, Some(k)), name, Some(k))
  {
    var kept, n := Remove(rows, Single(name, k)), Count(rows, name);
    RemoveMembers(rows, Single(name, k));
    assert Numbered(Instances(rows, name), n);
    forall s | s in kept && s.name == name
      ensures s.inst != k && s.inst < n
    {
      assert s.inst in Instances(rows, name);
    }
    forall r: Row
      ensures r in Close(kept, name, k, n) <==> MovedUp(r, name, k) in rows
    {
      CloseMembers(kept, name, k, n, r);
    }
  }

  lemma DeletedIsGone(rows: seq<Row>, name: string, instance: Option<int>)
    requires Contiguous(rows)
    ensures OnlyGone(rows, Deleted(rows, name, instance), name, instance)
  {
    match instance
    case None => RemoveMembers(rows, WholeName(name));
    case Some(k) => ClosedIsGone(rows, name, k);
  }

  lemma {:induction false} RemoveKeepsUniqueNames(rows: seq<Row>, gone: Selection)
    ensures UniqueNames(rows) ==> UniqueNames(Remove(rows, gone))
  {
    if rows != [] {
      var n := |rows| - 1;
      RemoveKeepsUniqueNames(rows[..n], gone);
      RemoveMembers(rows[..n], gone);
      var kept := Remove(rows[..n], gone);
      if UniqueNames(rows) {
        forall i | 0 <= i < |kept|
          ensures kept[i].name != rows[n].name
        {
          assert kept[i] in rows[..n];
          var j :| 0 <= j < n && rows[j] == kept[i];
        }
      }
    }
  }

  lemma DeletedNames(rows: seq<Row>, name: string, instance: Option<int>)
    ensures UniqueNames(rows) ==> UniqueNames(Deleted(rows, name, instance))
  {
    RemoveKeepsUniqueNames(rows, if instance.None? then WholeName(name) else Single(name, instance.value));
  }

  lemma SurvivorHasSource(rows: seq<Row>, name: string, instance: Option<int>, r': Row)
    requires r' in Deleted(rows, name, instance)
    ensures exists r :: r in rows && r.name == r'.name && r.cells == r'.cells
  {
    var gone := if instance.None? then WholeName(name) else Single(name, instance.value);
    var kept := Remove(rows, gone);
    RemoveMembers(rows, gone);
    var i :| 0 <= i < |kept| && Deleted(rows, name, instance)[i] == r';
    assert kept[i] in kept;
  }

  lemma ValidSurvivors(cols: seq<Column>, rows: seq<Row>, left: seq<Row>)
    requires ValidTable(cols, rows)
    requires forall r' | r' in left :: exists r :: r in rows && r.name == r'.name && r.cells == r'.cells
    ensures WellTypedTable(cols, left)
    ensures forall r | r in left :: InOrder(r) && r.cells.Keys == (set col | col in cols) && SanitizeSQL(r.name) == r.name
  {
    forall r' | r' in left
      ensures WellTyped(cols, r') && InOrder(r') && r'.cells.Keys == (set col | col in cols) && SanitizeSQL(r'.name) == r'.name
    {
      var r :| r in rows && r.name == r'.name && r.cells == r'.cells;
      assert WellTyped(cols, r) && InOrder(r);
      assert forall col: Column :: r.Get(col) == r'.Get(col);
      assert forall c: string :: BoundsInOrder(r, c) ==> BoundsInOrder(r', c);
    }
  }

  lemma StoredIsClean(rows: seq<Row>, name: string)
    requires (forall r | r in rows :: SanitizeSQL(r.name) == r.name) && HasName(rows, name)
    ensures SanitizeSQL(name) == name
  {}

  lemma OverwriteAll(cols: seq<Column>, rows: seq<Row>, name: string, criteria: Criteria)
    requires forall r | r in rows :: r.cells.Keys == (set col | col in cols)
    ensures Overwritten(rows, name, StoredCells(cols, criteria)) == Replaced(cols, rows, name, criteria)
  {
    var pairs := StoredCells(cols, criteria);
    forall i | 0 <= i < |rows|
      ensures rows[i].cells + pairs == pairs
    {
      assert rows[i] in rows;
    }
  }

  // ----- what one command keeps -------------------------------------------------------

  lemma InsertedHaveFiles(rows: seq<Row>, files: set<string>, stored: Row, name: string)
    requires (forall r | r in rows :: HasFile(files, r.name)) && stored.name == SanitizeSQL(name)
    ensures forall r | r in rows + [stored] :: HasFile(files + {name}, r.name)
  {
    assert name in files + {name};
    forall r | r in rows
      ensures HasFile(files + {name}, r.name)
    {
      var f :| f in files && SanitizeSQL(f) == r.name;
      assert f in files + {name};
    }
  }

  /** Removing the file of a stored name takes no other row's file. */
  lemma KeptHaveFiles(rows: seq<Row>, files: set<string>, name: string)
    requires (forall r | r in rows :: HasFile(files, r.name) && r.name != name) && SanitizeSQL(name) == name
    ensures forall r | r in rows :: HasFile(files - {name}, r.name)
  {
    forall r | r in rows
      ensures HasFile(files - {name}, r.name)
    {
      var f :| f in files && SanitizeSQL(f) == r.name;
      assert f in files - {name};
    }
  }

  /** A new row keeps names unique exactly when no row has the name it is stored under. */
  lemma InsertedNames(cols: seq<Column>, rows: seq<Row>, name: string, criteria: Criteria)
    ensures UniqueNames(Inserted(cols, rows, name, criteria)) <==> UniqueNames(rows) && !HasName(rows, SanitizeSQL(name))
  {
    var all := Inserted(cols, rows, name, criteria);
    assert all[|rows|].name == SanitizeSQL(name);
    assert forall i | 0 <= i < |rows| :: all[i] == rows[i];
    if HasName(rows, SanitizeSQL(name)) {
      var r :| r in rows && r.name == SanitizeSQL(name);
      var i :| 0 <= i < |rows| && rows[i] == r;
      assert all[i].name == all[|rows|].name;
    }
  }

  lemma InsertedAreNamed(cols: seq<Column>, rows: seq<Row>, files: set<string>, name: string, criteria: Criteria)
    requires UniqueNames(rows) && (forall r | r in rows :: HasFile(files, r.name)) && NameFits(files, name) && name !in files
    ensures UniqueNames(Inserted(cols, rows, name, criteria))
    ensures forall r | r in Inserted(cols, rows, name, criteria) :: HasFile(files + {name}, r.name)
  {
    assert forall r | r in rows :: r.name != SanitizeSQL(name);
    InsertedNames(cols, rows, name, criteria);
    InsertedHaveFiles(rows, files, Inserted(cols, rows, name, criteria)[|rows|], name);
  }

  lemma InsertedIsValid(cols: seq<Column>, rows: seq<Row>, name: string, criteria: Criteria)
    requires ValidTable(cols, rows) && Prepared(cols, criteria)
    requires criteria != [] ==> Admitted(cols, criteria, rows, {})
    ensures ValidTable(cols, Inserted(cols, rows, name, criteria)) && RangesInOrder(cols, criteria)
  {
    var stored := Row(SanitizeSQL(name), Count(rows, SanitizeSQL(name)), StoredCells(cols, criteria));
    SanitizeIdempotent(name);
    InsertContiguous(rows, stored);
    if criteria != [] {
      CheckedRanges(cols, criteria, rows, {});
    }
    StoredIsWellTyped(cols, criteria, stored);
    CheckedIsInOrder(cols, criteria);
    StoredIsInOrder(cols, criteria, stored);
  }

  lemma InsertKeeps(cols: seq<Column>, rows: seq<Row>, files: set<string>, name: string, criteria: Criteria)
    requires ValidTable(cols, rows) && Prepared(cols, criteria) && name !in files
    requires criteria != [] ==> Admitted(cols, criteria, rows, {})
    ensures ValidTable(cols, Inserted(cols, rows, name, criteria)) && RangesInOrder(cols, criteria)
    ensures Safeguarded(cols, criteria) && Unambiguous(cols, rows) ==> Unambiguous(cols, Inserted(cols, rows, name, criteria))
    ensures Safeguarded(cols, criteria) && AllApart(cols, rows) ==> AllApart(cols, Inserted(cols, rows, name, criteria))
    ensures SoundTable(cols, rows, files) && Safeguarded(cols, criteria) && NameFits(files, name) ==>
              SoundTable(cols, Inserted(cols, rows, name, criteria), files + {name})
  {
    InsertedIsValid(cols, rows, name, criteria);
    if Safeguarded(cols, criteria) {
      InsertedStayApart(cols, criteria, rows, name);
    }
    if SoundTable(cols, rows, files) && NameFits(files, name) {
      InsertedAreNamed(cols, rows, files, name, criteria);
    }
  }

  lemma ReplacedIsValid(cols: seq<Column>, rows: seq<Row>, name: string, criteria: Criteria)
    requires ValidTable(cols, rows) && Prepared(cols, criteria) && Admitted(cols, criteria, rows, {name})
    ensures ValidTable(cols, Replaced(cols, rows, name, criteria)) && RangesInOrder(cols, criteria)
  {
    var updated := Replaced(cols, rows, name, criteria);
    CheckedRanges(cols, criteria, rows, {name});
    forall r | r in updated
      ensures WellTyped(cols, r) && InOrder(r) && r.cells.Keys == (set col | col in cols) && SanitizeSQL(r.name) == r.name
    {
      var i :| 0 <= i < |rows| && updated[i] == r;
      assert rows[i] in rows;
      if rows[i].name == name {
        StoredIsWellTyped(cols, criteria, r);
        StoredIsInOrder(cols, criteria, r);
      }
    }
    CheckedIsInOrder(cols, criteria);
    SameNumbering(rows, updated);
  }

  lemma ReplacedHaveFiles(cols: seq<Column>, rows: seq<Row>, files: set<string>, name: string, criteria: Criteria)
    requires UniqueNames(rows) && forall r | r in rows :: HasFile(files, r.name)
    ensures UniqueNames(Replaced(cols, rows, name, criteria))
    ensures forall r | r in Replaced(cols, rows, name, criteria) :: HasFile(files, r.name)
  {
    var updated := Replaced(cols, rows, name, criteria);
    forall r | r in updated
      ensures HasFile(files, r.name)
    {
      var i :| 0 <= i < |rows| && updated[i] == r;
      assert rows[i] in rows;
    }
  }

  lemma ReplaceKeeps(cols: seq<Column>, rows: seq<Row>, files: set<string>, name: string, criteria: Criteria)
    requires ValidTable(cols, rows) && Prepared(cols, criteria) && Admitted(cols, criteria, rows, {name})
    ensures ValidTable(cols, Replaced(cols, rows, name, criteria)) && RangesInOrder(cols, criteria)
    ensures Safeguarded(cols, criteria) && Unambiguous(cols, rows) ==> Unambiguous(cols, Replaced(cols, rows, name, criteria))
    ensures Safeguarded(cols, criteria) && AllApart(cols, rows) ==>
              (AllApart(cols, Replaced(cols, rows, name, criteria)) <==> Count(rows, name) <= 1 || !Met(cols, criteria))
    ensures SoundTable(cols, rows, files) && Safeguarded(cols, criteria) ==>
              SoundTable(cols, Replaced(cols, rows, name, criteria), files)
  {
    ReplacedIsValid(cols, rows, name, criteria);
    if SoundTable(cols, rows, files) {
      ReplacedHaveFiles(cols, rows, files, name, criteria);
    }
    if Safeguarded(cols, criteria) {
      ReplacedStayUnambiguous(cols, criteria, rows, name);
      if AllApart(cols, rows) {
        ReplacedApartExactly(cols, criteria, rows, name);
      }
    }
  }

  lemma DeleteKeeps(cols: seq<Column>, rows: seq<Row>, files: set<string>, name: string, instance: Option<int>)
    requires ValidTable(cols, rows) && SanitizeSQL(name) == name && (instance.Some? ==> 0 <= instance.value <= Count(rows, name))
    ensures ValidTable(cols, Deleted(rows, name, instance))
    ensures instance.None? ==> !HasName(Deleted(rows, name, instance), name)
    ensures var left := Deleted(rows, name, instance);
            Keeps(cols, rows, files, left, if HasName(left, name) then files else files - {name})
  {
    var left := Deleted(rows, name, instance);
    forall r' | r' in left
      ensures exists r :: r in rows && r.name == r'.name && r.cells == r'.cells
    {
      SurvivorHasSource(rows, name, instance, r');
    }
    ValidSurvivors(cols, rows, left);
    SurvivorsStayApart(cols, rows, left);
    DeletedStayApart(cols, rows, name, instance);
    DeletedNumbering(rows, name, instance);
    DeletedNames(rows, name, instance);
    if SoundTable(cols, rows, files) {
      assert forall r | r in left :: HasFile(files, r.name);
      if !HasName(left, name) {
        KeptHaveFiles(left, files, name);
      }
    }
  }

  /** A stored name is one that the sanitizer leaves alone, so the rows that a name is updated in are
      those it was looked up as exactly if it is its own stored form. */
  lemma OverwritesExactly(cols: seq<Column>, rows: seq<Row>, name: string, criteria: Criteria)
    requires ValidTable(cols, rows) && HasName(rows, SanitizeSQL(name))
    ensures HasName(rows, name) <==> SanitizeSQL(name) == name
    ensures SanitizeSQL(name) != name ==> Replaced(cols, rows, name, criteria) == rows
  {
    assert forall i | 0 <= i < |rows| :: rows[i] in rows;
  }

  // ----- the criteria in use ----------------------------------------------------------

  function NamesOf(criteria: Criteria): set<string> {
    set k | 0 <= k < |criteria| :: criteria[k].name
  }

  lemma StoredUses(cols: seq<Column>, criteria: Criteria, row: Row)
    requires row.cells == StoredCells(cols, criteria)
    ensures forall c: string | row.Constrains(c) :: c in NamesOf(criteria)
  {
    forall c: string | row.Constrains(c)
      ensures c in NamesOf(criteria)
    {
      StoredGet(cols, criteria, row, MinOf(c));
      StoredGet(cols, criteria, row, MaxOf(c));
      StoredGet(cols, criteria, row, ValueOf(c));
      var k :| 0 <= k < |criteria| && criteria[k].name == c;
    }
  }

  lemma InsertUses(cols: seq<Column>, rows: seq<Row>, name: string, criteria: Criteria, used: set<string>)
    requires OnlyUses(rows, used)
    ensures OnlyUses(Inserted(cols, rows, name, criteria), used + NamesOf(criteria))
  {
    StoredUses(cols, criteria, Inserted(cols, rows, name, criteria)[|rows|]);
  }

  lemma ReplaceUses(cols: seq<Column>, rows: seq<Row>, name: string, criteria: Criteria, used: set<string>)
    requires OnlyUses(rows, used)
    ensures OnlyUses(Replaced(cols, rows, name, criteria), used + NamesOf(criteria))
  {
    var updated := Replaced(cols, rows, name, criteria);
    forall r, c: string | r in updated && r.Constrains(c)
      ensures c in used + NamesOf(criteria)
    {
      var i :| 0 <= i < |rows| && updated[i] == r;
      if rows[i].name == name {
        StoredUses(cols, criteria, r);
      } else {
        assert rows[i] in rows;
      }
    }
  }

  lemma DeleteUses(rows: seq<Row>, name: string, instance: Option<int>, used: set<string>)
    requires OnlyUses(rows, used)
    ensures OnlyUses(Deleted(rows, name, instance), used)
  {
    forall r', c: string | r' in Deleted(rows, name, instance) && r'.Constrains(c)
      ensures c in used
    {
      SurvivorHasSource(rows, name, instance, r');
      var r :| r in rows && r.name == r'.name && r.cells == r'.cells;
      assert r.Constrains(c);
    }
  }

  // ----- the table ----------------------------------------------------------------

  /** The rows, the file names in the manifest directory and the default manifest. */
  datatype State = State(rows: seq<Row>, files: set<string>, defaultManifest: Option<string>)

  class Table {
    const cols: seq<Column>
    var rows: seq<Row>
    /** File names in the service's manifest directory. */
    var files: set<string>
    var defaultManifest: Option<string>

    ghost predicate Valid()
      reads this
    {
      ValidTable(cols, rows)
    }

    ghost predicate Sound()
      reads this
    {
      SoundTable(cols, rows, files)
    }

    function Contents(): State
      reads this
    {
      State(rows, files, defaultManifest)
    }

    constructor (cols: seq<Column>)
      requires ValidSchema(cols) && Adjacent(cols)
      ensures this.cols == cols && rows == [] && files == {} && defaultManifest == None
      ensures Valid() && Sound()
    {
      this.cols := cols;
      rows, files, defaultManifest := [], {}, None;
    }

    /** create-manifest: refuse a taken name, check given criteria against every row, insert. */
    method CreateManifest(name: string, criteria: Criteria, setAsDefault: bool) returns (r: Result<()>)
      requires Valid() && Prepared(cols, criteria)
      modifies this
      ensures Valid()
      ensures r.Ok? <==> name !in old(files) && (criteria != [] ==> Admitted(cols, criteria, old(rows), {}))
      ensures r.Err? ==> rows == old(rows) && files == old(files) && defaultManifest == old(defaultManifest)
      ensures r.Ok? ==>
                && rows == Inserted(cols, old(rows), name, criteria)
                && files == old(files) + {name}
                && defaultManifest == if setAsDefault then Some(name) else old(defaultManifest)
      ensures r.Ok? ==> RangesInOrder(cols, criteria)
      ensures r.Ok? && UniqueNames(old(rows)) ==> (UniqueNames(rows) <==> !HasName(old(rows), SanitizeSQL(name)))
      ensures Safeguarded(cols, criteria) && Unambiguous(cols, old(rows)) ==> Unambiguous(cols, rows)
      ensures Safeguarded(cols, criteria) && AllApart(cols, old(rows)) ==> AllApart(cols, rows)
      ensures old(Sound()) && Safeguarded(cols, criteria) && NameFits(old(files), name) ==> Sound()
    {
      if name in files {
        return Err(NameTaken);
      }
      if criteria != [] {
        r := CheckCriteria(cols, criteria, rows, {});
        if r.Err? {
          return;
        }
      }
      var cells := InsertCells(cols, criteria);
      InsertKeeps(cols, rows, files, name, criteria);
      InsertedNames(cols, rows, name, criteria);
      rows := rows + [Row(SanitizeSQL(name), Count(rows, SanitizeSQL(name)), cells)];
      files := files + {name};
      if setAsDefault {
        defaultManifest := Some(name);
      }
      r := Ok(());
    }

    /** set-criteria -c or -C: check against the rows of other names, then overwrite.  The name is
        looked up as it is stored, but excluded from the check and updated as it is given. */
    method SetCriteria(name: string, criteria: Criteria) returns (r: Result<()>)
      requires Valid() && Prepared(cols, criteria)
      modifies this`rows
      ensures Valid()
      ensures r.Ok? <==> name in files && HasName(old(rows), SanitizeSQL(name)) && Admitted(cols, criteria, old(rows), {name})
      ensures rows == if r.Ok? then Replaced(cols, old(rows), name, criteria) else old(rows)
      ensures r.Ok? ==> RangesInOrder(cols, criteria) && (HasName(old(rows), name) <==> SanitizeSQL(name) == name)
      ensures SanitizeSQL(name) != name ==> rows == old(rows)
      ensures Safeguarded(cols, criteria) && Unambiguous(cols, old(rows)) ==> Unambiguous(cols, rows)
      ensures r.Ok? && Safeguarded(cols, criteria) && AllApart(cols, old(rows)) ==>
                (AllApart(cols, rows) <==> Count(old(rows), name) <= 1 || !Met(cols, criteria))
      ensures old(Sound()) && Safeguarded(cols, criteria) ==> Sound()
    {
      if !HasName(rows, SanitizeSQL(name)) || name !in files {
        return Err(NotFound);
      }
      r := CheckCriteria(cols, criteria, rows, {name});
      if r.Err? {
        return;
      }
      var pairs := ReplacementCells(cols, criteria);
      ReplaceKeeps(cols, rows, files, name, criteria);
      OverwritesExactly(cols, rows, name, criteria);
      OverwriteAll(cols, rows, name, criteria);
      rows := Overwritten(rows, name, pairs);
    }

    /** The loop of UPDATEs: num becomes num - 1, for num from k up to the remaining count. */
    method RenumberLater(name: string, k: int)
      requires forall r | r in rows && r.name == name :: r.inst != k
      modifies this`rows
      ensures rows == Close(old(rows), name, k, Count(old(rows), name) + 1)
    {
      ghost var was := rows;
      var num := k;
      var last := Count(rows, name);
      assert rows == Close(was, name, k, k);
      while num <= last
        invariant k <= num && (num <= last + 1 || num == k)
        invariant rows == Close(was, name, k, num)
        invariant Count(was, name) == last
        decreases last + 1 - num
      {
        RenumberCloses(was, name, k, num);
        rows := Renumber(rows, name, num, num - 1);
        num := num + 1;
      }
      if num > last + 1 {
        assert Close(was, name, k, num) == Close(was, name, k, last + 1);
      }
    }

    method DeleteInstance(name: string, k: int)
      requires Contiguous(rows) && 0 <= k <= Count(rows, name) && SanitizeSQL(name) == name
      modifies this`rows
      ensures rows == Deleted(old(rows), name, Some(k))
    {
      DeletedInSteps(rows, name, k);
      rows := Remove(rows, Single(SanitizeSQL(name), k));
      RenumberLater(name, k);
    }

    /** The rows of the name or of the one instance, and the file when no row of the name is left. */
    method DeleteRows(name: string, instance: Option<int>)
      requires Contiguous(rows) && SanitizeSQL(name) == name
      requires instance.Some? ==> 0 <= instance.value <= Count(rows, name)
      modifies this`rows, this`files
      ensures rows == Deleted(old(rows), name, instance)
      ensures files == if HasName(rows, name) then old(files) else old(files) - {name}
    {
      if instance.None? {
        DeletedNumbering(rows, name, None);
        rows := Remove(rows, WholeName(SanitizeSQL(name)));
        files := files - {name};
      } else {
        DeleteInstance(name, instance.value);
        if !HasName(rows, name) {
          files := files - {name};
        }
      }
    }

    /** delete-manifest: the whole name, or one instance and the closing of the gap it leaves. */
    method DeleteManifest(name: string, instance: Option<int>) returns (r: Result<()>)
      requires Valid()
      modifies this`rows, this`files
      ensures Valid()
      ensures r.Err? ==> rows == old(rows) && files == old(files)
      ensures r == Err(NotFound) <==> !HasName(old(rows), name) && !HasName(old(rows), name + ".xml")
      ensures r.Ok? <==> Deletable(old(rows), Found(old(rows), name), defaultManifest, instance)
      ensures r.Ok? ==> var found := Found(old(rows), name);
                && rows == Deleted(old(rows), found, instance) && OnlyGone(old(rows), rows, found, instance)
                && files == if HasName(rows, found) then old(files) else old(files) - {found}
      ensures Keeps(cols, old(rows), old(files), rows, files)
    {
      var manName := name;
      if !HasName(rows, name) {
        manName := name + ".xml";
        if !HasName(rows, manName) {
          return Err(NotFound);
        }
      }
      if defaultManifest == Some(manName) {
        return Err(IsDefault);
      }
      StoredIsClean(rows, manName);
      if instance.Some? && (instance.value > Count(rows, manName) || instance.value < 0) {
        return Err(BadInstance);
      }
      DeleteKeeps(cols, rows, files, manName, instance);
      DeletedIsGone(rows, manName, instance);
      DeleteRows(manName, instance);
      r := Ok(());
    }
  }
}
