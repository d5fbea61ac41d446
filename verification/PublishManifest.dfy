/** Admission control for manifest criteria (publish_manifest.py): find_colliding_criteria
    collects the columns in which a new set of criteria meets each stored row, and
    find_colliding_manifests walks those rows and refuses the set unless it diverges. */
module PublishManifest {
  import opened Text
  import opened CriteriaDatabase

  const INFINITY: nat := 0xFFFF_FFFF_FFFF_FFFF

  // ----- criteria as given by the administrator -------------------------------

  /** Names are lower case; a range criterion has two values, its bounds. */
  datatype Criterion = Criterion(name: string, values: seq<string>)
  type Criteria = seq<Criterion>

  /** Criteria.get_criterion: the first element of that name. */
  function GetCriterion(criteria: Criteria, name: string): (r: Option<seq<string>>)
    ensures r.Some? <==> exists k :: 0 <= k < |criteria| && criteria[k].name == name
    ensures r.Some? ==> exists k :: 0 <= k < |criteria| && criteria[k] == Criterion(name, r.value)
  {
    if criteria == [] then None
    else if criteria[0].name == name then
      assert criteria[0] == Criterion(name, criteria[0].values);
      Some(criteria[0].values)
    else
      var r := GetCriterion(criteria[1..], name);
      assert forall k | 0 < k < |criteria| :: criteria[k] == criteria[1..][k - 1];
      assert criteria == [criteria[0]] + criteria[1..];
      r
  }

  lemma {:induction false} FirstCriterionAnswers(criteria: Criteria, k: nat)
    requires k < |criteria| && forall j | 0 <= j < k :: criteria[j].name != criteria[k].name
    ensures GetCriterion(criteria, criteria[k].name) == Some(criteria[k].values)
  {
    if k > 0 {
      assert criteria[0].name != criteria[k].name;
      FirstCriterionAnswers(criteria[1..], k - 1);
    }
  }

  predicate PreparedBound(crit: string, v: string) {
    && IsWord(v)
    && (crit == "mac" ==> v == "unbounded" || (|v| == 12 && IsNumeral(v, 16)))
  }

  /** What prepValuesAndRanges leaves behind: two bounds per range criterion, mac bounds of
      twelve digits, and words without whitespace everywhere. */
  predicate Prepared(cols: seq<Column>, criteria: Criteria) {
    forall k | 0 <= k < |criteria| ::
      && (forall v | v in criteria[k].values :: IsWord(v))
      && (MinOf(criteria[k].name) in cols ==>
            && |criteria[k].values| == 2
            && PreparedBound(criteria[k].name, criteria[k].values[0])
            && PreparedBound(criteria[k].name, criteria[k].values[1]))
  }

  // ----- the row that criteria turn into ---------------------------------------

  function BoundCell(crit: string, v: string): Cell {
    if v == "unbounded" then Null
    else if crit == "mac" then Hex(Upper(SanitizeSQL(v)))
    else Number(IntegerOf(SanitizeSQL(v)))
  }

  /** The text that is stored for a list of values. */
  function StoredText(values: seq<string>): string {
    SanitizeSQL(Join(values))
  }

  /** The word is, as the criterion compares words, one of the values given. */
  predicate GivenAs(crit: string, values: seq<string>, w: string) {
    exists v :: v in values && SameValue(crit, v, w)
  }

  /** Every word that is stored for the values is still one of them. */
  predicate WordsKept(crit: string, values: seq<string>) {
    forall w | w in Split(StoredText(values)) :: GivenAs(crit, values, w)
  }

  /** The sanitizer turns no given value into a word that was not given. */
  ghost predicate Kept(cols: seq<Column>, criteria: Criteria) {
    forall c: string | ValueOf(c) in cols && GetCriterion(criteria, c).Some? :: WordsKept(c, GetCriterion(criteria, c).value)
  }

  function StoredCell(criteria: Criteria, col: Column): Cell {
    match GetCriterion(criteria, col.crit)
    case None => Null
    case Some(values) =>
      match col
      case ValueOf(_) => Word(StoredText(values))
      case MinOf(c) => if |values| == 2 then BoundCell(c, values[0]) else Null
      case MaxOf(c) => if |values| == 2 then BoundCell(c, values[1]) else Null
  }

  function StoredCells(cols: seq<Column>, criteria: Criteria): map<Column, Cell> {
    map col | col in cols :: StoredCell(criteria, col)
  }

  // ----- find_colliding_criteria ------------------------------------------------

  datatype Failure =
    | NotHexadecimal(crit: string)
    | NotInteger(crit: string)
    | Unbounded(crit: string)
    | MinAboveMax(crit: string)
    | UnknownCriterion(crit: string)
    | RangeCollision(name: string, inst: int, crit: string)
    | SameCriteria(name: string, inst: int)
    | NameTaken
    | NotFound
    | IsDefault
    | BadInstance

  datatype Result<+T> = Ok(value: T) | Err(failure: Failure)

  type ManInst = (string, int)
  type Collisions = map<ManInst, string>

  datatype Range = Range(lo: int, hi: int)

  function BaseOf(crit: string): nat {
    if crit == "mac" then 16 else 10
  }

  /** str(0xFFFFFFFFFFFFFFFF) read by long(.., base): for "mac" the decimal digits are read as hexadecimal. */
  function InfinityOf(crit: string): nat {
    Value(Decimal(INFINITY), BaseOf(crit))
  }

  function BoundText(v: string, unbounded: string): string {
    if v == "unbounded" then unbounded else Upper(v)
  }

  function GivenRange(crit: string, values: seq<string>): Result<Range>
    requires |values| == 2
  {
    var lo := Parse(BoundText(values[0], "0"), BaseOf(crit));
    var hi := Parse(BoundText(values[1], Decimal(INFINITY)), BaseOf(crit));
    if lo.None? || hi.None? then Err(if crit == "mac" then NotHexadecimal(crit) else NotInteger(crit))
    else if lo.value == 0 && hi.value == INFINITY then Err(Unbounded(crit))
    else if lo.value != 0 && hi.value != INFINITY && lo.value > hi.value then Err(MinAboveMax(crit))
    else Ok(Range(lo.value, hi.value))
  }

  /** A NULL bound -- and a stored decimal 0, which Python takes for false -- is replaced by 0 or INFINITY. */
  function StoredRange(crit: string, row: Row): Range {
    var lo, hi := row.Get(MinOf(crit)), row.Get(MaxOf(crit));
    Range(
      match lo { case Number(n) => n case Hex(d) => Value(d, 16) case _ => 0 },
      match hi { case Number(n) => if n == 0 then InfinityOf(crit) else n case Hex(d) => Value(d, 16) case _ => InfinityOf(crit) })
  }

  predicate Overlap(man: Range, db: Range) {
    (man.hi >= db.lo && db.hi >= man.lo) || man.lo == db.hi
  }

  function ValueTokens(crit: string, values: seq<string>, text: string): string {
    if values == [] then ""
    else
      ValueTokens(crit, values[..|values| - 1], text)
      + if IsInList(crit, values[|values| - 1], text) then crit + "," else ""
  }

  lemma ValueTokensNext(crit: string, values: seq<string>, i: nat, text: string)
    requires i < |values|
    ensures ValueTokens(crit, values[..i + 1], text) ==
            if IsInList(crit, values[i], text) then ValueTokens(crit, values[..i], text) + (crit + ",")
            else ValueTokens(crit, values[..i], text)
  {
    assert values[..i + 1][..i] == values[..i];
    assert ValueTokens(crit, values[..i], text) + "" == ValueTokens(crit, values[..i], text);
  }

  function RangeTokens(crit: string): string {
    "MIN" + crit + "," + "MAX" + crit + ","
  }

  /** What a row adds for a range criterion whose given bounds are man. */
  function TokensInRange(crit: string, man: Range, row: Row): string {
    if (row.Get(MinOf(crit)) != Null || row.Get(MaxOf(crit)) != Null) && Overlap(man, StoredRange(crit, row))
    then RangeTokens(crit) else ""
  }

  /** What one row adds to the collisions for one criterion of the new set. */
  function Tokens(cols: seq<Column>, crit: string, values: seq<string>, row: Row): string {
    if MinOf(crit) in cols then
      if |values| == 2 && GivenRange(crit, values).Ok? then TokensInRange(crit, GivenRange(crit, values).value, row) else ""
    else if row.Get(ValueOf(crit)).Word? then ValueTokens(crit, values, row.Get(ValueOf(crit)).text)
    else ""
  }

  /** collisions[key] += token, starting the entry on KeyError. */
  function AddToken(coll: Collisions, key: ManInst, token: string): Collisions {
    if token == "" then coll
    else if key in coll then coll[key := coll[key] + token]
    else coll[key := token]
  }

  function RecordRows(cols: seq<Column>, crit: string, values: seq<string>, rows: seq<Row>, exclude: set<string>,
                      coll: Collisions): Collisions
  {
    if rows == [] then coll
    else
      var before := RecordRows(cols, crit, values, rows[..|rows| - 1], exclude, coll);
      var row := rows[|rows| - 1];
      if row.name in exclude then before else AddToken(before, (row.name, row.inst), Tokens(cols, crit, values, row))
  }

  lemma AddTwice(coll: Collisions, key: ManInst, t: string, u: string)
    ensures AddToken(AddToken(coll, key, t), key, u) == AddToken(coll, key, t + u)
  {
    if t == "" {
      assert t + u == u;
    } else if u == "" {
      assert t + u == t;
    } else if key in coll {
      assert coll[key] + t + u == coll[key] + (t + u);
    }
  }

  lemma RecordNext(cols: seq<Column>, crit: string, values: seq<string>, rows: seq<Row>, j: nat, exclude: set<string>,
                   coll: Collisions)
    requires j < |rows|
    ensures RecordRows(cols, crit, values, rows[..j + 1], exclude, coll) ==
            var before := RecordRows(cols, crit, values, rows[..j], exclude, coll);
            if rows[j].name in exclude then before
            else AddToken(before, (rows[j].name, rows[j].inst), Tokens(cols, crit, values, rows[j]))
  {
    assert rows[..j + 1][..j] == rows[..j];
  }

  function CheckCriterion(cols: seq<Column>, crit: string, values: seq<string>): Result<()>
    requires MinOf(crit) in cols ==> |values| == 2
  {
    if MinOf(crit) in cols then
      match GivenRange(crit, values)
      case Ok(_) => Ok(())
      case Err(f) => Err(f)
    else if ValueOf(crit) in cols then Ok(())
    else Err(UnknownCriterion(crit))
  }

  /** One criterion: its validity check, then its collisions with every row. */
  function Collect(cols: seq<Column>, crit: string, values: seq<string>, rows: seq<Row>, exclude: set<string>,
                   coll: Collisions): Result<Collisions>
    requires MinOf(crit) in cols ==> |values| == 2
  {
    match CheckCriterion(cols, crit, values)
    case Err(f) => Err(f)
    case Ok(_) => Ok(RecordRows(cols, crit, values, rows, exclude, coll))
  }

  /** The collisions recorded for the first k criteria, or the first failure among them. */
  function CollisionsUpTo(cols: seq<Column>, criteria: Criteria, k: nat, rows: seq<Row>, exclude: set<string>): Result<Collisions>
    requires k <= |criteria| && Prepared(cols, criteria)
  {
    if k == 0 then Ok(map[])
    else
      var crit := criteria[k - 1].name;
      match CollisionsUpTo(cols, criteria, k - 1, rows, exclude)
      case Err(f) => Err(f)
      case Ok(coll) => Collect(cols, crit, GetCriterion(criteria, crit).value, rows, exclude, coll)
  }

  lemma CollisionsNext(cols: seq<Column>, criteria: Criteria, k: nat, rows: seq<Row>, exclude: set<string>)
    requires k < |criteria| && Prepared(cols, criteria)
    ensures CollisionsUpTo(cols, criteria, k + 1, rows, exclude) ==
            match CollisionsUpTo(cols, criteria, k, rows, exclude)
            case Err(f) => Err(f)
            case Ok(coll) => Collect(cols, criteria[k].name, GetCriterion(criteria, criteria[k].name).value, rows, exclude, coll)
  {}

  /** The value branch: one entry per value of the new criterion found in a row's list. */
  method RecordValueCriterion(cols: seq<Column>, crit: string, values: seq<string>, rows: seq<Row>, exclude: set<string>,
                              before: Collisions)
    returns (collisions: Collisions)
    requires MinOf(crit) !in cols
    ensures collisions == RecordRows(cols, crit, values, rows, exclude, before)
  {
    collisions := before;
    for j := 0 to |rows|
      invariant collisions == RecordRows(cols, crit, values, rows[..j], exclude, before)
    {
      RecordNext(cols, crit, values, rows, j, exclude, before);
      if rows[j].name !in exclude && rows[j].Get(ValueOf(crit)).Word? {
        var key, text := (rows[j].name, rows[j].inst), rows[j].Get(ValueOf(crit)).text;
        ghost var base := collisions;
        for i := 0 to |values|
          invariant collisions == AddToken(base, key, ValueTokens(crit, values[..i], text))
        {
          ValueTokensNext(crit, values, i, text);
          if IsInList(crit, values[i], text) {
            AddTwice(base, key, ValueTokens(crit, values[..i], text), crit + ",");
            collisions := AddToken(collisions, key, crit + ",");
          }
        }
        assert values[..|values|] == values;
      }
    }
    assert rows[..|rows|] == rows;
  }

  function RecordInRange(crit: string, man: Range, rows: seq<Row>, exclude: set<string>, coll: Collisions): Collisions {
    if rows == [] then coll
    else
      var before := RecordInRange(crit, man, rows[..|rows| - 1], exclude, coll);
      var row := rows[|rows| - 1];
      if row.name in exclude then before else AddToken(before, (row.name, row.inst), TokensInRange(crit, man, row))
  }

  lemma {:induction false} RecordsInRange(cols: seq<Column>, crit: string, values: seq<string>, man: Range, rows: seq<Row>,
                                          exclude: set<string>, coll: Collisions)
    requires MinOf(crit) in cols && |values| == 2 && GivenRange(crit, values) == Ok(man)
    ensures RecordInRange(crit, man, rows, exclude, coll) == RecordRows(cols, crit, values, rows, exclude, coll)
  {
    if rows != [] {
      RecordsInRange(cols, crit, values, man, rows[..|rows| - 1], exclude, coll);
      assert TokensInRange(crit, man, rows[|rows| - 1]) == Tokens(cols, crit, values, rows[|rows| - 1]);
    }
  }

  lemma RecordInRangeNext(crit: string, man: Range, rows: seq<Row>, j: nat, exclude: set<string>, coll: Collisions)
    requires j < |rows|
    ensures RecordInRange(crit, man, rows[..j + 1], exclude, coll) ==
            var before := RecordInRange(crit, man, rows[..j], exclude, coll);
            if rows[j].name in exclude then before
            else AddToken(before, (rows[j].name, rows[j].inst), TokensInRange(crit, man, rows[j]))
  {
    assert rows[..j + 1][..j] == rows[..j];
  }

  /** The range branch, for bounds already found in order. */
  method RecordRangeCriterion(crit: string, rows: seq<Row>, exclude: set<string>, man: Range, before: Collisions)
    returns (collisions: Collisions)
    ensures collisions == RecordInRange(crit, man, rows, exclude, before)
  {
    collisions := before;
    for j := 0 to |rows|
      invariant collisions == RecordInRange(crit, man, rows[..j], exclude, before)
    {
      RecordInRangeNext(crit, man, rows, j, exclude, before);
      if rows[j].name !in exclude && (rows[j].Get(MinOf(crit)) != Null || rows[j].Get(MaxOf(crit)) != Null) {
        var key, db := (rows[j].name, rows[j].inst), StoredRange(crit, rows[j]);
        if (man.hi >= db.lo && db.hi >= man.lo) || man.lo == db.hi {
          collisions := AddToken(collisions, key, RangeTokens(crit));
        }
      }
    }
    assert rows[..|rows|] == rows;
  }

  method CollectCriterion(cols: seq<Column>, crit: string, values: seq<string>, rows: seq<Row>, exclude: set<string>,
                          coll: Collisions)
    returns (r: Result<Collisions>)
    requires MinOf(crit) in cols ==> |values| == 2
    ensures r == Collect(cols, crit, values, rows, exclude, coll)
  {
    if MinOf(crit) !in cols {
      if ValueOf(crit) !in cols {
        return Err(UnknownCriterion(crit));
      }
      var recorded := RecordValueCriterion(cols, crit, values, rows, exclude, coll);
      r := Ok(recorded);
    } else {
      var given := GivenRange(crit, values);
      if given.Err? {
        return Err(given.failure);
      }
      var recorded := RecordRangeCriterion(crit, rows, exclude, given.value, coll);
      RecordsInRange(cols, crit, values, given.value, rows, exclude, coll);
      r := Ok(recorded);
    }
  }

  /** Once a criterion is refused the outcome is fixed. */
  lemma {:induction false} FailureStays(cols: seq<Column>, criteria: Criteria, k: nat, j: nat, rows: seq<Row>, exclude: set<string>)
    requires k <= j <= |criteria| && Prepared(cols, criteria)
    requires CollisionsUpTo(cols, criteria, k, rows, exclude).Err?
    ensures CollisionsUpTo(cols, criteria, j, rows, exclude) == CollisionsUpTo(cols, criteria, k, rows, exclude)
  {
    if k < j {
      FailureStays(cols, criteria, k, j - 1, rows, exclude);
      CollisionsNext(cols, criteria, j - 1, rows, exclude);
    }
  }

  method FindCollidingCriteria(cols: seq<Column>, criteria: Criteria, rows: seq<Row>, exclude: set<string>)
    returns (r: Result<Collisions>)
    requires Prepared(cols, criteria)
    ensures r == CollisionsUpTo(cols, criteria, |criteria|, rows, exclude)
  {
    r := Ok(map[]);
    for k := 0 to |criteria|
      invariant r.Ok? && CollisionsUpTo(cols, criteria, k, rows, exclude) == r
    {
      var crit := criteria[k].name;
      CollisionsNext(cols, criteria, k, rows, exclude);
      r := CollectCriterion(cols, crit, GetCriterion(criteria, crit).value, rows, exclude, r.value);
      if r.Err? {
        FailureStays(cols, criteria, k + 1, |criteria|, rows, exclude);
        return;
      }
    }
  }

  // ----- find_colliding_manifests -------------------------------------------------

  /** man_criterion: None, one bound of a range, or the list of values. */
  datatype Given = Absent | Token(text: string) | Values(list: seq<string>)

  function GivenFor(criteria: Criteria, col: Column): Given {
    match GetCriterion(criteria, col.crit)
    case None => Absent
    case Some(values) =>
      if values == [] || col.ValueOf? then Values(values)
      else
        var v := if col.MinOf? then values[0] else values[|values| - 1];
        if v == "unbounded" then Absent else Token(v)
  }

  /** str() of the database value, "None" for NULL. */
  function CellText(cell: Cell): string {
    match cell
    case Null => "None"
    case Number(n) => DecimalText(n)
    case Hex(d) => if d == "" then "None" else d
    case Word(t) => if t == "" then "None" else t
  }

  /** str() of the given value where it is compared with a database bound. */
  function GivenText(g: Given): string {
    match g
    case Absent => "None"
    case Token(t) => t
    case Values(_) => "[]"
  }

  predicate CellIsFalse(cell: Cell) {
    match cell
    case Null => true
    case Number(n) => n == 0
    case Hex(d) => d == ""
    case Word(t) => t == ""
  }

  predicate GivenIsFalse(g: Given) {
    match g
    case Absent => true
    case Token(t) => t == ""
    case Values(l) => l == []
  }

  /** Some element of man_criterion is in the database list; iterating a text yields its characters. */
  predicate AnyInList(name: string, g: Given, text: string) {
    match g
    case Absent => false
    case Token(t) => exists i :: 0 <= i < |t| && IsInList(name, [t[i]], text)
    case Values(l) => exists i :: 0 <= i < |l| && IsInList(name, l[i], text)
  }

  datatype Step = Next | Stop | Raise

  function WalkStep(criteria: Criteria, row: Row, collided: string, col: Column): Step {
    var man, db := GivenFor(criteria, col), row.Get(col);
    if !col.ValueOf? && Contains(collided, col.Name() + ",") then
      if Lower(CellText(db)) != Lower(GivenText(man)) then Raise else Next
    else if CellIsFalse(db) && GivenIsFalse(man) then Next
    else if CellIsFalse(db) || GivenIsFalse(man) then Stop
    else if AnyInList(col.Name(), man, CellText(db)) then Next
    else Stop
  }

  datatype Verdict = Diverges | CollidesIn(crit: string) | Same

  function Walk(cols: seq<Column>, criteria: Criteria, row: Row, collided: string, i: nat): Verdict
    requires i <= |cols|
    decreases |cols| - i
  {
    if i == |cols| then Same
    else match WalkStep(criteria, row, collided, cols[i])
         case Next => Walk(cols, criteria, row, collided, i + 1)
         case Stop => Diverges
         case Raise => CollidesIn(cols[i].crit)
  }

  lemma WalkNext(cols: seq<Column>, criteria: Criteria, row: Row, collided: string, i: nat)
    requires i < |cols|
    ensures Walk(cols, criteria, row, collided, i) ==
            match WalkStep(criteria, row, collided, cols[i])
            case Next => Walk(cols, criteria, row, collided, i + 1)
            case Stop => Diverges
            case Raise => CollidesIn(cols[i].crit)
  {}

  /** The for loop over the columns with its break and its else branch. */
  method WalkColumns(cols: seq<Column>, criteria: Criteria, row: Row, collided: string) returns (v: Verdict)
    ensures v == Walk(cols, criteria, row, collided, 0)
  {
    ghost var verdict := Walk(cols, criteria, row, collided, 0);
    var i := 0;
    while i < |cols|
      invariant i <= |cols|
      invariant Walk(cols, criteria, row, collided, i) == verdict
    {
      WalkNext(cols, criteria, row, collided, i);
      var crit := cols[i];
      var manCriterion := GivenFor(criteria, crit);
      var dbCriterion := row.Get(crit);
      if (crit.MinOf? && Contains(collided, crit.Name() + ",")) || (crit.MaxOf? && Contains(collided, crit.Name() + ",")) {
        if Lower(CellText(dbCriterion)) != Lower(GivenText(manCriterion)) {
          return CollidesIn(crit.crit);
        }
      } else if CellIsFalse(dbCriterion) && GivenIsFalse(manCriterion) {
      } else if CellIsFalse(dbCriterion) || GivenIsFalse(manCriterion) {
        return Diverges;
      } else if !AnyInList(crit.Name(), manCriterion, CellText(dbCriterion)) {
        return Diverges;
      }
      i := i + 1;
    }
    v := Same;
  }

  function RowFor(rows: seq<Row>, key: ManInst): Option<Row> {
    if rows == [] then None
    else if (rows[0].name, rows[0].inst) == key then Some(rows[0])
    else RowFor(rows[1..], key)
  }

  ghost predicate UniqueKeys(rows: seq<Row>) {
    forall i, j | 0 <= i < j < |rows| :: (rows[i].name, rows[i].inst) != (rows[j].name, rows[j].inst)
  }

  lemma {:induction false} RowForIsTheRow(rows: seq<Row>, i: nat)
    requires i < |rows| && UniqueKeys(rows)
    ensures RowFor(rows, (rows[i].name, rows[i].inst)) == Some(rows[i])
  {
    if i > 0 {
      assert (rows[0].name, rows[0].inst) != (rows[i].name, rows[i].inst);
      RowForIsTheRow(rows[1..], i - 1);
    }
  }

  /** The verdict on one recorded manifest instance; a row that is gone has no say. */
  function VerdictOn(cols: seq<Column>, criteria: Criteria, rows: seq<Row>, coll: Collisions, key: ManInst): Verdict
    requires key in coll
  {
    match RowFor(rows, key)
    case None => Diverges
    case Some(row) => Walk(cols, criteria, row, coll[key], 0)
  }

  function FailureOf(v: Verdict, key: ManInst): Failure
    requires !v.Diverges?
  {
    match v
    case CollidesIn(c) => RangeCollision(key.0, key.1, c)
    case Same => SameCriteria(key.0, key.1)
  }

  /** A range collision names the manifest, its instance and the criterion; the same criteria name
      manifest and instance. */
  predicate Reports(failure: Failure, v: Verdict, key: ManInst) {
    match failure
    case RangeCollision(name, inst, crit) => v == CollidesIn(crit) && (name, inst) == key
    case SameCriteria(name, inst) => v == Same && (name, inst) == key
    case _ => false
  }

  /** The order of the dictionary decides which of several colliding manifests is reported. */
  method FindCollidingManifests(cols: seq<Column>, criteria: Criteria, rows: seq<Row>, coll: Collisions) returns (r: Result<()>)
    ensures r.Ok? <==> forall key | key in coll :: VerdictOn(cols, criteria, rows, coll, key) == Diverges
    ensures r.Err? ==> exists key :: key in coll && Reports(r.failure, VerdictOn(cols, criteria, rows, coll, key), key)
  {
    var todo := coll.Keys;
    while todo != {}
      invariant todo <= coll.Keys
      invariant forall key | key in coll && key !in todo :: VerdictOn(cols, criteria, rows, coll, key) == Diverges
      decreases |todo|
    {
      var key :| key in todo;
      var found := RowFor(rows, key);
      if found.Some? {
        var v := WalkColumns(cols, criteria, found.value, coll[key]);
        if !v.Diverges? {
          return Err(FailureOf(v, key));
        }
      }
      todo := todo - {key};
    }
    r := Ok(());
  }

  /** The two checks in a row admit the criteria beside the rows not excluded. */
  ghost predicate Admitted(cols: seq<Column>, criteria: Criteria, rows: seq<Row>, exclude: set<string>)
    requires Prepared(cols, criteria)
  {
    var r := CollisionsUpTo(cols, criteria, |criteria|, rows, exclude);
    r.Ok? && forall key | key in r.value :: VerdictOn(cols, criteria, rows, r.value, key) == Diverges
  }
}
