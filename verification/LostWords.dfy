/** The admission theorem without its condition on the values, for criteria of any number: exactly
    when does an ambiguity get past the checks because the sanitizer loses a word? */
module LostWords {
  import opened Text
  import opened Addresses
  import opened CriteriaDatabase
  import opened PublishManifest
  import opened Encodings
  import opened Admission

  function BoundOf(col: Column, values: seq<string>): string
    requires |values| == 2
  {
    if col.MinOf? then values[0] else values[1]
  }

  /** The text of a bound is the one that its stored number is shown as. */
  predicate Canonical(v: string) {
    v == "unbounded" || (Parse(v, 10).Some? && DecimalText(IntegerOf(v)) == v)
  }

  /** What is given for a bound column, if anything, is shown as it was given. */
  predicate Spelled(criteria: Criteria, col: Column) {
    col.ValueOf? || col.crit == "mac" || GetCriterion(criteria, col.crit).None?
    || (|GetCriterion(criteria, col.crit).value| == 2 && Canonical(BoundOf(col, GetCriterion(criteria, col.crit).value)))
  }

  /** A value column whose stored text has a word that was not given. */
  predicate Loses(criteria: Criteria, col: Column) {
    col.ValueOf? && GetCriterion(criteria, col.crit).Some? && !WordsKept(col.crit, GetCriterion(criteria, col.crit).value)
  }

  /** A bound with a leading zero or a plus sign, which the walk refuses, stands before column j. */
  ghost predicate Guarded(cols: seq<Column>, criteria: Criteria, j: nat)
    requires j < |cols|
  {
    exists i :: 0 <= i < j && !Spelled(criteria, cols[i])
  }

  ghost predicate Safeguarded(cols: seq<Column>, criteria: Criteria) {
    forall j | 0 <= j < |cols| && Loses(criteria, cols[j]) :: Guarded(cols, criteria, j)
  }

  /** Every criterion passes its own check: it is in the schema and its range is in order. */
  ghost predicate Checked(cols: seq<Column>, criteria: Criteria)
    requires Prepared(cols, criteria)
  {
    forall k | 0 <= k < |criteria| ::
      CheckCriterion(cols, criteria[k].name, GetCriterion(criteria, criteria[k].name).value).Ok?
  }

  // ----- which bounds are canonical ----------------------------------------------------------------

  lemma NextDigit(n: nat, d: nat)
    requires n > 0 && d < 10
    ensures Decimal(n * 10 + d) == Decimal(n) + [DigitChar(d)]
  {
    assert (n * 10 + d) / 10 == n && (n * 10 + d) % 10 == d;
  }

  lemma {:induction false} NoLeadingZero(v: string)
    requires IsNumeral(v, 10) && v[0] != '0'
    ensures Value(v, 10) > 0 && Decimal(Value(v, 10)) == v
  {
    var n := |v| - 1;
    assert DigitOf(v[n]) < 10 && DigitChar(DigitOf(v[n])) == v[n];
    if n == 0 {
      assert v[..0] == "" && DigitOf(v[0]) != 0;
    } else {
      var front := v[..n];
      assert forall i | 0 <= i < n :: front[i] == v[i];
      NoLeadingZero(front);
      NextDigit(Value(front, 10), DigitOf(v[n]));
      assert v == front + [v[n]];
    }
  }

  lemma DecimalExactly(v: string)
    requires IsNumeral(v, 10)
    ensures Decimal(Value(v, 10)) == v <==> |v| == 1 || v[0] != '0'
  {
    if v[0] != '0' {
      NoLeadingZero(v);
    } else if |v| == 1 {
      assert v == "0";
      ZeroValue(10);
    } else if Decimal(Value(v, 10)) == v {
      if Value(v, 10) > 0 {
        DecimalLeadingDigit(Value(v, 10));
      }
      assert false;
    }
  }

  lemma SignedExactly(v: string)
    requires v != "" && IsSign(v[0]) && IsNumeral(v[1..], 10)
    ensures DecimalText(IntegerOf(v)) == v <==> v[0] == '-' && v[1] != '0'
  {
    var n := Value(v[1..], 10);
    assert v == [v[0]] + v[1..] && v[1] == v[1..][0] && DigitOf(v[0]) == 99;
    assert if v[0] == '-' then IntegerOf(v) + n == 0 else IntegerOf(v) == n;
    if v[1] != '0' {
      NoLeadingZero(v[1..]);
    }
    if n > 0 {
      DecimalLeadingDigit(n);
    }
    assert DigitOf(Decimal(n)[0]) < 10;
  }

  /** An integer is canonical exactly if it has no plus sign and no leading zero. */
  lemma CanonicalExactly(v: string)
    requires Parse(v, 10).Some?
    ensures Canonical(v) <==>
            if IsNumeral(v, 10) then |v| == 1 || v[0] != '0' else v[0] == '-' && v[1] != '0'
  {
    assert DigitOf("unbounded"[0]) == 99 && !IsSign("unbounded"[0]);
    if IsNumeral(v, 10) {
      assert DigitOf(v[0]) < 10;
      DecimalExactly(v);
    } else {
      SignedExactly(v);
    }
  }

  lemma FirstOfThree(n: nat)
    requires n < 1000
    ensures Digits(n, 3)[0] == '0' <==> n < 100
  {
    assert Digits(n, 3)[0] == Digits(n / 10, 2)[0] == Digits(n / 10 / 10, 1)[0] == DigitChar(n / 10 / 10 % 10);
  }

  /** The code of an address, padded to three digits an octet, is canonical exactly from 100.0.0.0 on. */
  lemma CodeIsCanonical(ip: IPv4)
    requires ip.Valid()
    ensures Canonical(Encoded(ip)) <==> ip.a >= 100
  {
    CanonicalExactly(Encoded(ip));
    assert Encoded(ip)[0] == Digits(ip.a, 3)[0];
    FirstOfThree(ip.a);
  }

  // ----- safeguarded criteria are safe ------------------------------------------------------------

  function Steps(cols: seq<Column>, criteria: Criteria, row: Row, collided: string): (r: seq<Step>)
    ensures |r| == |cols|
  {
    seq(|cols|, i requires 0 <= i < |cols| => WalkStep(criteria, row, collided, cols[i]))
  }

  /** The steps come to a stop before anything is raised. */
  predicate Diverging(steps: seq<Step>) {
    steps != [] && (steps[0] == Stop || (steps[0] == Next && Diverging(steps[1..])))
  }

  lemma {:induction false} WalkOfSteps(cols: seq<Column>, criteria: Criteria, row: Row, collided: string, i: nat)
    requires i <= |cols|
    ensures Walk(cols, criteria, row, collided, i) == Diverges <==> Diverging(Steps(cols, criteria, row, collided)[i..])
    decreases |cols| - i
  {
    if i < |cols| {
      var steps := Steps(cols, criteria, row, collided);
      WalkOfSteps(cols, criteria, row, collided, i + 1);
      WalkNext(cols, criteria, row, collided, i);
      assert steps[i..] == [steps[i]] + steps[i + 1..];
    }
  }

  lemma {:induction false} FirstStop(steps: seq<Step>) returns (j: nat)
    requires Diverging(steps)
    ensures j < |steps| && steps[j] == Stop && forall k | 0 <= k < j :: steps[k] == Next
  {
    if steps[0] == Stop {
      j := 0;
    } else {
      var j' := FirstStop(steps[1..]);
      j := j' + 1;
      forall k | 0 <= k < j
        ensures steps[k] == Next
      {
        assert k > 0 ==> steps[k] == steps[1..][k - 1];
      }
    }
  }

  lemma {:induction false} StopDiverges(steps: seq<Step>, j: nat)
    requires j < |steps| && steps[j] == Stop && forall k | 0 <= k < j :: steps[k] != Raise
    ensures Diverging(steps)
  {
    if j > 0 && steps[0] == Next {
      StopDiverges(steps[1..], j - 1);
    }
  }

  /** A bound that is not canonical is a number, and no stored cell is shown as it. */
  lemma UnspelledBound(criteria: Criteria, col: Column, values: seq<string>)
    requires GetCriterion(criteria, col.crit) == Some(values) && |values| == 2 && !Spelled(criteria, col)
    requires GivenRange(col.crit, values).Ok?
    ensures var v := BoundOf(col, values); v != "unbounded" && Parse(v, 10).Some? && GivenFor(criteria, col) == Token(v)
    ensures StoredCell(criteria, col) != Null
  {
    var v := BoundOf(col, values);
    UpperParse(v, 10);
  }

  lemma NoneIsNoNumber(v: string)
    requires Parse(v, 10).Some?
    ensures Lower("None") != Lower(v)
  {
    assert DigitOf(v[0]) < 10 || IsSign(v[0]);
    assert Lower("None")[0] == 'n';
  }

  lemma UnspelledRaises(criteria: Criteria, row: Row, collided: string, col: Column, values: seq<string>)
    requires GetCriterion(criteria, col.crit) == Some(values) && |values| == 2 && !Spelled(criteria, col)
    requires GivenRange(col.crit, values).Ok? && WellTypedCell(col, row.Get(col))
    requires Contains(collided, col.Name() + ",")
    ensures WalkStep(criteria, row, collided, col) == Raise
  {
    var v := BoundOf(col, values);
    UnspelledBound(criteria, col, values);
    if row.Get(col).Number? {
      var n := row.Get(col).n;
      RecordedDecimalStep(criteria, row, collided, col, n, v);
      DecimalTextValue(n);
    } else {
      NoneIsNoNumber(v);
    }
  }

  lemma GuardRaises(cols: seq<Column>, criteria: Criteria, row: Row, stored: Row, client: Client, collided: string, col: Column)
    requires Shared(cols, criteria, row, stored, client) && col in cols && !Spelled(criteria, col)
    requires GivenRange(col.crit, GetCriterion(criteria, col.crit).value).Ok?
    requires stored.Constrains(col.crit) ==>
               Contains(collided, MinOf(col.crit).Name() + ",") && Contains(collided, MaxOf(col.crit).Name() + ",")
    ensures WalkStep(criteria, row, collided, col) == Raise
  {
    var values := GetCriterion(criteria, col.crit).value;
    BothBounds(cols, criteria, col.crit);
    UnspelledBound(criteria, col, values);
    StoredGet(cols, criteria, stored, col);
    UnspelledRaises(criteria, row, collided, col, values);
  }

  /** What the walk goes by: every given range is in order, and both tokens of every constrained one
      are recorded. */
  ghost predicate BoundsRecorded(cols: seq<Column>, criteria: Criteria, stored: Row, collided: string) {
    && (forall c: string | MinOf(c) in cols && GetCriterion(criteria, c).Some? && |GetCriterion(criteria, c).value| == 2 ::
          GivenRange(c, GetCriterion(criteria, c).value).Ok?)
    && (forall c: string | MinOf(c) in cols && stored.Constrains(c) ::
          Contains(collided, MinOf(c).Name() + ",") && Contains(collided, MaxOf(c).Name() + ","))
  }

  /** Where the walk stops a word is lost, so something is raised before. */
  lemma StopIsGuarded(cols: seq<Column>, criteria: Criteria, row: Row, stored: Row, client: Client, collided: string, j: nat)
    requires Shared(cols, criteria, row, stored, client) && Safeguarded(cols, criteria)
    requires BoundsRecorded(cols, criteria, stored, collided) && j < |cols|
    ensures WalkStep(criteria, row, collided, cols[j]) == Stop ==>
              exists i :: 0 <= i < j && Steps(cols, criteria, row, collided)[i] == Raise
  {
    if Loses(criteria, cols[j]) {
      var i :| 0 <= i < j && !Spelled(criteria, cols[i]);
      BothBounds(cols, criteria, cols[i].crit);
      GuardRaises(cols, criteria, row, stored, client, collided, cols[i]);
      assert Steps(cols, criteria, row, collided)[i] == Raise;
    } else {
      if MinOf(cols[j].crit) in cols && GetCriterion(criteria, cols[j].crit).Some? {
        BothBounds(cols, criteria, cols[j].crit);
      }
      SharedStepGoesOn(cols, criteria, row, stored, client, collided, cols[j]);
    }
  }

  lemma WalkIsGuarded(cols: seq<Column>, criteria: Criteria, row: Row, stored: Row, client: Client, collided: string)
    requires Shared(cols, criteria, row, stored, client) && Safeguarded(cols, criteria)
    requires BoundsRecorded(cols, criteria, stored, collided)
    ensures Walk(cols, criteria, row, collided, 0) != Diverges
  {
    var steps := Steps(cols, criteria, row, collided);
    WalkOfSteps(cols, criteria, row, collided, 0);
    assert steps[0..] == steps;
    if Diverging(steps) {
      var j := FirstStop(steps);
      StopIsGuarded(cols, criteria, row, stored, client, collided, j);
      assert false;
    }
  }

  lemma SomeLoss(cols: seq<Column>, criteria: Criteria) returns (j: nat)
    requires !Kept(cols, criteria)
    ensures j < |cols| && Loses(criteria, cols[j])
  {
    var crit: string :| ValueOf(crit) in cols && GetCriterion(criteria, crit).Some?
                        && !WordsKept(crit, GetCriterion(criteria, crit).value);
    j :| 0 <= j < |cols| && cols[j] == ValueOf(crit);
  }

  /** A range with such a bound is recorded, so there is a verdict on the row. */
  lemma GuardIsRecorded(cols: seq<Column>, criteria: Criteria, rows: seq<Row>, exclude: set<string>, n: nat, stored: Row,
                        client: Client, col: Column)
    requires Prepared(cols, criteria) && Admitted(cols, criteria, rows, exclude)
    requires n < |rows| && rows[n].name !in exclude && Shared(cols, criteria, rows[n], stored, client)
    requires col in cols && !Spelled(criteria, col)
    ensures (rows[n].name, rows[n].inst) in CollisionsUpTo(cols, criteria, |criteria|, rows, exclude).value
  {
    var values := GetCriterion(criteria, col.crit).value;
    BothBounds(cols, criteria, col.crit);
    GivenRangesAreValid(cols, criteria, rows, exclude, n, col.crit);
    UnspelledBound(criteria, col, values);
    StoredGet(cols, criteria, stored, col);
    assert ValueOf(col.crit) !in cols;
    ConstrainedIsRecorded(cols, criteria, rows, exclude, n, stored, client, col.crit);
  }

  lemma NoVerdict(cols: seq<Column>, criteria: Criteria, rows: seq<Row>, exclude: set<string>, n: nat, stored: Row, client: Client)
    requires Prepared(cols, criteria) && Admitted(cols, criteria, rows, exclude) && UniqueKeys(rows)
    requires n < |rows| && rows[n].name !in exclude && Shared(cols, criteria, rows[n], stored, client)
    requires Safeguarded(cols, criteria)
    ensures (rows[n].name, rows[n].inst) !in CollisionsUpTo(cols, criteria, |criteria|, rows, exclude).value
  {
    var coll, key := CollisionsUpTo(cols, criteria, |criteria|, rows, exclude).value, (rows[n].name, rows[n].inst);
    if key in coll {
      forall c: string | MinOf(c) in cols && GetCriterion(criteria, c).Some? && |GetCriterion(criteria, c).value| == 2
        ensures GivenRange(c, GetCriterion(criteria, c).value).Ok?
      {
        GivenRangesAreValid(cols, criteria, rows, exclude, n, c);
      }
      forall c: string | MinOf(c) in cols && stored.Constrains(c)
        ensures Contains(coll[key], MinOf(c).Name() + ",") && Contains(coll[key], MaxOf(c).Name() + ",")
      {
        assert ValueOf(c) !in cols;
        ConstrainedIsRecorded(cols, criteria, rows, exclude, n, stored, client, c);
      }
      RowForIsTheRow(rows, n);
      WalkIsGuarded(cols, criteria, rows[n], stored, client, coll[key]);
      assert false;
    }
  }

  /** Admission is sound for safeguarded criteria, too. */
  lemma SafeguardedRowIsUnambiguous(cols: seq<Column>, criteria: Criteria, rows: seq<Row>, exclude: set<string>, n: nat,
                                    stored: Row, client: Client)
    requires ValidSchema(cols) && WellTypedTable(cols, rows) && UniqueKeys(rows)
    requires Prepared(cols, criteria) && Safeguarded(cols, criteria) && Admitted(cols, criteria, rows, exclude)
    requires n < |rows| && rows[n].name !in exclude && stored.cells == StoredCells(cols, criteria)
    requires SameConstraints(rows[n], stored) && WithinInfinity(cols, client)
    ensures !(Matches(cols, rows[n], client) && Matches(cols, stored, client))
  {
    if Matches(cols, rows[n], client) && Matches(cols, stored, client) {
      if Kept(cols, criteria) {
        AdmittedRowIsUnambiguous(cols, criteria, rows, exclude, n, stored, client);
      } else {
        assert rows[n] in rows;
        var j := SomeLoss(cols, criteria);
        var i :| 0 <= i < j && !Spelled(criteria, cols[i]);
        GuardIsRecorded(cols, criteria, rows, exclude, n, stored, client, cols[i]);
        NoVerdict(cols, criteria, rows, exclude, n, stored, client);
      }
      assert false;
    }
  }

  lemma SafeguardedIsSafe(cols: seq<Column>, criteria: Criteria, row: Row, client: Client)
    requires ValidSchema(cols) && Safeguarded(cols, criteria) && WithinInfinity(cols, client)
    ensures !Clash(cols, criteria, row, client)
  {
    if Clash(cols, criteria, row, client) {
      SafeguardedRowIsUnambiguous(cols, criteria, [row], {}, 0, StoredRow(cols, criteria), client);
      assert false;
    }
  }

  lemma KeptIsSafeguarded(cols: seq<Column>, criteria: Criteria)
    requires Kept(cols, criteria)
    ensures Safeguarded(cols, criteria)
  {
    assert forall j | 0 <= j < |cols| && cols[j].ValueOf? :: ValueOf(cols[j].crit) in cols;
  }

  // ----- without a safeguard the checks pass -------------------------------------------------------

  lemma {:induction false} NothingRefused(cols: seq<Column>, criteria: Criteria, rows: seq<Row>, j: nat)
    requires Prepared(cols, criteria) && Checked(cols, criteria) && j <= |criteria|
    ensures CollisionsUpTo(cols, criteria, j, rows, {}).Ok?
  {
    if j > 0 {
      NothingRefused(cols, criteria, rows, j - 1);
      CollisionsNext(cols, criteria, j - 1, rows, {});
    }
  }

  lemma LowerOfUpper(s: string)
    ensures Lower(Upper(s)) == Lower(s)
  {}

  /** The stored bound is shown as the bound that was given. */
  lemma BoundIsShown(crit: string, v: string)
    requires PreparedBound(crit, v) && (crit == "mac" || Canonical(v))
    ensures v == "unbounded" ==> CellText(BoundCell(crit, v)) == "None"
    ensures v != "unbounded" ==> Lower(CellText(BoundCell(crit, v))) == Lower(v)
  {
    if v != "unbounded" {
      ParsedIsClean(v, BaseOf(crit));
      LowerOfUpper(v);
    }
  }

  lemma GivenBound(criteria: Criteria, col: Column, values: seq<string>)
    requires GetCriterion(criteria, col.crit) == Some(values) && |values| == 2 && !col.ValueOf?
    ensures StoredCell(criteria, col) == BoundCell(col.crit, BoundOf(col, values))
    ensures GivenFor(criteria, col) == if BoundOf(col, values) == "unbounded" then Absent else Token(BoundOf(col, values))
  {}

  lemma SpelledIsShown(cols: seq<Column>, criteria: Criteria, col: Column)
    requires ValidSchema(cols) && Prepared(cols, criteria) && col in cols && !col.ValueOf? && Spelled(criteria, col)
    ensures Lower(CellText(StoredCell(criteria, col))) == Lower(GivenText(GivenFor(criteria, col)))
  {
    var c := col.crit;
    if GetCriterion(criteria, c).Some? {
      var values := GetCriterion(criteria, c).value;
      var k :| 0 <= k < |criteria| && criteria[k] == Criterion(c, values);
      GivenBound(criteria, col, values);
      BoundIsShown(c, BoundOf(col, values));
    }
  }

  lemma ShownGoesOn(criteria: Criteria, row: Row, collided: string, col: Column)
    requires !col.ValueOf? ==> Lower(CellText(row.Get(col))) == Lower(GivenText(GivenFor(criteria, col)))
    ensures WalkStep(criteria, row, collided, col) != Raise
  {}

  lemma LostWordStops(criteria: Criteria, row: Row, collided: string, crit: string, w: string)
    requires GetCriterion(criteria, crit).Some? && row.Get(ValueOf(crit)) == Word(w) && IsWord(w)
    requires !GivenAs(crit, GetCriterion(criteria, crit).value, w)
    ensures WalkStep(criteria, row, collided, ValueOf(crit)) == Stop
  {
    var values := GetCriterion(criteria, crit).value;
    assert GivenFor(criteria, ValueOf(crit)) == Values(values);
    forall i | 0 <= i < |values|
      ensures !IsInList(crit, values[i], w)
    {
      OneWordList(crit, values[i], w);
      assert values[i] in values;
    }
    assert !AnyInList(crit, Values(values), w);
  }

  /** The row has the bounds of the criteria, and the lost word in column j. */
  ghost predicate Twin(cols: seq<Column>, criteria: Criteria, row: Row, j: nat, w: string) {
    && j < |cols| && cols[j].ValueOf? && row.Get(cols[j]) == Word(w) && IsWord(w)
    && GetCriterion(criteria, cols[j].crit).Some? && !GivenAs(cols[j].crit, GetCriterion(criteria, cols[j].crit).value, w)
    && forall col | col in cols && !col.ValueOf? :: row.Get(col) == StoredCell(criteria, col)
  }

  /** Criteria without a safeguard diverge from such a row. */
  lemma TwinDiverges(cols: seq<Column>, criteria: Criteria, row: Row, collided: string, j: nat, w: string)
    requires ValidSchema(cols) && Prepared(cols, criteria) && Twin(cols, criteria, row, j, w) && !Guarded(cols, criteria, j)
    ensures Walk(cols, criteria, row, collided, 0) == Diverges
  {
    var steps := Steps(cols, criteria, row, collided);
    forall k | 0 <= k < j
      ensures steps[k] != Raise
    {
      assert cols[k] in cols;
      if !cols[k].ValueOf? {
        SpelledIsShown(cols, criteria, cols[k]);
      }
      ShownGoesOn(criteria, row, collided, cols[k]);
    }
    LostWordStops(criteria, row, collided, cols[j].crit, w);
    StopDiverges(steps, j);
    WalkOfSteps(cols, criteria, row, collided, 0);
    assert steps[0..] == steps;
  }

  lemma OneRowVerdict(cols: seq<Column>, criteria: Criteria, row: Row, coll: Collisions, key: ManInst)
    requires key in coll && Walk(cols, criteria, row, coll[key], 0) == Diverges
    ensures VerdictOn(cols, criteria, [row], coll, key) == Diverges
  {
    assert RowFor([row][1..], key) == None;
  }

  lemma AdmittedIfDiverging(cols: seq<Column>, criteria: Criteria, row: Row, r: Result<Collisions>)
    requires Prepared(cols, criteria) && r == CollisionsUpTo(cols, criteria, |criteria|, [row], {}) && r.Ok?
    requires forall collided :: Walk(cols, criteria, row, collided, 0) == Diverges
    ensures Admitted(cols, criteria, [row], {})
  {
    forall key | key in r.value {
      OneRowVerdict(cols, criteria, row, r.value, key);
    }
  }

  lemma TwinIsAdmitted(cols: seq<Column>, criteria: Criteria, row: Row, j: nat, w: string)
    requires ValidSchema(cols) && Prepared(cols, criteria) && Checked(cols, criteria)
    requires Twin(cols, criteria, row, j, w) && !Guarded(cols, criteria, j)
    ensures Admitted(cols, criteria, [row], {})
  {
    NothingRefused(cols, criteria, [row], |criteria|);
    forall collided
      ensures Walk(cols, criteria, row, collided, 0) == Diverges
    {
      TwinDiverges(cols, criteria, row, collided, j, w);
    }
    AdmittedIfDiverging(cols, criteria, row, CollisionsUpTo(cols, criteria, |criteria|, [row], {}));
  }

  // ----- both rows suit the client ----------------------------------------------------------------

  /** The stored row with another text in one value column. */
  function WithText(row: Row, crit: string, text: string): Row {
    Row("a", 0, row.cells[ValueOf(crit) := Word(text)])
  }

  lemma WithTextGet(row: Row, crit: string, text: string, col: Column)
    ensures WithText(row, crit, text).Get(col) == if col == ValueOf(crit) then Word(text) else row.Get(col)
  {}

  lemma WithTextConstrains(row: Row, crit: string, text: string)
    requires row.Constrains(crit)
    ensures SameConstraints(WithText(row, crit, text), row)
  {
    forall c: string
      ensures WithText(row, crit, text).Constrains(c) <==> row.Constrains(c)
    {
      WithTextGet(row, crit, text, MinOf(c));
      WithTextGet(row, crit, text, MaxOf(c));
      WithTextGet(row, crit, text, ValueOf(c));
    }
  }

  /** Two rows that agree but for the text of one value column suit a client alike but for that. */
  lemma SuitsWithText(cols: seq<Column>, row: Row, row': Row, client: Client, crit: string, w: string, text: string)
    requires ValidSchema(cols) && ValueOf(crit) in cols && Matches(cols, row, client) && SameConstraints(row', row)
    requires row'.Get(ValueOf(crit)) == Word(text) && IsInList(crit, w, text) && SanitizeSQL(w) == w
    requires forall col: Column | col != ValueOf(crit) :: row'.Get(col) == row.Get(col)
    ensures Matches(cols, row', client[crit := w])
  {
    var client' := client[crit := w];
    forall c: string
      ensures Satisfies(cols, row', client', c)
    {
      assert Satisfies(cols, row, client, c);
      assert c == crit ==> MinOf(c) !in cols;
    }
    var some: string :| row.Constrains(some);
    assert row'.Constrains(some);
  }

  lemma HeldWord(crit: string, w: string, text: string)
    requires w in Split(text)
    ensures IsInList(crit, w, text)
  {
    var i :| 0 <= i < |Split(text)| && Split(text)[i] == w;
    assert SameValue(crit, w, Split(text)[i]);
  }

  lemma BothSuit(cols: seq<Column>, stored: Row, crit: string, w: string, text: string, client: Client)
    requires ValidSchema(cols) && ValueOf(crit) in cols && Matches(cols, stored, client)
    requires stored.Get(ValueOf(crit)) == Word(text) && w in Split(text) && IsWord(w) && SanitizeSQL(w) == w
    ensures Matches(cols, stored, client[crit := w]) && Matches(cols, WithText(stored, crit, w), client[crit := w])
    ensures SameConstraints(WithText(stored, crit, w), stored)
  {
    HeldWord(crit, w, text);
    SuitsWithText(cols, stored, stored, client, crit, w, text);
    WithTextConstrains(stored, crit, w);
    OneWordList(crit, w, w);
    SuitsWithText(cols, stored, WithText(stored, crit, w), client, crit, w, w);
  }

  lemma WithTextIsWellTyped(cols: seq<Column>, row: Row, crit: string, text: string)
    requires WellTyped(cols, row) && ValueOf(crit) in cols
    ensures WellTyped(cols, WithText(row, crit, text))
  {
    forall col: Column
      ensures WithText(row, crit, text).Get(col) != Null ==> col in cols
      ensures WellTypedCell(col, WithText(row, crit, text).Get(col))
    {
      WithTextGet(row, crit, text, col);
    }
  }

  lemma StoredRowIsWellTyped(cols: seq<Column>, criteria: Criteria)
    requires ValidSchema(cols) && Prepared(cols, criteria) && Checked(cols, criteria)
    ensures WellTyped(cols, StoredRow(cols, criteria))
  {
    forall k | 0 <= k < |criteria|
      ensures RangeChecked(cols, criteria, k)
    {
      assert CheckCriterion(cols, criteria[k].name, GetCriterion(criteria, criteria[k].name).value).Ok?;
    }
    StoredIsWellTyped(cols, criteria, StoredRow(cols, criteria));
  }

  lemma StoredWords(values: seq<string>, w: string)
    requires w in Split(StoredText(values))
    ensures IsWord(w) && SanitizeSQL(w) == w
  {
    SanitizedHasNoSpecials(Join(values));
    SplitWords(StoredText(values));
    SanitizeFixpoint(w);
  }

  lemma StoredTwin(cols: seq<Column>, criteria: Criteria, j: nat, w: string)
    requires j < |cols| && cols[j].ValueOf? && GetCriterion(criteria, cols[j].crit).Some?
    requires IsWord(w) && !GivenAs(cols[j].crit, GetCriterion(criteria, cols[j].crit).value, w)
    ensures Twin(cols, criteria, WithText(StoredRow(cols, criteria), cols[j].crit, w), j, w)
  {
    var row := WithText(StoredRow(cols, criteria), cols[j].crit, w);
    WithTextGet(StoredRow(cols, criteria), cols[j].crit, w, cols[j]);
    forall col | col in cols && !col.ValueOf?
      ensures row.Get(col) == StoredCell(criteria, col)
    {
      WithTextGet(StoredRow(cols, criteria), cols[j].crit, w, col);
      StoredGet(cols, criteria, StoredRow(cols, criteria), col);
    }
  }

  /** A word lost in a column without a safeguard is missed, beside a row that holds that word and is
      the stored row otherwise. */
  lemma UnguardedWordIsMissed(cols: seq<Column>, criteria: Criteria, j: nat, w: string, client: Client)
    requires ValidSchema(cols) && Prepared(cols, criteria) && Checked(cols, criteria)
    requires j < |cols| && cols[j].ValueOf? && GetCriterion(criteria, cols[j].crit).Some? && !Guarded(cols, criteria, j)
    requires var values := GetCriterion(criteria, cols[j].crit).value;
             w in Split(StoredText(values)) && !GivenAs(cols[j].crit, values, w)
    requires Matches(cols, StoredRow(cols, criteria), client) && WithinInfinity(cols, client)
    ensures Misses(cols, criteria, WithText(StoredRow(cols, criteria), cols[j].crit, w), client[cols[j].crit := w])
  {
    var crit, stored := cols[j].crit, StoredRow(cols, criteria);
    var values := GetCriterion(criteria, crit).value;
    StoredWords(values, w);
    StoredGet(cols, criteria, stored, cols[j]);
    BothSuit(cols, stored, crit, w, StoredText(values), client);
    StoredTwin(cols, criteria, j, w);
    TwinIsAdmitted(cols, criteria, WithText(stored, crit, w), j, w);
    StoredRowIsWellTyped(cols, criteria);
    WithTextIsWellTyped(cols, stored, crit, w);
    assert cols[j] in cols && MinOf(crit) !in cols;
  }

  lemma SomeUnguardedWord(cols: seq<Column>, criteria: Criteria) returns (j: nat, w: string)
    requires !Safeguarded(cols, criteria)
    ensures j < |cols| && cols[j].ValueOf? && GetCriterion(criteria, cols[j].crit).Some? && !Guarded(cols, criteria, j)
    ensures var values := GetCriterion(criteria, cols[j].crit).value;
            w in Split(StoredText(values)) && !GivenAs(cols[j].crit, values, w)
  {
    j :| 0 <= j < |cols| && Loses(criteria, cols[j]) && !Guarded(cols, criteria, j);
    var values := GetCriterion(criteria, cols[j].crit).value;
    w :| w in Split(StoredText(values)) && !GivenAs(cols[j].crit, values, w);
  }

  /** For any criteria that pass their own checks and that some client meets: the checks miss no
      ambiguity exactly when every column that loses a word has a bound with leading zeros before it. */
  lemma MissesExactly(cols: seq<Column>, criteria: Criteria, client: Client)
    requires ValidSchema(cols) && Prepared(cols, criteria) && Checked(cols, criteria)
    requires Matches(cols, StoredRow(cols, criteria), client) && WithinInfinity(cols, client)
    ensures Safeguarded(cols, criteria) <==> forall row, c: Client :: !Misses(cols, criteria, row, c)
  {
    if Safeguarded(cols, criteria) {
      forall row, c: Client
        ensures !Misses(cols, criteria, row, c)
      {
        if WithinInfinity(cols, c) {
          SafeguardedIsSafe(cols, criteria, row, c);
        }
      }
    } else {
      var j, w := SomeUnguardedWord(cols, criteria);
      UnguardedWordIsMissed(cols, criteria, j, w, client);
    }
  }
}
