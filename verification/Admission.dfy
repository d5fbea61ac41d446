/** What the two collision checks guarantee together: an admitted row and a stored row that
    constrain the same criteria never suit one and the same client. */
module Admission {
  import opened Text
  import opened CriteriaDatabase
  import opened PublishManifest

  ghost predicate SameConstraints(r: Row, s: Row) {
    forall c: string :: r.Constrains(c) <==> s.Constrains(c)
  }

  /** The client's decimal range values are between 0 and the number that stands for "no upper bound". */
  ghost predicate WithinInfinity(cols: seq<Column>, client: Client) {
    forall c | c in client && MinOf(c) in cols && c != "mac" :: 0 <= IntegerOf(SanitizeSQL(client[c])) <= INFINITY
  }

  // ----- recorded tokens survive to the walk -----------------------------------

  predicate Recorded(coll: Collisions, key: ManInst, token: string) {
    key in coll && Contains(coll[key], token)
  }

  lemma AddKeeps(coll: Collisions, key: ManInst, token: string, key': ManInst, token': string)
    requires Recorded(coll, key, token)
    ensures Recorded(AddToken(coll, key', token'), key, token)
  {
    if key == key' {
      ContainsPrefix(coll[key], token', token);
    }
  }

  lemma AddRecords(coll: Collisions, key: ManInst, tokens: string, token: string)
    requires tokens != "" && Contains(tokens, token)
    ensures Recorded(AddToken(coll, key, tokens), key, token)
  {
    if key in coll {
      ContainsSuffix(coll[key], tokens, token);
    }
  }

  lemma {:induction false} RowsKeep(cols: seq<Column>, crit: string, values: seq<string>, rows: seq<Row>, exclude: set<string>,
                                    coll: Collisions, key: ManInst, token: string)
    requires Recorded(coll, key, token)
    ensures Recorded(RecordRows(cols, crit, values, rows, exclude, coll), key, token)
  {
    if rows != [] {
      var n := |rows| - 1;
      RowsKeep(cols, crit, values, rows[..n], exclude, coll, key, token);
      AddKeeps(RecordRows(cols, crit, values, rows[..n], exclude, coll), key, token,
               (rows[n].name, rows[n].inst), Tokens(cols, crit, values, rows[n]));
    }
  }

  lemma {:induction false} RowsRecord(cols: seq<Column>, crit: string, values: seq<string>, rows: seq<Row>, exclude: set<string>,
                                      coll: Collisions, i: nat, token: string)
    requires i < |rows| && rows[i].name !in exclude
    requires Tokens(cols, crit, values, rows[i]) != "" && Contains(Tokens(cols, crit, values, rows[i]), token)
    ensures Recorded(RecordRows(cols, crit, values, rows, exclude, coll), (rows[i].name, rows[i].inst), token)
  {
    var n := |rows| - 1;
    var before := RecordRows(cols, crit, values, rows[..n], exclude, coll);
    if i == n {
      AddRecords(before, (rows[n].name, rows[n].inst), Tokens(cols, crit, values, rows[n]), token);
    } else {
      RowsRecord(cols, crit, values, rows[..n], exclude, coll, i, token);
      AddKeeps(before, (rows[i].name, rows[i].inst), token, (rows[n].name, rows[n].inst), Tokens(cols, crit, values, rows[n]));
    }
  }

  lemma CollectRecords(cols: seq<Column>, crit: string, values: seq<string>, rows: seq<Row>, exclude: set<string>,
                       coll: Collisions, i: nat, token: string)
    requires (MinOf(crit) in cols ==> |values| == 2) && Collect(cols, crit, values, rows, exclude, coll).Ok?
    requires i < |rows| && rows[i].name !in exclude
    ensures MinOf(crit) in cols ==> GivenRange(crit, values).Ok?
    ensures Recorded(coll, (rows[i].name, rows[i].inst), token)
            || (Tokens(cols, crit, values, rows[i]) != "" && Contains(Tokens(cols, crit, values, rows[i]), token)) ==>
              Recorded(Collect(cols, crit, values, rows, exclude, coll).value, (rows[i].name, rows[i].inst), token)
  {
    if Recorded(coll, (rows[i].name, rows[i].inst), token) {
      RowsKeep(cols, crit, values, rows, exclude, coll, (rows[i].name, rows[i].inst), token);
    }
    if Tokens(cols, crit, values, rows[i]) != "" && Contains(Tokens(cols, crit, values, rows[i]), token) {
      RowsRecord(cols, crit, values, rows, exclude, coll, i, token);
    }
  }

  lemma LastRecords(cols: seq<Column>, criteria: Criteria, k: nat, rows: seq<Row>, exclude: set<string>, i: nat, token: string)
    requires Prepared(cols, criteria) && k < |criteria| && CollisionsUpTo(cols, criteria, k + 1, rows, exclude).Ok?
    requires i < |rows| && rows[i].name !in exclude
    ensures CollisionsUpTo(cols, criteria, k, rows, exclude).Ok?
    ensures MinOf(criteria[k].name) in cols ==>
              GivenRange(criteria[k].name, GetCriterion(criteria, criteria[k].name).value).Ok?
    ensures var tokens := Tokens(cols, criteria[k].name, GetCriterion(criteria, criteria[k].name).value, rows[i]);
            Recorded(CollisionsUpTo(cols, criteria, k, rows, exclude).value, (rows[i].name, rows[i].inst), token)
            || (tokens != "" && Contains(tokens, token)) ==>
              Recorded(CollisionsUpTo(cols, criteria, k + 1, rows, exclude).value, (rows[i].name, rows[i].inst), token)
  {
    var crit := criteria[k].name;
    CollisionsNext(cols, criteria, k, rows, exclude);
    var before := CollisionsUpTo(cols, criteria, k, rows, exclude).value;
    CollectRecords(cols, crit, GetCriterion(criteria, crit).value, rows, exclude, before, i, token);
  }

  /** Criterion number k was found valid, and what it recorded for row i is still there at the end. */
  lemma {:induction false} TokenSurvives(cols: seq<Column>, criteria: Criteria, k: nat, j: nat, rows: seq<Row>, exclude: set<string>,
                                         i: nat, token: string)
    requires Prepared(cols, criteria) && k < j <= |criteria|
    requires CollisionsUpTo(cols, criteria, j, rows, exclude).Ok?
    requires i < |rows| && rows[i].name !in exclude
    ensures MinOf(criteria[k].name) in cols ==>
              GivenRange(criteria[k].name, GetCriterion(criteria, criteria[k].name).value).Ok?
    ensures var tokens := Tokens(cols, criteria[k].name, GetCriterion(criteria, criteria[k].name).value, rows[i]);
            tokens != "" && Contains(tokens, token) ==>
              Recorded(CollisionsUpTo(cols, criteria, j, rows, exclude).value, (rows[i].name, rows[i].inst), token)
    decreases j
  {
    LastRecords(cols, criteria, j - 1, rows, exclude, i, token);
    if k < j - 1 {
      TokenSurvives(cols, criteria, k, j - 1, rows, exclude, i, token);
    }
  }

  // ----- numerals through upper, sanitize and long --------------------------------

  lemma NumeralIsClean(s: string, base: nat)
    requires IsNumeral(s, base) && base <= 16
    ensures SanitizeSQL(s) == s
  {
    SanitizeFixpoint(s);
    assert forall i | 0 <= i < |s| :: DigitOf(s[i]) < base ==> !IsSqlSpecial(s[i]);
  }

  lemma UpperParse(s: string, base: nat)
    requires base <= 16
    ensures Parse(Upper(s), base) == Parse(s, base)
  {
    UpperValue(s, base);
    if s != "" {
      UpperValue(s[1..], base);
      assert Upper(s)[1..] == Upper(s[1..]);
      assert IsSign(Upper(s)[0]) <==> IsSign(s[0]);
    }
  }

  lemma ParsedIsClean(s: string, base: nat)
    requires Parse(s, base).Some? && base <= 16
    ensures SanitizeSQL(s) == s
  {
    if IsNumeral(s, base) {
      NumeralIsClean(s, base);
    } else {
      NumeralIsClean(s[1..], base);
      assert s == [s[0]] + s[1..];
    }
  }

  lemma UpperHexOf(s: string)
    requires IsNumeral(s, 16)
    ensures IsUpperHex(Upper(s))
  {
    forall i | 0 <= i < |s|
      ensures DigitOf(Upper(s)[i]) < 16 && UpperChar(Upper(s)[i]) == Upper(s)[i]
    {
      assert DigitOf(s[i]) < 16;
    }
  }

  lemma ZeroValue(base: nat)
    requires base > 1
    ensures Parse("0", base) == Some(0)
  {
    assert "0"[..0] == "";
    assert Value("0", base) == Value("0"[..0], base) * base + 0;
  }

  lemma {:induction false} DecimalLeadingDigit(n: nat)
    requires n > 0
    ensures Decimal(n)[0] != '0'
    ensures n >= 10 ==> |Decimal(n)| >= 2
  {
    if n >= 10 {
      DecimalLeadingDigit(n / 10);
    }
  }

  lemma InfinityValues(crit: string)
    ensures Parse(Upper(Decimal(INFINITY)), BaseOf(crit)) == Parse(Decimal(INFINITY), BaseOf(crit)) == Some(InfinityOf(crit))
    ensures crit != "mac" ==> InfinityOf(crit) == INFINITY
    ensures crit == "mac" ==> InfinityOf(crit) > INFINITY
  {
    var n := INFINITY;
    DecimalValue(n);
    UpperParse(Decimal(n), BaseOf(crit));
    assert forall i | 0 <= i < |Decimal(n)| :: DigitOf(Decimal(n)[i]) < 10;
    DecimalLeadingDigit(n);
    ValueGrowsWithBase(Decimal(n), 10, 16);
  }

  lemma TwelveHexDigits(d: string)
    requires |d| == 12 && IsUpperHex(d)
    ensures Value(d, 16) < INFINITY < InfinityOf("mac")
  {
    ValueBound(d, 16);
    assert Pow(16, 4) == 65536;
    assert Pow(16, 8) == 65536 * 65536 by { assert Pow(16, 5) == 16 * Pow(16, 4); assert Pow(16, 6) == 16 * Pow(16, 5); }
    assert Pow(16, 12) == 65536 * 65536 * 65536 by { assert Pow(16, 9) == 16 * Pow(16, 8); assert Pow(16, 10) == 16 * Pow(16, 9); }
    InfinityValues("mac");
  }

  // ----- a shared client means a recorded collision ---------------------------------

  /** The bound the collision check works with is the one the stored cell will hold. */
  lemma BoundAgrees(crit: string, v: string, unbounded: string)
    requires PreparedBound(crit, v) && Parse(BoundText(v, unbounded), BaseOf(crit)).Some?
    ensures var cell := BoundCell(crit, v);
            var n := Parse(BoundText(v, unbounded), BaseOf(crit)).value;
            && WellTypedCell(MinOf(crit), cell)
            && (cell == Null <==> v == "unbounded")
            && (v == "unbounded" ==> Parse(unbounded, BaseOf(crit)) == Some(n))
            && (cell.Hex? ==> Value(cell.digits, 16) == n)
            && (cell.Number? ==> cell.n == n)
  {
    if v != "unbounded" {
      UpperParse(v, BaseOf(crit));
      UpperValue(v, BaseOf(crit));
      ParsedIsClean(v, BaseOf(crit));
      if crit == "mac" {
        UpperHexOf(v);
      }
    }
  }

  /** Both rows hold v, so no lower bound of one exceeds an upper bound of the other:
      the lexicographic matcher and the numeric checker see the same intervals. */
  lemma MacBounds(r: Row, s: Row, v: string)
    requires WellTypedCell(MinOf("mac"), r.Get(MinOf("mac"))) && WellTypedCell(MaxOf("mac"), s.Get(MaxOf("mac")))
    requires InRange(r, "mac", v) && InRange(s, "mac", v)
    ensures r.Get(MinOf("mac")).Hex? ==> Value(r.Get(MinOf("mac")).digits, 16) <= InfinityOf("mac")
    ensures r.Get(MinOf("mac")).Hex? && s.Get(MaxOf("mac")).Hex? ==>
              Value(r.Get(MinOf("mac")).digits, 16) <= Value(s.Get(MaxOf("mac")).digits, 16)
  {
    var lo, hi := r.Get(MinOf("mac")), s.Get(MaxOf("mac"));
    if lo.Hex? {
      TwelveHexDigits(lo.digits);
      if hi.Hex? {
        LexTransitive(lo.digits, Upper(v), hi.digits);
        HexOrder(lo.digits, hi.digits);
      }
    }
  }

  lemma SharedRangeOverlaps(crit: string, values: seq<string>, row: Row, stored: Row, v: string)
    requires |values| == 2 && PreparedBound(crit, values[0]) && PreparedBound(crit, values[1])
    requires GivenRange(crit, values).Ok?
    requires stored.Get(MinOf(crit)) == BoundCell(crit, values[0]) && stored.Get(MaxOf(crit)) == BoundCell(crit, values[1])
    requires WellTypedCell(MinOf(crit), row.Get(MinOf(crit))) && WellTypedCell(MaxOf(crit), row.Get(MaxOf(crit)))
    requires InRange(row, crit, v) && InRange(stored, crit, v)
    requires crit != "mac" ==> 0 <= IntegerOf(v) <= INFINITY
    ensures Overlap(GivenRange(crit, values).value, StoredRange(crit, row))
  {
    var man, db := GivenRange(crit, values).value, StoredRange(crit, row);
    BoundAgrees(crit, values[0], "0");
    BoundAgrees(crit, values[1], Decimal(INFINITY));
    ZeroValue(BaseOf(crit));
    InfinityValues(crit);
    if crit == "mac" {
      MacBounds(stored, row, v);
      MacBounds(row, stored, v);
    }
  }

  lemma {:induction false} ValueTokensRecorded(crit: string, values: seq<string>, text: string, i: nat)
    requires i < |values| && IsInList(crit, values[i], text)
    ensures ValueTokens(crit, values, text) != ""
  {
    var n := |values| - 1;
    if i < n {
      ValueTokensRecorded(crit, values[..n], text, i);
    }
  }

  /** The client's value is in both stored texts, so some given value is in the other row's list. */
  lemma SharedValueOverlaps(crit: string, values: seq<string>, text: string, v: string)
    requires WordsKept(crit, values)
    requires IsInList(crit, v, text) && IsInList(crit, v, StoredText(values))
    ensures exists i :: 0 <= i < |values| && IsInList(crit, values[i], text)
    ensures text != ""
  {
    var words := Split(StoredText(values));
    var i :| 0 <= i < |words| && SameValue(crit, v, words[i]);
    var j :| 0 <= j < |Split(text)| && SameValue(crit, v, Split(text)[j]);
    assert words[i] in words && GivenAs(crit, values, words[i]);
    var given :| given in values && SameValue(crit, given, words[i]);
    assert SameValue(crit, given, Split(text)[j]);
    assert IsInList(crit, given, text);
  }

  lemma {:induction false} JoinClean(values: seq<string>)
    requires forall v | v in values :: SanitizeSQL(v) == v
    ensures SanitizeSQL(Join(values)) == Join(values)
  {
    SanitizeFixpoint(Join(values));
    if |values| > 0 {
      SanitizeFixpoint(values[0]);
      if |values| > 1 {
        JoinClean(values[1..]);
        SanitizeFixpoint(Join(values[1..]));
      }
    }
  }

  /** Values without special characters are kept. */
  lemma CleanWordsAreKept(crit: string, values: seq<string>)
    requires forall v | v in values :: IsWord(v) && SanitizeSQL(v) == v
    ensures WordsKept(crit, values)
  {
    JoinClean(values);
    SplitJoin(values);
    forall w | w in values
      ensures GivenAs(crit, values, w)
    {
      assert SameValue(crit, w, w);
    }
  }

  lemma BothBounds(cols: seq<Column>, criteria: Criteria, crit: string)
    requires Prepared(cols, criteria) && MinOf(crit) in cols && GetCriterion(criteria, crit).Some?
    ensures |GetCriterion(criteria, crit).value| == 2
  {
    var j :| 0 <= j < |criteria| && criteria[j] == Criterion(crit, GetCriterion(criteria, crit).value);
  }

  predicate RangeChecked(cols: seq<Column>, criteria: Criteria, k: nat)
    requires k < |criteria| && Prepared(cols, criteria)
  {
    MinOf(criteria[k].name) in cols ==> GivenRange(criteria[k].name, GetCriterion(criteria, criteria[k].name).value).Ok?
  }

  lemma StoredIsWellTyped(cols: seq<Column>, criteria: Criteria, row: Row)
    requires ValidSchema(cols) && Prepared(cols, criteria) && row.cells == StoredCells(cols, criteria)
    requires forall k | 0 <= k < |criteria| :: RangeChecked(cols, criteria, k)
    ensures WellTyped(cols, row)
  {
    forall col: Column | col in cols
      ensures WellTypedCell(col, row.Get(col))
    {
      var values := GetCriterion(criteria, col.crit);
      if values.Some? && !col.ValueOf? {
        var k :| 0 <= k < |criteria| && criteria[k] == Criterion(col.crit, values.value);
        assert RangeChecked(cols, criteria, k);
        BoundAgrees(col.crit, values.value[0], "0");
        BoundAgrees(col.crit, values.value[1], Decimal(INFINITY));
      }
    }
  }

  // ----- which ranges are refused ------------------------------------------------------

  /** A word that long() raises ValueError for. */
  predicate Unreadable(crit: string, v: string) {
    v != "unbounded" && Parse(v, BaseOf(crit)).None?
  }

  predicate OpenBelow(crit: string, v: string) {
    v == "unbounded" || Parse(v, BaseOf(crit)) == Some(0)
  }

  /** For "mac" unbounded is read in base 16, and so is no open end. */
  predicate OpenAbove(crit: string, v: string) {
    if v == "unbounded" then crit != "mac" else Parse(v, BaseOf(crit)) == Some(INFINITY)
  }

  /** Two numbers in the wrong order, neither of them an open end. */
  predicate Reversed(crit: string, a: string, b: string) {
    && Parse(a, BaseOf(crit)).Some? && Parse(b, BaseOf(crit)).Some?
    && !OpenBelow(crit, a) && !OpenAbove(crit, b)
    && Parse(a, BaseOf(crit)).value > Parse(b, BaseOf(crit)).value
  }

  lemma UnboundedIsNoNumber(base: nat)
    requires base <= 16
    ensures Parse("unbounded", base).None?
  {
    assert DigitOf("unbounded"[0]) == 99;
  }

  lemma LowerIsRead(crit: string, v: string)
    ensures Parse(BoundText(v, "0"), BaseOf(crit)) == if v == "unbounded" then Some(0) else Parse(v, BaseOf(crit))
  {
    ZeroValue(BaseOf(crit));
    UpperParse(v, BaseOf(crit));
  }

  lemma UpperIsRead(crit: string, v: string)
    ensures Parse(BoundText(v, Decimal(INFINITY)), BaseOf(crit)) ==
            if v == "unbounded" then Some(InfinityOf(crit)) else Parse(v, BaseOf(crit))
  {
    InfinityValues(crit);
    UpperParse(v, BaseOf(crit));
  }

  lemma InfinityIs(crit: string)
    ensures if crit == "mac" then InfinityOf(crit) > INFINITY else InfinityOf(crit) == INFINITY
  {
    InfinityValues(crit);
  }

  lemma MacIsBelowInfinity(v: string)
    requires |v| == 12 && IsNumeral(v, 16)
    ensures Parse(v, 16).Some? && Parse(v, 16).value < InfinityOf("mac")
  {
    UpperValue(v, 16);
    UpperHexOf(v);
    TwelveHexDigits(Upper(v));
  }

  /** A range is refused for an unreadable bound, for two open ends, and for reversed bounds, with the
      failure of its own in each case; any other is accepted. */
  lemma RangeCheckedExactly(cols: seq<Column>, crit: string, a: string, b: string)
    requires MinOf(crit) in cols && PreparedBound(crit, a) && PreparedBound(crit, b)
    ensures CheckCriterion(cols, crit, [a, b]) ==
            if Unreadable(crit, a) || Unreadable(crit, b) then Err(if crit == "mac" then NotHexadecimal(crit) else NotInteger(crit))
            else if OpenBelow(crit, a) && OpenAbove(crit, b) then Err(Unbounded(crit))
            else if Reversed(crit, a, b) then Err(MinAboveMax(crit))
            else Ok(())
  {
    LowerIsRead(crit, a);
    UpperIsRead(crit, b);
    UnboundedIsNoNumber(BaseOf(crit));
    InfinityIs(crit);
    if crit == "mac" && a != "unbounded" {
      MacIsBelowInfinity(a);
    }
  }

  predicate GivenInOrder(crit: string, values: seq<string>) {
    && |values| == 2 && !Unreadable(crit, values[0]) && !Unreadable(crit, values[1])
    && !(OpenBelow(crit, values[0]) && OpenAbove(crit, values[1])) && !Reversed(crit, values[0], values[1])
  }

  /** No range criterion has unreadable bounds, two open ends, or reversed bounds. */
  ghost predicate RangesInOrder(cols: seq<Column>, criteria: Criteria) {
    forall c: string | MinOf(c) in cols && GetCriterion(criteria, c).Some? :: GivenInOrder(c, GetCriterion(criteria, c).value)
  }

  lemma RangeIsInOrder(cols: seq<Column>, crit: string, values: seq<string>)
    requires MinOf(crit) in cols && |values| == 2 && PreparedBound(crit, values[0]) && PreparedBound(crit, values[1])
    ensures GivenRange(crit, values).Ok? <==> GivenInOrder(crit, values)
  {
    RangeCheckedExactly(cols, crit, values[0], values[1]);
    assert [values[0], values[1]] == values;
  }

  lemma CheckedIsInOrder(cols: seq<Column>, criteria: Criteria)
    requires Prepared(cols, criteria) && forall k | 0 <= k < |criteria| :: RangeChecked(cols, criteria, k)
    ensures RangesInOrder(cols, criteria)
  {
    forall c: string | MinOf(c) in cols && GetCriterion(criteria, c).Some?
      ensures GivenInOrder(c, GetCriterion(criteria, c).value)
    {
      var values := GetCriterion(criteria, c).value;
      var k :| 0 <= k < |criteria| && criteria[k] == Criterion(c, values);
      assert RangeChecked(cols, criteria, k);
      RangeIsInOrder(cols, c, values);
    }
  }

  /** The stored bounds of a criterion are in order, unless the lower is 0 or the upper the number that
      stands for "no upper bound". */
  predicate BoundsInOrder(row: Row, c: string) {
    var lo, hi := row.Get(MinOf(c)), row.Get(MaxOf(c));
    && (lo.Number? && hi.Number? && lo.n != 0 && hi.n != INFINITY ==> lo.n <= hi.n)
    && (lo.Hex? && hi.Hex? ==> Value(lo.digits, 16) <= Value(hi.digits, 16))
  }

  ghost predicate InOrder(row: Row) {
    forall c: string :: BoundsInOrder(row, c)
  }

  lemma BoundIsStored(crit: string, v: string)
    requires PreparedBound(crit, v) && !Unreadable(crit, v) && v != "unbounded"
    ensures var cell := BoundCell(crit, v);
            if crit == "mac" then cell.Hex? && |cell.digits| == 12 && IsUpperHex(cell.digits) && Parse(v, 16) == Some(Value(cell.digits, 16))
            else cell.Number? && Parse(v, 10) == Some(cell.n)
  {
    UpperParse(v, BaseOf(crit));
    BoundAgrees(crit, v, "0");
  }

  lemma StoredIsInOrder(cols: seq<Column>, criteria: Criteria, row: Row)
    requires ValidSchema(cols) && Prepared(cols, criteria) && row.cells == StoredCells(cols, criteria)
    requires forall k | 0 <= k < |criteria| :: RangeChecked(cols, criteria, k)
    ensures InOrder(row)
  {
    CheckedIsInOrder(cols, criteria);
    forall c: string
      ensures BoundsInOrder(row, c)
    {
      if MinOf(c) in cols && GetCriterion(criteria, c).Some? {
        var values := GetCriterion(criteria, c).value;
        var k :| 0 <= k < |criteria| && criteria[k] == Criterion(c, values);
        assert GivenInOrder(c, values);
        if values[0] != "unbounded" && values[1] != "unbounded" {
          BoundIsStored(c, values[0]);
          BoundIsStored(c, values[1]);
          if c == "mac" {
            TwelveHexDigits(BoundCell(c, values[1]).digits);
          }
        }
      }
    }
  }

  // ----- the walk cannot stop --------------------------------------------------------

  ghost predicate NoStop(cols: seq<Column>, criteria: Criteria, row: Row, collided: string) {
    forall col | col in cols :: WalkStep(criteria, row, collided, col) != Stop
  }

  /** The walk from column i on does not end with a criterion that differs. */
  predicate GoesThrough(cols: seq<Column>, criteria: Criteria, row: Row, collided: string, i: nat)
    requires i <= |cols|
  {
    !Walk(cols, criteria, row, collided, i).Diverges?
  }

  lemma WalkGoesOn(cols: seq<Column>, criteria: Criteria, row: Row, collided: string, i: nat)
    requires i < |cols| && NoStop(cols, criteria, row, collided)
    ensures GoesThrough(cols, criteria, row, collided, i + 1) ==> GoesThrough(cols, criteria, row, collided, i)
  {
    WalkNext(cols, criteria, row, collided, i);
    assert cols[i] in cols;
  }

  lemma {:induction false} WalkNeverDiverges(cols: seq<Column>, criteria: Criteria, row: Row, collided: string, i: nat)
    requires i <= |cols| && NoStop(cols, criteria, row, collided)
    ensures GoesThrough(cols, criteria, row, collided, i)
    decreases |cols| - i
  {
    if i < |cols| {
      WalkGoesOn(cols, criteria, row, collided, i);
      WalkNeverDiverges(cols, criteria, row, collided, i + 1);
    }
  }

  /** The situation the theorem refutes. */
  ghost predicate Shared(cols: seq<Column>, criteria: Criteria, row: Row, stored: Row, client: Client) {
    && ValidSchema(cols) && Prepared(cols, criteria)
    && WellTyped(cols, row) && stored.cells == StoredCells(cols, criteria)
    && SameConstraints(row, stored)
    && WithinInfinity(cols, client)
    && Matches(cols, row, client) && Matches(cols, stored, client)
  }

  lemma StoredGet(cols: seq<Column>, criteria: Criteria, stored: Row, col: Column)
    requires stored.cells == StoredCells(cols, criteria)
    ensures stored.Get(col) == if col in cols then StoredCell(criteria, col) else Null
  {}

  /** A value criterion that is given keeps its words. */
  predicate KeptAt(cols: seq<Column>, criteria: Criteria, c: string) {
    ValueOf(c) in cols && GetCriterion(criteria, c).Some? ==> WordsKept(c, GetCriterion(criteria, c).value)
  }

  /** A constrained criterion is given, and its tokens for the row are not empty. */
  lemma SharedTokens(cols: seq<Column>, criteria: Criteria, row: Row, stored: Row, client: Client, c: string)
    requires Shared(cols, criteria, row, stored, client) && stored.Constrains(c) && KeptAt(cols, criteria, c)
    requires MinOf(c) in cols && GetCriterion(criteria, c).Some? ==> GivenRange(c, GetCriterion(criteria, c).value).Ok?
    ensures GetCriterion(criteria, c).Some?
    ensures var values := GetCriterion(criteria, c).value;
            if MinOf(c) in cols then Tokens(cols, c, values, row) == RangeTokens(c)
            else && row.Get(ValueOf(c)).Word? && row.Get(ValueOf(c)).text != ""
                 && (exists i :: 0 <= i < |values| && IsInList(c, values[i], row.Get(ValueOf(c)).text))
                 && Tokens(cols, c, values, row) != ""
  {
    StoredGet(cols, criteria, stored, MinOf(c));
    StoredGet(cols, criteria, stored, MaxOf(c));
    StoredGet(cols, criteria, stored, ValueOf(c));
    var values := GetCriterion(criteria, c).value;
    var k :| 0 <= k < |criteria| && criteria[k] == Criterion(c, values);
    assert Satisfies(cols, row, client, c) && Satisfies(cols, stored, client, c) && row.Constrains(c);
    var v := SanitizeSQL(client[c]);
    if MinOf(c) in cols {
      assert WellTypedCell(MinOf(c), row.Get(MinOf(c))) && WellTypedCell(MaxOf(c), row.Get(MaxOf(c)));
      assert row.Get(ValueOf(c)) == Null by { assert ValueOf(c) !in cols; }
      SharedRangeOverlaps(c, values, row, stored, v);
    } else {
      SharedValueOverlaps(c, values, row.Get(ValueOf(c)).text, v);
      var i :| 0 <= i < |values| && IsInList(c, values[i], row.Get(ValueOf(c)).text);
      ValueTokensRecorded(c, values, row.Get(ValueOf(c)).text, i);
    }
  }

  lemma RangeTokensContain(c: string)
    ensures Contains(RangeTokens(c), MinOf(c).Name() + ",") && Contains(RangeTokens(c), MaxOf(c).Name() + ",")
  {
    var lo, hi := "MIN" + c + ",", "MAX" + c + ",";
    assert lo == MinOf(c).Name() + "," && hi == MaxOf(c).Name() + ",";
    assert RangeTokens(c) == lo + hi;
    assert OccursAt(lo, lo, 0) && OccursAt(hi, hi, 0);
    ContainsPrefix(lo, hi, lo);
    ContainsSuffix(lo, hi, hi);
  }

  lemma ValueStep(criteria: Criteria, row: Row, collided: string, c: string)
    requires GetCriterion(criteria, c).Some? && row.Get(ValueOf(c)).Word? && row.Get(ValueOf(c)).text != ""
    requires var values := GetCriterion(criteria, c).value;
             exists i :: 0 <= i < |values| && IsInList(c, values[i], row.Get(ValueOf(c)).text)
    ensures WalkStep(criteria, row, collided, ValueOf(c)) == Next
  {
    var values := GetCriterion(criteria, c).value;
    assert GivenFor(criteria, ValueOf(c)) == Values(values);
    assert AnyInList(c, Values(values), row.Get(ValueOf(c)).text);
  }

  lemma RecordedBoundStep(criteria: Criteria, row: Row, collided: string, col: Column)
    requires !col.ValueOf? && Contains(collided, col.Name() + ",")
    ensures WalkStep(criteria, row, collided, col) != Stop
  {}

  lemma AbsentStep(criteria: Criteria, row: Row, collided: string, col: Column)
    requires row.Get(col) == Null && GivenFor(criteria, col) == Absent
    ensures WalkStep(criteria, row, collided, col) != Stop
  {}

  /** A column that stays NULL in the stored row was not given, or given as "unbounded". */
  lemma NullIsAbsent(cols: seq<Column>, criteria: Criteria, col: Column)
    requires ValidSchema(cols) && Prepared(cols, criteria) && col in cols && StoredCell(criteria, col) == Null
    ensures GivenFor(criteria, col) == Absent
  {
    if GetCriterion(criteria, col.crit).Some? {
      var values := GetCriterion(criteria, col.crit).value;
      var k :| 0 <= k < |criteria| && criteria[k] == Criterion(col.crit, values);
      assert MinOf(col.crit) in cols && |values| == 2;
    }
  }

  lemma SharedStepGoesOn(cols: seq<Column>, criteria: Criteria, row: Row, stored: Row, client: Client, collided: string, col: Column)
    requires Shared(cols, criteria, row, stored, client) && col in cols && KeptAt(cols, criteria, col.crit)
    requires MinOf(col.crit) in cols && GetCriterion(criteria, col.crit).Some? ==>
               GivenRange(col.crit, GetCriterion(criteria, col.crit).value).Ok?
    requires MinOf(col.crit) in cols && stored.Constrains(col.crit) ==>
               Contains(collided, MinOf(col.crit).Name() + ",") && Contains(collided, MaxOf(col.crit).Name() + ",")
    ensures WalkStep(criteria, row, collided, col) != Stop
  {
    var c := col.crit;
    StoredGet(cols, criteria, stored, col);
    if !stored.Constrains(c) {
      assert row.Get(col) == Null by { assert !row.Constrains(c); }
      NullIsAbsent(cols, criteria, col);
      AbsentStep(criteria, row, collided, col);
    } else if !col.ValueOf? {
      RecordedBoundStep(criteria, row, collided, col);
    } else {
      assert MinOf(c) !in cols;
      SharedTokens(cols, criteria, row, stored, client, c);
      ValueStep(criteria, row, collided, c);
    }
  }

  lemma GivenRangesAreValid(cols: seq<Column>, criteria: Criteria, rows: seq<Row>, exclude: set<string>, i: nat, c: string)
    requires Prepared(cols, criteria) && Admitted(cols, criteria, rows, exclude)
    requires i < |rows| && rows[i].name !in exclude
    ensures MinOf(c) in cols && GetCriterion(criteria, c).Some? ==> GivenRange(c, GetCriterion(criteria, c).value).Ok?
  {
    if GetCriterion(criteria, c).Some? {
      var k :| 0 <= k < |criteria| && criteria[k] == Criterion(c, GetCriterion(criteria, c).value);
      TokenSurvives(cols, criteria, k, |criteria|, rows, exclude, i, "");
    }
  }

  lemma ConstrainedIsRecorded(cols: seq<Column>, criteria: Criteria, rows: seq<Row>, exclude: set<string>, i: nat,
                              stored: Row, client: Client, c: string)
    requires Prepared(cols, criteria) && Admitted(cols, criteria, rows, exclude)
    requires i < |rows| && rows[i].name !in exclude
    requires Shared(cols, criteria, rows[i], stored, client) && stored.Constrains(c) && KeptAt(cols, criteria, c)
    ensures var coll, key := CollisionsUpTo(cols, criteria, |criteria|, rows, exclude).value, (rows[i].name, rows[i].inst);
            && key in coll
            && (MinOf(c) in cols ==> Recorded(coll, key, MinOf(c).Name() + ",") && Recorded(coll, key, MaxOf(c).Name() + ","))
  {
    GivenRangesAreValid(cols, criteria, rows, exclude, i, c);
    SharedTokens(cols, criteria, rows[i], stored, client, c);
    var values := GetCriterion(criteria, c).value;
    var k :| 0 <= k < |criteria| && criteria[k] == Criterion(c, values);
    var tokens := Tokens(cols, c, values, rows[i]);
    assert Contains(tokens, "") by { assert OccursAt(tokens, "", 0); }
    TokenSurvives(cols, criteria, k, |criteria|, rows, exclude, i, "");
    if MinOf(c) in cols {
      RangeTokensContain(c);
      TokenSurvives(cols, criteria, k, |criteria|, rows, exclude, i, MinOf(c).Name() + ",");
      TokenSurvives(cols, criteria, k, |criteria|, rows, exclude, i, MaxOf(c).Name() + ",");
    }
  }

  /** Admission is sound: no client within the numeric bound suits both an admitted row and a
      stored row with the same constrained criteria. */
  lemma AdmittedRowIsUnambiguous(cols: seq<Column>, criteria: Criteria, rows: seq<Row>, exclude: set<string>, i: nat,
                                 stored: Row, client: Client)
    requires ValidSchema(cols) && WellTypedTable(cols, rows) && UniqueKeys(rows)
    requires Prepared(cols, criteria) && Kept(cols, criteria) && Admitted(cols, criteria, rows, exclude)
    requires i < |rows| && rows[i].name !in exclude && stored.cells == StoredCells(cols, criteria)
    requires SameConstraints(rows[i], stored) && WithinInfinity(cols, client)
    ensures !(Matches(cols, rows[i], client) && Matches(cols, stored, client))
  {
    if Matches(cols, rows[i], client) && Matches(cols, stored, client) {
      var row, key := rows[i], (rows[i].name, rows[i].inst);
      assert Shared(cols, criteria, row, stored, client);
      var coll := CollisionsUpTo(cols, criteria, |criteria|, rows, exclude).value;
      forall c: string | stored.Constrains(c)
        ensures key in coll
        ensures MinOf(c) in cols ==> Recorded(coll, key, MinOf(c).Name() + ",") && Recorded(coll, key, MaxOf(c).Name() + ",")
      {
        ConstrainedIsRecorded(cols, criteria, rows, exclude, i, stored, client, c);
      }
      var c: string :| stored.Constrains(c);
      assert key in coll;
      forall col | col in cols
        ensures WalkStep(criteria, row, coll[key], col) != Stop
      {
        GivenRangesAreValid(cols, criteria, rows, exclude, i, col.crit);
        SharedStepGoesOn(cols, criteria, row, stored, client, coll[key], col);
      }
      WalkNeverDiverges(cols, criteria, row, coll[key], 0);
      RowForIsTheRow(rows, i);
      assert false;
    }
  }

  // ----- exactness of the parts -------------------------------------------------------

  predicate Holds(r: Range, v: int) {
    r.lo <= v <= r.hi
  }

  /** On ordered ranges the overlap test says that some number is in both, and its third
      disjunct adds nothing. */
  lemma OverlapIsSharingANumber(man: Range, db: Range)
    requires man.lo <= man.hi && db.lo <= db.hi
    ensures Overlap(man, db) <==> exists v :: Holds(man, v) && Holds(db, v)
    ensures Overlap(man, db) <==> man.hi >= db.lo && db.hi >= man.lo
  {
    if Overlap(man, db) {
      var v := if man.lo < db.lo then db.lo else man.lo;
      assert Holds(man, v) && Holds(db, v);
    }
  }

  /** Refusing a range with no bound at all works for every criterion but "mac", whose infinity
      is read in base 16 and so is not the number it is compared with. */
  lemma UnboundedRangeIsRefused(crit: string)
    ensures GivenRange(crit, ["unbounded", "unbounded"]).Err? <==> crit != "mac"
  {
    ZeroValue(BaseOf(crit));
    InfinityValues(crit);
  }

  lemma LowerOfInteger(t: string)
    requires Parse(t, 10).Some?
    ensures Lower(t) == t
  {
    assert forall i | 1 <= i < |t| :: t[i] == t[1..][i - 1];
    assert forall i | 0 <= i < |t| :: DigitOf(t[i]) < 10 || IsSign(t[i]) ==> LowerChar(t[i]) == t[i];
  }

  /** A recorded decimal bound lets the walk go on exactly when the given text is the number's
      own decimal text; the same number with a leading zero or a plus sign is refused. */
  lemma RecordedDecimalStep(criteria: Criteria, row: Row, collided: string, col: Column, n: int, t: string)
    requires !col.ValueOf? && row.Get(col) == Number(n) && GivenFor(criteria, col) == Token(t)
    requires Parse(t, 10).Some? && Contains(collided, col.Name() + ",")
    ensures WalkStep(criteria, row, collided, col) == (if t == DecimalText(n) then Next else Raise)
  {
    LowerOfInteger(t);
    DecimalTextValue(n);
    LowerOfInteger(DecimalText(n));
  }

  lemma {:induction false} NothingRecorded(cols: seq<Column>, crit: string, values: seq<string>, rows: seq<Row>, exclude: set<string>)
    requires forall r | r in rows && r.name !in exclude :: Tokens(cols, crit, values, r) == ""
    ensures RecordRows(cols, crit, values, rows, exclude, map[]) == map[]
  {
    if rows != [] {
      NothingRecorded(cols, crit, values, rows[..|rows| - 1], exclude);
      assert rows[|rows| - 1] in rows;
    }
  }

  /** The criterion is valid and meets none of the rows. */
  predicate MeetsNoRow(cols: seq<Column>, crit: string, values: seq<string>, rows: seq<Row>, exclude: set<string>)
    requires MinOf(crit) in cols ==> |values| == 2
  {
    && CheckCriterion(cols, crit, values).Ok?
    && forall r | r in rows && r.name !in exclude :: Tokens(cols, crit, values, r) == ""
  }

  ghost predicate MeetNoRow(cols: seq<Column>, criteria: Criteria, rows: seq<Row>, exclude: set<string>)
    requires Prepared(cols, criteria)
  {
    forall k | 0 <= k < |criteria| ::
      MeetsNoRow(cols, criteria[k].name, GetCriterion(criteria, criteria[k].name).value, rows, exclude)
  }

  lemma CollectsNothing(cols: seq<Column>, crit: string, values: seq<string>, rows: seq<Row>, exclude: set<string>)
    requires (MinOf(crit) in cols ==> |values| == 2) && MeetsNoRow(cols, crit, values, rows, exclude)
    ensures Collect(cols, crit, values, rows, exclude, map[]) == Ok(map[])
  {
    NothingRecorded(cols, crit, values, rows, exclude);
  }

  lemma DisjointStep(cols: seq<Column>, criteria: Criteria, rows: seq<Row>, exclude: set<string>, j: nat)
    requires Prepared(cols, criteria) && j < |criteria| && MeetNoRow(cols, criteria, rows, exclude)
    requires CollisionsUpTo(cols, criteria, j, rows, exclude) == Ok(map[])
    ensures CollisionsUpTo(cols, criteria, j + 1, rows, exclude) == Ok(map[])
  {
    var crit := criteria[j].name;
    CollisionsNext(cols, criteria, j, rows, exclude);
    CollectsNothing(cols, crit, GetCriterion(criteria, crit).value, rows, exclude);
  }

  lemma {:induction false} DisjointRecordsNothing(cols: seq<Column>, criteria: Criteria, rows: seq<Row>, exclude: set<string>, j: nat)
    requires Prepared(cols, criteria) && j <= |criteria| && MeetNoRow(cols, criteria, rows, exclude)
    ensures CollisionsUpTo(cols, criteria, j, rows, exclude) == Ok(map[])
  {
    if j > 0 {
      DisjointRecordsNothing(cols, criteria, rows, exclude, j - 1);
      DisjointStep(cols, criteria, rows, exclude, j - 1);
    }
  }

  lemma OneRow(cols: seq<Column>, crit: string, values: seq<string>, row: Row, coll: Collisions)
    ensures RecordRows(cols, crit, values, [row], {}, coll) ==
            AddToken(coll, (row.name, row.inst), Tokens(cols, crit, values, row))
  {
    assert [row][..0] == [];
  }

  /** Criteria that are valid and meet no stored row are admitted. */
  lemma DisjointIsAdmitted(cols: seq<Column>, criteria: Criteria, rows: seq<Row>, exclude: set<string>)
    requires Prepared(cols, criteria) && MeetNoRow(cols, criteria, rows, exclude)
    ensures Admitted(cols, criteria, rows, exclude)
  {
    DisjointRecordsNothing(cols, criteria, rows, exclude, |criteria|);
  }

  // ----- where the guarantee ends: lost words ----------------------------------------------

  lemma DecimalIsWord(n: nat)
    ensures IsWord(Decimal(n))
  {
    assert forall i | 0 <= i < |Decimal(n)| :: DigitOf(Decimal(n)[i]) < 10 ==> !IsSpace(Decimal(n)[i]);
  }

  predicate NoSpecials(s: string) {
    forall i | 0 <= i < |s| :: !IsSqlSpecial(s[i])
  }

  lemma {:induction false} SanitizedHasNoSpecials(s: string)
    ensures NoSpecials(SanitizeSQL(s))
  {
    if s != "" {
      SanitizedHasNoSpecials(s[1..]);
    }
  }

  lemma SanitizeIdempotent(s: string)
    ensures SanitizeSQL(SanitizeSQL(s)) == SanitizeSQL(s)
  {
    SanitizedHasNoSpecials(s);
    SanitizeFixpoint(SanitizeSQL(s));
  }

  /** The words of a text without special characters are words without special characters. */
  lemma {:induction false} SplitWords(s: string)
    ensures forall w | w in Split(s) :: IsWord(w) && (NoSpecials(s) ==> NoSpecials(w))
    decreases |s|
  {
    if s == "" {
    } else if IsSpace(s[0]) {
      SplitWords(s[1..]);
    } else {
      var n := WordLength(s);
      SplitWords(s[n..]);
      assert IsWord(s[..n]);
    }
  }

  lemma OneWordList(crit: string, v: string, w: string)
    requires IsWord(w)
    ensures Split(w) == [w] && (IsInList(crit, v, w) <==> SameValue(crit, v, w))
  {
    SplitJoin([w]);
    assert Split(w)[0] == w;
  }

  lemma {:induction false} NoTokens(crit: string, values: seq<string>, w: string)
    requires IsWord(w) && !GivenAs(crit, values, w)
    ensures ValueTokens(crit, values, w) == ""
  {
    if values != [] {
      var n := |values| - 1;
      assert values[n] in values;
      assert forall v | v in values[..n] :: v in values;
      NoTokens(crit, values[..n], w);
      OneWordList(crit, values[n], w);
    }
  }

  /** One value criterion given, and a row that holds one word for it. */
  function OnlyGiven(crit: string, values: seq<string>): Criteria {
    [Criterion(crit, values)]
  }

  function WordRow(crit: string, w: string): Row {
    Row("a", 0, map[ValueOf(crit) := Word(w)])
  }

  lemma ZoneNameIsLower()
    ensures Lower("zonename") == "zonename"
  {
    var name := "zonename";
    assert forall i | 0 <= i < |name| :: LowerChar(name[i]) == name[i];
  }

  lemma OneWordMatches(cols: seq<Column>, crit: string, w: string, v: string)
    requires ValidSchema(cols) && ValueOf(crit) in cols && SanitizeSQL(v) == v
    ensures Matches(cols, WordRow(crit, w), map[crit := v]) <==> IsInList(crit, v, w)
  {
    var row, client := WordRow(crit, w), map[crit := v];
    assert MinOf(crit) !in cols && row.Constrains(crit) && client[crit] == v;
    assert Satisfies(cols, row, client, crit) <==> IsInList(crit, v, w);
    forall c: string | c != crit
      ensures Satisfies(cols, row, client, c)
    {
      assert !row.Constrains(c);
    }
  }

  /** A row with one word for a criterion suits the clients of that value: to the letter for zonename,
      in any case for the others. */
  lemma OneWordSuits(cols: seq<Column>, crit: string, w: string, v: string)
    requires ValidSchema(cols) && ValueOf(crit) in cols && IsWord(w) && SanitizeSQL(v) == v
    ensures crit == "zonename" ==> (Matches(cols, WordRow(crit, w), map[crit := v]) <==> v == w)
    ensures Lower(crit) != "zonename" ==> (Matches(cols, WordRow(crit, w), map[crit := v]) <==> Lower(v) == Lower(w))
  {
    ZoneNameIsLower();
    OneWordMatches(cols, crit, w, v);
    OneWordList(crit, v, w);
  }

  function StoredRow(cols: seq<Column>, criteria: Criteria): Row {
    Row("b", 0, StoredCells(cols, criteria))
  }

  /** An ambiguity the checks let through: both rows constrain the same criteria and suit the client. */
  ghost predicate Clash(cols: seq<Column>, criteria: Criteria, row: Row, client: Client) {
    && Prepared(cols, criteria) && WellTyped(cols, row) && Admitted(cols, criteria, [row], {})
    && SameConstraints(row, StoredRow(cols, criteria))
    && Matches(cols, row, client) && Matches(cols, StoredRow(cols, criteria), client)
  }

  ghost predicate Misses(cols: seq<Column>, criteria: Criteria, row: Row, client: Client) {
    Clash(cols, criteria, row, client) && WithinInfinity(cols, client)
  }

  ghost predicate HoldsOnly(row: Row, crit: string, text: string) {
    && row.Get(ValueOf(crit)) == Word(text)
    && forall col: Column | col != ValueOf(crit) :: row.Get(col) == Null
  }

  lemma HoldsOnlyMatches(cols: seq<Column>, row: Row, crit: string, text: string, client: Client)
    requires ValidSchema(cols) && ValueOf(crit) in cols && HoldsOnly(row, crit, text)
    requires crit in client && IsInList(crit, SanitizeSQL(client[crit]), text)
    ensures forall c: string :: row.Constrains(c) <==> c == crit
    ensures Matches(cols, row, client) && WellTyped(cols, row)
  {
    assert row.Constrains(crit);
    assert MinOf(crit) !in cols;
  }

  lemma WordIsAdmitted(cols: seq<Column>, crit: string, values: seq<string>, row: Row, w: string)
    requires ValidSchema(cols) && ValueOf(crit) in cols && (forall v | v in values :: IsWord(v))
    requires HoldsOnly(row, crit, w) && IsWord(w) && !GivenAs(crit, values, w)
    ensures Prepared(cols, OnlyGiven(crit, values)) && Admitted(cols, OnlyGiven(crit, values), [row], {})
  {
    assert MinOf(crit) !in cols;
    NoTokens(crit, values, w);
    assert GetCriterion(OnlyGiven(crit, values), crit) == Some(values);
    assert Tokens(cols, crit, values, row) == "";
    DisjointIsAdmitted(cols, OnlyGiven(crit, values), [row], {});
  }

  lemma StoredHoldsOnly(cols: seq<Column>, crit: string, values: seq<string>)
    requires ValidSchema(cols) && ValueOf(crit) in cols
    ensures HoldsOnly(StoredRow(cols, OnlyGiven(crit, values)), crit, StoredText(values))
  {
    var criteria := OnlyGiven(crit, values);
    assert GetCriterion(criteria, crit) == Some(values);
    assert MinOf(crit) !in cols && MaxOf(crit) !in cols;
    forall col: Column
      ensures StoredRow(cols, criteria).Get(col) == if col == ValueOf(crit) then Word(StoredText(values)) else Null
    {
      StoredGet(cols, criteria, StoredRow(cols, criteria), col);
    }
  }

  /** A stored word that was not given is missed: the criteria are admitted beside a row that holds
      it, and both suit the client that has it. */
  lemma LostWordIsMissed(cols: seq<Column>, crit: string, values: seq<string>, w: string)
    requires ValidSchema(cols) && ValueOf(crit) in cols && forall v | v in values :: IsWord(v)
    requires w in Split(StoredText(values)) && !GivenAs(crit, values, w)
    ensures Misses(cols, OnlyGiven(crit, values), WordRow(crit, w), map[crit := w])
  {
    var text, client := StoredText(values), map[crit := w];
    SanitizedHasNoSpecials(Join(values));
    SplitWords(text);
    SanitizeFixpoint(w);
    OneWordList(crit, w, w);
    var i :| 0 <= i < |Split(text)| && Split(text)[i] == w;
    assert SameValue(crit, w, Split(text)[i]);
    StoredHoldsOnly(cols, crit, values);
    assert HoldsOnly(WordRow(crit, w), crit, w);
    WordIsAdmitted(cols, crit, values, WordRow(crit, w), w);
    HoldsOnlyMatches(cols, WordRow(crit, w), crit, w, client);
    HoldsOnlyMatches(cols, StoredRow(cols, OnlyGiven(crit, values)), crit, text, client);
    assert MinOf(crit) !in cols;
  }

  lemma NoClash(cols: seq<Column>, criteria: Criteria, row: Row, client: Client)
    requires ValidSchema(cols) && Kept(cols, criteria) && WithinInfinity(cols, client)
    ensures !Clash(cols, criteria, row, client)
  {
    if Clash(cols, criteria, row, client) {
      AdmittedRowIsUnambiguous(cols, criteria, [row], {}, 0, StoredRow(cols, criteria), client);
      assert false;
    }
  }

  /** For every value criterion and every list of values: the checks miss no ambiguity exactly when
      every word that is stored was given. */
  lemma KeptIsExact(cols: seq<Column>, crit: string, values: seq<string>)
    requires ValidSchema(cols) && ValueOf(crit) in cols && forall v | v in values :: IsWord(v)
    ensures WordsKept(crit, values) <==> forall row, client: Client :: !Misses(cols, OnlyGiven(crit, values), row, client)
  {
    var criteria := OnlyGiven(crit, values);
    if WordsKept(crit, values) {
      assert Kept(cols, criteria);
      forall row, client: Client
        ensures !Misses(cols, criteria, row, client)
      {
        if Misses(cols, criteria, row, client) {
          NoClash(cols, criteria, row, client);
          assert false;
        }
      }
    } else {
      var w :| w in Split(StoredText(values)) && !GivenAs(crit, values, w);
      LostWordIsMissed(cols, crit, values, w);
    }
  }

  lemma {:induction false} ShorterWhenChanged(s: string)
    ensures SanitizeSQL(s) != s ==> |SanitizeSQL(s)| < |s|
  {
    if s != "" {
      SanitizeFixpoint(s[1..]);
      ShorterWhenChanged(s[1..]);
      assert s == [s[0]] + s[1..];
    }
  }

  lemma {:induction false} SanitizedWord(s: string)
    requires forall i | 0 <= i < |s| :: !IsSpace(s[i])
    ensures forall i | 0 <= i < |SanitizeSQL(s)| :: !IsSpace(SanitizeSQL(s)[i])
  {
    if s != "" {
      SanitizedWord(s[1..]);
    }
  }

  /** A single value is kept exactly when nothing, or everything, is stripped from it. */
  lemma SingleValueKept(crit: string, v: string)
    requires IsWord(v)
    ensures WordsKept(crit, [v]) <==> SanitizeSQL(v) == v || SanitizeSQL(v) == ""
  {
    var w := SanitizeSQL(v);
    assert Join([v]) == v && StoredText([v]) == w;
    SanitizedWord(v);
    if w != "" {
      OneWordList(crit, w, w);
      ShorterWhenChanged(v);
      assert w in Split(w);
      assert |Lower(v)| == |v| && |Lower(w)| == |w|;
      if w == v {
        assert SameValue(crit, v, w);
      }
    }
  }

  /** Publishing one such value again is admitted, and both manifests suit the client that has it. */
  lemma StrippedTwinIsMissed(cols: seq<Column>, crit: string, v: string)
    requires ValidSchema(cols) && ValueOf(crit) in cols && IsWord(v) && SanitizeSQL(v) != v && SanitizeSQL(v) != ""
    ensures Misses(cols, OnlyGiven(crit, [v]), Row("a", 0, StoredCells(cols, OnlyGiven(crit, [v]))), map[crit := v])
  {
    var w, criteria := SanitizeSQL(v), OnlyGiven(crit, [v]);
    var twin := Row("a", 0, StoredCells(cols, criteria));
    assert Join([v]) == v && StoredText([v]) == w;
    SanitizedWord(v);
    ShorterWhenChanged(v);
    assert |Lower(v)| == |v| && |Lower(w)| == |w|;
    assert !GivenAs(crit, [v], w);
    OneWordList(crit, w, w);
    StoredHoldsOnly(cols, crit, [v]);
    assert forall col: Column :: twin.Get(col) == StoredRow(cols, criteria).Get(col);
    WordIsAdmitted(cols, crit, [v], twin, w);
    HoldsOnlyMatches(cols, twin, crit, w, map[crit := v]);
    HoldsOnlyMatches(cols, StoredRow(cols, criteria), crit, w, map[crit := v]);
    assert MinOf(crit) !in cols;
  }

  function SparcPlatform(model: string): string {
    "SUNW," + model
  }

  lemma SparcPlatformIsStripped(model: string)
    requires IsWord(model)
    ensures var v := SparcPlatform(model); IsWord(v) && SanitizeSQL(v) != v && SanitizeSQL(v) != ""
  {
    var v := SparcPlatform(model);
    SanitizeFixpoint(v);
    assert IsSqlSpecial(v[4]) && !IsSqlSpecial(v[0]);
    assert SanitizeSQL(v) == [v[0]] + SanitizeSQL(v[1..]);
  }

  /** The platforms of SPARC systems have a comma, as in SUNW,Sun-Fire-V250: two manifests published
      for one platform are both admitted, and both suit its clients. */
  lemma SparcPlatformIsMissed(cols: seq<Column>, model: string)
    requires ValidSchema(cols) && ValueOf("platform") in cols && IsWord(model)
    ensures var criteria, v := OnlyGiven("platform", [SparcPlatform(model)]), SparcPlatform(model);
            Misses(cols, criteria, Row("a", 0, StoredCells(cols, criteria)), map["platform" := v])
  {
    SparcPlatformIsStripped(model);
    StrippedTwinIsMissed(cols, "platform", SparcPlatform(model));
  }

  lemma PlatformIsValue()
    ensures ValueOf("platform") in MANIFEST_COLUMNS
  {
    assert MANIFEST_COLUMNS[7] == ValueOf("platform");
  }

  lemma SparcPlatformOnManifests(model: string)
    requires IsWord(model)
    ensures var criteria, v := OnlyGiven("platform", [SparcPlatform(model)]), SparcPlatform(model);
            Misses(MANIFEST_COLUMNS, criteria, Row("a", 0, StoredCells(MANIFEST_COLUMNS, criteria)), map["platform" := v])
  {
    ManifestSchemaIsValid();
    PlatformIsValue();
    SparcPlatformIsMissed(MANIFEST_COLUMNS, model);
  }

  // ----- where the guarantee ends: numbers beyond the open ends ---------------------------------

  /** A single memory size, which becomes the range from it to itself. */
  function Exactly(n: int): Criteria {
    OnlyGiven("mem", [DecimalText(n), DecimalText(n)])
  }

  /** What "1 unbounded" and "unbounded 1" store. */
  const MEM_FROM_ONE := Row("a", 0, map[MinOf("mem") := Number(1)])
  const MEM_UP_TO_ONE := Row("a", 0, map[MaxOf("mem") := Number(1)])

  lemma DecimalTextIsWord(n: int)
    ensures IsWord(DecimalText(n)) && DecimalText(n) != "unbounded" && SanitizeSQL(DecimalText(n)) == DecimalText(n)
  {
    var s := DecimalText(n);
    DecimalTextValue(n);
    ParsedIsClean(s, 10);
    assert DigitOf("unbounded"[0]) == 99 && !IsSign("unbounded"[0]);
    DecimalIsWord(if n < 0 then -n else n);
    assert n < 0 ==> s[0] == '-' && forall i | 1 <= i < |s| :: s[i] == Decimal(-n)[i - 1];
  }

  lemma ExactlyRange(n: int)
    ensures GetCriterion(Exactly(n), "mem") == Some([DecimalText(n), DecimalText(n)])
    ensures BoundCell("mem", DecimalText(n)) == Number(n)
    ensures n != 0 ==> GivenRange("mem", [DecimalText(n), DecimalText(n)]) == Ok(Range(n, n))
  {
    DecimalTextIsWord(n);
    DecimalTextValue(n);
    UpperParse(DecimalText(n), 10);
  }

  ghost predicate HoldsMem(row: Row, lo: Cell, hi: Cell) {
    && row.Get(MinOf("mem")) == lo && row.Get(MaxOf("mem")) == hi
    && forall col: Column | col.crit != "mem" || col.ValueOf? :: row.Get(col) == Null
  }

  lemma MemMatches(cols: seq<Column>, row: Row, lo: Cell, hi: Cell, n: int)
    requires ValidSchema(cols) && MinOf("mem") in cols && HoldsMem(row, lo, hi) && (lo != Null || hi != Null)
    requires lo == Null || (lo.Number? && lo.n <= n)
    requires hi == Null || (hi.Number? && n <= hi.n)
    ensures forall c: string :: row.Constrains(c) <==> c == "mem"
    ensures Matches(cols, row, map["mem" := DecimalText(n)]) && WellTyped(cols, row)
  {
    DecimalTextValue(n);
    DecimalTextIsWord(n);
    assert row.Constrains("mem");
  }

  lemma ExactlyStored(cols: seq<Column>, n: int)
    requires ValidSchema(cols) && MinOf("mem") in cols
    ensures HoldsMem(StoredRow(cols, Exactly(n)), Number(n), Number(n))
  {
    ExactlyRange(n);
    DecimalTextIsWord(n);
    var row := StoredRow(cols, Exactly(n));
    forall col: Column
      ensures row.Get(col) == if col.crit == "mem" && !col.ValueOf? then Number(n) else Null
    {
      StoredGet(cols, Exactly(n), row, col);
    }
  }

  lemma PointIsAdmitted(cols: seq<Column>, t: string, n: int, row: Row)
    requires IsWord(t) && GivenRange("mem", [t, t]) == Ok(Range(n, n))
    requires MinOf("mem") in cols && !Overlap(Range(n, n), StoredRange("mem", row))
    ensures Prepared(cols, OnlyGiven("mem", [t, t])) && Admitted(cols, OnlyGiven("mem", [t, t]), [row], {})
  {
    assert "mem"[1] != "mac"[1];
    assert MeetsNoRow(cols, "mem", [t, t], [row], {});
    DisjointIsAdmitted(cols, OnlyGiven("mem", [t, t]), [row], {});
  }

  lemma ExactlyAdmitted(cols: seq<Column>, n: int, row: Row)
    requires n != 0 && MinOf("mem") in cols && !Overlap(Range(n, n), StoredRange("mem", row))
    ensures Prepared(cols, Exactly(n)) && Admitted(cols, Exactly(n), [row], {})
  {
    ExactlyRange(n);
    DecimalTextIsWord(n);
    PointIsAdmitted(cols, DecimalText(n), n, row);
  }

  lemma ExactlyClashes(cols: seq<Column>, n: int, row: Row, lo: Cell, hi: Cell)
    requires ValidSchema(cols) && MinOf("mem") in cols && HoldsMem(row, lo, hi) && (lo != Null || hi != Null)
    requires lo == Null || (lo.Number? && lo.n <= n)
    requires hi == Null || (hi.Number? && n <= hi.n)
    requires n != 0 && !Overlap(Range(n, n), StoredRange("mem", row))
    ensures Clash(cols, Exactly(n), row, map["mem" := DecimalText(n)])
  {
    ExactlyAdmitted(cols, n, row);
    ExactlyStored(cols, n);
    MemMatches(cols, row, lo, hi, n);
    MemMatches(cols, StoredRow(cols, Exactly(n)), Number(n), Number(n), n);
  }

  /** A memory size beyond INFINITY is admitted beside a range without a maximum, and both suit the
      client that has it. */
  lemma BeyondInfinityIsMissed(cols: seq<Column>, n: int)
    requires ValidSchema(cols) && MinOf("mem") in cols && n > INFINITY
    ensures Clash(cols, Exactly(n), MEM_FROM_ONE, map["mem" := DecimalText(n)])
  {
    InfinityValues("mem");
    assert StoredRange("mem", MEM_FROM_ONE) == Range(1, INFINITY);
    ExactlyClashes(cols, n, MEM_FROM_ONE, Number(1), Null);
  }

  /** A negative one is admitted beside a range without a minimum. */
  lemma BelowZeroIsMissed(cols: seq<Column>, n: int)
    requires ValidSchema(cols) && MinOf("mem") in cols && n < 0
    ensures Clash(cols, Exactly(n), MEM_UP_TO_ONE, map["mem" := DecimalText(n)])
  {
    assert StoredRange("mem", MEM_UP_TO_ONE) == Range(0, 1);
    ExactlyClashes(cols, n, MEM_UP_TO_ONE, Null, Number(1));
  }

  /** No kept criteria are admitted beside a row so that both suit the client. */
  ghost predicate Safe(cols: seq<Column>, client: Client) {
    forall criteria, row | Kept(cols, criteria) :: !Clash(cols, criteria, row, client)
  }

  lemma WithinInfinityIsSafe(cols: seq<Column>, n: int)
    requires ValidSchema(cols) && 0 <= n <= INFINITY
    ensures Safe(cols, map["mem" := DecimalText(n)])
  {
    var client := map["mem" := DecimalText(n)];
    DecimalTextValue(n);
    DecimalTextIsWord(n);
    assert WithinInfinity(cols, client);
    forall criteria, row | Kept(cols, criteria)
      ensures !Clash(cols, criteria, row, client)
    {
      NoClash(cols, criteria, row, client);
    }
  }

  lemma OnlyMemIsKept(cols: seq<Column>, n: int)
    requires ValidSchema(cols) && MinOf("mem") in cols
    ensures Kept(cols, Exactly(n))
  {
    assert ValueOf("mem") !in cols;
  }

  /** The memory sizes of clients that the checks are safe for are those from 0 to INFINITY. */
  lemma SafeMemorySizes(cols: seq<Column>, n: int)
    requires ValidSchema(cols) && MinOf("mem") in cols
    ensures Safe(cols, map["mem" := DecimalText(n)]) <==> 0 <= n <= INFINITY
  {
    if n < 0 {
      BelowZeroIsMissed(cols, n);
      OnlyMemIsKept(cols, n);
    } else if n > INFINITY {
      BeyondInfinityIsMissed(cols, n);
      OnlyMemIsKept(cols, n);
    } else {
      WithinInfinityIsSafe(cols, n);
    }
  }
}
