/** Criteria that the collision checks refuse although no client suits both rows: the walk compares
    texts, and what it takes for missing or for the same is not what the query does. */
module Refusals {
  import opened Text
  import opened CriteriaDatabase
  import opened PublishManifest
  import opened Admission

  // ----- a bound that was not recorded -----------------------------------------------------------

  lemma DecimalIsOneWord(n: int)
    ensures Split(DecimalText(n)) == [DecimalText(n)] && Lower(DecimalText(n)) == DecimalText(n)
  {
    var s := DecimalText(n);
    DecimalTextIsWord(n);
    DecimalTextValue(n);
    LowerOfInteger(s);
    assert Join([s]) == s;
    SplitJoin([s]);
  }

  lemma DecimalLength(n: int)
    ensures |DecimalText(n)| == 1 <==> 0 <= n <= 9
    ensures 0 <= n <= 9 ==> DecimalText(n) == [DigitChar(n)]
  {
    if n >= 10 {
      DecimalLeadingDigit(n);
    }
  }

  /** A character of the given text is found in the stored number exactly if that is its one digit. */
  lemma CharIsNumber(name: string, c: char, n: int)
    ensures IsInList(name, [c], DecimalText(n)) <==> 0 <= n <= 9 && c == DigitChar(n)
  {
    DecimalIsOneWord(n);
    DecimalLength(n);
    assert Split(DecimalText(n))[0] == DecimalText(n);
    assert IsInList(name, [c], DecimalText(n)) <==> SameValue(name, [c], Split(DecimalText(n))[0]);
    if 0 <= n <= 9 {
      var d := DigitChar(n);
      assert DigitOf(d) == n < 10;
      assert Lower([c])[0] == LowerChar(c) && Lower([d])[0] == LowerChar(d);
      assert LowerChar(c) == LowerChar(d) <==> c == d;
    }
  }

  /** A bound that was not recorded is compared character by character: it counts as the same exactly
      if the stored number is one digit that occurs in the given text. */
  lemma UnrecordedDecimalStep(criteria: Criteria, row: Row, collided: string, col: Column, n: int, t: string)
    requires !col.ValueOf? && row.Get(col) == Number(n) && n != 0
    requires GivenFor(criteria, col) == Token(t) && t != "" && !Contains(collided, col.Name() + ",")
    ensures WalkStep(criteria, row, collided, col) == if 1 <= n <= 9 && DigitChar(n) in t then Next else Stop
  {
    forall i | 0 <= i < |t|
      ensures IsInList(col.Name(), [t[i]], DecimalText(n)) <==> 0 <= n <= 9 && t[i] == DigitChar(n)
    {
      CharIsNumber(col.Name(), t[i], n);
    }
  }

  // ----- a stored 0 ---------------------------------------------------------------------------------

  /** The range criterion has no bound but 0 in the row. */
  predicate NullOrZero(row: Row, c: string) {
    (row.Get(MinOf(c)) == Null || row.Get(MinOf(c)) == Number(0)) && (row.Get(MaxOf(c)) == Null || row.Get(MaxOf(c)) == Number(0))
  }

  lemma ZeroStep(criteria: Criteria, row: Row, bare: Row, collided: string, c: string, col: Column)
    requires GetCriterion(criteria, c).None? && NullOrZero(row, c) && !col.ValueOf? && col.crit == c
    requires !Contains(collided, col.Name() + ",") && bare.Get(col) == Null
    ensures WalkStep(criteria, row, collided, col) == WalkStep(criteria, bare, collided, col) == Next
  {}

  /** For criteria that leave the range out, the walk takes a bound of 0 for none: the verdict is the one
      on a row without the range, although a maximum of 0 shuts every positive number out. */
  lemma {:induction false} ZeroIsNone(cols: seq<Column>, criteria: Criteria, row: Row, bare: Row, collided: string, c: string, i: nat)
    requires i <= |cols| && GetCriterion(criteria, c).None? && NullOrZero(row, c)
    requires !Contains(collided, MinOf(c).Name() + ",") && !Contains(collided, MaxOf(c).Name() + ",")
    requires forall col: Column :: bare.Get(col) == if !col.ValueOf? && col.crit == c then Null else row.Get(col)
    ensures Walk(cols, criteria, row, collided, i) == Walk(cols, criteria, bare, collided, i)
    decreases |cols| - i
  {
    if i < |cols| {
      ZeroIsNone(cols, criteria, row, bare, collided, c, i + 1);
      if !cols[i].ValueOf? && cols[i].crit == c {
        ZeroStep(criteria, row, bare, collided, c, cols[i]);
      }
      assert WalkStep(criteria, row, collided, cols[i]) == WalkStep(criteria, bare, collided, cols[i]);
    }
  }

  /** A stored maximum of 0 is read as no maximum: every range of numbers overlaps with it, although
      it holds none above 0. */
  lemma ZeroMaximumIsOpen(crit: string, row: Row, man: Range)
    requires crit != "mac" && row.Get(MinOf(crit)) == Null && row.Get(MaxOf(crit)) == Number(0)
    requires 0 <= man.lo <= man.hi && man.lo <= INFINITY
    ensures Overlap(man, StoredRange(crit, row))
    ensures forall v | InRange(row, crit, v) :: !(0 < man.lo <= IntegerOf(v))
  {
    InfinityValues(crit);
  }

  // ----- disjoint ranges that are refused ---------------------------------------------------------

  function WordAndRange(c: string, w: string, d: string, a: string, b: string): Criteria {
    [Criterion(c, [w]), Criterion(d, [a, b])]
  }

  function RowOf(c: string, w: string, d: string, m: int, n: int): Row {
    Row("a", 0, map[ValueOf(c) := Word(w), MinOf(d) := Number(m), MaxOf(d) := Number(n)])
  }

  lemma {:induction false} NothingDiffers(cols: seq<Column>, criteria: Criteria, row: Row, collided: string, i: nat)
    requires i <= |cols| && forall col | col in cols :: WalkStep(criteria, row, collided, col) == Next
    ensures Walk(cols, criteria, row, collided, i) == Same
    decreases |cols| - i
  {
    if i < |cols| {
      NothingDiffers(cols, criteria, row, collided, i + 1);
      assert cols[i] in cols;
    }
  }

  lemma WordAndRangeGet(c: string, w: string, d: string, a: string, b: string, e: string)
    requires c != d
    ensures GetCriterion(WordAndRange(c, w, d, a, b), e) == if e == c then Some([w]) else if e == d then Some([a, b]) else None
  {
    assert WordAndRange(c, w, d, a, b)[1..] == [Criterion(d, [a, b])];
    assert [Criterion(d, [a, b])][1..] == [];
  }

  lemma WordIsInItself(c: string, w: string)
    requires IsWord(w)
    ensures IsInList(c, w, w)
  {
    OneWordList(c, w, w);
  }

  lemma WordToken(cols: seq<Column>, c: string, w: string, row: Row)
    requires MinOf(c) !in cols && IsWord(w) && row.Get(ValueOf(c)) == Word(w)
    ensures Tokens(cols, c, [w], row) == c + ","
  {
    WordIsInItself(c, w);
    ValueTokensNext(c, [w], 0, w);
    assert [w][..1] == [w] && [w][..0] == [] && "" + (c + ",") == c + ",";
  }

  lemma TwoCriteria(cols: seq<Column>, c: string, w: string, d: string, a: string, b: string, row: Row)
    requires Prepared(cols, WordAndRange(c, w, d, a, b)) && c != d && MinOf(c) !in cols && MinOf(d) in cols
    requires CheckCriterion(cols, c, [w]).Ok? && CheckCriterion(cols, d, [a, b]).Ok?
    requires Tokens(cols, d, [a, b], row) == "" && Tokens(cols, c, [w], row) != ""
    ensures CollisionsUpTo(cols, WordAndRange(c, w, d, a, b), 2, [row], {}) ==
            Ok(map[(row.name, row.inst) := Tokens(cols, c, [w], row)])
  {
    var criteria := WordAndRange(c, w, d, a, b);
    var coll := AddToken(map[], (row.name, row.inst), Tokens(cols, c, [w], row));
    WordAndRangeGet(c, w, d, a, b, c);
    WordAndRangeGet(c, w, d, a, b, d);
    CollisionsNext(cols, criteria, 0, [row], {});
    CollisionsNext(cols, criteria, 1, [row], {});
    OneRow(cols, c, [w], row, map[]);
    OneRow(cols, d, [a, b], row, coll);
  }

  /** Only the word is recorded, because the ranges do not overlap. */
  lemma WordIsRecorded(cols: seq<Column>, c: string, w: string, d: string, a: string, b: string, row: Row)
    requires ValidSchema(cols) && ValueOf(c) in cols && MinOf(d) in cols && c != d && IsWord(w) && row.Get(ValueOf(c)) == Word(w)
    requires Prepared(cols, WordAndRange(c, w, d, a, b)) && GivenRange(d, [a, b]).Ok?
    requires !Overlap(GivenRange(d, [a, b]).value, StoredRange(d, row))
    ensures CollisionsUpTo(cols, WordAndRange(c, w, d, a, b), 2, [row], {}) == Ok(map[(row.name, row.inst) := c + ","])
  {
    WordToken(cols, c, w, row);
    TwoCriteria(cols, c, w, d, a, b, row);
  }

  /** Nothing in the walk tells the row from the criteria. */
  lemma DigitsDoNotDiffer(cols: seq<Column>, c: string, w: string, d: string, a: string, b: string, m: int, n: int, collided: string)
    requires ValidSchema(cols) && ValueOf(c) in cols && MinOf(d) in cols && c != d && IsWord(w)
    requires a != "unbounded" && b != "unbounded" && 1 <= m <= 9 && 1 <= n <= 9 && DigitChar(m) in a && DigitChar(n) in b
    requires !Contains(collided, MinOf(d).Name() + ",") && !Contains(collided, MaxOf(d).Name() + ",")
    ensures Walk(cols, WordAndRange(c, w, d, a, b), RowOf(c, w, d, m, n), collided, 0) == Same
  {
    var criteria, row := WordAndRange(c, w, d, a, b), RowOf(c, w, d, m, n);
    forall col | col in cols
      ensures WalkStep(criteria, row, collided, col) == Next
    {
      WordAndRangeGet(c, w, d, a, b, col.crit);
      if col == ValueOf(c) {
        WordIsInItself(c, w);
        assert [w][0] == w;
        ValueStep(criteria, row, collided, c);
      } else if col == MinOf(d) {
        UnrecordedDecimalStep(criteria, row, collided, col, m, a);
      } else if col == MaxOf(d) {
        UnrecordedDecimalStep(criteria, row, collided, col, n, b);
      }
    }
    NothingDiffers(cols, criteria, row, collided, 0);
  }

  /** Criteria with the same word and a range behind the stored one are refused when the digits of the
      stored bounds occur in the given ones, as 1 to 2 in 10 to 20; but no client suits both. */
  lemma DisjointRangesAreRefused(cols: seq<Column>, c: string, w: string, d: string, a: string, b: string, m: int, n: int)
    requires ValidSchema(cols) && ValueOf(c) in cols && MinOf(d) in cols && c != d && d != "mac" && IsWord(w)
    requires IsWord(a) && IsWord(b) && GivenInOrder(d, [a, b]) && a != "unbounded" && b != "unbounded"
    requires 1 <= m <= n <= 9 && DigitChar(m) in a && DigitChar(n) in b && n < IntegerOf(a) <= IntegerOf(b)
    requires !Contains(c + ",", MinOf(d).Name() + ",") && !Contains(c + ",", MaxOf(d).Name() + ",")
    ensures Prepared(cols, WordAndRange(c, w, d, a, b))
    ensures !Admitted(cols, WordAndRange(c, w, d, a, b), [RowOf(c, w, d, m, n)], {})
    ensures forall client: Client ::
              !(Matches(cols, RowOf(c, w, d, m, n), client) && Matches(cols, StoredRow(cols, WordAndRange(c, w, d, a, b)), client))
  {
    var criteria, row := WordAndRange(c, w, d, a, b), RowOf(c, w, d, m, n);
    var key, coll := ("a", 0), map[("a", 0) := c + ","];
    RangeIsInOrder(cols, d, [a, b]);
    LowerIsRead(d, a);
    UpperIsRead(d, b);
    WordIsRecorded(cols, c, w, d, a, b, row);
    DigitsDoNotDiffer(cols, c, w, d, a, b, m, n, c + ",");
    assert RowFor([row], key) == Some(row);
    assert key in coll && VerdictOn(cols, criteria, [row], coll, key) == Same;
    WordAndRangeGet(c, w, d, a, b, d);
    BoundIsStored(d, a);
    BoundIsStored(d, b);
    forall client: Client
      ensures !(Matches(cols, row, client) && Matches(cols, StoredRow(cols, criteria), client))
    {
      var stored := StoredRow(cols, criteria);
      StoredGet(cols, criteria, stored, MinOf(d));
      assert row.Constrains(d) && stored.Constrains(d);
      assert Satisfies(cols, row, client, d) && Satisfies(cols, stored, client, d) ==>
          InRange(row, d, SanitizeSQL(client[d])) && InRange(stored, d, SanitizeSQL(client[d]));
    }
  }
}
