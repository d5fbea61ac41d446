/** The manifests table of an install service and the query that picks the manifest for
    a client (AI_database.py).  SQL text is replaced by the clauses it stands for. */
module CriteriaDatabase {
  import opened Text

  // ----- table layout -------------------------------------------------------

  datatype Column = MinOf(crit: string) | MaxOf(crit: string) | ValueOf(crit: string) {
    function Name(): string {
      match this
      case MinOf(c) => "MIN" + c
      case MaxOf(c) => "MAX" + c
      case ValueOf(c) => c
    }
  }

  /** Mac bounds are read through HEX(), which yields upper-case digits. */
  datatype Cell = Null | Number(n: int) | Hex(digits: string) | Word(text: string)

  datatype Row = Row(name: string, inst: int, cells: map<Column, Cell>) {
    function Get(col: Column): Cell {
      if col in cells then cells[col] else Null
    }

    /** The row restricts clients by criterion c. */
    predicate Constrains(c: string) {
      Get(MinOf(c)) != Null || Get(MaxOf(c)) != Null || Get(ValueOf(c)) != Null
    }
  }

  const MANIFEST_COLUMNS: seq<Column> := [
    ValueOf("arch"), ValueOf("hostname"), MinOf("mac"), MaxOf("mac"), MinOf("ipv4"), MaxOf("ipv4"),
    ValueOf("cpu"), ValueOf("platform"), MinOf("network"), MaxOf("network"), MinOf("mem"), MaxOf("mem"),
    ValueOf("zonename")]

  /** The seven criteria of the ORDER BY clause, in order of precedence. */
  const RANKED: seq<string> := ["mac", "ipv4", "platform", "arch", "cpu", "network", "mem"]

  /** A criterion is either a range with both bounds, MIN column first, or a value. */
  ghost predicate ValidSchema(cols: seq<Column>) {
    && (forall c: string :: MinOf(c) in cols <==> MaxOf(c) in cols)
    && (forall c: string :: !(MinOf(c) in cols && ValueOf(c) in cols))
  }

  predicate WellTypedCell(col: Column, cell: Cell) {
    cell == Null ||
    match col
    case ValueOf(_) => cell.Word?
    case _ => if col.crit == "mac" then cell.Hex? && |cell.digits| == 12 && IsUpperHex(cell.digits) else cell.Number?
  }

  ghost predicate WellTyped(cols: seq<Column>, row: Row) {
    forall col: Column :: (row.Get(col) != Null ==> col in cols) && WellTypedCell(col, row.Get(col))
  }

  ghost predicate WellTypedTable(cols: seq<Column>, rows: seq<Row>) {
    forall r | r in rows :: WellTyped(cols, r)
  }

  lemma ManifestColumnAt(i: nat)
    requires i < |MANIFEST_COLUMNS|
    ensures MANIFEST_COLUMNS[i].MinOf? ==>
              i + 1 < |MANIFEST_COLUMNS| && MANIFEST_COLUMNS[i + 1] == MaxOf(MANIFEST_COLUMNS[i].crit)
    ensures MANIFEST_COLUMNS[i].MaxOf? ==> i > 0 && MANIFEST_COLUMNS[i - 1] == MinOf(MANIFEST_COLUMNS[i].crit)
    ensures MANIFEST_COLUMNS[i].crit != ""
    ensures MANIFEST_COLUMNS[i].ValueOf? <==> MANIFEST_COLUMNS[i].crit[0] !in "min"
  {
    if i < 6 {
      assert i == 0 || i == 1 || i == 2 || i == 3 || i == 4 || i == 5;
    } else {
      assert i == 6 || i == 7 || i == 8 || i == 9 || i == 10 || i == 11 || i == 12;
    }
  }

  lemma ManifestSchemaIsValid()
    ensures ValidSchema(MANIFEST_COLUMNS)
  {
    forall i: nat | i < |MANIFEST_COLUMNS| {
      ManifestColumnAt(i);
    }
  }

  lemma ManifestColumnsDiffer(i: nat, j: nat)
    requires i < j < |MANIFEST_COLUMNS|
    ensures MANIFEST_COLUMNS[i] != MANIFEST_COLUMNS[j]
  {
    ManifestColumnAt(i);
    ManifestColumnAt(j);
  }

  // ----- values -------------------------------------------------------------

  predicate IsSqlSpecial(c: char) {
    c == '%' || c == '*' || c == ',' || c == ';' || c == '(' || c == ')'
  }

  function SanitizeSQL(s: string): string {
    if s == "" then "" else (if IsSqlSpecial(s[0]) then "" else [s[0]]) + SanitizeSQL(s[1..])
  }

  /** Exactly the texts without special characters pass through unchanged. */
  lemma {:induction false} SanitizeFixpoint(s: string)
    ensures |SanitizeSQL(s)| <= |s|
    ensures SanitizeSQL(s) == s <==> forall i | 0 <= i < |s| :: !IsSqlSpecial(s[i])
  {
    if s != "" {
      SanitizeFixpoint(s[1..]);
      assert s == [s[0]] + s[1..];
      if !IsSqlSpecial(s[0]) {
        assert SanitizeSQL(s)[1..] == SanitizeSQL(s[1..]);
        if forall i | 0 <= i < |s| :: !IsSqlSpecial(s[i]) {
          assert forall i | 0 <= i < |s[1..]| :: s[1..][i] == s[i + 1];
        }
        if SanitizeSQL(s) == s {
          assert SanitizeSQL(s[1..]) == s[1..];
          assert forall i | 1 <= i < |s| :: s[i] == s[1..][i - 1];
        }
      }
    }
  }

  /** Of every character all or none stay, none exactly of the six. */
  lemma {:induction false} SanitizeExactly(s: string, c: char)
    ensures multiset(SanitizeSQL(s))[c] == if c in "%*,;()" then 0 else multiset(s)[c]
  {
    if s != "" {
      SanitizeExactly(s[1..], c);
      assert s == [s[0]] + s[1..];
      assert IsSqlSpecial(s[0]) <==> s[0] in "%*,;()";
    }
  }

  /** Those that stay keep their order. */
  lemma {:induction false} SanitizeConcat(a: string, b: string)
    ensures SanitizeSQL(a + b) == SanitizeSQL(a) + SanitizeSQL(b)
  {
    if a == "" {
      assert a + b == b;
    } else {
      var first := if IsSqlSpecial(a[0]) then "" else [a[0]];
      SanitizeConcat(a[1..], b);
      assert (a + b)[1..] == a[1..] + b;
      AppendAssociates(first, SanitizeSQL(a[1..]), SanitizeSQL(b));
    }
  }

  /** Criteria named in CRIT_LIST_CASE_SENSITIVE are compared as they are, others lowered. */
  predicate SameValue(crit: string, v: string, w: string) {
    if Lower(crit) == "zonename" then v == w else Lower(v) == Lower(w)
  }

  predicate IsInList(crit: string, value: string, list: string) {
    exists i :: 0 <= i < |Split(list)| && SameValue(crit, value, Split(list)[i])
  }

  // ----- which rows suit a client --------------------------------------------

  type Client = map<string, string>

  /** The (sanitized) value v lies between the bounds of row for range criterion c; a NULL bound is open. */
  predicate InRange(row: Row, c: string, v: string) {
    var lo, hi := row.Get(MinOf(c)), row.Get(MaxOf(c));
    if c == "mac" then
      && (lo.Hex? ==> LexLeq(lo.digits, Upper(v)))
      && (hi.Hex? ==> LexLeq(Upper(v), hi.digits))
    else
      && Parse(v, 10).Some?
      && (lo.Number? ==> lo.n <= IntegerOf(v))
      && (hi.Number? ==> IntegerOf(v) <= hi.n)
  }

  predicate Satisfies(cols: seq<Column>, row: Row, client: Client, c: string) {
    row.Constrains(c) ==>
      && c in client
      && if MinOf(c) in cols then InRange(row, c, SanitizeSQL(client[c]))
         else row.Get(ValueOf(c)).Word? && IsInList(c, SanitizeSQL(client[c]), row.Get(ValueOf(c)).text)
  }

  /** The row has criteria and the client meets every one of them. */
  ghost predicate Matches(cols: seq<Column>, row: Row, client: Client) {
    && (exists c: string :: row.Constrains(c))
    && (forall c: string :: Satisfies(cols, row, client, c))
  }

  // ----- the query ----------------------------------------------------------

  datatype Clause =
    | HexAtMost(col: Column, v: string)
    | HexAtLeast(col: Column, v: string)
    | AtMost(col: Column, v: string)
    | AtLeast(col: Column, v: string)
    | InList(col: Column, v: string)
    | IsNull(col: Column)

  predicate Eval(cl: Clause, row: Row) {
    var cell := row.Get(cl.col);
    match cl
    case HexAtMost(_, v) => cell == Null || (cell.Hex? && LexLeq(cell.digits, Upper(v)))
    case HexAtLeast(_, v) => cell == Null || (cell.Hex? && LexLeq(Upper(v), cell.digits))
    case AtMost(_, v) => cell == Null || (cell.Number? && Parse(v, 10).Some? && cell.n <= IntegerOf(v))
    case AtLeast(_, v) => cell == Null || (cell.Number? && Parse(v, 10).Some? && IntegerOf(v) <= cell.n)
    case InList(col, v) => cell == Null || (cell.Word? && IsInList(col.crit, v, cell.text))
    case IsNull(_) => cell == Null
  }

  /** notAllNull lists the columns of the final NOT (.. IS NULL AND ..) filter, when there is one. */
  datatype Query = Query(conditions: seq<Clause>, notAllNull: Option<seq<Column>>)

  predicate Selects(q: Query, row: Row) {
    && (forall i | 0 <= i < |q.conditions| :: Eval(q.conditions[i], row))
    && (q.notAllNull.Some? ==> exists i :: 0 <= i < |q.notAllNull.value| && row.Get(q.notAllNull.value[i]) != Null)
  }

  /** The clause of build_query_str for one column in use. */
  function ClauseFor(client: Client, col: Column): Clause {
    if col.crit !in client then IsNull(col)
    else
      var v := SanitizeSQL(client[col.crit]);
      match col
      case MinOf(c) => if c == "mac" then HexAtMost(col, v) else AtMost(col, v)
      case MaxOf(c) => if c == "mac" then HexAtLeast(col, v) else AtLeast(col, v)
      case ValueOf(_) => InList(col, v)
  }

  method BuildQuery(client: Client, criteriaSet: seq<Column>, allCriteria: Option<seq<Column>>) returns (q: Query)
    ensures q == Query(seq(|criteriaSet|, i requires 0 <= i < |criteriaSet| => ClauseFor(client, criteriaSet[i])), allCriteria)
  {
    var conditions := [];
    for k := 0 to |criteriaSet|
      invariant |conditions| == k
      invariant forall i | 0 <= i < k :: conditions[i] == ClauseFor(client, criteriaSet[i])
    {
      var crit := criteriaSet[k];
      var clause;
      if crit.MinOf? {
        if crit.crit in client {
          var critval := SanitizeSQL(client[crit.crit]);
          clause := if crit.crit == "mac" then HexAtMost(crit, critval) else AtMost(crit, critval);
        } else {
          clause := IsNull(crit);
        }
      } else if crit.MaxOf? {
        if crit.crit in client {
          var critval := SanitizeSQL(client[crit.crit]);
          clause := if crit.crit == "mac" then HexAtLeast(crit, critval) else AtLeast(crit, critval);
        } else {
          clause := IsNull(crit);
        }
      } else if crit.crit in client {
        clause := InList(crit, SanitizeSQL(client[crit.crit]));
      } else {
        clause := IsNull(crit);
      }
      conditions := conditions + [clause];
    }
    q := Query(conditions, allCriteria);
  }

  lemma ClauseHolds(q: Query, used: seq<Column>, row: Row, client: Client, col: Column)
    requires q.conditions == seq(|used|, i requires 0 <= i < |used| => ClauseFor(client, used[i]))
    requires forall i | 0 <= i < |q.conditions| :: Eval(q.conditions[i], row)
    requires row.Get(col) != Null ==> col in used
    ensures row.Get(col) != Null ==> Eval(ClauseFor(client, col), row)
  {
    if row.Get(col) != Null {
      var i :| 0 <= i < |used| && used[i] == col;
      assert q.conditions[i] == ClauseFor(client, col);
    }
  }

  /** The clauses, column by column, select exactly the rows that suit the client criterion by
      criterion -- for the columns in use or any larger part of the schema. */
  lemma QuerySelectsMatches(cols: seq<Column>, used: seq<Column>, row: Row, client: Client, q: Query)
    requires ValidSchema(cols) && WellTyped(cols, row)
    requires forall col | col in used :: col in cols
    requires forall col | col in cols && row.Get(col) != Null :: col in used
    requires q == Query(seq(|used|, i requires 0 <= i < |used| => ClauseFor(client, used[i])), Some(cols))
    ensures Selects(q, row) <==> Matches(cols, row, client)
  {
    if Selects(q, row) {
      var i :| 0 <= i < |cols| && row.Get(cols[i]) != Null;
      assert row.Constrains(cols[i].crit);
      forall c: string
        ensures Satisfies(cols, row, client, c)
      {
        ClauseHolds(q, used, row, client, MinOf(c));
        ClauseHolds(q, used, row, client, MaxOf(c));
        ClauseHolds(q, used, row, client, ValueOf(c));
        assert WellTypedCell(MinOf(c), row.Get(MinOf(c))) && WellTypedCell(MaxOf(c), row.Get(MaxOf(c)));
        assert WellTypedCell(ValueOf(c), row.Get(ValueOf(c)));
      }
    }
    if Matches(cols, row, client) {
      var c: string :| row.Constrains(c);
      var col := if row.Get(MinOf(c)) != Null then MinOf(c) else if row.Get(MaxOf(c)) != Null then MaxOf(c) else ValueOf(c);
      assert col in cols;
      var j :| 0 <= j < |cols| && cols[j] == col;
      assert row.Get(q.notAllNull.value[j]) != Null;
      forall i | 0 <= i < |q.conditions|
        ensures Eval(q.conditions[i], row)
      {
        var col := used[i];
        assert Satisfies(cols, row, client, col.crit) && WellTypedCell(col, row.Get(col));
      }
    }
  }

  // ----- the ranking --------------------------------------------------------

  /** One ORDER BY term; NULL sorts below every text. */
  predicate PartLeq(a: Option<string>, b: Option<string>) {
    a.None? || (b.Some? && LexLeq(a.value, b.value))
  }

  predicate KeyLeq(a: seq<Option<string>>, b: seq<Option<string>>)
    requires |a| == |b|
  {
    a == [] || (if a[0] == b[0] then KeyLeq(a[1..], b[1..]) else PartLeq(a[0], b[0]))
  }

  function Flag(b: bool): Option<string> {
    Some(if b then "1" else "0")
  }

  function ValueTerm(row: Row, c: string): Option<string> {
    if row.Get(ValueOf(c)).Word? then Some(row.Get(ValueOf(c)).text) else None
  }

  /** COALESCE(MAXc, MINc) IS NOT NULL */
  function RangeTerm(row: Row, c: string): Option<string> {
    Flag(row.Get(MaxOf(c)) != Null || row.Get(MinOf(c)) != Null)
  }

  function Key(row: Row): (k: seq<Option<string>>)
    ensures |k| == 7
  {
    [RangeTerm(row, "mac"), RangeTerm(row, "ipv4"), ValueTerm(row, "platform"), ValueTerm(row, "arch"),
     ValueTerm(row, "cpu"), RangeTerm(row, "network"), RangeTerm(row, "mem")]
  }

  lemma {:induction false} KeyTransitive(a: seq<Option<string>>, b: seq<Option<string>>, c: seq<Option<string>>)
    requires |a| == |b| == |c| && KeyLeq(a, b) && KeyLeq(b, c)
    ensures KeyLeq(a, c)
  {
    if a != [] {
      if a[0] == b[0] && b[0] == c[0] {
        KeyTransitive(a[1..], b[1..], c[1..]);
      } else if a[0] != b[0] && b[0] != c[0] && a[0].Some? {
        if a[0] == c[0] {
          LexAntisymmetric(a[0].value, b[0].value);
          assert false;
        }
        LexTransitive(a[0].value, b[0].value, c[0].value);
      }
    }
  }

  lemma {:induction false} KeyTotal(a: seq<Option<string>>, b: seq<Option<string>>)
    requires |a| == |b|
    ensures KeyLeq(a, b) || KeyLeq(b, a)
  {
    if a != [] {
      if a[0] == b[0] {
        KeyTotal(a[1..], b[1..]);
      } else if a[0].Some? && b[0].Some? {
        LexTotal(a[0].value, b[0].value);
      }
    }
  }

  lemma {:induction false} KeyAntisymmetric(a: seq<Option<string>>, b: seq<Option<string>>)
    requires |a| == |b| && KeyLeq(a, b) && KeyLeq(b, a)
    ensures a == b
  {
    if a != [] {
      if a[0] == b[0] {
        KeyAntisymmetric(a[1..], b[1..]);
        assert a == [a[0]] + a[1..] && b == [b[0]] + b[1..];
      } else {
        LexAntisymmetric(a[0].value, b[0].value);
      }
    }
  }

  /** The first place where two keys differ. */
  predicate FirstDiffer(a: seq<Option<string>>, b: seq<Option<string>>, i: nat)
    requires |a| == |b|
  {
    i < |a| && a[i] != b[i] && forall j | 0 <= j < i :: a[j] == b[j]
  }

  lemma {:induction false} FirstDifferDecides(a: seq<Option<string>>, b: seq<Option<string>>)
    requires |a| == |b|
    ensures KeyLeq(a, b) <==> forall i: nat | FirstDiffer(a, b, i) :: PartLeq(a[i], b[i])
  {
    if a != [] {
      if a[0] == b[0] {
        FirstDifferDecides(a[1..], b[1..]);
        assert forall i: nat | i < |a| - 1 :: FirstDiffer(a[1..], b[1..], i) <==> FirstDiffer(a, b, i + 1);
        assert forall i: nat | FirstDiffer(a, b, i) :: FirstDiffer(a[1..], b[1..], i - 1);
      } else {
        assert FirstDiffer(a, b, 0) && forall i: nat | FirstDiffer(a, b, i) :: i == 0;
      }
    }
  }

  // ----- what the ranking means -------------------------------------------------

  /** The row has a bound of a ranked range (mac, ipv4, network, mem), or a text for a ranked value. */
  predicate Restricts(row: Row, i: nat)
    requires i < 7
  {
    if i < 2 || i > 4 then row.Get(MinOf(RANKED[i])) != Null || row.Get(MaxOf(RANKED[i])) != Null
    else row.Get(ValueOf(RANKED[i])).Word?
  }

  /** Both restrict the ranked criterion or neither, and a value by the same text. */
  predicate Agree(r: Row, s: Row, i: nat)
    requires i < 7
  {
    && (Restricts(r, i) <==> Restricts(s, i))
    && (2 <= i <= 4 && Restricts(r, i) ==> r.Get(ValueOf(RANKED[i])) == s.Get(ValueOf(RANKED[i])))
  }

  /** r is the row that restricts the ranked criterion, or has the greater of two texts. */
  predicate Ahead(r: Row, s: Row, i: nat)
    requires i < 7
  {
    && Restricts(r, i)
    && (Restricts(s, i) ==>
          && 2 <= i <= 4
          && r.Get(ValueOf(RANKED[i])) != s.Get(ValueOf(RANKED[i]))
          && LexLeq(s.Get(ValueOf(RANKED[i])).text, r.Get(ValueOf(RANKED[i])).text))
  }

  /** r comes before s: it is ahead in the first ranked criterion in which they do not agree. */
  predicate Outranks(r: Row, s: Row) {
    exists i :: 0 <= i < 7 && Ahead(r, s, i) && forall j | 0 <= j < i :: Agree(r, s, j)
  }

  lemma KeyTermAt(r: Row, i: nat)
    requires i < 7
    ensures Key(r)[i] == if i < 2 || i > 4 then RangeTerm(r, RANKED[i]) else ValueTerm(r, RANKED[i])
  {
    assert i == 0 || i == 1 || i == 2 || i == 3 || i == 4 || i == 5 || i == 6;
  }

  lemma TermMeans(r: Row, s: Row, i: nat)
    requires i < 7
    ensures Key(r)[i] == Key(s)[i] <==> Agree(r, s, i)
    ensures Key(r)[i] != Key(s)[i] ==> (Ahead(r, s, i) <==> !PartLeq(Key(r)[i], Key(s)[i]))
    ensures Ahead(r, s, i) ==> !Agree(r, s, i)
  {
    KeyTermAt(r, i);
    KeyTermAt(s, i);
    assert !LexLeq("1", "0") && "1"[0] != "0"[0];
    if 2 <= i <= 4 && Restricts(r, i) && Restricts(s, i) {
      var v, w := r.Get(ValueOf(RANKED[i])).text, s.Get(ValueOf(RANKED[i])).text;
      LexTotal(v, w);
      if LexLeq(v, w) && LexLeq(w, v) {
        LexAntisymmetric(v, w);
      }
    }
  }

  /** The ORDER BY terms put no row above another but one that outranks it. */
  lemma RankingMeans(r: Row, s: Row)
    ensures KeyLeq(Key(r), Key(s)) <==> !Outranks(r, s)
  {
    var a, b := Key(r), Key(s);
    FirstDifferDecides(a, b);
    forall i: nat | i < 7
      ensures a[i] == b[i] <==> Agree(r, s, i)
      ensures a[i] != b[i] ==> (Ahead(r, s, i) <==> !PartLeq(a[i], b[i]))
      ensures Ahead(r, s, i) ==> !Agree(r, s, i)
    {
      TermMeans(r, s, i);
    }
    if Outranks(r, s) {
      var i :| 0 <= i < 7 && Ahead(r, s, i) && forall j | 0 <= j < i :: Agree(r, s, j);
      assert FirstDiffer(a, b, i);
    }
  }

  // ----- findManifest -------------------------------------------------------

  predicate InUse(rows: seq<Row>, col: Column) {
    exists i :: 0 <= i < |rows| && rows[i].Get(col) != Null
  }

  /** The columns with a value in some row, in the order of the schema. */
  function ColumnsInUse(cols: seq<Column>, rows: seq<Row>): (r: seq<Column>)
    ensures forall col :: col in r <==> col in cols && InUse(rows, col)
  {
    if cols == [] then []
    else
      var n := |cols| - 1;
      ColumnsInUse(cols[..n], rows) + if InUse(rows, cols[n]) then [cols[n]] else []
  }

  /** getCriteria(strip=False): the columns, or only those with a value in some row. */
  method GetCriteria(cols: seq<Column>, rows: seq<Row>, onlyUsed: bool) returns (r: seq<Column>)
    ensures r == if onlyUsed then ColumnsInUse(cols, rows) else cols
  {
    if !onlyUsed {
      return cols;
    }
    r := [];
    for k := 0 to |cols|
      invariant r == ColumnsInUse(cols[..k], rows)
    {
      var count := 0;
      for j := 0 to |rows|
        invariant count > 0 <==> exists i :: 0 <= i < j && rows[i].Get(cols[k]) != Null
        invariant 0 <= count
      {
        if rows[j].Get(cols[k]) != Null {
          count := count + 1;
        }
      }
      assert cols[..k + 1][..k] == cols[..k];
      if count > 0 {
        r := r + [cols[k]];
      }
    }
    assert cols[..|cols|] == cols;
  }

  /** ORDER BY .. desc LIMIT 1: some selected row that no selected row outranks. */
  method SelectFirst(q: Query, rows: seq<Row>) returns (best: Option<Row>)
    ensures best.None? <==> forall i | 0 <= i < |rows| :: !Selects(q, rows[i])
    ensures best.Some? ==>
              && best.value in rows && Selects(q, best.value)
              && forall r | r in rows && Selects(q, r) :: !Outranks(r, best.value)
  {
    best := None;
    for k := 0 to |rows|
      invariant best.None? <==> forall i | 0 <= i < k :: !Selects(q, rows[i])
      invariant best.Some? ==>
                  && best.value in rows && Selects(q, best.value)
                  && forall i | 0 <= i < k && Selects(q, rows[i]) :: KeyLeq(Key(rows[i]), Key(best.value))
    {
      if Selects(q, rows[k]) {
        KeyTotal(Key(rows[k]), Key(rows[k]));
        if best.None? {
          best := Some(rows[k]);
        } else {
          KeyTotal(Key(rows[k]), Key(best.value));
          if !KeyLeq(Key(rows[k]), Key(best.value)) {
            forall i | 0 <= i < k && Selects(q, rows[i])
              ensures KeyLeq(Key(rows[i]), Key(rows[k]))
            {
              KeyTransitive(Key(rows[i]), Key(best.value), Key(rows[k]));
            }
            best := Some(rows[k]);
          }
        }
      }
    }
    if best.Some? {
      forall r | r in rows && Selects(q, r)
        ensures !Outranks(r, best.value)
      {
        RankingMeans(r, best.value);
      }
    }
  }

  /** A row that suits the client and that no other suitable row outranks. */
  ghost predicate IsBest(cols: seq<Column>, rows: seq<Row>, client: Client, row: Row) {
    && row in rows && Matches(cols, row, client)
    && forall r | r in rows && Matches(cols, r, client) :: !Outranks(r, row)
  }

  /** The manifest names findManifest may answer with. */
  ghost predicate IsAnswer(cols: seq<Column>, rows: seq<Row>, client: Client, answer: Option<string>) {
    match answer
    case None => forall r | r in rows :: !Matches(cols, r, client)
    case Some(name) => exists r :: IsBest(cols, rows, client, r) && r.name == name
  }

  method FindManifest(cols: seq<Column>, rows: seq<Row>, client: Client) returns (answer: Option<string>)
    requires ValidSchema(cols) && WellTypedTable(cols, rows)
    ensures IsAnswer(cols, rows, client, answer)
  {
    if client == map[] {
      forall r | r in rows
        ensures !Matches(cols, r, client)
      {
        assert forall c: string :: r.Constrains(c) ==> !Satisfies(cols, r, client, c);
      }
      return None;
    }
    var criteriaSet := GetCriteria(cols, rows, true);
    if |criteriaSet| == 0 {
      forall r | r in rows
        ensures !Matches(cols, r, client)
      {
        assert forall col | col in cols :: !InUse(rows, col);
        assert forall col: Column :: r.Get(col) == Null;
      }
      return None;
    }
    var allCriteria := GetCriteria(cols, rows, false);
    var q := BuildQuery(client, criteriaSet, Some(allCriteria));
    var best := SelectFirst(q, rows);
    forall r | r in rows
      ensures Selects(q, r) <==> Matches(cols, r, client)
    {
      assert forall col | col in cols && r.Get(col) != Null :: InUse(rows, col);
      QuerySelectsMatches(cols, criteriaSet, r, client, q);
    }
    if best.Some? {
      assert IsBest(cols, rows, client, best.value);
      return Some(best.value.name);
    }
    return None;
  }
}
