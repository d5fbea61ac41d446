/** Why admission control matters to findManifest: among rows that are pairwise apart the
    ORDER BY .. LIMIT 1 answer does not depend on the order of the table. */
module BestMatch {
  import opened Text
  import opened CriteriaDatabase
  import opened Admission

  /** No client within the numeric bound suits both rows, unless they constrain different criteria. */
  ghost predicate Apart(cols: seq<Column>, r: Row, s: Row) {
    SameConstraints(r, s) ==>
      forall client: Client | WithinInfinity(cols, client) :: !(Matches(cols, r, client) && Matches(cols, s, client))
  }

  /** Rows of different names are apart. */
  ghost predicate Unambiguous(cols: seq<Column>, rows: seq<Row>) {
    forall r, s | r in rows && s in rows && r.name != s.name :: Apart(cols, r, s)
  }

  /** The schema has the columns that the ORDER BY clause names: four ranges and three values. */
  ghost predicate HasRankedColumns(cols: seq<Column>) {
    forall i | 0 <= i < |RANKED| :: i < 2 || i > 4 <==> MinOf(RANKED[i]) in cols
  }

  lemma RangeInitial(c: string)
    ensures MinOf(c) in MANIFEST_COLUMNS ==> c != "" && (c[0] == 'm' || c[0] == 'i' || c[0] == 'n')
  {
    forall j: nat | j < |MANIFEST_COLUMNS| {
      ManifestColumnAt(j);
    }
  }

  lemma ManifestColumnsAreRanked()
    ensures HasRankedColumns(MANIFEST_COLUMNS)
  {
    var s := MANIFEST_COLUMNS;
    assert s[2] == MinOf(RANKED[0]) && s[4] == MinOf(RANKED[1]) && s[8] == MinOf(RANKED[5]) && s[10] == MinOf(RANKED[6]);
    RangeInitial(RANKED[2]);
    RangeInitial(RANKED[3]);
    RangeInitial(RANKED[4]);
    assert RANKED[2][0] == 'p' && RANKED[3][0] == 'a' && RANKED[4][0] == 'c';
  }

  /** The ranked criterion is one that the rows constrain. */
  lemma RestrictsIsConstrains(cols: seq<Column>, r: Row, i: nat)
    requires ValidSchema(cols) && HasRankedColumns(cols) && WellTyped(cols, r) && i < |RANKED|
    ensures Restricts(r, i) <==> r.Constrains(RANKED[i])
  {
    var c := RANKED[i];
    assert WellTypedCell(ValueOf(c), r.Get(ValueOf(c)));
    if i < 2 || i > 4 {
      assert ValueOf(c) !in cols;
    } else {
      assert MaxOf(c) !in cols && MinOf(c) !in cols;
    }
  }

  /** The best match constrains the first ranked criterion in which it does not agree with another
      suitable row; if both constrain it, it is a value and the best match has the greater text. */
  lemma FirstDifferenceDecides(cols: seq<Column>, rows: seq<Row>, client: Client, r: Row, s: Row, i: nat)
    requires ValidSchema(cols) && HasRankedColumns(cols) && WellTypedTable(cols, rows)
    requires IsBest(cols, rows, client, r) && s in rows && Matches(cols, s, client)
    requires i < |RANKED| && !Agree(s, r, i) && forall j | 0 <= j < i :: Agree(s, r, j)
    ensures r.Constrains(RANKED[i])
    ensures s.Constrains(RANKED[i]) ==>
              var v, w := r.Get(ValueOf(RANKED[i])), s.Get(ValueOf(RANKED[i]));
              v.Word? && w.Word? && v.text != w.text && LexLeq(w.text, v.text)
  {
    RestrictsIsConstrains(cols, r, i);
    RestrictsIsConstrains(cols, s, i);
    assert !Outranks(s, r) && !Ahead(s, r, i);
    if Restricts(r, i) && Restricts(s, i) {
      LexTotal(r.Get(ValueOf(RANKED[i])).text, s.Get(ValueOf(RANKED[i])).text);
    }
  }

  /** A manifest for a range of MAC addresses goes before one for none, whatever else they constrain. */
  lemma MacGoesFirst(cols: seq<Column>, rows: seq<Row>, client: Client, r: Row, s: Row)
    requires ValidSchema(cols) && HasRankedColumns(cols) && WellTypedTable(cols, rows)
    requires IsBest(cols, rows, client, r) && s in rows && Matches(cols, s, client) && s.Constrains("mac")
    ensures r.Constrains("mac")
  {
    assert RANKED[0] == "mac";
    RestrictsIsConstrains(cols, r, 0);
    RestrictsIsConstrains(cols, s, 0);
    if !r.Constrains("mac") {
      FirstDifferenceDecides(cols, rows, client, r, s, 0);
    }
  }

  /** Neither row outranks the other. */
  predicate Tie(r: Row, s: Row) {
    !Outranks(r, s) && !Outranks(s, r)
  }

  /** Rows tie exactly if they agree in every ranked criterion. */
  lemma TieExactly(r: Row, s: Row)
    ensures Tie(r, s) <==> Key(r) == Key(s)
    ensures Tie(r, s) <==> forall i | 0 <= i < 7 :: Agree(r, s, i)
  {
    RankingMeans(r, s);
    RankingMeans(s, r);
    KeyTotal(Key(r), Key(r));
    if Tie(r, s) {
      KeyAntisymmetric(Key(r), Key(s));
    }
    forall i: nat | i < 7
      ensures Key(r)[i] == Key(s)[i] <==> Agree(r, s, i)
    {
      TermMeans(r, s, i);
    }
  }

  /** Equal keys mean equal constraint on each of the seven ranked criteria. */
  lemma EqualKeysEqualConstraints(cols: seq<Column>, r: Row, s: Row, c: string)
    requires ValidSchema(cols) && HasRankedColumns(cols) && WellTyped(cols, r) && WellTyped(cols, s)
    requires Key(r) == Key(s) && c in RANKED
    ensures r.Constrains(c) <==> s.Constrains(c)
  {
    var i :| 0 <= i < |RANKED| && RANKED[i] == c;
    TermMeans(r, s, i);
    RestrictsIsConstrains(cols, r, i);
    RestrictsIsConstrains(cols, s, i);
  }

  /** Two rows of different names that tie for the best match differ in a criterion that the ranking leaves out. */
  lemma TieNeedsUnrankedCriterion(cols: seq<Column>, rows: seq<Row>, client: Client, r: Row, s: Row)
    requires ValidSchema(cols) && HasRankedColumns(cols) && WellTypedTable(cols, rows)
    requires Unambiguous(cols, rows) && WithinInfinity(cols, client)
    requires r in rows && s in rows && r.name != s.name && Matches(cols, r, client) && Matches(cols, s, client)
    requires Tie(r, s)
    ensures exists c: string :: c !in RANKED && r.Constrains(c) != s.Constrains(c)
  {
    TieExactly(r, s);
    assert Apart(cols, r, s);
    assert !SameConstraints(r, s);
    var c: string :| r.Constrains(c) != s.Constrains(c);
    if c in RANKED {
      EqualKeysEqualConstraints(cols, r, s, c);
      assert false;
    }
  }

  /** Every criterion that some row constrains is in the set. */
  ghost predicate OnlyUses(rows: seq<Row>, used: set<string>) {
    forall r, c: string | r in rows && r.Constrains(c) :: c in used
  }

  /** The criteria are all ranked, or there is at most one of them. */
  predicate Decisive(used: set<string>) {
    (forall u | u in used :: u in RANKED) || (forall u, v | u in used && v in used :: u == v)
  }

  /** Rows that suit a client constrain something, so rows over one criterion constrain the same. */
  lemma OneCriterionSuits(cols: seq<Column>, rows: seq<Row>, used: set<string>, client: Client, r: Row, s: Row)
    requires Unambiguous(cols, rows) && WithinInfinity(cols, client) && OnlyUses(rows, used)
    requires forall u, v | u in used && v in used :: u == v
    requires r in rows && s in rows && Matches(cols, r, client) && Matches(cols, s, client)
    ensures r.name == s.name
  {
    var c: string :| r.Constrains(c);
    var d: string :| s.Constrains(d);
    assert c == d;
    assert SameConstraints(r, s);
    assert r.name != s.name ==> Apart(cols, r, s);
  }

  /** The best match outranks every suitable row of another name. */
  lemma BestMatchIsStrict(cols: seq<Column>, rows: seq<Row>, used: set<string>, client: Client, r: Row, s: Row)
    requires ValidSchema(cols) && HasRankedColumns(cols) && WellTypedTable(cols, rows)
    requires Unambiguous(cols, rows) && WithinInfinity(cols, client)
    requires OnlyUses(rows, used) && Decisive(used)
    requires IsBest(cols, rows, client, r) && s in rows && Matches(cols, s, client) && s.name != r.name
    ensures Outranks(r, s)
  {
    if forall u, v | u in used && v in used :: u == v {
      OneCriterionSuits(cols, rows, used, client, r, s);
      assert false;
    } else if !Outranks(r, s) {
      TieNeedsUnrankedCriterion(cols, rows, client, r, s);
      assert false;
    }
  }

  ghost predicate Suitable(cols: seq<Column>, rows: seq<Row>, client: Client) {
    exists r :: r in rows && Matches(cols, r, client)
  }

  lemma AnsweredIfSuitable(cols: seq<Column>, rows: seq<Row>, client: Client, answer: Option<string>)
    requires IsAnswer(cols, rows, client, answer)
    ensures answer.Some? <==> Suitable(cols, rows, client)
  {}

  /** findManifest gives one answer per client, whatever the order of the rows. */
  lemma AnswerIsDeterministic(cols: seq<Column>, rows: seq<Row>, rows': seq<Row>, used: set<string>, client: Client,
                              a: Option<string>, b: Option<string>)
    requires ValidSchema(cols) && HasRankedColumns(cols) && WellTypedTable(cols, rows)
    requires Unambiguous(cols, rows) && WithinInfinity(cols, client)
    requires OnlyUses(rows, used) && Decisive(used)
    requires forall r :: r in rows <==> r in rows'
    requires IsAnswer(cols, rows, client, a) && IsAnswer(cols, rows', client, b)
    ensures a == b
  {
    AnsweredIfSuitable(cols, rows, client, a);
    AnsweredIfSuitable(cols, rows', client, b);
    assert Suitable(cols, rows, client) == Suitable(cols, rows', client);
    if a.Some? {
      var r :| IsBest(cols, rows, client, r) && r.name == a.value;
      var s :| IsBest(cols, rows', client, s) && s.name == b.value;
      if r.name != s.name {
        BestMatchIsStrict(cols, rows, used, client, r, s);
        assert false;
      }
    }
  }
}
