/** Exactly when findManifest has one answer after every run: for criteria that are all ranked, or only
    one; else two published manifests tie. */
module Ties {
  import opened Text
  import opened CriteriaDatabase
  import opened PublishManifest
  import opened Encodings
  import opened Admission
  import opened LostWords
  import opened BestMatch
  import opened InstanceNumbers
  import opened ManifestTable
  import opened ManifestRuns

  /** Criterion names are lower case and have no comma, so that no column is found in another's token. */
  predicate PlainName(c: string) {
    forall i | 0 <= i < |c| :: c[i] != ',' && !('A' <= c[i] <= 'Z')
  }

  ghost predicate PlainNames(cols: seq<Column>) {
    forall col | col in cols :: PlainName(col.crit)
  }

  predicate InSchema(cols: seq<Column>, c: string) {
    MinOf(c) in cols || ValueOf(c) in cols
  }

  // ----- a sample of each criterion ------------------------------------------------------------

  predicate SampleMac(mac: string) {
    |mac| == 12 && IsUpperHex(mac) && SanitizeSQL(mac) == mac && IsWord(mac) && mac != "unbounded"
  }

  function SampleText(cols: seq<Column>, c: string, mac: string): string {
    if MinOf(c) in cols && c == "mac" then mac else "1"
  }

  /** A value, or a range without a maximum. */
  function Sample(cols: seq<Column>, c: string, mac: string): Criterion {
    Criterion(c, if MinOf(c) in cols then [SampleText(cols, c, mac), "unbounded"] else ["1"])
  }

  function OneSample(cols: seq<Column>, c: string, mac: string): Criteria {
    [Sample(cols, c, mac)]
  }

  function TwoSamples(cols: seq<Column>, u: string, c: string, mac: string): Criteria {
    [Sample(cols, u, mac), Sample(cols, c, mac)]
  }

  function SampleClient(cols: seq<Column>, u: string, c: string, mac: string): Client {
    map[u := SampleText(cols, u, mac), c := SampleText(cols, c, mac)]
  }

  lemma OneText()
    ensures IsNumeral("1", 10) && Parse("1", 10) == Some(1) && IsWord("1") && SanitizeSQL("1") == "1" && Upper("1") == "1"
    ensures Decimal(1) == "1" && "1" != "unbounded"
  {
    assert "1"[..0] == "";
    assert Value("1", 10) == Value("1"[..0], 10) * 10 + 1;
    NumeralIsClean("1", 10);
  }

  lemma SampleIsPrepared(cols: seq<Column>, c: string, mac: string)
    requires SampleMac(mac)
    ensures Prepared(cols, [Sample(cols, c, mac)])
  {
    OneText();
    assert IsNumeral(mac, 16);
  }

  /** What the sample stores for its own columns. */
  lemma SampleCells(cols: seq<Column>, c: string, mac: string)
    requires ValidSchema(cols) && InSchema(cols, c) && SampleMac(mac)
    ensures MinOf(c) in cols ==>
              && BoundCell(c, SampleText(cols, c, mac)) == (if c == "mac" then Hex(mac) else Number(1))
              && BoundCell(c, "unbounded") == Null
    ensures MinOf(c) !in cols ==> StoredText(["1"]) == "1"
  {
    OneText();
    UpperTwice(mac);
    assert forall i | 0 <= i < |mac| :: UpperChar(mac[i]) == mac[i];
    assert Upper(mac) == mac;
  }

  lemma SampleRange(c: string, text: string, mac: string)
    requires SampleMac(mac) && text == if c == "mac" then mac else "1"
    ensures GivenRange(c, [text, "unbounded"]).Ok?
  {
    OneText();
    InfinityValues(c);
    if c == "mac" {
      TwelveHexDigits(mac);
      assert Upper(mac) == mac;
    }
  }

  lemma SampleIsChecked(cols: seq<Column>, c: string, mac: string)
    requires ValidSchema(cols) && InSchema(cols, c) && SampleMac(mac)
    ensures CheckCriterion(cols, c, Sample(cols, c, mac).values).Ok?
  {
    if MinOf(c) in cols {
      SampleRange(c, SampleText(cols, c, mac), mac);
    }
  }

  lemma OneSampleGet(cols: seq<Column>, c: string, mac: string, d: string)
    ensures GetCriterion(OneSample(cols, c, mac), d) == if d == c then Some(Sample(cols, c, mac).values) else None
  {
    assert OneSample(cols, c, mac)[1..] == [];
  }

  lemma TwoSamplesGet(cols: seq<Column>, u: string, c: string, mac: string, d: string)
    ensures GetCriterion(TwoSamples(cols, u, c, mac), d) ==
            if d == u then Some(Sample(cols, u, mac).values) else GetCriterion(OneSample(cols, c, mac), d)
  {
    assert TwoSamples(cols, u, c, mac)[1..] == OneSample(cols, c, mac);
  }

  /** Criteria whose values are samples keep their words. */
  lemma SamplesAreKept(cols: seq<Column>, criteria: Criteria)
    requires forall d: string | ValueOf(d) in cols && GetCriterion(criteria, d).Some? :: GetCriterion(criteria, d).value == ["1"]
    ensures Safeguarded(cols, criteria)
  {
    OneText();
    forall d: string | ValueOf(d) in cols && GetCriterion(criteria, d).Some?
      ensures WordsKept(d, GetCriterion(criteria, d).value)
    {
      CleanWordsAreKept(d, ["1"]);
    }
    KeptIsSafeguarded(cols, criteria);
  }

  lemma OneSampleIsGood(cols: seq<Column>, c: string, mac: string)
    requires ValidSchema(cols) && InSchema(cols, c) && SampleMac(mac)
    ensures Prepared(cols, OneSample(cols, c, mac)) && Checked(cols, OneSample(cols, c, mac))
    ensures Safeguarded(cols, OneSample(cols, c, mac)) && NamesOf(OneSample(cols, c, mac)) == {c}
  {
    SampleIsPrepared(cols, c, mac);
    SampleIsChecked(cols, c, mac);
    OneSampleGet(cols, c, mac, c);
    forall d: string
      ensures GetCriterion(OneSample(cols, c, mac), d) == if d == c then Some(Sample(cols, c, mac).values) else None
    {
      OneSampleGet(cols, c, mac, d);
    }
    SamplesAreKept(cols, OneSample(cols, c, mac));
  }

  lemma TwoSamplesArePrepared(cols: seq<Column>, u: string, c: string, mac: string)
    requires SampleMac(mac)
    ensures Prepared(cols, TwoSamples(cols, u, c, mac))
  {
    SampleIsPrepared(cols, u, mac);
    SampleIsPrepared(cols, c, mac);
    assert Prepared(cols, [Sample(cols, u, mac)]) && Prepared(cols, [Sample(cols, c, mac)]);
    assert [Sample(cols, u, mac)][0] == TwoSamples(cols, u, c, mac)[0];
    assert [Sample(cols, c, mac)][0] == TwoSamples(cols, u, c, mac)[1];
  }

  lemma TwoSamplesAreChecked(cols: seq<Column>, u: string, c: string, mac: string)
    requires ValidSchema(cols) && InSchema(cols, u) && InSchema(cols, c) && u != c && SampleMac(mac)
    requires Prepared(cols, TwoSamples(cols, u, c, mac))
    ensures Checked(cols, TwoSamples(cols, u, c, mac)) && NamesOf(TwoSamples(cols, u, c, mac)) == {u, c}
  {
    var criteria := TwoSamples(cols, u, c, mac);
    SampleIsChecked(cols, u, mac);
    SampleIsChecked(cols, c, mac);
    TwoSamplesGet(cols, u, c, mac, u);
    TwoSamplesGet(cols, u, c, mac, c);
    OneSampleGet(cols, c, mac, c);
    assert criteria[0].name == u && criteria[1].name == c;
  }

  lemma TwoSamplesAreGood(cols: seq<Column>, u: string, c: string, mac: string)
    requires ValidSchema(cols) && InSchema(cols, u) && InSchema(cols, c) && u != c && SampleMac(mac)
    ensures Prepared(cols, TwoSamples(cols, u, c, mac)) && Checked(cols, TwoSamples(cols, u, c, mac))
    ensures Safeguarded(cols, TwoSamples(cols, u, c, mac)) && NamesOf(TwoSamples(cols, u, c, mac)) == {u, c}
  {
    TwoSamplesArePrepared(cols, u, c, mac);
    TwoSamplesAreChecked(cols, u, c, mac);
    forall d: string
      ensures GetCriterion(TwoSamples(cols, u, c, mac), d).Some? ==>
                GetCriterion(TwoSamples(cols, u, c, mac), d).value == Sample(cols, d, mac).values
    {
      TwoSamplesGet(cols, u, c, mac, d);
      OneSampleGet(cols, c, mac, d);
    }
    SamplesAreKept(cols, TwoSamples(cols, u, c, mac));
  }

  // ----- both are published ------------------------------------------------------------------------

  lemma AdmittedFirst(cols: seq<Column>, criteria: Criteria)
    requires Prepared(cols, criteria) && Checked(cols, criteria)
    ensures Admitted(cols, criteria, [], {})
  {
    forall k | 0 <= k < |criteria|
      ensures MeetsNoRow(cols, criteria[k].name, GetCriterion(criteria, criteria[k].name).value, [], {})
    {
    }
    DisjointIsAdmitted(cols, criteria, [], {});
  }

  /** A range's tokens hold the token of a MIN column only at their start. */
  lemma TokenAtStart(u: string, c: string, i: nat)
    requires PlainName(c) && OccursAt(RangeTokens(c), "MIN" + u + ",", i)
    ensures i == 0
  {
    var sub, tokens := "MIN" + u + ",", RangeTokens(c);
    OccursChar(tokens, sub, i, 0);
    OccursChar(tokens, sub, i, 1);
    assert sub[0] == 'M' && sub[1] == 'I';
    assert tokens == "MIN" + (c + ("," + ("MAX" + (c + ","))));
  }

  /** And there it is their own. */
  lemma TokenOfItself(u: string, c: string)
    requires PlainName(u) && PlainName(c) && OccursAt(RangeTokens(c), "MIN" + u + ",", 0)
    ensures u == c
  {
    var tokens, a, b := RangeTokens(c), "MIN" + u, "MIN" + c;
    var rest := tokens[|a| + 1..];
    assert tokens[0..0 + |a + ","|] == a + ",";
    assert tokens == a + ("," + rest) && tokens == b + ("," + ("MAX" + (c + ",")));
    IndexOfAfter(a, "," + rest, ',');
    IndexOfAfter(b, "," + ("MAX" + (c + ",")), ',');
    assert tokens[..|a|] == a && tokens[..|b|] == b;
    assert a[3..] == u && b[3..] == c;
  }

  /** The token of one column is in the tokens of no other criterion. */
  lemma TokenIsOwn(u: string, c: string, tokens: string)
    requires PlainName(u) && PlainName(c) && u != c && (tokens == "" || tokens == c + "," || tokens == RangeTokens(c))
    ensures !Contains(tokens, MinOf(u).Name() + ",")
  {
    var sub := "MIN" + u + ",";
    assert sub == MinOf(u).Name() + "," && sub[0] == 'M';
    forall i | 0 <= i <= |tokens|
      ensures !OccursAt(tokens, sub, i)
    {
      OccursChar(tokens, sub, i, 0);
      if tokens == RangeTokens(c) && OccursAt(tokens, sub, i) {
        TokenAtStart(u, c, i);
        TokenOfItself(u, c);
        assert false;
      }
    }
  }

  lemma SampleTokens(cols: seq<Column>, c: string, mac: string, row: Row)
    ensures var tokens := Tokens(cols, c, Sample(cols, c, mac).values, row);
            tokens == "" || tokens == c + "," || tokens == RangeTokens(c)
  {
    if MinOf(c) !in cols && row.Get(ValueOf(c)).Word? {
      assert ValueTokens(c, [], row.Get(ValueOf(c)).text) == "" && ["1"][..0] == [];
      assert "" + (c + ",") == c + "," && "" + "" == "";
    }
  }

  /** The first of the two criteria meets nothing in a row that has only the second. */
  lemma TwoCollisions(cols: seq<Column>, u: string, c: string, mac: string, row: Row)
    requires ValidSchema(cols) && InSchema(cols, u) && InSchema(cols, c) && u != c && SampleMac(mac)
    requires row.Get(MinOf(u)) == Null && row.Get(MaxOf(u)) == Null && row.Get(ValueOf(u)) == Null
    requires Prepared(cols, TwoSamples(cols, u, c, mac))
    ensures CollisionsUpTo(cols, TwoSamples(cols, u, c, mac), 2, [row], {}) ==
            Ok(AddToken(map[], (row.name, row.inst), Tokens(cols, c, Sample(cols, c, mac).values, row)))
  {
    var criteria := TwoSamples(cols, u, c, mac);
    TwoSamplesGet(cols, u, c, mac, u);
    TwoSamplesGet(cols, u, c, mac, c);
    OneSampleGet(cols, c, mac, c);
    SampleIsChecked(cols, u, mac);
    SampleIsChecked(cols, c, mac);
    CollisionsNext(cols, criteria, 0, [row], {});
    CollisionsNext(cols, criteria, 1, [row], {});
    OneRow(cols, u, Sample(cols, u, mac).values, row, map[]);
    OneRow(cols, c, Sample(cols, c, mac).values, row, map[]);
    assert Tokens(cols, u, Sample(cols, u, mac).values, row) == "";
  }

  lemma SampleIsSpelled(cols: seq<Column>, u: string, c: string, mac: string, col: Column)
    requires ValidSchema(cols) && col in cols && !col.ValueOf? && u != c
    ensures Spelled(TwoSamples(cols, u, c, mac), col)
  {
    TwoSamplesGet(cols, u, c, mac, col.crit);
    OneSampleGet(cols, c, mac, col.crit);
    OneText();
    assert MinOf(col.crit) in cols;
    assert Canonical("1") && Canonical("unbounded");
  }

  lemma FirstStops(cols: seq<Column>, u: string, c: string, mac: string, row: Row, collided: string)
    requires InSchema(cols, u) && row.Get(MinOf(u)) == Null && row.Get(ValueOf(u)) == Null
    requires !Contains(collided, MinOf(u).Name() + ",") && SampleMac(mac)
    ensures WalkStep(TwoSamples(cols, u, c, mac), row, collided, if MinOf(u) in cols then MinOf(u) else ValueOf(u)) == Stop
  {
    TwoSamplesGet(cols, u, c, mac, u);
    OneText();
  }

  lemma NoOtherRaises(cols: seq<Column>, u: string, c: string, mac: string, row: Row, collided: string, col: Column)
    requires ValidSchema(cols) && u != c && Prepared(cols, TwoSamples(cols, u, c, mac)) && col in cols
    requires col.crit != u ==> row.Get(col) == StoredCell(TwoSamples(cols, u, c, mac), col)
    requires row.Get(MinOf(u)) == Null && row.Get(MaxOf(u)) == Null
    requires !Contains(collided, MinOf(u).Name() + ",") && SampleMac(mac)
    ensures WalkStep(TwoSamples(cols, u, c, mac), row, collided, col) != Raise
  {
    var criteria := TwoSamples(cols, u, c, mac);
    if !col.ValueOf? {
      if col.crit != u {
        SampleIsSpelled(cols, u, c, mac, col);
        SpelledIsShown(cols, criteria, col);
        ShownGoesOn(criteria, row, collided, col);
      } else if col.MaxOf? {
        TwoSamplesGet(cols, u, c, mac, u);
        assert GivenFor(criteria, col) == Absent;
        ShownGoesOn(criteria, row, collided, col);
      }
    }
  }

  /** The two samples beside the row of the second: the walk goes on, or stops, before the column of
      the first, and stops there. */
  lemma TwoDiverge(cols: seq<Column>, u: string, c: string, mac: string, row: Row, collided: string)
    requires ValidSchema(cols) && InSchema(cols, u) && u != c && Prepared(cols, TwoSamples(cols, u, c, mac))
    requires forall col | col in cols && col.crit != u :: row.Get(col) == StoredCell(TwoSamples(cols, u, c, mac), col)
    requires row.Get(MinOf(u)) == Null && row.Get(MaxOf(u)) == Null && row.Get(ValueOf(u)) == Null
    requires !Contains(collided, MinOf(u).Name() + ",") && SampleMac(mac)
    ensures Walk(cols, TwoSamples(cols, u, c, mac), row, collided, 0) == Diverges
  {
    var criteria := TwoSamples(cols, u, c, mac);
    var first := if MinOf(u) in cols then MinOf(u) else ValueOf(u);
    var j :| 0 <= j < |cols| && cols[j] == first;
    var steps := Steps(cols, criteria, row, collided);
    FirstStops(cols, u, c, mac, row, collided);
    forall k | 0 <= k < j
      ensures steps[k] != Raise
    {
      assert cols[k] in cols;
      NoOtherRaises(cols, u, c, mac, row, collided, cols[k]);
    }
    StopDiverges(steps, j);
    WalkOfSteps(cols, criteria, row, collided, 0);
    assert steps[0..] == steps;
  }

  lemma SecondIsAdmitted(cols: seq<Column>, u: string, c: string, mac: string, row: Row)
    requires ValidSchema(cols) && InSchema(cols, u) && InSchema(cols, c) && u != c && SampleMac(mac)
    requires PlainName(u) && PlainName(c) && Prepared(cols, TwoSamples(cols, u, c, mac))
    requires forall col | col in cols && col.crit != u :: row.Get(col) == StoredCell(TwoSamples(cols, u, c, mac), col)
    requires row.Get(MinOf(u)) == Null && row.Get(MaxOf(u)) == Null && row.Get(ValueOf(u)) == Null
    ensures Admitted(cols, TwoSamples(cols, u, c, mac), [row], {})
  {
    var criteria := TwoSamples(cols, u, c, mac);
    var tokens := Tokens(cols, c, Sample(cols, c, mac).values, row);
    TwoCollisions(cols, u, c, mac, row);
    SampleTokens(cols, c, mac, row);
    TokenIsOwn(u, c, tokens);
    TwoDiverge(cols, u, c, mac, row, tokens);
    forall key | key in AddToken(map[], (row.name, row.inst), tokens)
      ensures VerdictOn(cols, criteria, [row], AddToken(map[], (row.name, row.inst), tokens), key) == Diverges
    {
      OneRowVerdict(cols, criteria, row, AddToken(map[], (row.name, row.inst), tokens), key);
    }
  }

  // ----- both suit one client --------------------------------------------------------------------

  lemma SampleSuits(cols: seq<Column>, row: Row, client: Client, c: string, mac: string)
    requires ValidSchema(cols) && InSchema(cols, c) && SampleMac(mac)
    requires c in client && client[c] == SampleText(cols, c, mac)
    requires MinOf(c) in cols ==> row.Get(MaxOf(c)) == Null && row.Get(MinOf(c)) == (if c == "mac" then Hex(mac) else Number(1))
    requires MinOf(c) !in cols ==> row.Get(ValueOf(c)) == Word("1")
    ensures row.Constrains(c) && Satisfies(cols, row, client, c)
  {
    OneText();
    OneWordList(c, "1", "1");
    LexTotal(mac, mac);
    assert Upper(mac) == mac;
  }

  /** Every criterion given is a sample, and the client has its value. */
  ghost predicate Sampled(cols: seq<Column>, criteria: Criteria, client: Client, mac: string) {
    forall d: string | GetCriterion(criteria, d).Some? ::
      && GetCriterion(criteria, d).value == Sample(cols, d, mac).values && InSchema(cols, d)
      && d in client && client[d] == SampleText(cols, d, mac)
  }

  lemma StoredSample(cols: seq<Column>, criteria: Criteria, row: Row, client: Client, mac: string, d: string)
    requires ValidSchema(cols) && SampleMac(mac) && Sampled(cols, criteria, client, mac)
    requires row.cells == StoredCells(cols, criteria)
    ensures if GetCriterion(criteria, d).Some? then row.Constrains(d) && Satisfies(cols, row, client, d) else !row.Constrains(d)
  {
    StoredGet(cols, criteria, row, MinOf(d));
    StoredGet(cols, criteria, row, MaxOf(d));
    StoredGet(cols, criteria, row, ValueOf(d));
    if GetCriterion(criteria, d).Some? {
      SampleCells(cols, d, mac);
      assert Join(["1"]) == "1";
      SampleSuits(cols, row, client, d, mac);
    }
  }

  lemma SamplesSuit(cols: seq<Column>, criteria: Criteria, row: Row, client: Client, mac: string, c: string)
    requires ValidSchema(cols) && SampleMac(mac) && Sampled(cols, criteria, client, mac)
    requires row.cells == StoredCells(cols, criteria) && GetCriterion(criteria, c).Some?
    ensures Matches(cols, row, client)
  {
    StoredSample(cols, criteria, row, client, mac, c);
    forall d: string
      ensures Satisfies(cols, row, client, d)
    {
      StoredSample(cols, criteria, row, client, mac, d);
    }
  }

  lemma SamplesOf(cols: seq<Column>, u: string, c: string, mac: string)
    requires InSchema(cols, u) && InSchema(cols, c) && u != c
    ensures Sampled(cols, OneSample(cols, c, mac), SampleClient(cols, u, c, mac), mac)
    ensures Sampled(cols, TwoSamples(cols, u, c, mac), SampleClient(cols, u, c, mac), mac)
  {
    forall d: string
      ensures GetCriterion(OneSample(cols, c, mac), d) == if d == c then Some(Sample(cols, c, mac).values) else None
      ensures GetCriterion(TwoSamples(cols, u, c, mac), d) ==
              if d == u then Some(Sample(cols, u, mac).values) else if d == c then Some(Sample(cols, c, mac).values) else None
    {
      OneSampleGet(cols, c, mac, d);
      TwoSamplesGet(cols, u, c, mac, d);
    }
  }

  lemma SampleWithinInfinity(cols: seq<Column>, u: string, c: string, mac: string)
    requires SampleMac(mac)
    ensures WithinInfinity(cols, SampleClient(cols, u, c, mac))
  {
    OneText();
  }

  lemma SameStored(cols: seq<Column>, u: string, c: string, mac: string, r: Row, s: Row, col: Column)
    requires r.cells == StoredCells(cols, OneSample(cols, c, mac)) && s.cells == StoredCells(cols, TwoSamples(cols, u, c, mac))
    ensures col.crit != u ==> r.Get(col) == s.Get(col)
    ensures col in cols && col.crit != u ==> r.Get(col) == StoredCell(TwoSamples(cols, u, c, mac), col)
    ensures col.crit == u && u != c ==> r.Get(col) == Null
  {
    StoredGet(cols, OneSample(cols, c, mac), r, col);
    StoredGet(cols, TwoSamples(cols, u, c, mac), s, col);
    OneSampleGet(cols, c, mac, col.crit);
    TwoSamplesGet(cols, u, c, mac, col.crit);
  }

  /** A criterion that is not ranked adds nothing to the key. */
  lemma UnrankedKey(cols: seq<Column>, u: string, c: string, mac: string, r: Row, s: Row)
    requires u !in RANKED
    requires r.cells == StoredCells(cols, OneSample(cols, c, mac)) && s.cells == StoredCells(cols, TwoSamples(cols, u, c, mac))
    ensures Key(r) == Key(s)
  {
    forall i | 0 <= i < 7
      ensures Key(r)[i] == Key(s)[i]
    {
      var d := RANKED[i];
      assert d != u;
      KeyTermAt(r, i);
      KeyTermAt(s, i);
      SameStored(cols, u, c, mac, r, s, MinOf(d));
      SameStored(cols, u, c, mac, r, s, MaxOf(d));
      SameStored(cols, u, c, mac, r, s, ValueOf(d));
    }
  }

  // ----- the run that ends in a tie ----------------------------------------------------------------

  function TieRun(cols: seq<Column>, u: string, c: string, mac: string): seq<Command> {
    [Create("a", OneSample(cols, c, mac), false), Create("b", TwoSamples(cols, u, c, mac), false)]
  }

  lemma PlainFileNames()
    ensures SanitizeSQL("a") == "a" && SanitizeSQL("b") == "b" && "a" != "b"
  {
    SanitizeFixpoint("a");
    SanitizeFixpoint("b");
    assert "a"[0] != "b"[0];
  }

  function FirstRow(cols: seq<Column>, c: string, mac: string): Row {
    Row("a", 0, StoredCells(cols, OneSample(cols, c, mac)))
  }

  function SecondRow(cols: seq<Column>, u: string, c: string, mac: string): Row {
    Row("b", 0, StoredCells(cols, TwoSamples(cols, u, c, mac)))
  }

  lemma FirstIsPublished(cols: seq<Column>, c: string, mac: string)
    requires ValidSchema(cols) && InSchema(cols, c) && SampleMac(mac)
    ensures Prepared(cols, OneSample(cols, c, mac))
    ensures After(cols, NEW_TABLE, Create("a", OneSample(cols, c, mac), false)) == State([FirstRow(cols, c, mac)], {} + {"a"}, None)
  {
    OneSampleIsGood(cols, c, mac);
    AdmittedFirst(cols, OneSample(cols, c, mac));
    PlainFileNames();
    Created(cols, NEW_TABLE, "a", OneSample(cols, c, mac));
    assert [] + [FirstRow(cols, c, mac)] == [FirstRow(cols, c, mac)];
  }

  lemma SecondIsBeside(cols: seq<Column>, u: string, c: string, mac: string)
    requires ValidSchema(cols) && InSchema(cols, u) && InSchema(cols, c) && u != c && SampleMac(mac)
    requires PlainName(u) && PlainName(c)
    ensures Prepared(cols, TwoSamples(cols, u, c, mac))
    ensures Admitted(cols, TwoSamples(cols, u, c, mac), [FirstRow(cols, c, mac)], {})
  {
    var first, second := FirstRow(cols, c, mac), SecondRow(cols, u, c, mac);
    TwoSamplesArePrepared(cols, u, c, mac);
    forall col: Column
      ensures col in cols && col.crit != u ==> first.Get(col) == StoredCell(TwoSamples(cols, u, c, mac), col)
      ensures col.crit == u ==> first.Get(col) == Null
    {
      SameStored(cols, u, c, mac, first, second, col);
    }
    SecondIsAdmitted(cols, u, c, mac, first);
  }

  lemma SecondIsInserted(cols: seq<Column>, first: Row, criteria: Criteria)
    requires first.name == "a"
    ensures Inserted(cols, [first], "b", criteria) == [first, Row("b", 0, StoredCells(cols, criteria))]
  {
    PlainFileNames();
    assert [first][..0] == [];
    assert Count([first], "b") == 0;
  }

  lemma SecondIsPublished(cols: seq<Column>, u: string, c: string, mac: string)
    requires ValidSchema(cols) && InSchema(cols, u) && InSchema(cols, c) && u != c && SampleMac(mac)
    requires PlainName(u) && PlainName(c)
    ensures Prepared(cols, TwoSamples(cols, u, c, mac))
    ensures After(cols, State([FirstRow(cols, c, mac)], {} + {"a"}, None), Create("b", TwoSamples(cols, u, c, mac), false)).rows
            == [FirstRow(cols, c, mac), SecondRow(cols, u, c, mac)]
  {
    SecondIsBeside(cols, u, c, mac);
    PlainFileNames();
    Created(cols, State([FirstRow(cols, c, mac)], {} + {"a"}, None), "b", TwoSamples(cols, u, c, mac));
    SecondIsInserted(cols, FirstRow(cols, c, mac), TwoSamples(cols, u, c, mac));
  }

  lemma TieRunLeaves(cols: seq<Column>, u: string, c: string, mac: string)
    requires ValidSchema(cols) && InSchema(cols, u) && InSchema(cols, c) && u != c && SampleMac(mac)
    requires PlainName(u) && PlainName(c)
    ensures PreparedCommands(cols, TieRun(cols, u, c, mac))
    ensures AfterAll(cols, TieRun(cols, u, c, mac)).rows == [FirstRow(cols, c, mac), SecondRow(cols, u, c, mac)]
  {
    FirstIsPublished(cols, c, mac);
    SecondIsPublished(cols, u, c, mac);
    TwoCommands(cols, Create("a", OneSample(cols, c, mac), false), Create("b", TwoSamples(cols, u, c, mac), false));
  }

  lemma EqualKeysTie(cols: seq<Column>, r: Row, s: Row, client: Client)
    requires Matches(cols, r, client) && Matches(cols, s, client) && Key(r) == Key(s)
    ensures IsAnswer(cols, [r, s], client, Some(r.name)) && IsAnswer(cols, [r, s], client, Some(s.name))
  {
    TieExactly(r, s);
    TieExactly(r, r);
    TieExactly(s, s);
    assert IsBest(cols, [r, s], client, r) && IsBest(cols, [r, s], client, s);
  }

  /** For an unranked criterion and any other: the manifest published for both and the one published
      for the other only suit one client, and either may be the answer. */
  lemma UnrankedCriterionTies(cols: seq<Column>, u: string, c: string, mac: string)
    requires ValidSchema(cols) && InSchema(cols, u) && InSchema(cols, c) && u != c && SampleMac(mac)
    requires PlainName(u) && PlainName(c) && u !in RANKED
    ensures var commands, client := TieRun(cols, u, c, mac), SampleClient(cols, u, c, mac);
            && PreparedCommands(cols, commands) && WithinInfinity(cols, client)
            && IsAnswer(cols, AfterAll(cols, commands).rows, client, Some("a"))
            && IsAnswer(cols, AfterAll(cols, commands).rows, client, Some("b"))
  {
    var first, second, client := FirstRow(cols, c, mac), SecondRow(cols, u, c, mac), SampleClient(cols, u, c, mac);
    TieRunLeaves(cols, u, c, mac);
    SampleWithinInfinity(cols, u, c, mac);
    SamplesOf(cols, u, c, mac);
    OneSampleGet(cols, c, mac, c);
    TwoSamplesGet(cols, u, c, mac, c);
    SamplesSuit(cols, OneSample(cols, c, mac), first, client, mac, c);
    SamplesSuit(cols, TwoSamples(cols, u, c, mac), second, client, mac, c);
    UnrankedKey(cols, u, c, mac, first, second);
    EqualKeysTie(cols, first, second, client);
  }

  // ----- exactly when there is one answer ------------------------------------------------------------

  /** A run of safe commands that name these criteria only. */
  ghost predicate RunOver(cols: seq<Column>, commands: seq<Command>, used: set<string>) {
    PreparedCommands(cols, commands) && SafeCommands(cols, commands) && CriteriaIn(commands) <= used
  }

  /** After every such run findManifest can give each client one answer only. */
  ghost predicate OneAnswer(cols: seq<Column>, used: set<string>) {
    forall commands, client: Client, a, b | RunOver(cols, commands, used) && WithinInfinity(cols, client)
                                             && IsAnswer(cols, AfterAll(cols, commands).rows, client, a)
                                             && IsAnswer(cols, AfterAll(cols, commands).rows, client, b) :: a == b
  }

  lemma DecisiveHasOneAnswer(cols: seq<Column>, used: set<string>)
    requires ValidSchema(cols) && Adjacent(cols) && HasRankedColumns(cols) && Decisive(used)
    ensures OneAnswer(cols, used)
  {
    forall commands, client: Client, a, b | RunOver(cols, commands, used) && WithinInfinity(cols, client)
                                             && IsAnswer(cols, AfterAll(cols, commands).rows, client, a)
                                             && IsAnswer(cols, AfterAll(cols, commands).rows, client, b)
      ensures a == b
    {
      var rows := AfterAll(cols, commands).rows;
      EveryRun(cols, commands);
      AnswerIsDeterministic(cols, rows, rows, used, client, a, b);
    }
  }

  lemma TieRunIsOver(cols: seq<Column>, u: string, c: string, mac: string)
    requires ValidSchema(cols) && InSchema(cols, u) && InSchema(cols, c) && u != c && SampleMac(mac)
    requires PlainName(u) && PlainName(c)
    ensures RunOver(cols, TieRun(cols, u, c, mac), {u, c})
  {
    OneSampleIsGood(cols, c, mac);
    TwoSamplesAreGood(cols, u, c, mac);
    TwoCommands(cols, Create("a", OneSample(cols, c, mac), false), Create("b", TwoSamples(cols, u, c, mac), false));
  }

  lemma SomeMac() returns (mac: string)
    ensures SampleMac(mac)
  {
    var width := 12;
    mac := Digits(0, width);
    NumeralIsClean(mac, 10);
    assert forall i | 0 <= i < |mac| :: DigitOf(mac[i]) < 10;
    assert DigitOf("unbounded"[0]) == 99;
  }

  lemma TwoAnswers(cols: seq<Column>, used: set<string>, more: set<string>, commands: seq<Command>, client: Client,
                   a: Option<string>, b: Option<string>)
    requires RunOver(cols, commands, used) && used <= more && WithinInfinity(cols, client) && a != b
    requires IsAnswer(cols, AfterAll(cols, commands).rows, client, a) && IsAnswer(cols, AfterAll(cols, commands).rows, client, b)
    ensures !OneAnswer(cols, more)
  {
    assert RunOver(cols, commands, more);
  }

  lemma SomeTieRun(cols: seq<Column>, u: string, c: string)
    returns (commands: seq<Command>, client: Client, a: Option<string>, b: Option<string>)
    requires ValidSchema(cols) && InSchema(cols, u) && InSchema(cols, c) && PlainName(u) && PlainName(c)
    requires u != c && u !in RANKED
    ensures RunOver(cols, commands, {u, c}) && WithinInfinity(cols, client) && a != b
    ensures IsAnswer(cols, AfterAll(cols, commands).rows, client, a) && IsAnswer(cols, AfterAll(cols, commands).rows, client, b)
  {
    var mac := SomeMac();
    commands, client, a, b := TieRun(cols, u, c, mac), SampleClient(cols, u, c, mac), Some("a"), Some("b");
    UnrankedCriterionTies(cols, u, c, mac);
    TieRunIsOver(cols, u, c, mac);
    PlainFileNames();
  }

  lemma UnrankedHasTwoAnswers(cols: seq<Column>, used: set<string>, u: string, c: string)
    requires ValidSchema(cols) && InSchema(cols, u) && InSchema(cols, c) && PlainName(u) && PlainName(c)
    requires u in used && c in used && u != c && u !in RANKED
    ensures !OneAnswer(cols, used)
  {
    var commands, client, a, b := SomeTieRun(cols, u, c);
    TwoAnswers(cols, {u, c}, used, commands, client, a, b);
  }

  /** Whichever runs of safe commands over these criteria come: findManifest has one answer for every
      client exactly when all criteria are ranked or there is at most one. */
  lemma DeterminedExactly(cols: seq<Column>, used: set<string>)
    requires ValidSchema(cols) && Adjacent(cols) && HasRankedColumns(cols) && PlainNames(cols)
    requires forall c | c in used :: InSchema(cols, c)
    ensures OneAnswer(cols, used) <==> Decisive(used)
  {
    if Decisive(used) {
      DecisiveHasOneAnswer(cols, used);
    } else {
      var u :| u in used && u !in RANKED;
      var v, w :| v in used && w in used && v != w;
      var c := if v == u then w else v;
      assert InSchema(cols, u) && InSchema(cols, c);
      assert MinOf(u) in cols || ValueOf(u) in cols;
      assert PlainName(u) && PlainName(c);
      UnrankedHasTwoAnswers(cols, used, u, c);
    }
  }

  lemma ManifestNameIsPlain(i: nat)
    requires i < |MANIFEST_COLUMNS|
    ensures PlainName(MANIFEST_COLUMNS[i].crit)
  {
    if i < 6 {
      assert i == 0 || i == 1 || i == 2 || i == 3 || i == 4 || i == 5;
    } else {
      assert i == 6 || i == 7 || i == 8 || i == 9 || i == 10 || i == 11 || i == 12;
    }
  }

  /** On the columns of the product. */
  lemma DeterminedOnManifests(used: set<string>)
    requires forall c | c in used :: InSchema(MANIFEST_COLUMNS, c)
    ensures OneAnswer(MANIFEST_COLUMNS, used) <==> Decisive(used)
  {
    ManifestSchemaIsValid();
    ManifestColumnsAreAdjacent();
    ManifestColumnsAreRanked();
    forall i: nat | i < |MANIFEST_COLUMNS| {
      ManifestNameIsPlain(i);
    }
    DeterminedExactly(MANIFEST_COLUMNS, used);
  }
}
