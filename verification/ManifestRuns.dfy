/** Runs of the manifest commands: what each does to the table as a value, what every run of them
    leaves behind, and findManifest after it. */
module ManifestRuns {
  import opened Text
  import opened CriteriaDatabase
  import opened PublishManifest
  import opened Admission
  import opened LostWords
  import opened BestMatch
  import opened InstanceNumbers
  import opened ManifestTable

  datatype Command =
    | Create(name: string, criteria: Criteria, setAsDefault: bool)
    | Set(name: string, criteria: Criteria)
    | Delete(name: string, instance: Option<int>)

  predicate PreparedCommand(cols: seq<Column>, c: Command) {
    c.Delete? || Prepared(cols, c.criteria)
  }

  ghost predicate PreparedCommands(cols: seq<Column>, commands: seq<Command>) {
    forall c | c in commands :: PreparedCommand(cols, c)
  }

  /** What one command leaves of the table; a refused one changes nothing. */
  ghost function After(cols: seq<Column>, s: State, c: Command): State
    requires PreparedCommand(cols, c)
  {
    match c
    case Create(name, criteria, setAsDefault) =>
      if name !in s.files && (criteria != [] ==> Admitted(cols, criteria, s.rows, {})) then
        State(Inserted(cols, s.rows, name, criteria), s.files + {name}, if setAsDefault then Some(name) else s.defaultManifest)
      else s
    case Set(name, criteria) =>
      if name in s.files && HasName(s.rows, SanitizeSQL(name)) && Admitted(cols, criteria, s.rows, {name}) then
        s.(rows := Replaced(cols, s.rows, name, criteria))
      else s
    case Delete(name, instance) =>
      var found := Found(s.rows, name);
      if Deletable(s.rows, found, s.defaultManifest, instance) then
        var left := Deleted(s.rows, found, instance);
        s.(rows := left, files := if HasName(left, found) then s.files else s.files - {found})
      else s
  }

  const NEW_TABLE := State([], {}, None)

  /** What a run of commands leaves of a new table. */
  ghost function AfterAll(cols: seq<Column>, commands: seq<Command>): State
    requires PreparedCommands(cols, commands)
  {
    if commands == [] then NEW_TABLE
    else
      var n := |commands| - 1;
      assert commands[n] in commands && forall c | c in commands[..n] :: c in commands;
      After(cols, AfterAll(cols, commands[..n]), commands[n])
  }

  lemma AfterNext(cols: seq<Column>, commands: seq<Command>, i: nat)
    requires PreparedCommands(cols, commands) && i < |commands|
    ensures PreparedCommands(cols, commands[..i]) && PreparedCommands(cols, commands[..i + 1]) && PreparedCommand(cols, commands[i])
    ensures AfterAll(cols, commands[..i + 1]) == After(cols, AfterAll(cols, commands[..i]), commands[i])
  {
    assert commands[..i + 1][..i] == commands[..i];
    assert commands[i] in commands && forall c | c in commands[..i + 1] :: c in commands;
  }

  // ----- what one command keeps ------------------------------------------------------------------

  /** No word that the sanitizer loses from the command escapes the checks. */
  ghost predicate SafeCommand(cols: seq<Column>, c: Command) {
    c.Delete? || Safeguarded(cols, c.criteria)
  }

  /** No two rows of one name are overwritten with criteria that some client meets. */
  ghost predicate WritesOnce(cols: seq<Column>, s: State, c: Command) {
    c.Set? ==> Count(s.rows, c.name) <= 1 || !Met(cols, c.criteria)
  }

  lemma AfterIsValid(cols: seq<Column>, s: State, c: Command)
    requires ValidTable(cols, s.rows) && PreparedCommand(cols, c)
    ensures ValidTable(cols, After(cols, s, c).rows)
    ensures SafeCommand(cols, c) && Unambiguous(cols, s.rows) ==> Unambiguous(cols, After(cols, s, c).rows)
    ensures SafeCommand(cols, c) && AllApart(cols, s.rows) && WritesOnce(cols, s, c) ==> AllApart(cols, After(cols, s, c).rows)
    ensures SafeCommand(cols, c) && SoundTable(cols, s.rows, s.files) && (c.Create? ==> NameFits(s.files, c.name)) ==>
              SoundTable(cols, After(cols, s, c).rows, After(cols, s, c).files)
  {
    if After(cols, s, c) != s {
      match c
      case Create(name, criteria, _) => InsertKeeps(cols, s.rows, s.files, name, criteria);
      case Set(name, criteria) => ReplaceKeeps(cols, s.rows, s.files, name, criteria);
      case Delete(name, instance) =>
        StoredIsClean(s.rows, Found(s.rows, name));
        DeleteKeeps(cols, s.rows, s.files, Found(s.rows, name), instance);
    }
  }

  function CommandNames(c: Command): set<string> {
    if c.Delete? then {} else NamesOf(c.criteria)
  }

  lemma AfterUses(cols: seq<Column>, s: State, c: Command, used: set<string>)
    requires PreparedCommand(cols, c) && OnlyUses(s.rows, used)
    ensures OnlyUses(After(cols, s, c).rows, used + CommandNames(c))
  {
    match c
    case Create(name, criteria, _) => InsertUses(cols, s.rows, name, criteria, used);
    case Set(name, criteria) => ReplaceUses(cols, s.rows, name, criteria, used);
    case Delete(name, instance) =>
      DeleteUses(s.rows, Found(s.rows, name), instance, used);
  }

  method Perform(table: Table, c: Command)
    requires table.Valid() && PreparedCommand(table.cols, c)
    modifies table
    ensures table.Valid() && table.Contents() == After(table.cols, old(table.Contents()), c)
  {
    match c
    case Create(name, criteria, setAsDefault) =>
      var _ := table.CreateManifest(name, criteria, setAsDefault);
    case Set(name, criteria) =>
      var _ := table.SetCriteria(name, criteria);
    case Delete(name, instance) =>
      var _ := table.DeleteManifest(name, instance);
  }

  // ----- what every run leaves ---------------------------------------------------------------------

  ghost predicate SafeCommands(cols: seq<Column>, commands: seq<Command>) {
    forall c | c in commands :: SafeCommand(cols, c)
  }

  /** No two different manifest names are stored under one. */
  predicate NamesFit(commands: seq<Command>) {
    forall c, d | c in commands && d in commands && c.Create? && d.Create? && SanitizeSQL(c.name) == SanitizeSQL(d.name) ::
      c.name == d.name
  }

  /** Every criterion that some command names. */
  function CriteriaIn(commands: seq<Command>): set<string> {
    if commands == [] then {} else CriteriaIn(commands[..|commands| - 1]) + CommandNames(commands[|commands| - 1])
  }

  predicate NamedBy(commands: seq<Command>, name: string) {
    exists c :: c in commands && c.Create? && c.name == name
  }

  lemma {:induction false} FilesAreNamed(cols: seq<Column>, commands: seq<Command>)
    requires PreparedCommands(cols, commands)
    ensures forall f | f in AfterAll(cols, commands).files :: NamedBy(commands, f)
  {
    if commands != [] {
      var n := |commands| - 1;
      AfterNext(cols, commands, n);
      assert commands[..n + 1] == commands;
      FilesAreNamed(cols, commands[..n]);
      assert commands[n] in commands;
      forall f | NamedBy(commands[..n], f)
        ensures NamedBy(commands, f)
      {
        var c :| c in commands[..n] && c.Create? && c.name == f;
        assert c in commands;
      }
    }
  }

  lemma CreatedNameFits(cols: seq<Column>, commands: seq<Command>, front: seq<Command>, c: Command)
    requires PreparedCommands(cols, front) && NamesFit(commands) && c in commands && c.Create?
    requires forall d | d in front :: d in commands
    ensures NameFits(AfterAll(cols, front).files, c.name)
  {
    FilesAreNamed(cols, front);
  }

  /** The table stays valid; with safe commands rows of different names stay apart; if no two names
      are stored as one, all promises hold; and only the criteria named are in use. */
  lemma {:induction false} EveryRun(cols: seq<Column>, commands: seq<Command>)
    requires ValidSchema(cols) && Adjacent(cols) && PreparedCommands(cols, commands)
    ensures ValidTable(cols, AfterAll(cols, commands).rows)
    ensures SafeCommands(cols, commands) ==> Unambiguous(cols, AfterAll(cols, commands).rows)
    ensures SafeCommands(cols, commands) && NamesFit(commands) ==>
              SoundTable(cols, AfterAll(cols, commands).rows, AfterAll(cols, commands).files)
    ensures OnlyUses(AfterAll(cols, commands).rows, CriteriaIn(commands))
  {
    if commands != [] {
      var n := |commands| - 1;
      var front, s := commands[..n], AfterAll(cols, commands[..n]);
      AfterNext(cols, commands, n);
      assert commands[..n + 1] == commands && commands[n] in commands;
      assert forall c | c in front :: c in commands;
      EveryRun(cols, front);
      AfterIsValid(cols, s, commands[n]);
      AfterUses(cols, s, commands[n], CriteriaIn(front));
      if NamesFit(commands) && commands[n].Create? {
        CreatedNameFits(cols, commands, front, commands[n]);
      }
    }
  }

  /** Every command of the run writes one row at most, or criteria that no client meets. */
  ghost predicate WriteOnce(cols: seq<Column>, commands: seq<Command>)
    requires PreparedCommands(cols, commands)
  {
    forall i | 0 <= i < |commands| ::
      PreparedCommands(cols, commands[..i]) && WritesOnce(cols, AfterAll(cols, commands[..i]), commands[i])
  }

  /** Then no client suits any two rows that constrain the same criteria. */
  lemma {:induction false} EveryRunWritingOnce(cols: seq<Column>, commands: seq<Command>)
    requires ValidSchema(cols) && Adjacent(cols) && PreparedCommands(cols, commands)
    requires SafeCommands(cols, commands) && WriteOnce(cols, commands)
    ensures AllApart(cols, AfterAll(cols, commands).rows)
  {
    if commands != [] {
      var n := |commands| - 1;
      var front := commands[..n];
      AfterNext(cols, commands, n);
      assert commands[..n + 1] == commands && commands[n] in commands;
      assert forall c | c in front :: c in commands;
      forall i | 0 <= i < n
        ensures PreparedCommands(cols, front[..i]) && WritesOnce(cols, AfterAll(cols, front[..i]), front[i])
      {
        assert front[..i] == commands[..i] && front[i] == commands[i];
      }
      EveryRunWritingOnce(cols, front);
      EveryRun(cols, front);
      assert WritesOnce(cols, AfterAll(cols, commands[..n]), commands[n]);
      AfterIsValid(cols, AfterAll(cols, front), commands[n]);
    }
  }

  /** After any run of commands, refused ones included, the instances of every name are numbered
      from 0 and no client suits two rows of different names that constrain the same criteria. */
  method Run(cols: seq<Column>, commands: seq<Command>) returns (table: Table)
    requires ValidSchema(cols) && Adjacent(cols) && PreparedCommands(cols, commands)
    ensures fresh(table) && table.cols == cols && table.Valid() && table.Contents() == AfterAll(cols, commands)
    ensures SafeCommands(cols, commands) ==> Unambiguous(cols, table.rows)
    ensures SafeCommands(cols, commands) && WriteOnce(cols, commands) ==> AllApart(cols, table.rows)
    ensures SafeCommands(cols, commands) && NamesFit(commands) ==> table.Sound()
    ensures OnlyUses(table.rows, CriteriaIn(commands))
  {
    table := new Table(cols);
    for i := 0 to |commands|
      invariant fresh(table) && table.cols == cols && table.Valid()
      invariant PreparedCommands(cols, commands[..i]) && table.Contents() == AfterAll(cols, commands[..i])
    {
      AfterNext(cols, commands, i);
      Perform(table, commands[i]);
    }
    assert commands[..|commands|] == commands;
    EveryRun(cols, commands);
    if SafeCommands(cols, commands) && WriteOnce(cols, commands) {
      EveryRunWritingOnce(cols, commands);
    }
  }

  // ----- two names stored as one -----------------------------------------------------------------

  /** Two files of one stored name, and criteria set for it. */
  function SharedNameRun(name: string, criteria: Criteria): seq<Command> {
    [Create(name, [], false), Create(SanitizeSQL(name), [], false), Set(SanitizeSQL(name), criteria)]
  }

  lemma Created(cols: seq<Column>, s: State, name: string, criteria: Criteria)
    requires Prepared(cols, criteria) && name !in s.files && (criteria != [] ==> Admitted(cols, criteria, s.rows, {}))
    ensures After(cols, s, Create(name, criteria, false)) ==
            State(Inserted(cols, s.rows, name, criteria), s.files + {name}, s.defaultManifest)
  {}

  /** Criteria that pass their own checks are admitted beside the rows of their own name. */
  lemma AdmittedBesideOwn(cols: seq<Column>, rows: seq<Row>, name: string, criteria: Criteria)
    requires Prepared(cols, criteria) && Checked(cols, criteria) && forall i | 0 <= i < |rows| :: rows[i].name == name
    ensures Admitted(cols, criteria, rows, {name})
  {
    forall k | 0 <= k < |criteria|
      ensures MeetsNoRow(cols, criteria[k].name, GetCriterion(criteria, criteria[k].name).value, rows, {name})
    {
    }
    DisjointIsAdmitted(cols, criteria, rows, {name});
  }

  lemma SetOverwrites(cols: seq<Column>, s: State, name: string, criteria: Criteria)
    requires Prepared(cols, criteria) && Admitted(cols, criteria, s.rows, {name})
    requires name in s.files && HasName(s.rows, SanitizeSQL(name))
    ensures After(cols, s, Set(name, criteria)).rows == Replaced(cols, s.rows, name, criteria)
  {}

  lemma TwinsClash(cols: seq<Column>, rows: seq<Row>, name: string, criteria: Criteria)
    requires |rows| == 2 && rows[0].name == name == rows[1].name && Met(cols, criteria)
    ensures !AllApart(cols, Replaced(cols, rows, name, criteria))
  {
    var updated := Replaced(cols, rows, name, criteria);
    TwinsApartExactly(cols, criteria, updated[0], updated[1]);
  }

  lemma OwnRowsAreOverwritten(cols: seq<Column>, s: State, name: string, criteria: Criteria)
    requires Prepared(cols, criteria) && Checked(cols, criteria) && forall i | 0 <= i < |s.rows| :: s.rows[i].name == name
    requires name in s.files && HasName(s.rows, SanitizeSQL(name))
    ensures After(cols, s, Set(name, criteria)).rows == Replaced(cols, s.rows, name, criteria)
  {
    AdmittedBesideOwn(cols, s.rows, name, criteria);
    SetOverwrites(cols, s, name, criteria);
  }

  lemma TwoCommands(cols: seq<Column>, a: Command, b: Command)
    requires PreparedCommand(cols, a) && PreparedCommand(cols, b)
    ensures PreparedCommands(cols, [a, b]) && AfterAll(cols, [a, b]) == After(cols, After(cols, NEW_TABLE, a), b)
    ensures CriteriaIn([a, b]) == CommandNames(a) + CommandNames(b)
    ensures SafeCommand(cols, a) && SafeCommand(cols, b) ==> SafeCommands(cols, [a, b])
  {
    var commands := [a, b];
    AfterNext(cols, commands, 0);
    AfterNext(cols, commands, 1);
    assert commands[..0] == [] && commands[..2] == commands;
    assert commands[..1] == [a] && [a][..0] == [];
    assert CriteriaIn([a]) == CriteriaIn([]) + CommandNames(a);
  }

  lemma ThreeCommands(cols: seq<Column>, a: Command, b: Command, c: Command)
    requires PreparedCommand(cols, a) && PreparedCommand(cols, b) && PreparedCommand(cols, c)
    ensures PreparedCommands(cols, [a, b, c])
    ensures AfterAll(cols, [a, b, c]) == After(cols, After(cols, After(cols, NEW_TABLE, a), b), c)
  {
    var commands := [a, b, c];
    AfterNext(cols, commands, 0);
    AfterNext(cols, commands, 1);
    AfterNext(cols, commands, 2);
    assert commands[..0] == [] && commands[..3] == commands;
  }

  /** The rows of the two files, which have one name. */
  function SharedRows(cols: seq<Column>, stored: string): seq<Row> {
    Inserted(cols, Inserted(cols, [], stored, []), stored, [])
  }

  lemma SharedRowsNames(cols: seq<Column>, stored: string)
    requires SanitizeSQL(stored) == stored
    ensures |SharedRows(cols, stored)| == 2 && HasName(SharedRows(cols, stored), stored)
    ensures forall i | 0 <= i < 2 :: SharedRows(cols, stored)[i].name == stored
  {
    assert SharedRows(cols, stored)[0] in SharedRows(cols, stored);
  }

  lemma BothAreCreated(cols: seq<Column>, name: string, stored: string)
    requires stored == SanitizeSQL(name) == SanitizeSQL(stored) && stored != name
    ensures After(cols, After(cols, NEW_TABLE, Create(name, [], false)), Create(stored, [], false)) ==
            State(SharedRows(cols, stored), {name} + {stored}, None)
  {
    Created(cols, NEW_TABLE, name, []);
    assert Inserted(cols, [], name, []) == Inserted(cols, [], stored, []);
    Created(cols, State(Inserted(cols, [], stored, []), {name}, None), stored, []);
    assert {} + {name} == {name};
  }

  lemma SharedNameLeaves(cols: seq<Column>, name: string, criteria: Criteria)
    requires SanitizeSQL(name) != name && Prepared(cols, criteria) && Checked(cols, criteria)
    ensures PreparedCommands(cols, SharedNameRun(name, criteria))
    ensures AfterAll(cols, SharedNameRun(name, criteria)).rows ==
            Replaced(cols, SharedRows(cols, SanitizeSQL(name)), SanitizeSQL(name), criteria)
  {
    var stored := SanitizeSQL(name);
    SanitizeIdempotent(name);
    ThreeCommands(cols, Create(name, [], false), Create(stored, [], false), Set(stored, criteria));
    BothAreCreated(cols, name, stored);
    SharedRowsNames(cols, stored);
    OwnRowsAreOverwritten(cols, State(SharedRows(cols, stored), {name} + {stored}, None), stored, criteria);
  }

  /** Files such as a,b.xml and ab.xml share their rows: any criteria set for them that pass their own
      checks, and that some client meets, are written twice. */
  lemma SharedNameIsWrittenTwice(cols: seq<Column>, name: string, criteria: Criteria)
    requires SanitizeSQL(name) != name && Prepared(cols, criteria) && Checked(cols, criteria) && Met(cols, criteria)
    ensures PreparedCommands(cols, SharedNameRun(name, criteria))
    ensures !AllApart(cols, AfterAll(cols, SharedNameRun(name, criteria)).rows)
  {
    var stored := SanitizeSQL(name);
    SanitizeIdempotent(name);
    SharedNameLeaves(cols, name, criteria);
    SharedRowsNames(cols, stored);
    TwinsClash(cols, SharedRows(cols, stored), stored, criteria);
  }

  // ----- findManifest after a run --------------------------------------------------------------------

  /** The name is the answer for these rows in any order. */
  ghost predicate OnlyAnswer(cols: seq<Column>, rows: seq<Row>, client: Client, answer: Option<string>) {
    forall rows', other | (forall r :: r in rows <==> r in rows') && IsAnswer(cols, rows', client, other) :: other == answer
  }

  lemma ReorderedAnswer(cols: seq<Column>, rows: seq<Row>, used: set<string>, client: Client, answer: Option<string>)
    requires ValidSchema(cols) && HasRankedColumns(cols) && WithinInfinity(cols, client)
    requires WellTypedTable(cols, rows) && Unambiguous(cols, rows) && OnlyUses(rows, used) && Decisive(used)
    requires IsAnswer(cols, rows, client, answer)
    ensures OnlyAnswer(cols, rows, client, answer)
  {
    forall rows', other | (forall r :: r in rows <==> r in rows') && IsAnswer(cols, rows', client, other)
      ensures other == answer
    {
      AnswerIsDeterministic(cols, rows, rows', used, client, answer, other);
    }
  }

  /** findManifest after any run on the columns of the product: when every criterion named in the run
      is ranked, or only one is named, the answer does not depend on the order of the rows. */
  method RunThenFind(commands: seq<Command>, client: Client) returns (table: Table, answer: Option<string>)
    requires PreparedCommands(MANIFEST_COLUMNS, commands)
    ensures fresh(table) && IsAnswer(MANIFEST_COLUMNS, table.rows, client, answer)
    ensures SafeCommands(MANIFEST_COLUMNS, commands) && Decisive(CriteriaIn(commands))
            && WithinInfinity(MANIFEST_COLUMNS, client) ==>
              OnlyAnswer(MANIFEST_COLUMNS, table.rows, client, answer)
  {
    ManifestSchemaIsValid();
    ManifestColumnsAreAdjacent();
    ManifestColumnsAreRanked();
    table := Run(MANIFEST_COLUMNS, commands);
    answer := FindManifest(table.cols, table.rows, client);
    if SafeCommands(MANIFEST_COLUMNS, commands) && Decisive(CriteriaIn(commands))
       && WithinInfinity(MANIFEST_COLUMNS, client) {
      ReorderedAnswer(MANIFEST_COLUMNS, table.rows, CriteriaIn(commands), client, answer);
    }
  }
}
