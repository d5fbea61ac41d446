# Automated Installer: a verified model of the install server

This project models the decision logic of the Automated Installer's server side, which answers a booting
client with the installation manifest meant for it and keeps the services, clients and DHCP entries that
get the client that far. Everything that is not logic (SQLite, SMF, the mDNS daemon, files, processes) is
abstract state: a table is a sequence of rows, a query a filter and a comparator, a file a sequence of
lines, the mDNS daemon a log of references handed out and closed.

The parts and what is proved of each:

* **Manifest selection** (`Text`, `CriteriaDatabase`, `PublishManifest`, `Admission`, `LostWords`,
  `Refusals`, `BestMatch`, `InstanceNumbers`, `ManifestTable`, `ManifestRuns`, `Ties`, `Encodings`,
  `PostData`). Two pieces of code that never refer to each other are linked: the collision checks that admit a
  manifest's criteria, and the query with its seven-key ORDER BY and LIMIT 1. After any run of create-manifest,
  set-criteria (replacing) and delete-manifest in which the SQL sanitizer loses no word unnoticed, no client
  suits two rows of different names that constrain the same criteria; and findManifest has one answer for every
  client after every such run, whatever the order of rows, exactly when all criteria named are ranked or there
  is at most one. The answer is the row that constrains the first ranked criterion in which it differs from
  another suitable row. It is stated exactly when a lost word goes unnoticed.
* **The ISC DHCP configuration editor** (`ConfigLines`, `Stanzas`, `HostStanzas`, `ArchClass`, `ClassLines`,
  `ClassStanzas`, `Addresses`, `Bits`, `Cidr`, `AddressRanges`). The line-by-line editors are methods with
  loops; on files made of well-formed stanzas they are proved against what the separate readers see.
* **Conversion of a Solaris DHCP server** (`DhcpMacros`, `IpRanges`). In-place Include expansion is
  independent of the dictionary's order; address compression is exact, and it is stated exactly when two of
  the ranges could have been merged.
* **mDNS registration** (`Multicast`). SIGHUP reconciliation against registering from scratch, and exactly
  which entries are out of date.
* **Services and clients** (`AliasGraph`, `InstallServices`). The alias graph and the client registry under
  create, alias, re-base, delete, rename and client commands.
* **The GRUB menu** (`Grub`). Editing a generated menu against generating it anew.

`dafny verify dfyconfig.toml` checks all of it.

## What the code does where its documentation or its parts disagree

The model follows the code. These differences are stated as lemmas or as if-and-only-if contracts:

* An unbounded mac range is meant to be refused. Its upper bound is the decimal text of 2^64 - 1 read in
  base 16, which is not the number it is compared with, so it is accepted
  (`Admission.UnboundedRangeIsRefused`).
* A memory size above 2^64 - 1, given as a single value, is admitted beside an open-ended range, which the
  collision check takes to end there (`Admission.BeyondInfinityIsMissed`), and a negative one beside a range
  without a minimum, taken to start at 0 (`Admission.BelowZeroIsMissed`); the sizes of clients that the checks
  are safe for are exactly those from 0 to 2^64 - 1 (`Admission.SafeMemorySizes`). A stored upper bound 0 is
  false in Python and read as open-ended (`PublishManifest.StoredRange`).
* Stored values pass through sanitizeSQL, the values checked for collisions do not. For one value criterion
  the checks miss an ambiguity exactly when some stored word is none of the values given
  (`Admission.KeptIsExact`), which is what happens to the platforms of SPARC systems with their comma
  (`Admission.SparcPlatformIsMissed`). For criteria of any number they miss one exactly when such a word is
  lost in a column that no bound with leading zeros or a plus sign stands before (`LostWords.MissesExactly`):
  the walk compares texts, so it refuses every overlap of such a bound, as an address below 100.0.0.0 gives.
* Over-caution: a range bound that did not collide is compared character by character, because a text is
  iterated as a list of values. It counts as the same exactly if the stored number is one digit that occurs in
  the given text (`Refusals.UnrecordedDecimalStep`), so with one arch in common, memory 10 to 20 is refused
  beside 1 to 2 (`Refusals.DisjointRangesAreRefused`). A stored maximum of 0 meets every range
  (`Refusals.ZeroMaximumIsOpen`), and bounds of 0 count as none (`Refusals.ZeroIsNone`).
* Manifest names are sanitized too when they are stored, so two files can share one name
  (`ManifestTable.InsertedNames`). Creating such a file keeps all rows apart
  (`ManifestTable.InsertedStayApart`), but set-criteria then writes the same criteria into the rows of both:
  the rows stay apart exactly if there was one, or no client meets the criteria
  (`ManifestTable.ReplacedApartExactly`, with a run that fails in `ManifestRuns.SharedNameIsWrittenTwice`).
  Rows that then tie have one name, so the answer of findManifest does not suffer
  (`ManifestRuns.RunThenFind`). set-criteria looks the sanitized name up but updates the one given: for a name
  that is not its own sanitized form it succeeds and changes no row (`ManifestTable.OverwritesExactly`).
* Hostname and zonename are criteria but not in the ORDER BY. As soon as one of them is published beside any
  other criterion rows can tie, and otherwise they never do (`Ties.DeterminedExactly`).
* Addresses are sorted by their native-endian word. Two ranges could have been merged exactly if that order
  puts a client between another one and the client at the next address (`IpRanges.MergeExactly`): never on a
  big-endian host or within one /24, but wherever networks interleave on a little-endian one
  (`IpRanges.InterleavedNetworks`).
* The test for overlapping DHCP ranges compares last octets only, so inside one subnet it refuses ranges
  that share no address exactly when they lie in different /24s (`AddressRanges.FalseOverlapExactly`).
* A client dictionary arrives as it was sent exactly if no key and no value has a semicolon or an equals
  sign in it (`PostData.Encode`).
* formatValue turns a stored 0 into "0", not "0.0.0.0" (`Encodings.FormatInvertsCheck`).
* remove_host searches the address anywhere in a stanza, in its exact case, while host_is_configured reads
  one statement and ignores case; so removal undoes addition only if no earlier stanza mentions the address
  (`HostStanzas.RemoveUndoesAdd`).
* update_bootfile records the new bootfile even if the class has no filename statement to replace
  (`ClassStanzas.UpdateThenGet`); unset_bootfile may take away a comment that looks like one
  (`ClassStanzas.UnsetMissesBehindComment`).
* SIGHUP keeps the references of a service that is still registered. They are those of a fresh registration,
  text record included, exactly if the interfaces on valid networks and, when there are any, the key and the
  port as it is written are what they were when the entry was made (`Multicast.UpToDateExactly`); a changed key
  or port (`Multicast.ChangedPortIsMissed`) and a changed list of networks
  (`Multicast.ChangedNetworksAreMissed`) are missed. get_service_props answers None for a
  missing service, so the handler's KeyError branch is never taken; its other branch does the same work.
  register_all drops empty batches of references, the SIGHUP handler keeps them.
* The check of set-service for inter-dependencies never fires, because a base service is no alias
  (`InstallServices.BaseDependsOnNothing`).
* A rename keeps the old name in the title of a menu whose image has no grub_title (`Grub.RenamedMenu`).
* update_bootargs replaces the old arguments wherever they stand behind -B, so it gives the menu of the new ones
  exactly if the old ones recur in neither kernel line, or are the new ones (`Grub.RebootedMenu`). The arguments
  install=true, which create-service -b writes with their comma, recur: the entry that installs loses its own
  install=true (`Grub.InstallArgumentRecurs`). Old arguments that start with a blank are not found again, so the
  new ones are put in front of them (`Grub.BlankBootargsStay`).

## Model

| member | source | states |
|---|---|---|
| `CriteriaDatabase.ManifestSchemaIsValid` | usr/src/cmd/ai-webserver/Makefile:87 | the shipped manifests table has, for every criterion, both bounds in order or one value column |
| `CriteriaDatabase.SanitizeFixpoint` | usr/src/cmd/ai-webserver/AI_database.py:288-303 | exactly the texts without SQL special characters pass unchanged |
| `CriteriaDatabase.SanitizeExactly` | usr/src/cmd/ai-webserver/AI_database.py:288-303 | every occurrence of the six special characters goes and every other character stays |
| `CriteriaDatabase.SanitizeConcat` | usr/src/cmd/ai-webserver/AI_database.py:288-303 | what stays keeps its order |
| `CriteriaDatabase.BuildQuery` | usr/src/cmd/ai-webserver/AI_database.py:603-709 | the loop yields one clause per column in use, in order, and the not-all-NULL filter |
| `CriteriaDatabase.QuerySelectsMatches` | usr/src/cmd/ai-webserver/AI_database.py:565-709 | the clauses over the columns in use select exactly the rows that suit the client criterion by criterion, as the clauses over all columns would |
| `CriteriaDatabase.GetCriteria` | usr/src/cmd/ai-webserver/AI_database.py:432-496 | all columns, or exactly those with a value in some row, in the order of the schema |
| `CriteriaDatabase.SelectFirst` | usr/src/cmd/ai-webserver/AI_database.py:700-709 | ORDER BY with LIMIT 1 gives a selected row that no selected row outranks, and none exactly when none is selected |
| `CriteriaDatabase.FindManifest` | usr/src/cmd/ai-webserver/AI_database.py:565-600 | the answer is a suitable manifest that no other suitable row outranks, being ahead of it in the first ranked criterion in which they do not agree, or None exactly when no row with criteria suits |
| `CriteriaDatabase.KeyTransitive` | usr/src/cmd/ai-webserver/AI_database.py:705-708 | the seven-key precedence is transitive |
| `CriteriaDatabase.KeyTotal` | usr/src/cmd/ai-webserver/AI_database.py:705-708 | any two rows compare |
| `CriteriaDatabase.KeyAntisymmetric` | usr/src/cmd/ai-webserver/AI_database.py:705-708 | rows that tie have equal keys |
| `CriteriaDatabase.RankingMeans` | usr/src/cmd/ai-webserver/AI_database.py:705-708 | the ORDER BY .. desc terms put no row above another but one that has a bound or a text for the first ranked criterion in which they do not agree where the other has none, or the greater text |
| `PublishManifest.FirstCriterionAnswers` | usr/src/cmd/ai-webserver/data_files.py:440-468 | of several elements of one name the first gives the values |
| `PublishManifest.RecordValueCriterion` | usr/src/cmd/ai-webserver/publish_manifest.py:260-289 | the loop records one token per shared value and row, in order, for rows not excluded |
| `PublishManifest.RecordRangeCriterion` | usr/src/cmd/ai-webserver/publish_manifest.py:343-383 | the loop records both bounds of a range criterion for exactly the rows whose stored range overlaps, negative bounds included |
| `PublishManifest.CollectCriterion` | usr/src/cmd/ai-webserver/publish_manifest.py:250-383 | one criterion is refused when ill-formed or unknown, else recorded against every row |
| `PublishManifest.FindCollidingCriteria` | usr/src/cmd/ai-webserver/publish_manifest.py:211-384 | the collisions of all criteria, or the first failure |
| `PublishManifest.FailureStays` | usr/src/cmd/ai-webserver/publish_manifest.py:309-342 | once a criterion is refused the outcome is that failure |
| `PublishManifest.WalkColumns` | usr/src/cmd/ai-webserver/publish_manifest.py:426-507 | the column walk with its break, continue and for-else gives the verdict of the recursive walk |
| `PublishManifest.RowForIsTheRow` | usr/src/cmd/ai-webserver/publish_manifest.py:419-423 | a recorded name and instance lead back to the row they were recorded for |
| `PublishManifest.FindCollidingManifests` | usr/src/cmd/ai-webserver/publish_manifest.py:387-507 | it succeeds exactly when each recorded manifest diverges; else it names a recorded manifest, its instance and the colliding range, or the manifest with the same criteria |
| `Admission.TokenSurvives` | usr/src/cmd/ai-webserver/publish_manifest.py:283-289 | what one criterion records for a row is still recorded at the end |
| `Admission.SharedRangeOverlaps` | usr/src/cmd/ai-webserver/publish_manifest.py:321-372 | a client value inside the given and the stored range makes the overlap test true, mac bounds compared as text by the query and as numbers by the check |
| `Admission.MacBounds` | usr/src/cmd/ai-webserver/AI_database.py:644-662 | two mac rows that suit one client have no lower bound above an upper bound, as numbers |
| `Admission.SharedValueOverlaps` | usr/src/cmd/ai-webserver/publish_manifest.py:280-289 | when every stored word was given, a client value in both stored texts makes some given value be in the other row's list |
| `Admission.OneWordSuits` | usr/src/cmd/ai-webserver/AI_database.py:250-286 | a row with one word suits the clients of that value, to the letter for zonename and in any case otherwise |
| `Admission.AdmittedRowIsUnambiguous` | usr/src/cmd/ai-webserver/publish_manifest.py:211-507 | no client with numbers up to 2^64 - 1 suits both an admitted row, all of whose stored words were given, and a stored row that constrains the same criteria |
| `Admission.OverlapIsSharingANumber` | usr/src/cmd/ai-webserver/publish_manifest.py:369-372 | on ordered ranges the overlap test means a shared number, and its third disjunct is redundant |
| `Admission.UnboundedRangeIsRefused` | usr/src/cmd/ai-webserver/publish_manifest.py:299-330 | a range without bounds is refused exactly for criteria other than mac |
| `Admission.RangeCheckedExactly` | usr/src/cmd/ai-webserver/publish_manifest.py:299-336 | a range is refused for a bound that is no number, else for two open ends, else for a lower bound above the upper with neither end open, each with its own failure; any other is accepted |
| `Admission.StoredIsInOrder` | usr/src/cmd/ai-webserver/publish_manifest.py:321-336 | what admitted criteria store has no minimum above its maximum, unless the one is 0 or the other 2^64 - 1 |
| `Admission.RecordedDecimalStep` | usr/src/cmd/ai-webserver/publish_manifest.py:466-477 | a recorded decimal bound is accepted as the same exactly when the text given is the number's own, so not with a leading zero or a plus sign |
| `Admission.DisjointIsAdmitted` | usr/src/cmd/ai-webserver/publish_manifest.py:530-533 | valid criteria that overlap no stored row are admitted |
| `Admission.BeyondInfinityIsMissed` | usr/src/cmd/ai-webserver/publish_manifest.py:353-359 | a single memory size above 2^64 - 1 is admitted beside an open-ended range, and both rows suit the client of that size |
| `Admission.BelowZeroIsMissed` | usr/src/cmd/ai-webserver/publish_manifest.py:346-359 | a single negative memory size is admitted beside a range without a minimum, and both rows suit the client of that size |
| `Admission.SafeMemorySizes` | usr/src/cmd/ai-webserver/publish_manifest.py:353-359 | of all integers, the memory sizes for which no admitted criteria are ambiguous with a row are exactly those from 0 to 2^64 - 1 |
| `Admission.LostWordIsMissed` | usr/src/cmd/ai-webserver/data_files.py:241-243 | for any value criterion and list with a stored word that was not given, the criteria are admitted beside a row that holds the word, and both suit the client that has it |
| `Admission.KeptIsExact` | usr/src/cmd/ai-webserver/data_files.py:241-243 | for any value criterion and list, the checks miss no ambiguity exactly when every stored word was given |
| `Admission.CleanWordsAreKept` | usr/src/cmd/ai-webserver/AI_database.py:288-303 | values without SQL special characters all survive the sanitizer |
| `Admission.SingleValueKept` | usr/src/cmd/ai-webserver/AI_database.py:288-303 | a single value survives exactly when nothing or everything is stripped from it |
| `Admission.StrippedTwinIsMissed` | usr/src/cmd/ai-webserver/data_files.py:241-243 | publishing one partly stripped value twice is admitted, and both rows suit its client |
| `Admission.SparcPlatformIsMissed` | usr/src/cmd/installadm/test/test_list.py:69 | so it is for every SPARC platform, SUNW, a comma and a model |
| `Admission.SparcPlatformOnManifests` | usr/src/cmd/ai-webserver/Makefile:87 | and so it is in the shipped manifests table, where platform is a value |
| `LostWords.SafeguardedRowIsUnambiguous` | usr/src/cmd/ai-webserver/publish_manifest.py:211-507 | the guarantee of admission also holds for criteria that lose a word only behind a bound with leading zeros or a plus sign |
| `LostWords.KeptIsSafeguarded` | usr/src/cmd/ai-webserver/data_files.py:241-243 | criteria all of whose stored words were given are such criteria |
| `LostWords.UnguardedWordIsMissed` | usr/src/cmd/ai-webserver/publish_manifest.py:460-507 | a word lost anywhere else is missed, among any other criteria that some client meets |
| `LostWords.MissesExactly` | usr/src/cmd/ai-webserver/publish_manifest.py:211-507 | for any criteria that pass their own checks and that some client meets, the checks miss no ambiguity exactly when every column that loses a word has a bound with leading zeros or a plus sign before it |
| `LostWords.CanonicalExactly` | usr/src/cmd/ai-webserver/publish_manifest.py:466-477 | the decimal text of the integer that a text is read as is that text exactly if it has no leading zero and no plus sign |
| `LostWords.CodeIsCanonical` | usr/src/cmd/ai-webserver/verifyXML.py:121-136 | the padded code of an address is such a numeral exactly from 100.0.0.0 on |
| `Refusals.UnrecordedDecimalStep` | usr/src/cmd/ai-webserver/publish_manifest.py:491-498 | a bound that was not recorded counts as the same exactly if the stored number is one digit that occurs in the given text |
| `Refusals.DisjointRangesAreRefused` | usr/src/cmd/ai-webserver/publish_manifest.py:426-507 | criteria with the word of a stored row and a range behind its range, in whose texts the stored digits occur, are refused although no client suits both |
| `Refusals.ZeroMaximumIsOpen` | usr/src/cmd/ai-webserver/publish_manifest.py:353-372 | every range of numbers overlaps a stored maximum of 0, which no positive number meets |
| `Refusals.ZeroIsNone` | usr/src/cmd/ai-webserver/publish_manifest.py:479-490 | for criteria that leave a range out, the verdict on a row that bounds it by 0 is the verdict on the row without it |
| `BestMatch.ManifestColumnsAreRanked` | usr/src/cmd/ai-webserver/Makefile:87 | the shipped table has the columns that the ORDER BY names |
| `BestMatch.FirstDifferenceDecides` | usr/src/cmd/ai-webserver/AI_database.py:705-708 | the best match constrains the first ranked criterion in which it does not agree with another suitable row; if both do it is a value, and the best match has the greater text |
| `BestMatch.MacGoesFirst` | usr/src/cmd/ai-webserver/AI_database.py:705-708 | a suitable manifest for MAC addresses is never passed over for one without |
| `BestMatch.TieExactly` | usr/src/cmd/ai-webserver/AI_database.py:705-708 | rows tie exactly if they agree in all seven ranked criteria |
| `BestMatch.EqualKeysEqualConstraints` | usr/src/cmd/ai-webserver/AI_database.py:705-708 | equal keys mean equal constraint on each of the seven criteria |
| `BestMatch.TieNeedsUnrankedCriterion` | usr/src/cmd/ai-webserver/AI_database.py:705-708 | suitable rows of different names, in a table of admitted criteria, tie only if they differ in a criterion that is not ranked |
| `BestMatch.BestMatchIsStrict` | usr/src/cmd/ai-webserver/AI_database.py:700-709 | when the criteria in use are all ranked or only one, the best match outranks every suitable row of another name strictly |
| `BestMatch.AnswerIsDeterministic` | usr/src/cmd/ai-webserver/AI_database.py:565-600 | over such criteria findManifest gives one answer per client whatever the order of rows, also when rows share a name |
| `BestMatch.OneCriterionSuits` | usr/src/cmd/ai-webserver/AI_database.py:705-708 | over a single criterion, ranked or not, no client suits rows of two names |
| `InstanceNumbers.InsertContiguous` | usr/src/cmd/ai-webserver/data_files.py:202-215 | inserting with the present count keeps the instances of each name 0..n-1 |
| `InstanceNumbers.DeleteNameContiguous` | usr/src/cmd/ai-webserver/delete_manifest.py:104-112 | deleting a name keeps the numbering of the others |
| `InstanceNumbers.DeleteInstanceContiguous` | usr/src/cmd/ai-webserver/delete_manifest.py:131-156 | deleting one instance and moving the later ones down keeps 0..n-1, each once |
| `InstanceNumbers.RemoveOneCount` | usr/src/cmd/ai-webserver/delete_manifest.py:146-147 | one row goes exactly if the instance exists |
| `InstanceNumbers.CloseKeepsOrder` | usr/src/cmd/ai-webserver/delete_manifest.py:146-156 | renumbering keeps the order of the survivors |
| `ManifestTable.InsertValues` | usr/src/cmd/ai-webserver/data_files.py:219-258 | the positional value list puts into every column what that column stores for the criteria |
| `ManifestTable.ReplacementCells` | usr/src/cmd/ai-webserver/set_criteria.py:169-212 | without append every column is assigned, NULL for criteria not given |
| `ManifestTable.CheckCriteria` | usr/src/cmd/ai-webserver/publish_manifest.py:530-533 | success of the two checks in this order means admission beside the rows not excluded |
| `ManifestTable.Table.constructor` | usr/src/cmd/ai-webserver/Makefile:87 | a new table is empty and sound |
| `ManifestTable.Table.CreateManifest` | usr/src/cmd/ai-webserver/publish_manifest.py:510-544 | a taken name or colliding criteria change nothing, else exactly one row is inserted, no range of it given in reverse, and names stay unique exactly if no row had the stored name; unless a word is lost unnoticed, rows that are apart stay apart whatever the name |
| `ManifestTable.Table.SetCriteria` | usr/src/cmd/ai-webserver/set_criteria.py:117-311 | refused criteria or a name without row or file change nothing, else all rows of the name given and no others have the new criteria, which are any exactly if the name is its own sanitized form; unless a word is lost unnoticed, rows of different names stay apart, and all rows do exactly if one was written at most or no client meets the criteria |
| `ManifestTable.Table.DeleteManifest` | usr/src/cmd/ai-webserver/delete_manifest.py:82-165 | done exactly if the name as given, or else with .xml, has a row, is not the default and the instance is in bounds; then the rows of the name are gone, or the one instance with the later ones moved down, and all other rows are as before; rows that are apart stay so |
| `ManifestTable.Table.DeleteInstance` | usr/src/cmd/ai-webserver/delete_manifest.py:131-156 | removing and renumbering gives the closed table |
| `ManifestTable.Table.RenumberLater` | usr/src/cmd/ai-webserver/delete_manifest.py:146-156 | the UPDATE loop closes the gap |
| `ManifestTable.DeletedIsClosed` | usr/src/cmd/ai-webserver/delete_manifest.py:125-156 | the loop bound reaches every later instance, also when the instance number equals the count |
| `ManifestTable.DeletedIsGone` | usr/src/cmd/ai-webserver/delete_manifest.py:104-156 | after a deletion a row is there exactly if it was, or if its successor among the instances was |
| `ManifestTable.InsertKeeps` | usr/src/cmd/ai-webserver/publish_manifest.py:510-544 | inserting admitted criteria keeps rows apart, under any name, unless a word is lost unnoticed, and each row at its file unless another file has the stored name |
| `ManifestTable.InsertedStayApart` | usr/src/cmd/ai-webserver/publish_manifest.py:510-544 | an inserted row of admitted criteria is apart from every row, those of its own name included |
| `ManifestTable.InsertedNames` | usr/src/cmd/ai-webserver/data_files.py:202-215 | a new row keeps names unique exactly if no row has the name it is stored under |
| `ManifestTable.ReplaceKeeps` | usr/src/cmd/ai-webserver/set_criteria.py:279-311 | replacing by criteria admitted beside the other names keeps rows of different names apart unless a word is lost unnoticed, and all rows exactly if it writes one at most or no client meets the criteria |
| `ManifestTable.ReplacedApartExactly` | usr/src/cmd/ai-webserver/set_criteria.py:169-212 | of rows that are all apart, overwriting those of a name leaves all apart exactly if there is one at most or no client meets the criteria |
| `ManifestTable.OverwritesExactly` | usr/src/cmd/ai-webserver/set_criteria.py:279-311 | a name whose sanitized form is in the table has rows of its own to overwrite exactly if it is that form; otherwise nothing is overwritten |
| `ManifestTable.DeleteKeeps` | usr/src/cmd/ai-webserver/delete_manifest.py:82-165 | deleting and renumbering keep the table valid and rows that are apart, apart |
| `ManifestTable.ManifestColumnsAreAdjacent` | usr/src/cmd/ai-webserver/Makefile:87 | the shipped columns stand as the positional INSERT needs them |
| `ManifestRuns.Perform` | usr/src/cmd/ai-webserver/set_criteria.py:279-311 | any one command leaves of rows, files and default what the value-level command leaves; a refused one changes nothing |
| `ManifestRuns.AfterIsValid` | usr/src/cmd/ai-webserver/publish_manifest.py:510-544 | each command keeps validity and, unless it loses a word unnoticed, rows of different names apart; all rows if it is no set-criteria that some client meets on several rows |
| `ManifestRuns.EveryRun` | usr/src/cmd/ai-webserver/publish_manifest.py:510-544 | by induction over runs: validity, rows of different names apart, each row at its file if no two names are stored as one, and no criterion in use that was not named |
| `ManifestRuns.EveryRunWritingOnce` | usr/src/cmd/ai-webserver/set_criteria.py:169-212 | after runs in which each set-criteria writes one row at most, or criteria that no client meets, all rows are apart |
| `ManifestRuns.Run` | usr/src/cmd/ai-webserver/publish_manifest.py:510-544 | after any run of commands the table is what the commands leave one by one, instances are numbered from 0, only criteria named are in use, and, unless a word is lost unnoticed, no client suits two rows of different names with the same criteria, nor any two such rows if each set-criteria wrote one row at most |
| `ManifestRuns.SharedNameIsWrittenTwice` | usr/src/cmd/ai-webserver/set_criteria.py:279-311 | for every name that is not its own sanitized form: creating it and that form and setting criteria that some client meets leaves two rows that are not apart |
| `ManifestRuns.RunThenFind` | usr/src/cmd/ai-webserver/AI_database.py:565-600 | after any run on the shipped columns over decisive criteria that loses no word unnoticed, whatever the names, findManifest's answer is the only answer for the rows in any order |
| `Ties.UnrankedCriterionTies` | usr/src/cmd/ai-webserver/AI_database.py:705-708 | for any unranked criterion and any other, value or range: after two manifests are created in a new table, one for the other criterion and one for both, some client may be answered either |
| `Ties.DeterminedExactly` | usr/src/cmd/ai-webserver/AI_database.py:565-709 | for any set of criteria: after every run of commands that name no others and lose no word unnoticed, findManifest has one answer for every client exactly when all are ranked or there is at most one |
| `Ties.DeterminedOnManifests` | usr/src/cmd/ai-webserver/Makefile:87 | so it is on the shipped columns, for any set of their criteria |
| `Encodings.CheckIPv4` | usr/src/cmd/ai-webserver/verifyXML.py:103-136 | four decimal fields up to 255 give the twelve-digit text, anything else an error |
| `Encodings.EncodedIsCode` | usr/src/cmd/ai-webserver/verifyXML.py:121-136 | the text is the code padded to its width with zeros and reads back as the code |
| `Encodings.CodeOrder` | usr/src/cmd/ai-webserver/AI_database.py:649-667 | comparing stored integers is comparing 32-bit addresses |
| `Encodings.DottedExactly` | usr/src/cmd/ai-webserver/verifyXML.py:103-136 | a text is an address exactly if it is four decimal fields below 256 with dots between, and then their values |
| `Encodings.FormatInvertsCheck` | usr/src/cmd/ai-webserver/AI_database.py:740-745 | formatValue gives the dotted address back, leading zeros lost or not, for every address but 0.0.0.0 |
| `Encodings.DelimitedForms` | usr/src/cmd/installadm/installadm_common.py:724-776 | colon and dash forms of the same fields parse to the same canonical octets |
| `Encodings.MacExactly` | usr/src/cmd/installadm/installadm_common.py:724-776 | a text is a MAC address exactly if it spells six fields of one or two hexadecimal digits, with colons, dashes or, for two digits each, nothing between |
| `Encodings.OctetsKeepValues` | usr/src/cmd/installadm/installadm_common.py:757-766 | each of the six octets has the value of its field |
| `Encodings.CanonicalFormIsStable` | usr/src/cmd/installadm/installadm_common.py:724-776 | the undelimited text of a parsed address, and formatValue's text of that, parse to it again |
| `Encodings.PaddedIsDigits` | usr/src/cmd/ai-webserver/AI_database.py:741 | padding to a width yields exactly the decimal digits of that width |
| `Encodings.PrepBound` | usr/src/cmd/ai-webserver/verifyXML.py:313-334 | a bound comes out as "unbounded", a padded address, twelve hex digits or itself, or is refused; the digits denote the number of the six or four fields given, and are then fit for the collision check |
| `Encodings.PreparedNumber` | usr/src/cmd/ai-webserver/verifyXML.py:313-334 | a prepared mac bound denotes the 48-bit number of the six fields, a prepared address bound the code of the four |
| `Encodings.PrepValuesAndRanges` | usr/src/cmd/ai-webserver/verifyXML.py:254-350 | refused exactly when some element is a range for a value criterion, several values for a range one, or has a bound that is refused; else every range criterion has the prepared forms of its two words as lower and upper bound, of its one word as both |
| `Text.HexOrder` | usr/src/cmd/ai-webserver/AI_database.py:644-662 | upper-case hex texts of one length compare as text exactly as they compare as numbers |
| `Text.SplitJoin` | usr/src/cmd/ai-webserver/data_files.py:241-243 | splitting at blanks undoes joining words with blanks |
| `Text.SplitOnJoinOn` | usr/src/cmd/auto-install/ai_get_manifest.py:682-686 | splitting at a separator undoes joining texts without it |
| `Text.JoinOnSplitOn` | usr/src/cmd/auto-install/ai_get_manifest.py:682-686 | joining undoes splitting at the separator |
| `Text.DecimalValue` | usr/src/cmd/ai-webserver/publish_manifest.py:315-316 | the decimal text of a number reads back as the number |
| `Text.ValueGrowsWithBase` | usr/src/cmd/ai-webserver/publish_manifest.py:303-307 | decimal digits read in base 16 denote at least as much, and more from two digits on |
| `PostData.Decode` | usr/src/cmd/ai-webserver/cgi_get_manifest.py:257-270 | the consuming loop terminates and folds the pieces between semicolons in order |
| `PostData.Encode` | usr/src/cmd/auto-install/ai_get_manifest.py:682-686 | for every dictionary and every key order, the server reads the same dictionary exactly if no key or value has a semicolon or an equals sign |
| `PostData.ReadIsPlain` | usr/src/cmd/ai-webserver/cgi_get_manifest.py:257-270 | no text gives the server a dictionary with a separator in a key or value |
| `PostData.PairsAfterLastMalformed` | usr/src/cmd/ai-webserver/cgi_get_manifest.py:266-270 | the result is the decoding of the pairs behind the last malformed piece |
| `PostData.EqualsSignEmpties` | usr/src/cmd/ai-webserver/cgi_get_manifest.py:266-270 | a value with an equals sign empties the dictionary read so far |
| `DhcpMacros.GetIncludeVals` | usr/src/cmd/installadm/installadm-convert.py:259-276 | the recursion ends on acyclic graphs and gives the merge of the included chain |
| `DhcpMacros.ExpandMacros` | usr/src/cmd/installadm/installadm-convert.py:346-355 | in any dictionary order every macro ends as its whole original chain, with subnet set exactly when the chain has a netmask |
| `DhcpMacros.ChainEnd` | usr/src/cmd/installadm/installadm-convert.py:259-276 | the merged chain has the Include of its last macro, so a finished macro leads past its chain |
| `DhcpMacros.PartlyRanked` | usr/src/cmd/installadm/installadm-convert.py:346-348 | overwritten Include keys make no cycle |
| `DhcpMacros.MixedChain` | usr/src/cmd/installadm/installadm-convert.py:346-348 | following overwritten keys from any half-expanded state still collects the original chain |
| `DhcpMacros.LastHolderDecides` | usr/src/cmd/installadm/installadm-convert.py:269-275 | a key has the value of the last macro on the chain that has it |
| `DhcpMacros.ChainIsUnique` | usr/src/cmd/installadm/installadm-convert.py:259-276 | the chain does not depend on the ranking that shows it acyclic |
| `IpRanges.GenerateIpRanges` | usr/src/cmd/installadm/installadm-convert.py:174-218 | the ranges expand to exactly the sorted addresses, no range goes on where the one before it ends |
| `IpRanges.Compress` | usr/src/cmd/installadm/installadm-convert.py:200-216 | the loop over sorted addresses builds such a compression with the first server's address |
| `IpRanges.SortedIsSorted` | usr/src/cmd/installadm/installadm-convert.py:193-195 | sorting by the unpacked word orders by it and keeps every address |
| `IpRanges.SortedAscends` | usr/src/cmd/installadm/installadm-convert.py:191-195 | distinct addresses come out strictly ascending by the unpacked word |
| `IpRanges.RangesAscend` | usr/src/cmd/installadm/installadm-convert.py:200-216 | the ranges ascend in the order of the unpacked words |
| `IpRanges.MergeExactly` | usr/src/cmd/installadm/installadm-convert.py:191-216 | for distinct clients two ranges could be merged exactly if the order puts a client between another and the client at the next address |
| `IpRanges.RangesAreMaximal` | usr/src/cmd/installadm/installadm-convert.py:191-216 | on a big-endian host, and on any host inside one /24, no two ranges could be merged |
| `IpRanges.InterleavedNetworks` | usr/src/cmd/installadm/installadm-convert.py:119-131 | on a little-endian host a client of a later /24 keeps two adjacent clients in ranges that could be merged |
| `Bits.AndSplits` | usr/src/cmd/installadm/installadm_common.py:894-895 | AND of two-part numbers is the parts' AND |
| `Bits.WordsAgreeByOctets` | usr/src/cmd/installadm/installadm_common.py:824-827 | words packed in reversed octet order agree under a mask exactly when each octet does |
| `Bits.AndOctetMask` | usr/src/cmd/installadm/installadm_common.py:841 | AND with a mask of k leading ones clears the other bits of the octet |
| `Bits.MaskedOctetsAgree` | usr/src/cmd/installadm/installadm_common.py:894-895 | octets agree under such a mask exactly when their first k bits do |
| `Bits.MaskedOctetsConvex` | usr/src/cmd/installadm/dhcp.py:1211-1218 | what lies between two octets that agree under the mask agrees with them |
| `Cidr.ConvertCidrMask` | usr/src/cmd/installadm/installadm_common.py:830-860 | lengths above 32 are invalid, every other gives the mask of that many leading ones |
| `Cidr.MaskedWordsAgree` | usr/src/cmd/installadm/installadm_common.py:863-900 | ANDing the reversed words compares the first n bits in network order |
| `Cidr.CompareIPv4` | usr/src/cmd/installadm/installadm_common.py:863-900 | true exactly for equal addresses or a shared prefix of the given length (section 3.1 of RFC 4632), false for an invalid length |
| `Cidr.InNetworks` | usr/src/cmd/installadm/installadm_common.py:903-924 | true exactly when some network of the list contains the address |
| `Cidr.GetValidNetworks` | usr/src/cmd/installadm/installadm_common.py:927-981 | exactly the addresses in a listed network, or exactly the others when the list excludes |
| `AddressRanges.SetAndCheckHiaddr` | usr/src/cmd/installadm/dhcp.py:1221-1239 | the end of the range, unless the last octet overflows or the end leaves the subnet |
| `AddressRanges.CheckForOverlap` | usr/src/cmd/installadm/dhcp.py:1242-1267 | the set test fires exactly when last octets meet |
| `AddressRanges.OctetSetsMeet` | usr/src/cmd/installadm/dhcp.py:1253-1262 | sets of last octets share a member exactly when the intervals meet |
| `AddressRanges.NewRangeIsDisjoint` | usr/src/cmd/installadm/dhcp.py:1242-1267 | disjoint last octets inside a subnet, or different subnets, mean no shared 32-bit address |
| `AddressRanges.MembersAreInSubnet` | usr/src/cmd/installadm/dhcp.py:1221-1239 | every address of a range, not only its ends, is in the subnet |
| `AddressRanges.OctetCheckIsExactIn24` | usr/src/cmd/installadm/dhcp.py:1242-1267 | inside one /24 the octet test fires exactly for a shared address |
| `AddressRanges.FalseOverlapExactly` | usr/src/cmd/installadm/dhcp.py:1242-1267 | where octets meet, two ranges share no address exactly when they lie in different /24s |
| `AddressRanges.WithRangeIsInsertion` | usr/src/cmd/installadm/dhcp.py:882-888 | the copy adds one line, right behind the subnet's header |
| `AddressRanges.DHCPServer.constructor` | usr/src/cmd/installadm/dhcp.py:654-668 | a fresh configuration is good |
| `AddressRanges.DHCPServer.AddAddressRange` | usr/src/cmd/installadm/dhcp.py:784-850 | the outcome of the checks in order; refusal changes nothing, success adds one range of exactly count addresses in its subnet; the ranges of the file are the old ones and this one |
| `AddressRanges.DHCPServer.AddRangeToSubnet` | usr/src/cmd/installadm/dhcp.py:852-891 | the copy loop puts the range behind every header of the subnet |
| `AddressRanges.FileAnswers` | usr/src/cmd/installadm/dhcp.py:784-891 | a request is answered from the earlier requests alone: out of bounds, overlapping an added range of its subnet, without a next server for a subnet not seen before, or added |
| `AddressRanges.Run` | usr/src/cmd/installadm/dhcp.py:784-891 | after any run of requests each was answered as the requests before it decide, the ranges and subnets of the file are exactly those added, the ranges are pairwise disjoint, and each stands in the stanza of its own subnet |
| `HostStanzas.RemoveHost` | usr/src/cmd/installadm/dhcp.py:940-1017 | the loop over flags and lists is the filter over squeezed lines |
| `HostStanzas.FilterRemovesFirst` | usr/src/cmd/installadm/dhcp.py:971-1016 | on well-formed lines the filter removes exactly the first stanza whose body has the address |
| `HostStanzas.FilterIgnoresBlanks` | usr/src/cmd/installadm/dhcp.py:972-978 | blank lines change nothing about which other lines are kept |
| `HostStanzas.RemoveHostOnWellFormed` | usr/src/cmd/installadm/dhcp.py:940-1024 | the first stanza that mentions the address goes, every other line that is not blank stays, in order |
| `HostStanzas.HostIsConfigured` | usr/src/cmd/installadm/dhcp.py:893-917 | true exactly when some statement of the current configuration gives the address, in any case |
| `HostStanzas.HardwareExactly` | usr/src/cmd/installadm/dhcp.py:893-907 | the reader's pattern finds an address in a text exactly if it stands behind the keyword and blanks, up to the last semicolon of its word |
| `HostStanzas.AddHost` | usr/src/cmd/installadm/dhcp.py:919-938 | a configured address is refused, else the stanza is appended, in which the readers find the host name in the header, the address as configured, and the bootfile as the first filename |
| `HostStanzas.HostItemIsWellFormed` | usr/src/cmd/installadm/dhcp.py:188-193 | the stanza that is appended is well formed, whatever its values |
| `HostStanzas.HardwareLineReads` | usr/src/cmd/installadm/dhcp.py:893-907 | the reader's pattern gives back the address that the stanza was made with |
| `HostStanzas.AddedFileReads` | usr/src/cmd/installadm/dhcp.py:188-193 | the first filename that is seen in the appended stanza is the bootfile |
| `HostStanzas.RemoveUndoesAdd` | usr/src/cmd/installadm/dhcp.py:919-1024 | removing the added host gives the old lines but for blank ones, and the address is configured no more, exactly when no earlier stanza mentions it |
| `ArchClass.ReadClass` | usr/src/cmd/installadm/dhcp.py:352-408 | the loop with its restarts and early exit reads the class that the recursive reading gives |
| `ArchClass.EditClassBootfile` | usr/src/cmd/installadm/dhcp.py:449-585 | the copy loop inserts, replaces or drops exactly one line, at the edit point, or changes nothing and reports that |
| `ArchClass.EditFromIsEdit` | usr/src/cmd/installadm/dhcp.py:508-571 | all other lines are copied in order |
| `ArchClass.DHCPArchClass.GetArch` | usr/src/cmd/installadm/dhcp.py:352-408 | an object exactly when the file has the class, with the bootfile the file gives |
| `ArchClass.DHCPArchClass.SetBootfile` | usr/src/cmd/installadm/dhcp.py:410-423 | refused when a bootfile is set, else file and object have it |
| `ArchClass.DHCPArchClass.UnsetBootfile` | usr/src/cmd/installadm/dhcp.py:425-437 | refused when none is set, else the edit is made and the object has none |
| `ArchClass.DHCPArchClass.UpdateBootfile` | usr/src/cmd/installadm/dhcp.py:439-447 | the object has the new bootfile whether or not the file had a line to edit |
| `ClassLines.SeenIsFound` | usr/src/cmd/installadm/dhcp.py:483 | every filename that the reader's pattern sees is one the editor's pattern finds in the raw line |
| `ClassLines.FilenameExactly` | usr/src/cmd/installadm/dhcp.py:397 | the reader's pattern finds a bootfile in a text exactly if it stands in quotes behind the keyword and blanks, up to the last closing quote of its word |
| `ClassLines.StatementExactly` | usr/src/cmd/installadm/dhcp.py:483 | the editor's pattern fits a text exactly if a word and a semicolon stand behind the keyword and blanks |
| `ConfigLines.ReadsAsConfig` | usr/src/cmd/installadm/dhcp.py:641-656 | blanks around a line make no difference; comments and logging statements are not read |
| `ClassLines.NewLineReads` | usr/src/cmd/installadm/dhcp.py:178-180 | the line the editor writes is read back as the bootfile, and found by the editor |
| `ClassStanzas.ReadFile` | usr/src/cmd/installadm/dhcp.py:372-408 | on a well-formed file get_arch gives the first visible filename of the first class of the architecture |
| `ClassStanzas.EditFile` | usr/src/cmd/installadm/dhcp.py:508-571 | on a well-formed file only the first class with an edit point changes |
| `ClassStanzas.SetThenGet` | usr/src/cmd/installadm/dhcp.py:410-423 | after set, get_arch gives the bootfile |
| `ClassStanzas.UpdateThenGet` | usr/src/cmd/installadm/dhcp.py:439-447 | after update, get_arch gives the bootfile exactly when a filename statement stands behind the match line, else it reads as before |
| `ClassStanzas.UnsetThenGet` | usr/src/cmd/installadm/dhcp.py:425-437 | after unset, get_arch gives what stands behind the removed line, so none after a single filename |
| `ClassStanzas.UnsetMissesBehindComment` | usr/src/cmd/installadm/dhcp.py:532-547 | a commented filename in front of the real one leaves the real one in force |
| `ClassStanzas.OtherClassUnchanged` | usr/src/cmd/installadm/dhcp.py:449-585 | the other architecture reads as before any edit |
| `ClassStanzas.LastUpdateWins` | usr/src/cmd/installadm/dhcp.py:439-447 | an update or unset after an update gives the lines it would give without the earlier one |
| `ClassStanzas.UnsetUndoesSet` | usr/src/cmd/installadm/dhcp.py:410-437 | unset after set gives the old file line for line |
| `ClassStanzas.NewClassIsWellFormed` | usr/src/cmd/installadm/dhcp.py:159-176 | the stanzas that are appended are well-formed classes of their own architecture alone |
| `ClassStanzas.AddThenGet` | usr/src/cmd/installadm/dhcp.py:1047-1069 | after add_arch_class, get_arch gives the bootfile and the other architecture reads as before |
| `Multicast.AddKeeps` | usr/src/cmd/installadm/aimdns_mod.py:540-550 | a new batch keeps the open references those of the dictionary |
| `Multicast.DropKeeps` | usr/src/cmd/installadm/aimdns_mod.py:584-589 | closing a batch once and deleting its key keeps it so, every dropped reference closed exactly once |
| `Multicast.DictionaryIsOpen` | usr/src/cmd/installadm/aimdns_mod.py:259-267 | the references collected for select() are exactly the open ones |
| `Multicast.AImDNS.RegisterAService` | usr/src/cmd/installadm/aimdns_mod.py:337-458 | None for a disabled service, else one announcement for each interface whose address starts with a valid network, in order: its port is the number that the service's text, or else the default of the server, reads as, or 5555, and its record names the host and that text under the service's key |
| `Multicast.LikeNewAnnounces` | usr/src/cmd/installadm/aimdns_mod.py:398-458 | an entry as registered from scratch announces host, port and key of the service as configured, on every interface in a valid network and on no other |
| `Multicast.AImDNS.RegisterAll` | usr/src/cmd/installadm/aimdns_mod.py:594-642 | exactly the enabled services that get a reference are in the dictionary |
| `Multicast.AImDNS.Unregister` | usr/src/cmd/installadm/aimdns_mod.py:584-589 | every reference of the service is closed, in order, and the key is gone |
| `Multicast.AImDNS.SignalHup` | usr/src/cmd/installadm/aimdns_mod.py:516-592 | the keys are exactly the enabled services, kept ones have their references, new ones those of a fresh registration, and the restart flag is set exactly when the dictionary changed |
| `Multicast.HandledMeans` | usr/src/cmd/installadm/aimdns_mod.py:516-592 | what any number of rounds with and without SIGHUP leave, by induction: exactly the services enabled last have entries, old ones kept, others as registered from scratch under a configuration that arrived |
| `Multicast.AImDNS.HandleEvents` | usr/src/cmd/installadm/aimdns_mod.py:226-304 | select() always waits on exactly the open references; afterwards the entries are those of the services enabled at the last SIGHUP that arrived, each one of the start or made by one of the SIGHUPs |
| `Multicast.StaysInStep` | usr/src/cmd/installadm/aimdns_mod.py:516-592 | one SIGHUP keeps each entry equal to a fresh registration under the configuration it was made in |
| `Multicast.Run` | usr/src/cmd/installadm/aimdns_mod.py:516-642 | after register_all and any SIGHUPs the entries are those of the enabled services, each announcing the service as it was configured when its present spell began, and up to date exactly if that setting is the present one |
| `Multicast.SameFromScratch` | usr/src/cmd/installadm/aimdns_mod.py:337-458 | registering from scratch offers the same interfaces, ports and text records under two configurations exactly if the interfaces on valid networks and, when there are any, the key and the text of the port are the same |
| `Multicast.UpToDateExactly` | usr/src/cmd/installadm/aimdns_mod.py:516-592 | an entry is that of a fresh registration exactly if the configuration it was made under has the present setting |
| `Multicast.ChangedPortIsMissed` | usr/src/cmd/installadm/aimdns_mod.py:533-541 | a port or a key changed between two SIGHUPs is not registered |
| `Multicast.ChangedNetworksAreMissed` | usr/src/cmd/installadm/aimdns_mod.py:385-541 | an interface no longer on a valid network keeps its registration, whatever the port |
| `AliasGraph.GetAliasedServices` | usr/src/cmd/installadm/service_config.py:297-322 | on any acyclic graph the recursion ends and lists the direct, or all transitive, aliases exactly once each |
| `AliasGraph.DependsThroughBase` | usr/src/cmd/installadm/service_config.py:315-319 | depending on a service is being its alias or having a base that depends on it |
| `AliasGraph.OneChain` | usr/src/cmd/installadm/service_config.py:315-319 | two services one service depends on stand on one chain |
| `AliasGraph.SiblingsShareNothing` | usr/src/cmd/installadm/service_config.py:315-319 | no service depends on two aliases of one base, so the lists joined are disjoint |
| `InstallServices.FlatDependents` | usr/src/cmd/installadm/create_service.py:367-369 | where no alias is of an alias, the dependents are the direct aliases |
| `InstallServices.RenamedKeeps` | usr/src/cmd/installadm/rename_service.py:142-149 | moving a service and re-pointing its aliases keeps the graph flat and clients in one service |
| `InstallServices.OnlyHit` | usr/src/cmd/installadm/service_config.py:402-414 | stopping at the first hit misses no client entry |
| `InstallServices.IdFromMac` | usr/src/cmd/installadm/rename_service.py:163-170 | stripping 01 and putting it back gives the stored id |
| `InstallServices.BaseDependsOnNothing` | usr/src/cmd/installadm/set_service.py:163-168 | a service that is no alias depends on none |
| `InstallServices.Registry.FindClient` | usr/src/cmd/installadm/service_config.py:383-416 | some service with the client, in any case of its id, or none exactly when no service has it |
| `InstallServices.Registry.IsClient` | usr/src/cmd/installadm/service_config.py:419-445 | true exactly when some service has the client |
| `InstallServices.Registry.GetClients` | usr/src/cmd/installadm/service_config.py:354-380 | each client once, its id in upper case |
| `InstallServices.Registry.RemoveClient` | usr/src/cmd/installadm/client_control.py:204-223 | the client is gone from every service, nothing else changes |
| `InstallServices.Registry.DeleteClient` | usr/src/cmd/installadm/delete_client.py:69-84 | refused exactly when no service has the client |
| `InstallServices.Registry.CreateNewClient` | usr/src/cmd/installadm/create_client.py:133-159 | the client's entry is added, with boot arguments for i386 only |
| `InstallServices.Registry.CreateClient` | usr/src/cmd/installadm/create_client.py:162-185 | whatever service had the client, afterwards this one alone has it |
| `InstallServices.Registry.CreateAlias` | usr/src/cmd/installadm/create_service.py:357-398 | done exactly for a free name and an existing base that is no alias, unless a default name does not fit the architecture; else nothing changes |
| `InstallServices.Registry.SetAliasof` | usr/src/cmd/installadm/set_service.py:130-181 | done exactly when the alias gets another existing base of its architecture that is no alias |
| `InstallServices.Registry.DeleteService` | usr/src/cmd/installadm/delete_service.py:131-215 | refused with dependents and no autoremove, else exactly the service, its aliases and their clients go |
| `InstallServices.Registry.RenameService` | usr/src/cmd/installadm/rename_service.py:83-175 | exactly the name and the aliases' base change: the clients taken off and put back are the same, boot arguments included |
| `InstallServices.Run` | usr/src/cmd/installadm/service_config.py:297-472 | after any run of commands the configuration is what they leave one by one, every alias is of an existing service that is none, each client is in one service, and no default alias is of the other architecture |
| `InstallServices.Perform` | usr/src/cmd/installadm/service_config.py:297-472 | any one command leaves what the value-level command leaves, nothing new when it is refused |
| `InstallServices.WrongDefaultExactly` | usr/src/cmd/installadm/create_service.py:373-379 | a default name is refused exactly for the architecture of the other default |
| `Grub.PartitionAt` | usr/src/cmd/installadm/grub.py:83-89 | partition cuts at the separator when it does not occur before |
| `Grub.Rewrite` | usr/src/cmd/installadm/grub.py:52-64 | the in-place loop edits line by line |
| `Grub.ParametersRead` | usr/src/cmd/installadm/grub.py:174-192 | the parameters of a generated kernel line are the boot arguments, install=true in the installing entry, and the three that name the image, the service and the server |
| `Grub.ReplaceExactly` | usr/src/cmd/installadm/grub.py:59-60 | replacing all occurrences changes a text exactly if there is one and the new text is another |
| `Grub.BootargsKernel` | usr/src/cmd/installadm/grub.py:52-64 | a kernel line is edited into the one generated for the new arguments exactly if the old ones, which start with no blank, do not recur among its other parameters or are the new ones |
| `Grub.RenamedMenu` | usr/src/cmd/installadm/grub.py:67-97 | update_svcname on a generated menu gives the menu of the new name exactly when the image has its own title or the name is the same |
| `Grub.RelocatedMenu` | usr/src/cmd/installadm/grub.py:100-138 | update_imagepath on a generated menu gives the menu of the new path |
| `Grub.RebootedMenu` | usr/src/cmd/installadm/grub.py:39-64 | update_bootargs on a generated menu gives the menu of the new arguments, outer blanks stripped, exactly if the old ones, which start with no blank, recur in neither kernel line or are the new ones |
| `Grub.InstallArgumentRecurs` | usr/src/cmd/installadm/create_service.py:687 | for the old arguments install=true, it does exactly if they are the new ones |
| `Grub.BlankBootargsStay` | usr/src/cmd/installadm/grub.py:56-63 | old arguments that start with a blank, and are not found in the line, stay behind the new ones unless they are blanks only |

## Left out

- set-criteria -a: append mode walks the characters of stored texts, so the unambiguity of rows is not claimed for it.
- Profiles: their table shares the criteria code but has no collision check.
- SQLite: column affinity, 64-bit integers, quoting and the error raised for a non-numeric client value; such a value fails its clause here.
- Column names: prefix surgery on names is replaced by a datatype, and endswith("mac") by equality.
- int() and long(): blanks around a numeral and an L suffix are not read, nor signs in the fields of a MAC or dotted address; a field like "+f" is refused here where MACAddress takes it.
- Dotted addresses: octets with a leading zero that inet_aton reads in base 8.
- Admission.AdmittedRowIsUnambiguous: soundness only, with the exact conditions in LostWords.MissesExactly and Admission.SafeMemorySizes; what is refused without need is stated step by step in Admission.RecordedDecimalStep and in Refusals.
- XML, DTD and RelaxNG validation, MIME assembly, templating and HTTP: what the schema admits is a precondition.
- DHCP files edited by hand: nested or unterminated host stanzas, class lines outside a class, a filename before the match line of its class.
- HostStanzas.RemoveHost: the address is searched as plain text; it has no characters that a pattern would treat specially.
- SPARC bootfile fixup, route, name service and next-server discovery.
- AddressRanges.Run: the mask lookup is a given function that gives one prefix length to all addresses of a network.
- CIDR lengths below zero, and addresses that are not four octets.
- Files: permissions, temporary copies and rename, and commands that stop half way on an I/O error.
- SMF, mounting, the DHCP server restart, prompts and the list and export output.
- Multicast.AImDNS.HandleEvents: a SIGHUP arrives while select() waits; one between collecting the references and resetting the restart flag would be overlooked until the next.
- Multicast: ad hoc registration, browse and find, and errors raised while registering.
- InstallServices.Registry.CreateAlias: the check of the image version, and services made with failing steps.
- InstallServices.Registry.RenameService: a client whose menu file cannot be copied is lost in the original; here the copy succeeds.
- IpRanges.GenerateIpRanges: an empty list of addresses, which the original does not guard against, gives no result; the native long holds four bytes.
- Grub: newline characters are not part of a line, and line ends are not stripped with blanks.
- Grub.RelocatedMenu: image paths that occur in the address of the server, where the first occurrence is replaced, are not claimed to move.
- Grub.BlankBootargsStay: arguments that start with a blank and occur with it in an address, path or name behind them.
- Ties.UnrankedCriterionTies: on tables whose criterion names have capitals or commas; the shipped names have none.
- ManifestRuns.EveryRunWritingOnce: one direction; rows written twice may be deleted or overwritten later in the run.
- image path conversion, auto_install and distro_const checkpoints, the text UI and option parsing.
