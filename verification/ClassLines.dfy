/** Text of the lines in a class stanza: which of them the patterns of ArchClass find, and that the
    lines the editor writes are read back. */
module ClassLines {
  import opened Text
  import opened ConfigLines
  import opened ArchClass

  // ----- a filename that the reader sees is one that the editor finds -------------------------

  lemma {:induction false} LStripAppend(s: string, t: string)
    requires LStrip(s) != ""
    ensures LStrip(s + t) == LStrip(s) + t
  {
    if IsSpace(s[0]) {
      assert (s + t)[1..] == s[1..] + t;
      LStripAppend(s[1..], t);
    }
  }

  lemma {:induction false} LStripShortens(s: string)
    ensures |LStrip(s)| <= |s|
  {
    if s != "" && IsSpace(s[0]) {
      LStripShortens(s[1..]);
    }
  }

  lemma {:induction false} WordGrows(s: string, t: string)
    ensures WordLength(s) <= WordLength(s + t)
  {
    if s != "" && !IsSpace(s[0]) {
      assert (s + t)[1..] == s[1..] + t;
      WordGrows(s[1..], t);
    }
  }

  lemma StartAppend(s: string, t: string, prefix: string)
    requires StartsWith(s, prefix)
    ensures StartsWith(s + t, prefix) && (s + t)[|prefix|..] == s[|prefix|..] + t
  {
    assert (s + t)[..|prefix|] == s[..|prefix|];
  }

  lemma FilenameAtAppend(s: string, t: string)
    requires FilenameAt(s)
    ensures FilenameAt(s + t)
  {
    var tail := s[|FILENAME|..];
    var rest := LStrip(tail);
    StartAppend(s, t, FILENAME);
    assert WordLength(rest) > 0;
    LStripAppend(tail, t);
    WordGrows(rest, t);
    var k :| 0 <= k < |WordAt(rest)[1..]| && WordAt(rest)[1..][k] == ';';
    assert WordAt(rest + t)[1..][k] == ';';
  }

  lemma {:induction false} HasFilenameAppend(s: string, t: string)
    requires HasFilename(s)
    ensures HasFilename(s + t)
  {
    if FilenameAt(s) {
      FilenameAtAppend(s, t);
    } else {
      assert (s + t)[1..] == s[1..] + t;
      HasFilenameAppend(s[1..], t);
    }
  }

  lemma {:induction false} StrippedHasFilename(s: string)
    ensures HasFilename(LStrip(s)) ==> HasFilename(s)
  {
    if s != "" && IsSpace(s[0]) {
      StrippedHasFilename(s[1..]);
    }
  }

  lemma {:induction false} RStrippedHasFilename(s: string)
    ensures HasFilename(RStrip(s)) ==> HasFilename(s)
  {
    if s != "" && IsSpace(s[|s| - 1]) {
      var front := s[..|s| - 1];
      RStrippedHasFilename(front);
      assert s == front + [s[|s| - 1]];
      if HasFilename(front) {
        HasFilenameAppend(front, [s[|s| - 1]]);
      }
    }
  }

  // ----- the two patterns for a filename --------------------------------------------------------

  predicate NoQuoteEnd(s: string) {
    forall i | 0 <= i < |s| - 1 :: !(s[i] == '"' && s[i + 1] == ';')
  }

  /** The text is the keyword, blanks, the bootfile in quotes, a semicolon and a rest whose first word
      has no further closing quote with a semicolon. */
  predicate FilenameText(text: string, blanks: string, bootfile: string, rest: string) {
    && text == FILENAME + (blanks + ("\"" + (bootfile + ("\";" + rest))))
    && blanks != "" && AllSpace(blanks) && IsWord(bootfile) && NoQuoteEnd(rest[..WordLength(rest)])
  }

  lemma QuotedWord(bootfile: string, rest: string)
    requires IsWord(bootfile) && NoQuoteEnd(rest[..WordLength(rest)])
    ensures var found := "\"" + (bootfile + ("\";" + rest));
            WordLength(found) > 0 && LastQuote(found[..WordLength(found)]) == |bootfile| + 1
            && found[..WordLength(found)][1..|bootfile| + 1] == bootfile
  {
    var found, n := "\"" + (bootfile + ("\";" + rest)), |bootfile| + 1;
    assert forall i | 1 <= i < n :: found[i] == bootfile[i - 1];
    assert found[0] == '"' && found[n] == '"' && found[n + 1] == ';' && found[n + 2..] == rest;
    WordReaches(found, n + 2);
    WordLengthFrom(found, n + 2);
    var word := found[..WordLength(found)];
    assert forall i | n + 2 <= i < |word| :: word[i] == rest[..WordLength(rest)][i - n - 2];
    assert word[n] == '"' && word[n + 1] == ';';
    assert word[1..n] == bootfile;
  }

  lemma FilenameTextIsRead(text: string, blanks: string, bootfile: string, rest: string)
    requires FilenameText(text, blanks, bootfile, rest)
    ensures FilenameOf(text) == Some(bootfile)
  {
    var found := "\"" + (bootfile + ("\";" + rest));
    assert text[..|FILENAME|] == FILENAME && text[|FILENAME|..] == blanks + found;
    assert found[0] == '"';
    LStripBlanks(blanks, found);
    QuotedWord(bootfile, rest);
  }

  /** n is the length of the first word. */
  lemma CutAtQuote(found: string, n: nat, k: nat)
    requires 2 <= k && k + 1 < n <= |found| && found[0] == '"' && found[k] == '"' && found[k + 1] == ';'
    requires forall i | 0 <= i < n :: !IsSpace(found[i])
    requires forall i | k < i < n - 1 :: !(found[i] == '"' && found[i + 1] == ';')
    ensures found == "\"" + (found[1..k] + ("\";" + found[k + 2..])) && IsWord(found[1..k])
    ensures NoQuoteEnd(found[k + 2..][..n - k - 2])
  {}

  lemma SliceOfFront(s: string, n: nat, i: nat, j: nat)
    requires i <= j <= n <= |s|
    ensures s[..n][i..j] == s[i..j]
  {}

  /** The quoted word behind the keyword. */
  lemma FilenameWord(text: string, bootfile: string) returns (found: string, k: nat)
    requires FilenameOf(text) == Some(bootfile)
    ensures StartsWith(text, FILENAME) && found == LStrip(text[|FILENAME|..]) && |found| < |text| - |FILENAME|
    ensures 2 <= k && k + 1 < WordLength(found) && found[0] == '"' && found[k] == '"' && found[k + 1] == ';'
    ensures forall i | k < i < WordLength(found) - 1 :: !(found[i] == '"' && found[i + 1] == ';')
    ensures bootfile == found[1..k]
  {
    found := LStrip(text[|FILENAME|..]);
    LStripShortens(text[|FILENAME|..]);
    var n := WordLength(found);
    assert n > 0;
    var word := found[..n];
    k := LastQuote(word);
    assert forall i | 0 <= i < n :: word[i] == found[i];
    SliceOfFront(found, n, 1, k);
  }

  lemma FilenameParts(text: string, bootfile: string) returns (blanks: string, rest: string)
    requires FilenameOf(text) == Some(bootfile)
    ensures FilenameText(text, blanks, bootfile, rest)
  {
    var found, k := FilenameWord(text, bootfile);
    blanks := LStripSplits(text[|FILENAME|..]);
    CutAtQuote(found, WordLength(found), k);
    rest := found[k + 2..];
    WordLengthFrom(found, k + 2);
    TextSplits(text, FILENAME);
  }

  /** The reader's pattern finds a bootfile in a text exactly as it stands there. */
  lemma FilenameExactly(text: string, bootfile: string)
    ensures FilenameOf(text) == Some(bootfile) <==> exists blanks, rest :: FilenameText(text, blanks, bootfile, rest)
  {
    if FilenameOf(text) == Some(bootfile) {
      var blanks, rest := FilenameParts(text, bootfile);
    }
    if blanks, rest :| FilenameText(text, blanks, bootfile, rest) {
      FilenameTextIsRead(text, blanks, bootfile, rest);
    }
  }

  /** The text starts with the keyword, blanks, a word and a semicolon. */
  predicate FilenameStatement(text: string, blanks: string, word: string, rest: string) {
    text == FILENAME + (blanks + (word + (";" + rest))) && blanks != "" && AllSpace(blanks) && IsWord(word)
  }

  lemma StatementIsFound(text: string, blanks: string, word: string, rest: string)
    requires FilenameStatement(text, blanks, word, rest)
    ensures FilenameAt(text)
  {
    var found := word + (";" + rest);
    assert text[..|FILENAME|] == FILENAME && text[|FILENAME|..] == blanks + found;
    assert found[0] == word[0];
    LStripBlanks(blanks, found);
    assert forall i | 0 <= i < |word| :: found[i] == word[i];
    WordReaches(found, |word| + 1);
    assert WordAt(found)[1..][|word| - 1] == ';';
  }

  /** The editor's pattern takes any word for the bootfile. */
  lemma StatementExactly(text: string)
    ensures FilenameAt(text) <==> exists blanks, word, rest :: FilenameStatement(text, blanks, word, rest)
  {
    if FilenameAt(text) {
      var tail := text[|FILENAME|..];
      var blanks := LStripSplits(tail);
      var found := LStrip(tail);
      var j :| 1 <= j < |WordAt(found)| && WordAt(found)[j] == ';';
      assert found[j] == ';';
      CutAt(found, j);
      TextSplits(text, FILENAME);
      LStripShortens(tail);
      assert FilenameStatement(text, blanks, found[..j], found[j + 1..]);
    }
    if blanks, word, rest :| FilenameStatement(text, blanks, word, rest) {
      StatementIsFound(text, blanks, word, rest);
    }
  }

  function SeenFilename(line: string): Option<string> {
    match ConfigLine(line)
    case None => None
    case Some(text) => FilenameOf(text)
  }

  function FirstSeen(body: Lines): Option<string> {
    if body == [] then None
    else if SeenFilename(body[0]).Some? then SeenFilename(body[0])
    else FirstSeen(body[1..])
  }

  lemma SeenCons(line: string, rest: Lines)
    ensures FirstSeen([line] + rest) == if SeenFilename(line).Some? then SeenFilename(line) else FirstSeen(rest)
  {
    assert ([line] + rest)[1..] == rest;
  }

  lemma FilenameTextIsFound(text: string)
    requires FilenameOf(text).Some?
    ensures HasFilename(text)
  {
    var rest := LStrip(text[|FILENAME|..]);
    LStripShortens(text[|FILENAME|..]);
    var word := WordAt(rest);
    var k := LastQuote(word);
    assert word[1..][k] == ';';
    assert FilenameAt(text);
  }

  lemma StrippedIsFound(before: string)
    requires FilenameOf(RStrip(LStrip(before))).Some?
    ensures HasFilename(before)
  {
    FilenameTextIsFound(RStrip(LStrip(before)));
    RStrippedHasFilename(LStrip(before));
    StrippedHasFilename(before);
  }

  lemma SeenIsFound(line: string)
    ensures SeenFilename(line).Some? ==> HasFilename(line)
  {
    if SeenFilename(line).Some? {
      var n := IndexOf(line, '#');
      var before, after := line[..n], line[n..];
      StrippedIsFound(before);
      HasFilenameAppend(before, after);
      assert line == before + after;
    }
  }

  // ----- the line that the editor writes ------------------------------------------------------

  /** A path or option without whitespace and comment sign. */
  predicate BootText(bootfile: string) {
    IsWord(bootfile) && '#' !in bootfile
  }

  function NewText(bootfile: string): string {
    FILENAME + (" " + ("\"" + (bootfile + "\";")))
  }

  lemma NewTextReads(bootfile: string)
    requires BootText(bootfile)
    ensures FilenameOf(NewText(bootfile)) == Some(bootfile)
  {
    var word := "\"" + (bootfile + "\";");
    var text := NewText(bootfile);
    assert text[..|FILENAME|] == FILENAME && text[|FILENAME|..] == " " + word;
    assert (" " + word)[1..] == word;
    assert word[0] == '"' && LStrip(word) == word && LStrip(" " + word) == word;
    assert forall i | 0 <= i < |word| :: !IsSpace(word[i]);
    assert WordLength(word) == |word|;
    assert word[..|word|] == word;
    assert word[|word| - 2] == '"' && word[|word| - 1] == ';';
    assert word[1..|word| - 2] == bootfile;
  }

  lemma NewLineIsSeen(bootfile: string)
    requires BootText(bootfile)
    ensures ConfigLine(NewLine(bootfile)) == Some(NewText(bootfile))
  {
    var line, text := NewLine(bootfile), NewText(bootfile);
    assert '#' !in line;
    assert line[..|line|] == line;
    assert text[0] == 'f' && text[|text| - 1] == ';';
    TwoSpaces(text);
    assert "log"[0] == 'l';
  }

  lemma OpeningHasSpace(s: string, arch: Arch, i: nat)
    requires OccursAt(s, VciOpening(arch), i)
    ensures i + 5 < |s| && s[i + 4] == 'h' && s[i + 5] == ' '
  {
    var opening := VciOpening(arch);
    assert |opening| > 5 && opening[4] == 'h' && opening[5] == ' ';
    assert s[i..i + |opening|][4] == s[i + 4] && s[i..i + |opening|][5] == s[i + 5];
  }

  lemma SpacesOfNewLine(indent: string, bootfile: string, j: nat)
    requires BootText(bootfile) && (indent == "" || indent == "  ") && 0 < j < |indent + NewText(bootfile)|
    ensures (indent + NewText(bootfile))[j] == ' ' ==> (indent + NewText(bootfile))[j - 1] != 'h'
  {
    var text := NewText(bootfile);
    var k := j - |indent|;
    if k > |FILENAME| {
      assert text[k] == ("\"" + (bootfile + "\";"))[k - |FILENAME| - 1];
    } else if 0 <= k < |FILENAME| {
      assert text[k] == FILENAME[k];
    } else if k == |FILENAME| {
      assert text[k - 1] == FILENAME[k - 1];
    }
  }

  lemma NoOpening(indent: string, bootfile: string, arch: Arch)
    requires BootText(bootfile) && (indent == "" || indent == "  ")
    ensures !VciMatch(indent + NewText(bootfile), arch)
  {
    var line := indent + NewText(bootfile);
    forall i | 0 <= i <= |line|
      ensures !OccursAt(line, VciOpening(arch), i)
    {
      if OccursAt(line, VciOpening(arch), i) {
        OpeningHasSpace(line, arch, i);
        SpacesOfNewLine(indent, bootfile, i + 5);
        assert false;
      }
    }
  }

  /** Blanks stand at the start of the line and behind the keyword only. */
  lemma NewLineMatchesNothing(bootfile: string, arch: Arch)
    requires BootText(bootfile)
    ensures !VciMatch(NewLine(bootfile), arch) && !VciMatch(NewText(bootfile), arch)
  {
    NoOpening("  ", bootfile, arch);
    NoOpening("", bootfile, arch);
    assert "" + NewText(bootfile) == NewText(bootfile);
  }

  // ----- the lines of a class body ------------------------------------------------------------

  predicate NoHeader(line: string) {
    !StartsWith(line, "class") && (ConfigLine(line).Some? ==> !StartsWith(ConfigLine(line).value, "class"))
  }

  predicate SeesMatch(line: string, arch: Arch) {
    ConfigLine(line).Some? && VciMatch(ConfigLine(line).value, arch)
  }

  predicate NoMatch(line: string) {
    forall arch: Arch :: !VciMatch(line, arch) && !SeesMatch(line, arch)
  }

  predicate SeesClose(line: string) {
    ConfigLine(line).Some? && !EndsOpenly(ConfigLine(line).value)
  }

  /** A line inside a class: a match line is not commented out and names no file. */
  predicate BodyLine(line: string) {
    && NoHeader(line) && !Closes(line) && !SeesClose(line)
    && (forall arch: Arch :: VciMatch(line, arch) <==> SeesMatch(line, arch))
    && (HasFilename(line) ==> NoMatch(line))
  }

  /** A statement that starts with a small letter other than c or l and ends with a semicolon. */
  lemma StatementIsPlain(line: string, text: string)
    requires line != "" && line[0] == ' ' && line[|line| - 1] == ';'
    requires ConfigLine(line) == Some(text) && text != "" && text[0] == 'f' && text[|text| - 1] == ';'
    ensures NoHeader(line) && !Closes(line) && !SeesClose(line)
  {
    assert "class"[0] == 'c';
    assert RStrip(line) == line;
  }

  lemma NewLineNoMatch(bootfile: string)
    requires BootText(bootfile)
    ensures NoMatch(NewLine(bootfile))
  {
    NewLineIsSeen(bootfile);
    forall arch: Arch
      ensures !VciMatch(NewLine(bootfile), arch) && !SeesMatch(NewLine(bootfile), arch)
    {
      NewLineMatchesNothing(bootfile, arch);
    }
  }

  lemma NewLineReads(bootfile: string)
    requires BootText(bootfile)
    ensures SeenFilename(NewLine(bootfile)) == Some(bootfile) && HasFilename(NewLine(bootfile))
  {
    NewLineIsSeen(bootfile);
    NewTextReads(bootfile);
    SeenIsFound(NewLine(bootfile));
  }

  lemma NewLineIsBodyLine(bootfile: string)
    requires BootText(bootfile)
    ensures BodyLine(NewLine(bootfile))
  {
    NewLineIsSeen(bootfile);
    NewLineNoMatch(bootfile);
    StatementIsPlain(NewLine(bootfile), NewText(bootfile));
  }

  // ----- the match line and the brackets of a new class ---------------------------------------

  const CLASS_OPTION := "vendor-class-identifier"

  const VCI_MIDDLE := "string(option " + CLASS_OPTION + ", 0, 9) = "

  lemma MiddleChars()
    ensures 'm' !in VCI_MIDDLE && '#' !in VCI_MIDDLE
  {
    assert 'm' !in CLASS_OPTION && '#' !in CLASS_OPTION;
    assert 'm' !in "string(option " && '#' !in "string(option ";
    assert 'm' !in ", 0, 9) = " && '#' !in ", 0, 9) = ";
  }

  function MatchText(arch: Arch): string {
    VciOpening(arch) + (VCI_MIDDLE + VCI_END)
  }

  /** The match line as it is written for a new class. */
  function WrittenMatch(arch: Arch): string {
    match arch
    case I386 => "match if (substring(option " + (CLASS_OPTION + ", 0, 9) = \"PXEClient\");")
    case Sparc => "match if not (substring(option " + (CLASS_OPTION + ", 0, 9) = \"PXEClient\");")
  }

  lemma OpeningParts()
    ensures "match if (substring(option " == VciOpening(I386) + "string(option "
    ensures "match if not (substring(option " == VciOpening(Sparc) + "string(option "
  {}

  lemma ClosingParts()
    ensures ", 0, 9) = \"PXEClient\");" == ", 0, 9) = " + VCI_END
  {}

  lemma JoinParts(a: string, b: string, option: string, c: string, d: string)
    ensures (a + b) + (option + (c + d)) == a + ((b + option + c) + d)
  {}

  /** It is made of the two texts that the pattern looks for and what is between. */
  lemma WrittenMatchParts(arch: Arch)
    ensures WrittenMatch(arch) == MatchText(arch)
  {
    OpeningParts();
    ClosingParts();
    JoinParts(VciOpening(arch), "string(option ", CLASS_OPTION, ", 0, 9) = ", VCI_END);
  }

  function ClassHeader(arch: Arch): string {
    match arch
    case I386 => "class \"PXEBoot\" {"
    case Sparc => "class \"SPARC\" {"
  }

  lemma OneM(indent: string, opening: string, rest: string)
    requires 'm' !in indent && 'm' !in rest && forall j | 0 < j < |opening| :: opening[j] != 'm'
    ensures forall j | 0 <= j < |indent + (opening + rest)| :: (indent + (opening + rest))[j] == 'm' ==> j == |indent|
  {}

  lemma OnlyOneM(arch: Arch, indent: string)
    requires indent == "" || indent == "  "
    ensures forall j | 0 <= j < |indent + MatchText(arch)| :: (indent + MatchText(arch))[j] == 'm' ==> j == |indent|
  {
    var opening, rest := VciOpening(arch), VCI_MIDDLE + VCI_END;
    MiddleChars();
    assert 'm' !in VCI_END;
    assert forall j | 0 < j < |opening| :: opening[j] != 'm';
    OneM(indent, opening, rest);
  }

  lemma Part(a: string, b: string, c: string)
    ensures OccursAt(a + (b + c), b, |a|) && (a + (b + c))[|a| + |b|..] == c
  {
    assert (a + (b + c))[|a|..|a| + |b|] == b;
  }

  lemma OpensAt(arch: Arch, indent: string)
    ensures OccursAt(indent + MatchText(arch), VciOpening(arch), |indent|)
    ensures (indent + MatchText(arch))[|indent| + |VciOpening(arch)|..] == VCI_MIDDLE + VCI_END
  {
    Part(indent, VciOpening(arch), VCI_MIDDLE + VCI_END);
  }

  lemma MatchTextMatches(arch: Arch, indent: string)
    ensures VciMatch(indent + MatchText(arch), arch)
  {
    OpensAt(arch, indent);
    Part(VCI_MIDDLE, VCI_END, "");
    assert VCI_END + "" == VCI_END;
    assert VciAt(indent + MatchText(arch), arch, |indent|);
  }

  lemma OpeningChars(s: string, arch: Arch, i: nat)
    requires OccursAt(s, VciOpening(arch), i)
    ensures i + 9 < |s| && s[i] == 'm' && s[i + 9] == VciOpening(arch)[9]
    ensures VciOpening(I386)[9] != VciOpening(Sparc)[9]
  {
    var opening := VciOpening(arch);
    assert s[i..i + |opening|][0] == s[i] && s[i..i + |opening|][9] == s[i + 9];
  }

  lemma MatchTextMatchesOne(arch: Arch, other: Arch, indent: string)
    requires (indent == "" || indent == "  ") && arch != other
    ensures !VciMatch(indent + MatchText(arch), other)
  {
    var line := indent + MatchText(arch);
    OnlyOneM(arch, indent);
    OpensAt(arch, indent);
    OpeningChars(line, arch, |indent|);
    forall i | 0 <= i <= |line|
      ensures !OccursAt(line, VciOpening(other), i)
    {
      if OccursAt(line, VciOpening(other), i) {
        OpeningChars(line, other, i);
        assert false;
      }
    }
  }

  lemma {:induction false} FilenameHasM(s: string)
    requires HasFilename(s)
    ensures exists j :: 6 <= j < |s| && s[j] == 'm'
  {
    if FilenameAt(s) {
      assert FILENAME[6] == 'm' && s[..|FILENAME|][6] == s[6];
    } else {
      FilenameHasM(s[1..]);
      var j :| 6 <= j < |s[1..]| && s[1..][j] == 'm';
      assert s[j + 1] == 'm';
    }
  }

  lemma NoCommentInMatch(arch: Arch)
    ensures '#' !in "  " + MatchText(arch)
  {
    MiddleChars();
    assert '#' !in VCI_END;
    assert '#' !in VciOpening(arch);
  }

  lemma MatchLineIsSeen(arch: Arch)
    ensures ConfigLine("  " + MatchText(arch)) == Some(MatchText(arch))
    ensures MatchText(arch)[0] == 'm' && MatchText(arch)[|MatchText(arch)| - 1] == ';'
  {
    var line, text := "  " + MatchText(arch), MatchText(arch);
    NoCommentInMatch(arch);
    assert line[..|line|] == line;
    assert text[0] == 'm' && text[|text| - 1] == ';';
    TwoSpaces(text);
    assert "log"[0] == 'l';
  }

  lemma OneArchitecture(arch: Arch, other: Arch)
    ensures VciMatch("  " + MatchText(arch), other) <==> other == arch
    ensures SeesMatch("  " + MatchText(arch), other) <==> other == arch
  {
    MatchLineIsSeen(arch);
    assert "" + MatchText(arch) == MatchText(arch);
    if other == arch {
      MatchTextMatches(arch, "  ");
      MatchTextMatches(arch, "");
    } else {
      MatchTextMatchesOne(arch, other, "  ");
      MatchTextMatchesOne(arch, other, "");
    }
  }

  lemma MatchLineIsPlain(line: string, text: string)
    requires line != "" && line[0] == ' ' && line[|line| - 1] == ';'
    requires ConfigLine(line) == Some(text) && text != "" && text[0] == 'm' && text[|text| - 1] == ';'
    ensures NoHeader(line) && !Closes(line) && !SeesClose(line)
  {
    assert "class"[0] == 'c';
    assert RStrip(line) == line;
  }

  lemma MatchLineNamesNoFile(arch: Arch)
    ensures !HasFilename("  " + MatchText(arch))
  {
    var line := "  " + MatchText(arch);
    OnlyOneM(arch, "  ");
    if HasFilename(line) {
      FilenameHasM(line);
      assert false;
    }
  }

  lemma MatchLineIsBodyLine(arch: Arch)
    ensures BodyLine("  " + MatchText(arch)) && VciMatch("  " + MatchText(arch), arch)
    ensures SeenFilename("  " + MatchText(arch)).None?
  {
    var line := "  " + MatchText(arch);
    forall other: Arch
      ensures VciMatch(line, other) <==> SeesMatch(line, other)
    {
      OneArchitecture(arch, other);
    }
    OneArchitecture(arch, arch);
    MatchLineIsSeen(arch);
    MatchLineIsPlain(line, MatchText(arch));
    MatchLineNamesNoFile(arch);
    SeenIsFound(line);
  }

  lemma BracketLineHasNoMatch(line: string, other: Arch)
    requires 'm' !in line
    ensures !VciMatch(line, other)
  {
    forall i | 0 <= i <= |line|
      ensures !OccursAt(line, VciOpening(other), i)
    {
      if OccursAt(line, VciOpening(other), i) {
        OpeningChars(line, other, i);
        assert false;
      }
    }
  }

  lemma HeaderAndClose(arch: Arch)
    ensures var header := ClassHeader(arch);
            && StartsWith(header, "class") && ConfigLine(header) == Some(header) && NoMatch(header) && !Closes(header)
    ensures NoHeader("}") && NoMatch("}") && Closes("}") && SeesClose("}")
  {
    var header := ClassHeader(arch);
    assert 'm' !in header && '#' !in header;
    assert header[..|header|] == header && LStrip(header) == header && RStrip(header) == header;
    assert header[0] == 'c' && "log"[0] == 'l' && header[..5] == "class";
    assert '#' !in "}" && "}"[..1] == "}" && LStrip("}") == "}" && RStrip("}") == "}";
    assert ConfigLine("}") == Some("}");
    forall other: Arch
      ensures !VciMatch(header, other) && !VciMatch("}", other)
    {
      BracketLineHasNoMatch(header, other);
      BracketLineHasNoMatch("}", other);
    }
  }
}
