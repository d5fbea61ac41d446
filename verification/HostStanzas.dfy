/** Host stanzas of the ISC DHCP configuration (dhcp.py): add_host appends one, remove_host copies
    the file without the first stanza that mentions a hardware address. */
module HostStanzas {
  import opened Text
  import opened ConfigLines
  import opened Stanzas
  import ArchClass
  import ClassLines

  // ----- what the code looks for in a line -----------------------------------------

  /** line.startswith("host") */
  predicate OpensHost(line: string) {
    StartsWith(line, "host")
  }

  // ----- remove_host ------------------------------------------------------------------

  /** Blank lines that follow a blank line are dropped. */
  function Squeeze(lines: Lines, afterBlank: bool): Lines {
    if lines == [] then []
    else if lines[0] == "" then (if afterBlank then [] else [""]) + Squeeze(lines[1..], true)
    else [lines[0]] + Squeeze(lines[1..], false)
  }

  datatype Mode = Outside | Inside(pending: Lines, found: bool) | Finished

  /** The copy loop: what is still written for the lines to come. */
  function Filter(lines: Lines, mac: string, mode: Mode): Lines {
    if lines == [] then []
    else
      var line, rest := lines[0], lines[1..];
      match mode
      case Finished => [line] + Filter(rest, mac, Finished)
      case Outside => if OpensHost(line) then Filter(rest, mac, Inside([line], false)) else [line] + Filter(rest, mac, Outside)
      case Inside(pending, found) =>
        if OpensHost(line) then Filter(rest, mac, Inside([line], found))
        else if Closes(line) then
          if found then Filter(rest, mac, Finished) else pending + [line] + Filter(rest, mac, Outside)
        else Filter(rest, mac, Inside(pending + [line], found || Contains(line, mac)))
  }

  lemma SqueezeStep(lines: Lines, afterBlank: bool)
    requires lines != []
    ensures Squeeze(lines, afterBlank) ==
            (if lines[0] == "" && afterBlank then [] else [lines[0]]) + Squeeze(lines[1..], lines[0] == "")
    ensures lines[0] == "" && afterBlank ==> Squeeze(lines, afterBlank) == Squeeze(lines[1..], true)
  {}

  lemma FilterStep(line: string, rest: Lines, mac: string, mode: Mode)
    ensures Filter([line] + rest, mac, mode) ==
            match mode
            case Finished => [line] + Filter(rest, mac, Finished)
            case Outside => if OpensHost(line) then Filter(rest, mac, Inside([line], false)) else [line] + Filter(rest, mac, Outside)
            case Inside(pending, found) =>
              if OpensHost(line) then Filter(rest, mac, Inside([line], found))
              else if Closes(line) then
                if found then Filter(rest, mac, Finished) else pending + [line] + Filter(rest, mac, Outside)
              else Filter(rest, mac, Inside(pending + [line], found || Contains(line, mac)))
  {
    assert ([line] + rest)[1..] == rest;
  }

  function ModeOf(found: bool, inHost: bool, removeFinished: bool, hostlines: Lines): Mode {
    if removeFinished then Finished else if inHost then Inside(hostlines, found) else Outside
  }

  method RemoveHost(lines: Lines, mac: string) returns (newCfg: Lines)
    ensures newCfg == Filter(Squeeze(lines, false), mac, Outside)
  {
    newCfg := [];
    var found, inHost, removeFinished := false, false, false;
    var hostlines: Lines := [];
    var consecNewlines := 0;
    for i := 0 to |lines|
      invariant consecNewlines >= 0
      invariant removeFinished || inHost || !found
      invariant removeFinished ==> !inHost
      invariant newCfg + Filter(Squeeze(lines[i..], consecNewlines > 0), mac, ModeOf(found, inHost, removeFinished, hostlines))
                == Filter(Squeeze(lines, false), mac, Outside)
    {
      var line := lines[i];
      ghost var before := consecNewlines > 0;
      ghost var rest := Squeeze(lines[i + 1..], line == "");
      assert lines[i..][1..] == lines[i + 1..];
      SqueezeStep(lines[i..], before);
      if line == "" {
        consecNewlines := consecNewlines + 1;
        if consecNewlines > 1 {
          continue;
        }
      } else {
        consecNewlines := 0;
      }
      ghost var m := ModeOf(found, inHost, removeFinished, hostlines);
      FilterStep(line, rest, mac, m);
      if !removeFinished {
        if OpensHost(line) {
          inHost := true;
          hostlines := [line];
          assert newCfg + [] == newCfg;
          continue;
        }
        if inHost && Closes(line) {
          inHost := false;
          hostlines := hostlines + [line];
          if !found {
            AppendAssociates(newCfg, hostlines, Filter(rest, mac, Outside));
            newCfg := newCfg + hostlines;
            continue;
          }
          removeFinished := true;
          continue;
        }
        if inHost && Contains(line, mac) {
          found := true;
        }
      }
      if inHost {
        hostlines := hostlines + [line];
      } else {
        AppendAssociates(newCfg, [line], Filter(rest, mac, m));
        newCfg := newCfg + [line];
      }
    }
    assert lines[|lines|..] == [];
    assert newCfg + [] == newCfg;
  }

  // ----- the structure of a configuration file ---------------------------------------------

  predicate WellFormedItem(item: Item) {
    match item
    case Plain(line) => !OpensHost(line)
    case Stanza(header, body, close) =>
      && OpensHost(header) && Closes(close) && !OpensHost(close)
      && forall i | 0 <= i < |body| :: !OpensHost(body[i]) && !Closes(body[i])
  }

  predicate WellFormed(items: seq<Item>) {
    forall i | 0 <= i < |items| :: WellFormedItem(items[i])
  }

  predicate AnyContains(body: Lines, mac: string) {
    exists line :: line in body && Contains(line, mac)
  }

  /** A host stanza with the address anywhere in its body. */
  predicate Mentions(item: Item, mac: string) {
    item.Stanza? && AnyContains(item.body, mac)
  }

  predicate Mentioned(items: seq<Item>, mac: string) {
    exists item :: item in items && Mentions(item, mac)
  }

  function RemoveFirst(items: seq<Item>, mac: string): seq<Item> {
    if items == [] then [] else if Mentions(items[0], mac) then items[1..] else [items[0]] + RemoveFirst(items[1..], mac)
  }

  lemma {:induction false} FinishedCopies(lines: Lines, mac: string)
    ensures Filter(lines, mac, Finished) == lines
  {
    if lines != [] {
      FinishedCopies(lines[1..], mac);
    }
  }

  lemma AnyContainsCons(line: string, body: Lines, mac: string)
    ensures AnyContains([line] + body, mac) <==> Contains(line, mac) || AnyContains(body, mac)
  {
    if Contains(line, mac) {
      assert line in [line] + body;
    }
    if AnyContains(body, mac) {
      var other :| other in body && Contains(other, mac);
      assert other in [line] + body;
    }
  }

  lemma {:induction false} FilterBody(body: Lines, close: string, rest: Lines, mac: string, pending: Lines, found: bool)
    requires Closes(close) && !OpensHost(close)
    requires forall i | 0 <= i < |body| :: !OpensHost(body[i]) && !Closes(body[i])
    ensures Filter(body + ([close] + rest), mac, Inside(pending, found)) ==
            if found || AnyContains(body, mac) then rest else pending + body + [close] + Filter(rest, mac, Outside)
    decreases |body|
  {
    if body == [] {
      assert body + ([close] + rest) == [close] + rest;
      FilterStep(close, rest, mac, Inside(pending, found));
      FinishedCopies(rest, mac);
      assert pending + [] == pending;
    } else {
      var line, tail := body[0], body[1..];
      assert body == [line] + tail;
      AppendAssociates([line], tail, [close] + rest);
      FilterStep(line, tail + ([close] + rest), mac, Inside(pending, found));
      FilterBody(tail, close, rest, mac, pending + [line], found || Contains(line, mac));
      AppendAssociates(pending, [line], tail);
      AnyContainsCons(line, tail, mac);
    }
  }

  lemma FilterPlain(line: string, rest: Lines, mac: string)
    requires !OpensHost(line)
    ensures Filter([line] + rest, mac, Outside) == [line] + Filter(rest, mac, Outside)
  {
    assert ([line] + rest)[1..] == rest;
  }

  lemma FilterHost(item: Item, rest: Lines, mac: string)
    requires item.Stanza? && WellFormedItem(item)
    ensures Filter(ItemLines(item) + rest, mac, Outside) ==
            if Mentions(item, mac) then rest else ItemLines(item) + Filter(rest, mac, Outside)
  {
    var tail := item.body + ([item.close] + rest);
    StanzaLines(item, rest);
    FilterStep(item.header, tail, mac, Outside);
    FilterBody(item.body, item.close, rest, mac, [item.header], false);
    AppendAssociates([item.header], item.body, [item.close]);
  }

  /** On a well-formed file the loop removes the first stanza that mentions the address, whole,
      and nothing else. */
  lemma {:induction false} FilterRemovesFirst(items: seq<Item>, mac: string)
    requires WellFormed(items)
    ensures Filter(Flatten(items), mac, Outside) == Flatten(RemoveFirst(items, mac))
  {
    if items != [] {
      var item, rest := items[0], items[1..];
      FilterRemovesFirst(rest, mac);
      FlattenCons(item, RemoveFirst(rest, mac));
      if item.Plain? {
        FilterPlain(item.line, Flatten(rest), mac);
      } else {
        FilterHost(item, Flatten(rest), mac);
      }
    }
  }

  // ----- blank lines --------------------------------------------------------------------------

  function NonBlank(lines: Lines): Lines {
    if lines == [] then [] else (if lines[0] == "" then [] else [lines[0]]) + NonBlank(lines[1..])
  }

  lemma {:induction false} NonBlankConcat(a: Lines, b: Lines)
    ensures NonBlank(a + b) == NonBlank(a) + NonBlank(b)
  {
    if a == [] {
      assert a + b == b;
    } else {
      NonBlankConcat(a[1..], b);
      var first := if a[0] == "" then [] else [a[0]];
      assert (a + b)[1..] == a[1..] + b;
      AppendAssociates(first, NonBlank(a[1..]), NonBlank(b));
    }
  }

  lemma {:induction false} SqueezeKeepsText(lines: Lines, afterBlank: bool)
    ensures NonBlank(Squeeze(lines, afterBlank)) == NonBlank(lines)
  {
    if lines != [] {
      var blank := lines[0] == "";
      SqueezeKeepsText(lines[1..], blank);
      var rest := Squeeze(lines[1..], blank);
      NonBlankConcat(if !blank then [lines[0]] else if afterBlank then [] else [""], rest);
      assert NonBlank([""]) == [] && NonBlank([lines[0]]) == (if blank then [] else [lines[0]]);
    }
  }

  function NonBlankMode(mode: Mode): Mode {
    match mode
    case Inside(pending, found) => Inside(NonBlank(pending), found)
    case _ => mode
  }

  lemma FilterSingle(single: Lines, rest: Lines, mac: string)
    requires single == [] || (|single| == 1 && !OpensHost(single[0]))
    ensures Filter(single + rest, mac, Outside) == single + Filter(rest, mac, Outside)
  {
    if single == [] {
      assert single + rest == rest;
    } else {
      FilterPlain(single[0], rest, mac);
      assert single == [single[0]];
    }
  }

  /** The loop treats blank lines like any other text of the place they stand in. */
  lemma {:induction false} FilterIgnoresBlanks(lines: Lines, mac: string, mode: Mode)
    requires mac != ""
    ensures NonBlank(Filter(lines, mac, mode)) == Filter(NonBlank(lines), mac, NonBlankMode(mode))
    decreases |lines|
  {
    if lines != [] {
      var line, rest := lines[0], lines[1..];
      assert !OpensHost("") && !Closes("") && !Contains("", mac);
      var single := if line == "" then [] else [line];
      assert NonBlank([line]) == single;
      NonBlankConcat([line], rest);
      assert [line] + rest == lines;
      match mode {
        case Finished =>
          FinishedCopies(lines, mac);
          FinishedCopies(NonBlank(lines), mac);
        case Outside =>
          if OpensHost(line) {
            FilterIgnoresBlanks(rest, mac, Inside([line], false));
          } else {
            FilterIgnoresBlanks(rest, mac, Outside);
            NonBlankConcat([line], Filter(rest, mac, Outside));
            FilterSingle(single, NonBlank(rest), mac);
            assert Filter(lines, mac, Outside) == [line] + Filter(rest, mac, Outside);
            assert NonBlank(lines) == single + NonBlank(rest);
          }
        case Inside(pending, found) =>
          NonBlankConcat(pending, [line]);
          if OpensHost(line) {
            FilterIgnoresBlanks(rest, mac, Inside([line], found));
          } else if Closes(line) {
            FilterIgnoresBlanks(rest, mac, if found then Finished else Outside);
            NonBlankConcat(pending + [line], Filter(rest, mac, Outside));
          } else {
            FilterIgnoresBlanks(rest, mac, Inside(pending + [line], found || Contains(line, mac)));
            if line == "" {
              assert NonBlank(pending) + [] == NonBlank(pending) && [] + NonBlank(rest) == NonBlank(rest);
            } else {
              FilterStep(line, NonBlank(rest), mac, NonBlankMode(mode));
            }
          }
      }
    }
  }

  /** remove_host on a well-formed file: the first stanza that mentions the address is gone, every
      other line that is not blank is kept, in order. */
  lemma RemoveHostOnWellFormed(items: seq<Item>, mac: string, result: Lines)
    requires WellFormed(items) && mac != ""
    requires result == Filter(Squeeze(Flatten(items), false), mac, Outside)
    ensures NonBlank(result) == NonBlank(Flatten(RemoveFirst(items, mac)))
  {
    var lines := Flatten(items);
    FilterIgnoresBlanks(Squeeze(lines, false), mac, Outside);
    SqueezeKeepsText(lines, false);
    FilterIgnoresBlanks(lines, mac, Outside);
    FilterRemovesFirst(items, mac);
  }

  // ----- add_host and host_is_configured ----------------------------------------------------------

  const HARDWARE := "hardware ethernet"

  /** ^hardware ethernet\s+(\S+); */
  function HardwareAddress(text: string): Option<string> {
    if !StartsWith(text, HARDWARE) then None
    else
      var tail := text[|HARDWARE|..];
      var word := LStrip(tail)[..WordLength(LStrip(tail))];
      var k := LastIndexOf(word, ';');
      if |LStrip(tail)| == |tail| || k < 1 then None else Some(word[..k])
  }

  /** The text is the keyword, blanks, the address, a semicolon and a rest whose first word has no
      further semicolon. */
  predicate HardwareText(text: string, blanks: string, mac: string, rest: string) {
    && text == HARDWARE + (blanks + (mac + (";" + rest)))
    && blanks != "" && AllSpace(blanks) && IsWord(mac) && ';' !in rest[..WordLength(rest)]
  }

  lemma HardwareTextIsRead(text: string, blanks: string, mac: string, rest: string)
    requires HardwareText(text, blanks, mac, rest)
    ensures HardwareAddress(text) == Some(mac)
  {
    var found := mac + (";" + rest);
    var tail := blanks + found;
    assert text[..|HARDWARE|] == HARDWARE && text[|HARDWARE|..] == tail;
    assert found[0] == mac[0];
    LStripBlanks(blanks, found);
    assert forall i | 0 <= i < |mac| :: found[i] == mac[i];
    assert found[|mac|] == ';' && found[|mac| + 1..] == rest;
    WordReaches(found, |mac| + 1);
    WordLengthFrom(found, |mac| + 1);
    var word := found[..WordLength(found)];
    assert forall i | |mac| < i < |word| :: word[i] == rest[..WordLength(rest)][i - |mac| - 1];
    assert word[|mac|] == ';';
    assert LastIndexOf(word, ';') == |mac|;
    assert word[..|mac|] == mac;
  }

  /** The word behind the keyword. */
  lemma HardwareWord(text: string, mac: string) returns (found: string, k: nat)
    requires HardwareAddress(text) == Some(mac)
    ensures StartsWith(text, HARDWARE) && found == LStrip(text[|HARDWARE|..]) && |found| < |text| - |HARDWARE|
    ensures 0 < k < WordLength(found) && found[k] == ';' && mac == found[..k]
    ensures forall i | k < i < WordLength(found) :: found[i] != ';'
  {
    found := LStrip(text[|HARDWARE|..]);
    var blanks := LStripSplits(text[|HARDWARE|..]);
    var n := WordLength(found);
    var word := found[..n];
    k := LastIndexOf(word, ';');
    assert forall i | 0 <= i < n :: word[i] == found[i];
    assert word[..k] == found[..k];
  }

  lemma HardwareParts(text: string, mac: string) returns (blanks: string, rest: string)
    requires HardwareAddress(text) == Some(mac)
    ensures HardwareText(text, blanks, mac, rest)
  {
    var found, k := HardwareWord(text, mac);
    blanks := LStripSplits(text[|HARDWARE|..]);
    CutAtSemicolon(found, WordLength(found), k);
    rest := found[k + 1..];
    WordLengthFrom(found, k + 1);
    TextSplits(text, HARDWARE);
  }

  /** The reader's pattern finds an address in a text exactly as it stands there, up to the last
      semicolon of its word. */
  lemma HardwareExactly(text: string, mac: string)
    ensures HardwareAddress(text) == Some(mac) <==> exists blanks, rest :: HardwareText(text, blanks, mac, rest)
  {
    if HardwareAddress(text) == Some(mac) {
      var blanks, rest := HardwareParts(text, mac);
    }
    if blanks, rest :| HardwareText(text, blanks, mac, rest) {
      HardwareTextIsRead(text, blanks, mac, rest);
    }
  }

  function HardwareOf(line: string): Option<string> {
    match ConfigLine(line)
    case None => None
    case Some(text) => HardwareAddress(text)
  }

  predicate IsConfigured(lines: Lines, mac: string) {
    exists i :: 0 <= i < |lines| && HardwareOf(lines[i]).Some? && Lower(HardwareOf(lines[i]).value) == Lower(mac)
  }

  method HostIsConfigured(lines: Lines, mac: string) returns (r: bool)
    ensures r == IsConfigured(lines, mac)
  {
    for i := 0 to |lines|
      invariant forall k | 0 <= k < i :: !(HardwareOf(lines[k]).Some? && Lower(HardwareOf(lines[k]).value) == Lower(mac))
    {
      var host := HardwareOf(lines[i]);
      if host.Some? && Lower(host.value) == Lower(mac) {
        return true;
      }
    }
    r := false;
  }

  function HardwareLine(mac: string): string {
    "  " + (HARDWARE + (" " + (mac + ";")))
  }

  function FileLine(bootfile: string): string {
    "  filename \"" + bootfile + "\";"
  }

  function HostItem(hostname: string, mac: string, bootfile: string): Item {
    Stanza("host " + hostname + " {", [HardwareLine(mac), FileLine(bootfile)], "}")
  }

  /** A hardware address as formatValue writes it: no whitespace, comment sign or semicolon. */
  predicate AddressText(mac: string) {
    IsWord(mac) && '#' !in mac && ';' !in mac
  }

  /** An indented statement neither opens nor closes a stanza. */
  lemma EndsOpen(line: string)
    requires |line| > 0 && line[0] == ' ' && line[|line| - 1] == ';'
    ensures !OpensHost(line) && !Closes(line)
  {
    assert "host"[0] == 'h';
    assert |line| >= 4 ==> line[..4][0] == ' ';
  }

  lemma HostItemIsWellFormed(hostname: string, mac: string, bootfile: string)
    ensures WellFormedItem(HostItem(hostname, mac, bootfile))
  {
    var item := HostItem(hostname, mac, bootfile);
    assert item.header[..4] == "host";
    EndsOpen(item.body[0]);
    EndsOpen(item.body[1]);
    assert Closes(item.close) && item.close[0] == '}';
  }

  /** The text of a hardware line, read by the pattern. */
  lemma HardwareTextReads(mac: string)
    requires AddressText(mac)
    ensures HardwareAddress(HARDWARE + (" " + (mac + ";"))) == Some(mac)
  {
    var word := mac + ";";
    var text := HARDWARE + (" " + word);
    assert text[..|HARDWARE|] == HARDWARE && text[|HARDWARE|..] == " " + word;
    assert (" " + word)[1..] == word && word[0] == mac[0];
    assert LStrip(word) == word && LStrip(" " + word) == word;
    WordLengthOfWord(word, "");
    assert word + "" == word;
    assert word[..|word|] == word && word[..|mac|] == mac;
    assert LastIndexOf(word, ';') == |mac|;
  }

  lemma NoComment(mac: string)
    requires AddressText(mac)
    ensures BeforeComment(HardwareLine(mac)) == HardwareLine(mac)
  {
    var line := HardwareLine(mac);
    assert '#' !in HARDWARE;
    assert '#' !in line;
    assert line[..|line|] == line;
  }

  lemma HardwareLineReads(mac: string)
    requires AddressText(mac)
    ensures HardwareOf(HardwareLine(mac)) == Some(mac)
  {
    var line, text := HardwareLine(mac), HARDWARE + (" " + (mac + ";"));
    NoComment(mac);
    assert text[0] == 'h' && text[|text| - 1] == ';';
    TwoSpaces(text);
    HardwareTextReads(mac);
  }

  lemma {:induction false} ConfiguredConcat(a: Lines, b: Lines, mac: string)
    ensures IsConfigured(a + b, mac) <==> IsConfigured(a, mac) || IsConfigured(b, mac)
  {
    if IsConfigured(a, mac) {
      var i :| 0 <= i < |a| && HardwareOf(a[i]).Some? && Lower(HardwareOf(a[i]).value) == Lower(mac);
      assert (a + b)[i] == a[i];
    }
    if IsConfigured(b, mac) {
      var i :| 0 <= i < |b| && HardwareOf(b[i]).Some? && Lower(HardwareOf(b[i]).value) == Lower(mac);
      assert (a + b)[|a| + i] == b[i];
    }
  }

  lemma {:induction false} RStripKeepsFirst(s: string)
    requires s != "" && !IsSpace(s[0])
    ensures RStrip(s) != "" && RStrip(s)[0] == s[0]
  {
    if IsSpace(s[|s| - 1]) {
      RStripKeepsFirst(s[..|s| - 1]);
    }
  }

  /** A line whose text starts with h names no file, whatever else is in it. */
  lemma NamesNoFile(indent: string, text: string)
    requires (indent == "" || indent == "  ") && text != "" && text[0] == 'h'
    ensures ClassLines.SeenFilename(indent + text).None?
  {
    var line := indent + text;
    var before := BeforeComment(line);
    assert line[|indent|] == 'h' && forall i | 0 <= i < |indent| :: line[i] == ' ';
    var n := IndexOf(line, '#');
    assert n > |indent|;
    var kept := before[|indent|..];
    assert before == indent + kept && kept[0] == 'h';
    if indent == "  " {
      TwoSpaces(kept);
    } else {
      assert before == kept && LStrip(kept) == kept;
    }
    RStripKeepsFirst(kept);
    assert "filename"[0] == 'f';
  }

  lemma HeaderReads(hostname: string)
    requires IsWord(hostname)
    ensures Split("host " + hostname + " {") == ["host", hostname, "{"]
  {
    var words := ["host", hostname, "{"];
    assert words[1..] == [hostname, "{"] && [hostname, "{"][1..] == ["{"];
    assert Join([hostname, "{"]) == hostname + " " + "{";
    assert Join(words) == "host" + " " + (hostname + " " + "{");
    assert Join(words) == "host " + hostname + " {";
    assert IsWord("host") && IsWord("{");
    SplitJoin(words);
  }

  lemma FileLineReads(bootfile: string)
    requires ClassLines.BootText(bootfile)
    ensures ClassLines.SeenFilename(FileLine(bootfile)) == Some(bootfile)
  {
    assert FileLine(bootfile) == ArchClass.NewLine(bootfile);
    ClassLines.NewLineReads(bootfile);
  }

  lemma FourthIsSeen(a: string, b: string, c: string, d: string, rest: Lines)
    requires ClassLines.SeenFilename(a).None? && ClassLines.SeenFilename(b).None? && ClassLines.SeenFilename(c).None?
    requires ClassLines.SeenFilename(d).Some?
    ensures ClassLines.FirstSeen([a] + ([b] + ([c] + ([d] + rest)))) == ClassLines.SeenFilename(d)
  {
    ClassLines.SeenCons(d, rest);
    ClassLines.SeenCons(c, [d] + rest);
    ClassLines.SeenCons(b, [c] + ([d] + rest));
    ClassLines.SeenCons(a, [b] + ([c] + ([d] + rest)));
  }

  lemma BlankNamesNoFile()
    ensures ClassLines.SeenFilename("").None?
  {}

  lemma HostLinesNameNoFile(hostname: string, mac: string)
    ensures ClassLines.SeenFilename("host " + hostname + " {").None? && ClassLines.SeenFilename(HardwareLine(mac)).None?
  {
    var header := "host " + hostname + " {";
    NamesNoFile("", header);
    assert "" + header == header;
    NamesNoFile("  ", HARDWARE + (" " + (mac + ";")));
  }

  lemma HostItemLines(hostname: string, mac: string, bootfile: string)
    ensures ItemLines(HostItem(hostname, mac, bootfile)) ==
            ["host " + hostname + " {"] + ([HardwareLine(mac)] + ([FileLine(bootfile)] + ["}"]))
  {}

  /** The reader finds the bootfile first in the stanza, behind the blank line. */
  lemma AddedFileReads(hostname: string, mac: string, bootfile: string)
    requires ClassLines.BootText(bootfile)
    ensures ClassLines.FirstSeen([""] + ItemLines(HostItem(hostname, mac, bootfile))) == Some(bootfile)
  {
    BlankNamesNoFile();
    HostLinesNameNoFile(hostname, mac);
    FileLineReads(bootfile);
    HostItemLines(hostname, mac, bootfile);
    FourthIsSeen("", "host " + hostname + " {", HardwareLine(mac), FileLine(bootfile), ["}"]);
  }

  /** The appended stanza, after the blank line its text begins with; None when the address is taken.
      The readers find the host name, the address and the bootfile in it. */
  method AddHost(lines: Lines, mac: string, bootfile: string, hostname: string) returns (r: Option<Lines>)
    ensures r == if IsConfigured(lines, mac) then None
                 else Some(lines + [""] + ItemLines(HostItem(hostname, mac, bootfile)))
    ensures r.Some? ==> |lines| < |r.value| && r.value[..|lines|] == lines
    ensures r.Some? && IsWord(hostname) ==>
              |lines| + 1 < |r.value| && Split(r.value[|lines| + 1]) == ["host", hostname, "{"]
    ensures r.Some? && AddressText(mac) ==> IsConfigured(r.value, mac)
    ensures r.Some? && ClassLines.BootText(bootfile) ==>
              ClassLines.FirstSeen(r.value[|lines|..]) == Some(bootfile)
  {
    var taken := HostIsConfigured(lines, mac);
    if taken {
      return None;
    }
    ghost var item := HostItem(hostname, mac, bootfile);
    r := Some(lines + [""] + ItemLines(HostItem(hostname, mac, bootfile)));
    assert r.value[|lines|..] == [""] + ItemLines(item) && r.value[|lines| + 1] == item.header;
    if IsWord(hostname) {
      HeaderReads(hostname);
    }
    if AddressText(mac) {
      HardwareLineReads(mac);
      assert r.value[|lines| + 2] == HardwareLine(mac);
    }
    if ClassLines.BootText(bootfile) {
      AddedFileReads(hostname, mac, bootfile);
    }
  }

  lemma {:induction false} ConfiguredIgnoresBlanks(lines: Lines, mac: string)
    ensures IsConfigured(NonBlank(lines), mac) <==> IsConfigured(lines, mac)
  {
    if lines != [] {
      ConfiguredIgnoresBlanks(lines[1..], mac);
      ConfiguredConcat([lines[0]], lines[1..], mac);
      assert [lines[0]] + lines[1..] == lines;
      if lines[0] == "" {
        assert HardwareOf("") == None;
        assert [] + NonBlank(lines[1..]) == NonBlank(lines[1..]);
      } else {
        ConfiguredConcat([lines[0]], NonBlank(lines[1..]), mac);
      }
    }
  }

  lemma MentionedCons(item: Item, rest: seq<Item>, mac: string)
    ensures Mentioned([item] + rest, mac) <==> Mentions(item, mac) || Mentioned(rest, mac)
  {
    if Mentions(item, mac) {
      assert item in [item] + rest;
    }
    if Mentioned(rest, mac) {
      var other :| other in rest && Mentions(other, mac);
      assert other in [item] + rest;
    }
  }

  lemma RemoveFirstCons(item: Item, rest: seq<Item>, mac: string)
    ensures RemoveFirst([item] + rest, mac) == if Mentions(item, mac) then rest else [item] + RemoveFirst(rest, mac)
  {
    assert ([item] + rest)[1..] == rest;
  }

  lemma {:induction false} RemoveFirstConcat(a: seq<Item>, b: seq<Item>, mac: string)
    ensures RemoveFirst(a + b, mac) == if Mentioned(a, mac) then RemoveFirst(a, mac) + b else a + RemoveFirst(b, mac)
  {
    if a == [] {
      assert a + b == b && a + RemoveFirst(b, mac) == RemoveFirst(b, mac);
    } else {
      var item, rest := a[0], a[1..];
      assert a == [item] + rest;
      RemoveFirstConcat(rest, b, mac);
      MentionedCons(item, rest, mac);
      RemoveFirstCons(item, rest, mac);
      RemoveFirstCons(item, rest + b, mac);
      AppendAssociates([item], rest, b);
      AppendAssociates([item], RemoveFirst(rest, mac), b);
      AppendAssociates([item], rest, RemoveFirst(b, mac));
    }
  }

  /** The lines add_host appends, as items. */
  function AddedItems(hostname: string, mac: string, bootfile: string): seq<Item> {
    [Plain(""), HostItem(hostname, mac, bootfile)]
  }

  lemma AddedLines(items: seq<Item>, hostname: string, mac: string, bootfile: string)
    ensures Flatten(items + AddedItems(hostname, mac, bootfile))
            == Flatten(items) + [""] + ItemLines(HostItem(hostname, mac, bootfile))
  {
    var item := HostItem(hostname, mac, bootfile);
    FlattenConcat(items, [Plain(""), item]);
    FlattenCons(Plain(""), [item]);
    FlattenCons(item, []);
    assert [item] + [] == [item] && [Plain("")] + [item] == [Plain(""), item];
    assert Flatten([item]) == ItemLines(item);
    AppendAssociates(Flatten(items), [""], ItemLines(item));
  }

  lemma MacInOwnStanza(mac: string)
    ensures Contains(HardwareLine(mac), mac)
  {
    var prefix := "  " + HARDWARE + " ";
    assert HardwareLine(mac)[|prefix|..|prefix| + |mac|] == mac;
    assert OccursAt(HardwareLine(mac), mac, |prefix|);
  }

  lemma OwnStanzaGoes(hostname: string, mac: string, bootfile: string)
    ensures RemoveFirst(AddedItems(hostname, mac, bootfile), mac) == [Plain("")]
  {
    var item := HostItem(hostname, mac, bootfile);
    MacInOwnStanza(mac);
    assert item.body[0] in item.body && Contains(item.body[0], mac);
    assert AddedItems(hostname, mac, bootfile)[1..] == [item];
    assert RemoveFirst([item], mac) == [];
  }

  lemma StaysConfigured(rest: seq<Item>, hostname: string, mac: string, bootfile: string)
    requires AddressText(mac)
    ensures IsConfigured(Flatten(rest + AddedItems(hostname, mac, bootfile)), mac)
  {
    var item := HostItem(hostname, mac, bootfile);
    AddedLines(rest, hostname, mac, bootfile);
    HardwareLineReads(mac);
    var lines, k := Flatten(rest) + [""] + ItemLines(item), |Flatten(rest)| + 2;
    assert lines[k] == HardwareLine(mac);
  }

  lemma RemovedItems(items: seq<Item>, hostname: string, mac: string, bootfile: string)
    ensures RemoveFirst(items + AddedItems(hostname, mac, bootfile), mac) ==
            if Mentioned(items, mac) then RemoveFirst(items, mac) + AddedItems(hostname, mac, bootfile)
            else items + [Plain("")]
  {
    RemoveFirstConcat(items, AddedItems(hostname, mac, bootfile), mac);
    OwnStanzaGoes(hostname, mac, bootfile);
  }

  lemma BlankItemAtEnd(items: seq<Item>)
    ensures NonBlank(Flatten(items + [Plain("")])) == NonBlank(Flatten(items))
  {
    FlattenConcat(items, [Plain("")]);
    FlattenCons(Plain(""), []);
    assert [Plain("")] + [] == [Plain("")];
    assert Flatten([Plain("")]) == [""] + Flatten([]) == [""];
    NonBlankConcat(Flatten(items), [""]);
    assert NonBlank([""]) == [];
    assert NonBlank(Flatten(items)) + [] == NonBlank(Flatten(items));
  }

  lemma WellFormedAdded(items: seq<Item>, hostname: string, mac: string, bootfile: string)
    requires WellFormed(items)
    ensures WellFormed(items + AddedItems(hostname, mac, bootfile))
  {
    HostItemIsWellFormed(hostname, mac, bootfile);
  }

  /** remove_host undoes add_host exactly when no earlier stanza mentions the address: then the old
      file is back but for blank lines, and otherwise the added host stays configured. */
  lemma RemoveUndoesAdd(items: seq<Item>, mac: string, bootfile: string, hostname: string, added: Lines, result: Lines)
    requires WellFormed(items) && AddressText(mac) && !IsConfigured(Flatten(items), mac)
    requires added == Flatten(items) + [""] + ItemLines(HostItem(hostname, mac, bootfile))
    requires result == Filter(Squeeze(added, false), mac, Outside)
    ensures !Mentioned(items, mac) ==> NonBlank(result) == NonBlank(Flatten(items))
    ensures IsConfigured(result, mac) <==> Mentioned(items, mac)
  {
    AddedLines(items, hostname, mac, bootfile);
    WellFormedAdded(items, hostname, mac, bootfile);
    RemoveHostOnWellFormed(items + AddedItems(hostname, mac, bootfile), mac, result);
    RemovedItems(items, hostname, mac, bootfile);
    ConfiguredIgnoresBlanks(result, mac);
    if Mentioned(items, mac) {
      var kept := RemoveFirst(items, mac);
      StaysConfigured(kept, hostname, mac, bootfile);
      ConfiguredIgnoresBlanks(Flatten(kept + AddedItems(hostname, mac, bootfile)), mac);
    } else {
      BlankItemAtEnd(items);
      ConfiguredIgnoresBlanks(Flatten(items), mac);
    }
  }
}
