/** Architecture classes of the ISC DHCP configuration (dhcp.py): DHCPArchClass.get_arch reads the
    bootfile of a class, _edit_class_bootfile sets, replaces or removes it line by line. */
module ArchClass {
  import opened Text
  import opened ConfigLines

  // ----- what the patterns find ------------------------------------------------------------

  datatype Arch = I386 | Sparc

  function VciOpening(arch: Arch): string {
    match arch
    case I386 => "match if (sub"
    case Sparc => "match if not (sub"
  }

  const VCI_END := "\"PXEClient\");"

  predicate VciAt(s: string, arch: Arch, i: nat) {
    OccursAt(s, VciOpening(arch), i) && Contains(s[i + |VciOpening(arch)|..], VCI_END)
  }

  /** match if \(sub.*"PXEClient"\); or the same with "not" */
  predicate VciMatch(s: string, arch: Arch) {
    exists i :: 0 <= i <= |s| && VciAt(s, arch, i)
  }

  const FILENAME := "filename"

  /** The non-blank characters at the start of s, and a blank, so that there is always a first. */
  function WordAt(s: string): (w: string)
    ensures w != ""
  {
    if WordLength(s) == 0 then " " else s[..WordLength(s)]
  }

  /** filename\s+\S+; at the start of s */
  predicate FilenameAt(s: string) {
    StartsWith(s, FILENAME) &&
    var tail := s[|FILENAME|..];
    |LStrip(tail)| < |tail| && ';' in WordAt(LStrip(tail))[1..]
  }

  predicate HasFilename(s: string) {
    s != "" && (FilenameAt(s) || HasFilename(s[1..]))
  }

  /** The last place of the two closing characters of a file name, or -1. */
  function LastQuote(s: string): (n: int)
    ensures -1 <= n && n + 2 <= |s| + 1
    ensures n >= 0 ==> n + 2 <= |s| && s[n] == '"' && s[n + 1] == ';'
    ensures forall i | n < i < |s| - 1 :: !(s[i] == '"' && s[i + 1] == ';')
  {
    if |s| < 2 then -1
    else if s[|s| - 2] == '"' && s[|s| - 1] == ';' then |s| - 2
    else LastQuote(s[..|s| - 1])
  }

  /** ^filename\s+"(\S+)"; */
  function FilenameOf(text: string): Option<string> {
    if !StartsWith(text, FILENAME) then None
    else
      var tail := text[|FILENAME|..];
      var word := WordAt(LStrip(tail));
      var k := LastQuote(word);
      if |LStrip(tail)| == |tail| || word[0] != '"' || k < 2 then None else Some(word[1..k])
  }

  // ----- get_arch --------------------------------------------------------------------------

  /** The class lines collected for the architecture, starting in the middle of the file. */
  function ReadLines(lines: Lines, arch: Arch, classlines: Lines, found: bool): Option<Lines> {
    if lines == [] then
      if found then Some(classlines) else None
    else
      match ConfigLine(lines[0])
      case None => ReadLines(lines[1..], arch, classlines, found)
      case Some(line) =>
        if StartsWith(line, "class") then ReadLines(lines[1..], arch, [], found)
        else if !EndsOpenly(line) && found then Some(classlines)
        else ReadLines(lines[1..], arch, classlines + [line], found || VciMatch(line, arch))
  }

  function FirstFilename(classlines: Lines): Option<string> {
    if classlines == [] then None
    else if FilenameOf(classlines[0]).Some? then FilenameOf(classlines[0])
    else FirstFilename(classlines[1..])
  }

  /** None without a class, Some(None) for a class without a bootfile. */
  function Get(lines: Lines, arch: Arch): Option<Option<string>> {
    match ReadLines(lines, arch, [], false)
    case None => None
    case Some(classlines) => Some(FirstFilename(classlines))
  }

  method ReadClass(lines: Lines, arch: Arch) returns (r: Option<Option<string>>)
    ensures r == Get(lines, arch)
  {
    var found := false;
    var classlines: Lines := [];
    ghost var result := ReadLines(lines, arch, [], false);
    var i := 0;
    while i < |lines|
      invariant i <= |lines|
      invariant ReadLines(lines[i..], arch, classlines, found) == result
    {
      var config := ConfigLine(lines[i]);
      assert lines[i..][0] == lines[i] && lines[i..][1..] == lines[i + 1..];
      i := i + 1;
      if config.None? {
        continue;
      }
      var line := config.value;
      if StartsWith(line, "class") {
        classlines := [];
        continue;
      }
      if !EndsOpenly(line) && found {
        i := i - 1;
        assert ReadLines(lines[i..], arch, classlines, found) == Some(classlines);
        break;
      }
      if VciMatch(line, arch) {
        found := true;
      }
      classlines := classlines + [line];
    }
    assert result == if found then Some(classlines) else None;
    if !found {
      return None;
    }
    ghost var first := FirstFilename(classlines);
    for j := 0 to |classlines|
      invariant FirstFilename(classlines[j..]) == first
    {
      assert classlines[j..][0] == classlines[j] && classlines[j..][1..] == classlines[j + 1..];
      var filename := FilenameOf(classlines[j]);
      if filename.Some? {
        return Some(filename);
      }
    }
    assert classlines[|classlines|..] == [];
    r := Some(None);
  }

  // ----- _edit_class_bootfile -----------------------------------------------------------------

  datatype Action = Set(bootfile: string) | Update(replacement: Option<string>)

  function NewLine(bootfile: string): string {
    "  " + (FILENAME + (" " + ("\"" + (bootfile + "\";"))))
  }

  function Later(p: Option<nat>, n: nat): Option<nat> {
    match p
    case None => None
    case Some(k) => Some(k + n)
  }

  /** The line where the copy loop makes its edit: the match line of a class for 'set', the first
      filename line behind it for 'update'. */
  function Point(lines: Lines, arch: Arch, setting: bool, inClass: bool, seek: bool): (p: Option<nat>)
    ensures p.Some? ==> p.value < |lines|
  {
    if lines == [] then None
    else
      var line := lines[0];
      var open := (inClass || StartsWith(line, "class")) && !Closes(line);
      var seeking := seek && !Closes(line);
      if seeking && HasFilename(line) then Some(0)
      else if open && VciMatch(line, arch) then
        if setting then Some(0) else Later(Point(lines[1..], arch, setting, open, true), 1)
      else Later(Point(lines[1..], arch, setting, open, seeking), 1)
  }

  function Replacement(bootfile: Option<string>): Lines {
    match bootfile
    case None => []
    case Some(b) => [NewLine(b)]
  }

  /** One line is inserted after line k, or line k is replaced or dropped. */
  function EditAt(lines: Lines, k: nat, action: Action): Lines
    requires k < |lines|
  {
    match action
    case Set(b) => lines[..k + 1] + [NewLine(b)] + lines[k + 1..]
    case Update(replacement) => lines[..k] + Replacement(replacement) + lines[k + 1..]
  }

  function EditWhere(lines: Lines, p: Option<nat>, action: Action): Lines
    requires p.Some? ==> p.value < |lines|
  {
    match p
    case None => lines
    case Some(k) => EditAt(lines, k, action)
  }

  function Edit(lines: Lines, arch: Arch, action: Action): Lines {
    EditWhere(lines, Point(lines, arch, action.Set?, false, false), action)
  }

  lemma PointStep(line: string, rest: Lines, arch: Arch, setting: bool, inClass: bool, seek: bool)
    ensures var open := (inClass || StartsWith(line, "class")) && !Closes(line);
            var seeking := seek && !Closes(line);
            Point([line] + rest, arch, setting, inClass, seek) ==
            if seeking && HasFilename(line) then Some(0)
            else if open && VciMatch(line, arch) then
              if setting then Some(0) else Later(Point(rest, arch, setting, open, true), 1)
            else Later(Point(rest, arch, setting, open, seeking), 1)
  {
    assert ([line] + rest)[1..] == rest;
  }

  /** What the copy loop still writes. */
  function EditFrom(lines: Lines, arch: Arch, action: Action, inClass: bool, seek: bool): Lines
    requires action.Set? ==> !seek
  {
    if lines == [] then []
    else
      var line := lines[0];
      var open := (inClass || StartsWith(line, "class")) && !Closes(line);
      var seeking := seek && !Closes(line);
      if seeking && HasFilename(line) then Replacement(action.replacement) + lines[1..]
      else if open && VciMatch(line, arch) then
        if action.Set? then [line] + [NewLine(action.bootfile)] + lines[1..]
        else [line] + EditFrom(lines[1..], arch, action, open, true)
      else [line] + EditFrom(lines[1..], arch, action, open, seeking)
  }

  lemma EditStep(line: string, rest: Lines, arch: Arch, action: Action, inClass: bool, seek: bool)
    requires action.Set? ==> !seek
    ensures var open := (inClass || StartsWith(line, "class")) && !Closes(line);
            var seeking := seek && !Closes(line);
            EditFrom([line] + rest, arch, action, inClass, seek) ==
            if seeking && HasFilename(line) then Replacement(action.replacement) + rest
            else if open && VciMatch(line, arch) then
              if action.Set? then [line] + [NewLine(action.bootfile)] + rest
              else [line] + EditFrom(rest, arch, action, open, true)
            else [line] + EditFrom(rest, arch, action, open, seeking)
  {
    assert ([line] + rest)[1..] == rest;
  }

  lemma EditLater(line: string, rest: Lines, p: Option<nat>, action: Action)
    requires p.Some? ==> p.value < |rest|
    ensures EditWhere([line] + rest, Later(p, 1), action) == [line] + EditWhere(rest, p, action)
  {
    if p.Some? {
      var all, k := [line] + rest, p.value;
      assert all[k + 2..] == rest[k + 1..];
      if action.Set? {
        assert all[..k + 2] == [line] + rest[..k + 1];
      } else {
        assert all[..k + 1] == [line] + rest[..k];
      }
    }
  }

  lemma EditFirst(line: string, rest: Lines, action: Action)
    ensures EditWhere([line] + rest, Some(0), action) ==
            match action
            case Set(b) => [line] + [NewLine(b)] + rest
            case Update(replacement) => Replacement(replacement) + rest
  {
    var all := [line] + rest;
    assert all[..1] == [line] && all[..0] == [] && all[1..] == rest;
    assert action.Update? ==> [] + Replacement(action.replacement) == Replacement(action.replacement);
  }

  /** The loop edits the one line that Point names and copies the others. */
  lemma {:induction false} EditFromIsEdit(lines: Lines, arch: Arch, action: Action, inClass: bool, seek: bool)
    requires action.Set? ==> !seek
    ensures EditFrom(lines, arch, action, inClass, seek) == EditWhere(lines, Point(lines, arch, action.Set?, inClass, seek), action)
  {
    if lines != [] {
      var line, rest := lines[0], lines[1..];
      var open := (inClass || StartsWith(line, "class")) && !Closes(line);
      var seeking := seek && !Closes(line);
      assert lines == [line] + rest;
      EditStep(line, rest, arch, action, inClass, seek);
      PointStep(line, rest, arch, action.Set?, inClass, seek);
      if (seeking && HasFilename(line)) || (open && VciMatch(line, arch) && action.Set?) {
        EditFirst(line, rest, action);
      } else {
        var seek' := seeking || (open && VciMatch(line, arch));
        EditFromIsEdit(rest, arch, action, open, seek');
        EditLater(line, rest, Point(rest, arch, action.Set?, open, seek'), action);
      }
    }
  }

  method EditClassBootfile(lines: Lines, arch: Arch, action: Action) returns (newCfg: Lines, editComplete: bool)
    ensures newCfg == Edit(lines, arch, action)
    ensures editComplete <==> Point(lines, arch, action.Set?, false, false).Some?
  {
    var inClass, seekBootfile := false, false;
    newCfg, editComplete := [], false;
    ghost var complete := Point(lines, arch, action.Set?, false, false).Some?;
    ghost var result := EditFrom(lines, arch, action, false, false);
    for i := 0 to |lines|
      invariant action.Set? ==> !seekBootfile
      invariant editComplete ==> complete && newCfg + lines[i..] == result
      invariant !editComplete ==> newCfg + EditFrom(lines[i..], arch, action, inClass, seekBootfile) == result
      invariant !editComplete ==> complete == Point(lines[i..], arch, action.Set?, inClass, seekBootfile).Some?
    {
      var line := lines[i];
      ghost var rest := lines[i + 1..];
      assert lines[i..] == [line] + rest;
      if !editComplete {
        EditStep(line, rest, arch, action, inClass, seekBootfile);
        PointStep(line, rest, arch, action.Set?, inClass, seekBootfile);
        if StartsWith(line, "class") {
          inClass := true;
        }
        if Closes(line) {
          inClass := false;
          seekBootfile := false;
        }
        if seekBootfile {
          if HasFilename(line) {
            AppendAssociates(newCfg, Replacement(action.replacement), rest);
            if action.replacement.Some? {
              newCfg := newCfg + [NewLine(action.replacement.value)];
            } else {
              assert newCfg + [] == newCfg;
            }
            editComplete := true;
            continue;
          }
        }
        if inClass {
          if VciMatch(line, arch) {
            if action.Set? {
              AppendAssociates(newCfg, [line] + [NewLine(action.bootfile)], rest);
              AppendAssociates(newCfg, [line], [NewLine(action.bootfile)]);
              newCfg := newCfg + [line] + [NewLine(action.bootfile)];
              editComplete := true;
              continue;
            } else {
              seekBootfile := true;
            }
          }
        }
        AppendAssociates(newCfg, [line], EditFrom(rest, arch, action, inClass, seekBootfile));
      } else {
        AppendAssociates(newCfg, [line], rest);
      }
      newCfg := newCfg + [line];
    }
    assert lines[|lines|..] == [] && newCfg + [] == newCfg;
    EditFromIsEdit(lines, arch, action, false, false);
  }

  // ----- DHCPArchClass ------------------------------------------------------------------------

  class ConfigFile {
    var lines: Lines

    constructor (lines: Lines)
      ensures this.lines == lines
    {
      this.lines := lines;
    }
  }

  /** The object get_arch returns; its bootfile is what the file said when it was read, kept up to
      date by the three setters. */
  class DHCPArchClass {
    const server: ConfigFile
    const arch: Arch
    var bootfile: Option<string>

    constructor (server: ConfigFile, arch: Arch, bootfile: Option<string>)
      ensures this.server == server && this.arch == arch && this.bootfile == bootfile
    {
      this.server, this.arch, this.bootfile := server, arch, bootfile;
    }

    /** None when the file has no class for the architecture. */
    static method GetArch(server: ConfigFile, arch: Arch) returns (r: DHCPArchClass?)
      ensures r == null <==> Get(server.lines, arch).None?
      ensures r != null ==> fresh(r) && r.server == server && r.arch == arch && Get(server.lines, arch) == Some(r.bootfile)
    {
      var read := ReadClass(server.lines, arch);
      if read.None? {
        return null;
      }
      r := new DHCPArchClass(server, arch, read.value);
    }

    /** Refused when a bootfile is set already. */
    method SetBootfile(newBootfile: string) returns (ok: bool)
      modifies this, server
      ensures ok <==> old(bootfile).None?
      ensures server.lines == if ok then Edit(old(server.lines), arch, Set(newBootfile)) else old(server.lines)
      ensures bootfile == if ok then Some(newBootfile) else old(bootfile)
    {
      if bootfile.Some? {
        return false;
      }
      var newLines, _ := EditClassBootfile(server.lines, arch, Set(newBootfile));
      server.lines := newLines;
      bootfile := Some(newBootfile);
      ok := true;
    }

    /** Refused when no bootfile is set. */
    method UnsetBootfile() returns (ok: bool)
      modifies this, server
      ensures ok <==> old(bootfile).Some?
      ensures server.lines == if ok then Edit(old(server.lines), arch, Update(None)) else old(server.lines)
      ensures bootfile == None
    {
      if bootfile.None? {
        return false;
      }
      var newLines, _ := EditClassBootfile(server.lines, arch, Update(None));
      server.lines := newLines;
      bootfile := None;
      ok := true;
    }

    /** Never refused; the file may not have had a line to replace. */
    method UpdateBootfile(newBootfile: string) returns (edited: bool)
      modifies this, server
      ensures server.lines == Edit(old(server.lines), arch, Update(Some(newBootfile)))
      ensures edited <==> Point(old(server.lines), arch, false, false, false).Some?
      ensures bootfile == Some(newBootfile)
    {
      var newLines, complete := EditClassBootfile(server.lines, arch, Update(Some(newBootfile)));
      server.lines := newLines;
      bootfile := Some(newBootfile);
      edited := complete;
    }
  }
}
