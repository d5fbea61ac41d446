/** Files of well-formed class stanzas: what the readers and editors of ArchClass do to them, and the
    laws that tie reading and editing together. */
module ClassStanzas {
  import opened Text
  import opened ConfigLines
  import opened Stanzas
  import opened ArchClass
  import opened ClassLines

  // ----- the structure of the file ----------------------------------------------------------

  predicate BodyLines(body: Lines) {
    body == [] || (BodyLine(body[0]) && BodyLines(body[1..]))
  }

  predicate WellFormedItem(item: Item) {
    match item
    case Plain(line) => NoHeader(line) && NoMatch(line)
    case Stanza(header, body, close) =>
      && StartsWith(header, "class") && ConfigLine(header).Some? && StartsWith(ConfigLine(header).value, "class")
      && NoMatch(header) && !Closes(header)
      && BodyLines(body)
      && NoHeader(close) && NoMatch(close) && Closes(close) && SeesClose(close)
  }

  predicate WellFormed(items: seq<Item>) {
    items == [] || (WellFormedItem(items[0]) && WellFormed(items[1..]))
  }

  predicate HasMatch(body: Lines, arch: Arch) {
    body != [] && (VciMatch(body[0], arch) || HasMatch(body[1..], arch))
  }

  // ----- reading ----------------------------------------------------------------------------

  /** The bootfile of the first class of the architecture. */
  function GetItems(items: seq<Item>, arch: Arch): Option<Option<string>> {
    if items == [] then None
    else if items[0].Stanza? && HasMatch(items[0].body, arch) then Some(FirstSeen(items[0].body))
    else GetItems(items[1..], arch)
  }

  function Texts(lines: Lines): Lines {
    if lines == [] then []
    else (match ConfigLine(lines[0]) case None => [] case Some(text) => [text]) + Texts(lines[1..])
  }

  lemma {:induction false} FirstOfTexts(body: Lines)
    ensures FirstFilename(Texts(body)) == FirstSeen(body)
  {
    if body != [] {
      FirstOfTexts(body[1..]);
      var rest := Texts(body[1..]);
      match ConfigLine(body[0]) {
        case None =>
          assert [] + rest == rest;
        case Some(text) =>
          assert ([text] + rest)[1..] == rest;
      }
    }
  }

  lemma ReadStep(line: string, rest: Lines, arch: Arch, classlines: Lines, found: bool)
    ensures ReadLines([line] + rest, arch, classlines, found) ==
            match ConfigLine(line)
            case None => ReadLines(rest, arch, classlines, found)
            case Some(text) =>
              if StartsWith(text, "class") then ReadLines(rest, arch, [], found)
              else if !EndsOpenly(text) && found then Some(classlines)
              else ReadLines(rest, arch, classlines + [text], found || VciMatch(text, arch))
  {
    assert ([line] + rest)[1..] == rest;
  }

  lemma {:induction false} ReadBody(body: Lines, rest: Lines, arch: Arch, classlines: Lines, found: bool)
    requires BodyLines(body)
    ensures ReadLines(body + rest, arch, classlines, found) ==
            ReadLines(rest, arch, classlines + Texts(body), found || HasMatch(body, arch))
  {
    if body == [] {
      assert body + rest == rest && classlines + [] == classlines;
    } else {
      var line, tail := body[0], body[1..];
      assert body + rest == [line] + (tail + rest);
      ReadStep(line, tail + rest, arch, classlines, found);
      match ConfigLine(line) {
        case None =>
          ReadBody(tail, rest, arch, classlines, found);
          assert [] + Texts(tail) == Texts(tail);
        case Some(text) =>
          ReadBody(tail, rest, arch, classlines + [text], found || VciMatch(text, arch));
          AppendAssociates(classlines, [text], Texts(tail));
      }
    }
  }

  lemma ReadPlain(line: string, rest: Lines, arch: Arch, classlines: Lines)
    requires NoHeader(line) && NoMatch(line)
    ensures ReadLines([line] + rest, arch, classlines, false) ==
            ReadLines(rest, arch, if ConfigLine(line).None? then classlines else classlines + [ConfigLine(line).value], false)
  {
    ReadStep(line, rest, arch, classlines, false);
    assert !SeesMatch(line, arch);
  }

  lemma ReadClassStanza(item: Item, rest: Lines, arch: Arch, classlines: Lines)
    requires item.Stanza? && WellFormedItem(item)
    ensures ReadLines(ItemLines(item) + rest, arch, classlines, false) ==
            if HasMatch(item.body, arch) then Some(Texts(item.body))
            else ReadLines(rest, arch, Texts(item.body) + [ConfigLine(item.close).value], false)
  {
    var tail := [item.close] + rest;
    StanzaLines(item, rest);
    ReadStep(item.header, item.body + tail, arch, classlines, false);
    ReadBody(item.body, tail, arch, [], false);
    assert [] + Texts(item.body) == Texts(item.body);
    ReadStep(item.close, rest, arch, Texts(item.body), HasMatch(item.body, arch));
    assert !SeesMatch(item.close, arch);
  }

  /** On a well-formed file get_arch gives the first visible filename of the first class of the
      architecture, whatever lines were collected before. */
  lemma {:induction false} ReadFile(items: seq<Item>, arch: Arch, classlines: Lines)
    requires WellFormed(items)
    ensures GetItems(items, arch) ==
            match ReadLines(Flatten(items), arch, classlines, false)
            case None => None
            case Some(lines) => Some(FirstFilename(lines))
  {
    if items != [] {
      var item, rest := items[0], items[1..];
      match item {
        case Plain(line) =>
          ReadPlain(line, Flatten(rest), arch, classlines);
          ReadFile(rest, arch, if ConfigLine(line).None? then classlines else classlines + [ConfigLine(line).value]);
        case Stanza(header, body, close) =>
          ReadClassStanza(item, Flatten(rest), arch, classlines);
          FirstOfTexts(body);
          ReadFile(rest, arch, Texts(body) + [ConfigLine(close).value]);
      }
    }
  }

  // ----- editing ----------------------------------------------------------------------------

  function EditedBody(body: Lines, arch: Arch, action: Action): Lines {
    EditFrom(body, arch, action, true, false)
  }

  predicate Editable(body: Lines, arch: Arch, action: Action) {
    Point(body, arch, action.Set?, true, false).Some?
  }

  function EditItems(items: seq<Item>, arch: Arch, action: Action): seq<Item> {
    if items == [] then []
    else if items[0].Stanza? && Editable(items[0].body, arch, action) then
      [items[0].(body := EditedBody(items[0].body, arch, action))] + items[1..]
    else [items[0]] + EditItems(items[1..], arch, action)
  }

  lemma {:induction false} EditBodyLines(body: Lines, rest: Lines, arch: Arch, action: Action, seek: bool)
    requires BodyLines(body) && (action.Set? ==> !seek)
    ensures action.Set? && Point(body, arch, action.Set?, true, seek).None? ==> !HasMatch(body, arch)
    ensures EditFrom(body + rest, arch, action, true, seek) ==
            if Point(body, arch, action.Set?, true, seek).Some? then EditFrom(body, arch, action, true, seek) + rest
            else body + EditFrom(rest, arch, action, true, seek || HasMatch(body, arch))
  {
    if body == [] {
      assert body + rest == rest && [] + EditFrom(rest, arch, action, true, seek) == EditFrom(rest, arch, action, true, seek);
    } else {
      var line, tail := body[0], body[1..];
      assert body == [line] + tail && body + rest == [line] + (tail + rest);
      EditStep(line, tail + rest, arch, action, true, seek);
      EditStep(line, tail, arch, action, true, seek);
      PointStep(line, tail, arch, action.Set?, true, seek);
      if seek && HasFilename(line) {
        AppendAssociates(Replacement(action.replacement), tail, rest);
      } else if VciMatch(line, arch) && action.Set? {
        AppendAssociates([line] + [NewLine(action.bootfile)], tail, rest);
      } else {
        var seek' := seek || VciMatch(line, arch);
        EditBodyLines(tail, rest, arch, action, seek');
        AppendAssociates([line], EditFrom(tail, arch, action, true, seek'), rest);
        if Point(tail, arch, action.Set?, true, seek').None? {
          AppendAssociates([line], tail, EditFrom(rest, arch, action, true, seek' || HasMatch(tail, arch)));
        }
      }
    }
  }

  lemma EditPlain(line: string, rest: Lines, arch: Arch, action: Action)
    requires NoHeader(line) && NoMatch(line)
    ensures EditFrom([line] + rest, arch, action, false, false) == [line] + EditFrom(rest, arch, action, false, false)
  {
    EditStep(line, rest, arch, action, false, false);
  }

  lemma EditStanza(item: Item, rest: Lines, arch: Arch, action: Action)
    requires item.Stanza? && WellFormedItem(item)
    ensures EditFrom(ItemLines(item) + rest, arch, action, false, false) ==
            if Editable(item.body, arch, action) then ItemLines(item.(body := EditedBody(item.body, arch, action))) + rest
            else ItemLines(item) + EditFrom(rest, arch, action, false, false)
  {
    var header, body, close := item.header, item.body, item.close;
    var tail := [close] + rest;
    StanzaLines(item, rest);
    EditStep(header, body + tail, arch, action, false, false);
    assert !VciMatch(header, arch);
    EditBodyLines(body, tail, arch, action, false);
    if Editable(body, arch, action) {
      StanzaLines(item.(body := EditedBody(body, arch, action)), rest);
    } else {
      EditStep(close, rest, arch, action, true, HasMatch(body, arch));
      StanzaLines(item, EditFrom(rest, arch, action, false, false));
    }
  }

  lemma {:induction false} EditFileFrom(items: seq<Item>, arch: Arch, action: Action)
    requires WellFormed(items)
    ensures EditFrom(Flatten(items), arch, action, false, false) == Flatten(EditItems(items, arch, action))
  {
    if items != [] {
      var item, rest := items[0], items[1..];
      EditFileFrom(rest, arch, action);
      if item.Plain? {
        EditPlain(item.line, Flatten(rest), arch, action);
        FlattenCons(item, EditItems(rest, arch, action));
      } else {
        EditStanza(item, Flatten(rest), arch, action);
        if Editable(item.body, arch, action) {
          FlattenCons(item.(body := EditedBody(item.body, arch, action)), rest);
        } else {
          FlattenCons(item, EditItems(rest, arch, action));
        }
      }
    }
  }

  /** On a well-formed file the editor changes the first class that has its edit point. */
  lemma {:induction false} EditFile(items: seq<Item>, arch: Arch, action: Action)
    requires WellFormed(items)
    ensures Edit(Flatten(items), arch, action) == Flatten(EditItems(items, arch, action))
  {
    EditFromIsEdit(Flatten(items), arch, action, false, false);
    EditFileFrom(items, arch, action);
  }

  // ----- one class body, before and after -----------------------------------------------------

  /** No visible filename up to and including the first match line. */
  predicate MatchFirst(body: Lines, arch: Arch) {
    body != [] ==> SeenFilename(body[0]).None? && (VciMatch(body[0], arch) || MatchFirst(body[1..], arch))
  }

  predicate NamesFile(body: Lines) {
    body != [] && (HasFilename(body[0]) || NamesFile(body[1..]))
  }

  /** Some line behind the first match line has the text of a filename statement. */
  predicate NamesFileBehindMatch(body: Lines, arch: Arch) {
    body != [] && if VciMatch(body[0], arch) then NamesFile(body[1..]) else NamesFileBehindMatch(body[1..], arch)
  }

  function BehindFilename(body: Lines): Lines {
    if body == [] then [] else if HasFilename(body[0]) then body[1..] else BehindFilename(body[1..])
  }

  /** The lines behind the first filename statement behind the first match line. */
  function BehindEdit(body: Lines, arch: Arch): Lines {
    if body == [] then [] else if VciMatch(body[0], arch) then BehindFilename(body[1..]) else BehindEdit(body[1..], arch)
  }

  lemma BehindCons(line: string, rest: Lines, arch: Arch)
    ensures MatchFirst([line] + rest, arch) <==> SeenFilename(line).None? && (VciMatch(line, arch) || MatchFirst(rest, arch))
    ensures NamesFile([line] + rest) <==> HasFilename(line) || NamesFile(rest)
    ensures NamesFileBehindMatch([line] + rest, arch) <==>
            if VciMatch(line, arch) then NamesFile(rest) else NamesFileBehindMatch(rest, arch)
    ensures BehindFilename([line] + rest) == if HasFilename(line) then rest else BehindFilename(rest)
    ensures BehindEdit([line] + rest, arch) == if VciMatch(line, arch) then BehindFilename(rest) else BehindEdit(rest, arch)
  {
    assert ([line] + rest)[1..] == rest;
  }

  lemma {:induction false} SetBody(body: Lines, arch: Arch, bootfile: string)
    requires BodyLines(body) && BootText(bootfile)
    ensures Editable(body, arch, Set(bootfile)) <==> HasMatch(body, arch)
    ensures HasMatch(body, arch) && MatchFirst(body, arch) ==> FirstSeen(EditedBody(body, arch, Set(bootfile))) == Some(bootfile)
  {
    if body != [] {
      var line, tail := body[0], body[1..];
      assert body == [line] + tail;
      EditStep(line, tail, arch, Set(bootfile), true, false);
      if VciMatch(line, arch) {
        NewLineReads(bootfile);
        SeenCons(NewLine(bootfile), tail);
        SeenCons(line, [NewLine(bootfile)] + tail);
        AppendAssociates([line], [NewLine(bootfile)], tail);
      } else {
        SetBody(tail, arch, bootfile);
        SeenCons(line, EditedBody(tail, arch, Set(bootfile)));
      }
    }
  }

  lemma {:induction false} SeekBody(body: Lines, arch: Arch, replacement: Option<string>)
    requires BodyLines(body) && (replacement.Some? ==> BootText(replacement.value))
    ensures Point(body, arch, false, true, true).Some? <==> NamesFile(body)
    ensures !NamesFile(body) ==> FirstSeen(body) == None
    ensures NamesFile(body) ==>
              FirstSeen(EditFrom(body, arch, Update(replacement), true, true)) ==
              if replacement.Some? then replacement else FirstSeen(BehindFilename(body))
  {
    if body != [] {
      var line, tail := body[0], body[1..];
      assert body == [line] + tail;
      EditStep(line, tail, arch, Update(replacement), true, true);
      SeenIsFound(line);
      if HasFilename(line) {
        if replacement.Some? {
          NewLineReads(replacement.value);
          SeenCons(NewLine(replacement.value), tail);
        } else {
          assert [] + tail == tail;
        }
      } else {
        SeekBody(tail, arch, replacement);
        SeenCons(line, EditFrom(tail, arch, Update(replacement), true, true));
      }
    }
  }

  lemma BodyCons(line: string, rest: Lines, arch: Arch)
    ensures BodyLines([line] + rest) <==> BodyLine(line) && BodyLines(rest)
    ensures HasMatch([line] + rest, arch) <==> VciMatch(line, arch) || HasMatch(rest, arch)
  {
    assert ([line] + rest)[1..] == rest;
  }

  /** What an update makes of the lines of a class. */
  ghost predicate UpdatedBody(body: Lines, arch: Arch, replacement: Option<string>) {
    && (Editable(body, arch, Update(replacement)) <==> NamesFileBehindMatch(body, arch))
    && (HasMatch(body, arch) && !NamesFileBehindMatch(body, arch) ==> FirstSeen(body) == None)
    && (NamesFileBehindMatch(body, arch) ==>
          && HasMatch(body, arch)
          && FirstSeen(EditedBody(body, arch, Update(replacement))) ==
             if replacement.Some? then replacement else FirstSeen(BehindEdit(body, arch)))
  }

  lemma UpdateMatchLine(line: string, tail: Lines, arch: Arch, replacement: Option<string>)
    requires BodyLine(line) && BodyLines(tail) && (replacement.Some? ==> BootText(replacement.value))
    requires SeenFilename(line).None? && VciMatch(line, arch)
    ensures UpdatedBody([line] + tail, arch, replacement)
  {
    EditStep(line, tail, arch, Update(replacement), true, false);
    PointStep(line, tail, arch, false, true, false);
    BehindCons(line, tail, arch);
    BodyCons(line, tail, arch);
    SeenCons(line, tail);
    SeekBody(tail, arch, replacement);
    SeenCons(line, EditFrom(tail, arch, Update(replacement), true, true));
  }

  lemma UpdateOtherLine(line: string, tail: Lines, arch: Arch, replacement: Option<string>)
    requires BodyLine(line) && SeenFilename(line).None? && !VciMatch(line, arch) && UpdatedBody(tail, arch, replacement)
    ensures UpdatedBody([line] + tail, arch, replacement)
  {
    EditStep(line, tail, arch, Update(replacement), true, false);
    PointStep(line, tail, arch, false, true, false);
    BehindCons(line, tail, arch);
    BodyCons(line, tail, arch);
    SeenCons(line, tail);
    SeenCons(line, EditedBody(tail, arch, Update(replacement)));
  }

  lemma NothingToUpdate(arch: Arch, replacement: Option<string>)
    ensures UpdatedBody([], arch, replacement)
  {}

  lemma {:induction false} UpdateBody(body: Lines, arch: Arch, replacement: Option<string>)
    requires BodyLines(body) && (replacement.Some? ==> BootText(replacement.value)) && MatchFirst(body, arch)
    ensures UpdatedBody(body, arch, replacement)
  {
    if body == [] {
      NothingToUpdate(arch, replacement);
    } else {
      var line, tail := body[0], body[1..];
      assert body == [line] + tail;
      if VciMatch(line, arch) {
        UpdateMatchLine(line, tail, arch, replacement);
      } else {
        UpdateBody(tail, arch, replacement);
        UpdateOtherLine(line, tail, arch, replacement);
      }
    }
  }

  lemma ReplaceKeeps(line: string, rest: Lines, replacement: Option<string>, other: Arch)
    requires BodyLine(line) && HasFilename(line) && BodyLines(rest) && (replacement.Some? ==> BootText(replacement.value))
    ensures BodyLines(Replacement(replacement) + rest)
    ensures HasMatch(Replacement(replacement) + rest, other) == HasMatch([line] + rest, other)
  {
    BodyCons(line, rest, other);
    assert NoMatch(line);
    match replacement {
      case None =>
        assert [] + rest == rest;
      case Some(b) =>
        NewLineIsBodyLine(b);
        NewLineNoMatch(b);
        BodyCons(NewLine(b), rest, other);
    }
  }

  lemma InsertKeeps(line: string, rest: Lines, bootfile: string, other: Arch)
    requires BodyLine(line) && BodyLines(rest) && BootText(bootfile)
    ensures BodyLines([line] + [NewLine(bootfile)] + rest)
    ensures HasMatch([line] + [NewLine(bootfile)] + rest, other) == HasMatch([line] + rest, other)
  {
    NewLineIsBodyLine(bootfile);
    NewLineNoMatch(bootfile);
    BodyCons(NewLine(bootfile), rest, other);
    BodyCons(line, [NewLine(bootfile)] + rest, other);
    BodyCons(line, rest, other);
    AppendAssociates([line], [NewLine(bootfile)], rest);
  }

  predicate ActionText(action: Action) {
    match action
    case Set(b) => BootText(b)
    case Update(replacement) => replacement.Some? ==> BootText(replacement.value)
  }

  /** The edit keeps the class a well-formed class of the same architectures. */
  lemma {:induction false} EditKeepsBody(body: Lines, arch: Arch, action: Action, seek: bool, other: Arch)
    requires BodyLines(body) && (action.Set? ==> !seek) && ActionText(action)
    ensures BodyLines(EditFrom(body, arch, action, true, seek))
    ensures HasMatch(EditFrom(body, arch, action, true, seek), other) == HasMatch(body, other)
  {
    if body == [] {
    } else {
      var line, tail := body[0], body[1..];
      assert body == [line] + tail;
      EditStep(line, tail, arch, action, true, seek);
      if seek && HasFilename(line) {
        ReplaceKeeps(line, tail, action.replacement, other);
      } else if VciMatch(line, arch) && action.Set? {
        InsertKeeps(line, tail, action.bootfile, other);
      } else {
        var seek' := seek || VciMatch(line, arch);
        EditKeepsBody(tail, arch, action, seek', other);
        BodyCons(line, EditFrom(tail, arch, action, true, seek'), other);
        BodyCons(line, tail, other);
      }
    }
  }

  lemma {:induction false} EditKeepsFile(items: seq<Item>, arch: Arch, action: Action)
    requires WellFormed(items) && ActionText(action)
    ensures WellFormed(EditItems(items, arch, action))
  {
    if items != [] {
      var item, rest := items[0], items[1..];
      if item.Stanza? && Editable(item.body, arch, action) {
        EditKeepsBody(item.body, arch, action, false, arch);
        assert ([item.(body := EditedBody(item.body, arch, action))] + rest)[1..] == rest;
      } else {
        EditKeepsFile(rest, arch, action);
        assert ([item] + EditItems(rest, arch, action))[1..] == EditItems(rest, arch, action);
      }
    }
  }

  /** Behind the match line: the line an earlier edit wrote is the line the next edit finds. */
  lemma {:induction false} EditAgain(body: Lines, arch: Arch, bootfile: string, action: Action)
    requires BodyLines(body) && BootText(bootfile) && action.Update?
    ensures var once := EditFrom(body, arch, Update(Some(bootfile)), true, true);
            && Point(once, arch, false, true, true).Some? == Point(body, arch, false, true, true).Some?
            && EditFrom(once, arch, action, true, true) == EditFrom(body, arch, action, true, true)
  {
    if body != [] {
      var line, tail := body[0], body[1..];
      assert body == [line] + tail;
      EditStep(line, tail, arch, Update(Some(bootfile)), true, true);
      EditStep(line, tail, arch, action, true, true);
      PointStep(line, tail, arch, false, true, true);
      if HasFilename(line) {
        NewLineReads(bootfile);
        NewLineIsBodyLine(bootfile);
        EditStep(NewLine(bootfile), tail, arch, action, true, true);
        PointStep(NewLine(bootfile), tail, arch, false, true, true);
      } else {
        EditAgain(tail, arch, bootfile, action);
        var once := EditFrom(tail, arch, Update(Some(bootfile)), true, true);
        EditStep(line, once, arch, action, true, true);
        PointStep(line, once, arch, false, true, true);
      }
    }
  }

  lemma {:induction false} UpdateAgain(body: Lines, arch: Arch, bootfile: string, action: Action)
    requires BodyLines(body) && BootText(bootfile) && action.Update?
    ensures var once := EditedBody(body, arch, Update(Some(bootfile)));
            && Editable(once, arch, action) == Editable(body, arch, action)
            && EditedBody(once, arch, action) == EditedBody(body, arch, action)
  {
    if body != [] {
      var line, tail := body[0], body[1..];
      assert body == [line] + tail;
      EditStep(line, tail, arch, Update(Some(bootfile)), true, false);
      EditStep(line, tail, arch, action, true, false);
      PointStep(line, tail, arch, false, true, false);
      var once := EditFrom(tail, arch, Update(Some(bootfile)), true, VciMatch(line, arch));
      EditStep(line, once, arch, action, true, false);
      PointStep(line, once, arch, false, true, false);
      if VciMatch(line, arch) {
        EditAgain(tail, arch, bootfile, action);
      } else {
        UpdateAgain(tail, arch, bootfile, action);
      }
    }
  }

  lemma UnsetAtMatch(line: string, tail: Lines, arch: Arch, bootfile: string)
    requires BodyLine(line) && BootText(bootfile) && VciMatch(line, arch)
    ensures var inserted := [line] + [NewLine(bootfile)] + tail;
            Editable(inserted, arch, Update(None)) && EditedBody(inserted, arch, Update(None)) == [line] + tail
  {
    NewLineReads(bootfile);
    NewLineIsBodyLine(bootfile);
    var rest := [NewLine(bootfile)] + tail;
    AppendAssociates([line], [NewLine(bootfile)], tail);
    EditStep(line, rest, arch, Update(None), true, false);
    PointStep(line, rest, arch, false, true, false);
    EditStep(NewLine(bootfile), tail, arch, Update(None), true, true);
    PointStep(NewLine(bootfile), tail, arch, false, true, true);
    assert [] + tail == tail;
  }

  lemma EditSkips(line: string, tail: Lines, arch: Arch, action: Action)
    requires BodyLine(line) && !VciMatch(line, arch)
    ensures EditedBody([line] + tail, arch, action) == [line] + EditedBody(tail, arch, action)
    ensures Editable([line] + tail, arch, action) <==> Editable(tail, arch, action)
  {
    EditStep(line, tail, arch, action, true, false);
    PointStep(line, tail, arch, action.Set?, true, false);
  }

  /** Removing the filename line that 'set' puts behind the match line gives the old lines. */
  predicate Undoes(body: Lines, arch: Arch, bootfile: string) {
    var inserted := EditedBody(body, arch, Set(bootfile));
    Editable(inserted, arch, Update(None)) && EditedBody(inserted, arch, Update(None)) == body
  }

  lemma UndoesAtMatch(line: string, tail: Lines, arch: Arch, bootfile: string)
    requires BodyLine(line) && BootText(bootfile) && VciMatch(line, arch)
    ensures Undoes([line] + tail, arch, bootfile)
  {
    EditStep(line, tail, arch, Set(bootfile), true, false);
    UnsetAtMatch(line, tail, arch, bootfile);
  }

  lemma UndoesBehind(line: string, tail: Lines, arch: Arch, bootfile: string)
    requires BodyLine(line) && !VciMatch(line, arch) && Undoes(tail, arch, bootfile)
    ensures Undoes([line] + tail, arch, bootfile)
  {
    EditSkips(line, tail, arch, Set(bootfile));
    EditSkips(line, EditedBody(tail, arch, Set(bootfile)), arch, Update(None));
  }

  lemma UndoesStep(line: string, tail: Lines, arch: Arch, bootfile: string)
    requires BodyLine(line) && BootText(bootfile) && (VciMatch(line, arch) || Undoes(tail, arch, bootfile))
    ensures Undoes([line] + tail, arch, bootfile)
  {
    if VciMatch(line, arch) {
      UndoesAtMatch(line, tail, arch, bootfile);
    } else {
      UndoesBehind(line, tail, arch, bootfile);
    }
  }

  lemma {:induction false} UnsetUndoesSetBody(body: Lines, arch: Arch, bootfile: string)
    requires BodyLines(body) && BootText(bootfile) && HasMatch(body, arch)
    ensures Undoes(body, arch, bootfile)
  {
    if !VciMatch(body[0], arch) {
      UnsetUndoesSetBody(body[1..], arch, bootfile);
    }
    UndoesStep(body[0], body[1..], arch, bootfile);
    assert body == [body[0]] + body[1..];
  }

  // ----- the laws ---------------------------------------------------------------------------

  /** The body of the first class of the architecture, which get_arch reads. */
  function ClassOf(items: seq<Item>, arch: Arch): Option<Lines> {
    if items == [] then None
    else if items[0].Stanza? && HasMatch(items[0].body, arch) then Some(items[0].body)
    else ClassOf(items[1..], arch)
  }

  predicate MatchesFirst(items: seq<Item>, arch: Arch) {
    items == [] || ((items[0].Stanza? && HasMatch(items[0].body, arch) ==> MatchFirst(items[0].body, arch)) && MatchesFirst(items[1..], arch))
  }

  lemma EditItemsCons(item: Item, rest: seq<Item>, arch: Arch, action: Action)
    ensures EditItems([item] + rest, arch, action) ==
            if item.Stanza? && Editable(item.body, arch, action) then [item.(body := EditedBody(item.body, arch, action))] + rest
            else [item] + EditItems(rest, arch, action)
    ensures ClassOf([item] + rest, arch) ==
            if item.Stanza? && HasMatch(item.body, arch) then Some(item.body) else ClassOf(rest, arch)
    ensures GetItems([item] + rest, arch) ==
            if item.Stanza? && HasMatch(item.body, arch) then Some(FirstSeen(item.body)) else GetItems(rest, arch)
  {
    assert ([item] + rest)[1..] == rest;
  }

  lemma {:induction false} SetItems(items: seq<Item>, arch: Arch, bootfile: string)
    requires WellFormed(items) && MatchesFirst(items, arch) && BootText(bootfile)
    ensures GetItems(EditItems(items, arch, Set(bootfile)), arch) ==
            if ClassOf(items, arch).None? then None else Some(Some(bootfile))
  {
    if items != [] {
      var item, rest := items[0], items[1..];
      SetItems(rest, arch, bootfile);
      EditItemsCons(item, EditItems(rest, arch, Set(bootfile)), arch, Set(bootfile));
      if item.Stanza? {
        SetBody(item.body, arch, bootfile);
        EditKeepsBody(item.body, arch, Set(bootfile), false, arch);
        EditItemsCons(item.(body := EditedBody(item.body, arch, Set(bootfile))), rest, arch, Set(bootfile));
      }
    }
  }

  lemma {:induction false} ClassIsRead(items: seq<Item>, arch: Arch)
    ensures GetItems(items, arch) ==
            match ClassOf(items, arch)
            case None => None
            case Some(body) => Some(FirstSeen(body))
  {
    if items != [] {
      ClassIsRead(items[1..], arch);
    }
  }

  /** set_bootfile: get_arch returns the bootfile, and one line has come in behind the match line. */
  lemma SetThenGet(items: seq<Item>, arch: Arch, bootfile: string)
    requires WellFormed(items) && MatchesFirst(items, arch) && BootText(bootfile)
    ensures var lines := Flatten(items);
            Get(Edit(lines, arch, Set(bootfile)), arch) == if Get(lines, arch).None? then None else Some(Some(bootfile))
  {
    EditFile(items, arch, Set(bootfile));
    EditKeepsFile(items, arch, Set(bootfile));
    ReadFile(items, arch, []);
    ReadFile(EditItems(items, arch, Set(bootfile)), arch, []);
    SetItems(items, arch, bootfile);
    ClassIsRead(items, arch);
  }

  lemma {:induction false} EditableMatches(body: Lines, arch: Arch, action: Action)
    requires BodyLines(body)
    ensures Editable(body, arch, action) ==> HasMatch(body, arch)
  {
    if body != [] {
      var line, tail := body[0], body[1..];
      assert body == [line] + tail;
      PointStep(line, tail, arch, action.Set?, true, false);
      if !VciMatch(line, arch) {
        EditableMatches(tail, arch, action);
      }
    }
  }

  lemma {:induction false} UpdateItems(items: seq<Item>, arch: Arch, replacement: Option<string>)
    requires WellFormed(items) && MatchesFirst(items, arch) && (replacement.Some? ==> BootText(replacement.value))
    ensures GetItems(EditItems(items, arch, Update(replacement)), arch) ==
            match ClassOf(items, arch)
            case None => None
            case Some(body) =>
              if !NamesFileBehindMatch(body, arch) then Some(None)
              else if replacement.Some? then Some(replacement)
              else Some(FirstSeen(BehindEdit(body, arch)))
    ensures ClassOf(items, arch).Some? && !NamesFileBehindMatch(ClassOf(items, arch).value, arch) ==>
              FirstSeen(ClassOf(items, arch).value) == None
  {
    if items != [] {
      var item, rest, action := items[0], items[1..], Update(replacement);
      UpdateItems(rest, arch, replacement);
      EditItemsCons(item, EditItems(rest, arch, action), arch, action);
      if item.Stanza? {
        EditableMatches(item.body, arch, action);
        if HasMatch(item.body, arch) {
          UpdateBody(item.body, arch, replacement);
        }
        EditKeepsBody(item.body, arch, action, false, arch);
        EditItemsCons(item.(body := EditedBody(item.body, arch, action)), rest, arch, action);
      }
    }
  }

  /** update_bootfile reaches the reader exactly when the class has the text of a filename statement
      behind its match line; a class without one is left as it was, without a bootfile, although
      the object records the new one. */
  lemma UpdateThenGet(items: seq<Item>, arch: Arch, bootfile: string)
    requires WellFormed(items) && MatchesFirst(items, arch) && BootText(bootfile) && ClassOf(items, arch).Some?
    ensures var lines := Flatten(items);
            var after := Get(Edit(lines, arch, Update(Some(bootfile))), arch);
            && (after == Some(Some(bootfile)) <==> NamesFileBehindMatch(ClassOf(items, arch).value, arch))
            && (after != Some(Some(bootfile)) ==> after == Get(lines, arch) == Some(None))
  {
    var action := Update(Some(bootfile));
    EditFile(items, arch, action);
    EditKeepsFile(items, arch, action);
    ReadFile(items, arch, []);
    ReadFile(EditItems(items, arch, action), arch, []);
    UpdateItems(items, arch, Some(bootfile));
    ClassIsRead(items, arch);
  }

  lemma {:induction false} NothingSeen(body: Lines)
    ensures !NamesFile(body) ==> FirstSeen(body) == None
  {
    if body != [] {
      SeenIsFound(body[0]);
      NothingSeen(body[1..]);
    }
  }

  lemma {:induction false} NothingBehindFilename(body: Lines)
    ensures !NamesFile(body) ==> BehindFilename(body) == []
  {
    if body != [] {
      NothingBehindFilename(body[1..]);
    }
  }

  lemma {:induction false} NothingBehind(body: Lines, arch: Arch)
    ensures !NamesFileBehindMatch(body, arch) ==> BehindEdit(body, arch) == []
  {
    if body != [] {
      NothingBehindFilename(body[1..]);
      NothingBehind(body[1..], arch);
    }
  }

  /** unset_bootfile removes the first filename text behind the match line, comment or not: the
      class then has no bootfile exactly when no other visible one stands behind that line. */
  lemma UnsetThenGet(items: seq<Item>, arch: Arch)
    requires WellFormed(items) && MatchesFirst(items, arch) && ClassOf(items, arch).Some?
    ensures var body := ClassOf(items, arch).value;
            var after := Get(Edit(Flatten(items), arch, Update(None)), arch);
            after == Some(FirstSeen(BehindEdit(body, arch))) && (!NamesFile(BehindEdit(body, arch)) ==> after == Some(None))
  {
    EditFile(items, arch, Update(None));
    EditKeepsFile(items, arch, Update(None));
    ReadFile(EditItems(items, arch, Update(None)), arch, []);
    UpdateItems(items, arch, None);
    NothingBehind(ClassOf(items, arch).value, arch);
    NothingSeen(BehindEdit(ClassOf(items, arch).value, arch));
  }

  /** A commented-out filename in front of the real one is what unset removes. */
  lemma UnsetMissesBehindComment(matching: string, commented: string, bootfile: string, arch: Arch)
    requires BodyLine(matching) && VciMatch(matching, arch) && !HasFilename(matching)
    requires HasFilename(commented) && BootText(bootfile)
    ensures FirstSeen(BehindEdit([matching, commented, NewLine(bootfile)], arch)) == Some(bootfile)
  {
    NewLineReads(bootfile);
    var body := [matching, commented, NewLine(bootfile)];
    assert body[1..] == [commented, NewLine(bootfile)] && body[1..][1..] == [NewLine(bootfile)];
  }

  predicate Apart(items: seq<Item>, arch: Arch, other: Arch) {
    items == [] || ((items[0].Stanza? ==> !(HasMatch(items[0].body, arch) && HasMatch(items[0].body, other))) && Apart(items[1..], arch, other))
  }

  lemma {:induction false} OtherItems(items: seq<Item>, arch: Arch, other: Arch, action: Action)
    requires WellFormed(items) && ActionText(action) && Apart(items, arch, other)
    ensures GetItems(EditItems(items, arch, action), other) == GetItems(items, other)
  {
    if items != [] {
      var item, rest := items[0], items[1..];
      OtherItems(rest, arch, other, action);
      EditItemsCons(item, EditItems(rest, arch, action), other, action);
      if item.Stanza? {
        EditableMatches(item.body, arch, action);
        EditKeepsBody(item.body, arch, action, false, other);
        EditItemsCons(item.(body := EditedBody(item.body, arch, action)), rest, other, action);
      }
    }
  }

  /** The class of the other architecture reads as before, wherever it stands. */
  lemma OtherClassUnchanged(items: seq<Item>, arch: Arch, other: Arch, action: Action)
    requires WellFormed(items) && ActionText(action) && Apart(items, arch, other)
    ensures Get(Edit(Flatten(items), arch, action), other) == Get(Flatten(items), other)
  {
    EditFile(items, arch, action);
    EditKeepsFile(items, arch, action);
    ReadFile(items, other, []);
    ReadFile(EditItems(items, arch, action), other, []);
    OtherItems(items, arch, other, action);
  }

  lemma {:induction false} UpdateItemsAgain(items: seq<Item>, arch: Arch, bootfile: string, action: Action)
    requires WellFormed(items) && BootText(bootfile) && action.Update?
    ensures EditItems(EditItems(items, arch, Update(Some(bootfile))), arch, action) == EditItems(items, arch, action)
  {
    if items != [] {
      var item, rest := items[0], items[1..];
      UpdateItemsAgain(rest, arch, bootfile, action);
      EditItemsCons(item, EditItems(rest, arch, Update(Some(bootfile))), arch, action);
      if item.Stanza? {
        UpdateAgain(item.body, arch, bootfile, action);
        var once := EditedBody(item.body, arch, Update(Some(bootfile)));
        assert Editable(item.body, arch, Update(Some(bootfile))) == Editable(item.body, arch, action);
        EditItemsCons(item.(body := once), rest, arch, action);
      }
    }
  }

  /** The last update wins: a later update or unset finds the file as if the earlier update had not been. */
  lemma LastUpdateWins(items: seq<Item>, arch: Arch, bootfile: string, action: Action)
    requires WellFormed(items) && BootText(bootfile) && action.Update?
    ensures var lines := Flatten(items);
            Edit(Edit(lines, arch, Update(Some(bootfile))), arch, action) == Edit(lines, arch, action)
  {
    EditFile(items, arch, Update(Some(bootfile)));
    EditKeepsFile(items, arch, Update(Some(bootfile)));
    EditFile(EditItems(items, arch, Update(Some(bootfile))), arch, action);
    EditFile(items, arch, action);
    UpdateItemsAgain(items, arch, bootfile, action);
  }

  lemma {:induction false} UnsetUndoesSetItems(items: seq<Item>, arch: Arch, bootfile: string)
    requires WellFormed(items) && BootText(bootfile)
    requires ClassOf(items, arch).Some?
    ensures EditItems(EditItems(items, arch, Set(bootfile)), arch, Update(None)) == items
  {
    var item, rest := items[0], items[1..];
    assert items == [item] + rest;
    if item.Stanza? {
      SetBody(item.body, arch, bootfile);
      EditableMatches(item.body, arch, Update(None));
    }
    if item.Stanza? && HasMatch(item.body, arch) {
      UnsetUndoesSetBody(item.body, arch, bootfile);
      var inserted := EditedBody(item.body, arch, Set(bootfile));
      EditItemsCons(item.(body := inserted), rest, arch, Update(None));
    } else {
      UnsetUndoesSetItems(rest, arch, bootfile);
      EditItemsCons(item, EditItems(rest, arch, Set(bootfile)), arch, Update(None));
    }
  }

  /** unset_bootfile undoes set_bootfile line for line. */
  lemma UnsetUndoesSet(items: seq<Item>, arch: Arch, bootfile: string)
    requires WellFormed(items) && BootText(bootfile) && ClassOf(items, arch).Some?
    ensures Edit(Edit(Flatten(items), arch, Set(bootfile)), arch, Update(None)) == Flatten(items)
  {
    EditFile(items, arch, Set(bootfile));
    EditKeepsFile(items, arch, Set(bootfile));
    EditFile(EditItems(items, arch, Set(bootfile)), arch, Update(None));
    UnsetUndoesSetItems(items, arch, bootfile);
  }

  // ----- add_arch_class -----------------------------------------------------------------------

  /** The stanza that is appended for a new class, behind the blank line its text begins with. */
  function NewClass(arch: Arch, bootfile: string): Item {
    Stanza(ClassHeader(arch), ["  " + WrittenMatch(arch), NewLine(bootfile)], "}")
  }

  lemma TwoLineBody(line: string, named: string, arch: Arch, other: Arch)
    requires BodyLine(line) && VciMatch(line, arch) && SeenFilename(line).None? && (VciMatch(line, other) <==> other == arch)
    requires BodyLine(named) && NoMatch(named) && SeenFilename(named).Some? && HasFilename(named)
    ensures var body := [line, named];
            && BodyLines(body) && (HasMatch(body, other) <==> other == arch)
            && MatchFirst(body, arch) && NamesFileBehindMatch(body, arch) && FirstSeen(body) == SeenFilename(named)
  {
    assert [line, named] == [line] + [named] && [named] + [] == [named];
    BodyCons(named, [], other);
    BodyCons(line, [named], other);
    SeenCons(named, []);
    SeenCons(line, [named]);
    BehindCons(named, [], arch);
    BehindCons(line, [named], arch);
  }

  /** The stanza that add_arch_class appends is a well-formed class of its own architecture alone. */
  lemma NewClassIsWellFormed(arch: Arch, bootfile: string, other: Arch)
    requires BootText(bootfile)
    ensures WellFormedItem(NewClass(arch, bootfile))
    ensures var body := NewClass(arch, bootfile).body;
            && (HasMatch(body, other) <==> other == arch)
            && MatchFirst(body, arch) && NamesFileBehindMatch(body, arch) && FirstSeen(body) == Some(bootfile)
  {
    WrittenMatchParts(arch);
    HeaderAndClose(arch);
    MatchLineIsBodyLine(arch);
    NewLineIsBodyLine(bootfile);
    NewLineReads(bootfile);
    NewLineNoMatch(bootfile);
    OneArchitecture(arch, other);
    TwoLineBody("  " + MatchText(arch), NewLine(bootfile), arch, other);
  }

  lemma BlankIsPlain()
    ensures WellFormedItem(Plain(""))
  {
    assert ConfigLine("") == None;
    forall arch: Arch
      ensures !VciMatch("", arch)
    {
      BracketLineHasNoMatch("", arch);
    }
  }

  lemma AppendedToNothing(item: Item, arch: Arch)
    requires WellFormedItem(item)
    ensures WellFormed([Plain(""), item]) && WellFormed([item])
    ensures GetItems([Plain(""), item], arch) == GetItems([item], arch)
    ensures Flatten([Plain(""), item]) == [""] + ItemLines(item)
  {
    BlankIsPlain();
    assert [Plain(""), item][1..] == [item] && [item][1..] == [];
    FlattenCons(item, []);
    FlattenCons(Plain(""), [item]);
    assert [Plain("")] + [item] == [Plain(""), item] && [item] + [] == [item];
    assert ItemLines(item) + [] == ItemLines(item);
  }

  lemma WellFormedCons(item: Item, rest: seq<Item>)
    ensures WellFormed([item] + rest) <==> WellFormedItem(item) && WellFormed(rest)
  {
    assert ([item] + rest)[1..] == rest;
  }

  lemma {:induction false} WellFormedConcat(items: seq<Item>, tail: seq<Item>)
    requires WellFormed(items) && WellFormed(tail)
    ensures WellFormed(items + tail)
  {
    if items == [] {
      assert items + tail == tail;
    } else {
      var item, rest := items[0], items[1..];
      assert items == [item] + rest;
      WellFormedCons(item, rest);
      WellFormedConcat(rest, tail);
      WellFormedCons(item, rest + tail);
      AppendAssociates([item], rest, tail);
    }
  }

  lemma {:induction false} GetConcat(items: seq<Item>, tail: seq<Item>, arch: Arch)
    ensures GetItems(items + tail, arch) == if GetItems(items, arch).Some? then GetItems(items, arch) else GetItems(tail, arch)
  {
    if items == [] {
      assert items + tail == tail;
    } else {
      GetConcat(items[1..], tail, arch);
      assert (items + tail)[1..] == items[1..] + tail;
    }
  }

  /** add_arch_class on a file without the class: get_arch then returns the bootfile, and the class
      of the other architecture reads as before. */
  lemma AddThenGet(items: seq<Item>, arch: Arch, other: Arch, bootfile: string)
    requires WellFormed(items) && BootText(bootfile) && Get(Flatten(items), arch).None? && other != arch
    ensures var lines := Flatten(items) + ([""] + ItemLines(NewClass(arch, bootfile)));
            Get(lines, arch) == Some(Some(bootfile)) && Get(lines, other) == Get(Flatten(items), other)
  {
    var item := NewClass(arch, bootfile);
    NewClassIsWellFormed(arch, bootfile, arch);
    NewClassIsWellFormed(arch, bootfile, other);
    var tail := [Plain(""), item];
    AppendedToNothing(item, arch);
    AppendedToNothing(item, other);
    WellFormedConcat(items, tail);
    GetConcat(items, tail, arch);
    GetConcat(items, tail, other);
    FlattenConcat(items, tail);
    ReadFile(items, arch, []);
    ReadFile(items, other, []);
    ReadFile(items + tail, arch, []);
    ReadFile(items + tail, other, []);
    assert [item][1..] == [];
  }
}
