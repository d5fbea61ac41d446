/** The GRUB menu of a service (grub.py): setup_grub writes it, three editors rewrite it in place. */
module Grub {
  import opened Text

  // ----- partition and replace ------------------------------------------------------------------

  /** The first place of sep in s. */
  function Find(s: string, sep: string): (r: Option<nat>)
    ensures r.Some? ==> r.value + |sep| <= |s|
  {
    if StartsWith(s, sep) then Some(0)
    else if s == "" then None
    else match Find(s[1..], sep)
         case None => None
         case Some(i) => Some(i + 1)
  }

  datatype Parts = Parts(before: string, found: bool, after: string)

  /** s.partition(sep) */
  function Partition(s: string, sep: string): Parts {
    match Find(s, sep)
    case None => Parts(s, false, "")
    case Some(i) => Parts(s[..i], true, s[i + |sep|..])
  }

  /** s.replace(old, new) for an old text that is not empty */
  function Replace(s: string, old_: string, new_: string): string
    requires old_ != ""
    decreases |s|
  {
    match Find(s, old_)
    case None => s
    case Some(i) => s[..i] + new_ + Replace(s[i + |old_|..], old_, new_)
  }

  /** s.replace(old, new, 1) */
  function ReplaceFirst(s: string, old_: string, new_: string): string {
    match Find(s, old_)
    case None => s
    case Some(i) => s[..i] + new_ + s[i + |old_|..]
  }

  /** The text ends where sep is put, and sep occurs nowhere before. */
  predicate FirstAt(before: string, sep: string) {
    Find(before + sep, sep) == Some(|before|)
  }

  predicate Lacks(s: string, sep: string) {
    Find(s, sep) == None
  }

  lemma {:induction false} FindOccurs(s: string, sep: string)
    ensures Find(s, sep).Some? ==> var i := Find(s, sep).value; s[i..i + |sep|] == sep
  {
    if !StartsWith(s, sep) && s != "" {
      FindOccurs(s[1..], sep);
    }
  }

  lemma {:induction false} ReplaceLength(s: string, old_: string, new_: string)
    requires old_ != ""
    ensures |new_| <= |old_| ==> |Replace(s, old_, new_)| <= |s|
    ensures |new_| >= |old_| ==> |Replace(s, old_, new_)| >= |s|
    decreases |s|
  {
    match Find(s, old_)
    case None =>
    case Some(i) => ReplaceLength(s[i + |old_|..], old_, new_);
  }

  lemma {:induction false} ReplaceBySame(s: string, old_: string)
    requires old_ != ""
    ensures Replace(s, old_, old_) == s
    decreases |s|
  {
    match Find(s, old_)
    case None =>
    case Some(i) =>
      var tail := s[i + |old_|..];
      FindOccurs(s, old_);
      ReplaceBySame(tail, old_);
      assert s == s[..i] + old_ + tail;
  }

  /** Replacing changes nothing exactly if there is nothing to replace, or it is replaced by itself. */
  lemma ReplaceExactly(s: string, old_: string, new_: string)
    requires old_ != ""
    ensures Replace(s, old_, new_) == s <==> Lacks(s, old_) || new_ == old_
  {
    ReplaceBySame(s, old_);
    if Replace(s, old_, new_) == s && Find(s, old_).Some? {
      var i := Find(s, old_).value;
      var tail := s[i + |old_|..];
      FindOccurs(s, old_);
      ReplaceLength(tail, old_, new_);
      assert |s| == i + |new_| + |Replace(tail, old_, new_)| && |s| == i + |old_| + |tail|;
      assert |new_| == |old_|;
      assert (s[..i] + new_ + Replace(tail, old_, new_))[i..i + |old_|] == new_;
    }
  }

  lemma {:induction false} FindIn(before: string, sep: string, after: string)
    requires FirstAt(before, sep)
    ensures Find(before + (sep + after), sep) == Some(|before|)
  {
    var s := before + (sep + after);
    if before == "" {
      assert s == sep + after;
      assert s[..|sep|] == sep;
    } else {
      assert (before + sep)[1..] == before[1..] + sep && s[1..] == before[1..] + (sep + after);
      FindIn(before[1..], sep, after);
      assert (before + sep)[..|sep|] == s[..|sep|];
    }
  }

  lemma PartitionAt(before: string, sep: string, after: string)
    requires FirstAt(before, sep)
    ensures Partition(before + (sep + after), sep) == Parts(before, true, after)
  {
    FindIn(before, sep, after);
    var s := before + (sep + after);
    assert s[..|before|] == before && s[|before| + |sep|..] == after;
  }

  lemma {:induction false} CharFirstAt(before: string, c: char)
    requires c !in before
    ensures FirstAt(before, [c])
  {
    if before == "" {
      assert before + [c] == [c];
    } else {
      CharFirstAt(before[1..], c);
      assert (before + [c])[1..] == before[1..] + [c];
      assert (before + [c])[0] == before[0];
    }
  }

  // ----- the menu ---------------------------------------------------------------------------------

  const KERNEL := "\tkernel$ /"
  const MODULE := "\tmodule$ /"
  const UNIX := "platform/i86pc/kernel/$ISADIR/unix"
  const ARCHIVE := "platform/i86pc/$ISADIR/boot_archive"
  const MEDIA := "install_media="
  const SERVICE := "install_service="

  datatype ImageInfo = ImageInfo(minMem: Option<string>, noInstallTitle: Option<string>, title: Option<string>)

  /** What is known of an image and a service, but for the values the editors change. */
  datatype Menu = Menu(svcName: string, imagePath: string, bootargs: string, info: ImageInfo, address: string)

  function MediaOf(m: Menu): string {
    ("http://" + m.address + "/") + m.imagePath
  }

  function ServiceOf(m: Menu): string {
    SERVICE + (m.svcName + ("," + ("install_svc_address=" + m.address)))
  }

  /** The parameters behind " -B ", for the entry with or without "install=true,". */
  function Params(m: Menu, install: string): string {
    m.bootargs + (install + (MEDIA + (MediaOf(m) + ("," + ServiceOf(m)))))
  }

  function KernelLine(m: Menu, install: string): string {
    KERNEL + (m.svcName + ("/" + (UNIX + (" -B" + (" " + Params(m, install))))))
  }

  function ModuleLine(m: Menu): string {
    MODULE + (m.svcName + ("/" + ARCHIVE))
  }

  function NoInstallTitle(m: Menu): string {
    "title " + if m.info.noInstallTitle.Some? then m.info.noInstallTitle.value else "Text Installer and command line"
  }

  function InstallTitle(m: Menu): string {
    "title " + (if m.info.title.Some? then m.info.title.value else "Illumos " + m.svcName) + " Automated Install"
  }

  function Preamble(m: Menu): seq<string> {
    ["default=0", "timeout=30"]
    + (if m.info.minMem.Some? then ["min_mem64=" + m.info.minMem.value, ""] else [])
    + [NoInstallTitle(m)]
  }

  /** setup_grub: the lines of menu.lst. */
  function Setup(m: Menu): seq<string> {
    Preamble(m) + [KernelLine(m, ""), ModuleLine(m), "", InstallTitle(m), KernelLine(m, "install=true,"), ModuleLine(m)]
  }

  // ----- the editors --------------------------------------------------------------------------------

  datatype Edit =
    | SvcName(newName: string, mountdir: string)
    | ImagePath(oldPath: string, newPath: string)
    | Bootargs(oldArgs: string, newArgs: string)

  function EditSvcName(line: string, newName: string, mountdir: string): string {
    var parts := Partition(line, KERNEL);
    if parts.found then
      var newline := KERNEL + (mountdir + ("/" + Partition(parts.after, "/").after));
      var services := Partition(newline, SERVICE);
      if services.found then services.before + (SERVICE + (newName + ("," + Partition(services.after, ",").after)))
      else newline
    else
      var modules := Partition(line, MODULE);
      if modules.found then MODULE + (mountdir + ("/" + Partition(modules.after, "/").after)) else line
  }

  function EditImagePath(line: string, oldPath: string, newPath: string): string {
    var parts := Partition(line, MEDIA);
    if parts.found then
      var ending := Partition(parts.after, ",");
      parts.before + (MEDIA + (ReplaceFirst(ending.before, oldPath, newPath) + ((if ending.found then "," else "") + ending.after)))
    else line
  }

  function EditBootargs(line: string, oldArgs: string, newArgs: string): string {
    var parts := Partition(line, " -B");
    if parts.found then
      var ending := LStrip(parts.after);
      var new_ := LStrip(RStrip(newArgs));
      parts.before + (" -B" + (" " + if oldArgs != "" && !Lacks(ending, oldArgs) then Replace(ending, oldArgs, new_) else new_ + ending))
    else line
  }

  function EditLine(line: string, edit: Edit): string {
    match edit
    case SvcName(newName, mountdir) => EditSvcName(line, newName, mountdir)
    case ImagePath(oldPath, newPath) => EditImagePath(line, oldPath, newPath)
    case Bootargs(oldArgs, newArgs) => EditBootargs(line, oldArgs, newArgs)
  }

  function EditLines(lines: seq<string>, edit: Edit): (r: seq<string>)
    ensures |r| == |lines| && forall i | 0 <= i < |lines| :: r[i] == EditLine(lines[i], edit)
  {
    seq(|lines|, i requires 0 <= i < |lines| => EditLine(lines[i], edit))
  }

  /** The loop that update_svcname, update_imagepath and update_bootargs share. */
  method Rewrite(lines: seq<string>, edit: Edit) returns (r: seq<string>)
    ensures r == EditLines(lines, edit)
  {
    r := [];
    for i := 0 to |lines|
      invariant |r| == i && forall k | 0 <= k < i :: r[k] == EditLine(lines[k], edit)
    {
      r := r + [EditLine(lines[i], edit)];
    }
  }

  // ----- where the separators can be -----------------------------------------------------------------

  lemma PrefixChars(s: string, sep: string)
    ensures StartsWith(s, sep) ==> |sep| <= |s| && forall i | 0 <= i < |sep| :: s[i] == sep[i]
  {
    if StartsWith(s, sep) {
      forall i | 0 <= i < |sep|
        ensures s[i] == sep[i]
      {
        assert s[..|sep|][i] == s[i];
      }
    }
  }

  lemma {:induction false} LacksByChar(s: string, sep: string, c: char)
    requires c in sep && c !in s
    ensures Lacks(s, sep)
  {
    PrefixChars(s, sep);
    if s != "" {
      LacksByChar(s[1..], sep, c);
    }
  }

  /** The first character of sep stands at the start of s only, and sep does not. */
  lemma LacksByFirst(s: string, sep: string)
    requires s != "" && sep != "" && sep[0] !in s[1..] && !StartsWith(s, sep)
    ensures Lacks(s, sep)
  {
    LacksByChar(s[1..], sep, sep[0]);
  }

  predicate NoBlankDash(s: string) {
    forall i | 0 <= i < |s| - 1 :: s[i] == ' ' ==> s[i + 1] != '-'
  }

  lemma {:induction false} LacksBlankDash(s: string)
    requires NoBlankDash(s)
    ensures Lacks(s, " -B")
  {
    PrefixChars(s, " -B");
    assert " -B"[0] == ' ' && " -B"[1] == '-';
    if s != "" {
      LacksBlankDash(s[1..]);
    }
  }

  lemma {:induction false} FirstBlankDash(before: string)
    requires NoBlankDash(before) && (before == "" || before[|before| - 1] != ' ')
    ensures FirstAt(before, " -B")
  {
    if before == "" {
      assert before + " -B" == " -B";
    } else {
      FirstBlankDash(before[1..]);
      var s := before + " -B";
      assert s[1..] == before[1..] + " -B";
      assert s[0] == before[0] && (|before| > 1 ==> s[1] == before[1]);
      PrefixChars(s, " -B");
      assert " -B"[0] == ' ' && " -B"[1] == '-';
    }
  }

  // ----- the conditions of the laws ------------------------------------------------------------------

  /** A line that no editor touches. */
  predicate Untouched(line: string) {
    Lacks(line, KERNEL) && Lacks(line, MODULE) && Lacks(line, MEDIA) && Lacks(line, " -B")
  }

  /** A service name: no separator of the menu lines. */
  predicate NameText(s: string) {
    '/' !in s && ',' !in s && '=' !in s && ' ' !in s && '\t' !in s
  }

  /** The titles and the memory limit of the image hold none of the texts the editors look for. */
  predicate PlainTitles(m: Menu) {
    && Untouched(NoInstallTitle(m)) && Untouched(InstallTitle(m))
    && (m.info.minMem.Some? ==> Untouched("min_mem64=" + m.info.minMem.value))
  }

  /** What stands before the image path. */
  function MediaHead(m: Menu, install: string): string {
    KERNEL + (m.svcName + ("/" + (UNIX + (" -B" + (" " + (m.bootargs + install))))))
  }

  /** What stands before the service name. */
  function ServiceHead(m: Menu, install: string): string {
    MediaHead(m, install) + (MEDIA + (MediaOf(m) + ","))
  }

  /** The parameters that follow are not named before. */
  predicate NamedOnce(m: Menu, install: string) {
    FirstAt(MediaHead(m, install), MEDIA) && FirstAt(ServiceHead(m, install), SERVICE)
  }

  predicate GoodMenu(m: Menu) {
    NameText(m.svcName) && ',' !in MediaOf(m) && NamedOnce(m, "") && NamedOnce(m, "install=true,") && PlainTitles(m)
  }

  lemma FixedLine(line: string)
    requires '\t' !in line && '_' !in line && '-' !in line
    ensures Untouched(line)
  {
    assert KERNEL[0] == '\t' && MODULE[0] == '\t' && MEDIA[7] == '_' && " -B"[1] == '-';
    LacksByChar(line, KERNEL, '\t');
    LacksByChar(line, MODULE, '\t');
    LacksByChar(line, MEDIA, '_');
    LacksByChar(line, " -B", '-');
  }

  // ----- one line ----------------------------------------------------------------------------------------

  lemma UntouchedStays(line: string, edit: Edit)
    requires Untouched(line)
    ensures EditLine(line, edit) == line
  {}

  lemma HeadAppend(m: Menu, install: string, rest: string)
    ensures KERNEL + (m.svcName + ("/" + (UNIX + (" -B" + (" " + (m.bootargs + (install + rest))))))) == MediaHead(m, install) + rest
  {
    AppendAssociates(m.bootargs, install, rest);
    var t0 := m.bootargs + install;
    AppendAssociates(" ", t0, rest);
    var t1 := " " + t0;
    AppendAssociates(" -B", t1, rest);
    var t2 := " -B" + t1;
    AppendAssociates(UNIX, t2, rest);
    var t3 := UNIX + t2;
    AppendAssociates("/", t3, rest);
    var t4 := "/" + t3;
    AppendAssociates(m.svcName, t4, rest);
    AppendAssociates(KERNEL, m.svcName + t4, rest);
  }

  /** The kernel line cut before the image path. */
  lemma KernelAtMedia(m: Menu, install: string)
    ensures KernelLine(m, install) == MediaHead(m, install) + (MEDIA + (MediaOf(m) + ("," + ServiceOf(m))))
  {
    HeadAppend(m, install, MEDIA + (MediaOf(m) + ("," + ServiceOf(m))));
  }

  /** A kernel line with any text from the service on. */
  lemma KernelAtService(m: Menu, install: string, service: string)
    ensures KERNEL + (m.svcName + ("/" + (UNIX + (" -B" + (" " + (m.bootargs + (install + (MEDIA + (MediaOf(m) + ("," + service))))))))))
            == ServiceHead(m, install) + service
  {
    HeadAppend(m, install, MEDIA + (MediaOf(m) + ("," + service)));
    AppendAssociates(MediaOf(m), ",", service);
    var t0 := MediaOf(m) + ",";
    AppendAssociates(MEDIA, t0, service);
    AppendAssociates(MediaHead(m, install), MEDIA + t0, service);
  }

  lemma SvcNameKernel(m: Menu, install: string, newName: string)
    requires NameText(m.svcName) && FirstAt(ServiceHead(m.(svcName := newName), install), SERVICE)
    ensures EditSvcName(KernelLine(m, install), newName, newName) == KernelLine(m.(svcName := newName), install)
  {
    var m' := m.(svcName := newName);
    var tail := UNIX + (" -B" + (" " + Params(m, install)));
    assert "" + (KERNEL + (m.svcName + ("/" + tail))) == KernelLine(m, install);
    assert "" + KERNEL == KERNEL;
    PartitionAt("", KERNEL, m.svcName + ("/" + tail));
    CharFirstAt(m.svcName, '/');
    PartitionAt(m.svcName, "/", tail);
    KernelAtService(m', install, ServiceOf(m));
    var behind := "install_svc_address=" + m.address;
    PartitionAt(ServiceHead(m', install), SERVICE, m.svcName + ("," + behind));
    CharFirstAt(m.svcName, ',');
    PartitionAt(m.svcName, ",", behind);
    KernelAtService(m', install, ServiceOf(m'));
  }

  lemma ModuleIsNoKernel(m: Menu)
    requires NameText(m.svcName)
    ensures Lacks(ModuleLine(m), KERNEL)
  {
    var line := ModuleLine(m);
    assert line[0] == '\t' && line[1] == 'm' && KERNEL[0] == '\t' && KERNEL[1] == 'k';
    assert '\t' !in ARCHIVE && '\t' !in MODULE[1..] && line[1..] == MODULE[1..] + (m.svcName + ("/" + ARCHIVE));
    PrefixChars(line, KERNEL);
    LacksByFirst(line, KERNEL);
  }

  lemma SvcNameModule(m: Menu, newName: string)
    requires NameText(m.svcName)
    ensures EditSvcName(ModuleLine(m), newName, newName) == ModuleLine(m.(svcName := newName))
  {
    var line := ModuleLine(m);
    ModuleIsNoKernel(m);
    assert "" + line == line && "" + MODULE == MODULE;
    PartitionAt("", MODULE, m.svcName + ("/" + ARCHIVE));
    CharFirstAt(m.svcName, '/');
    PartitionAt(m.svcName, "/", ARCHIVE);
  }

  lemma ImagePathKernel(m: Menu, install: string, newPath: string)
    requires FirstAt(MediaHead(m, install), MEDIA) && ',' !in MediaOf(m) && FirstAt("http://" + m.address + "/", m.imagePath)
    ensures EditImagePath(KernelLine(m, install), m.imagePath, newPath) == KernelLine(m.(imagePath := newPath), install)
  {
    var m' := m.(imagePath := newPath);
    var prefix := "http://" + m.address + "/";
    KernelAtMedia(m, install);
    PartitionAt(MediaHead(m, install), MEDIA, MediaOf(m) + ("," + ServiceOf(m)));
    CharFirstAt(MediaOf(m), ',');
    PartitionAt(MediaOf(m), ",", ServiceOf(m));
    assert m.imagePath + "" == m.imagePath;
    PartitionAt(prefix, m.imagePath, "");
    assert prefix + newPath + "" == MediaOf(m');
    KernelAtMedia(m', install);
  }

  lemma OneBlank(m: Menu, head: string, tail: string)
    requires NameText(m.svcName) && ' ' !in tail && head != "" && head[|head| - 1] == '/' && NoBlankDash(head)
    ensures NoBlankDash(head + (m.svcName + ("/" + tail)))
  {}

  lemma ModuleHasNoParameters(m: Menu)
    requires NameText(m.svcName)
    ensures Lacks(ModuleLine(m), MEDIA) && Lacks(ModuleLine(m), " -B")
  {
    var line := ModuleLine(m);
    assert '=' !in MODULE && '=' !in ARCHIVE;
    assert '=' in MEDIA by { assert MEDIA[|MEDIA| - 1] == '='; }
    LacksByChar(line, MEDIA, '=');
    OneBlank(m, MODULE, ARCHIVE);
    LacksBlankDash(line);
  }

  lemma ReplaceAtStart(old_: string, new_: string, rest: string)
    requires old_ != ""
    ensures !Lacks(old_ + rest, old_) && Replace(old_ + rest, old_, new_) == new_ + Replace(rest, old_, new_)
  {
    assert StartsWith(old_ + rest, old_) by { assert (old_ + rest)[..|old_|] == old_; }
    assert (old_ + rest)[|old_|..] == rest && (old_ + rest)[..0] == "";
    assert "" + new_ + Replace(rest, old_, new_) == new_ + Replace(rest, old_, new_);
  }

  lemma PrependExactly<T>(a: seq<T>, b: seq<T>, c: seq<T>)
    ensures a + b == a + c <==> b == c
  {
    if a + b == a + c {
      assert (a + b)[|a|..] == b && (a + c)[|a|..] == c;
    }
  }

  /** The parameters behind the boot arguments. */
  function OwnParams(m: Menu, install: string): string {
    install + (MEDIA + (MediaOf(m) + ("," + ServiceOf(m))))
  }

  /** The boot arguments do not recur behind themselves. */
  predicate OwnBootargs(m: Menu, install: string) {
    m.bootargs == "" || Lacks(OwnParams(m, install), m.bootargs)
  }

  function BootHead(m: Menu): string {
    KERNEL + (m.svcName + ("/" + UNIX))
  }

  lemma KernelAtBootargs(m: Menu, install: string)
    ensures KernelLine(m, install) == BootHead(m) + (" -B" + (" " + Params(m, install)))
  {
    var rest := " -B" + (" " + Params(m, install));
    AppendAssociates("/", UNIX, rest);
    AppendAssociates(m.svcName, "/" + UNIX, rest);
    AppendAssociates(KERNEL, m.svcName + ("/" + UNIX), rest);
  }

  lemma BootHeadHasNoFlag(m: Menu)
    requires NameText(m.svcName)
    ensures FirstAt(BootHead(m), " -B")
  {
    assert ' ' !in UNIX && UNIX[|UNIX| - 1] == 'x';
    OneBlank(m, KERNEL, UNIX);
    assert BootHead(m)[|BootHead(m)| - 1] == UNIX[|UNIX| - 1];
    FirstBlankDash(BootHead(m));
  }

  lemma OwnParamsStart(m: Menu, install: string)
    requires install == "" || install == "install=true,"
    ensures OwnParams(m, install) != "" && !IsSpace(OwnParams(m, install)[0])
  {
    var rest := MEDIA + (MediaOf(m) + ("," + ServiceOf(m)));
    assert rest[0] == MEDIA[0] == 'i';
    assert install != "" ==> install[0] == 'i';
    assert (install + rest)[0] == 'i';
  }

  lemma {:induction false} LStripConcat(a: string, b: string)
    requires b != "" && !IsSpace(b[0])
    ensures LStrip(a + b) == LStrip(a) + b
  {
    if a == "" {
      assert a + b == b;
    } else if IsSpace(a[0]) {
      LStripConcat(a[1..], b);
      assert (a + b)[1..] == a[1..] + b;
    }
  }

  /** What update_bootargs looks for the old arguments in: their own leading blanks are gone. */
  function Ending(m: Menu, install: string): string {
    LStrip(m.bootargs) + OwnParams(m, install)
  }

  /** The parameters after the edit. */
  function NewEnding(ending: string, oldArgs: string, new_: string): string {
    if oldArgs != "" && !Lacks(ending, oldArgs) then Replace(ending, oldArgs, new_) else new_ + ending
  }

  lemma EditAtFlag(head: string, params: string, oldArgs: string, newArgs: string)
    requires FirstAt(head, " -B")
    ensures EditBootargs(head + (" -B" + params), oldArgs, newArgs) ==
            head + (" -B" + (" " + NewEnding(LStrip(params), oldArgs, LStrip(RStrip(newArgs)))))
  {
    PartitionAt(head, " -B", params);
  }

  lemma StrippedParams(m: Menu, install: string)
    requires install == "" || install == "install=true,"
    ensures LStrip(" " + Params(m, install)) == Ending(m, install)
  {
    OwnParamsStart(m, install);
    assert " " + Params(m, install) == (" " + m.bootargs) + OwnParams(m, install);
    LStripConcat(" " + m.bootargs, OwnParams(m, install));
    assert (" " + m.bootargs)[1..] == m.bootargs;
  }

  lemma EditedKernel(m: Menu, install: string, newArgs: string)
    requires (install == "" || install == "install=true,") && NameText(m.svcName)
    ensures EditBootargs(KernelLine(m, install), m.bootargs, newArgs) ==
            BootHead(m) + (" -B" + (" " + NewEnding(Ending(m, install), m.bootargs, LStrip(RStrip(newArgs)))))
  {
    KernelAtBootargs(m, install);
    BootHeadHasNoFlag(m);
    EditAtFlag(BootHead(m), " " + Params(m, install), m.bootargs, newArgs);
    StrippedParams(m, install);
  }

  lemma SameKernel(m: Menu, m': Menu, install: string, params: string)
    requires m' == m.(bootargs := m'.bootargs)
    ensures BootHead(m) + (" -B" + (" " + params)) == KernelLine(m', install) <==> params == Params(m', install)
  {
    KernelAtBootargs(m', install);
    assert BootHead(m') == BootHead(m);
    PrependExactly(BootHead(m), " -B" + (" " + params), " -B" + (" " + Params(m', install)));
    PrependExactly(" -B", " " + params, " " + Params(m', install));
    PrependExactly(" ", params, Params(m', install));
  }

  lemma OwnParamsStay(m: Menu, install: string, new_: string)
    ensures Params(m.(bootargs := new_), install) == new_ + OwnParams(m, install)
  {}

  /** For arguments that start with no blank: a kernel line is edited into the one for the new arguments
      exactly if the old ones do not recur, or are the new ones. */
  lemma BootargsKernel(m: Menu, install: string, newArgs: string)
    requires (install == "" || install == "install=true,") && NameText(m.svcName)
    requires m.bootargs == "" || !IsSpace(m.bootargs[0])
    ensures var new_ := LStrip(RStrip(newArgs));
            EditBootargs(KernelLine(m, install), m.bootargs, newArgs) == KernelLine(m.(bootargs := new_), install) <==>
            OwnBootargs(m, install) || new_ == m.bootargs
  {
    var new_, rest := LStrip(RStrip(newArgs)), OwnParams(m, install);
    EditedKernel(m, install, newArgs);
    OwnParamsStay(m, install, new_);
    assert LStrip(m.bootargs) == m.bootargs;
    if m.bootargs == "" {
      assert Ending(m, install) == rest;
      SameKernel(m, m.(bootargs := new_), install, new_ + rest);
    } else {
      ReplaceAtStart(m.bootargs, new_, rest);
      SameKernel(m, m.(bootargs := new_), install, new_ + Replace(rest, m.bootargs, new_));
      PrependExactly(new_, Replace(rest, m.bootargs, new_), rest);
      ReplaceExactly(rest, m.bootargs, new_);
    }
  }

  /** Arguments that start with a blank are not found again, because it is stripped from the line: the
      new ones come in front of them, which is right exactly if they are nothing but blanks. */
  lemma BlankBootargsStay(m: Menu, install: string, newArgs: string)
    requires (install == "" || install == "install=true,") && NameText(m.svcName)
    requires m.bootargs != "" && IsSpace(m.bootargs[0]) && Lacks(Ending(m, install), m.bootargs)
    ensures var new_ := LStrip(RStrip(newArgs));
            EditBootargs(KernelLine(m, install), m.bootargs, newArgs) == KernelLine(m.(bootargs := new_), install) <==>
            LStrip(m.bootargs) == ""
  {
    var new_ := LStrip(RStrip(newArgs));
    EditedKernel(m, install, newArgs);
    OwnParamsStay(m, install, new_);
    SameKernel(m, m.(bootargs := new_), install, new_ + Ending(m, install));
    PrependExactly(new_, Ending(m, install), OwnParams(m, install));
    assert |Ending(m, install)| == |LStrip(m.bootargs)| + |OwnParams(m, install)|;
  }

  // ----- the laws ------------------------------------------------------------------------------------------

  lemma EditConcat(a: seq<string>, b: seq<string>, edit: Edit)
    ensures EditLines(a + b, edit) == EditLines(a, edit) + EditLines(b, edit)
  {}

  predicate AllUntouched(lines: seq<string>) {
    forall line | line in lines :: Untouched(line)
  }

  lemma UntouchedLinesStay(lines: seq<string>, edit: Edit)
    requires AllUntouched(lines)
    ensures EditLines(lines, edit) == lines
  {
    forall i | 0 <= i < |lines|
      ensures EditLines(lines, edit)[i] == lines[i]
    {
      assert lines[i] in lines;
      UntouchedStays(lines[i], edit);
    }
  }

  lemma TwoUntouched(a: string, b: string)
    requires Untouched(a) && Untouched(b)
    ensures AllUntouched([a, b])
  {}

  lemma UntouchedTogether(a: seq<string>, b: seq<string>, c: seq<string>)
    requires AllUntouched(a) && AllUntouched(b) && AllUntouched(c)
    ensures AllUntouched(a + b + c)
  {}

  lemma OneUntouched(line: string)
    requires Untouched(line)
    ensures AllUntouched([line])
  {}

  lemma DefaultLine()
    ensures Untouched("default=0")
  {
    FixedLine("default=0");
  }

  lemma TimeoutLine()
    ensures Untouched("timeout=30")
  {
    FixedLine("timeout=30");
  }

  lemma PreambleIsUntouched(m: Menu)
    requires PlainTitles(m)
    ensures AllUntouched(Preamble(m))
  {
    DefaultLine();
    TimeoutLine();
    TwoUntouched("default=0", "timeout=30");
    if m.info.minMem.Some? {
      FixedLine("");
      TwoUntouched("min_mem64=" + m.info.minMem.value, "");
    }
    OneUntouched(NoInstallTitle(m));
    UntouchedTogether(["default=0", "timeout=30"],
                      if m.info.minMem.Some? then ["min_mem64=" + m.info.minMem.value, ""] else [], [NoInstallTitle(m)]);
  }

  lemma PreambleStays(m: Menu, edit: Edit)
    requires PlainTitles(m)
    ensures EditLines(Preamble(m), edit) == Preamble(m)
  {
    PreambleIsUntouched(m);
    UntouchedLinesStay(Preamble(m), edit);
  }

  /** The lines of the two entries. */
  function Entries(kernel: string, mod: string, title: string, installKernel: string): seq<string> {
    [kernel, mod, "", title, installKernel, mod]
  }

  lemma EditEntries(kernel: string, mod: string, title: string, installKernel: string, edit: Edit)
    requires Untouched(title)
    ensures EditLines(Entries(kernel, mod, title, installKernel), edit) ==
            Entries(EditLine(kernel, edit), EditLine(mod, edit), title, EditLine(installKernel, edit))
  {
    FixedLine("");
    UntouchedStays("", edit);
    UntouchedStays(title, edit);
  }

  lemma SetupIsEntries(m: Menu)
    ensures Setup(m) == Preamble(m) + Entries(KernelLine(m, ""), ModuleLine(m), InstallTitle(m), KernelLine(m, "install=true,"))
  {}

  lemma SamePreamble(m: Menu, m': Menu)
    requires m'.info == m.info
    ensures Preamble(m') == Preamble(m)
  {}

  lemma EntriesExactly(head: seq<string>, mod: string, kernel: string, title: string, installKernel: string,
                       kernel': string, title': string, installKernel': string)
    ensures head + Entries(kernel, mod, title, installKernel) == head + Entries(kernel', mod, title', installKernel') <==>
            kernel == kernel' && title == title' && installKernel == installKernel'
  {
    var a, b := Entries(kernel, mod, title, installKernel), Entries(kernel', mod, title', installKernel');
    PrependExactly(head, a, b);
    assert a[0] == kernel && b[0] == kernel' && a[3] == title && b[3] == title';
    assert a[4] == installKernel && b[4] == installKernel';
  }

  lemma EditedSetup(m: Menu, edit: Edit)
    requires PlainTitles(m)
    ensures EditLines(Setup(m), edit) ==
            Preamble(m) + Entries(EditLine(KernelLine(m, ""), edit), EditLine(ModuleLine(m), edit), InstallTitle(m),
                                  EditLine(KernelLine(m, "install=true,"), edit))
  {
    var kernel, mod, installKernel := KernelLine(m, ""), ModuleLine(m), KernelLine(m, "install=true,");
    SetupIsEntries(m);
    EditConcat(Preamble(m), Entries(kernel, mod, InstallTitle(m), installKernel), edit);
    PreambleStays(m, edit);
    EditEntries(kernel, mod, InstallTitle(m), installKernel, edit);
  }

  /** A menu is edited into another one exactly if its kernel lines are and the titles are the same. */
  lemma EditMenu(m: Menu, m': Menu, edit: Edit)
    requires PlainTitles(m) && m'.info == m.info && EditLine(ModuleLine(m), edit) == ModuleLine(m')
    ensures EditLines(Setup(m), edit) == Setup(m') <==>
            && EditLine(KernelLine(m, ""), edit) == KernelLine(m', "")
            && EditLine(KernelLine(m, "install=true,"), edit) == KernelLine(m', "install=true,")
            && InstallTitle(m) == InstallTitle(m')
  {
    EditedSetup(m, edit);
    SetupIsEntries(m');
    SamePreamble(m, m');
    EntriesExactly(Preamble(m), ModuleLine(m'),
                   EditLine(KernelLine(m, ""), edit), InstallTitle(m), EditLine(KernelLine(m, "install=true,"), edit),
                   KernelLine(m', ""), InstallTitle(m'), KernelLine(m', "install=true,"));
  }

  lemma TitlesDiffer(a: string, b: string)
    ensures "title " + ("Illumos " + a) + " Automated Install" == "title " + ("Illumos " + b) + " Automated Install" <==> a == b
  {
    var n, k := |"title " + "Illumos "|, |" Automated Install"|;
    var s, t := "title " + ("Illumos " + a) + " Automated Install", "title " + ("Illumos " + b) + " Automated Install";
    assert s[n..|s| - k] == a && t[n..|t| - k] == b;
  }

  /** update_svcname gives the menu of the new name exactly when the image names its own title;
      otherwise the title keeps the old service name. */
  lemma RenamedMenu(m: Menu, newName: string)
    requires GoodMenu(m) && NamedOnce(m.(svcName := newName), "") && NamedOnce(m.(svcName := newName), "install=true,")
    ensures EditLines(Setup(m), SvcName(newName, newName)) == Setup(m.(svcName := newName)) <==>
            m.info.title.Some? || newName == m.svcName
  {
    var m' := m.(svcName := newName);
    SvcNameKernel(m, "", newName);
    SvcNameKernel(m, "install=true,", newName);
    SvcNameModule(m, newName);
    EditMenu(m, m', SvcName(newName, newName));
    if m.info.title.None? {
      TitlesDiffer(m.svcName, newName);
    }
  }

  lemma ModuleStays(m: Menu, edit: Edit)
    requires NameText(m.svcName) && !edit.SvcName?
    ensures EditLine(ModuleLine(m), edit) == ModuleLine(m)
  {
    ModuleHasNoParameters(m);
  }

  /** update_imagepath gives the menu of the new path. */
  lemma RelocatedMenu(m: Menu, newPath: string)
    requires GoodMenu(m) && FirstAt("http://" + m.address + "/", m.imagePath)
    ensures EditLines(Setup(m), ImagePath(m.imagePath, newPath)) == Setup(m.(imagePath := newPath))
  {
    ImagePathKernel(m, "", newPath);
    ImagePathKernel(m, "install=true,", newPath);
    ModuleStays(m, ImagePath(m.imagePath, newPath));
    EditMenu(m, m.(imagePath := newPath), ImagePath(m.imagePath, newPath));
  }

  /** update_bootargs gives the menu of the new boot arguments, their outer blanks stripped, exactly if
      the old ones recur in no kernel line, or are the new ones. */
  lemma RebootedMenu(m: Menu, newArgs: string)
    requires NameText(m.svcName) && PlainTitles(m)
    requires m.bootargs == "" || !IsSpace(m.bootargs[0])
    ensures EditLines(Setup(m), Bootargs(m.bootargs, newArgs)) == Setup(m.(bootargs := LStrip(RStrip(newArgs)))) <==>
            (OwnBootargs(m, "") && OwnBootargs(m, "install=true,")) || LStrip(RStrip(newArgs)) == m.bootargs
  {
    BootargsKernel(m, "", newArgs);
    BootargsKernel(m, "install=true,", newArgs);
    var m' := m.(bootargs := LStrip(RStrip(newArgs)));
    ModuleStays(m, Bootargs(m.bootargs, newArgs));
    assert ModuleLine(m') == ModuleLine(m) && InstallTitle(m') == InstallTitle(m);
    EditMenu(m, m', Bootargs(m.bootargs, newArgs));
  }

  /** The arguments install=true, recur in the entry that installs, so updating them edits that, too. */
  lemma InstallArgumentRecurs(m: Menu, newArgs: string)
    requires NameText(m.svcName) && PlainTitles(m) && m.bootargs == "install=true,"
    ensures EditLines(Setup(m), Bootargs(m.bootargs, newArgs)) == Setup(m.(bootargs := LStrip(RStrip(newArgs)))) <==>
            LStrip(RStrip(newArgs)) == m.bootargs
  {
    assert m.bootargs[0] == 'i';
    RebootedMenu(m, newArgs);
    ReplaceAtStart(m.bootargs, "", MEDIA + (MediaOf(m) + ("," + ServiceOf(m))));
  }

  // ----- what a kernel line says ----------------------------------------------------------------------------

  /** Boot arguments as create-service joins them, with a comma behind each. */
  function ArgText(args: seq<string>): string {
    if args == [] then "" else args[0] + ("," + ArgText(args[1..]))
  }

  predicate NoCommas(words: seq<string>) {
    forall w | w in words :: ',' !in w
  }

  lemma CutAtComma(word: string, rest: string)
    requires ',' !in word
    ensures SplitOn(word + ("," + rest), ',') == [word] + SplitOn(rest, ',')
  {
    assert word + ("," + rest) == word + [','] + rest;
    SplitOnStep(word, rest, ',');
  }

  lemma NoCut(word: string)
    requires ',' !in word
    ensures SplitOn(word, ',') == [word]
  {
    assert word + "" == word;
    IndexOfAfter(word, "", ',');
  }

  lemma {:induction false} ArgsAreCut(args: seq<string>, rest: string)
    requires NoCommas(args)
    ensures SplitOn(ArgText(args) + rest, ',') == args + SplitOn(rest, ',')
  {
    if args == [] {
      assert "" + rest == rest && [] + SplitOn(rest, ',') == SplitOn(rest, ',');
    } else {
      var tail := ArgText(args[1..]);
      ArgsAreCut(args[1..], rest);
      AppendAssociates(",", tail, rest);
      AppendAssociates(args[0], "," + tail, rest);
      CutAtComma(args[0], tail + rest);
      assert args == [args[0]] + args[1..];
      AppendAssociates([args[0]], args[1..], SplitOn(rest, ','));
    }
  }

  /** The parameters of the image and the service. */
  lemma OwnParamsAreCut(m: Menu)
    requires ',' !in m.svcName && ',' !in m.address && ',' !in m.imagePath
    ensures SplitOn(MEDIA + (MediaOf(m) + ("," + ServiceOf(m))), ',') ==
            ["install_media=" + ("http://" + m.address + "/" + m.imagePath), "install_service=" + m.svcName,
             "install_svc_address=" + m.address]
  {
    var behind := "install_svc_address=" + m.address;
    AppendAssociates(SERVICE, m.svcName, "," + behind);
    AppendAssociates(MEDIA, MediaOf(m), "," + ServiceOf(m));
    assert ',' !in MEDIA && ',' !in SERVICE && ',' !in "install_svc_address=" && ',' !in "http://";
    CutAtComma(MEDIA + MediaOf(m), ServiceOf(m));
    CutAtComma(SERVICE + m.svcName, behind);
    NoCut(behind);
  }

  lemma InstallIsCut(own: string)
    ensures SplitOn("install=true," + own, ',') == ["install=true"] + SplitOn(own, ',')
  {
    assert "install=true," + own == "install=true" + ("," + own);
    assert ',' !in "install=true";
    CutAtComma("install=true", own);
  }

  /** Behind -B stand, with commas between: the boot arguments, install=true in the entry that installs,
      and where the image and the service are. */
  lemma ParametersRead(m: Menu, args: seq<string>)
    requires m.bootargs == ArgText(args) && NoCommas(args)
    requires ',' !in m.svcName && ',' !in m.address && ',' !in m.imagePath
    ensures var own := ["install_media=" + ("http://" + m.address + "/" + m.imagePath), "install_service=" + m.svcName,
                        "install_svc_address=" + m.address];
            && SplitOn(Params(m, ""), ',') == args + own
            && SplitOn(Params(m, "install=true,"), ',') == args + (["install=true"] + own)
  {
    var own := MEDIA + (MediaOf(m) + ("," + ServiceOf(m)));
    OwnParamsAreCut(m);
    assert "" + own == own;
    ArgsAreCut(args, own);
    InstallIsCut(own);
    ArgsAreCut(args, "install=true," + own);
  }
}
