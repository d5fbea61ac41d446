/** Lines of the ISC DHCP configuration file, without their newlines, as the editors of dhcp.py
    copy them and as _current_config yields them to the readers. */
module ConfigLines {
  import opened Text

  type Lines = seq<string>

  predicate EndsOpenly(s: string) {
    s == "" || s[|s| - 1] != '}'
  }

  /** line.strip().endswith("}") */
  predicate Closes(line: string) {
    !EndsOpenly(RStrip(line))
  }

  function BeforeComment(line: string): string {
    line[..IndexOf(line, '#')]
  }

  /** The line as _current_config yields it; None when it is skipped. */
  function ConfigLine(line: string): Option<string> {
    var text := RStrip(LStrip(BeforeComment(line)));
    if text == "" || StartsWith(text, "log") then None else Some(text)
  }

  function LastIndexOf(s: string, c: char): (n: int)
    ensures -1 <= n < |s|
    ensures n >= 0 ==> s[n] == c
    ensures forall i | n < i < |s| :: s[i] != c
  {
    if s == "" then -1 else if s[|s| - 1] == c then |s| - 1 else LastIndexOf(s[..|s| - 1], c)
  }

  predicate AllSpace(s: string) {
    forall i | 0 <= i < |s| :: IsSpace(s[i])
  }

  lemma {:induction false} LStripBlanks(blanks: string, rest: string)
    requires AllSpace(blanks) && (rest == "" || !IsSpace(rest[0]))
    ensures LStrip(blanks + rest) == rest
  {
    if blanks == "" {
      assert blanks + rest == rest;
    } else {
      LStripBlanks(blanks[1..], rest);
      assert (blanks + rest)[1..] == blanks[1..] + rest;
    }
  }

  lemma {:induction false} LStripSplits(s: string) returns (blanks: string)
    ensures AllSpace(blanks) && s == blanks + LStrip(s) && (LStrip(s) == "" || !IsSpace(LStrip(s)[0]))
  {
    if s == "" || !IsSpace(s[0]) {
      blanks := "";
    } else {
      var rest := LStripSplits(s[1..]);
      blanks := [s[0]] + rest;
      assert s == [s[0]] + s[1..];
    }
  }

  lemma TextSplits(text: string, key: string)
    requires StartsWith(text, key)
    ensures text == key + text[|key|..]
  {}

  lemma CutAt(found: string, k: nat)
    requires k < |found| && found[k] == ';'
    ensures found == found[..k] + (";" + found[k + 1..])
  {}

  /** n is the length of the first word. */
  lemma CutAtSemicolon(found: string, n: nat, k: nat)
    requires 0 < k < n <= |found| && found[k] == ';'
    requires forall i | 0 <= i < n :: !IsSpace(found[i]) && (k < i ==> found[i] != ';')
    ensures found == found[..k] + (";" + found[k + 1..]) && IsWord(found[..k]) && ';' !in found[k + 1..][..n - k - 1]
  {
    CutAt(found, k);
  }

  lemma WordReaches(s: string, k: nat)
    requires k <= |s| && forall i | 0 <= i < k :: !IsSpace(s[i])
    ensures k <= WordLength(s)
  {}

  lemma WordLengthFrom(s: string, k: nat)
    requires k <= WordLength(s)
    ensures WordLength(s[k..]) == WordLength(s) - k
  {
    var n, m := WordLength(s), WordLength(s[k..]);
    assert forall i | 0 <= i < |s| - k :: s[k..][i] == s[k + i];
    assert m >= n - k && m <= n - k;
  }

  lemma {:induction false} RStripKeeps(front: string, rest: string)
    requires front != "" && !IsSpace(front[|front| - 1])
    ensures StartsWith(RStrip(front + rest), front)
  {
    var s := front + rest;
    if rest != "" && IsSpace(s[|s| - 1]) {
      RStripKeeps(front, rest[..|rest| - 1]);
      assert s[..|s| - 1] == front + rest[..|rest| - 1];
    } else {
      assert rest == "" ==> s == front;
      assert s[..|front|] == front;
    }
  }

  /** Blanks around a line make no difference, and comments and logging statements are not read. */
  lemma ReadsAsConfig(line: string, c: char, rest: string)
    requires IsSpace(c)
    ensures Closes(line + [c]) == Closes(line) && ConfigLine([c] + line) == ConfigLine(line)
    ensures ConfigLine("#" + rest) == None && ConfigLine("log" + rest) == None
  {
    assert (line + [c])[..|line|] == line;
    assert ([c] + line)[1..] == line;
    assert BeforeComment([c] + line) == [c] + BeforeComment(line);
    assert ([c] + BeforeComment(line))[1..] == BeforeComment(line);
    assert BeforeComment("#" + rest) == "";
    var text := "log" + rest;
    var n := IndexOf(text, '#');
    assert text[0] == 'l' && text[1] == 'o' && text[2] == 'g';
    assert n >= 3;
    assert text[..n] == "log" + text[3..n];
    RStripKeeps("log", text[3..n]);
  }

  lemma TwoSpaces(text: string)
    requires text != "" && !IsSpace(text[0])
    ensures LStrip("  " + text) == text
  {
    assert ("  " + text)[1..] == " " + text;
    assert (" " + text)[1..] == text;
    assert LStrip(" " + text) == LStrip(text);
  }
}
