/** String operations of the Python runtime that the modelled code leans on:
    lower, split, join, find and long(text, base). */
module Text {
  datatype Option<+T> = None | Some(value: T)

  // ----- sequences ----------------------------------------------------------

  lemma AppendAssociates<T>(a: seq<T>, b: seq<T>, c: seq<T>)
    ensures a + (b + c) == (a + b) + c
  {}

  // ----- letters ------------------------------------------------------------

  function LowerChar(c: char): char {
    if 'A' <= c <= 'Z' then (c as int + 32) as char else c
  }

  function UpperChar(c: char): char {
    if 'a' <= c <= 'z' then (c as int - 32) as char else c
  }

  function Lower(s: string): (r: string)
    ensures |r| == |s|
  {
    seq(|s|, i requires 0 <= i < |s| => LowerChar(s[i]))
  }

  function Upper(s: string): (r: string)
    ensures |r| == |s|
  {
    seq(|s|, i requires 0 <= i < |s| => UpperChar(s[i]))
  }

  lemma LowerConcat(a: string, b: string)
    ensures Lower(a + b) == Lower(a) + Lower(b)
  {}

  // ----- substring search ---------------------------------------------------

  predicate StartsWith(s: string, prefix: string) {
    |prefix| <= |s| && s[..|prefix|] == prefix
  }

  predicate OccursAt(s: string, sub: string, i: nat) {
    i + |sub| <= |s| && s[i..i + |sub|] == sub
  }

  /** s.find(sub) != -1 */
  predicate Contains(s: string, sub: string) {
    exists i :: 0 <= i <= |s| && OccursAt(s, sub, i)
  }

  lemma ContainsPrefix(a: string, b: string, sub: string)
    requires Contains(a, sub)
    ensures Contains(a + b, sub)
  {
    var i :| 0 <= i <= |a| && OccursAt(a, sub, i);
    assert (a + b)[i..i + |sub|] == a[i..i + |sub|];
    assert OccursAt(a + b, sub, i);
  }

  lemma ContainsSuffix(a: string, b: string, sub: string)
    requires Contains(b, sub)
    ensures Contains(a + b, sub)
  {
    var i :| 0 <= i <= |b| && OccursAt(b, sub, i);
    assert (a + b)[|a| + i..|a| + i + |sub|] == b[i..i + |sub|];
    assert OccursAt(a + b, sub, |a| + i);
  }

  lemma OccursChar(s: string, sub: string, i: nat, k: nat)
    requires k < |sub|
    ensures OccursAt(s, sub, i) ==> i + k < |s| && s[i + k] == sub[k]
  {
    assert OccursAt(s, sub, i) ==> s[i..i + |sub|][k] == s[i + k];
  }

  // ----- whitespace-separated lists -----------------------------------------

  predicate IsSpace(c: char) {
    c == ' ' || c == '\t' || c == '\n' || c == '\r'
  }

  function RStrip(s: string): string {
    if s == "" || !IsSpace(s[|s| - 1]) then s else RStrip(s[..|s| - 1])
  }

  function LStrip(s: string): string {
    if s == "" || !IsSpace(s[0]) then s else LStrip(s[1..])
  }

  predicate IsWord(s: string) {
    s != "" && forall i | 0 <= i < |s| :: !IsSpace(s[i])
  }

  function WordLength(s: string): (n: nat)
    ensures n <= |s|
    ensures forall i | 0 <= i < n :: !IsSpace(s[i])
    ensures n < |s| ==> IsSpace(s[n])
  {
    if s == "" || IsSpace(s[0]) then 0 else 1 + WordLength(s[1..])
  }

  /** s.split(None) */
  function Split(s: string): seq<string>
    decreases |s|
  {
    if s == "" then []
    else if IsSpace(s[0]) then Split(s[1..])
    else [s[..WordLength(s)]] + Split(s[WordLength(s)..])
  }

  /** " ".join(words) */
  function Join(words: seq<string>): string {
    if |words| == 0 then ""
    else if |words| == 1 then words[0]
    else words[0] + " " + Join(words[1..])
  }

  lemma WordLengthOfWord(w: string, rest: string)
    requires IsWord(w)
    requires rest == "" || IsSpace(rest[0])
    ensures WordLength(w + rest) == |w|
  {
    assert forall i | 0 <= i < |w| :: (w + rest)[i] == w[i];
    assert rest != "" ==> (w + rest)[|w|] == rest[0];
  }

  lemma {:induction false} SplitJoin(words: seq<string>)
    requires forall w | w in words :: IsWord(w)
    ensures Split(Join(words)) == words
  {
    if |words| != 0 {
      var w := words[0];
      assert IsWord(w);
      var rest := if |words| == 1 then "" else " " + Join(words[1..]);
      assert Join(words) == w + rest;
      WordLengthOfWord(w, rest);
      assert (w + rest)[0] == w[0];
      assert (w + rest)[..|w|] == w && (w + rest)[|w|..] == rest;
      if |words| > 1 {
        SplitJoin(words[1..]);
        assert rest[1..] == Join(words[1..]);
        assert Split(rest) == words[1..];
      }
    }
  }

  // ----- separated lists ------------------------------------------------------

  function IndexOf(s: string, sep: char): (n: nat)
    ensures n <= |s| && sep !in s[..n]
    ensures n < |s| ==> s[n] == sep
  {
    if s == "" || s[0] == sep then 0 else 1 + IndexOf(s[1..], sep)
  }

  /** s.split(sep) */
  function SplitOn(s: string, sep: char): (r: seq<string>)
    ensures r != [] && forall w | w in r :: sep !in w
    decreases |s|
  {
    var n := IndexOf(s, sep);
    if n == |s| then
      assert s[..n] == s;
      [s]
    else [s[..n]] + SplitOn(s[n + 1..], sep)
  }

  /** sep.join(words) */
  function JoinOn(words: seq<string>, sep: char): string {
    if |words| == 0 then ""
    else if |words| == 1 then words[0]
    else words[0] + [sep] + JoinOn(words[1..], sep)
  }

  lemma {:induction false} IndexOfAfter(w: string, rest: string, sep: char)
    requires sep !in w && (rest == "" || rest[0] == sep)
    ensures IndexOf(w + rest, sep) == |w|
  {
    if w == "" {
      assert w + rest == rest;
    } else {
      assert (w + rest)[1..] == w[1..] + rest;
      IndexOfAfter(w[1..], rest, sep);
    }
  }

  lemma SplitOnStep(w: string, rest: string, sep: char)
    requires sep !in w
    ensures SplitOn(w + [sep] + rest, sep) == [w] + SplitOn(rest, sep)
  {
    var s := w + [sep] + rest;
    assert s == w + ([sep] + rest);
    IndexOfAfter(w, [sep] + rest, sep);
    assert s[..|w|] == w && s[|w| + 1..] == rest;
  }

  lemma {:induction false} SplitOnJoinOn(words: seq<string>, sep: char)
    requires words != [] && forall w | w in words :: sep !in w
    ensures SplitOn(JoinOn(words, sep), sep) == words
  {
    var w := words[0];
    if |words| == 1 {
      IndexOfAfter(w, "", sep);
      assert w + "" == w;
    } else {
      SplitOnJoinOn(words[1..], sep);
      SplitOnStep(w, JoinOn(words[1..], sep), sep);
      assert words == [w] + words[1..];
    }
  }

  lemma {:induction false} JoinOnSplitOn(s: string, sep: char)
    ensures JoinOn(SplitOn(s, sep), sep) == s
    decreases |s|
  {
    var n := IndexOf(s, sep);
    if n < |s| {
      var rest := SplitOn(s[n + 1..], sep);
      JoinOnSplitOn(s[n + 1..], sep);
      assert SplitOn(s, sep)[1..] == rest;
      assert s == s[..n] + [sep] + s[n + 1..];
    }
  }

  // ----- numerals -----------------------------------------------------------

  /** The digit value of c, or 99 when c is not a hexadecimal digit. */
  function DigitOf(c: char): nat {
    if '0' <= c <= '9' then c as int - '0' as int
    else if 'A' <= c <= 'F' then c as int - 'A' as int + 10
    else if 'a' <= c <= 'f' then c as int - 'a' as int + 10
    else 99
  }

  predicate IsNumeral(s: string, base: nat) {
    s != "" && forall i | 0 <= i < |s| :: DigitOf(s[i]) < base
  }

  function Value(s: string, base: nat): nat {
    if s == "" then 0 else Value(s[..|s| - 1], base) * base + DigitOf(s[|s| - 1])
  }

  /** The case of the letters makes no difference to a number. */
  lemma {:induction false} CaseValue(s: string, t: string, base: nat)
    requires |s| == |t| && forall i | 0 <= i < |s| :: DigitOf(t[i]) == DigitOf(s[i])
    ensures IsNumeral(t, base) <==> IsNumeral(s, base)
    ensures Value(t, base) == Value(s, base)
  {
    if s != "" {
      CaseValue(s[..|s| - 1], t[..|s| - 1], base);
    }
  }

  lemma UpperValue(s: string, base: nat)
    ensures IsNumeral(Upper(s), base) <==> IsNumeral(s, base)
    ensures Value(Upper(s), base) == Value(s, base)
  {
    CaseValue(s, Upper(s), base);
  }

  lemma LowerValue(s: string, base: nat)
    ensures Value(Lower(s), base) == Value(s, base)
  {
    CaseValue(s, Lower(s), base);
  }

  predicate IsSign(c: char) {
    c == '-' || c == '+'
  }

  /** long(s, base): digits behind a sign or none, where None stands for ValueError */
  function Parse(s: string, base: nat): Option<int> {
    if IsNumeral(s, base) then Some(Value(s, base))
    else if s != "" && IsSign(s[0]) && IsNumeral(s[1..], base) then
      Some(if s[0] == '-' then 0 - Value(s[1..], base) else Value(s[1..], base))
    else None
  }

  /** The number that a text is read as in base 10, or 0 when it is none. */
  function IntegerOf(s: string): int {
    if Parse(s, 10).Some? then Parse(s, 10).value else 0
  }

  function DigitChar(d: nat): (c: char)
    requires d < 16
    ensures DigitOf(c) == d
  {
    if d < 10 then ('0' as int + d) as char else ('A' as int + d - 10) as char
  }

  /** str(n) of a natural number */
  function Decimal(n: nat): (s: string)
    ensures IsNumeral(s, 10)
  {
    if n < 10 then [DigitChar(n)] else Decimal(n / 10) + [DigitChar(n % 10)]
  }

  lemma {:induction false} DecimalValue(n: nat)
    ensures Value(Decimal(n), 10) == n
  {
    if n >= 10 {
      DecimalValue(n / 10);
      var s := Decimal(n);
      assert s[..|s| - 1] == Decimal(n / 10);
    } else {
      assert Decimal(n)[..0] == "";
    }
  }

  /** str(n) */
  function DecimalText(n: int): string {
    if n < 0 then "-" + Decimal(-n) else Decimal(n)
  }

  lemma DecimalTextValue(n: int)
    ensures Parse(DecimalText(n), 10) == Some(n)
  {
    if n < 0 {
      DecimalValue(-n);
      var s := "-" + Decimal(-n);
      assert s[0] == '-' && s[1..] == Decimal(-n) && DigitOf(s[0]) == 99;
    } else {
      DecimalValue(n);
    }
  }

  function Pow(base: nat, e: nat): nat {
    if e == 0 then 1 else base * Pow(base, e - 1)
  }

  lemma MulMono(a: nat, b: nat, c: nat)
    requires a <= b
    ensures a * c <= b * c
  {}

  lemma BoundStep(v: nat, d: nat, p: nat, base: nat)
    requires v < p && d < base
    ensures v * base + d < base * p
  {
    MulMono(v + 1, p, base);
    assert (v + 1) * base == v * base + base;
  }

  lemma {:induction false} ValueBound(s: string, base: nat)
    requires s == "" || IsNumeral(s, base)
    ensures Value(s, base) < Pow(base, |s|)
  {
    if s != "" {
      var t := s[..|s| - 1];
      ValueBound(t, base);
      assert DigitOf(s[|s| - 1]) < base;
      BoundStep(Value(t, base), DigitOf(s[|s| - 1]), Pow(base, |t|), base);
    }
  }

  lemma MulGrows(v: nat, v': nat, base: nat, base': nat)
    requires v <= v' && base < base'
    ensures v * base <= v' * base'
    ensures v' > 0 ==> v * base < v' * base'
  {
    MulMono(v, v', base);
    assert v' * base' == v' * base + v' * (base' - base);
    if v' > 0 {
      MulMono(1, v', base' - base);
    }
  }

  lemma {:induction false} LeadingDigitPositive(s: string, base: nat)
    requires s != "" && s[0] != '0' && base > 0
    ensures Value(s, base) > 0
  {
    var t := s[..|s| - 1];
    if t != "" {
      assert t[0] == s[0];
      LeadingDigitPositive(t, base);
      assert Value(t, base) * base >= 1;
    }
  }

  /** A numeral read in a larger base is worth at least as much, and strictly more
      when it has two or more digits and no leading zero. */
  lemma {:induction false} ValueGrowsWithBase(s: string, base: nat, base': nat)
    requires IsNumeral(s, base) && base < base'
    ensures Value(s, base) <= Value(s, base')
    ensures |s| >= 2 && s[0] != '0' ==> Value(s, base) < Value(s, base')
  {
    var t := s[..|s| - 1];
    if t == "" {
      assert s[..0] == "";
    } else {
      ValueGrowsWithBase(t, base, base');
      MulGrows(Value(t, base), Value(t, base'), base, base');
      if s[0] != '0' {
        assert t[0] == s[0];
        LeadingDigitPositive(t, base');
      }
    }
  }

  // ----- lexicographic order ------------------------------------------------

  /** SQLite's BINARY collation: a <= b */
  predicate LexLeq(a: string, b: string) {
    a == "" || (b != "" && (a[0] < b[0] || (a[0] == b[0] && LexLeq(a[1..], b[1..]))))
  }

  lemma {:induction false} LexTransitive(a: string, b: string, c: string)
    requires LexLeq(a, b) && LexLeq(b, c)
    ensures LexLeq(a, c)
  {
    if a != "" && a[0] == b[0] && b[0] == c[0] {
      LexTransitive(a[1..], b[1..], c[1..]);
    }
  }

  lemma {:induction false} LexTotal(a: string, b: string)
    ensures LexLeq(a, b) || LexLeq(b, a)
  {
    if a != "" && b != "" && a[0] == b[0] {
      LexTotal(a[1..], b[1..]);
    }
  }

  lemma {:induction false} LexAntisymmetric(a: string, b: string)
    requires LexLeq(a, b) && LexLeq(b, a)
    ensures a == b
  {
    if a != "" && b != "" {
      LexAntisymmetric(a[1..], b[1..]);
      assert a == [a[0]] + a[1..] && b == [b[0]] + b[1..];
    }
  }

  predicate IsUpperHex(s: string) {
    forall i | 0 <= i < |s| :: DigitOf(s[i]) < 16 && UpperChar(s[i]) == s[i]
  }

  lemma Distribute(d: nat, p: nat, v: nat, base: nat)
    ensures (d * p + v) * base == d * (base * p) + v * base
  {}

  lemma {:induction false} ValueFront(s: string, base: nat)
    requires s != ""
    ensures Value(s, base) == DigitOf(s[0]) * Pow(base, |s| - 1) + Value(s[1..], base)
  {
    if |s| > 1 {
      var t := s[..|s| - 1];
      ValueFront(t, base);
      assert t[1..] == s[1..][..|s| - 2];
      assert t[0] == s[0];
      Distribute(DigitOf(s[0]), Pow(base, |s| - 2), Value(t[1..], base), base);
    } else {
      assert s[..0] == "" && s[1..] == "";
    }
  }

  /** Two-part numbers d * p + v with v < p compare by d first. */
  lemma CompareByHead(x: nat, v: nat, y: nat, w: nat, p: nat)
    requires v < p && w < p
    ensures x < y ==> x * p + v < y * p + w
    ensures x == y ==> (x * p + v <= y * p + w <==> v <= w)
  {
    if x < y {
      MulMono(x + 1, y, p);
    }
  }

  lemma HexTailBound(a: string)
    requires a != "" && IsUpperHex(a)
    ensures Value(a[1..], 16) < Pow(16, |a| - 1)
  {
    ValueBound(a[1..], 16);
  }

  lemma HexDigitOrder(c: char, d: char)
    requires DigitOf(c) < 16 && UpperChar(c) == c && DigitOf(d) < 16 && UpperChar(d) == d
    ensures c < d <==> DigitOf(c) < DigitOf(d)
    ensures c == d <==> DigitOf(c) == DigitOf(d)
  {}

  /** Upper-case hexadecimal strings of one length compare as the numbers they denote:
      the matcher's HEX(..) <= HEX(..) and the collision checker's long(.., 16) agree. */
  lemma {:induction false} HexOrder(a: string, b: string)
    requires |a| == |b| && IsUpperHex(a) && IsUpperHex(b)
    ensures LexLeq(a, b) <==> Value(a, 16) <= Value(b, 16)
  {
    if a != "" {
      ValueFront(a, 16);
      ValueFront(b, 16);
      HexTailBound(a);
      HexTailBound(b);
      HexOrder(a[1..], b[1..]);
      var v, w, p := Value(a[1..], 16), Value(b[1..], 16), Pow(16, |a| - 1);
      CompareByHead(DigitOf(a[0]), v, DigitOf(b[0]), w, p);
      CompareByHead(DigitOf(b[0]), w, DigitOf(a[0]), v, p);
      HexDigitOrder(a[0], b[0]);
    }
  }
}
