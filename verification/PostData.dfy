/** The criteria a client posts: ai_get_manifest.py encodes its dictionary as postData,
    cgi_get_manifest.py decodes it again. */
module PostData {
  import opened Text

  type Dictionary = map<string, string>

  // ----- the server ---------------------------------------------------------------------------

  /** form_data cut at its semicolons; nothing comes after a semicolon that ends the text. */
  function Pieces(form: string): seq<string>
    decreases |form|
  {
    if form == "" then []
    else
      var n := IndexOf(form, ';');
      if n == |form| then [form] else [form[..n]] + Pieces(form[n + 1..])
  }

  datatype Assignment = Assignment(key: string, value: string)

  /** key_value.split('=') into exactly two parts. */
  function ReadPair(piece: string): Option<Assignment> {
    var parts := SplitOn(piece, '=');
    if |parts| == 2 then Some(Assignment(parts[0], parts[1])) else None
  }

  function AddPiece(criteria: Dictionary, piece: string): Dictionary {
    match ReadPair(piece)
    case None => map[]
    case Some(pair) => criteria[pair.key := pair.value]
  }

  /** The dictionary after the pieces were read: a malformed one empties it. */
  function Fold(pieces: seq<string>): Dictionary {
    if pieces == [] then map[] else AddPiece(Fold(pieces[..|pieces| - 1]), pieces[|pieces| - 1])
  }

  lemma FoldNext(pieces: seq<string>, piece: string)
    ensures Fold(pieces + [piece]) == AddPiece(Fold(pieces), piece)
  {
    assert (pieces + [piece])[..|pieces|] == pieces;
  }

  /** What is left of the text behind its first piece. */
  function Behind(form: string): string {
    var n := IndexOf(form, ';');
    if n < |form| then form[n + 1..] else ""
  }

  lemma PiecesNext(form: string)
    requires form != ""
    ensures Pieces(form) == [form[..IndexOf(form, ';')]] + Pieces(Behind(form))
  {
    var n := IndexOf(form, ';');
    if n == |form| {
      assert form[..n] == form;
    }
  }

  method Decode(formData: string) returns (criteria: Dictionary)
    ensures criteria == Fold(Pieces(formData))
  {
    var form := formData;
    criteria := map[];
    ghost var done: seq<string> := [];
    ghost var all := Pieces(formData);
    assert done + Pieces(form) == all;
    while form != ""
      invariant criteria == Fold(done) && done + Pieces(form) == all
      decreases |form|
    {
      PiecesNext(form);
      var n := IndexOf(form, ';');
      var keyValue := form[..n];
      form := if n < |form| then form[n + 1..] else "";
      var pair := ReadPair(keyValue);
      FoldNext(done, keyValue);
      criteria := if pair.Some? then criteria[pair.value.key := pair.value.value] else map[];
      AppendAssociates(done, [keyValue], Pieces(form));
      done := done + [keyValue];
    }
    assert done + [] == done;
  }

  ghost predicate AllPairs(pieces: seq<string>) {
    forall p | p in pieces :: ReadPair(p).Some?
  }

  lemma MergeUpdate(a: Dictionary, b: Dictionary, key: string, value: string)
    ensures (a + b)[key := value] == a + b[key := value]
  {}

  lemma {:induction false} FoldConcat(a: seq<string>, b: seq<string>)
    requires AllPairs(b)
    ensures Fold(a + b) == Fold(a) + Fold(b)
  {
    if b == [] {
      assert a + b == a && Fold(a) + map[] == Fold(a);
    } else {
      var front, last := b[..|b| - 1], b[|b| - 1];
      assert last in b && b == front + [last];
      FoldConcat(a, front);
      AppendAssociates(a, front, [last]);
      assert a + b == (a + front) + [last];
      FoldNext(a + front, last);
      FoldNext(front, last);
      var pair := ReadPair(last).value;
      MergeUpdate(Fold(a), Fold(front), pair.key, pair.value);
    }
  }

  /** Only the pairs after the last malformed piece count. */
  lemma PairsAfterLastMalformed(before: seq<string>, malformed: string, pairs: seq<string>)
    requires ReadPair(malformed).None? && AllPairs(pairs)
    ensures Fold(before + [malformed] + pairs) == Fold(pairs)
  {
    FoldConcat(before + [malformed], pairs);
    FoldNext(before, malformed);
    assert map[] + Fold(pairs) == Fold(pairs);
  }

  // ----- the client ---------------------------------------------------------------------------

  function Pair(key: string, value: string): string {
    key + "=" + value
  }

  function RStripSemicolons(s: string): (r: string)
    ensures r == "" || r[|r| - 1] != ';'
    ensures r <= s && forall i | |r| <= i < |s| :: s[i] == ';'
  {
    if s == "" || s[|s| - 1] != ';' then s else RStripSemicolons(s[..|s| - 1])
  }

  /** No separator in the text. */
  predicate PlainText(s: string) {
    ';' !in s && '=' !in s
  }

  predicate PlainDictionary(nvPairs: Dictionary) {
    forall key | key in nvPairs :: PlainText(key) && PlainText(nvPairs[key])
  }

  function Terminated(pieces: seq<string>): string {
    if pieces == [] then "" else Terminated(pieces[..|pieces| - 1]) + pieces[|pieces| - 1] + ";"
  }

  lemma PairIsPair(key: string, value: string)
    requires PlainText(key) && PlainText(value)
    ensures ReadPair(Pair(key, value)) == Some(Assignment(key, value)) && ';' !in Pair(key, value)
  {
    SplitOnStep(key, value, '=');
    IndexOfAfter(value, "", '=');
    assert value + "" == value && value[..|value|] == value;
  }

  predicate GoodPieces(pieces: seq<string>) {
    forall p | p in pieces :: p != "" && ';' !in p
  }

  lemma {:induction false} TerminatedFront(pieces: seq<string>)
    requires pieces != []
    ensures Terminated(pieces) == pieces[0] + ";" + Terminated(pieces[1..])
  {
    var n := |pieces| - 1;
    if n == 0 {
      assert pieces[..0] == [] && pieces[1..] == [];
      assert "" + pieces[0] + ";" == pieces[0] + ";" + "";
    } else {
      var front := pieces[..n];
      TerminatedFront(front);
      assert front[1..] == pieces[1..][..n - 1];
      var middle := Terminated(front[1..]);
      assert (front[0] + ";" + middle) + pieces[n] + ";" == front[0] + ";" + (middle + pieces[n] + ";");
    }
  }

  /** Cutting at the first semicolon. */
  lemma PiecesFront(pieces: seq<string>, last: string)
    requires pieces != [] && GoodPieces(pieces)
    ensures Pieces(Terminated(pieces) + last) == [pieces[0]] + Pieces(Terminated(pieces[1..]) + last)
  {
    var first, rest := pieces[0], Terminated(pieces[1..]) + last;
    TerminatedFront(pieces);
    assert first in pieces;
    var form := first + ([';'] + rest);
    assert Terminated(pieces) + last == form;
    IndexOfAfter(first, [';'] + rest, ';');
    assert form[..|first|] == first && form[|first| + 1..] == rest;
  }

  lemma {:induction false} PiecesOfConcat(pieces: seq<string>, last: string)
    requires GoodPieces(pieces) && ';' !in last
    ensures Pieces(Terminated(pieces) + last) == pieces + if last == "" then [] else [last]
    decreases |pieces|
  {
    if pieces == [] {
      assert "" + last == last;
      IndexOfAfter(last, "", ';');
      assert last + "" == last;
    } else {
      PiecesFront(pieces, last);
      var first, rest := pieces[0], pieces[1..];
      assert pieces == [first] + rest;
      assert forall p | p in rest :: p in pieces;
      PiecesOfConcat(rest, last);
      AppendAssociates([first], rest, if last == "" then [] else [last]);
    }
  }

  lemma TerminatedNext(pieces: seq<string>, piece: string)
    ensures Terminated(pieces + [piece]) == Terminated(pieces) + piece + ";"
  {
    assert (pieces + [piece])[..|pieces|] == pieces;
  }

  /** rstrip takes the last semicolon and no more. */
  lemma StripLast(before: string, piece: string)
    requires piece != "" && ';' !in piece
    ensures RStripSemicolons(before + piece + ";") == before + piece
  {
    var t := before + piece;
    assert t[|t| - 1] == piece[|piece| - 1];
    assert (t + ";")[..|t|] == t;
  }

  lemma RemovedNext(nvPairs: Dictionary, todo: set<string>, key: string)
    requires key in todo && key in nvPairs
    ensures (nvPairs - todo)[key := nvPairs[key]] == nvPairs - (todo - {key})
  {}

  lemma {:induction false} SplitOnKeepsOut(s: string, sep: char, c: char)
    requires c !in s
    ensures forall w | w in SplitOn(s, sep) :: c !in w
    decreases |s|
  {
    var n := IndexOf(s, sep);
    if n < |s| {
      SplitOnKeepsOut(s[n + 1..], sep, c);
    }
  }

  lemma {:induction false} PiecesHaveNoSemicolon(form: string)
    ensures forall p | p in Pieces(form) :: ';' !in p
    decreases |form|
  {
    var n := IndexOf(form, ';');
    if n < |form| {
      PiecesHaveNoSemicolon(form[n + 1..]);
    }
  }

  lemma AddIsPlain(criteria: Dictionary, piece: string)
    requires PlainDictionary(criteria) && ';' !in piece
    ensures PlainDictionary(AddPiece(criteria, piece))
  {
    var parts := SplitOn(piece, '=');
    SplitOnKeepsOut(piece, '=', ';');
    if |parts| == 2 {
      assert parts[0] in parts && parts[1] in parts;
    }
  }

  lemma {:induction false} FoldIsPlain(pieces: seq<string>)
    requires forall p | p in pieces :: ';' !in p
    ensures PlainDictionary(Fold(pieces))
  {
    if pieces != [] {
      var n := |pieces| - 1;
      FoldIsPlain(pieces[..n]);
      assert pieces[n] in pieces;
      AddIsPlain(Fold(pieces[..n]), pieces[n]);
    }
  }

  /** No text gives the server a dictionary with a separator in a key or value. */
  lemma ReadIsPlain(form: string)
    ensures PlainDictionary(Fold(Pieces(form)))
  {
    PiecesHaveNoSemicolon(form);
    FoldIsPlain(Pieces(form));
  }

  lemma LastPiece(pieces: seq<string>, front: seq<string>, last: string)
    requires pieces != [] && GoodPieces(pieces) && front == pieces[..|pieces| - 1] && last == pieces[|pieces| - 1]
    ensures GoodPieces(front) && last != "" && ';' !in last && front + [last] == pieces
    ensures Terminated(pieces) == Terminated(front) + last + ";"
  {
    assert last in pieces && forall p | p in front :: p in pieces;
  }

  /** Whatever order the keys come in, the server reads the client's dictionary from the text exactly
      if no key and no value has a separator in it. */
  method Encode(nvPairs: Dictionary) returns (postData: string)
    ensures Fold(Pieces(postData)) == nvPairs <==> PlainDictionary(nvPairs)
  {
    postData := "";
    ghost var pieces: seq<string> := [];
    var todo := nvPairs.Keys;
    while todo != {}
      invariant todo <= nvPairs.Keys && postData == Terminated(pieces)
      invariant PlainDictionary(nvPairs) ==> GoodPieces(pieces) && Fold(pieces) == nvPairs - todo
      decreases |todo|
    {
      var key :| key in todo;
      var piece := Pair(key, nvPairs[key]);
      TerminatedNext(pieces, piece);
      if PlainDictionary(nvPairs) {
        PairIsPair(key, nvPairs[key]);
        FoldNext(pieces, piece);
        RemovedNext(nvPairs, todo, key);
      }
      todo := todo - {key};
      postData := postData + piece + ";";
      pieces := pieces + [piece];
    }
    assert nvPairs - {} == nvPairs;
    postData := RStripSemicolons(postData);
    if PlainDictionary(nvPairs) && pieces != [] {
      ghost var front, last := pieces[..|pieces| - 1], pieces[|pieces| - 1];
      LastPiece(pieces, front, last);
      StripLast(Terminated(front), last);
      PiecesOfConcat(front, last);
    }
    ReadIsPlain(postData);
  }

  /** A value with an equals sign takes away all that stands before it, too. */
  lemma EqualsSignEmpties(key: string, value: string, before: seq<string>)
    requires PlainText(key) && '=' in value
    ensures Fold(before + [Pair(key, value)]) == map[]
  {
    var n := IndexOf(value, '=');
    SplitOnStep(key, value, '=');
    assert value[..|value|] == value;
    assert n < |value|;
    assert SplitOn(value, '=') == [value[..n]] + SplitOn(value[n + 1..], '=');
    FoldNext(before, Pair(key, value));
  }
}
