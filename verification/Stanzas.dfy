/** A configuration file as a sequence of plain lines and stanzas with a header, a body and a
    closing line. */
module Stanzas {
  import opened Text
  import opened ConfigLines

  datatype Item = Plain(line: string) | Stanza(header: string, body: Lines, close: string)

  function ItemLines(item: Item): Lines {
    match item
    case Plain(line) => [line]
    case Stanza(header, body, close) => [header] + (body + [close])
  }

  function Flatten(items: seq<Item>): Lines {
    if items == [] then [] else ItemLines(items[0]) + Flatten(items[1..])
  }

  lemma StanzaLines(item: Item, rest: Lines)
    requires item.Stanza?
    ensures ItemLines(item) + rest == [item.header] + (item.body + ([item.close] + rest))
  {
    AppendAssociates(item.body, [item.close], rest);
    AppendAssociates([item.header], item.body + [item.close], rest);
  }

  lemma FlattenCons(item: Item, rest: seq<Item>)
    ensures Flatten([item] + rest) == ItemLines(item) + Flatten(rest)
  {
    assert ([item] + rest)[1..] == rest;
  }

  lemma {:induction false} FlattenConcat(a: seq<Item>, b: seq<Item>)
    ensures Flatten(a + b) == Flatten(a) + Flatten(b)
  {
    if a == [] {
      assert a + b == b;
    } else {
      var item, rest := a[0], a[1..];
      assert a == [item] + rest;
      FlattenConcat(rest, b);
      AppendAssociates([item], rest, b);
      FlattenCons(item, rest + b);
      FlattenCons(item, rest);
      AppendAssociates(ItemLines(item), Flatten(rest), Flatten(b));
    }
  }
}
