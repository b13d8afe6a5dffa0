/**
 * The texts of a tree: compact (src/list.c, src/map.c), pretty (src/print.c), and the
 * layouts that both are instances of.
 */
module JsonText {
  import opened Bytes
  import opened Values
  import Cstr
  import Numbers

  /** What the C library prints for a double with the format "%g"; nothing else is known of it. */
  const DOUBLE_TEXT: Bytes -> CString

  /** The text of a value that is no container. */
  function Primitive(v: V): Bytes {
    match v
    case Null => "null"
    case Bool(b) => if b then "true" else "false"
    case Int(n) => Numbers.Dec(n)
    case Str(text) => Cstr.Repr(text)
    case Double(lexeme) => DOUBLE_TEXT(lexeme)
    case _ => []
  }

  // ---- compact text --------------------------------------------------------------------

  function Compact(v: V): Bytes
    decreases v, 1
  {
    match v
    case List(items) => "[" + CompactItems(items) + "]"
    case Map(entries) => "{" + CompactEntries(entries) + "}"
    case _ => Primitive(v)
  }

  function CompactItems(items: seq<V>): Bytes
    decreases items, 0
  {
    if items == [] then []
    else Compact(items[0]) + (if |items| > 1 then ", " else []) + CompactItems(items[1..])
  }

  function CompactEntries(entries: seq<Entry>): Bytes
    decreases entries, 0
  {
    if entries == [] then []
    else
      "\"" + entries[0].key + "\": " + Compact(entries[0].value)
      + (if |entries| > 1 then ", " else []) + CompactEntries(entries[1..])
  }

  // ---- pretty text ---------------------------------------------------------------------

  function Spaces(n: nat): (s: Bytes)
    ensures |s| == n
  {
    seq(n, _ => ' ')
  }

  /** `indent_cstr` with enough room */
  function Indent(level: nat): Bytes {
    Spaces(2 * level)
  }

  /** `obj_pretty_cstr`: every value ends its line, with a comma unless it is the last one. */
  function Pretty(v: V, last: bool, level: nat): Bytes
    decreases v, 1
  {
    var end := if last then "\n" else ",\n";
    match v
    case List(items) => "[\n" + PrettyItems(items, level + 1) + Indent(level) + "]" + end
    case Map(entries) => "{\n" + PrettyEntries(entries, level + 1) + Indent(level) + "}" + end
    case _ => Primitive(v) + end
  }

  function PrettyItems(items: seq<V>, level: nat): Bytes
    decreases items, 0
  {
    if items == [] then []
    else Indent(level) + Pretty(items[0], |items| == 1, level) + PrettyItems(items[1..], level)
  }

  function PrettyEntries(entries: seq<Entry>, level: nat): Bytes
    decreases entries, 0
  {
    if entries == [] then []
    else
      Indent(level) + "\"" + entries[0].key + "\": " + Pretty(entries[0].value, |entries| == 1, level)
      + PrettyEntries(entries[1..], level)
  }

  // ---- layouts -------------------------------------------------------------------------

  /** The places between two tokens of a container. */
  datatype Place = Opened | Closing | BeforeComma | AfterComma | BeforeColon | AfterColon

  /** White space for every depth and place. */
  type Pads = (nat, Place) -> Bytes

  ghost predicate OnlySpaces(pad: Pads) {
    forall depth, place :: AllSpaces(pad(depth, place))
  }

  /** A value that is no container as a text spells it; a double is named by its text. */
  function Scalar(v: V): Bytes {
    if v.Double? then v.lexeme else Primitive(v)
  }

  function Laid(v: V, depth: nat, pad: Pads): Bytes
    decreases v, 1
  {
    match v
    case List(items) => "[" + LaidItems(items, depth, pad) + "]"
    case Map(entries) => "{" + LaidEntries(entries, depth, pad) + "}"
    case _ => Scalar(v)
  }

  /** The text between the brackets. */
  function LaidItems(items: seq<V>, depth: nat, pad: Pads): Bytes
    decreases items, 1
  {
    if items == [] then pad(depth, Closing) else pad(depth, Opened) + LaidRest(items, depth, pad)
  }

  function LaidRest(items: seq<V>, depth: nat, pad: Pads): Bytes
    requires items != []
    decreases items, 0
  {
    Laid(items[0], depth + 1, pad) +
    if |items| == 1 then pad(depth, Closing)
    else pad(depth, BeforeComma) + "," + pad(depth, AfterComma) + LaidRest(items[1..], depth, pad)
  }

  function LaidEntries(entries: seq<Entry>, depth: nat, pad: Pads): Bytes
    decreases entries, 1
  {
    if entries == [] then pad(depth, Closing) else pad(depth, Opened) + LaidEntryRest(entries, depth, pad)
  }

  function LaidEntryRest(entries: seq<Entry>, depth: nat, pad: Pads): Bytes
    requires entries != []
    decreases entries, 0
  {
    "\"" + entries[0].key + "\"" + pad(depth, BeforeColon) + ":" + pad(depth, AfterColon)
    + Laid(entries[0].value, depth + 1, pad) +
    if |entries| == 1 then pad(depth, Closing)
    else pad(depth, BeforeComma) + "," + pad(depth, AfterComma) + LaidEntryRest(entries[1..], depth, pad)
  }

  function CompactPad(depth: nat, place: Place): Bytes {
    if place == AfterComma || place == AfterColon then " " else []
  }

  /** `base` is the depth of the printed value. */
  function PrettyPad(depth: nat, place: Place): Bytes {
    match place
    case Opened => "\n" + Indent(depth + 1)
    case AfterComma => "\n" + Indent(depth + 1)
    case Closing => "\n" + Indent(depth)
    case AfterColon => " "
    case _ => []
  }

  lemma PadsAreSpaces()
    ensures OnlySpaces(CompactPad) && OnlySpaces(PrettyPad)
  {
  }

  /** The tree that the printers spell: each double under the text that is printed for it. */
  function AsPrinted(v: V): V
    decreases v, 1
  {
    match v
    case List(items) => List(ItemsAsPrinted(items))
    case Map(entries) => Map(EntriesAsPrinted(entries))
    case Double(lexeme) => Double(DOUBLE_TEXT(lexeme))
    case _ => v
  }

  function ItemsAsPrinted(items: seq<V>): (r: seq<V>)
    ensures |r| == |items| && forall i :: 0 <= i < |items| ==> r[i] == AsPrinted(items[i])
    decreases items, 0
  {
    if items == [] then [] else [AsPrinted(items[0])] + ItemsAsPrinted(items[1..])
  }

  function EntriesAsPrinted(entries: seq<Entry>): (r: seq<Entry>)
    ensures |r| == |entries|
    ensures forall i :: 0 <= i < |entries| ==> r[i] == Entry(entries[i].key, AsPrinted(entries[i].value))
    decreases entries, 0
  {
    if entries == [] then []
    else [Entry(entries[0].key, AsPrinted(entries[0].value))] + EntriesAsPrinted(entries[1..])
  }

  lemma TailsAsPrinted(items: seq<V>, entries: seq<Entry>)
    ensures items != [] ==> ItemsAsPrinted(items)[1..] == ItemsAsPrinted(items[1..])
    ensures entries != [] ==> EntriesAsPrinted(entries)[1..] == EntriesAsPrinted(entries[1..])
  {
  }

  /** Nothing changes in a tree without doubles. */
  lemma {:induction false} SameAsPrinted(v: V)
    requires NoDoubles(v)
    ensures AsPrinted(v) == v
    decreases v
  {
    match v
    case List(items) =>
      forall i | 0 <= i < |items|
        ensures AsPrinted(items[i]) == items[i]
      {
        SameAsPrinted(items[i]);
      }
      assert ItemsAsPrinted(items) == items;
    case Map(entries) =>
      forall i | 0 <= i < |entries|
        ensures AsPrinted(entries[i].value) == entries[i].value
      {
        SameAsPrinted(entries[i].value);
      }
      assert EntriesAsPrinted(entries) == entries;
    case _ =>
  }

  /** Compact text is a layout of the tree that it spells. */
  lemma {:induction false} CompactIsLaid(v: V, depth: nat)
    ensures Compact(v) == Laid(AsPrinted(v), depth, CompactPad)
    decreases v, 1
  {
    match v
    case List(items) =>
      if items != [] {
        CompactItemsLaid(items, depth);
        EmptyFront(LaidRest(ItemsAsPrinted(items), depth, CompactPad));
      }
    case Map(entries) =>
      if entries != [] {
        CompactEntriesLaid(entries, depth);
        EmptyFront(LaidEntryRest(EntriesAsPrinted(entries), depth, CompactPad));
      }
    case _ =>
  }

  lemma {:induction false} CompactItemsLaid(items: seq<V>, depth: nat)
    requires items != []
    ensures CompactItems(items) == LaidRest(ItemsAsPrinted(items), depth, CompactPad)
    decreases items, 0
  {
    TailsAsPrinted(items, []);
    var text := Compact(items[0]);
    CompactIsLaid(items[0], depth + 1);
    if |items| > 1 {
      CompactItemsLaid(items[1..], depth);
      assert [] + "," + " " == ", ";
      Assoc(text, ", ", CompactItems(items[1..]));
    } else {
      assert items[1..] == [];
      assert text + [] + [] == text + [];
    }
  }

  lemma {:induction false} CompactEntriesLaid(entries: seq<Entry>, depth: nat)
    requires entries != []
    ensures CompactEntries(entries) == LaidEntryRest(EntriesAsPrinted(entries), depth, CompactPad)
    decreases entries, 0
  {
    TailsAsPrinted([], entries);
    var key, value := entries[0].key, Compact(entries[0].value);
    CompactIsLaid(entries[0].value, depth + 1);
    assert "\"" + key + "\"" + [] + ":" + " " == "\"" + key + "\": ";
    if |entries| > 1 {
      CompactEntriesLaid(entries[1..], depth);
      assert [] + "," + " " == ", ";
      Assoc("\"" + key + "\": " + value, ", ", CompactEntries(entries[1..]));
    } else {
      assert entries[1..] == [];
      assert "\"" + key + "\": " + value + [] + [] == "\"" + key + "\": " + value + [];
    }
  }

  /** Pretty text is a layout of the tree that it spells, and the end of a line. */
  lemma {:induction false} PrettyIsLaid(v: V, last: bool, level: nat)
    ensures Pretty(v, last, level) == Laid(AsPrinted(v), level, PrettyPad) + if last then "\n" else ",\n"
    decreases v, 1
  {
    match v
    case List(items) => PrettyItemsLaid(items, level);
    case Map(entries) => PrettyEntriesLaid(entries, level);
    case _ =>
  }

  lemma {:induction false} PrettyItemsLaid(items: seq<V>, level: nat)
    ensures "[\n" + PrettyItems(items, level + 1) + Indent(level) ==
            "[" + LaidItems(ItemsAsPrinted(items), level, PrettyPad)
    decreases items, 1
  {
    hide PrettyItems;
    hide Indent;
    hide LaidRest;
    var body := PrettyItems(items, level + 1);
    if items == [] {
      NoItemLines(level + 1);
      assert "[\n" + body + Indent(level) == "[" + ("\n" + Indent(level));
    } else {
      PrettyItemLines(items, level);
      OpenedLine("[", body, Indent(level), Indent(level + 1),
                 LaidRest(ItemsAsPrinted(items), level, PrettyPad));
    }
  }

  lemma {:induction false} PrettyEntriesLaid(entries: seq<Entry>, level: nat)
    ensures "{\n" + PrettyEntries(entries, level + 1) + Indent(level) ==
            "{" + LaidEntries(EntriesAsPrinted(entries), level, PrettyPad)
    decreases entries, 1
  {
    hide PrettyEntries;
    hide Indent;
    hide LaidEntryRest;
    var body := PrettyEntries(entries, level + 1);
    if entries == [] {
      NoItemLines(level + 1);
      assert "{\n" + body + Indent(level) == "{" + ("\n" + Indent(level));
    } else {
      PrettyEntryLines(entries, level);
      OpenedLine("{", body, Indent(level), Indent(level + 1),
                 LaidEntryRest(EntriesAsPrinted(entries), level, PrettyPad));
    }
  }

  lemma NoItemLines(level: nat)
    ensures PrettyItems([], level) == [] && PrettyEntries([], level) == []
  {
  }

  lemma OpenedLine(open: Bytes, body: Bytes, outer: Bytes, inner: Bytes, rest: Bytes)
    requires body + outer == inner + rest
    ensures open + "\n" + body + outer == open + ("\n" + inner + rest)
  {
    assert open + "\n" + body + outer == open + "\n" + (body + outer);
  }

  lemma {:induction false} PrettyItemLines(items: seq<V>, level: nat)
    requires items != []
    ensures PrettyItems(items, level + 1) + Indent(level) ==
            Indent(level + 1) + LaidRest(ItemsAsPrinted(items), level, PrettyPad)
    decreases items, 0
  {
    hide Pretty;
    hide Laid;
    hide Indent;
    hide AsPrinted;
    TailsAsPrinted(items, []);
    var inner, outer, text := Indent(level + 1), Indent(level), Laid(AsPrinted(items[0]), level + 1, PrettyPad);
    PrettyIsLaid(items[0], |items| == 1, level + 1);
    if |items| == 1 {
      LastLine(inner, text, outer);
    } else {
      PrettyItemLines(items[1..], level);
      NextLine(inner, text, PrettyItems(items[1..], level + 1), outer,
               LaidRest(ItemsAsPrinted(items[1..]), level, PrettyPad));
    }
  }

  lemma {:induction false} PrettyEntryLines(entries: seq<Entry>, level: nat)
    requires entries != []
    ensures PrettyEntries(entries, level + 1) + Indent(level)
         == Indent(level + 1) + LaidEntryRest(EntriesAsPrinted(entries), level, PrettyPad)
    decreases entries, 0
  {
    hide Pretty;
    hide Laid;
    hide Indent;
    hide AsPrinted;
    TailsAsPrinted([], entries);
    var inner, outer := Indent(level + 1), Indent(level);
    var key, value := entries[0].key, Laid(AsPrinted(entries[0].value), level + 1, PrettyPad);
    var text := "\"" + key + "\"" + [] + ":" + " " + value;
    PrettyIsLaid(entries[0].value, |entries| == 1, level + 1);
    assert PrettyPad(level, BeforeColon) == [];
    if |entries| == 1 {
      LabelledLine(inner, key, value, "\n");
      LastLine(inner, text, outer);
    } else {
      PrettyEntryLines(entries[1..], level);
      LabelledLine(inner, key, value, ",\n");
      NextLine(inner, text, PrettyEntries(entries[1..], level + 1), outer,
               LaidEntryRest(EntriesAsPrinted(entries[1..]), level, PrettyPad));
    }
  }

  lemma LabelledLine(inner: Bytes, key: Bytes, value: Bytes, end: Bytes)
    ensures inner + "\"" + key + "\": " + (value + end)
         == inner + ("\"" + key + "\"" + [] + ":" + " " + value + end)
  {
  }

  lemma LastLine(inner: Bytes, text: Bytes, outer: Bytes)
    ensures inner + (text + "\n") + [] + outer == inner + (text + ("\n" + outer))
  {
  }

  lemma NextLine(inner: Bytes, text: Bytes, body: Bytes, outer: Bytes, rest: Bytes)
    requires body + outer == inner + rest
    ensures inner + (text + ",\n") + body + outer == inner + (text + ([] + "," + ("\n" + inner) + rest))
  {
    assert inner + (text + ",\n") + body + outer == inner + (text + ",\n") + (body + outer);
  }
}
