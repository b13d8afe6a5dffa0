/** The printers of src/list.c, src/map.c, src/print.c and src/str.c, writing into a caller's buffer. */
module JsonPrint {
  import opened Bytes
  import opened Buffer
  import opened Values
  import opened JsonText
  import Cstr
  import Numbers
  import ReprText

  // ---- compact -------------------------------------------------------------------------

  /** `repr`: the class of the object decides. `snprintf` keeps the contract of `cstr_ncopy`. */
  method ReprTo(v: V, dest: array<byte>, off: nat, size: nat) returns (len: nat)
    requires Fits(dest.Length, off, size)
    modifies dest
    ensures len == |Compact(v)|
    ensures dest[..] == Put(old(dest[..]), off, size, Compact(v))
    decreases v, 1
  {
    match v
    case List(items) =>
      len := ListToCstr(items, dest, off, size);
    case Map(entries) =>
      len := MapToCstr(entries, dest, off, size);
    case Str(text) =>
      len := Cstr.CstrRepr(dest, off, text, size);
    case Int(n) =>
      len := CstrNcopy(dest, off, Numbers.Dec(n), size);
    case Bool(b) =>
      len := CstrNcopy(dest, off, if b then "true" else "false", size);
    case Null =>
      len := CstrNcopy(dest, off, "null", size);
    case Double(lexeme) =>
      len := CstrNcopy(dest, off, DOUBLE_TEXT(lexeme), size);
  }

  /** `len += repr(obj, dest + len, max(0, size - len))` */
  method AppendRepr(dest: array<byte>, off: nat, v: V, size: nat, len: nat, ghost was: Bytes, ghost done: Bytes)
    returns (newLen: nat)
    requires |was| == dest.Length && Fits(|was|, off, size)
    requires len == |done| && dest[..] == Put(was, off, size, done)
    modifies dest
    ensures newLen == |done + Compact(v)|
    ensures dest[..] == Put(was, off, size, done + Compact(v))
    decreases v, 2
  {
    hide Put;
    hide Compact;
    PutPut(was, off, size, done, Compact(v));
    var l := ReprTo(v, dest, off + len, Room(size, len));
    return len + l;
  }

  method ListToCstr(items: seq<V>, dest: array<byte>, off: nat, size: nat) returns (len: nat)
    requires Fits(dest.Length, off, size)
    modifies dest
    ensures len == |"[" + CompactItems(items) + "]"|
    ensures dest[..] == Put(old(dest[..]), off, size, "[" + CompactItems(items) + "]")
    decreases items, 0
  {
    hide Put;
    hide Compact;
    ghost var was := dest[..];
    ghost var done: Bytes := "[";
    len := CstrNcopy(dest, off, "[", size);
    var i := 0;
    assert items[0..] == items;
    while i < |items|
      invariant i <= |items| && len == |done|
      invariant dest[..] == Put(was, off, size, done)
      invariant done + CompactItems(items[i..]) == "[" + CompactItems(items)
    {
      ghost var text, comma: Bytes := Compact(items[i]), if i + 1 < |items| then ", " else [];
      ItemsAhead(items, i, done, text, comma);
      len := AppendRepr(dest, off, items[i], size, len, was, done);
      if i + 1 < |items| {
        len := Append(dest, off, ", ", size, len, was, done + text);
      } else {
        assert done + text + [] == done + text;
      }
      done := done + text + comma;
      i := i + 1;
    }
    assert done == "[" + CompactItems(items);
    len := Append(dest, off, "]", size, len, was, done);
  }

  lemma ItemsAhead(items: seq<V>, i: nat, done: Bytes, text: Bytes, comma: Bytes)
    requires i < |items| && text == Compact(items[i]) && comma == if i + 1 < |items| then ", " else []
    ensures done + CompactItems(items[i..]) == done + text + comma + CompactItems(items[i + 1..])
  {
    assert items[i..][0] == items[i] && items[i..][1..] == items[i + 1..];
    assert CompactItems(items[i..]) == text + comma + CompactItems(items[i + 1..]);
    Assoc(done, text + comma, CompactItems(items[i + 1..]));
    Assoc(done, text, comma);
  }

  /** The format "\"%s\": " */
  function Tag(key: CString): CString {
    "\"" + key + "\": "
  }

  method MapToCstr(entries: seq<Entry>, dest: array<byte>, off: nat, size: nat) returns (len: nat)
    requires Fits(dest.Length, off, size)
    modifies dest
    ensures len == |"{" + CompactEntries(entries) + "}"|
    ensures dest[..] == Put(old(dest[..]), off, size, "{" + CompactEntries(entries) + "}")
    decreases entries, 0
  {
    hide Put;
    hide Compact;
    ghost var was := dest[..];
    ghost var done: Bytes := "{";
    len := CstrNcopy(dest, off, "{", size);
    var i := 0;
    assert entries[0..] == entries;
    while i < |entries|
      invariant i <= |entries| && len == |done|
      invariant dest[..] == Put(was, off, size, done)
      invariant done + CompactEntries(entries[i..]) == "{" + CompactEntries(entries)
    {
      var tag := Tag(entries[i].key);
      ghost var text, comma: Bytes := Compact(entries[i].value), if i + 1 < |entries| then ", " else [];
      EntriesAhead(entries, i, done, tag, text, comma);
      len := Append(dest, off, tag, size, len, was, done);
      len := AppendRepr(dest, off, entries[i].value, size, len, was, done + tag);
      if i + 1 < |entries| {
        len := Append(dest, off, ", ", size, len, was, done + tag + text);
      } else {
        assert done + tag + text + [] == done + tag + text;
      }
      done := done + tag + text + comma;
      i := i + 1;
    }
    assert done == "{" + CompactEntries(entries);
    len := Append(dest, off, "}", size, len, was, done);
  }

  lemma EntriesAhead(entries: seq<Entry>, i: nat, done: Bytes, tag: Bytes, text: Bytes, comma: Bytes)
    requires i < |entries| && text == Compact(entries[i].value)
    requires tag == Tag(entries[i].key) && comma == if i + 1 < |entries| then ", " else []
    ensures done + CompactEntries(entries[i..]) == done + tag + text + comma + CompactEntries(entries[i + 1..])
  {
    assert entries[i..][0] == entries[i] && entries[i..][1..] == entries[i + 1..];
    assert CompactEntries(entries[i..]) == tag + text + comma + CompactEntries(entries[i + 1..]);
    Assoc(done, tag + text + comma, CompactEntries(entries[i + 1..]));
    Assoc(done, tag + text, comma);
    Assoc(done, tag, text);
  }

  /** What `to_str` makes of an object: strings up to their first NUL, "None" for none. */
  function ToText(v: V): Bytes {
    match v
    case Str(text) => CStringOf(text)
    case Null => "None"
    case _ => Compact(v)
  }

  /** `to_str` differs from `repr` for strings, of which it gives the text itself, and for none. */
  lemma ToTextIs(v: V)
    ensures ToText(v) == Compact(v) <==> !v.Str? && !v.Null?
    ensures v.Null? ==> ToText(v) == "None" && Compact(v) == "null"
    ensures v.Str? ==> ToText(v) <= v.text && NulFree(ToText(v))
    ensures v.Str? ==> if NulFree(v.text) then ToText(v) == v.text else ToText(v) + [NUL] <= v.text
  {
    if v.Str? {
      var text := CStringOf(v.text);
      ReprText.BodyLonger(v.text);
      assert |Compact(v)| > |text|;
      if |text| < |v.text| {
        assert v.text[|text|] == NUL;
        assert text + [NUL] == v.text[..|text| + 1];
      } else {
        assert text == v.text;
      }
    } else if v.Null? {
      assert ToText(v)[0] != Compact(v)[0];
    }
  }

  /** `to_cstr` of anything but a string */
  method ToCstr(v: V, dest: array<byte>, off: nat, size: nat) returns (len: nat)
    requires !v.Str? && Fits(dest.Length, off, size)
    modifies dest
    ensures len == |ToText(v)|
    ensures dest[..] == Put(old(dest[..]), off, size, ToText(v))
  {
    if v.Null? {
      len := CstrNcopy(dest, off, "None", size);
    } else {
      len := ReprTo(v, dest, off, size);
    }
  }

  /**
   * `to_str`: strings are copied; for all else it measures with a buffer of size 0, then prints
   * into one that is a byte larger. The text is never truncated.
   */
  method ToStr(v: V) returns (cstr: array<byte>)
    ensures fresh(cstr) && cstr[..] == ToText(v) + [NUL]
  {
    hide Put;
    if v.Str? {
      var text := CStringOf(v.text);
      cstr := new byte[|text| + 1](i requires 0 <= i < |text| + 1 => if i < |text| then text[i] else NUL);
    } else {
      var none := new byte[0];
      var len := ToCstr(v, none, 0, 0);
      cstr := new byte[len + 1];
      ghost var was := cstr[..];
      var _ := ToCstr(v, cstr, 0, len + 1);
      PutWhole(was, ToText(v));
    }
  }

  /** A buffer of the measured size holds the text and its terminator. */
  lemma PutWhole(buf: Bytes, text: Bytes)
    requires |buf| == |text| + 1
    ensures Put(buf, 0, |buf|, text) == text + [NUL]
  {
  }

  // ---- pretty text in pieces -----------------------------------------------------------

  /** What is written at once: a token, as `cstr_ncopy` does, or an indentation. */
  datatype Piece = Token(token: Bytes) | Blank(width: nat)

  function PieceText(p: Piece): Bytes {
    match p
    case Token(token) => token
    case Blank(width) => Spaces(width)
  }

  function Flat(ps: seq<Piece>): Bytes {
    if ps == [] then [] else PieceText(ps[0]) + Flat(ps[1..])
  }

  /** What `obj_pretty_cstr` writes, in order. */
  function Pieces(v: V, last: bool, level: nat): seq<Piece>
    decreases v, 1
  {
    match v
    case List(items) =>
      [Token("[\n")] + ItemPieces(items, level + 1) + [Blank(2 * level), Token(if last then "]\n" else "],\n")]
    case Map(entries) =>
      [Token("{\n")] + EntryPieces(entries, level + 1) + [Blank(2 * level), Token(if last then "}\n" else "},\n")]
    case _ => [Token(Primitive(v)), Token(if last then "\n" else ",\n")]
  }

  function ItemPieces(items: seq<V>, level: nat): seq<Piece>
    decreases items, 0
  {
    if items == [] then []
    else [Blank(2 * level)] + Pieces(items[0], |items| == 1, level) + ItemPieces(items[1..], level)
  }

  function EntryPieces(entries: seq<Entry>, level: nat): seq<Piece>
    decreases entries, 0
  {
    if entries == [] then []
    else
      [Blank(2 * level), Token(Tag(entries[0].key))] + Pieces(entries[0].value, |entries| == 1, level)
      + EntryPieces(entries[1..], level)
  }

  lemma {:induction false} FlatAppend(a: seq<Piece>, b: seq<Piece>)
    ensures Flat(a + b) == Flat(a) + Flat(b)
  {
    hide PieceText;
    if a == [] {
      assert a + b == b;
    } else {
      FlatAppend(a[1..], b);
      assert (a + b)[1..] == a[1..] + b;
      Assoc(PieceText(a[0]), Flat(a[1..]), Flat(b));
    }
  }

  lemma FlatOne(p: Piece)
    ensures Flat([p]) == PieceText(p)
  {
    assert [p][1..] == [];
  }

  lemma FlatTwo(p: Piece, q: Piece)
    ensures Flat([p, q]) == PieceText(p) + PieceText(q)
  {
    FlatOne(q);
    assert [p, q][1..] == [q];
  }

  /** The pieces are the pretty text. */
  lemma {:induction false} PiecesText(v: V, last: bool, level: nat)
    ensures Flat(Pieces(v, last, level)) == Pretty(v, last, level)
    decreases v, 1
  {
    hide Flat;
    match v
    case List(items) =>
      ItemsText(items, level + 1);
      ListText(items, last, level);
      FlatThree("[\n", ItemPieces(items, level + 1), 2 * level, if last then "]\n" else "],\n");
    case Map(entries) =>
      EntriesText(entries, level + 1);
      MapText(entries, last, level);
      FlatThree("{\n", EntryPieces(entries, level + 1), 2 * level, if last then "}\n" else "},\n");
    case _ =>
      FlatTwo(Token(Primitive(v)), Token(if last then "\n" else ",\n"));
  }

  lemma FlatThree(open: Bytes, body: seq<Piece>, width: nat, close: Bytes)
    ensures Flat([Token(open)] + body + [Blank(width), Token(close)]) == open + Flat(body) + Spaces(width) + close
  {
    FlatAppend([Token(open)] + body, [Blank(width), Token(close)]);
    FlatAppend([Token(open)], body);
    FlatOne(Token(open));
    FlatTwo(Blank(width), Token(close));
    hide Flat;
    Assoc(open + Flat(body), Spaces(width), close);
  }

  lemma {:induction false} ItemsText(items: seq<V>, level: nat)
    ensures Flat(ItemPieces(items, level)) == PrettyItems(items, level)
    decreases items, 0
  {
    if items != [] {
      var first, rest := Pieces(items[0], |items| == 1, level), ItemPieces(items[1..], level);
      PiecesText(items[0], |items| == 1, level);
      ItemsText(items[1..], level);
      FlatAppend([Blank(2 * level)] + first, rest);
      FlatAppend([Blank(2 * level)], first);
      FlatOne(Blank(2 * level));
      hide Flat;
      hide Pieces;
      hide Pretty;
    }
  }

  lemma {:induction false} EntriesText(entries: seq<Entry>, level: nat)
    ensures Flat(EntryPieces(entries, level)) == PrettyEntries(entries, level)
    decreases entries, 0
  {
    if entries != [] {
      var front := [Blank(2 * level), Token(Tag(entries[0].key))];
      var first := Pieces(entries[0].value, |entries| == 1, level);
      var text, rest := Pretty(entries[0].value, |entries| == 1, level), EntryPieces(entries[1..], level);
      PiecesText(entries[0].value, |entries| == 1, level);
      EntriesText(entries[1..], level);
      FlatAppend(front + first, rest);
      FlatAppend(front, first);
      FlatTwo(front[0], front[1]);
      hide Flat;
      hide Pieces;
      hide Pretty;
      LabelText(Indent(level), entries[0].key, text);
    }
  }

  lemma LabelText(blank: Bytes, key: CString, text: Bytes)
    ensures blank + "\"" + key + "\": " + text == blank + Tag(key) + text
  {
    Assoc(blank, "\"" + key, "\": ");
    Assoc(blank, "\"", key);
  }

  lemma ListText(items: seq<V>, last: bool, level: nat)
    ensures Pretty(List(items), last, level)
         == "[\n" + PrettyItems(items, level + 1) + Indent(level) + if last then "]\n" else "],\n"
  {
    Assoc("[\n" + PrettyItems(items, level + 1) + Indent(level), "]", if last then "\n" else ",\n");
    assert "]" + "\n" == "]\n" && "]" + ",\n" == "],\n";
  }

  lemma MapText(entries: seq<Entry>, last: bool, level: nat)
    ensures Pretty(Map(entries), last, level)
         == "{\n" + PrettyEntries(entries, level + 1) + Indent(level) + if last then "}\n" else "},\n"
  {
    Assoc("{\n" + PrettyEntries(entries, level + 1) + Indent(level), "}", if last then "\n" else ",\n");
    assert "}" + "\n" == "}\n" && "}" + ",\n" == "},\n";
  }

  // ---- where pretty text is cut off ----------------------------------------------------

  /** How many bytes of the pieces are left when there is room for `room`: an indentation is written whole or not. */
  function Kept(ps: seq<Piece>, room: nat): (n: nat)
    ensures n <= room && n <= |Flat(ps)|
  {
    if ps == [] then 0
    else
      var w := |PieceText(ps[0])|;
      if w <= room then w + Kept(ps[1..], room - w)
      else if ps[0].Blank? then 0
      else room
  }

  function Start(ps: seq<Piece>, i: nat): nat
    requires i <= |ps|
  {
    |Flat(ps[..i])|
  }

  /** The i-th piece is an indentation that begins in front of position `p` and ends behind it. */
  predicate Splits(ps: seq<Piece>, i: nat, p: nat) {
    i < |ps| && ps[i].Blank? && Start(ps, i) < p < Start(ps, i) + ps[i].width
  }

  lemma StartBehind(ps: seq<Piece>, i: nat)
    requires i < |ps|
    ensures Start(ps, i + 1) == |PieceText(ps[0])| + Start(ps[1..], i)
  {
    assert ps[..i + 1][1..] == ps[1..][..i];
  }

  /** Some indentation lies across the position. */
  ghost predicate Crossed(ps: seq<Piece>, p: nat) {
    exists i: nat :: Splits(ps, i, p)
  }

  /** Main result: cut-off text reaches up to the room, or up to the indentation that the room would split. */
  lemma {:induction false} KeptIs(ps: seq<Piece>, room: nat)
    ensures forall i: nat :: Splits(ps, i, room) ==> Kept(ps, room) == Start(ps, i)
    ensures !Crossed(ps, room) ==> Kept(ps, room) == Min(room, |Flat(ps)|)
  {
    if ps != [] {
      var w, rest := |PieceText(ps[0])|, ps[1..];
      FlatLength(ps);
      KeptFirst(ps, room);
      if w <= room {
        KeptIs(rest, room - w);
        SplitsBehind(ps, w, room, room - w);
      } else {
        SplitsFront(ps, w, room);
      }
      hide Kept;
      hide Splits;
      hide Flat;
      hide PieceText;
    }
  }

  lemma KeptFirst(ps: seq<Piece>, room: nat)
    requires ps != []
    ensures var w := |PieceText(ps[0])|;
            Kept(ps, room) ==
            if w <= room then w + Kept(ps[1..], room - w) else if ps[0].Blank? then 0 else room
  {
  }

  lemma FlatLength(ps: seq<Piece>)
    requires ps != []
    ensures |Flat(ps)| == |PieceText(ps[0])| + |Flat(ps[1..])|
  {
  }

  /** When the first piece fits, what lies across the end of the room is behind it. */
  lemma SplitsBehind(ps: seq<Piece>, w: nat, room: nat, m: nat)
    requires ps != [] && w == |PieceText(ps[0])| && room == w + m
    ensures forall i: nat :: Splits(ps[1..], i, m) ==>
              Splits(ps, i + 1, room) && Start(ps, i + 1) == w + Start(ps[1..], i)
    ensures forall i: nat :: Splits(ps, i, room) ==>
              i > 0 && Splits(ps[1..], i - 1, m) && Start(ps, i) == w + Start(ps[1..], i - 1)
    ensures Crossed(ps, room) <==> Crossed(ps[1..], m)
  {
    var rest := ps[1..];
    forall i: nat | i < |rest|
      ensures Start(ps, i + 1) == w + Start(rest, i)
    {
      StartBehind(ps, i);
    }
    forall i: nat | Splits(rest, i, m)
      ensures Splits(ps, i + 1, room) && Start(ps, i + 1) == w + Start(rest, i)
    {
      StartBehind(ps, i);
    }
    forall i: nat | Splits(ps, i, room)
      ensures i > 0 && Splits(rest, i - 1, m) && Start(ps, i) == w + Start(rest, i - 1)
    {
      StartNone(ps);
      if i > 0 {
        StartBehind(ps, i - 1);
      }
    }
  }

  lemma StartNone(ps: seq<Piece>)
    ensures Start(ps, 0) == 0
  {
  }

  /** When it does not fit, only the first piece can lie across the end of the room. */
  lemma SplitsFront(ps: seq<Piece>, w: nat, room: nat)
    requires ps != [] && w == |PieceText(ps[0])| > room
    ensures forall i: nat :: Splits(ps, i, room) ==> i == 0 && Start(ps, i) == 0 && ps[0].Blank?
    ensures ps[0].Blank? && room > 0 ==> Crossed(ps, room)
  {
    StartNone(ps);
    forall i: nat | 0 < i <= |ps|
      ensures Start(ps, i) >= w
    {
      StartBehind(ps, i - 1);
    }
    hide Start;
    if ps[0].Blank? && room > 0 {
      assert Splits(ps, 0, room);
    }
  }

  /** The buffer behind cut-off pieces: what is kept, terminated. */
  ghost function CutOff(was: Bytes, off: nat, size: nat, ps: seq<Piece>): Bytes
    requires Fits(|was|, off, size)
  {
    if size == 0 then was else Put(was, off, Kept(ps, size - 1) + 1, Flat(ps))
  }

  /** Main result: cut-off text is the text cut at the end of the room exactly when no indentation lies across it. */
  lemma CutOffIff(was: Bytes, off: nat, size: nat, ps: seq<Piece>)
    requires Fits(|was|, off, size) && size > 0
    ensures CutOff(was, off, size, ps) == Put(was, off, size, Flat(ps)) <==> !Crossed(ps, size - 1)
  {
    hide Kept;
    hide Splits;
    hide Start;
    hide Put;
    hide Flat;
    var room := size - 1;
    KeptIs(ps, room);
    if Crossed(ps, room) {
      var i: nat :| Splits(ps, i, room);
      BlankAt(ps, i, room);
      CutDiffers(was, off, size, Flat(ps), Start(ps, i));
    } else {
      PutClipped(was, off, size, Flat(ps));
    }
  }

  lemma PutClipped(was: Bytes, off: nat, size: nat, text: Bytes)
    requires Fits(|was|, off, size) && size > 0
    ensures Put(was, off, Min(size - 1, |text|) + 1, text) == Put(was, off, size, text)
  {
  }

  lemma CutDiffers(was: Bytes, off: nat, size: nat, text: Bytes, n: nat)
    requires Fits(|was|, off, size) && n < size - 1 && n < |text| && text[n] != NUL
    ensures Put(was, off, n + 1, text) != Put(was, off, size, text)
  {
    var a, b := Put(was, off, n + 1, text), Put(was, off, size, text);
    assert a[off + n] == NUL;
    assert b[off + n] == text[n];
  }

  /** An indentation across a position is inside the text and begins with a blank. */
  lemma BlankAt(ps: seq<Piece>, i: nat, p: nat)
    requires Splits(ps, i, p)
    ensures i < |ps| && Start(ps, i) < p && Start(ps, i) < |Flat(ps)| && Flat(ps)[Start(ps, i)] == ' '
  {
    assert ps == ps[..i] + ([ps[i]] + ps[i + 1..]);
    FlatAppend(ps[..i], [ps[i]] + ps[i + 1..]);
    FlatAppend([ps[i]], ps[i + 1..]);
    FlatOne(ps[i]);
    hide Flat;
    var t := Spaces(ps[i].width);
    assert t[0] == ' ';
  }

  /** A list that holds a null, in four bytes: its first line, and no blank although there is room for one. */
  lemma BlankMissing(was: Bytes)
    requires |was| == 4
    ensures Splits(Pieces(List([Null]), true, 0), 1, 3)
    ensures CutOff(was, 0, 4, Pieces(List([Null]), true, 0)) == "[\n" + [NUL] + was[3..]
    ensures Put(was, 0, 4, Pretty(List([Null]), true, 0)) == "[\n " + [NUL]
  {
    var ps := Pieces(List([Null]), true, 0);
    NullPieces(ps);
    var tail := ps[2..];
    assert ps == [Token("[\n"), Blank(2)] + tail;
    FlatAppend([Token("[\n"), Blank(2)], tail);
    FlatTwo(Token("[\n"), Blank(2));
    FlatOne(Token("[\n"));
    assert ps[..1] == [Token("[\n")];
    assert Start(ps, 1) == 2 && Splits(ps, 1, 3);
    KeptIs(ps, 3);
    PiecesText(List([Null]), true, 0);
    hide Kept;
    hide Pieces;
    hide Pretty;
    NullText(was, Flat(ps), Flat(tail));
  }

  lemma NullPieces(ps: seq<Piece>)
    requires ps == Pieces(List([Null]), true, 0)
    ensures |ps| > 2 && ps[0] == Token("[\n") && ps[1] == Blank(2)
  {
    assert ItemPieces([Null], 1)[0] == Blank(2);
  }

  lemma NullText(was: Bytes, text: Bytes, tail: Bytes)
    requires |was| == 4 && text == "[\n" + Spaces(2) + tail
    ensures Put(was, 0, 3, text) == "[\n" + [NUL] + was[3..]
    ensures Put(was, 0, 4, text) == "[\n " + [NUL]
  {
    assert Spaces(2) == "  ";
    assert text[..2] == "[\n" && text[..3] == "[\n ";
  }

  // ---- what the writes leave -----------------------------------------------------------

  /** Text laid over a buffer without a terminator: what `memset` does. */
  ghost function Overlay(buf: Bytes, off: nat, text: Bytes): (r: Bytes)
    requires off + |text| <= |buf|
    ensures |r| == |buf|
  {
    buf[..off] + text + buf[off + |text|..]
  }

  /** One write: an indentation only when it fits. */
  ghost function Written(buf: Bytes, off: nat, size: nat, p: Piece): (r: Bytes)
    requires Fits(|buf|, off, size)
    ensures |r| == |buf|
  {
    match p
    case Token(token) => Put(buf, off, size, token)
    case Blank(width) => if width < size then Overlay(buf, off, Spaces(width)) else buf
  }

  /** All writes, each behind the one before. */
  ghost function Shown(buf: Bytes, off: nat, size: nat, ps: seq<Piece>): (r: Bytes)
    requires Fits(|buf|, off, size)
    ensures |r| == |buf|
    decreases |ps|
  {
    if ps == [] then buf
    else
      var w := |PieceText(ps[0])|;
      Shown(Written(buf, off, size, ps[0]), off + w, Room(size, w), ps[1..])
  }

  lemma {:induction false} ShownAppend(buf: Bytes, off: nat, size: nat, a: seq<Piece>, b: seq<Piece>)
    requires Fits(|buf|, off, size)
    ensures var n := |Flat(a)|;
            && Fits(|buf|, off + n, Room(size, n))
            && Shown(buf, off, size, a + b) == Shown(Shown(buf, off, size, a), off + n, Room(size, n), b)
    decreases |a|
  {
    hide Written;
    if a == [] {
      assert a + b == b;
    } else {
      var w := |PieceText(a[0])|;
      assert (a + b)[1..] == a[1..] + b;
      ShownAppend(Written(buf, off, size, a[0]), off + w, Room(size, w), a[1..], b);
    }
  }

  lemma ShownOne(buf: Bytes, off: nat, size: nat, p: Piece)
    requires Fits(|buf|, off, size)
    ensures Shown(buf, off, size, [p]) == Written(buf, off, size, p)
  {
    assert [p][1..] == [];
  }

  /** Behind every indentation stands a token. */
  predicate Spaced(ps: seq<Piece>) {
    forall i :: 0 <= i < |ps| && ps[i].Blank? ==> i + 1 < |ps| && ps[i + 1].Token?
  }

  /** The buffer begins with `done`; the byte behind it does not matter. */
  ghost predicate Holds(was: Bytes, now: Bytes, off: nat, done: Bytes) {
    && |now| == |was| > off + |done|
    && now[..off + |done|] == was[..off] + done
    && now[off + |done| + 1..] == was[off + |done| + 1..]
  }

  lemma HoldsPut(was: Bytes, now: Bytes, off: nat, size: nat, done: Bytes, text: Bytes, n: nat)
    requires Fits(|was|, off, size) && |done| + n < size && n <= |text| && Holds(was, now, off, done)
    ensures Put(now, off + |done|, n + 1, text) == Put(was, off, |done| + n + 1, done + text)
  {
    hide Put;
    var e := off + |done|;
    PutOpen(now, e, n + 1, text);
    PutOpen(was, off, |done| + n + 1, done + text);
    assert (done + text)[..|done| + n] == done + text[..n];
    assert now[e + n + 1..] == now[e + 1..][n..] && was[e + n + 1..] == was[e + 1..][n..];
    Assoc(was[..off], done, text[..n]);
  }

  lemma PutHolds(was: Bytes, off: nat, size: nat, text: Bytes)
    requires Fits(|was|, off, size) && |text| < size
    ensures Holds(was, Put(was, off, size, text), off, text) && Put(was, off, size, text)[off + |text|] == NUL
    ensures Put(was, off, |text| + 1, text) == Put(was, off, size, text)
  {
    PutParts(was, off, size, text, off + |text| + 1);
    PutAll(was, off, size, text);
    RoomEnough(was, off, size, |text| + 1, text);
  }

  lemma RoomEnough(buf: Bytes, off: nat, size: nat, less: nat, text: Bytes)
    requires Fits(|buf|, off, size) && |text| < less <= size
    ensures Put(buf, off, less, text) == Put(buf, off, size, text)
  {
  }

  lemma OverlayHolds(was: Bytes, now: Bytes, off: nat, size: nat, done: Bytes, blank: Bytes)
    requires Fits(|was|, off, size) && |done| + |blank| < size && Holds(was, now, off, done)
    ensures Holds(was, Overlay(now, off + |done|, blank), off, done + blank)
  {
    var e := off + |done|;
    var next := Overlay(now, e, blank);
    assert next[..e + |blank|] == now[..e] + blank;
    Assoc(was[..off], done, blank);
    assert next[e + |blank| + 1..] == now[e + |blank| + 1..];
    assert now[e + |blank| + 1..] == now[e + 1..][|blank|..] && was[e + |blank| + 1..] == was[e + 1..][|blank|..];
  }

  /** Without room nothing is written. */
  lemma {:induction false} ShownNothing(buf: Bytes, off: nat, ps: seq<Piece>)
    ensures Shown(buf, off, 0, ps) == buf
    decreases |ps|
  {
    if ps != [] {
      ShownNothing(buf, off + |PieceText(ps[0])|, ps[1..]);
    }
  }

  lemma SpacedTail(ps: seq<Piece>)
    requires ps != [] && Spaced(ps)
    ensures Spaced(ps[1..]) && (ps[0].Blank? ==> |ps| > 1 && ps[1].Token?)
  {
  }

  /** Writing the rest behind what is there already, cut off nowhere so far. */
  lemma {:induction false} ShownBehind(was: Bytes, now: Bytes, off: nat, size: nat, done: Bytes, ps: seq<Piece>)
    requires Fits(|was|, off, size) && |done| < size && Holds(was, now, off, done) && Spaced(ps)
    requires ps == [] || ps[0].Blank? ==> now[off + |done|] == NUL
    ensures Shown(now, off + |done|, size - |done|, ps)
         == Put(was, off, |done| + Kept(ps, size - 1 - |done|) + 1, done + Flat(ps))
    decreases |ps|
  {
    hide Put;
    hide Overlay;
    hide Holds;
    hide Spaced;
    var e, r := off + |done|, size - |done|;
    if ps == [] {
      StopsHere(was, now, off, size, done, []);
    } else {
      HoldsLength(was, now, off, done);
      var text, rest := PieceText(ps[0]), ps[1..];
      var next := Written(now, e, r, ps[0]);
      SpacedTail(ps);
      Assoc(done, text, Flat(rest));
      if |text| < r {
        FitsBehind(was, now, off, size, done, ps[0]);
        ShownBehind(was, next, off, size, done + text, rest);
      } else {
        ShownNothing(next, e + |text|, rest);
        if ps[0].Blank? {
          StopsHere(was, now, off, size, done, Flat(ps));
        } else {
          FullHere(was, now, off, size, done, text, Flat(rest));
        }
      }
    }
  }

  lemma HoldsLength(was: Bytes, now: Bytes, off: nat, done: Bytes)
    requires Holds(was, now, off, done)
    ensures |now| == |was| > off + |done|
  {
  }

  lemma StopsHere(was: Bytes, now: Bytes, off: nat, size: nat, done: Bytes, more: Bytes)
    requires Fits(|was|, off, size) && |done| < size && Holds(was, now, off, done) && now[off + |done|] == NUL
    ensures now == Put(was, off, |done| + 1, done + more)
  {
    var e := off + |done|;
    assert (done + more)[..|done|] == done;
    assert now == now[..e] + [now[e]] + now[e + 1..];
  }

  lemma FullHere(was: Bytes, now: Bytes, off: nat, size: nat, done: Bytes, text: Bytes, more: Bytes)
    requires Fits(|was|, off, size) && |done| < size <= |done| + |text| && Holds(was, now, off, done)
    ensures Put(now, off + |done|, size - |done|, text) == Put(was, off, size, done + (text + more))
  {
    hide Put;
    HoldsPut(was, now, off, size, done, text, size - |done| - 1);
    PutLonger(was, off, size, done + text, more);
    Assoc(done, text, more);
  }

  lemma PutLonger(was: Bytes, off: nat, size: nat, text: Bytes, more: Bytes)
    requires Fits(|was|, off, size) && size <= |text|
    ensures Put(was, off, size, text) == Put(was, off, size, text + more)
  {
    if size > 0 {
      assert (text + more)[..size - 1] == text[..size - 1];
    }
  }

  lemma FitsBehind(was: Bytes, now: Bytes, off: nat, size: nat, done: Bytes, p: Piece)
    requires Fits(|was|, off, size) && Holds(was, now, off, done) && |done| + |PieceText(p)| < size
    ensures |now| == |was|
    ensures var next := Written(now, off + |done|, size - |done|, p);
            && Holds(was, next, off, done + PieceText(p))
            && (p.Token? ==> next[off + |done + PieceText(p)|] == NUL)
  {
    hide Put;
    hide Overlay;
    if p.Token? {
      var e, r := off + |done|, size - |done|;
      HoldsPut(was, now, off, size, done, p.token, |p.token|);
      PutHolds(now, e, r, p.token);
      PutHolds(was, off, |done| + |p.token| + 1, done + p.token);
    } else {
      OverlayHolds(was, now, off, size, done, Spaces(p.width));
    }
  }

  /** Main result: what the writes leave is the text, cut off as `Kept` says. */
  lemma ShownIs(was: Bytes, off: nat, size: nat, ps: seq<Piece>)
    requires Fits(|was|, off, size) && Spaced(ps) && ps != [] && ps[0].Token?
    ensures Shown(was, off, size, ps) == CutOff(was, off, size, ps)
  {
    hide Shown;
    hide Put;
    hide Kept;
    hide Flat;
    hide Spaced;
    hide Holds;
    if size == 0 {
      ShownNothing(was, off, ps);
    } else {
      HoldsNothing(was, off);
      ShownBehind(was, was, off, size, [], ps);
      EmptyFront(Flat(ps));
    }
  }

  lemma HoldsNothing(was: Bytes, off: nat)
    requires off < |was|
    ensures Holds(was, was, off, [])
  {
    assert was[..off] + [] == was[..off];
  }

  lemma {:induction false} PiecesSpaced(v: V, last: bool, level: nat)
    ensures Spaced(Pieces(v, last, level)) && Pieces(v, last, level) != [] && Pieces(v, last, level)[0].Token?
    decreases v, 1
  {
    match v
    case List(items) => ItemsSpaced(items, level + 1);
    case Map(entries) => EntriesSpaced(entries, level + 1);
    case _ =>
  }

  lemma {:induction false} ItemsSpaced(items: seq<V>, level: nat)
    ensures Spaced(ItemPieces(items, level))
    decreases items, 0
  {
    if items != [] {
      PiecesSpaced(items[0], |items| == 1, level);
      ItemsSpaced(items[1..], level);
      hide Pieces;
    }
  }

  lemma {:induction false} EntriesSpaced(entries: seq<Entry>, level: nat)
    ensures Spaced(EntryPieces(entries, level))
    decreases entries, 0
  {
    if entries != [] {
      PiecesSpaced(entries[0].value, |entries| == 1, level);
      EntriesSpaced(entries[1..], level);
      hide Pieces;
    }
  }

  // ---- the printer ---------------------------------------------------------------------

  /** `indent_cstr`: the width in any case, the spaces only when there is room. */
  method IndentCstr(level: nat, dest: array<byte>, off: nat, size: nat) returns (len: nat)
    requires Fits(dest.Length, off, size)
    modifies dest
    ensures len == |Indent(level)|
    ensures dest[..] == if len < size then Overlay(old(dest[..]), off, Indent(level)) else old(dest[..])
  {
    hide Overlay;
    hide Spaces;
    ghost var was := dest[..];
    len := level * 2;
    if size > len {
      NothingLaid(was, off);
    }
    if level > 0 && size > len {
      for i := 0 to len
        invariant dest[..] == Overlay(was, off, Spaces(i))
      {
        OneMoreBlank(was, off, i);
        dest[off + i] := ' ';
      }
    }
  }

  lemma NothingLaid(buf: Bytes, off: nat)
    requires off <= |buf|
    ensures Overlay(buf, off, Spaces(0)) == buf
  {
  }

  lemma OneMoreBlank(buf: Bytes, off: nat, i: nat)
    requires off + i < |buf|
    ensures Overlay(buf, off, Spaces(i))[off + i := ' '] == Overlay(buf, off, Spaces(i + 1))
  {
    assert Spaces(i + 1) == Spaces(i) + [' '];
  }

  /** `obj_pretty_cstr` */
  method PrettyTo(v: V, last: bool, level: nat, dest: array<byte>, off: nat, size: nat) returns (len: nat)
    requires Fits(dest.Length, off, size)
    modifies dest
    ensures len == |Pretty(v, last, level)|
    ensures dest[..] == CutOff(old(dest[..]), off, size, Pieces(v, last, level))
    decreases v, 2
  {
    hide Shown;
    hide CutOff;
    hide Flat;
    hide Pieces;
    hide ItemPieces;
    hide EntryPieces;
    hide Pretty;
    hide Compact;
    hide Put;
    hide Spaced;
    ghost var was := dest[..];
    ghost var ps := Pieces(v, last, level);
    PiecesText(v, last, level);
    PiecesSpaced(v, last, level);
    ShownIs(was, off, size, ps);
    PiecesAre(v, last, level);
    if v.List? {
      len := PrettyListTo(v, level, dest, off, size);
      len := PrettyClose(if last then "]\n" else "],\n", level, dest, off, size, len, was,
                         [Token("[\n")] + ItemPieces(v.items, level + 1));
    } else if v.Map? {
      len := PrettyMapTo(v, level, dest, off, size);
      len := PrettyClose(if last then "}\n" else "},\n", level, dest, off, size, len, was,
                         [Token("{\n")] + EntryPieces(v.entries, level + 1));
    } else {
      len := ReprTo(v, dest, off, size);
      PrimitiveShown(was, off, size, v);
      len := WriteToken(if last then "\n" else ",\n", dest, off, size, len, was, [Token(Primitive(v))]);
      assert [Token(Primitive(v))] + [Token(if last then "\n" else ",\n")] == ps;
    }
  }

  lemma PiecesAre(v: V, last: bool, level: nat)
    ensures v.List? ==>
              Pieces(v, last, level) == [Token("[\n")] + ItemPieces(v.items, level + 1)
                                        + [Blank(2 * level), Token(if last then "]\n" else "],\n")]
    ensures v.Map? ==>
              Pieces(v, last, level) == [Token("{\n")] + EntryPieces(v.entries, level + 1)
                                        + [Blank(2 * level), Token(if last then "}\n" else "},\n")]
    ensures !v.List? && !v.Map? ==>
              Pieces(v, last, level) == [Token(Primitive(v)), Token(if last then "\n" else ",\n")]
  {
  }

  lemma PrimitiveShown(was: Bytes, off: nat, size: nat, v: V)
    requires Fits(|was|, off, size) && !v.List? && !v.Map?
    ensures Compact(v) == Primitive(v) == Flat([Token(Primitive(v))])
    ensures Put(was, off, size, Compact(v)) == Shown(was, off, size, [Token(Primitive(v))])
  {
    hide Put;
    FlatOne(Token(Primitive(v)));
    ShownOne(was, off, size, Token(Primitive(v)));
  }

  /** The opening line of a list and its elements. */
  method PrettyListTo(v: V, level: nat, dest: array<byte>, off: nat, size: nat) returns (len: nat)
    requires v.List? && Fits(dest.Length, off, size)
    modifies dest
    ensures len == |Flat([Token("[\n")] + ItemPieces(v.items, level + 1))|
    ensures dest[..] == Shown(old(dest[..]), off, size, [Token("[\n")] + ItemPieces(v.items, level + 1))
    decreases v, 1
  {
    hide Shown;
    hide CutOff;
    hide Flat;
    hide Pieces;
    hide ItemPieces;
    hide EntryPieces;
    hide Pretty;
    hide Compact;
    hide Put;
    hide Spaced;
    ghost var was := dest[..];
    ghost var done: seq<Piece> := [];
    NothingShown(was, off, size);
    len := WriteToken("[\n", dest, off, size, 0, was, []);
    done := [Token("[\n")];
    assert [] + done == done;
    var i := 0;
    assert v.items[0..] == v.items;
    while i < |v.items|
      invariant i <= |v.items| && len == |Flat(done)|
      invariant dest[..] == Shown(was, off, size, done)
      invariant done + ItemPieces(v.items[i..], level + 1) == [Token("[\n")] + ItemPieces(v.items, level + 1)
    {
      var last := i + 1 == |v.items|;
      ItemAhead(v.items, level + 1, i, done);
      len := WriteBlank(level + 1, dest, off, size, len, was, done);
      len := WriteValue(v.items[i], last, level + 1, dest, off, size, len, was, done + [Blank(2 * (level + 1))]);
      done := done + [Blank(2 * (level + 1))] + Pieces(v.items[i], last, level + 1);
      i := i + 1;
    }
    NoneAhead(level + 1);
    assert v.items[i..] == [];
    assert done + [] == done;
  }

  /** The opening line of a map and its entries. */
  method PrettyMapTo(v: V, level: nat, dest: array<byte>, off: nat, size: nat) returns (len: nat)
    requires v.Map? && Fits(dest.Length, off, size)
    modifies dest
    ensures len == |Flat([Token("{\n")] + EntryPieces(v.entries, level + 1))|
    ensures dest[..] == Shown(old(dest[..]), off, size, [Token("{\n")] + EntryPieces(v.entries, level + 1))
    decreases v, 1
  {
    hide Shown;
    hide CutOff;
    hide Flat;
    hide Pieces;
    hide ItemPieces;
    hide EntryPieces;
    hide Pretty;
    hide Compact;
    hide Put;
    hide Spaced;
    ghost var was := dest[..];
    ghost var done: seq<Piece> := [];
    NothingShown(was, off, size);
    len := WriteToken("{\n", dest, off, size, 0, was, []);
    done := [Token("{\n")];
    assert [] + done == done;
    var i := 0;
    assert v.entries[0..] == v.entries;
    while i < |v.entries|
      invariant i <= |v.entries| && len == |Flat(done)|
      invariant dest[..] == Shown(was, off, size, done)
      invariant done + EntryPieces(v.entries[i..], level + 1) == [Token("{\n")] + EntryPieces(v.entries, level + 1)
    {
      var tag, value, last := Tag(v.entries[i].key), v.entries[i].value, i + 1 == |v.entries|;
      ghost var blank := Blank(2 * (level + 1));
      EntryAhead(v.entries, level + 1, i, done);
      len := WriteBlank(level + 1, dest, off, size, len, was, done);
      len := WriteToken(tag, dest, off, size, len, was, done + [blank]);
      len := WriteValue(value, last, level + 1, dest, off, size, len, was, done + [blank] + [Token(tag)]);
      done := done + [blank] + [Token(tag)] + Pieces(value, last, level + 1);
      i := i + 1;
    }
    NoneAhead(level + 1);
    assert v.entries[i..] == [];
    assert done + [] == done;
  }

  lemma NothingShown(was: Bytes, off: nat, size: nat)
    requires Fits(|was|, off, size)
    ensures Shown(was, off, size, []) == was && Flat([]) == []
  {
  }

  lemma NoneAhead(level: nat)
    ensures ItemPieces([], level) == [] && EntryPieces([], level) == []
  {
  }

  lemma ItemAhead(items: seq<V>, level: nat, i: nat, done: seq<Piece>)
    requires i < |items|
    ensures var next := done + [Blank(2 * level)] + Pieces(items[i], i + 1 == |items|, level);
            next + ItemPieces(items[i + 1..], level) == done + ItemPieces(items[i..], level)
  {
    var ps, rest := Pieces(items[i], i + 1 == |items|, level), ItemPieces(items[i + 1..], level);
    assert items[i..][0] == items[i] && items[i..][1..] == items[i + 1..];
    assert ItemPieces(items[i..], level) == [Blank(2 * level)] + ps + rest;
    hide *;
    Assoc(done, [Blank(2 * level)] + ps, rest);
    Assoc(done, [Blank(2 * level)], ps);
  }

  lemma EntryAhead(entries: seq<Entry>, level: nat, i: nat, done: seq<Piece>)
    requires i < |entries|
    ensures var next := done + [Blank(2 * level)] + [Token(Tag(entries[i].key))]
                        + Pieces(entries[i].value, i + 1 == |entries|, level);
            next + EntryPieces(entries[i + 1..], level) == done + EntryPieces(entries[i..], level)
  {
    var tag := Tag(entries[i].key);
    var ps, rest := Pieces(entries[i].value, i + 1 == |entries|, level), EntryPieces(entries[i + 1..], level);
    assert entries[i..][0] == entries[i] && entries[i..][1..] == entries[i + 1..];
    assert EntryPieces(entries[i..], level) == [Blank(2 * level), Token(tag)] + ps + rest;
    hide *;
    Assoc(done, [Blank(2 * level), Token(tag)] + ps, rest);
    Assoc(done, [Blank(2 * level), Token(tag)], ps);
    assert done + [Blank(2 * level)] + [Token(tag)] == done + [Blank(2 * level), Token(tag)];
  }

  /** `len += cstr_ncopy(cstr + len, text, max(0, size - len))` behind what was written before. */
  method WriteToken(text: CString, dest: array<byte>, off: nat, size: nat, len: nat,
                    ghost was: Bytes, ghost done: seq<Piece>) returns (newLen: nat)
    requires |was| == dest.Length && Fits(|was|, off, size)
    requires len == |Flat(done)| && dest[..] == Shown(was, off, size, done)
    modifies dest
    ensures newLen == |Flat(done + [Token(text)])|
    ensures dest[..] == Shown(was, off, size, done + [Token(text)])
  {
    hide Put;
    hide Shown;
    hide Flat;
    WriteBehind(was, off, size, done, Token(text));
    var l := CstrNcopy(dest, off + len, text, Room(size, len));
    return len + l;
  }

  method WriteBlank(level: nat, dest: array<byte>, off: nat, size: nat, len: nat,
                    ghost was: Bytes, ghost done: seq<Piece>) returns (newLen: nat)
    requires |was| == dest.Length && Fits(|was|, off, size)
    requires len == |Flat(done)| && dest[..] == Shown(was, off, size, done)
    modifies dest
    ensures newLen == |Flat(done + [Blank(2 * level)])|
    ensures dest[..] == Shown(was, off, size, done + [Blank(2 * level)])
  {
    hide Overlay;
    hide Shown;
    hide Flat;
    WriteBehind(was, off, size, done, Blank(2 * level));
    var l := IndentCstr(level, dest, off + len, Room(size, len));
    return len + l;
  }

  lemma WriteBehind(was: Bytes, off: nat, size: nat, done: seq<Piece>, p: Piece)
    requires Fits(|was|, off, size)
    ensures var n := |Flat(done)|;
            && Fits(|was|, off + n, Room(size, n))
            && |Flat(done + [p])| == n + |PieceText(p)|
            && Shown(was, off, size, done + [p]) == Written(Shown(was, off, size, done), off + n, Room(size, n), p)
  {
    hide Shown;
    hide Written;
    ShownAppend(was, off, size, done, [p]);
    ShownOne(Shown(was, off, size, done), off + |Flat(done)|, Room(size, |Flat(done)|), p);
    FlatAppend(done, [p]);
    FlatOne(p);
  }

  /** The value behind what was written before. */
  method WriteValue(v: V, last: bool, level: nat, dest: array<byte>, off: nat, size: nat, len: nat,
                    ghost was: Bytes, ghost done: seq<Piece>) returns (newLen: nat)
    requires |was| == dest.Length && Fits(|was|, off, size)
    requires len == |Flat(done)| && dest[..] == Shown(was, off, size, done)
    modifies dest
    ensures newLen == |Flat(done + Pieces(v, last, level))|
    ensures dest[..] == Shown(was, off, size, done + Pieces(v, last, level))
    decreases v, 3
  {
    hide Shown;
    hide CutOff;
    hide Flat;
    hide Pieces;
    hide Pretty;
    ghost var ps := Pieces(v, last, level);
    ShownAppend(was, off, size, done, ps);
    FlatAppend(done, ps);
    PiecesText(v, last, level);
    PiecesSpaced(v, last, level);
    ShownIs(dest[..], off + len, Room(size, len), ps);
    var l := PrettyTo(v, last, level, dest, off + len, Room(size, len));
    return len + l;
  }

  /** The indentation and the bracket that close a container. */
  method PrettyClose(text: CString, level: nat, dest: array<byte>, off: nat, size: nat, len: nat,
                     ghost was: Bytes, ghost done: seq<Piece>) returns (newLen: nat)
    requires |was| == dest.Length && Fits(|was|, off, size)
    requires len == |Flat(done)| && dest[..] == Shown(was, off, size, done)
    modifies dest
    ensures newLen == |Flat(done + [Blank(2 * level), Token(text)])|
    ensures dest[..] == Shown(was, off, size, done + [Blank(2 * level), Token(text)])
  {
    hide Shown;
    hide Flat;
    newLen := WriteBlank(level, dest, off, size, len, was, done);
    newLen := WriteToken(text, dest, off, size, newLen, was, done + [Blank(2 * level)]);
    assert done + [Blank(2 * level)] + [Token(text)] == done + [Blank(2 * level), Token(text)];
  }

  /** `json_pretty_str`: measure, then print; the text is never truncated. */
  method PrettyStr(v: V) returns (cstr: array<byte>)
    ensures fresh(cstr) && cstr[..] == Pretty(v, true, 0) + [NUL]
  {
    hide Put;
    hide Pieces;
    hide Pretty;
    hide CutOff;
    var none := new byte[0];
    var len := PrettyTo(v, true, 0, none, 0, 0);
    cstr := new byte[len + 1];
    ghost var was := cstr[..];
    var _ := PrettyTo(v, true, 0, cstr, 0, len + 1);
    PiecesText(v, true, 0);
    NothingCut(was, 0, len + 1, Pieces(v, true, 0));
    PutWhole(was, Pretty(v, true, 0));
  }

  lemma {:induction false} AllKept(ps: seq<Piece>, room: nat)
    requires |Flat(ps)| <= room
    ensures Kept(ps, room) == |Flat(ps)|
  {
    if ps != [] {
      AllKept(ps[1..], room - |PieceText(ps[0])|);
    }
  }

  lemma NothingCut(was: Bytes, off: nat, size: nat, ps: seq<Piece>)
    requires Fits(|was|, off, size) && |Flat(ps)| < size
    ensures CutOff(was, off, size, ps) == Put(was, off, size, Flat(ps))
  {
    hide Put;
    hide Kept;
    hide Flat;
    AllKept(ps, size - 1);
    RoomEnough(was, off, size, |Flat(ps)| + 1, Flat(ps));
  }
}
