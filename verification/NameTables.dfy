/**
 Archives with tables of long names: the `//` sections of `lib/archive.cc`, and members that
 refer to a name by its offset in the last one.
 */
module NameTables {
  import opened Widths
  import opened IntegerText
  import opened Scan
  import opened Archive

  // What a section of an archive is: a table of names, a member that refers to the name at an
  // index of the table, or a member that has its name with it.
  datatype Part = Names(head: string, names: seq<string>) | Reference(index: nat, ae: Element) | Plain(ae: Element)

  // ----- The table ----------------------------------------------------------------------

  // A name that a table can hold.
  ghost predicate IsTableName(t: string) {
    forall k :: 0 <= k < |t| ==> t[k] != '/' && !IsSpace(t[k])
  }

  // The names, each with a slash and a newline behind it.
  function Table(names: seq<string>): string
    decreases |names|
  {
    if |names| == 0 then [] else names[0] + ['/', '\n'] + Table(names[1..])
  }

  // Where the name at an index starts.
  function Offset(names: seq<string>, index: nat): nat
    requires index <= |names|
    decreases index
  {
    if index == 0 then 0 else Offset(names, index - 1) + |names[index - 1]| + 2
  }

  lemma {:induction false} OffsetNext(names: seq<string>, index: nat)
    requires 0 < index <= |names|
    ensures Offset(names, index) == |names[0]| + 2 + Offset(names[1..], index - 1)
    decreases index
  {
    if index > 1 {
      OffsetNext(names, index - 1);
    }
  }

  // At its offset stands the name, with a slash behind it.
  lemma {:induction false} NameStands(names: seq<string>, index: nat)
    requires index < |names|
    ensures var t, i := Table(names), Offset(names, index);
            var j := i + |names[index]|;
            j < |t| && t[i..j] == names[index] && t[j] == '/'
    decreases index
  {
    var t, head, rest := Table(names), names[0] + ['/', '\n'], Table(names[1..]);
    assert t == head + rest;
    if index > 0 {
      OffsetNext(names, index);
      NameStands(names[1..], index - 1);
      var i := Offset(names[1..], index - 1);
      var j := i + |names[index]|;
      assert t[|head| + i..|head| + j] == rest[i..j];
      assert t[|head| + j] == rest[j];
    } else {
      assert t[..|names[0]|] == names[0];
    }
  }

  // So a reader of names finds it.
  lemma NameFound(names: seq<string>, index: nat)
    requires index < |names| && IsTableName(names[index])
    ensures var t, i := Table(names), Offset(names, index);
            i < |t| && t[i..NameLength(t, i)] == names[index]
  {
    hide Table, Offset, IsTableName;
    NameStands(names, index);
    var i := Offset(names, index);
    NameEnds(Table(names), i, i + |names[index]|);
  }

  lemma NameEnds(t: string, i: nat, j: nat)
    requires i <= j < |t| && t[j] == '/' && IsTableName(t[i..j])
    ensures NameLength(t, i) == j
  {
    hide NameLength, IsSpace;
    forall k | i <= k < j
      ensures t[k] != '/' && !IsSpace(t[k])
    {
      assert t[k] == t[i..j][k - i];
    }
  }

  // ----- An archive with tables ---------------------------------------------------------

  ghost predicate AreTableNames(names: seq<string>) {
    |Table(names)| < TWO31 && forall i :: 0 <= i < |names| ==> IsTableName(names[i])
  }

  ghost predicate IsTableHead(head: string) {
    |head| == 48 && head[0] == '/' && head[1] == '/' && IsSpace(head[2])
  }

  // A part that can stand behind the table of names. Members have the names they refer to.
  ghost predicate IsPart(p: Part, names: seq<string>) {
    match p
    case Names(head, ns) => IsTableHead(head) && AreTableNames(ns)
    case Reference(index, ae) => index < |names| && ae.name == names[index] && Fits(ae)
    case Plain(ae) => Fits(ae)
  }

  // The table that holds behind a part: a table replaces the one before it.
  function TableBehind(p: Part, names: seq<string>): seq<string> {
    if p.Names? then p.names else names
  }

  ghost predicate AreParts(ps: seq<Part>, names: seq<string>)
    decreases |ps|
  {
    |ps| > 0 ==> IsPart(ps[0], names) && AreParts(ps[1..], TableBehind(ps[0], names))
  }

  // What a part needs to be written.
  ghost predicate IsWritable(p: Part, names: seq<string>) {
    (!p.Names? ==> InRange(p.ae)) && (p.Reference? ==> p.index < |names|)
  }

  function TableHead(head: string, size: nat): string {
    head + (Column(Numeral(size, 10), 10) + ['`', '\n'])
  }

  function ReferenceField(offset: nat): string {
    ['/'] + Column(Numeral(offset, 10), 15)
  }

  function PartHead(p: Part, names: seq<string>): string
    requires IsWritable(p, names)
  {
    match p
    case Names(head, ns) => TableHead(head, |Table(ns)|)
    case Reference(index, ae) => ReferenceField(Offset(names, index)) + DataFields(ae, |ae.data|)
    case Plain(ae) => Header(ae)
  }

  function PartBody(p: Part): string {
    match p
    case Names(head, ns) => Table(ns)
    case Reference(index, ae) => ae.data
    case Plain(ae) => Body(ae)
  }

  function PartText(p: Part, names: seq<string>): string
    requires IsWritable(p, names)
  {
    PartHead(p, names) + PartBody(p) + Pad(|PartBody(p)|)
  }

  function PartsText(ps: seq<Part>, names: seq<string>): string
    requires AreParts(ps, names)
    decreases |ps|
  {
    if |ps| == 0 then [] else PartText(ps[0], names) + PartsText(ps[1..], TableBehind(ps[0], names))
  }

  // What comes of a part: nothing of a table, and members as they are stored.
  function PartElements(p: Part): seq<Element> {
    match p
    case Names(_, _) => []
    case Reference(index, ae) => [Stored(ae).(name := ae.name)]
    case Plain(ae) => [Stored(ae)]
  }

  function PartsElements(ps: seq<Part>): seq<Element>
    decreases |ps|
  {
    if |ps| == 0 then [] else PartElements(ps[0]) + PartsElements(ps[1..])
  }

  // ----- Reading it ---------------------------------------------------------------------

  lemma TableHeadRead(head: string, size: nat)
    requires IsTableHead(head) && size < TWO31
    ensures var h := TableHead(head, size);
            |h| == 60 && h[58] == '`' && h[59] == '\n' && IsNameSection(h) && SizeField(h) == size
  {
    hide ReadUint, Numeral, Column, IsSpace;
    WordLength(size);
    ReadColumn(size, 10, 10);
    var h, column := TableHead(head, size), Column(Numeral(size, 10), 10);
    assert h[48..58] == column;
  }

  lemma ReferenceRead(h: string, names: seq<string>, index: nat)
    requires |h| == 60 && index < |names| && AreTableNames(names)
    requires h[..16] == ReferenceField(Offset(names, index))
    ensures !IsNameSection(h) && LongLength(h) == 0 && HeaderName(h, Table(names)) == names[index]
  {
    hide ReadUint, Numeral, Column, Table, Offset, NameLength, IsTableName;
    var offset := Offset(names, index);
    NameFound(names, index);
    WordLength(offset);
    ReadColumn(offset, 10, 15);
    ReferenceStarts(h, offset);
  }

  lemma ColumnStarts(n: nat)
    ensures |Column(Numeral(n, 10), 15)| > 0 && '0' <= Column(Numeral(n, 10), 15)[0] <= '9'
  {
  }

  lemma MemberHead(index: nat, ae: Element, names: seq<string>)
    requires IsPart(Reference(index, ae), names) && AreTableNames(names)
    ensures var h := PartHead(Reference(index, ae), names);
            |h| == 60 && h[58] == '`' && h[59] == '\n' && !IsNameSection(h) && SizeField(h) == |ae.data|
            && LongLength(h) == 0 && ElementOf(h, Table(names), ae.data) == Stored(ae).(name := ae.name)
  {
    hide ReadUint, DataFields, ReferenceField, Table, Offset, Stored, NameLength, AreTableNames, IsNameSection;
    hide HeaderName, LongLength, SizeField, IsNameReference;
    var h := PartHead(Reference(index, ae), names);
    TableName(names, index);
    MemberNumbers(Offset(names, index), ae);
    ReferenceRead(h, names, index);
    StoredFields(ae);
  }

  lemma TableName(names: seq<string>, index: nat)
    requires AreTableNames(names) && index < |names|
    ensures Offset(names, index) < TWO31
  {
    hide Table, Offset, IsTableName, NameLength;
    NameFound(names, index);
  }

  lemma MemberNumbers(offset: nat, ae: Element)
    requires offset < TWO31 && Fits(ae)
    ensures var h := ReferenceField(offset) + DataFields(ae, |ae.data|);
            |h| == 60 && h[58] == '`' && h[59] == '\n' && h[..16] == ReferenceField(offset)
            && SizeField(h) == |ae.data| && ReadUint(h[16..28], 10) == Stored(ae).date
            && ReadUint(h[28..34], 10) == ae.uid && ReadUint(h[34..40], 10) == ae.gid
            && ReadUint(h[40..48], 8) == ae.mode
  {
    hide ReadUint, Numeral, DataFields, Stored, SizeField;
    WordLength(offset);
    FieldNumbers(ReferenceField(offset), ae, |ae.data|);
  }

  lemma StoredFields(ae: Element)
    ensures Stored(ae).(name := ae.name) == Element(ae.name, Stored(ae).date, ae.uid, ae.gid, ae.mode, ae.data)
  {
  }

  lemma PlainHead(ae: Element, names: seq<string>)
    requires Fits(ae)
    ensures var h := Header(ae);
            |h| == 60 && h[58] == '`' && h[59] == '\n' && !IsNameSection(h) && SizeField(h) == |Body(ae)|
            && LongLength(h) <= |Body(ae)| && ElementOf(h, Table(names), Body(ae)) == Stored(ae)
  {
    hide Table;
    HeaderRead(ae, Table(names));
  }

  // What a header says of its part.
  ghost predicate Describes(h: string, p: Part, names: seq<string>) {
    && |h| == 60 && h[58] == '`' && h[59] == '\n' && SizeField(h) == |PartBody(p)|
    && (p.Names? ==> IsNameSection(h))
    && (!p.Names? ==>
          !IsNameSection(h) && LongLength(h) <= |PartBody(p)|
          && [ElementOf(h, Table(names), PartBody(p))] == PartElements(p))
  }

  lemma PartDescribed(p: Part, names: seq<string>)
    requires IsPart(p, names) && AreTableNames(names)
    ensures IsWritable(p, names) && |PartHead(p, names)| == 60 && Describes(PartHead(p, names), p, names)
  {
    hide Header, Body, DataFields, TableHead, ReferenceField, Table, Offset, Stored, SizeField, LongLength;
    hide ElementOf, IsNameSection, IsTableHead, Entry;
    match p
    case Names(head, ns) =>
      TableHeadRead(head, |Table(ns)|);
    case Reference(index, ae) =>
      MemberHead(index, ae, names);
    case Plain(ae) =>
      PlainHead(ae, names);
  }

  lemma StepOver(str: string, s: nat, p: Part, names: seq<string>)
    requires s + 60 + |PartBody(p)| <= |str| && Describes(str[s..s + 60], p, names)
    requires str[s + 60..s + 60 + |PartBody(p)|] == PartBody(p)
    ensures var r := Sections(str, Next(s, |PartBody(p)|), Table(TableBehind(p, names)));
            Sections(str, s, Table(names)) == Parsed(r.outcome, PartElements(p) + r.elements)
  {
    hide Sections, Table, SizeField, LongLength, IsNameSection, ElementOf, PartElements, PartBody;
    SectionCases(str, s, Table(names));
    if p.Names? {
      NoElements(p, Sections(str, Next(s, |PartBody(p)|), Table(TableBehind(p, names))).elements);
    }
  }

  lemma NoElements(p: Part, es: seq<Element>)
    requires p.Names?
    ensures PartElements(p) == [] && PartElements(p) + es == es && PartBody(p) == Table(p.names)
  {
  }

  lemma HeadMagic(h: string, p: Part, names: seq<string>)
    requires Describes(h, p, names)
    ensures |h| == 60 && h[58] == '`' && h[59] == '\n' && SizeField(h) == |PartBody(p)|
    ensures if p.Names? then IsNameSection(h) else !IsNameSection(h) && LongLength(h) <= |PartBody(p)|
  {
  }

  // One part read in the middle of an archive.
  lemma PartRead(pre: string, p: Part, names: seq<string>, rest: string)
    requires IsPart(p, names) && AreTableNames(names)
    ensures var str := pre + (PartText(p, names) + rest);
            var r := Sections(str, |pre| + |PartText(p, names)|, Table(TableBehind(p, names)));
            Sections(str, |pre|, Table(names)) == Parsed(r.outcome, PartElements(p) + r.elements)
  {
    hide *;
    PartDescribed(p, names);
    var h, body := PartHead(p, names), PartBody(p);
    var size := |body|;
    PartIs(p, names, rest);
    Slices(pre, h, body, Pad(size) + rest);
    StepOver(pre + (PartText(p, names) + rest), |pre|, p, names);
    NextIs(|pre|, size);
  }

  lemma NextIs(s: nat, size: nat)
    ensures Next(s, size) == s + 60 + size + |Pad(size)|
  {
  }

  lemma PartIs(p: Part, names: seq<string>, rest: string)
    requires IsWritable(p, names)
    ensures var h, body := PartHead(p, names), PartBody(p);
            PartText(p, names) == h + body + Pad(|body|)
            && PartText(p, names) + rest == h + body + (Pad(|body|) + rest)
            && |PartText(p, names)| == |h| + |body| + |Pad(|body|)|
  {
    hide PartHead, PartBody, Pad;
  }

  // The table that holds behind all parts.
  function LastTable(ps: seq<Part>, names: seq<string>): seq<string>
    decreases |ps|
  {
    if |ps| == 0 then names else LastTable(ps[1..], TableBehind(ps[0], names))
  }

  // Reading goes on behind the parts with the last table.
  lemma {:induction false} PartsRead(pre: string, ps: seq<Part>, names: seq<string>, tail: string)
    requires AreParts(ps, names) && AreTableNames(names)
    ensures AreTableNames(LastTable(ps, names))
    ensures var text := PartsText(ps, names);
            var str := pre + (text + tail);
            var r := Sections(str, |pre| + |text|, Table(LastTable(ps, names)));
            Sections(str, |pre|, Table(names)) == Parsed(r.outcome, PartsElements(ps) + r.elements)
    decreases |ps|
  {
    hide *;
    if |ps| == 0 {
      NoParts(ps, names);
      assert [] + tail == tail;
      NothingBefore(Sections(pre + tail, |pre|, Table(names)).elements);
    } else {
      PartsFirst(ps, names);
      var head, behind := PartText(ps[0], names), TableBehind(ps[0], names);
      var rest := PartsText(ps[1..], behind);
      PartRead(pre, ps[0], names, rest + tail);
      PartsRead(pre + head, ps[1..], behind, tail);
      Regrouped(pre, head, rest, tail);
      var all := pre + (head + rest + tail);
      var r := Sections(all, |pre| + |head| + |rest|, Table(LastTable(ps, names)));
      MoreBefore(PartElements(ps[0]), PartsElements(ps[1..]), r.elements);
    }
  }

  lemma NoParts(ps: seq<Part>, names: seq<string>)
    requires |ps| == 0
    ensures AreParts(ps, names) && PartsText(ps, names) == [] && PartsElements(ps) == []
    ensures LastTable(ps, names) == names
  {
  }

  lemma PartsFirst(ps: seq<Part>, names: seq<string>)
    requires |ps| > 0 && AreParts(ps, names) && AreTableNames(names)
    ensures IsPart(ps[0], names) && IsWritable(ps[0], names) && AreParts(ps[1..], TableBehind(ps[0], names))
    ensures AreTableNames(TableBehind(ps[0], names))
    ensures LastTable(ps, names) == LastTable(ps[1..], TableBehind(ps[0], names))
    ensures PartsText(ps, names) == PartText(ps[0], names) + PartsText(ps[1..], TableBehind(ps[0], names))
    ensures PartsElements(ps) == PartElements(ps[0]) + PartsElements(ps[1..])
  {
    hide PartText, PartElements, Table;
  }

  lemma Regrouped(a: string, b: string, c: string, d: string)
    ensures a + (b + (c + d)) == a + b + (c + d) == a + (b + c + d)
  {
  }

  lemma NothingBefore(es: seq<Element>)
    ensures [] + es == es
  {
  }

  lemma MoreBefore(a: seq<Element>, b: seq<Element>, c: seq<Element>)
    ensures a + (b + c) == a + b + c
  {
  }

  lemma NoNames()
    ensures Table([]) == [] && AreTableNames([])
  {
  }

  // Whatever stands behind the parts of an archive, their members are read.
  lemma ParseParts(ps: seq<Part>, tail: string)
    requires AreParts(ps, []) && |PartsText(ps, [])| + |tail| > 0
    ensures var text := PartsText(ps, []);
            var r := Sections(MAGIC + (text + tail), 8 + |text|, Table(LastTable(ps, [])));
            Parse(MAGIC + (text + tail)) == Parsed(r.outcome, PartsElements(ps) + r.elements)
  {
    hide Sections, PartText, PartsElements, AreParts, Table, LastTable, AreTableNames, PartsText;
    NoNames();
    PartsRead(MAGIC, ps, [], tail);
    assert (MAGIC + (PartsText(ps, []) + tail))[..8] == MAGIC;
  }

  // Parsing an archive of tables and members gives the members in order, each with the name
  // that it refers to in the last table in front of it.
  lemma ReferencesRead(ps: seq<Part>)
    requires |ps| > 0 && AreParts(ps, [])
    ensures Parse(MAGIC + PartsText(ps, [])) == Parsed(Done, PartsElements(ps))
  {
    hide Sections, PartText, PartsElements, AreParts, Table, LastTable, Parse, PartsText;
    var text := PartsText(ps, []);
    PartsLength(ps);
    ParseParts(ps, []);
    assert text + [] == text;
    NoSections(MAGIC + text, 8 + |text|, Table(LastTable(ps, [])));
    assert PartsElements(ps) + [] == PartsElements(ps);
  }

  lemma PartsLength(ps: seq<Part>)
    requires |ps| > 0 && AreParts(ps, [])
    ensures |PartsText(ps, [])| > 0
  {
    hide DataFields, TableHead, Table, Header, ReferenceField, Body, IsTableHead, Stored, Column;
    match ps[0]
    case Names(head, ns) =>
      TableHeadRead(head, |Table(ns)|);
    case Reference(index, ae) =>
      assert false;
    case Plain(ae) =>
      HeaderRead(ae, []);
  }

  // ----- Damaged archives ---------------------------------------------------------------

  // Without its magic number a header ends the reading; what was read before is kept.
  lemma MagicMissing(ps: seq<Part>, tail: string)
    requires AreParts(ps, []) && |tail| >= 60 && (tail[58] != '`' || tail[59] != '\n')
    ensures Parse(MAGIC + (PartsText(ps, []) + tail)) == Parsed(MissingMagic, PartsElements(ps))
  {
    hide Sections, PartText, PartsElements, AreParts, Table, LastTable, Parse, PartsText;
    var text, names := PartsText(ps, []), Table(LastTable(ps, []));
    var str, s := MAGIC + (text + tail), 8 + |text|;
    ParseParts(ps, tail);
    assert str[s..s + 60] == tail[..60];
    SectionCases(str, s, names);
    assert PartsElements(ps) + [] == PartsElements(ps);
  }

  // An archive that is cut off inside a part is truncated. The members in front of the cut
  // are kept, and so is one that only its padding is cut from.
  lemma CutOff(ps: seq<Part>, p: Part, cut: nat)
    requires AreParts(ps, []) && IsPart(p, LastTable(ps, [])) && 0 < cut < |PartText(p, LastTable(ps, []))|
    ensures var tail := PartText(p, LastTable(ps, []))[..cut];
            Parse(MAGIC + (PartsText(ps, []) + tail))
            == Parsed(Truncated, PartsElements(ps)
                                 + if cut < 60 + |PartBody(p)| then [] else PartElements(p))
  {
    hide Sections, PartText, PartsElements, AreParts, Table, Parse, PartsText, LastTable, PartBody, PartElements;
    NoNames();
    PartsRead(MAGIC, ps, [], []);
    var last, text := LastTable(ps, []), PartsText(ps, []);
    var tail := PartText(p, last)[..cut];
    ParseParts(ps, tail);
    CutPart(MAGIC + text, p, last, cut);
    assert MAGIC + (text + tail) == MAGIC + text + tail;
  }

  lemma CutSlices(pre: string, h: string, body: string, pad: string, cut: nat)
    requires |h| <= cut <= |h + body + pad|
    ensures var str, s := pre + (h + body + pad)[..cut], |pre|;
            str[s..s + |h|] == h
            && (cut >= |h| + |body| ==> str[s + |h|..s + |h| + |body|] == body)
  {
    var part := (h + body + pad)[..cut];
    assert part[..|h|] == h;
    if cut >= |h| + |body| {
      assert part[|h|..|h| + |body|] == body;
    }
  }

  lemma CutPart(pre: string, p: Part, names: seq<string>, cut: nat)
    requires IsPart(p, names) && AreTableNames(names) && 0 < cut < |PartText(p, names)|
    ensures Sections(pre + PartText(p, names)[..cut], |pre|, Table(names))
         == Parsed(Truncated, if cut < 60 + |PartBody(p)| then [] else PartElements(p))
  {
    hide IsWritable, Pad, Table, Sections, IsPart, PartHead, PartBody, PartText, AreTableNames, PartElements;
    hide LongLength, IsNameSection, ElementOf, Describes;
    PartDescribed(p, names);
    PartIs(p, names, []);
    HeadMagic(PartHead(p, names), p, names);
    var h, body := PartHead(p, names), PartBody(p);
    var str, s, size := pre + PartText(p, names)[..cut], |pre|, |body|;
    if cut < 60 {
      SectionEnd(str, s, Table(names));
    } else {
      CutSlices(pre, h, body, Pad(size), cut);
      if cut < 60 + size {
        SectionCases(str, s, Table(names));
      } else {
        StepOver(str, s, p, names);
        SectionEnd(str, Next(s, size), Table(TableBehind(p, names)));
        assert PartElements(p) + [] == PartElements(p);
      }
    }
  }

  // A BSD name that is longer than the section is refused, and what was read before is kept.
  lemma LongNameRefused(ps: seq<Part>, ae: Element, length: nat, rest: string)
    requires AreParts(ps, []) && Fits(ae) && |ae.data| < length < TWO31
    ensures var tail := LongNameField(length) + DataFields(ae, |ae.data|) + ae.data + rest;
            Parse(MAGIC + (PartsText(ps, []) + tail)) == Parsed(BadLongName, PartsElements(ps))
  {
    hide Sections, PartsElements, AreParts, Table, Parse, PartsText, LastTable, DataFields, LongNameField;
    hide SizeField, LongLength, IsNameSection, ReadUint, Stored, ElementOf;
    var h, body := LongNameField(length) + DataFields(ae, |ae.data|), ae.data;
    LongNameHead(ae, length);
    var text, names := PartsText(ps, []), Table(LastTable(ps, []));
    var tail := h + body + rest;
    var str, s := MAGIC + (text + tail), 8 + |text|;
    ParseParts(ps, tail);
    assert str == MAGIC + text + (h + body + rest);
    Slices(MAGIC + text, h, body, rest);
    SectionCases(str, s, names);
    assert PartsElements(ps) + [] == PartsElements(ps);
  }

  function LongNameField(length: nat): string {
    ['#', '1', '/'] + Column(Numeral(length, 10), 13)
  }

  lemma LongNameHead(ae: Element, length: nat)
    requires Fits(ae) && length < TWO31
    ensures var h := LongNameField(length) + DataFields(ae, |ae.data|);
            |h| == 60 && h[58] == '`' && h[59] == '\n' && SizeField(h) == |ae.data|
            && !IsNameSection(h) && LongLength(h) == length
  {
    hide ReadUint, Numeral, DataFields, Stored, SizeField, Column;
    WordLength(length);
    ReadColumn(length, 10, 13);
    FieldNumbers(LongNameField(length), ae, |ae.data|);
    var h, column := LongNameField(length) + DataFields(ae, |ae.data|), Column(Numeral(length, 10), 13);
    assert h[3..16] == column;
    LongColumnStarts(length);
    assert h[3] == column[0];
  }

  lemma LongColumnStarts(n: nat)
    ensures |Column(Numeral(n, 10), 13)| > 0 && '0' <= Column(Numeral(n, 10), 13)[0] <= '9'
  {
  }

  // ----- Fields -------------------------------------------------------------------------

  // A field is a number up to its end or to white space, and -1 when anything else follows or
  // no number is there.
  lemma FieldRead(n: nat, b: nat, rest: string)
    requires b in [8, 10] && Ends(rest, b)
    ensures ReadUint(Numeral(n, b) + rest, b)
         == if |rest| == 0 || IsSpace(rest[0]) then (if n < TWO31 then n else TWO31 - 1) else -1
    ensures |rest| > 0 && rest[0] !in ['-', '+'] ==> ReadUint(rest, b) == -1
  {
    hide ParseInteger, Numeral;
    var t := Numeral(n, b);
    ReadNumeral(n, b, b, rest);
    assert |rest| > 0 ==> (t + rest)[|t|] == rest[0];
    if |rest| > 0 && rest[0] !in ['-', '+'] {
      NotAnInteger(rest, true, b);
    }
  }

  // An offset behind the table names nothing.
  lemma NoSuchName(h: string, table: string, offset: nat)
    requires |h| == 60 && h[..16] == ReferenceField(offset) && |table| <= offset < TWO31
    ensures !IsNameSection(h) && LongLength(h) == 0 && HeaderName(h, table) == []
  {
    hide ReadUint, Numeral, Column, NameLength;
    WordLength(offset);
    ReadColumn(offset, 10, 15);
    ReferenceStarts(h, offset);
  }

  lemma ReferenceStarts(h: string, offset: nat)
    requires |h| == 60 && |Column(Numeral(offset, 10), 15)| == 15 && h[..16] == ReferenceField(offset)
    ensures h[0] == '/' && '0' <= h[1] <= '9' && h[1..16] == Column(Numeral(offset, 10), 15)
  {
    hide Numeral, Column;
    var column := Column(Numeral(offset, 10), 15);
    assert forall i :: 0 <= i < 16 ==> h[i] == ReferenceField(offset)[i];
    assert h[1..16] == column;
    ColumnStarts(offset);
    assert h[1] == column[0];
  }

  // A name in the header itself ends at a slash or white space.
  lemma OrdinaryName(h: string, t: string, table: string)
    requires |h| == 60 && |t| <= 16 && h[..|t|] == t && IsTableName(t)
    requires |t| < 16 ==> h[|t|] == '/' || IsSpace(h[|t|])
    requires |t| == 0 ==> !('0' <= h[1] <= '9')
    requires t == ['#', '1'] && h[2] == '/' ==> !('0' <= h[3] <= '9')
    ensures LongLength(h) == 0 && HeaderName(h, table) == t
  {
    hide ReadUint, IsSpace;
    forall k | 0 <= k < |t| ensures h[k] != '/' && !IsSpace(h[k]) {
      assert h[k] == h[..|t|][k] == t[k];
    }
    NameStops(h[..16], |t|);
    if h[0] == '#' && h[1] == '1' && h[2] == '/' {
      NotSpaces();
      assert |t| == 2 && h[..2] == ['#', '1'];
    }
  }

  lemma NotSpaces()
    ensures !IsSpace('#') && !IsSpace('1') && !IsSpace('/')
  {
  }

  lemma NameStops(s: string, n: nat)
    requires n <= |s| && (forall k :: 0 <= k < n ==> s[k] != '/' && !IsSpace(s[k]))
    requires n < |s| ==> s[n] == '/' || IsSpace(s[n])
    ensures NameLength(s, 0) == n
  {
    hide IsSpace, NameLength;
  }

  lemma SmallNumerals()
    ensures Numeral(10, 10) == ['1', '0'] && Numeral(2, 10) == ['2'] && Numeral(3, 10) == ['3']
    ensures Numeral(420, 8) == ['6', '4', '4'] && Numeral(1, 10) == ['1']
  {
    assert Div(10, 10) == 1 && Div(420, 8) == 52 && Div(52, 8) == 6;
    assert Numeral(52, 8) == Numeral(6, 8) + [DigitText(4, false)];
  }

  lemma SmallColumns()
    ensures Column(['a', '.', 'o'], 16) == "a.o             " && Column(['1', '0'], 12) == "10          "
    ensures Column(['2'], 6) == "2     " && Column(['3'], 6) == "3     "
    ensures Column(['6', '4', '4'], 8) == "644     " && Column(['1'], 10) == "1         "
  {
  }

  lemma SmallName(name: string)
    requires name == ['a', '.', 'o']
    ensures ShortName(name) == name && !IsLong(name) && UpToNul(name) == name
  {
    assert Stem(name, 0) == 3;
    assert UpToNul(name[1..]) == name[1..] by {
      assert UpToNul(name[2..]) == name[2..];
    }
  }

  // An archive of one small file, byte for byte.
  lemma SmallArchive(ae: Element)
    requires ae == Element(['a', '.', 'o'], 10, 2, 3, 420, ['x'])
    ensures AllFit([ae]) && Unparse([ae])
         == "!<arch>\n"
            + ("a.o             " + ("10          " + "2     " + "3     " + "644     " + "1         " + "`\n")
               + "x" + "\n")
  {
    hide Numeral, Column, IsLong, ShortName, UpToNul, Entries;
    SmallNumerals();
    SmallColumns();
    SmallName(ae.name);
    assert Pad(1) == ['\n'];
    OneEntry(ae);
  }

  lemma OneEntry(ae: Element)
    requires Fits(ae) && Live(ae)
    ensures AllFit([ae]) && Entries([ae]) == Entry(ae)
  {
    hide Entry;
    assert |[ae][1..]| == 0;
    EntriesNone([ae][1..]);
  }
}
