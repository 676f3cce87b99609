/**
 `ar` archives: `ArchiveElement` of `lib/archive.cc`. Characters stand for bytes, and white
 space is that of the C locale.
 */
module Archive {
  import opened Widths
  import opened IntegerText
  import opened Scan

  datatype Element = Element(name: string, date: int, uid: int, gid: int, mode: int, data: string)

  datatype Outcome = Done | NotAnArchive | MissingMagic | Truncated | BadLongName

  // What parse returns, and the elements it leaves in the vector.
  datatype Parsed = Parsed(outcome: Outcome, elements: seq<Element>)

  const MAGIC: string := ['!', '<', 'a', 'r', 'c', 'h', '>', '\n']

  // ----- Reading a header ---------------------------------------------------------------

  // A number, which may be followed by white space, or -1.
  function ReadUint(field: string, base: nat): (x: int)
  {
    var n := ParseInteger(field, true, base);
    if n.end == 0 || (n.end < |field| && !IsSpace(field[n.end])) then -1 else n.value
  }

  // The length of a name, which ends at a slash or white space.
  function NameLength(t: string, i: nat): (n: nat)
    requires i <= |t|
    ensures i <= n <= |t|
    ensures forall k :: i <= k < n ==> t[k] != '/' && !IsSpace(t[k])
    ensures n < |t| ==> t[n] == '/' || IsSpace(t[n])
    decreases |t| - i
  {
    if i < |t| && t[i] != '/' && !IsSpace(t[i]) then NameLength(t, i + 1) else i
  }

  predicate IsNameSection(h: string)
    requires |h| == 60
  {
    h[0] == '/' && h[1] == '/' && IsSpace(h[2])
  }

  predicate IsNameReference(h: string)
    requires |h| == 60
  {
    h[0] == '/' && '0' <= h[1] <= '9'
  }

  // The length of a BSD long name, which is in front of the data; none when it is not positive.
  function LongLength(h: string): int
    requires |h| == 60
  {
    if !IsNameReference(h) && h[0] == '#' && h[1] == '1' && h[2] == '/' && '0' <= h[3] <= '9' then
      ReadUint(h[3..16], 10)
    else 0
  }

  function HeaderName(h: string, names: string): string
    requires |h| == 60
  {
    if IsNameReference(h) then
      var offset := ReadUint(h[1..16], 10);
      if offset < 0 || offset >= |names| then [] else names[offset..NameLength(names, offset)]
    else if h[0] == '#' && h[1] == '1' && h[2] == '/' && '0' <= h[3] <= '9' then []
    else h[..NameLength(h[..16], 0)]
  }

  function SizeField(h: string): int
    requires |h| == 60
  {
    ReadUint(h[48..58], 10)
  }

  function ElementOf(h: string, names: string, body: string): Element
    requires |h| == 60 && LongLength(h) <= |body|
  {
    var n := LongLength(h);
    Element(if n > 0 then body[..n] else HeaderName(h, names),
            ReadUint(h[16..28], 10), ReadUint(h[28..34], 10), ReadUint(h[34..40], 10),
            ReadUint(h[40..48], 8), if n > 0 then body[n..] else body)
  }

  // ----- Reading an archive -------------------------------------------------------------

  // The next section starts at an even offset from this one.
  function Next(s: nat, size: nat): nat {
    s + 60 + size + size % 2
  }

  // The sections from s on; names holds the last section of long names.
  function Sections(str: string, s: nat, names: string): Parsed
    decreases |str| - s, names
  {
    if s + 60 > |str| then Parsed(if s == |str| then Done else Truncated, [])
    else
      var h := str[s..s + 60];
      if h[58] != '`' || h[59] != '\n' then Parsed(MissingMagic, [])
      else if SizeField(h) < 0 || s + 60 + SizeField(h) > |str| then Parsed(Truncated, [])
      else
        var size: nat := SizeField(h);
        var body := str[s + 60..s + 60 + size];
        if IsNameSection(h) then Sections(str, Next(s, size), body)
        else if LongLength(h) > size then Parsed(BadLongName, [])
        else
          var rest := Sections(str, Next(s, size), names);
          Parsed(rest.outcome, [ElementOf(h, names, body)] + rest.elements)
  }

  function Parse(str: string): Parsed {
    if |str| <= 8 || str[..8] != MAGIC then Parsed(NotAnArchive, []) else Sections(str, 8, [])
  }

  // ----- Writing ------------------------------------------------------------------------

  function Spaces(n: nat): (t: string)
    ensures |t| == n
  {
    seq(n, _ => ' ')
  }

  // Left-justified in a column of width w, which a longer text overflows.
  function Column(t: string, w: nat): string {
    if |t| < w then t + Spaces(w - |t|) else t
  }

  function Unsigned(x: int): (n: nat)
    requires -TWO31 <= x < TWO31
    ensures n < TWO32
  {
    if x < 0 then x + TWO32 else x
  }

  // A name up to its first slash.
  function Stem(name: string, i: nat): (n: nat)
    requires i <= |name|
    ensures i <= n <= |name|
    ensures forall k :: i <= k < n ==> name[k] != '/'
    ensures n < |name| ==> name[n] == '/'
    decreases |name| - i
  {
    if i < |name| && name[i] != '/' then Stem(name, i + 1) else i
  }

  function ShortName(name: string): string {
    name[..Stem(name, 0)]
  }

  predicate HasSpace(t: string) {
    exists k :: 0 <= k < |t| && IsSpace(t[k])
  }

  // Whether the name is written in front of the data.
  predicate IsLong(t: string) {
    HasSpace(t) || |t| > 14
  }

  // A string precision stops at a NUL character.
  function UpToNul(t: string): (r: string)
    ensures |r| <= |t| && r == t[..|r|] && forall k :: 0 <= k < |r| ==> t[k] != '\0'
    ensures |r| < |t| ==> t[|r|] == '\0'
  {
    if |t| == 0 || t[0] == '\0' then [] else [t[0]] + UpToNul(t[1..])
  }

  function NameField(t: string): string {
    if IsLong(t) then ['#', '1', '/'] + Column(Numeral(|t|, 10), 13) else Column(UpToNul(t), 16)
  }

  function Body(ae: Element): string {
    (if IsLong(ShortName(ae.name)) then ShortName(ae.name) else []) + ae.data
  }

  function DataFields(ae: Element, size: nat): string
    requires InRange(ae)
  {
    Column(Numeral(Unsigned(ae.date), 10), 12) + Column(Numeral(Unsigned(ae.uid), 10), 6)
    + Column(Numeral(Unsigned(ae.gid), 10), 6) + Column(Numeral(Unsigned(ae.mode), 8), 8)
    + Column(Numeral(size, 10), 10) + ['`', '\n']
  }

  // The fields are ints, and so are the lengths of strings.
  predicate InRange(ae: Element) {
    -TWO31 <= ae.date < TWO31 && -TWO31 <= ae.uid < TWO31 && -TWO31 <= ae.gid < TWO31
    && -TWO31 <= ae.mode < TWO31 && |ae.name| + |ae.data| < TWO31
  }

  // The fields that can be wider than their columns are not.
  predicate Fits(ae: Element) {
    InRange(ae) && |Numeral(Unsigned(ae.uid), 10)| <= 6 && |Numeral(Unsigned(ae.gid), 10)| <= 6
    && |Numeral(Unsigned(ae.mode), 8)| <= 8
  }

  predicate Live(ae: Element) {
    |ae.name| > 0
  }

  // Elements that are not live are skipped, whatever is in them.
  predicate AllFit(ar: seq<Element>) {
    forall i :: 0 <= i < |ar| && Live(ar[i]) ==> Fits(ar[i])
  }

  function Pad(n: nat): (t: string)
    ensures |t| == n % 2
  {
    if n % 2 == 1 then ['\n'] else []
  }

  function Entry(ae: Element): string
    requires InRange(ae)
  {
    var body := Body(ae);
    NameField(ShortName(ae.name)) + DataFields(ae, |body|) + body + Pad(|body|)
  }

  function Entries(ar: seq<Element>): string
    requires AllFit(ar)
    decreases |ar|
  {
    if |ar| == 0 then [] else (if Live(ar[0]) then Entry(ar[0]) else []) + Entries(ar[1..])
  }

  function Unparse(ar: seq<Element>): string
    requires AllFit(ar)
  {
    MAGIC + Entries(ar)
  }

  // ----- Round trip ---------------------------------------------------------------------

  // What an element comes back as: its name is cut at a slash, and, when it is short, at a
  // NUL; a negative date becomes the largest int.
  function Stored(ae: Element): Element {
    var t := ShortName(ae.name);
    ae.(name := if IsLong(t) then t else UpToNul(t), date := if ae.date < 0 then TWO31 - 1 else ae.date)
  }

  function LiveStored(ar: seq<Element>): seq<Element>
    decreases |ar|
  {
    if |ar| == 0 then [] else (if Live(ar[0]) then [Stored(ar[0])] else []) + LiveStored(ar[1..])
  }

  lemma StoredExactly(ae: Element)
    ensures Stored(ae) == ae
       <==> (ae.date >= 0 && '/' !in ae.name && (IsLong(ae.name) || '\0' !in ae.name))
  {
    var t := ShortName(ae.name);
    if '/' !in ae.name {
      assert t == ae.name;
    } else {
      assert |t| < |ae.name|;
    }
    if '\0' !in t {
      assert UpToNul(t) == t;
    }
  }

  // ReadUint stops at the white space that fills a column.
  lemma ReadColumn(n: nat, b: nat, w: nat)
    requires b == 10 || b == 8
    requires |Numeral(n, b)| <= w
    ensures |Column(Numeral(n, b), w)| == w
    ensures ReadUint(Column(Numeral(n, b), w), b) == if n < TWO31 then n else TWO31 - 1
  {
    hide ParseInteger;
    var t := Numeral(n, b);
    var rest := Spaces(w - |t|);
    ReadNumeral(n, b, b, rest);
    assert Column(t, w) == t + rest;
    if |rest| > 0 {
      assert Column(t, w)[|t|] == ' ';
    }
  }

  lemma {:induction false} NumeralBound(n: nat, b: nat)
    requires 2 <= b <= 10
    ensures n < Power(b, |Numeral(n, b)|)
    decreases n, b
  {
    if n < b {
      assert Power(b, 1) == b * Power(b, 0);
    } else {
      NumeralBound(Div(n, b), b);
      Scale(Div(n, b), Power(b, |Numeral(n, b)| - 1), b);
    }
  }

  lemma Scale(q: nat, p: nat, b: nat)
    requires q < p
    ensures b * q + b <= b * p
  {
    Decimal.MulLe(q + 1, p, b);
    Decimal.MulAdd(b, q, 1);
  }

  lemma {:induction false} PowerGrows(b: nat, k: nat, m: nat)
    requires b >= 1 && k <= m
    ensures 1 <= Power(b, k) <= Power(b, m)
    decreases m
  {
    if k < m {
      PowerGrows(b, k, m - 1);
      Decimal.MulLe(1, b, Power(b, m - 1));
      Decimal.MulSwap(b, Power(b, m - 1));
    } else if m > 0 {
      PowerGrows(b, m - 1, m - 1);
      Decimal.MulLe(1, b, Power(b, m - 1));
      Decimal.MulSwap(b, Power(b, m - 1));
    }
  }

  // Any 32-bit number takes at most ten digits.
  lemma WordLength(n: nat)
    requires n < TWO32
    ensures |Numeral(n, 10)| <= 10
  {
    hide Numeral;
    assert Power(10, 10) == 10000000000;
    NumeralLength(n, 10, 10);
  }

  // A field that fits a column of six (eight octal) digits is not negative.
  lemma NarrowField(x: int)
    requires -TWO31 <= x < TWO31
    ensures |Numeral(Unsigned(x), 10)| <= 6 || |Numeral(Unsigned(x), 8)| <= 8 ==> x >= 0
  {
    hide Numeral;
    var n := Unsigned(x);
    assert Power(10, 6) == 1000000 && Power(8, 8) == 16777216;
    NumeralBound(n, 10);
    NumeralBound(n, 8);
    if |Numeral(n, 10)| <= 6 {
      PowerGrows(10, |Numeral(n, 10)|, 6);
    }
    if |Numeral(n, 8)| <= 8 {
      PowerGrows(8, |Numeral(n, 8)|, 8);
    }
  }

  lemma FieldsOf(h: string, a: string, b: string, c: string, d: string, e: string, f: string)
    requires h == a + (b + c + d + e + f + ['`', '\n'])
    requires |a| == 16 && |b| == 12 && |c| == 6 && |d| == 6 && |e| == 8 && |f| == 10
    ensures |h| == 60 && h[58] == '`' && h[59] == '\n'
    ensures h[..16] == a && h[16..28] == b && h[28..34] == c && h[34..40] == d
    ensures h[40..48] == e && h[48..58] == f
  {
    assert h == a + b + c + d + e + f + ['`', '\n'];
  }

  function Header(ae: Element): string
    requires InRange(ae)
  {
    NameField(ShortName(ae.name)) + DataFields(ae, |Body(ae)|)
  }

  // The numbers of a header are read back.
  lemma HeaderNumbers(ae: Element)
    requires Fits(ae)
    ensures var h := Header(ae);
            |h| == 60 && h[58] == '`' && h[59] == '\n' && h[..16] == NameField(ShortName(ae.name))
            && SizeField(h) == |Body(ae)| && ReadUint(h[16..28], 10) == Stored(ae).date
            && ReadUint(h[28..34], 10) == ae.uid && ReadUint(h[34..40], 10) == ae.gid
            && ReadUint(h[40..48], 8) == ae.mode
  {
    hide ReadUint, Numeral, IsLong, Column, NameField, UpToNul, SizeField, DataFields;
    NameFieldLength(ShortName(ae.name));
    FieldNumbers(NameField(ShortName(ae.name)), ae, |Body(ae)|);
  }

  // And so they are behind any name field.
  lemma FieldNumbers(field: string, ae: Element, size: nat)
    requires |field| == 16 && Fits(ae) && size < TWO31
    ensures var h := field + DataFields(ae, size);
            |h| == 60 && h[58] == '`' && h[59] == '\n' && h[..16] == field
            && SizeField(h) == size && ReadUint(h[16..28], 10) == Stored(ae).date
            && ReadUint(h[28..34], 10) == ae.uid && ReadUint(h[34..40], 10) == ae.gid
            && ReadUint(h[40..48], 8) == ae.mode
  {
    hide ReadUint, Numeral, IsLong, Column, UpToNul;
    var date, uid, gid := Unsigned(ae.date), Unsigned(ae.uid), Unsigned(ae.gid);
    var mode := Unsigned(ae.mode);
    WordLength(date);
    WordLength(size);
    NarrowField(ae.uid);
    NarrowField(ae.gid);
    NarrowField(ae.mode);
    ReadColumn(date, 10, 12);
    ReadColumn(uid, 10, 6);
    ReadColumn(gid, 10, 6);
    ReadColumn(mode, 8, 8);
    ReadColumn(size, 10, 10);
    FieldsOf(field + DataFields(ae, size), field, Column(Numeral(date, 10), 12), Column(Numeral(uid, 10), 6),
             Column(Numeral(gid, 10), 6), Column(Numeral(mode, 8), 8), Column(Numeral(size, 10), 10));
  }

  lemma NameFieldLength(t: string)
    requires |t| < TWO31
    ensures |NameField(t)| == 16
  {
    WordLength(|t|);
  }

  // A name is written in front of the data when it has 15 characters or white space.
  lemma LongNames(t: string)
    requires |t| < TWO31 && '/' !in t
    ensures |NameField(t)| == 16
    ensures NameField(t)[..3] == ['#', '1', '/'] <==> |t| >= 15 || exists k :: 0 <= k < |t| && IsSpace(t[k])
  {
    hide Numeral, IsSpace;
    NameFieldLength(t);
    if !IsLong(t) {
      var u := UpToNul(t);
      assert |u| > 2 ==> u[2] == t[2] && t[2] in t;
      assert NameField(t)[2] != '/';
    }
  }

  // The name is read back.
  lemma LongNameRead(t: string, h: string)
    requires |t| < TWO31 && IsLong(t) && |h| == 60 && h[..16] == NameField(t)
    ensures !IsNameSection(h) && LongLength(h) == |t|
  {
    hide ReadUint, Numeral;
    WordLength(|t|);
    ReadColumn(|t|, 10, 13);
    var column := Column(Numeral(|t|, 10), 13);
    assert forall i :: 0 <= i < 16 ==> h[i] == NameField(t)[i];
    assert h[3..16] == column;
    assert h[3] == column[0] == Numeral(|t|, 10)[0];
  }

  lemma ShortNameRead(t: string, h: string, names: string)
    requires !IsLong(t) && '/' !in t && |h| == 60 && h[..16] == NameField(t)
    ensures !IsNameSection(h) && LongLength(h) <= 0 && HeaderName(h, names) == UpToNul(t)
  {
    hide UpToNul;
    var u := UpToNul(t);
    var field := u + Spaces(16 - |u|);
    assert h[..16] == field;
    assert forall i :: 0 <= i < |u| ==> u[i] == t[i];
    assert forall i :: 0 <= i < 16 ==> h[i] == field[i];
    var n := NameLength(field, 0);
    assert forall k :: 0 <= k < |u| ==> field[k] != '/' && !IsSpace(field[k]);
    assert field[|u|] == ' ' && n == |u|;
    assert h[..n] == u;
  }

  lemma HeaderRead(ae: Element, names: string)
    requires Fits(ae)
    ensures var h := Header(ae);
            |h| == 60 && h[58] == '`' && h[59] == '\n' && !IsNameSection(h)
            && SizeField(h) == |Body(ae)| && LongLength(h) <= |Body(ae)|
            && ElementOf(h, names, Body(ae)) == Stored(ae)
  {
    hide ReadUint, IsLong, NameField, DataFields, UpToNul, IsNameReference, IsNameSection, SizeField, HeaderName;
    hide LongLength;
    HeaderNumbers(ae);
    var t := ShortName(ae.name);
    NoSpace(t);
    if IsLong(t) {
      LongNameRead(t, Header(ae));
    } else {
      ShortNameRead(t, Header(ae), names);
    }
  }

  lemma NoSpace(t: string)
    ensures IsLong(t) ==> |t| > 0
  {
  }

  lemma SectionStep(str: string, s: nat, names: string, h: string, body: string)
    requires s + 60 + |body| <= |str| && |h| == 60
    requires str[s..s + 60] == h && str[s + 60..s + 60 + |body|] == body
    requires h[58] == '`' && h[59] == '\n' && !IsNameSection(h)
    requires SizeField(h) == |body| && LongLength(h) <= |body|
    ensures var r := Sections(str, Next(s, |body|), names);
            Sections(str, s, names) == Parsed(r.outcome, [ElementOf(h, names, body)] + r.elements)
  {
    hide SizeField, LongLength, ElementOf, IsNameSection, Sections;
    SectionCases(str, s, names);
  }

  lemma Slices(pre: string, h: string, body: string, rest: string)
    ensures var str, s := pre + (h + body + rest), |pre|;
            str[s..s + |h|] == h && str[s + |h|..s + |h| + |body|] == body
  {
  }

  // One section read in the middle of an archive.
  lemma SectionRead(pre: string, ae: Element, rest: string, names: string)
    requires Fits(ae)
    ensures var str := pre + (Entry(ae) + rest);
            var r := Sections(str, |pre| + |Entry(ae)|, names);
            Sections(str, |pre|, names) == Parsed(r.outcome, [Stored(ae)] + r.elements)
  {
    hide Body, NameField, DataFields, Stored, ElementOf, IsNameSection, SizeField, LongLength, Sections;
    var str, s, h, body := pre + (Entry(ae) + rest), |pre|, Header(ae), Body(ae);
    HeaderRead(ae, names);
    assert Entry(ae) == h + body + Pad(|body|);
    assert Entry(ae) + rest == h + body + (Pad(|body|) + rest);
    Slices(pre, h, body, Pad(|body|) + rest);
    SectionStep(str, s, names, h, body);
  }

  lemma {:induction false} ParseEntries(pre: string, ar: seq<Element>)
    requires AllFit(ar)
    ensures Sections(pre + Entries(ar), |pre|, []) == Parsed(Done, LiveStored(ar))
    decreases |ar|
  {
    hide Entry, Stored, Sections;
    if |ar| == 0 {
      NoSections(pre + Entries(ar), |pre|, []);
    } else if Live(ar[0]) {
      var head, rest := Entry(ar[0]), Entries(ar[1..]);
      SectionRead(pre, ar[0], rest, []);
      ParseEntries(pre + head, ar[1..]);
      assert pre + (head + rest) == pre + head + rest;
    } else {
      ParseEntries(pre, ar[1..]);
      assert Entries(ar) == Entries(ar[1..]) && LiveStored(ar) == LiveStored(ar[1..]);
    }
  }

  lemma NoSections(str: string, s: nat, names: string)
    requires |str| == s
    ensures Sections(str, s, names) == Parsed(Done, [])
  {
  }

  // Parsing what unparse wrote gives the live elements in order, as they are stored; an
  // archive with no live element is not recognised.
  lemma ArchiveRoundTrip(ar: seq<Element>)
    requires AllFit(ar)
    ensures Parse(Unparse(ar))
         == if LiveStored(ar) != [] then Parsed(Done, LiveStored(ar)) else Parsed(NotAnArchive, [])
  {
    hide Sections, Entry;
    ParseEntries(MAGIC, ar);
    EntriesLength(ar);
    assert Unparse(ar)[..8] == MAGIC;
  }

  lemma {:induction false} EntriesLength(ar: seq<Element>)
    requires AllFit(ar)
    ensures |Entries(ar)| > 0 <==> LiveStored(ar) != []
    decreases |ar|
  {
    hide Entry, Stored;
    if |ar| > 0 {
      EntriesLength(ar[1..]);
      if Live(ar[0]) {
        HeaderInEntry(ar[0]);
      }
    }
  }

  lemma HeaderInEntry(ae: Element)
    requires Fits(ae)
    ensures |Entry(ae)| >= 60
  {
    hide NameField, DataFields, Body;
    HeaderRead(ae, []);
  }

  function LiveOnes(ar: seq<Element>): seq<Element>
    decreases |ar|
  {
    if |ar| == 0 then [] else (if Live(ar[0]) then [ar[0]] else []) + LiveOnes(ar[1..])
  }

  lemma {:induction false} LiveUnchanged(ar: seq<Element>)
    ensures LiveStored(ar) == LiveOnes(ar)
       <==> forall ae :: ae in ar && Live(ae) ==> Stored(ae) == ae
    ensures |LiveStored(ar)| == |LiveOnes(ar)|
    decreases |ar|
  {
    hide Stored;
    if |ar| > 0 {
      var rest := ar[1..];
      LiveUnchanged(rest);
      assert ar == [ar[0]] + rest;
      assert forall ae :: ae in ar <==> ae == ar[0] || ae in rest;
      if Live(ar[0]) {
        ConsEqual(Stored(ar[0]), LiveStored(rest), ar[0], LiveOnes(rest));
      } else {
        assert LiveStored(ar) == LiveStored(rest) && LiveOnes(ar) == LiveOnes(rest);
      }
    }
  }

  // Parsing gives back exactly the live elements when their names have no slash (nor, if they
  // are short, a NUL) and their dates are not negative, and not otherwise.
  lemma RoundTripIff(ar: seq<Element>)
    requires AllFit(ar)
    ensures Parse(Unparse(ar)) == Parsed(Done, LiveOnes(ar))
       <==> LiveOnes(ar) != [] && forall ae :: ae in ar && Live(ae) ==>
              ae.date >= 0 && '/' !in ae.name && (IsLong(ae.name) || '\0' !in ae.name)
  {
    hide Stored, IsLong, LiveStored, LiveOnes, Parse, Unparse;
    ArchiveRoundTrip(ar);
    LiveUnchanged(ar);
    forall ae | ae in ar && Live(ae) {
      StoredExactly(ae);
    }
  }

  // For one: an element with a slash in its name loses what is behind it.
  lemma SlashIsLost(ae: Element)
    requires ae.name == ['a', '/', 'b'] && Fits(ae)
    ensures Parse(Unparse([ae])) == Parsed(Done, [Stored(ae)]) && Stored(ae).name == ['a']
  {
    hide Stored, Parse, Unparse;
    ArchiveRoundTrip([ae]);
    LiveUnchanged([ae]);
    SlashStem(ae);
    assert LiveStored([ae]) == [Stored(ae)];
  }

  lemma SlashStem(ae: Element)
    requires ae.name == ['a', '/', 'b']
    ensures Stored(ae).name == ['a']
  {
    assert Stem(ae.name, 0) == 1;
    var t := ShortName(ae.name);
    assert t == ['a'] && !HasSpace(t);
    assert UpToNul(t) == t;
  }

  lemma ConsEqual(a: Element, x: seq<Element>, b: Element, y: seq<Element>)
    ensures [a] + x == [b] + y <==> a == b && x == y
  {
    assert ([a] + x)[0] == a && ([a] + x)[1..] == x;
    assert ([b] + y)[0] == b && ([b] + y)[1..] == y;
  }

  // ----- The code -----------------------------------------------------------------------

  method ReadUintField(field: string, base: nat) returns (x: int)
    ensures x == ReadUint(field, base)
  {
    hide ParseInteger;
    var arg := new IntArg(base);
    var end;
    end, x := arg.Parse(field, true);
    if end == 0 || (end < |field| && !IsSpace(field[end])) {
      x := -1;
    }
  }

  method FindNameEnd(t: string, i: nat) returns (x: nat)
    requires i <= |t|
    ensures x == NameLength(t, i)
  {
    x := i;
    while x < |t| && t[x] != '/' && !IsSpace(t[x])
      invariant i <= x <= |t| && NameLength(t, x) == NameLength(t, i)
    {
      x := x + 1;
    }
  }

  // The name in a header, and the length of a BSD long name.
  method ReadName(h: string, names: string) returns (name: string, bsdLongName: int)
    requires |h| == 60
    ensures name == HeaderName(h, names) && bsdLongName == LongLength(h)
  {
    hide ReadUint;
    name, bsdLongName := [], 0;
    if h[0] == '/' && '0' <= h[1] <= '9' {
      var offset := ReadUintField(h[1..16], 10);
      if 0 <= offset < |names| {
        var end := FindNameEnd(names, offset);
        name := names[offset..end];
      }
    } else if h[0] == '#' && h[1] == '1' && h[2] == '/' && '0' <= h[3] <= '9' {
      bsdLongName := ReadUintField(h[3..16], 10);
    } else {
      var x := FindNameEnd(h[..16], 0);
      name := h[..x];
    }
  }

  method ReadElement(h: string, names: string, body: string) returns (ok: bool, ae: Element)
    requires |h| == 60
    ensures ok <==> LongLength(h) <= |body|
    ensures ok ==> ae == ElementOf(h, names, body)
  {
    hide ReadUint, LongLength, HeaderName;
    var name, bsdLongName := ReadName(h, names);
    var date := ReadUintField(h[16..28], 10);
    var uid := ReadUintField(h[28..34], 10);
    var gid := ReadUintField(h[34..40], 10);
    var mode := ReadUintField(h[40..48], 8);
    var data := body;
    ok := true;
    if bsdLongName > 0 {
      if |body| < bsdLongName {
        return false, Element(name, date, uid, gid, mode, data);
      }
      name := body[..bsdLongName];
      data := body[bsdLongName..];
    }
    ae := Element(name, date, uid, gid, mode, data);
  }

  method ParseArchive(str: string) returns (outcome: Outcome, ar: seq<Element>)
    ensures Parsed(outcome, ar) == Parse(str)
  {
    hide SizeField, LongLength, ElementOf, Sections;
    ar := [];
    if |str| <= 8 || str[..8] != MAGIC {
      return NotAnArchive, ar;
    }
    var names: string, s: nat := [], 8;
    ghost var all := Sections(str, 8, []);
    while s + 60 <= |str|
      invariant all == Parsed(Sections(str, s, names).outcome, ar + Sections(str, s, names).elements)
      decreases |str| - s
    {
      var h := str[s..s + 60];
      SectionCases(str, s, names);
      if h[58] != '`' || h[59] != '\n' {
        return MissingMagic, ar;
      }
      var size := ReadSize(h);
      if size < 0 || s + 60 + size > |str| {
        return Truncated, ar;
      }
      var body := str[s + 60..s + 60 + size];
      if h[0] == '/' && h[1] == '/' && IsSpace(h[2]) {
        names := body;
      } else {
        var ok, ae := ReadElement(h, names, body);
        if !ok {
          return BadLongName, ar;
        }
        ghost var rest := Sections(str, s + 60 + size + size % 2, names).elements;
        assert ar + ([ae] + rest) == ar + [ae] + rest;
        ar := ar + [ae];
      }
      s := s + 60 + size;
      if size % 2 == 1 {
        s := s + 1;
      }
    }
    SectionEnd(str, s, names);
    outcome := if s != |str| then Truncated else Done;
  }

  lemma SectionEnd(str: string, s: nat, names: string)
    requires s + 60 > |str|
    ensures Sections(str, s, names) == Parsed(if s == |str| then Done else Truncated, [])
  {
  }

  lemma SectionCases(str: string, s: nat, names: string)
    requires s + 60 <= |str|
    ensures var h := str[s..s + 60];
            var r, size := Sections(str, s, names), SizeField(h);
            if h[58] != '`' || h[59] != '\n' then r == Parsed(MissingMagic, [])
            else if size < 0 || s + 60 + size > |str| then r == Parsed(Truncated, [])
            else
              var body, next := str[s + 60..s + 60 + size], s + 60 + size + size % 2;
              if IsNameSection(h) then r == Sections(str, next, body)
              else if LongLength(h) > size then r == Parsed(BadLongName, [])
              else
                var rest := Sections(str, next, names);
                r == Parsed(rest.outcome, [ElementOf(h, names, body)] + rest.elements)
  {
    hide SizeField, LongLength, ElementOf, IsNameSection;
  }

  method ReadSize(h: string) returns (size: int)
    requires |h| == 60
    ensures size == SizeField(h)
  {
    size := ReadUintField(h[48..58], 10);
  }

  // The part of the name that is written, and whether it has white space.
  method CheckName(name: string) returns (nlen: nat, spaces: bool)
    ensures nlen == Stem(name, 0) && spaces == HasSpace(name[..nlen])
  {
    spaces := false;
    nlen := |name|;
    var i: nat := 0;
    while i < nlen
      invariant i <= nlen == |name| && Stem(name, i) == Stem(name, 0)
      invariant spaces <==> exists k :: 0 <= k < i && IsSpace(name[k])
    {
      if name[i] == '/' {
        nlen := i;
        break;
      } else if IsSpace(name[i]) {
        spaces := true;
      }
      i := i + 1;
    }
  }

  method UnparseElement(ae: Element) returns (text: string, wroteSize: nat)
    requires InRange(ae)
    ensures text == Entry(ae) && wroteSize == |Body(ae)|
  {
    hide Column, Numeral, HasSpace, DataFields;
    var nlen, mustLongName := CheckName(ae.name);
    var t := ae.name[..nlen];
    if (nlen >= 3 && t[0] == '#' && t[1] == '1' && t[2] == '/') || mustLongName || nlen > 14 {
      text := ['#', '1', '/'] + Column(Numeral(nlen, 10), 13);
      mustLongName := true;
    } else {
      text := Column(UpToNul(t), 16);
    }
    wroteSize := |ae.data| + (if mustLongName then nlen else 0);
    text := text + DataFields(ae, wroteSize);
    if mustLongName {
      text := text + t;
    }
    text := text + ae.data;
    if wroteSize % 2 == 1 {
      text := text + ['\n'];
    }
    EntryParts(ae, text);
  }

  lemma EntryParts(ae: Element, text: string)
    requires InRange(ae)
    ensures var t := ShortName(ae.name);
            var head := NameField(t) + DataFields(ae, |Body(ae)|);
            Entry(ae) == (if IsLong(t) then head + t + ae.data else head + ae.data) + Pad(|Body(ae)|)
  {
    var t := ShortName(ae.name);
    var head := NameField(t) + DataFields(ae, |Body(ae)|);
    if IsLong(t) {
      assert head + (t + ae.data) == head + t + ae.data;
    } else {
      assert [] + ae.data == ae.data;
    }
  }

  lemma EntriesStep(ar: seq<Element>, i: nat)
    requires AllFit(ar) && i < |ar|
    ensures Entries(ar[i..]) == (if Live(ar[i]) then Entry(ar[i]) else []) + Entries(ar[i + 1..])
  {
    hide Entry;
    assert ar[i..][1..] == ar[i + 1..] && ar[i..][0] == ar[i];
  }

  // The sizes that unparse counts add up, so its check for lost memory passes.
  method UnparseArchive(ar: seq<Element>) returns (text: string, complete: bool)
    requires AllFit(ar)
    ensures text == Unparse(ar) && complete
  {
    hide Entry, Entries;
    text := MAGIC;
    var wantSize: nat := 8;
    var i: nat := 0;
    assert ar[0..] == ar;
    while i < |ar|
      invariant i <= |ar| && text + Entries(ar[i..]) == Unparse(ar) && wantSize == |text|
    {
      EntriesStep(ar, i);
      if Live(ar[i]) {
        var entry, wroteSize := UnparseElement(ar[i]);
        EntrySize(ar[i]);
        assert text + (entry + Entries(ar[i + 1..])) == text + entry + Entries(ar[i + 1..]);
        text := text + entry;
        wantSize := wantSize + 60 + wroteSize;
        if wroteSize % 2 == 1 {
          wantSize := wantSize + 1;
        }
      }
      i := i + 1;
    }
    assert Entries(ar[i..]) == [] by { EntriesNone(ar[i..]); }
    complete := wantSize == |text|;
  }

  lemma EntriesNone(ar: seq<Element>)
    requires |ar| == 0
    ensures Entries(ar) == []
  {
  }

  lemma EntrySize(ae: Element)
    requires Fits(ae)
    ensures InRange(ae) && |Entry(ae)| == 60 + |Body(ae)| + |Body(ae)| % 2
  {
    hide NameField, DataFields, Body;
    HeaderRead(ae, []);
  }
}
