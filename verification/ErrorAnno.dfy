/**
 Annotations in error messages: `ErrorHandler::make_anno`, `skip_anno` and `parse_anno` of
 `lib/error.cc`. A text ends where the reader is told to stop, and letters and digits are those
 of the C locale.
 */
module ErrorAnno {
  import opened Decimal

  predicate IsAlnum(c: char) {
    IsDigit(c) || 'A' <= c <= 'Z' || 'a' <= c <= 'z'
  }

  // Letters and digits are those of ASCII.
  lemma AlnumCodes(c: char)
    ensures IsAlnum(c) <==> 48 <= c as int <= 57 || 65 <= c as int <= 90 || 97 <= c as int <= 122
  {
  }

  // ----- Levels -------------------------------------------------------------------------

  function DigitsEnd(s: string, i: nat): (e: nat)
    requires i <= |s|
    ensures i <= e <= |s| && (forall k :: i <= k < e ==> IsDigit(s[k])) && (e < |s| ==> !IsDigit(s[e]))
    decreases |s| - i
  {
    if i < |s| && IsDigit(s[i]) then DigitsEnd(s, i + 1) else i
  }

  function SignEnd(s: string, i: nat): (e: nat)
    requires i <= |s|
    ensures i <= e <= |s| && e <= i + 1
  {
    if i < |s| && (s[i] == '-' || s[i] == '+') then i + 1 else i
  }

  // Where the number at i ends, or i when there is none. It may have a fraction.
  function LevelEnd(s: string, i: nat): (e: nat)
    requires i <= |s|
    ensures i <= e <= |s|
  {
    var digits := SignEnd(s, i);
    var whole := DigitsEnd(s, digits);
    var e := if whole < |s| && s[whole] == '.' then DigitsEnd(s, whole + 1) else whole;
    if e == digits || (e == digits + 1 && s[e - 1] == '.') then i else e
  }

  // The digits of a stretch of the text.
  function DigitsIn(s: string, i: nat, e: nat): (ds: seq<nat>)
    requires i <= e <= |s| && forall k :: i <= k < e ==> IsDigit(s[k])
    decreases e - i, s
  {
    if i == e then []
    else
      assert IsDigit(s[e - 1]);
      DigitsIn(s, i, e - 1) + [DigitValue(s[e - 1])]
  }

  function Number(s: string, i: nat, e: nat): nat
    requires i <= e <= |s| && forall k :: i <= k < e ==> IsDigit(s[k])
  {
    Nat(DigitsIn(s, i, e))
  }

  lemma NumberOfNone(s: string, i: nat)
    requires i <= |s|
    ensures Number(s, i, i) == 0
  {
  }

  lemma NumberPush(s: string, i: nat, e: nat)
    requires i <= e < |s| && forall k :: i <= k <= e ==> IsDigit(s[k])
    ensures Number(s, i, e + 1) == 10 * Number(s, i, e) + DigitValue(s[e])
  {
    NatPush(DigitsIn(s, i, e), DigitValue(s[e]));
  }

  // The integer that a level starts with.
  function LevelValue(s: string, i: nat): int
    requires i <= |s|
  {
    var digits := SignEnd(s, i);
    var n: int := Number(s, digits, DigitsEnd(s, digits));
    if i < |s| && s[i] == '-' then -n else n
  }

  predicate IsLevel(v: string) {
    |v| > 0 && LevelEnd(v, 0) == |v|
  }

  // ----- Writing ------------------------------------------------------------------------

  const LEVEL_NAME: string := ['<', '>']

  function Escape(v: string): string
    decreases |v|, v
  {
    if |v| == 0 then []
    else EscapeChar(v[0]) + Escape(v[1..])
  }

  function EscapeChar(c: char): string {
    if c == '\\' || c == '}' then ['\\', c] else if c == '\n' then ['\\', 'n'] else [c]
  }

  function MakeAnno(name: string, value: string): string {
    if name == LEVEL_NAME then (if LevelEnd(value, 0) == |value| then ['<'] + value + ['>'] else [])
    else ['{'] + name + [':'] + Escape(value) + ['}']
  }

  // ----- Reading ------------------------------------------------------------------------

  // What skip_anno returns and stores; the name is empty when there is no annotation.
  datatype Anno = Anno(end: nat, name: string, value: string)

  function AlnumEnd(s: string, i: nat): (e: nat)
    requires i <= |s|
    ensures i <= e <= |s| && (forall k :: i <= k < e ==> IsAlnum(s[k])) && (e < |s| ==> !IsAlnum(s[e]))
    decreases |s| - i
  {
    if i < |s| && IsAlnum(s[i]) then AlnumEnd(s, i + 1) else i
  }

  predicate IsEscape(s: string, i: nat)
    requires i < |s|
  {
    s[i] == '\\' && i + 1 < |s| && s[i + 1] != '\n'
  }

  // The value from i on, and where it stops.
  function ReadValue(s: string, i: nat, raw: bool): (r: (nat, string))
    requires i <= |s|
    ensures i <= r.0 <= |s|
    decreases |s| - i
  {
    if i == |s| || s[i] == '\n' || s[i] == '}' then (i, [])
    else if IsEscape(s, i) then
      var rest := ReadValue(s, i + 2, raw);
      (rest.0, (if raw then [s[i], s[i + 1]] else [if s[i + 1] == 'n' then '\n' else s[i + 1]]) + rest.1)
    else
      var rest := ReadValue(s, i + 1, raw);
      (rest.0, [s[i]] + rest.1)
  }

  function SkipLevel(s: string, i: nat): (a: Anno)
    requires i + 3 <= |s|
    ensures i <= a.end <= |s| && (|a.name| > 0 ==> a.end > i)
  {
    var x := LevelEnd(s, i + 1);
    if x != i + 1 && x != |s| && s[x] == '>' then Anno(x + 1, LEVEL_NAME, s[i + 1..x])
    else Anno(i, [], [])
  }

  function SkipNamed(s: string, i: nat, raw: bool): (a: Anno)
    requires i + 3 <= |s|
    ensures i <= a.end <= |s| && (|a.name| > 0 ==> a.end > i)
  {
    var e := AlnumEnd(s, i + 1);
    if e == |s| || e == i + 1 || (s[e] != '}' && s[e] != ':') then Anno(i, [], [])
    else if s[e] == '}' then Anno(e + 1, s[i + 1..e], [])
    else
      var (x, value) := ReadValue(s, e + 1, raw);
      if x < |s| && s[x] == '}' then Anno(x + 1, s[i + 1..e], value) else Anno(i, [], [])
  }

  function SkipAnno(s: string, i: nat, raw: bool): (a: Anno)
    requires i <= |s|
    ensures i <= a.end <= |s| && (|a.name| > 0 ==> a.end > i)
  {
    if i + 3 <= |s| && s[i] == '<' then SkipLevel(s, i)
    else if i + 2 <= |s| && s[i] == '{' && s[i + 1] == '}' then Anno(i + 2, [], [])
    else if i + 3 <= |s| && s[i] == '{' then SkipNamed(s, i, raw)
    else Anno(i, [], [])
  }

  // ----- Round trip ---------------------------------------------------------------------

  lemma {:induction false} ValueSuffix(pre: string, t: string, i: nat, raw: bool)
    requires i <= |t|
    ensures var r := ReadValue(t, i, raw);
            ReadValue(pre + t, |pre| + i, raw) == (|pre| + r.0, r.1)
    decreases |t| - i
  {
    var s := pre + t;
    if i < |t| && t[i] != '\n' && t[i] != '}' {
      assert s[|pre| + i] == t[i] && (i + 1 < |t| ==> s[|pre| + i + 1] == t[i + 1]);
      if IsEscape(t, i) {
        ValueSuffix(pre, t, i + 2, raw);
      } else {
        ValueSuffix(pre, t, i + 1, raw);
      }
    }
  }

  lemma ReadValueEnd(s: string, i: nat, raw: bool)
    requires i <= |s| && (i < |s| ==> s[i] == '\n' || s[i] == '}')
    ensures ReadValue(s, i, raw) == (i, [])
  {
  }

  lemma {:induction false} ReadEscaped(v: string, rest: string)
    ensures ReadValue(Escape(v) + ['}'] + rest, 0, false) == (|Escape(v)|, v)
    decreases |v|
  {
    hide Escape, EscapeChar, ReadValue;
    EscapeParts(v);
    var t := Escape(v) + ['}'] + rest;
    if |v| == 0 {
      assert t[0] == '}';
      ReadValueEnd(t, 0, false);
    } else {
      var piece, more := EscapeChar(v[0]), Escape(v[1..]) + ['}'] + rest;
      assert t == piece + more && [v[0]] + v[1..] == v;
      ReadEscaped(v[1..], rest);
      ValueSuffix(piece, more, 0, false);
      ReadPiece(v[0], more);
    }
  }

  lemma ReadPiece(c: char, more: string)
    ensures var s, n := EscapeChar(c) + more, |EscapeChar(c)|;
            var r := ReadValue(s, n, false);
            ReadValue(s, 0, false) == (r.0, [c] + r.1)
  {
    var s := EscapeChar(c) + more;
    assert s[0] == EscapeChar(c)[0];
    if c == '\\' || c == '}' || c == '\n' {
      assert s[1] == EscapeChar(c)[1];
    }
  }

  lemma EscapeParts(v: string)
    ensures Escape(v) == if |v| == 0 then [] else EscapeChar(v[0]) + Escape(v[1..])
  {
  }

  ghost predicate IsName(name: string) {
    |name| > 0 && forall k :: 0 <= k < |name| ==> IsAlnum(name[k])
  }

  // An annotation is read back, and reading stops at the rest of the text.
  lemma NamedRoundTrip(name: string, value: string, rest: string)
    requires IsName(name)
    ensures var made := MakeAnno(name, value);
            SkipAnno(made + rest, 0, false) == Anno(|made|, name, value)
  {
    hide ReadValue, LevelEnd, Escape, AlnumEnd;
    var made, n := MakeAnno(name, value), |name|;
    var s := made + rest;
    assert name != LEVEL_NAME by {
      assert IsAlnum(name[0]);
    }
    assert s == ['{'] + (name + ([':'] + (Escape(value) + ['}'] + rest)));
    assert forall k :: 0 <= k < n ==> s[k + 1] == name[k];
    assert s[n + 1] == ':' && AlnumEnd(s, 1) == n + 1 by {
      AlnumEndIs(s, 1, n + 1);
    }
    var front, t := ['{'] + name + [':'], Escape(value) + ['}'] + rest;
    assert s == front + t && s[1..n + 1] == name;
    ReadEscaped(value, rest);
    ValueSuffix(front, t, 0, false);
    assert s[n + 2 + |Escape(value)|] == t[|Escape(value)|] == '}';
  }

  lemma AlnumEndIs(s: string, i: nat, e: nat)
    requires i <= e < |s| && (forall k :: i <= k < e ==> IsAlnum(s[k])) && !IsAlnum(s[e])
    ensures AlnumEnd(s, i) == e
  {
  }

  lemma DigitsEndIs(s: string, i: nat, e: nat)
    requires i <= e <= |s| && (forall k :: i <= k < e ==> IsDigit(s[k])) && (e < |s| ==> !IsDigit(s[e]))
    ensures DigitsEnd(s, i) == e
  {
  }

  // A bracket ends a level.
  lemma LevelEndStops(v: string, rest: string)
    requires |rest| > 0 && rest[0] == '>'
    ensures LevelEnd(v + rest, 0) == LevelEnd(v, 0)
  {
    hide DigitsEnd;
    var s, digits := v + rest, SignEnd(v, 0);
    assert s[|v|] == '>' && forall k :: 0 <= k < |v| ==> s[k] == v[k];
    assert SignEnd(s, 0) == digits;
    DigitsStop(v, s, digits);
    var whole := DigitsEnd(v, digits);
    if whole < |v| && v[whole] == '.' {
      DigitsStop(v, s, whole + 1);
    }
  }

  lemma DigitsStop(v: string, s: string, i: nat)
    requires i <= |v| < |s| && s[|v|] == '>' && forall k :: 0 <= k < |v| ==> s[k] == v[k]
    ensures DigitsEnd(s, i) == DigitsEnd(v, i)
  {
    DigitsEndIs(s, i, DigitsEnd(v, i));
  }

  // A level annotation is read back exactly when its value is a number: nothing is made of
  // another value, and the two brackets made of an empty one are not an annotation.
  lemma LevelRoundTripIff(value: string, rest: string)
    ensures var made := MakeAnno(LEVEL_NAME, value);
            SkipAnno(made + rest, 0, false) == Anno(|made|, LEVEL_NAME, value) <==> IsLevel(value)
  {
    hide LevelEnd, SkipNamed;
    var made := MakeAnno(LEVEL_NAME, value);
    var s := made + rest;
    if LevelEnd(value, 0) == |value| {
      assert s == ['<'] + value + (['>'] + rest);
      LevelEndStops(value, ['>'] + rest);
      LevelSuffix(['<'], value + (['>'] + rest), 0);
      assert s == ['<'] + (value + (['>'] + rest));
      assert s[|value| + 1] == '>' && s[1..|value| + 1] == value;
    } else {
      assert s == rest;
    }
  }

  // The names that are read are those of levels and alphanumeric ones.
  lemma NamesRead(s: string, raw: bool)
    ensures var a := SkipAnno(s, 0, raw); |a.name| == 0 || a.name == LEVEL_NAME || IsName(a.name)
  {
    hide LevelEnd, ReadValue, AlnumEnd;
  }

  lemma NamelessRefused(value: string, rest: string)
    ensures var made := MakeAnno([], value); SkipAnno(made + rest, 0, false).end != |made|
  {
    hide LevelEnd, ReadValue, AlnumEnd;
    var s := MakeAnno([], value) + rest;
    assert s[0] == '{' && s[1] == ':';
    AlnumEndIs(s, 1, 1);
  }

  // Exactly the annotations with a nonempty alphanumeric name are read back, and those of
  // levels with a number.
  lemma AnnoRoundTripIff(name: string, value: string, rest: string)
    ensures var made := MakeAnno(name, value);
            SkipAnno(made + rest, 0, false) == Anno(|made|, name, value) <==> Readable((name, value))
  {
    hide SkipAnno, IsLevel, MakeAnno;
    if name == LEVEL_NAME {
      LevelRoundTripIff(value, rest);
      assert !IsAlnum(name[0]);
    } else if IsName(name) {
      NamedRoundTrip(name, value, rest);
    } else {
      NamesRead(MakeAnno(name, value) + rest, false);
      if |name| == 0 {
        NamelessRefused(value, rest);
      }
    }
  }

  // ----- What can be read ---------------------------------------------------------------

  // The parts of a value: a character, or any character but a newline behind a backslash.
  datatype Part = Plain(c: char) | Escaped(c: char)

  predicate IsPart(p: Part) {
    match p
    case Plain(c) => c !in ['\\', '}', '\n']
    case Escaped(c) => c != '\n'
  }

  function PartText(p: Part): string {
    if p.Plain? then [p.c] else ['\\', p.c]
  }

  // \n is a newline, and otherwise the backslash goes.
  function PartMeaning(p: Part): char {
    if p.Escaped? && p.c == 'n' then '\n' else p.c
  }

  function PartsText(ps: seq<Part>): string
    decreases |ps|
  {
    if |ps| == 0 then [] else PartText(ps[0]) + PartsText(ps[1..])
  }

  function PartsMeaning(ps: seq<Part>): (v: string)
    ensures |v| == |ps| && forall i :: 0 <= i < |ps| ==> v[i] == PartMeaning(ps[i])
  {
    seq(|ps|, i requires 0 <= i < |ps| => PartMeaning(ps[i]))
  }

  lemma {:induction false} PartsRead(ps: seq<Part>, rest: string, raw: bool)
    requires forall k :: 0 <= k < |ps| ==> IsPart(ps[k])
    requires |rest| > 0 ==> rest[0] == '\n' || rest[0] == '}'
    ensures ReadValue(PartsText(ps) + rest, 0, raw) == (|PartsText(ps)|, if raw then PartsText(ps) else PartsMeaning(ps))
    decreases |ps|
  {
    hide ReadValue, PartText, PartMeaning;
    var t := PartsText(ps) + rest;
    if |ps| == 0 {
      assert t == rest;
      ReadValueEnd(t, 0, raw);
    } else {
      var here, more := PartText(ps[0]), PartsText(ps[1..]) + rest;
      assert t == here + more;
      PartsRead(ps[1..], rest, raw);
      ValueSuffix(here, more, 0, raw);
      PartRead(ps[0], more, raw);
      assert PartsMeaning(ps) == [PartMeaning(ps[0])] + PartsMeaning(ps[1..]);
    }
  }

  lemma PartRead(p: Part, more: string, raw: bool)
    requires IsPart(p)
    ensures var s, n := PartText(p) + more, |PartText(p)|;
            var r := ReadValue(s, n, raw);
            ReadValue(s, 0, raw) == (r.0, (if raw then PartText(p) else [PartMeaning(p)]) + r.1)
  {
    var s := PartText(p) + more;
    assert s[0] == PartText(p)[0];
    if p.Escaped? {
      assert s[1] == p.c;
    }
  }

  // An annotation is a name and, behind a colon, a value that ends at a brace in its line. Its
  // value is read with its escapes, or as it is written when it is wanted raw.
  lemma ValueRead(name: string, ps: seq<Part>, rest: string, raw: bool)
    requires IsName(name) && forall k :: 0 <= k < |ps| ==> IsPart(ps[k])
    ensures var text := ['{'] + name + [':'] + PartsText(ps);
            SkipAnno(text + ['}'] + rest, 0, raw)
            == Anno(|text| + 1, name, if raw then PartsText(ps) else PartsMeaning(ps))
    ensures SkipAnno(['{'] + name + [':'] + PartsText(ps) + (['\n'] + rest), 0, raw) == Anno(0, [], [])
    ensures SkipAnno(['{'] + name + [':'] + PartsText(ps), 0, raw) == Anno(0, [], [])
  {
    hide ReadValue, AlnumEnd, PartsText, PartsMeaning, IsPart;
    var front, v := ['{'] + name + [':'], PartsText(ps);
    PartsRead(ps, ['}'] + rest, raw);
    PartsRead(ps, ['\n'] + rest, raw);
    PartsRead(ps, [], raw);
    assert front + v + ['}'] + rest == front + (v + (['}'] + rest));
    assert front + v + (['\n'] + rest) == front + (v + (['\n'] + rest));
    assert front + v == front + (v + []);
    ValueBehind(name, v + (['}'] + rest), raw);
    ValueBehind(name, v + (['\n'] + rest), raw);
    ValueBehind(name, v + [], raw);
  }

  // What comes of a name with a value behind it.
  lemma ValueBehind(name: string, t: string, raw: bool)
    requires IsName(name)
    ensures var (x, value) := ReadValue(t, 0, raw);
            SkipAnno(['{'] + name + [':'] + t, 0, raw)
            == if x < |t| && t[x] == '}' then Anno(|name| + 2 + x + 1, name, value) else Anno(0, [], [])
  {
    hide ReadValue, AlnumEnd;
    var front, n := ['{'] + name + [':'], |name|;
    var s := front + t;
    assert forall k :: 0 <= k < n ==> s[k + 1] == name[k];
    assert s[n + 1] == ':' && s[1..n + 1] == name;
    AlnumEndIs(s, 1, n + 1);
    ValueSuffix(front, t, 0, raw);
    var x := ReadValue(t, 0, raw).0;
    assert x < |t| ==> s[n + 2 + x] == t[x];
  }

  // Without a colon the value is empty, and without a name there is no annotation to report.
  lemma NameRead(name: string, rest: string, raw: bool)
    ensures IsName(name) ==> SkipAnno(['{'] + name + ['}'] + rest, 0, raw) == Anno(|name| + 2, name, [])
    ensures SkipAnno(['{', '}'] + rest, 0, raw) == Anno(2, [], [])
  {
    hide ReadValue, AlnumEnd;
    if IsName(name) {
      var s, n := ['{'] + name + ['}'] + rest, |name|;
      assert forall k :: 0 <= k < n ==> s[k + 1] == name[k];
      assert s[n + 1] == '}' && s[1..n + 1] == name;
      AlnumEndIs(s, 1, n + 1);
      assert IsAlnum(name[0]);
    }
    var s := ['{', '}'] + rest;
    assert s[0] == '{' && s[1] == '}';
  }

  // A level is a number with or without a sign and a fraction; its value is the integer part.
  lemma LevelRead(sign: string, a: seq<nat>, point: bool, c: seq<nat>, rest: string)
    requires (|sign| == 0 || sign == ['+'] || sign == ['-']) && AreDigits(a) && AreDigits(c) && (!point ==> |c| == 0)
    requires |rest| > 0 ==> !IsDigit(rest[0]) && (rest[0] == '.' ==> point)
    requires |rest| > 0 && |sign| + |a| == 0 && !point ==> rest[0] != '+' && rest[0] != '-'
    ensures var text := sign + Show(a) + (if point then ['.'] + Show(c) else []);
            LevelEnd(text + rest, 0) == (if |a| + |c| > 0 then |text| else 0)
            && var n: int := Nat(a); LevelValue(text + rest, 0) == if sign == ['-'] then -n else n
  {
    hide *;
    var fraction := if point then ['.'] + Show(c) else [];
    var s, i, j := sign + Show(a) + fraction + rest, |sign|, |sign| + |a|;
    DotIsNoDigit();
    assert |fraction + rest| > 0 ==> (fraction + rest)[0] == if point then '.' else rest[0];
    LevelStarts(sign, a, fraction + rest);
    Associate(sign + Show(a), fraction, rest);
    if point {
      FractionRead(sign + Show(a), c, rest);
    }
    Middle(sign + Show(a), fraction, rest);
    LevelOf(s, i, j, point, if point then j + 1 + |c| else j);
  }

  lemma Associate(a: string, b: string, c: string)
    ensures a + b + c == a + (b + c)
  {
  }

  lemma LevelStarts(sign: string, a: seq<nat>, rest: string)
    requires (|sign| == 0 || sign == ['+'] || sign == ['-']) && AreDigits(a) && (|rest| > 0 ==> !IsDigit(rest[0]))
    requires |rest| > 0 && |sign| + |a| == 0 ==> rest[0] != '+' && rest[0] != '-'
    ensures var s, j := sign + Show(a) + rest, |sign| + |a|;
            |sign + Show(a)| == j && SignEnd(s, 0) == |sign| && DigitsEnd(s, |sign|) == j
            && Number(s, |sign|, j) == Nat(a) && (sign == ['-'] <==> |s| > 0 && s[0] == '-')
  {
    hide IsDigit, SignEnd, DigitsEnd, DigitsIn, Number, Nat, Show;
    ShowDigits(a);
    SignRead(sign, Show(a), rest);
    DigitsRead(sign, a, rest);
  }

  lemma FractionRead(front: string, c: seq<nat>, rest: string)
    requires AreDigits(c) && (|rest| > 0 ==> !IsDigit(rest[0]))
    ensures var s, j := front + (['.'] + Show(c)) + rest, |front|;
            s[j] == '.' && DigitsEnd(s, j + 1) == j + 1 + |c| && |['.'] + Show(c)| == 1 + |c|
  {
    hide IsDigit, DigitsEnd, DigitsIn, Number, Nat, Show;
    ShowDigits(c);
    Grouped(front, ['.'], Show(c), rest);
    DigitsRead(front + ['.'], c, rest);
  }

  lemma DotIsNoDigit()
    ensures !IsDigit('.')
  {
  }

  lemma LevelOf(s: string, i: nat, j: nat, point: bool, e: nat)
    requires i <= j <= e <= |s| && SignEnd(s, 0) == i && DigitsEnd(s, i) == j
    requires if point then j < e && s[j] == '.' && DigitsEnd(s, j + 1) == e else e == j && (j < |s| ==> s[j] != '.')
    ensures LevelEnd(s, 0) == if j > i || e > j + 1 then e else 0
    ensures var n: int := Number(s, i, j); LevelValue(s, 0) == if |s| > 0 && s[0] == '-' then -n else n
  {
    hide DigitsEnd, SignEnd, Number;
  }

  lemma ShowDigits(a: seq<nat>)
    requires AreDigits(a)
    ensures |Show(a)| == |a| && forall k :: 0 <= k < |a| ==> IsDigit(Show(a)[k])
  {
  }

  lemma Grouped(a: string, b: string, c: string, d: string)
    ensures a + (b + c) + d == a + b + c + d
  {
  }

  lemma SignRead(sign: string, digits: string, rest: string)
    requires |sign| == 0 || sign == ['+'] || sign == ['-']
    requires (forall k :: 0 <= k < |digits| ==> IsDigit(digits[k])) && (|rest| > 0 ==> !IsDigit(rest[0]))
    requires |digits| == 0 && |rest| > 0 && |sign| == 0 ==> rest[0] !in ['+', '-']
    ensures SignEnd(sign + digits + rest, 0) == |sign|
    ensures sign == ['-'] <==> |sign + digits + rest| > 0 && (sign + digits + rest)[0] == '-'
  {
    var s := sign + digits + rest;
    if |sign| > 0 {
      assert s[0] == sign[0];
    } else if |digits| > 0 {
      assert s[0] == digits[0];
    } else if |rest| > 0 {
      assert s[0] == rest[0];
    }
  }

  lemma DigitsRead(front: string, a: seq<nat>, rest: string)
    requires AreDigits(a) && (|rest| > 0 ==> !IsDigit(rest[0]))
    ensures var s, i := front + Show(a) + rest, |front|;
            DigitsEnd(s, i) == i + |a| && Number(s, i, i + |a|) == Nat(a)
  {
    hide *;
    var s, i := front + Show(a) + rest, |front|;
    ShowDigits(a);
    Middle(front, Show(a), rest);
    DigitsStand(s, i, a);
  }

  lemma DigitsStand(s: string, i: nat, a: seq<nat>)
    requires AreDigits(a) && i + |a| <= |s| && forall k :: i <= k < i + |a| ==> s[k] == Show(a)[k - i]
    requires i + |a| < |s| ==> !IsDigit(s[i + |a|])
    ensures DigitsEnd(s, i) == i + |a| && Number(s, i, i + |a|) == Nat(a)
  {
    hide DigitsEnd, DigitsIn, Nat;
    DigitsInShow(s, i, a, |a|);
    DigitsEndIs(s, i, i + |a|);
    assert a[..|a|] == a;
  }

  lemma Middle(front: string, m: string, rest: string)
    ensures var s, i := front + m + rest, |front|;
            (forall k :: i <= k < i + |m| ==> s[k] == m[k - i]) && (|rest| > 0 ==> s[i + |m|] == rest[0])
  {
  }

  lemma {:induction false} DigitsInShow(s: string, i: nat, a: seq<nat>, n: nat)
    requires AreDigits(a) && n <= |a| && i + |a| <= |s| && forall k :: i <= k < i + |a| ==> s[k] == Show(a)[k - i]
    ensures (forall k :: i <= k < i + n ==> IsDigit(s[k])) && DigitsIn(s, i, i + n) == a[..n]
    decreases n
  {
    if n > 0 {
      DigitsInShow(s, i, a, n - 1);
      assert s[i + n - 1] == Show(a)[n - 1] == DigitChar(a[n - 1]);
      assert a[..n] == a[..n - 1] + [a[n - 1]];
    }
  }

  // ----- Runs of annotations --------------------------------------------------------------

  // What parse_anno fills in: a string, or the number of a level for a name with a hash mark.
  datatype Value = Text(text: string) | Level(level: int)

  function Updated(wanted: string, current: Value, name: string, value: string): Value
    requires |wanted| > 0
  {
    if wanted[0] == '#' then
      if name == wanted[1..] && LevelEnd(value, 0) > 0 then Level(LevelValue(value, 0)) else current
    else if name == wanted then Text(value)
    else current
  }

  // Where the annotations from i on end.
  function AnnosEnd(s: string, i: nat): (e: nat)
    requires i <= |s|
    ensures i <= e <= |s|
    decreases |s| - i
  {
    var a := SkipAnno(s, i, false);
    if |a.name| == 0 then a.end else AnnosEnd(s, a.end)
  }

  // What they make of one of the names wanted.
  function ParseAnno(s: string, i: nat, wanted: string, current: Value): Value
    requires i <= |s| && |wanted| > 0
    decreases |s| - i
  {
    var a := SkipAnno(s, i, false);
    if |a.name| == 0 then current
    else ParseAnno(s, a.end, wanted, Updated(wanted, current, a.name, a.value))
  }

  // The text of a run of annotations.
  function Run(annos: seq<(string, string)>): string
    decreases |annos|
  {
    if |annos| == 0 then [] else MakeAnno(annos[0].0, annos[0].1) + Run(annos[1..])
  }

  // The last value of a name in a run that counts for what is wanted.
  function Last(annos: seq<(string, string)>, wanted: string, initial: Value): Value
    requires |wanted| > 0
    decreases |annos|
  {
    if |annos| == 0 then initial
    else
      var n := |annos| - 1;
      Updated(wanted, Last(annos[..n], wanted, initial), annos[n].0, annos[n].1)
  }

  // Annotations that are read back.
  ghost predicate Readable(a: (string, string)) {
    IsName(a.0) || (a.0 == LEVEL_NAME && IsLevel(a.1))
  }

  // Reading does not depend on what is in front.
  lemma {:induction false} DigitsSuffix(pre: string, t: string, i: nat)
    requires i <= |t|
    ensures DigitsEnd(pre + t, |pre| + i) == |pre| + DigitsEnd(t, i)
  {
    var s, e := pre + t, DigitsEnd(t, i);
    assert forall k :: |pre| + i <= k < |pre| + e ==> s[k] == t[k - |pre|];
    DigitsEndIs(s, |pre| + i, |pre| + e);
  }

  lemma LevelSuffix(pre: string, t: string, i: nat)
    requires i <= |t|
    ensures LevelEnd(pre + t, |pre| + i) == |pre| + LevelEnd(t, i)
  {
    hide DigitsEnd;
    var s, digits := pre + t, SignEnd(t, i);
    assert SignEnd(s, |pre| + i) == |pre| + digits;
    DigitsSuffix(pre, t, digits);
    var whole := DigitsEnd(t, digits);
    if whole < |t| && t[whole] == '.' {
      DigitsSuffix(pre, t, whole + 1);
    }
  }

  lemma AlnumSuffix(pre: string, t: string, i: nat)
    requires i <= |t|
    ensures AlnumEnd(pre + t, |pre| + i) == |pre| + AlnumEnd(t, i)
  {
    var s, e := pre + t, AlnumEnd(t, i);
    assert forall k :: |pre| + i <= k < |pre| + e ==> s[k] == t[k - |pre|];
    if e < |t| {
      assert s[|pre| + e] == t[e];
      AlnumEndIs(s, |pre| + i, |pre| + e);
    }
  }

  lemma SkipLevelSuffix(pre: string, t: string)
    requires |t| >= 3
    ensures var a := SkipLevel(t, 0);
            SkipLevel(pre + t, |pre|) == Anno(|pre| + a.end, a.name, a.value)
  {
    hide LevelEnd;
    var s, x := pre + t, LevelEnd(t, 1);
    LevelSuffix(pre, t, 1);
    assert s[|pre| + 1..|pre| + x] == t[1..x];
    if x < |t| {
      assert s[|pre| + x] == t[x];
    }
  }

  lemma SameSlice(pre: string, t: string, a: nat, b: nat)
    requires a <= b <= |t|
    ensures (pre + t)[|pre| + a..|pre| + b] == t[a..b] && (b < |t| ==> (pre + t)[|pre| + b] == t[b])
  {
  }

  lemma SkipNamedSuffix(pre: string, t: string, raw: bool)
    requires |t| >= 3
    ensures var a := SkipNamed(t, 0, raw);
            SkipNamed(pre + t, |pre|, raw) == Anno(|pre| + a.end, a.name, a.value)
  {
    hide AlnumEnd, ReadValue;
    var e := AlnumEnd(t, 1);
    AlnumSuffix(pre, t, 1);
    SameSlice(pre, t, 1, e);
    if e < |t| {
      ValueSuffix(pre, t, e + 1, raw);
      SameSlice(pre, t, 0, ReadValue(t, e + 1, raw).0);
    }
  }

  lemma SkipSuffix(pre: string, t: string, raw: bool)
    ensures var a := SkipAnno(t, 0, raw);
            SkipAnno(pre + t, |pre|, raw) == Anno(|pre| + a.end, a.name, a.value)
  {
    hide SkipLevel, SkipNamed;
    var s := pre + t;
    assert |t| > 0 ==> s[|pre|] == t[0];
    assert |t| > 1 ==> s[|pre| + 1] == t[1];
    if |t| >= 3 {
      SkipLevelSuffix(pre, t);
      SkipNamedSuffix(pre, t, raw);
    }
  }

  lemma ReadableRead(a: (string, string), pre: string, rest: string)
    requires Readable(a)
    ensures var made := MakeAnno(a.0, a.1);
            |a.0| > 0 && SkipAnno(pre + (made + rest), |pre|, false) == Anno(|pre| + |made|, a.0, a.1)
  {
    hide SkipAnno, IsLevel;
    var made := MakeAnno(a.0, a.1);
    SkipSuffix(pre, made + rest, false);
    if IsName(a.0) {
      NamedRoundTrip(a.0, a.1, rest);
    } else {
      LevelRoundTripIff(a.1, rest);
    }
  }

  lemma {:induction false} LastIsFold(a: (string, string), annos: seq<(string, string)>, wanted: string, initial: Value)
    requires |wanted| > 0
    ensures Last([a] + annos, wanted, initial) == Last(annos, wanted, Updated(wanted, initial, a.0, a.1))
    decreases |annos|
  {
    hide Updated;
    var all := [a] + annos;
    if |annos| == 0 {
      assert all[..0] == [] && all == [a];
      LastNone(all[..0], wanted, initial);
    } else {
      var n := |annos| - 1;
      LastIsFold(a, annos[..n], wanted, initial);
      assert all[..n + 1] == [a] + annos[..n];
    }
  }

  lemma LastNone(annos: seq<(string, string)>, wanted: string, initial: Value)
    requires |annos| == 0 && |wanted| > 0
    ensures Last(annos, wanted, initial) == initial
  {
  }

  lemma RunParts(annos: seq<(string, string)>)
    ensures Run(annos) == if |annos| == 0 then [] else MakeAnno(annos[0].0, annos[0].1) + Run(annos[1..])
  {
  }

  lemma ParseFirst(s: string, i: nat, wanted: string, current: Value)
    requires i <= |s| && |wanted| > 0
    ensures var a := SkipAnno(s, i, false);
            AnnosEnd(s, i) == (if |a.name| == 0 then a.end else AnnosEnd(s, a.end))
            && ParseAnno(s, i, wanted, current)
            == if |a.name| == 0 then current
               else ParseAnno(s, a.end, wanted, Updated(wanted, current, a.name, a.value))
  {
  }

  // Parsing a run keeps the last value of every name, and stops at the rest of the text.
  lemma {:induction false} ParseRun(pre: string, annos: seq<(string, string)>, rest: string, wanted: string,
                                    initial: Value)
    requires |wanted| > 0 && forall a :: a in annos ==> Readable(a)
    requires |SkipAnno(rest, 0, false).name| == 0
    ensures var text := pre + (Run(annos) + rest);
            AnnosEnd(text, |pre|) == |pre| + |Run(annos)| + SkipAnno(rest, 0, false).end
            && ParseAnno(text, |pre|, wanted, initial) == Last(annos, wanted, initial)
    decreases |annos|
  {
    hide SkipAnno, MakeAnno, Updated, Last, Readable, LevelEnd, LevelValue, AnnosEnd, ParseAnno, Run;
    RunParts(annos);
    ParseFirst(pre + (Run(annos) + rest), |pre|, wanted, initial);
    if |annos| == 0 {
      assert Run(annos) + rest == rest;
      SkipSuffix(pre, rest, false);
      LastNone(annos, wanted, initial);
    } else {
      var a, more := annos[0], annos[1..];
      var made := MakeAnno(a.0, a.1);
      assert a in annos && forall b :: b in more ==> b in annos;
      ReadableRead(a, pre, Run(more) + rest);
      assert pre + (Run(annos) + rest) == pre + (made + (Run(more) + rest));
      ParseRun(pre + made, more, rest, wanted, Updated(wanted, initial, a.0, a.1));
      assert pre + made + (Run(more) + rest) == pre + (made + (Run(more) + rest));
      LastIsFold(a, more, wanted, initial);
      assert annos == [a] + more;
    }
  }

  // A name that is wanted as a string gets its last value.
  lemma {:induction false} LastValue(annos: seq<(string, string)>, wanted: string, initial: Value, k: nat)
    requires |wanted| > 0 && wanted[0] != '#' && k < |annos| && annos[k].0 == wanted
    requires forall j :: k < j < |annos| ==> annos[j].0 != wanted
    ensures Last(annos, wanted, initial) == Text(annos[k].1)
    decreases |annos|
  {
    if k + 1 < |annos| {
      LastValue(annos[..|annos| - 1], wanted, initial, k);
    }
  }

  // A name that is wanted as a level gets its last value that starts with a number.
  lemma {:induction false} LastLevel(annos: seq<(string, string)>, wanted: string, initial: Value, k: nat)
    requires |wanted| > 0 && wanted[0] == '#' && k < |annos| && annos[k].0 == wanted[1..]
    requires LevelEnd(annos[k].1, 0) > 0
    requires forall j :: k < j < |annos| ==> annos[j].0 != wanted[1..] || LevelEnd(annos[j].1, 0) == 0
    ensures Last(annos, wanted, initial) == Level(LevelValue(annos[k].1, 0))
    decreases |annos|
  {
    hide LevelEnd, LevelValue;
    if k + 1 < |annos| {
      LastLevel(annos[..|annos| - 1], wanted, initial, k);
    }
  }

  // ----- The code -----------------------------------------------------------------------

  lemma LevelIs(s: string, i: nat, digits: nat)
    requires i <= |s| && digits == SignEnd(s, i)
    ensures var whole := DigitsEnd(s, digits);
            var e := if whole < |s| && s[whole] == '.' then DigitsEnd(s, whole + 1) else whole;
            LevelEnd(s, i) == (if e == digits || (e == digits + 1 && s[e - 1] == '.') then i else e)
            && LevelValue(s, i)
            == var n: int := Number(s, digits, whole);
               if i < |s| && s[i] == '-' then -n else n
  {
    hide DigitsEnd, Number;
  }

  method ParseLevel(s: string, begin: nat) returns (end: nat, result: int)
    requires begin <= |s|
    ensures end == LevelEnd(s, begin) && result == LevelValue(s, begin)
  {
    hide DigitsEnd, Number, LevelEnd, LevelValue;
    var x: nat, i: nat, negative := 0, begin, false;
    if i != |s| && s[i] == '-' {
      negative := true;
      i := i + 1;
    } else if i != |s| && s[i] == '+' {
      i := i + 1;
    }
    var digits := i;
    LevelIs(s, begin, digits);
    i, x := ReadDigits(s, digits);
    if i != |s| && s[i] == '.' {
      i := SkipDigits(s, i + 1);
    }
    var n: int := x;
    result := if negative then -n else n;
    end := if i == digits || (i == digits + 1 && s[i - 1] == '.') then begin else i;
  }

  method ReadDigits(s: string, i: nat) returns (e: nat, x: nat)
    requires i <= |s|
    ensures e == DigitsEnd(s, i) && x == Number(s, i, e)
  {
    hide Number;
    e, x := i, 0;
    NumberOfNone(s, i);
    while e != |s| && '0' <= s[e] <= '9'
      invariant i <= e <= |s| && DigitsEnd(s, e) == DigitsEnd(s, i) && (forall k :: i <= k < e ==> IsDigit(s[k]))
      invariant x == Number(s, i, e)
    {
      NumberPush(s, i, e);
      x := x * 10 + DigitValue(s[e]);
      e := e + 1;
    }
  }

  method SkipDigits(s: string, i: nat) returns (e: nat)
    requires i <= |s|
    ensures e == DigitsEnd(s, i)
  {
    e := i;
    while e != |s| && '0' <= s[e] <= '9'
      invariant i <= e <= |s| && DigitsEnd(s, e) == DigitsEnd(s, i)
    {
      e := e + 1;
    }
  }

  method WriteAnno(name: string, value: string) returns (sa: string)
    ensures sa == MakeAnno(name, value)
  {
    hide LevelEnd, LevelValue;
    if name == LEVEL_NAME {
      var end, _ := ParseLevel(value, 0);
      if end == |value| {
        return ['<'] + value + ['>'];
      } else {
        return [];
      }
    }
    var escaped := WriteEscaped(value);
    sa := ['{'] + name + [':'] + escaped + ['}'];
  }

  // Stretches of ordinary characters are appended whole.
  method WriteEscaped(value: string) returns (sa: string)
    ensures sa == Escape(value)
  {
    hide Escape;
    sa := [];
    var last: nat, s: nat := 0, 0;
    assert value[0..] == value && [] + value[0..0] + Escape(value) == Escape(value);
    while s != |value|
      invariant last <= s <= |value| && sa + value[last..s] + Escape(value[s..]) == Escape(value)
      decreases |value| - s
    {
      ghost var before, c := sa + value[last..s], EscapeChar(value[s]);
      EscapeStep(value, s);
      assert before + (c + Escape(value[s + 1..])) == before + c + Escape(value[s + 1..]);
      if value[s] == '\\' || value[s] == '}' {
        sa := sa + value[last..s] + ['\\', value[s]];
        last := s + 1;
      } else if value[s] == '\n' {
        sa := sa + value[last..s] + ['\\', 'n'];
        last := s + 1;
      }
      s := s + 1;
      assert sa + value[last..s] == before + c;
    }
    sa := sa + value[last..s];
    EscapeNone(value[s..]);
  }

  lemma EscapeStep(v: string, s: nat)
    requires s < |v|
    ensures var c := v[s];
            Escape(v[s..]) == EscapeChar(c) + Escape(v[s + 1..])
  {
    assert v[s..][1..] == v[s + 1..];
  }

  lemma EscapeNone(v: string)
    requires |v| == 0
    ensures Escape(v) == []
  {
  }

  method ReadAnno(str: string, begin: nat, raw: bool) returns (end: nat, name: string, value: string)
    requires begin <= |str|
    ensures Anno(end, name, value) == SkipAnno(str, begin, raw)
  {
    hide LevelEnd, LevelValue, ReadValue, AlnumEnd;
    end, name, value := begin, [], [];
    var s: nat := begin;
    if s + 3 <= |str| && str[s] == '<' {
      var x, _ := ParseLevel(str, s + 1);
      if x != s + 1 && x != |str| && str[x] == '>' {
        name := LEVEL_NAME;
        value := str[begin + 1..x];
        end := x + 1;
      }
    } else if s + 2 <= |str| && str[s] == '{' && str[s + 1] == '}' {
      end := begin + 2;
    } else if s + 3 <= |str| && str[s] == '{' {
      s := SkipAlnum(str, s + 1);
      if s == |str| || s == begin + 1 || (str[s] != '}' && str[s] != ':') {
      } else if str[s] == '}' {
        name := str[begin + 1..s];
        end := s + 1;
      } else {
        var x, text := ReadAnnoValue(str, s + 1, raw);
        if x != |str| && str[x] == '}' {
          name := str[begin + 1..s];
          value := text;
          end := x + 1;
        }
      }
    }
  }

  method SkipAlnum(str: string, i: nat) returns (s: nat)
    requires i <= |str|
    ensures s == AlnumEnd(str, i)
  {
    s := i;
    while s != |str| && IsAlnum(str[s])
      invariant i <= s <= |str| && AlnumEnd(str, s) == AlnumEnd(str, i)
    {
      s := s + 1;
    }
  }

  // Nothing is copied before the first escape, and none when the text is wanted raw.
  method ReadAnnoValue(str: string, start: nat, raw: bool) returns (x: nat, value: string)
    requires start <= |str|
    ensures (x, value) == ReadValue(str, start, raw)
  {
    hide ReadValue, Piece;
    var last: nat, sa: string := start, [];
    x := start;
    ghost var all := ReadValue(str, start, raw);
    assert [] + str[start..start] + all.1 == all.1;
    while x != |str| && str[x] != '\n' && str[x] != '}'
      invariant start <= last <= x <= |str| && (|sa| == 0 ==> last == start)
      invariant all == (ReadValue(str, x, raw).0, sa + str[last..x] + ReadValue(str, x, raw).1)
      decreases |str| - x
    {
      ghost var before, piece := sa + str[last..x], Piece(str, x, raw);
      ReadValueStep(str, x, raw, before);
      PieceIs(sa, str, last, x, raw);
      if str[x] == '\\' && x + 1 != |str| && str[x + 1] != '\n' {
        if !raw {
          sa := sa + str[last..x] + [if str[x + 1] == 'n' then '\n' else str[x + 1]];
          last := x + 2;
        }
        x := x + 1;
      }
      x := x + 1;
      assert sa + str[last..x] == before + piece;
    }
    ReadValueEnd(str, x, raw);
    assert sa + str[last..x] + [] == sa + str[last..x];
    if |sa| > 0 {
      value := sa + str[last..x];
    } else {
      value := str[start..x];
      assert value == sa + str[last..x];
    }
  }

  // What one character or escape of a value stands for.
  function Piece(s: string, i: nat, raw: bool): string
    requires i < |s|
  {
    if !IsEscape(s, i) then [s[i]]
    else if raw then [s[i], s[i + 1]]
    else [if s[i + 1] == 'n' then '\n' else s[i + 1]]
  }

  lemma PieceIs(sa: string, s: string, last: nat, i: nat, raw: bool)
    requires last <= i < |s|
    ensures !IsEscape(s, i) ==> sa + s[last..i + 1] == sa + s[last..i] + Piece(s, i, raw)
    ensures IsEscape(s, i) && raw ==> sa + s[last..i + 2] == sa + s[last..i] + Piece(s, i, raw)
    ensures IsEscape(s, i) && !raw ==> Piece(s, i, raw) == [if s[i + 1] == 'n' then '\n' else s[i + 1]]
  {
  }

  lemma ReadValueStep(s: string, i: nat, raw: bool, before: string)
    requires i < |s| && s[i] != '\n' && s[i] != '}'
    ensures var r, rest := ReadValue(s, i, raw), ReadValue(s, if IsEscape(s, i) then i + 2 else i + 1, raw);
            r.0 == rest.0 && before + r.1 == before + Piece(s, i, raw) + rest.1
  {
    var rest := ReadValue(s, if IsEscape(s, i) then i + 2 else i + 1, raw);
    assert before + (Piece(s, i, raw) + rest.1) == before + Piece(s, i, raw) + rest.1;
  }

  // Fills in what is wanted of the annotations at the front of a text.
  method ReadAnnos(str: string, start: nat, wanted: seq<string>, initial: seq<Value>)
    returns (begin: nat, values: seq<Value>)
    requires start <= |str| && |wanted| == |initial| <= 8 && forall i :: 0 <= i < |wanted| ==> |wanted[i]| > 0
    ensures begin == AnnosEnd(str, start) && |values| == |wanted|
    ensures forall i :: 0 <= i < |wanted| ==> values[i] == ParseAnno(str, start, wanted[i], initial[i])
  {
    hide SkipAnno, LevelEnd, LevelValue;
    begin, values := start, initial;
    while true
      invariant start <= begin <= |str| && |values| == |wanted| && AnnosEnd(str, begin) == AnnosEnd(str, start)
      invariant forall i :: 0 <= i < |wanted| ==>
        ParseAnno(str, begin, wanted[i], values[i]) == ParseAnno(str, start, wanted[i], initial[i])
      decreases |str| - begin
    {
      var end, name, value := ReadAnno(str, begin, false);
      if |name| == 0 {
        begin := end;
        break;
      }
      ghost var was := values;
      var i: nat := 0;
      while i < |wanted|
        invariant i <= |wanted| == |values|
        invariant forall k :: 0 <= k < |wanted| ==>
          values[k] == if k < i then Updated(wanted[k], was[k], name, value) else was[k]
      {
        if wanted[i][0] == '#' {
          if name == wanted[i][1..] {
            var e, level := ParseLevel(value, 0);
            if e != 0 {
              values := values[i := Level(level)];
            }
          }
        } else if name == wanted[i] {
          values := values[i := Text(value)];
        }
        i := i + 1;
      }
      begin := end;
    }
  }
}
