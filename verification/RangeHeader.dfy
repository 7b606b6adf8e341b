/** The Range header parser of the mirror server, against single byte ranges as section
    14.1.2 of RFC 9110 defines them. */
module RangeHeader {
  import opened Common
  import Decimal

  // ----- Python's string and integer conversions, on ASCII text -----

  predicate IsSpace(c: char) {
    var n := c as int;
    n == 32 || 9 <= n <= 13 || 28 <= n <= 31
  }

  function StripLeft(s: string): string {
    if s != "" && IsSpace(s[0]) then StripLeft(s[1..]) else s
  }

  function StripRight(s: string): string {
    if s != "" && IsSpace(s[|s| - 1]) then StripRight(s[..|s| - 1]) else s
  }

  function Strip(s: string): string {
    StripRight(StripLeft(s))
  }

  /** Digits, with single underscores between them. */
  predicate IsUnsigned(s: string) {
    && s != "" && Decimal.IsDigit(s[0]) && Decimal.IsDigit(s[|s| - 1])
    && (forall i :: 0 <= i < |s| ==> Decimal.IsDigit(s[i]) || s[i] == '_')
    && (forall i :: 0 <= i < |s| - 1 ==> s[i] != '_' || s[i + 1] != '_')
  }

  function WithoutUnderscores(s: string): string {
    if s == "" then "" else (if s[0] == '_' then "" else [s[0]]) + WithoutUnderscores(s[1..])
  }

  lemma {:induction false} UnderscoresDrop(s: string)
    requires forall i :: 0 <= i < |s| ==> Decimal.IsDigit(s[i]) || s[i] == '_'
    ensures forall i :: 0 <= i < |WithoutUnderscores(s)| ==> Decimal.IsDigit(WithoutUnderscores(s)[i])
  {
    if s != "" {
      UnderscoresDrop(s[1..]);
    }
  }

  function Unsigned(s: string): Option<nat> {
    if IsUnsigned(s) then
      UnderscoresDrop(s);
      assert WithoutUnderscores(s)[0] == s[0];
      Some(Decimal.Value(WithoutUnderscores(s)))
    else None
  }

  /** `int(text)`; none is a `ValueError`. */
  function PyInt(text: string): Option<int> {
    var s := Strip(text);
    if s != "" && s[0] == '+' then
      Unsigned(s[1..])
    else if s != "" && s[0] == '-' then
      var n: Option<int> := Unsigned(s[1..]);
      if n.Some? then Some(-n.value) else None
    else
      Unsigned(s)
  }

  /** The text before the first dash and the text after it. */
  function SplitDash(s: string): (r: (string, string))
    requires '-' in s
    ensures '-' !in r.0 && s == r.0 + "-" + r.1
  {
    if s[0] == '-' then ("", s[1..])
    else
      assert s == [s[0]] + s[1..];
      var (a, b) := SplitDash(s[1..]);
      ([s[0]] + a, b)
  }

  // ----- The parser -----

  datatype Range = Range(first: int, last: int) {
    function ContentLength(): int {
      last - first + 1
    }
  }

  /** The two numbers of the header, each possibly absent; none if the header is refused. */
  datatype Fields = Fields(start: Option<int>, end: Option<int>)

  function ParseField(text: string): (r: Option<Option<int>>) {
    if text == "" then Some(None)
    else
      var n := PyInt(text);
      if n.Some? then Some(n) else None
  }

  function ParseFields(header: string): Option<Fields> {
    var spec := Strip(header);
    if !("bytes=" <= spec) then None
    else if ',' in spec[6..] || '-' !in spec[6..] then None
    else
      var (a, b) := SplitDash(spec[6..]);
      var start, end := ParseField(a), ParseField(b);
      if start.Some? && end.Some? then Some(Fields(start.value, end.value)) else None
  }

  function ParseRange(header: string, fileSize: nat): Option<Range> {
    var fields := ParseFields(header);
    if fields.None? then None
    else
      match fields.value
      case Fields(Some(start), Some(end)) =>
        if start > end || start >= fileSize then None
        else Some(Range(start, if end < fileSize - 1 then end else fileSize - 1))
      case Fields(Some(start), None) =>
        if start >= fileSize then None else Some(Range(start, fileSize - 1))
      case Fields(None, Some(end)) =>
        Some(Range(if fileSize - end > 0 then fileSize - end else 0, fileSize - 1))
      case Fields(None, None) => None
  }

  // ----- What may come out -----

  lemma {:induction false} StripKeepsOut(s: string, c: char)
    requires c !in s
    ensures c !in Strip(s)
  {
    StripLeftKeepsOut(s, c);
    StripRightKeepsOut(StripLeft(s), c);
  }

  lemma {:induction false} StripLeftKeepsOut(s: string, c: char)
    requires c !in s
    ensures c !in StripLeft(s)
  {
    if s != "" && IsSpace(s[0]) {
      StripLeftKeepsOut(s[1..], c);
    }
  }

  lemma {:induction false} StripRightKeepsOut(s: string, c: char)
    requires c !in s
    ensures c !in StripRight(s)
  {
    if s != "" && IsSpace(s[|s| - 1]) {
      StripRightKeepsOut(s[..|s| - 1], c);
    }
  }

  /** A start cannot be negative: the first dash ends it. */
  lemma StartIsNatural(header: string)
    requires ParseFields(header).Some? && ParseFields(header).value.start.Some?
    ensures ParseFields(header).value.start.value >= 0
  {
    var (a, b) := SplitDash(Strip(header)[6..]);
    StripKeepsOut(a, '-');
    assert Strip(a) != "" ==> Strip(a)[0] in Strip(a);
  }

  /** The exact condition for every header: an accepted range is a non-empty part of the
      file unless it is a suffix range of an empty file or of fewer than one byte. */
  lemma AcceptedRangeIsWithinFile(header: string, fileSize: nat)
    requires ParseRange(header, fileSize).Some?
    ensures ParseFields(header).Some?
    ensures var r, f := ParseRange(header, fileSize).value, ParseFields(header).value;
            && (0 <= r.first <= r.last < fileSize <==>
                  f.start.Some? || (f.end.Some? && f.end.value >= 1 && fileSize >= 1))
            && r.first >= 0 && r.last < fileSize
  {
    var f := ParseFields(header).value;
    if f.start.Some? {
      StartIsNatural(header);
    }
  }

  /** A suffix range whose length is a negative number. */
  predicate NegativeSuffix(header: string) {
    var fields := ParseFields(header);
    fields.Some? && fields.value.start.None? && fields.value.end.Some? && fields.value.end.value < 0
  }

  /** Exactly such a header yields a range of negative length. */
  lemma NegativeLength(header: string, fileSize: nat)
    requires ParseRange(header, fileSize).Some?
    ensures ParseRange(header, fileSize).value.ContentLength() < 0 <==> NegativeSuffix(header)
  {
    AcceptedRangeIsWithinFile(header, fileSize);
  }

  /** Two dashes: of ten bytes, the range from the sixteenth to the tenth. */
  lemma DoubleDash()
    ensures NegativeSuffix("bytes=--5") && ParseRange("bytes=--5", 10) == Some(Range(15, 9))
  {
    var header := "bytes=--5";
    assert header == "bytes=" + "" + "-" + "-5";
    assert Strip(header) == header;
    assert header[6..] == "--5" && SplitDash("--5") == ("", "-5");
    assert PyInt("-5") == Some(-5) by {
      assert Strip("-5") == "-5" && "-5"[1..] == "5";
      assert Decimal.Print(5) == "5";
      PyIntReadsPrint(5);
    }
  }

  // ----- Well-formed single ranges -----

  datatype Spec = FromTo(first: nat, last: nat) | From(first: nat) | Suffix(length: nat)

  /** The header text of a range. */
  function Text(spec: Spec): string {
    match spec
    case FromTo(first, last) => "bytes=" + Decimal.Print(first) + "-" + Decimal.Print(last)
    case From(first) => "bytes=" + Decimal.Print(first) + "-"
    case Suffix(length) => "bytes=-" + Decimal.Print(length)
  }

  /** Byte `i` of a file of this size is asked for. */
  predicate Requests(spec: Spec, fileSize: nat, i: int) {
    && 0 <= i < fileSize
    && match spec
       case FromTo(first, last) => first <= i <= last
       case From(first) => first <= i
       case Suffix(length) => fileSize - i <= length
  }

  predicate Satisfiable(spec: Spec, fileSize: nat) {
    match spec
    case FromTo(first, last) => first <= last && first < fileSize
    case From(first) => first < fileSize
    case Suffix(length) => length > 0 && fileSize > 0
  }

  lemma {:induction false} StripNumeral(s: string)
    requires Decimal.IsNumeral(s)
    ensures Strip(s) == s
  {
  }

  lemma {:induction false} NumeralHasNoUnderscore(s: string)
    requires forall i :: 0 <= i < |s| ==> Decimal.IsDigit(s[i])
    ensures WithoutUnderscores(s) == s
  {
    if s != "" {
      NumeralHasNoUnderscore(s[1..]);
      assert s == [s[0]] + s[1..];
    }
  }

  lemma PyIntReadsPrint(n: nat)
    ensures PyInt(Decimal.Print(n)) == Some(n)
    ensures ParseField(Decimal.Print(n)) == Some(Some(n))
  {
    var s := Decimal.Print(n);
    StripNumeral(s);
    NumeralHasNoUnderscore(s);
    Decimal.ValueOfPrint(n);
  }

  lemma UnsignedReadsPrint(n: nat)
    ensures Unsigned(Decimal.Print(n)) == Some(n)
  {
    NumeralHasNoUnderscore(Decimal.Print(n));
    Decimal.ValueOfPrint(n);
  }

  /** A sign is read. */
  lemma PyIntReadsSigned(sign: char, n: nat)
    requires sign in "+-"
    ensures PyInt([sign] + Decimal.Print(n)) == Some(if sign == '-' then 0 - n else n)
  {
    SignedNumeral(sign, Decimal.Print(n));
    UnsignedReadsPrint(n);
  }

  lemma SignedNumeral(sign: char, s: string)
    requires sign in "+-" && Decimal.IsNumeral(s)
    ensures Strip([sign] + s) == [sign] + s && ([sign] + s)[1..] == s
  {
    assert ([sign] + s)[|s|] == s[|s| - 1];
  }

  /** Spaces around the number are dropped. */
  lemma PyIntDropsPadding(left: string, n: nat, right: string)
    requires Blank(left) && Blank(right)
    ensures PyInt(left + Decimal.Print(n) + right) == Some(n)
  {
    var s := Decimal.Print(n);
    SpaceIsBlank(s[0]);
    SpaceIsBlank(s[|s| - 1]);
    StripDropsPadding(left, s, right);
    StripNumeral(s);
    PyIntReadsPrint(n);
  }

  /** The white space of ASCII: space, tab, line feed, vertical tab, form feed, carriage return
      and the four separators. */
  const BLANKS := " \t\n\U{000B}\U{000C}\r\U{001C}\U{001D}\U{001E}\U{001F}"

  ghost predicate Blank(s: string) {
    forall c :: c in s ==> c in BLANKS
  }

  lemma SpaceIsBlank(c: char)
    ensures IsSpace(c) <==> c in BLANKS
  {
    assert |BLANKS| == 10;
    if IsSpace(c) {
      var i := if c == ' ' then 0 else if c as int <= 13 then c as int - 8 else c as int - 22;
      assert BLANKS[i] == c;
    }
  }

  lemma StripDropsPadding(left: string, s: string, right: string)
    requires Blank(left) && Blank(right) && s != "" && s[0] !in BLANKS && s[|s| - 1] !in BLANKS
    ensures Strip(left + s + right) == s
  {
    SpaceIsBlank(s[0]);
    SpaceIsBlank(s[|s| - 1]);
    StripLeftDrops(left, s + right);
    assert left + s + right == left + (s + right);
    StripRightDrops(s, right);
  }

  lemma {:induction false} StripLeftDrops(left: string, s: string)
    requires Blank(left) && s != "" && !IsSpace(s[0])
    ensures StripLeft(left + s) == s
  {
    if left == "" {
      assert left + s == s;
    } else {
      SpaceIsBlank(left[0]);
      assert left[0] in left && (left + s)[1..] == left[1..] + s;
      StripLeftDrops(left[1..], s);
    }
  }

  lemma {:induction false} StripRightDrops(s: string, right: string)
    requires Blank(right) && s != "" && !IsSpace(s[|s| - 1])
    ensures StripRight(s + right) == s
  {
    if right == "" {
      assert s + right == s;
    } else {
      var n := |right| - 1;
      SpaceIsBlank(right[n]);
      assert right[n] in right && (s + right)[..|s| + n] == s + right[..n];
      StripRightDrops(s, right[..n]);
    }
  }

  /** Groups of digits with one underscore between them. */
  ghost predicate Grouped(s: string) {
    || Decimal.IsNumeral(s)
    || exists i :: 0 <= i < |s| && s[i] == '_' && Decimal.IsNumeral(s[..i]) && Grouped(s[i + 1..])
  }

  /** An unsigned number is read if and only if it is groups of digits. */
  lemma UnsignedIsGrouped(s: string)
    ensures Unsigned(s).Some? <==> Grouped(s)
  {
    if IsUnsigned(s) {
      UnsignedGroups(s);
    }
    if Grouped(s) {
      GroupsAreUnsigned(s);
    }
  }

  lemma {:induction false} UnsignedGroups(s: string)
    requires IsUnsigned(s)
    ensures Grouped(s)
  {
    if '_' in s {
      var i := FirstUnderscore(s);
      assert Decimal.IsDigit(s[i + 1]);
      var rest := s[i + 1..];
      assert forall j :: 0 <= j < |rest| ==> rest[j] == s[i + 1 + j];
      UnsignedGroups(rest);
    } else {
      assert forall i :: 0 <= i < |s| ==> s[i] in s;
    }
  }

  lemma {:induction false} FirstUnderscore(s: string) returns (i: nat)
    requires '_' in s
    ensures i < |s| && s[i] == '_' && forall j :: 0 <= j < i ==> s[j] != '_'
  {
    if s[0] == '_' {
      i := 0;
    } else {
      var k := FirstUnderscore(s[1..]);
      i := k + 1;
    }
  }

  lemma {:induction false} GroupsAreUnsigned(s: string)
    requires Grouped(s)
    ensures IsUnsigned(s)
  {
    if !Decimal.IsNumeral(s) {
      var i :| 0 <= i < |s| && s[i] == '_' && Decimal.IsNumeral(s[..i]) && Grouped(s[i + 1..]);
      var rest := s[i + 1..];
      GroupsAreUnsigned(rest);
      assert forall j :: 0 <= j < i ==> s[j] == s[..i][j];
      assert forall j :: i < j < |s| ==> s[j] == rest[j - i - 1];
    }
  }

  function FieldsOf(spec: Spec): Fields {
    match spec
    case FromTo(first, last) => Fields(Some(first), Some(last))
    case From(first) => Fields(Some(first), None)
    case Suffix(length) => Fields(None, Some(length))
  }

  lemma ParseBody(a: string, b: string)
    requires '-' !in a && ',' !in a && ',' !in b
    requires b != "" ==> !IsSpace(b[|b| - 1])
    ensures Strip("bytes=" + a + "-" + b) == "bytes=" + a + "-" + b
    ensures var spec := "bytes=" + a + "-" + b;
            "bytes=" <= spec && ',' !in spec[6..] && '-' in spec[6..] && SplitDash(spec[6..]) == (a, b)
  {
    var spec := "bytes=" + a + "-" + b;
    assert spec[0] == 'b' && StripLeft(spec) == spec;
    assert spec[|spec| - 1] == (if b == "" then '-' else b[|b| - 1]);
    assert spec[6..] == a + "-" + b;
    assert (a + "-" + b)[|a|] == '-';
    SplitDashIs(a, b);
  }

  lemma {:induction false} SplitDashIs(a: string, b: string)
    requires '-' !in a
    ensures '-' in a + "-" + b && SplitDash(a + "-" + b) == (a, b)
  {
    var s := a + "-" + b;
    assert s[|a|] == '-';
    if a != "" {
      SplitDashIs(a[1..], b);
      assert s[1..] == a[1..] + "-" + b;
      assert a == [a[0]] + a[1..] && s[0] == a[0] && a[0] in a;
    } else {
      assert s[1..] == b;
    }
  }

  lemma FieldsOfBody(a: string, b: string, start: Option<int>, end: Option<int>)
    requires '-' !in a && ',' !in a && ',' !in b
    requires b != "" ==> !IsSpace(b[|b| - 1])
    requires ParseField(a) == Some(start) && ParseField(b) == Some(end)
    ensures ParseFields("bytes=" + a + "-" + b) == Some(Fields(start, end))
  {
    ParseBody(a, b);
  }

  lemma OneSided(number: string)
    ensures "bytes=" + number + "-" + "" == "bytes=" + number + "-"
    ensures "bytes=" + "" + "-" + number == "bytes=-" + number
  {
  }

  lemma FieldsOfText(spec: Spec)
    ensures ParseFields(Text(spec)) == Some(FieldsOf(spec))
  {
    match spec
    case FromTo(first, last) =>
      PyIntReadsPrint(first);
      PyIntReadsPrint(last);
      FieldsOfBody(Decimal.Print(first), Decimal.Print(last), Some(first), Some(last));
    case From(first) =>
      PyIntReadsPrint(first);
      FieldsOfBody(Decimal.Print(first), "", Some(first), None);
      OneSided(Decimal.Print(first));
    case Suffix(length) =>
      PyIntReadsPrint(length);
      FieldsOfBody("", Decimal.Print(length), None, Some(length));
      OneSided(Decimal.Print(length));
  }

  /** A satisfiable range parses to exactly the bytes it asks for. An unsatisfiable one is
      refused, except a suffix range: of zero bytes, or of an empty file, it is accepted
      as an empty range. */
  lemma ParseRangeIsExact(spec: Spec, fileSize: nat)
    ensures var r := ParseRange(Text(spec), fileSize);
            if Satisfiable(spec, fileSize) then
              r.Some? && forall i :: Requests(spec, fileSize, i) <==> r.value.first <= i <= r.value.last
            else if spec.Suffix? then
              r.Some? && r.value.ContentLength() == 0
            else
              r == None
  {
    FieldsOfText(spec);
  }
}
