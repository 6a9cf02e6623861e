/** The parser of directives of src/lib/libc/stdio/printf.c: four stages that
    move one pointer over the format. */
module Format {
  import opened NumberText
  import B = BitField

  const FMT_FLAG_PLUS := 1
  const FMT_FLAG_MINUS := 2
  const FMT_FLAG_SPACE := 4
  const FMT_FLAG_SHARP := 8
  const FMT_FLAG_ZERO := 16

  const FMT_LEN_HH := 1
  const FMT_LEN_H := 2
  const FMT_LEN_L := 4
  const FMT_LEN_LL := 8

  const FMT_SPEC_I := 1
  const FMT_SPEC_U := 2
  const FMT_SPEC_C := 4
  const FMT_SPEC_S := 8
  const FMT_SPEC_X := 16

  /** What the pointer reads: the end of the string is its NUL. */
  function CharAt(s: string, p: nat): char {
    if p < |s| then s[p] else NUL
  }

  // ---- Parsing a directive ------------------------------------------------

  datatype Directive = Directive(flags: nat, width: int, length: nat, specifier: nat)

  datatype Parsed = Parsed(directive: Directive, end: nat)

  function FlagBit(c: char): nat {
    match c
    case '+' => FMT_FLAG_PLUS
    case '-' => FMT_FLAG_MINUS
    case ' ' => FMT_FLAG_SPACE
    case '#' => FMT_FLAG_SHARP
    case '0' => FMT_FLAG_ZERO
    case _ => 0
  }

  function SpecifierBit(c: char): nat {
    match c
    case 'i' => FMT_SPEC_I
    case 'd' => FMT_SPEC_I
    case 'u' => FMT_SPEC_U
    case 'c' => FMT_SPEC_C
    case 's' => FMT_SPEC_S
    case 'x' => FMT_SPEC_X
    case _ => 0
  }

  /** The characters and bits of the source. */
  lemma Codes(c: char)
    ensures FlagBit(c) == if c == '+' then 1 else if c == '-' then 2 else if c == ' ' then 4
                          else if c == '#' then 8 else if c == '0' then 16 else 0
    ensures SpecifierBit(c) == if c == 'i' || c == 'd' then 1 else if c == 'u' then 2 else if c == 'c' then 4
                               else if c == 's' then 8 else if c == 'x' then 16 else 0
    ensures FMT_LEN_HH == 1 && FMT_LEN_H == 2 && FMT_LEN_L == 4 && FMT_LEN_LL == 8 && NUL as int == 0
  {
  }

  predicate IsFlag(c: char) {
    c == '+' || c == '-' || c == ' ' || c == '#' || c == '0'
  }

  predicate IsDigit(c: char) {
    '0' <= c <= '9'
  }

  function WidthEnd(s: string, p: nat): (e: nat)
    requires p <= |s|
    ensures p <= e <= |s| && !IsDigit(CharAt(s, e))
    ensures forall j :: p <= j < e ==> IsDigit(s[j])
    decreases |s| - p
  {
    if IsDigit(CharAt(s, p)) then WidthEnd(s, p + 1) else p
  }

  lemma {:induction false} WidthEndIs(s: string, p: nat, e: nat)
    requires p <= e <= |s| && !IsDigit(CharAt(s, e))
    requires forall j :: p <= j < e ==> IsDigit(s[j])
    ensures WidthEnd(s, p) == e
    decreases e - p
  {
    if p < e {
      WidthEndIs(s, p + 1, e);
    }
  }

  lemma NoDigits(s: string, p: nat)
    requires p <= |s|
    ensures Parse(s[p .. p], 10) == 0
  {
  }

  lemma OneMoreDigit(s: string, start: nat, p: nat)
    requires start <= p < |s| && IsDigit(s[p])
    ensures Parse(s[start .. p + 1], 10) == Parse(s[start .. p], 10) * 10 + (s[p] as int - '0' as int)
  {
    FoldAppend(0, s[start .. p], s[p], 10);
    assert s[start .. p + 1] == s[start .. p] + [s[p]];
  }

  /** The bit for a length, and the number of characters it takes. */
  function LengthAt(s: string, p: nat): (nat, nat) {
    if CharAt(s, p) == 'h' then
      if CharAt(s, p + 1) == 'h' then (FMT_LEN_HH, 2) else (FMT_LEN_H, 1)
    else if CharAt(s, p) == 'l' then
      if CharAt(s, p + 1) == 'l' then (FMT_LEN_LL, 2) else (FMT_LEN_L, 1)
    else (0, 0)
  }

  /** The four stages; none of them steps over a NUL. */
  function ParseDirective(s: string, p: nat): (r: Parsed)
    requires p <= |s|
    ensures p <= r.end <= |s| && NUL !in s[p .. r.end]
  {
    var p1 := if FlagBit(CharAt(s, p)) != 0 then p + 1 else p;
    var p2 := WidthEnd(s, p1);
    var (length, n) := LengthAt(s, p2);
    var p3 := p2 + n;
    var specifier := SpecifierBit(CharAt(s, p3));
    Parsed(Directive(FlagBit(CharAt(s, p)), Parse(s[p1 .. p2], 10), length, specifier),
           if specifier != 0 then p3 + 1 else p3)
  }

  class SFmt {
    var p: nat
    var flags: nat
    var width: int
    var length: nat
    var specifier: nat

    constructor (start: nat)
      ensures p == start && flags == 0 && width == 0 && length == 0 && specifier == 0
    {
      p, flags, width, length, specifier := start, 0, 0, 0, 0;
    }

    method FmtFlags(s: string)
      requires p <= |s|
      modifies this`p, this`flags
      ensures flags == B.Or(old(flags), FlagBit(CharAt(s, old(p))))
      ensures p == if FlagBit(CharAt(s, old(p))) != 0 then old(p) + 1 else old(p)
    {
      match CharAt(s, p) {
        case '+' =>
          flags := B.Or(flags, FMT_FLAG_PLUS);
          p := p + 1;
        case '-' =>
          flags := B.Or(flags, FMT_FLAG_MINUS);
          p := p + 1;
        case ' ' =>
          flags := B.Or(flags, FMT_FLAG_SPACE);
          p := p + 1;
        case '#' =>
          flags := B.Or(flags, FMT_FLAG_SHARP);
          p := p + 1;
        case '0' =>
          flags := B.Or(flags, FMT_FLAG_ZERO);
          p := p + 1;
        case _ =>
      }
    }

    method FmtWidth(s: string)
      requires p <= |s|
      modifies this`p, this`width
      ensures p == WidthEnd(s, old(p)) && width == Parse(s[old(p) .. p], 10)
    {
      hide Parse, WidthEnd;
      width := 0;
      NoDigits(s, p);
      while CharAt(s, p) <= '9' && CharAt(s, p) >= '0'
        invariant old(p) <= p <= |s| && forall j :: old(p) <= j < p ==> IsDigit(s[j])
        invariant width == Parse(s[old(p) .. p], 10)
        decreases |s| - p
      {
        OneMoreDigit(s, old(p), p);
        width := width * 10;
        width := width + (s[p] as int - '0' as int);
        p := p + 1;
      }
      WidthEndIs(s, old(p), p);
    }

    method FmtLength(s: string)
      requires p <= |s|
      modifies this`p, this`length
      ensures length == B.Or(old(length), LengthAt(s, old(p)).0) && p == old(p) + LengthAt(s, old(p)).1
    {
      BitOrZero(length);
      if CharAt(s, p) == 'h' {
        p := p + 1;
        if CharAt(s, p) == 'h' {
          p := p + 1;
          length := B.Or(length, FMT_LEN_HH);
        } else {
          length := B.Or(length, FMT_LEN_H);
        }
      } else if CharAt(s, p) == 'l' {
        p := p + 1;
        if CharAt(s, p) == 'l' {
          p := p + 1;
          length := B.Or(length, FMT_LEN_LL);
        } else {
          length := B.Or(length, FMT_LEN_L);
        }
      }
    }

    method FmtSpecifier(s: string)
      requires p <= |s|
      modifies this`p, this`specifier
      ensures specifier == B.Or(old(specifier), SpecifierBit(CharAt(s, old(p))))
      ensures p == if SpecifierBit(CharAt(s, old(p))) != 0 then old(p) + 1 else old(p)
    {
      match CharAt(s, p) {
        case 'i' =>
          p := p + 1;
          specifier := B.Or(specifier, FMT_SPEC_I);
        case 'd' =>
          p := p + 1;
          specifier := B.Or(specifier, FMT_SPEC_I);
        case 'u' =>
          p := p + 1;
          specifier := B.Or(specifier, FMT_SPEC_U);
        case 'c' =>
          p := p + 1;
          specifier := B.Or(specifier, FMT_SPEC_C);
        case 's' =>
          p := p + 1;
          specifier := B.Or(specifier, FMT_SPEC_S);
        case 'x' =>
          p := p + 1;
          specifier := B.Or(specifier, FMT_SPEC_X);
        case _ =>
      }
    }

    /** The part of cnprintf that parses what follows a '%'. */
    method ParseNext(s: string, start: nat)
      requires start <= |s|
      modifies this
      ensures Parsed(Directive(flags, width, length, specifier), p) == ParseDirective(s, start)
    {
      flags, width, length, specifier, p := 0, 0, 0, 0, start;
      FmtFlags(s);
      FmtWidth(s);
      FmtLength(s);
      FmtSpecifier(s);
    }
  }

  lemma BitOrZero(a: nat)
    ensures B.Or(a, 0) == a && B.Or(0, a) == a
  {
  }

  // ---- Directives as they are written -------------------------------------

  /** The text of a directive behind its '%', in its four parts. */
  datatype Spelling = Spelling(flag: string, digits: string, size: string, letter: char) {
    function Text(): string {
      flag + digits + size + [letter]
    }

    /** A first '0' is a flag, so it is not part of the width. */
    predicate Proper() {
      && (flag == "" || (|flag| == 1 && IsFlag(flag[0])))
      && (forall k :: 0 <= k < |digits| ==> IsDigit(digits[k]))
      && (flag == "" && digits != "" ==> digits[0] != '0')
      && (size == "" || size == "h" || size == "hh" || size == "l" || size == "ll")
      && (letter == 'd' || letter == 'i' || letter == 'u' || letter == 'c' || letter == 's' || letter == 'x')
    }

    function Meaning(): Directive {
      Directive(if flag == "" then 0 else FlagBit(flag[0]), Parse(digits, 10),
                if size == "" then 0 else if size == "h" then FMT_LEN_H else if size == "hh" then FMT_LEN_HH
                else if size == "l" then FMT_LEN_L else FMT_LEN_LL,
                SpecifierBit(letter))
    }
  }

  predicate WrittenAt(s: string, p: nat, d: Spelling) {
    var p1 := p + |d.flag|;
    var p2 := p1 + |d.digits|;
    var p3 := p2 + |d.size|;
    p3 < |s| && s[p .. p1] == d.flag && s[p1 .. p2] == d.digits && s[p2 .. p3] == d.size && s[p3] == d.letter
  }

  lemma TextIsWritten(before: string, d: Spelling, after: string)
    ensures WrittenAt(before + d.Text() + after, |before|, d)
  {
    hide Parse;
    var s, p := before + d.Text() + after, |before|;
    var p1 := p + |d.flag|;
    var p2 := p1 + |d.digits|;
    var p3 := p2 + |d.size|;
    assert s[p .. p1] == d.flag;
    assert s[p1 .. p2] == d.digits;
    assert s[p2 .. p3] == d.size;
  }

  lemma WidthIsRead(s: string, p: nat, d: Spelling)
    requires d.Proper() && WrittenAt(s, p, d)
    ensures WidthEnd(s, p + |d.flag|) == p + |d.flag| + |d.digits|
  {
    var p1 := p + |d.flag|;
    var p2 := p1 + |d.digits|;
    var p3 := p2 + |d.size|;
    forall j | p1 <= j < p2
      ensures IsDigit(s[j])
    {
      assert s[j] == d.digits[j - p1];
    }
    assert !IsDigit(s[p2]) by {
      assert d.size != "" ==> s[p2] == d.size[0];
    }
    WidthEndIs(s, p1, p2);
  }

  lemma FlagIsRead(s: string, p: nat, d: Spelling)
    requires d.Proper() && WrittenAt(s, p, d)
    ensures FlagBit(CharAt(s, p)) == d.Meaning().flags && (d.flag == "" <==> d.Meaning().flags == 0)
  {
    hide Parse;
    var p1 := p + |d.flag|;
    if d.flag != "" {
      assert s[p] == s[p .. p1][0];
    } else if d.digits != "" {
      assert s[p] == s[p1 .. p1 + |d.digits|][0] && IsDigit(d.digits[0]);
    } else if d.size != "" {
      assert s[p] == s[p1 .. p1 + |d.size|][0];
    } else {
      assert s[p] == d.letter;
    }
  }

  lemma LengthIsRead(s: string, p: nat, d: Spelling)
    requires d.Proper() && WrittenAt(s, p, d)
    ensures LengthAt(s, p + |d.flag| + |d.digits|) == (d.Meaning().length, |d.size|)
  {
    hide Parse;
    var p2 := p + |d.flag| + |d.digits|;
    var p3 := p2 + |d.size|;
    assert d.size != "" ==> s[p2] == s[p2 .. p3][0];
    assert |d.size| == 2 ==> s[p2 + 1] == s[p2 .. p3][1];
  }

  lemma ParseWritten(s: string, p: nat, d: Spelling)
    requires d.Proper() && WrittenAt(s, p, d)
    ensures ParseDirective(s, p) == Parsed(d.Meaning(), p + |d.Text()|)
  {
    hide Parse, WidthEnd, LengthAt;
    FlagIsRead(s, p, d);
    WidthIsRead(s, p, d);
    LengthIsRead(s, p, d);
  }

  /** The parser gives back what a directive was written for, and stops right
      behind it, whatever is around it. */
  lemma ParseSpelled(before: string, d: Spelling, after: string)
    requires d.Proper()
    ensures ParseDirective(before + d.Text() + after, |before|) == Parsed(d.Meaning(), |before| + |d.Text()|)
  {
    TextIsWritten(before, d, after);
    ParseWritten(before + d.Text() + after, |before|, d);
  }

  predicate Canonical(d: Directive) {
    && d.flags in {0, FMT_FLAG_PLUS, FMT_FLAG_MINUS, FMT_FLAG_SPACE, FMT_FLAG_SHARP, FMT_FLAG_ZERO}
    && d.width >= 0
    && d.length in {0, FMT_LEN_HH, FMT_LEN_H, FMT_LEN_L, FMT_LEN_LL}
    && d.specifier in {FMT_SPEC_I, FMT_SPEC_U, FMT_SPEC_C, FMT_SPEC_S, FMT_SPEC_X}
  }

  function Print(d: Directive): Spelling
    requires Canonical(d)
  {
    Spelling(
      if d.flags == 0 then ""
      else if d.flags == FMT_FLAG_PLUS then "+" else if d.flags == FMT_FLAG_MINUS then "-"
      else if d.flags == FMT_FLAG_SPACE then " " else if d.flags == FMT_FLAG_SHARP then "#" else "0",
      if d.width == 0 then "" else Digits(d.width, 10),
      if d.length == 0 then ""
      else if d.length == FMT_LEN_HH then "hh" else if d.length == FMT_LEN_H then "h"
      else if d.length == FMT_LEN_L then "l" else "ll",
      if d.specifier == FMT_SPEC_I then 'd' else if d.specifier == FMT_SPEC_U then 'u'
      else if d.specifier == FMT_SPEC_C then 'c' else if d.specifier == FMT_SPEC_S then 's' else 'x')
  }

  lemma PrintedWidth(width: nat)
    requires width > 0
    ensures var digits := Digits(width, 10);
      && digits != "" && digits[0] != '0' && Parse(digits, 10) == width
      && forall k :: 0 <= k < |digits| ==> IsDigit(digits[k])
  {
    var digits := Digits(width, 10);
    NoLeadingZero(width, 10);
    DigitsRoundTrip(width, 10);
    assert forall k :: 0 <= k < |digits| ==> digits[k] in digits;
  }

  lemma PrintMeans(d: Directive)
    requires Canonical(d)
    ensures Print(d).Proper() && Print(d).Meaning() == d
  {
    assert Parse("", 10) == 0;
    hide Parse, Digits;
    if d.width > 0 {
      PrintedWidth(d.width);
    }
  }

  lemma ParsePrinted(before: string, d: Directive, after: string)
    requires Canonical(d)
    ensures ParseDirective(before + Print(d).Text() + after, |before|)
         == Parsed(d, |before| + |Print(d).Text()|)
  {
    PrintMeans(d);
    ParseSpelled(before, Print(d), after);
  }
}
