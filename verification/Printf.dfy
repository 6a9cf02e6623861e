/** cnprintf of src/lib/libc/stdio/printf.c: the loop that hands every character
    of the result to a callback. */
module Printf {
  import opened Common
  import opened Format
  import opened NumberText

  /** What va_arg finds: a 32-bit word or a pointer to a string. */
  datatype Arg = Scalar(w: Word) | Text(s: string)

  const BUFFER_SIZE := 12

  /** int and long int of the machine. */
  function Signed32(w: Word): (n: int)
    ensures -0x8000_0000 <= n < 0x8000_0000 && (n == w || n == w - 0x1_0000_0000)
  {
    if w < 0x8000_0000 then w else w - MOD32
  }

  predicate Valid(args: seq<Arg>) {
    forall k :: 0 <= k < |args| && args[k].Text? ==> NUL !in args[k].s
  }

  // ---- The buffer ---------------------------------------------------------

  /** A text and its end mark, stored over a part of the buffer. */
  function Store(bf: seq<char>, at: nat, text: string): (r: seq<char>)
    requires at + |text| < |bf|
    ensures |r| == |bf|
  {
    bf[..at] + text + [NUL] + bf[at + |text| + 1 ..]
  }

  /** strcpy as it is: no end mark. */
  function StrCpy(bf: seq<char>, text: string): (r: seq<char>)
    requires |text| <= |bf|
    ensures |r| == |bf|
  {
    text + bf[|text| ..]
  }

  /** The text up to the first end mark, if there is one in the buffer. */
  function TextIn(bf: seq<char>): Option<string> {
    if bf == [] then None
    else if bf[0] == NUL then Some("")
    else Then([bf[0]], TextIn(bf[1..]))
  }

  function Then(out: string, rest: Option<string>): Option<string> {
    if rest.None? then None else Some(out + rest.value)
  }

  lemma ThenAppend(a: string, b: string, rest: Option<string>)
    ensures Then(a, Then(b, rest)) == Then(a + b, rest)
    ensures Then("", rest) == rest && Then(a, Some("")) == Some(a)
  {
    if rest.Some? {
      assert a + (b + rest.value) == (a + b) + rest.value;
      assert "" + rest.value == rest.value;
    }
    assert a + "" == a;
  }

  // ---- What the loop does -------------------------------------------------

  /** One directive: what it hands over at once, the arguments left over and the
      buffer, which is handed over next. */
  datatype Converted = Converted(direct: string, args: seq<Arg>, bf: seq<char>)

  /** A number in the buffer, from `at` on. `ll` stores "NaN" and takes no
      argument. None: the argument does not match, and C leaves the effect
      undefined. */
  function Number(length: nat, args: seq<Arg>, bf: seq<char>, at: nat, signed: bool, base: nat): (r: Option<Converted>)
    requires |bf| == BUFFER_SIZE && Valid(args) && (at, base) in {(0, 10), (2, 16)}
    ensures r.Some? ==> |r.value.bf| == BUFFER_SIZE && Valid(r.value.args)
  {
    if length <= FMT_LEN_H || length == FMT_LEN_L then
      if args != [] && args[0].Scalar? then
        var n := if signed then Signed32(args[0].w) else args[0].w;
        TextFits(n);
        Some(Converted("", args[1..], Store(bf, at, Signed(n, base))))
      else None
    else Some(Converted("", args, if length == FMT_LEN_LL then StrCpy(bf, "NaN") else bf))
  }

  function Convert(d: Directive, args: seq<Arg>, bf: seq<char>): (r: Option<Converted>)
    requires |bf| == BUFFER_SIZE && Valid(args)
    ensures r.Some? ==> |r.value.bf| == BUFFER_SIZE && Valid(r.value.args)
  {
    if d.specifier == FMT_SPEC_I then Number(d.length, args, bf, 0, true, 10)
    else if d.specifier == FMT_SPEC_U then Number(d.length, args, bf, 0, false, 10)
    else if d.specifier == FMT_SPEC_C then
      if args != [] && args[0].Scalar? then Some(Converted("", args[1..], bf[0 := (args[0].w % 256) as char][1 := NUL]))
      else None
    else if d.specifier == FMT_SPEC_S then
      if args != [] && args[0].Text? then Some(Converted(args[0].s, args[1..], bf[0 := NUL])) else None
    else if d.specifier == FMT_SPEC_X then Number(d.length, args, StrCpy(bf, "0x"), 2, true, 16)
    else Some(Converted("", args, bf))
  }

  /** All that the callback gets from the format behind position p. None: the
      effect is undefined. */
  function Emit(size: int, s: string, p: nat, args: seq<Arg>, bf: seq<char>): Option<string>
    requires |bf| == BUFFER_SIZE && Valid(args) && p <= |s|
    decreases |s| - p
  {
    if CharAt(s, p) == NUL || p >= size then Some("")
    else if s[p] != '%' then Then([s[p]], Emit(size, s, p + 1, args, bf))
    else
      var parsed := ParseDirective(s, p + 1);
      var converted := Convert(parsed.directive, args, bf);
      if converted.None? then None
      else
        var c := converted.value;
        var shown := TextIn(c.bf);
        if shown.None? then None
        else Then(c.direct + shown.value, Emit(size, s, parsed.end, c.args, c.bf))
  }

  // ---- The code -----------------------------------------------------------

  lemma StoreIs(was: seq<char>, bf: seq<char>, at: nat, text: string)
    requires |was| == |bf| && Contains(bf, at, text)
    requires forall j :: 0 <= j < |bf| && !(at <= j <= at + |text|) ==> bf[j] == was[j]
    ensures bf == Store(was, at, text)
  {
    assert bf[..at] == was[..at];
    assert bf[at + |text| + 1 ..] == was[at + |text| + 1 ..];
    assert bf == bf[..at] + bf[at .. at + |text|] + [bf[at + |text|]] + bf[at + |text| + 1 ..];
  }

  method CopyString(bf: array<char>, text: string)
    requires |text| <= bf.Length
    modifies bf
    ensures bf[..] == StrCpy(old(bf[..]), text)
  {
    var i := 0;
    while i < |text|
      invariant i <= |text|
      invariant forall j :: 0 <= j < bf.Length ==> bf[j] == if j < i then text[j] else old(bf[j])
    {
      bf[i] := text[i];
      i := i + 1;
    }
  }

  /** The cases %d, %u and %x. */
  method StoreNumber(length: nat, args: seq<Arg>, bf: array<char>, at: nat, signed: bool, base: nat)
    returns (ok: bool, rest: seq<Arg>)
    requires bf.Length == BUFFER_SIZE && Valid(args) && (at, base) in {(0, 10), (2, 16)}
    modifies bf
    ensures ok == Number(length, args, old(bf[..]), at, signed, base).Some?
    ensures ok ==> Converted("", rest, bf[..]) == Number(length, args, old(bf[..]), at, signed, base).value
  {
    ok, rest := true, args;
    if length <= FMT_LEN_H || length == FMT_LEN_L {
      if args == [] || args[0].Text? {
        return false, args;
      }
      rest := args[1..];
      var n := if signed then Signed32(args[0].w) else args[0].w;
      TextFits(n);
      StoresSigned32(n, base);
      var end;
      if signed {
        ok, end := I2a(n, base, bf, at);
      } else {
        ok, end := Ui2a(n, base, bf, at);
      }
      StoreIs(old(bf[..]), bf[..], at, Signed(n, base));
    } else if length == FMT_LEN_LL {
      CopyString(bf, "NaN");
    }
  }

  /** The switch over the specifier. */
  method StoreConversion(fmt: SFmt, args: seq<Arg>, bf: array<char>) returns (ok: bool, direct: string, rest: seq<Arg>)
    requires bf.Length == BUFFER_SIZE && Valid(args)
    modifies bf
    ensures var r := Convert(Directive(fmt.flags, fmt.width, fmt.length, fmt.specifier), args, old(bf[..]));
      ok == r.Some? && (ok ==> r.value == Converted(direct, rest, bf[..]))
  {
    ok, direct, rest := true, "", args;
    if fmt.specifier == FMT_SPEC_I {
      ok, rest := StoreNumber(fmt.length, args, bf, 0, true, 10);
    } else if fmt.specifier == FMT_SPEC_U {
      ok, rest := StoreNumber(fmt.length, args, bf, 0, false, 10);
    } else if fmt.specifier == FMT_SPEC_C {
      if args == [] || args[0].Text? {
        return false, "", args;
      }
      rest := args[1..];
      bf[0] := (args[0].w % 256) as char;
      bf[1] := NUL;
    } else if fmt.specifier == FMT_SPEC_S {
      if args == [] || args[0].Scalar? {
        return false, "", args;
      }
      bf[0] := NUL;
      var i := 0;
      while i < |args[0].s|
        invariant i <= |args[0].s| && direct == args[0].s[..i]
      {
        direct := direct + [args[0].s[i]];
        i := i + 1;
      }
      rest := args[1..];
    } else if fmt.specifier == FMT_SPEC_X {
      CopyString(bf, "0x");
      ok, rest := StoreNumber(fmt.length, args, bf, 2, true, 16);
    }
  }

  /** The last loop: the buffer up to its end mark. */
  method SendBuffer(bf: array<char>) returns (ok: bool, out: string)
    ensures TextIn(bf[..]) == if ok then Some(out) else None
  {
    out := "";
    var b := 0;
    assert bf[0..] == bf[..];
    ThenAppend("", "", TextIn(bf[..]));
    while b < bf.Length && bf[b] != NUL
      invariant b <= bf.Length
      invariant TextIn(bf[..]) == Then(out, TextIn(bf[b..]))
    {
      assert bf[b..][1..] == bf[b + 1 ..];
      ThenAppend(out, [bf[b]], TextIn(bf[b + 1 ..]));
      out := out + [bf[b]];
      b := b + 1;
    }
    ThenAppend(out, "", None);
    ok := b < bf.Length;
  }

  /** What a call may hand over, for some content of the stack. */
  ghost predicate MayEmit(size: int, fmt: string, args: seq<Arg>, result: Option<string>)
    requires Valid(args)
  {
    exists stack :: |stack| == 12 && Emit(size, fmt, 0, args, stack) == result
  }

  /** out is what the callback has got; !ok: here the effect becomes undefined. */
  method Cnprintf(size: int, fmt: string, args: seq<Arg>) returns (ok: bool, out: string)
    requires Valid(args) && NUL !in fmt
    ensures MayEmit(size, fmt, args, if ok then Some(out) else None)
  {
    var bf := new char[BUFFER_SIZE];
    ghost var stack := bf[..];
    var sFmt := new SFmt(0);
    var p := 0;
    var va := args;
    ok, out := true, "";
    ThenAppend("", "", Emit(size, fmt, 0, args, stack));
    while p < |fmt| && p < size
      invariant p <= |fmt| && Valid(va)
      invariant Emit(size, fmt, 0, args, stack) == Then(out, Emit(size, fmt, p, va, bf[..]))
      decreases |fmt| - p
    {
      if fmt[p] != '%' {
        ThenAppend(out, [fmt[p]], Emit(size, fmt, p + 1, va, bf[..]));
        out := out + [fmt[p]];
        p := p + 1;
      } else {
        sFmt.ParseNext(fmt, p + 1);
        p := sFmt.p;
        var direct, shown;
        ok, direct, va := StoreConversion(sFmt, va, bf);
        if !ok {
          return;
        }
        ok, shown := SendBuffer(bf);
        if !ok {
          return;
        }
        ThenAppend(out, direct + shown, Emit(size, fmt, p, va, bf[..]));
        out := out + (direct + shown);
      }
    }
    ThenAppend(out, "", None);
  }

  // ---- What a format means ------------------------------------------------

  /** A format is literal characters and directives, each with its argument. */
  datatype Item = Literal(c: char) | Conversion(spelling: Spelling, arg: Arg) {
    function Source(): string {
      if Literal? then [c] else "%" + spelling.Text()
    }

    function Args(): seq<Arg> {
      if Literal? then [] else [arg]
    }

    predicate Good() {
      if Literal? then c != '%' && c != NUL
      else
        && spelling.Proper() && spelling.size != "ll"
        && if spelling.letter == 's' then arg.Text? && NUL !in arg.s else arg.Scalar?
    }

    /** Flags and width have no effect. */
    function Shown(): string
      requires Good()
    {
      if Literal? then [c]
      else if spelling.letter == 's' then arg.s
      else if spelling.letter == 'c' then if arg.w % 256 == 0 then "" else [(arg.w % 256) as char]
      else if spelling.letter == 'u' then Digits(arg.w, 10)
      else if spelling.letter == 'x' then "0x" + Signed(Signed32(arg.w), 16)
      else Signed(Signed32(arg.w), 10)
    }
  }

  function Source(items: seq<Item>): string {
    if items == [] then "" else items[0].Source() + Source(items[1..])
  }

  function Args(items: seq<Item>): seq<Arg> {
    if items == [] then [] else items[0].Args() + Args(items[1..])
  }

  /** The items that start before `size` are shown; `start` is where they begin. */
  function Shown(size: int, start: nat, items: seq<Item>): string
    requires forall k :: 0 <= k < |items| ==> items[k].Good()
    decreases |items|
  {
    if items == [] || start >= size then ""
    else items[0].Shown() + Shown(size, start + |items[0].Source()|, items[1..])
  }

  lemma {:induction false} TextBeforeNul(text: string, after: seq<char>)
    requires NUL !in text
    ensures TextIn(text + [NUL] + after) == Some(text)
  {
    if text == [] {
      assert ("" + [NUL] + after)[0] == NUL;
    } else {
      TextBeforeNul(text[1..], after);
      assert (text + [NUL] + after)[1..] == text[1..] + [NUL] + after;
      assert text == [text[0]] + text[1..];
    }
  }

  lemma SignedHasNoNul(n: int, base: nat)
    requires 2 <= base <= 36
    ensures NUL !in Signed(n, base)
  {
    NoLeadingZero(if n < 0 then -n else n, base);
  }

  /** Whatever the buffer held before, a good directive shows its argument. */
  lemma ConvertShows(item: Item, rest: seq<Arg>, bf: seq<char>)
    requires item.Conversion? && item.Good() && Valid(rest) && |bf| == BUFFER_SIZE
    ensures var r := Convert(item.spelling.Meaning(), [item.arg] + rest, bf);
      r.Some? && r.value.args == rest && TextIn(r.value.bf).Some?
      && r.value.direct + TextIn(r.value.bf).value == item.Shown()
  {
    var letter := item.spelling.letter;
    assert ([item.arg] + rest)[1..] == rest;
    if letter == 's' {
      assert bf[0 := NUL] == "" + [NUL] + bf[1..];
      TextBeforeNul("", bf[1..]);
    } else if letter == 'c' {
      var c := (item.arg.w % 256) as char;
      if c == NUL {
        assert bf[0 := c][1 := NUL] == "" + [NUL] + [NUL] + bf[2..];
      } else {
        assert bf[0 := c][1 := NUL] == [c] + [NUL] + bf[2..];
        TextBeforeNul([c], bf[2..]);
      }
    } else {
      NumberShows(item, bf);
    }
  }

  lemma NumberShows(item: Item, bf: seq<char>)
    requires item.Conversion? && item.Good() && item.spelling.letter in "diux" && |bf| == BUFFER_SIZE
    ensures var n := if item.spelling.letter == 'u' then item.arg.w else Signed32(item.arg.w);
      if item.spelling.letter == 'x' then |Signed(n, 16)| <= 9 && TextIn(Store(StrCpy(bf, "0x"), 2, Signed(n, 16))) == Some(item.Shown())
      else |Signed(n, 10)| <= 11 && TextIn(Store(bf, 0, Signed(n, 10))) == Some(item.Shown())
  {
    var n := if item.spelling.letter == 'u' then item.arg.w else Signed32(item.arg.w);
    var base := if item.spelling.letter == 'x' then 16 else 10;
    var text := Signed(n, base);
    TextFits(n);
    SignedHasNoNul(n, base);
    if item.spelling.letter == 'x' {
      var after := StrCpy(bf, "0x")[2 + |text| + 1 ..];
      TextBeforeNul("0x" + text, after);
      assert Store(StrCpy(bf, "0x"), 2, text) == "0x" + text + [NUL] + after;
    } else {
      TextBeforeNul(text, bf[|text| + 1 ..]);
      assert Store(bf, 0, text) == text + [NUL] + bf[|text| + 1 ..];
    }
  }

  /** One turn of the loop, at a directive. */
  lemma EmitDirective(size: int, s: string, p: nat, q: nat, item: Item, args: seq<Arg>, bf: seq<char>)
    returns (bf': seq<char>)
    requires p < size && p < |s| && s[p] == '%' && item.Conversion? && item.Good()
    requires ParseDirective(s, p + 1) == Parsed(item.spelling.Meaning(), q)
    requires |bf| == BUFFER_SIZE && Valid([item.arg] + args) && Valid(args)
    ensures |bf'| == BUFFER_SIZE && q <= |s|
    ensures Emit(size, s, p, [item.arg] + args, bf) == Then(item.Shown(), Emit(size, s, q, args, bf'))
  {
    ConvertShows(item, args, bf);
    bf' := Convert(item.spelling.Meaning(), [item.arg] + args, bf).value.bf;
  }

  lemma EmitLiteral(size: int, s: string, p: nat, args: seq<Arg>, bf: seq<char>)
    requires p < size && p < |s| && s[p] != '%' && s[p] != NUL && |bf| == BUFFER_SIZE && Valid(args)
    ensures Emit(size, s, p, args, bf) == Then([s[p]], Emit(size, s, p + 1, args, bf))
  {
  }

  lemma SplitSign(before: string, text: string, after: string)
    ensures before + ("%" + text) + after == (before + "%") + text + after
    ensures (before + ("%" + text) + after)[|before|] == '%'
    ensures |before + "%"| == |before| + 1
  {
  }

  lemma ParseItem(before: string, d: Spelling, after: string)
    requires d.Proper()
    ensures var s := before + ("%" + d.Text()) + after;
      s[|before|] == '%' && ParseDirective(s, |before| + 1) == Parsed(d.Meaning(), |before| + |"%" + d.Text()|)
  {
    hide ParseDirective;
    var text := d.Text();
    SplitSign(before, text, after);
    ParseSpelled(before + "%", d, after);
  }

  /** One turn of the loop, at an item with anything around it. */
  lemma EmitItem(size: int, before: string, item: Item, after: string, args: seq<Arg>, bf: seq<char>)
    returns (bf': seq<char>)
    requires |before| < size && item.Good() && |bf| == BUFFER_SIZE && Valid(item.Args() + args) && Valid(args)
    ensures |bf'| == BUFFER_SIZE
    ensures var s := before + item.Source() + after;
      Emit(size, s, |before|, item.Args() + args, bf)
      == Then(item.Shown(), Emit(size, s, |before| + |item.Source()|, args, bf'))
  {
    hide Emit, ParseDirective;
    var s, p := before + item.Source() + after, |before|;
    if item.Literal? {
      assert item.Args() + args == args;
      EmitLiteral(size, s, p, args, bf);
      bf' := bf;
    } else {
      ParseItem(before, item.spelling, after);
      bf' := EmitDirective(size, s, p, p + |item.Source()|, item, args, bf);
    }
  }

  lemma EmitEnds(size: int, before: string, items: seq<Item>, more: seq<Arg>, bf: seq<char>)
    requires |bf| == BUFFER_SIZE && Valid(Args(items) + more)
    requires items == [] || |before| >= size
    ensures Emit(size, before + Source(items), |before|, Args(items) + more, bf) == Some("")
  {
  }

  lemma FirstItem(before: string, items: seq<Item>, more: seq<Arg>)
    requires items != [] && Valid(Args(items) + more)
    ensures before + Source(items) == before + items[0].Source() + Source(items[1..])
    ensures Args(items) + more == items[0].Args() + (Args(items[1..]) + more)
    ensures Valid(Args(items[1..]) + more)
  {
    var rest := items[1..];
    Regroup(before, items[0].Source(), Source(rest));
    Regroup(items[0].Args(), Args(rest), more);
    ValidTail(items[0].Args(), Args(rest) + more);
  }

  lemma Regroup<T>(a: seq<T>, b: seq<T>, c: seq<T>)
    ensures a + (b + c) == (a + b) + c
  {
  }

  lemma ValidTail(first: seq<Arg>, rest: seq<Arg>)
    requires Valid(first + rest)
    ensures Valid(rest)
  {
    assert forall k :: 0 <= k < |rest| ==> rest[k] == (first + rest)[k + |first|];
  }

  /** The callback gets exactly the literals and the arguments as text, of all
      that starts within the first `size` characters. */
  lemma {:induction false} EmitShows(size: int, before: string, items: seq<Item>, more: seq<Arg>, bf: seq<char>)
    requires |bf| == BUFFER_SIZE && Valid(Args(items) + more)
    requires forall k :: 0 <= k < |items| ==> items[k].Good()
    ensures Emit(size, before + Source(items), |before|, Args(items) + more, bf) == Some(Shown(size, |before|, items))
    decreases |items|
  {
    hide Emit, Source, Args, Valid;
    if items == [] || |before| >= size {
      EmitEnds(size, before, items, more, bf);
    } else {
      var rest := items[1..];
      FirstItem(before, items, more);
      var bf' := EmitItem(size, before, items[0], Source(rest), Args(rest) + more, bf);
      EmitShows(size, before + items[0].Source(), rest, more, bf');
    }
  }

  /** What is shown, read back: %d and %i show the word as a signed number, %u
      shows it as it is, %x shows the signed number in base 16 behind "0x". */
  lemma ShownIsArgument(item: Item)
    requires item.Conversion? && item.Good()
    ensures var letter := item.spelling.letter;
      && (letter == 'd' || letter == 'i' ==> IsSignedOf(ParseSigned(item.Shown(), 10), item.arg.w))
      && (letter == 'u' ==> Parse(item.Shown(), 10) == item.arg.w)
      && (letter == 'x' ==>
            && |item.Shown()| > 2 && item.Shown()[..2] == "0x"
            && IsSignedOf(ParseSigned(item.Shown()[2..], 16), item.arg.w))
      && (letter == 's' ==> item.Shown() == item.arg.s)
      && (letter == 'c' ==>
            item.Shown() == if item.arg.w % 0x100 == 0 then "" else [(item.arg.w % 0x100) as char])
  {
    if item.arg.Scalar? {
      var n := Signed32(item.arg.w);
      SignedRoundTrip(n, 10);
      SignedRoundTrip(n, 16);
      DigitsRoundTrip(item.arg.w, 10);
      assert ("0x" + Signed(n, 16))[2..] == Signed(n, 16);
    }
  }

  /** The number with this two's complement word. */
  predicate IsSignedOf(n: int, w: int) {
    -0x8000_0000 <= n < 0x8000_0000 && (n == w || n == w - 0x1_0000_0000)
  }

  /** So there is exactly one result, whatever is on the stack. */
  lemma FormatShows(size: int, items: seq<Item>, more: seq<Arg>, result: Option<string>)
    requires Valid(Args(items) + more) && forall k :: 0 <= k < |items| ==> items[k].Good()
    ensures MayEmit(size, Source(items), Args(items) + more, result) <==> result == Some(Shown(size, 0, items))
  {
    var args := Args(items) + more;
    assert "" + Source(items) == Source(items);
    forall stack | |stack| == BUFFER_SIZE
      ensures Emit(size, Source(items), 0, args, stack) == Some(Shown(size, 0, items))
    {
      EmitShows(size, "", items, more, stack);
    }
    var blank := seq(BUFFER_SIZE, _ => NUL);
    assert Emit(size, Source(items), 0, args, blank) == Some(Shown(size, 0, items));
  }

  /** And cnprintf may be called with such a format. */
  lemma {:induction false} SourceHasNoNul(items: seq<Item>)
    requires forall k :: 0 <= k < |items| ==> items[k].Good()
    ensures NUL !in Source(items)
  {
    if items != [] {
      SourceHasNoNul(items[1..]);
      if items[0].Conversion? {
        var d := items[0].spelling;
        assert NUL !in d.flag && NUL !in d.digits && NUL !in d.size && d.letter != NUL;
      }
    }
  }

  /** `ll` is not supported: whatever the arguments are, none is taken, and
      "NaN" comes without an end mark, so that exactly this is shown only if
      there happens to be one behind it. */
  lemma LongLongShowsStaleText(d: Directive, args: seq<Arg>, bf: seq<char>)
    requires |bf| == BUFFER_SIZE && Valid(args)
    requires d.length == FMT_LEN_LL && d.specifier in {FMT_SPEC_I, FMT_SPEC_U, FMT_SPEC_X}
    ensures Convert(d, args, bf) == Some(Converted("", args, StrCpy(bf, "NaN")))
    ensures TextIn(StrCpy(bf, "NaN")) == Then("NaN", TextIn(bf[3..]))
    ensures TextIn(StrCpy(bf, "NaN")) == Some("NaN") <==> bf[3] == NUL
  {
    assert StrCpy(StrCpy(bf, "0x"), "NaN") == StrCpy(bf, "NaN");
    NaNText(bf);
  }

  /** After a directive that has stored at least three characters, all but these
      three are shown once more. */
  lemma LongLongAfterText(d: Directive, args: seq<Arg>, left: seq<char>, text: string)
    requires |left| == BUFFER_SIZE && Valid(args) && Contains(left, 0, text) && NUL !in text && |text| >= 3
    requires d.length == FMT_LEN_LL && d.specifier in {FMT_SPEC_I, FMT_SPEC_U, FMT_SPEC_X}
    ensures Convert(d, args, left) == Some(Converted("", args, StrCpy(left, "NaN")))
    ensures TextIn(StrCpy(left, "NaN")) == Some("NaN" + text[3..])
  {
    LongLongShowsStaleText(d, args, left);
    TextBeforeNul(text[3..], left[|text| + 1 ..]);
    assert left == left[..|text|] + [left[|text|]] + left[|text| + 1 ..];
    assert left[..|text|] == text;
    assert left[3..] == text[3..] + [NUL] + left[|text| + 1 ..];
  }

  /** So after every %x, and after every %d or %u of three characters or more. */
  lemma LongLongAfterNumber(d: Directive, args: seq<Arg>, bf: seq<char>, n: int)
    requires |bf| == BUFFER_SIZE && Valid(args) && -0x8000_0000 <= n < MOD32
    requires d.length == FMT_LEN_LL && d.specifier in {FMT_SPEC_I, FMT_SPEC_U, FMT_SPEC_X}
    ensures |Signed(n, 10)| <= 11 && |Signed(n, 16)| <= 9
    ensures |Signed(n, 10)| >= 3 ==>
      TextIn(StrCpy(Store(bf, 0, Signed(n, 10)), "NaN")) == Some("NaN" + Signed(n, 10)[3..])
    ensures TextIn(StrCpy(Store(StrCpy(bf, "0x"), 2, Signed(n, 16)), "NaN")) == Some("NaN" + Signed(n, 16)[1..])
  {
    hide Convert, TextIn, Digits;
    TextFits(n);
    SignedHasNoNul(n, 10);
    SignedHasNoNul(n, 16);
    var decimal, hex := Signed(n, 10), Signed(n, 16);
    StoreContains(bf, decimal);
    if |decimal| >= 3 {
      LongLongAfterText(d, args, Store(bf, 0, decimal), decimal);
    }
    HexContains(bf, hex);
    LongLongAfterText(d, args, Store(StrCpy(bf, "0x"), 2, hex), "0x" + hex);
  }

  lemma StoreContains(bf: seq<char>, text: string)
    requires |text| < |bf|
    ensures Contains(Store(bf, 0, text), 0, text)
  {
  }

  lemma HexContains(bf: seq<char>, hex: string)
    requires 2 + |hex| < |bf| && |hex| >= 1
    ensures Contains(Store(StrCpy(bf, "0x"), 2, hex), 0, "0x" + hex)
    ensures ("0x" + hex)[3..] == hex[1..]
  {
    var left := Store(StrCpy(bf, "0x"), 2, hex);
    assert left[0 .. 2 + |hex|] == "0x" + hex;
  }

  /** "%d%lld" with 12345 shows 12345NaN45, whatever is on the stack. */
  lemma LongLongRepeats(size: int, result: Option<string>)
    requires size >= 3
    ensures MayEmit(size, "%d%lld", [Scalar(12345)], result) <==> result == Some("12345NaN45")
  {
    forall stack | |stack| == BUFFER_SIZE
      ensures Emit(size, "%d%lld", 0, [Scalar(12345)], stack) == Some("12345NaN45")
    {
      EmitRepeats(size, stack);
    }
    var blank := seq(BUFFER_SIZE, _ => NUL);
    assert Emit(size, "%d%lld", 0, [Scalar(12345)], blank) == Some("12345NaN45");
  }

  lemma EmitRepeats(size: int, stack: seq<char>)
    requires size >= 3 && |stack| == BUFFER_SIZE
    ensures Emit(size, "%d%lld", 0, [Scalar(12345)], stack) == Some("12345NaN45")
  {
    hide Emit, ParseDirective, Convert, TextIn;
    var s, left := "%d%lld", Store(stack, 0, "12345");
    RepeatsParsed();
    RepeatsStored(stack);
    EmitTurn(size, s, 0, [Scalar(12345)], stack);
    EmitTurn(size, s, 2, [], left);
    EmitEndsAt(size, s, 6, StrCpy(left, "NaN"));
    ThenAppend("NaN45", "", None);
    assert "" + "12345" + ("" + "NaN45" + "") == "12345NaN45";
  }

  lemma RepeatsParsed()
    ensures ParseDirective("%d%lld", 1) == Parsed(Directive(0, 0, 0, FMT_SPEC_I), 2)
    ensures ParseDirective("%d%lld", 3) == Parsed(Directive(0, 0, FMT_LEN_LL, FMT_SPEC_I), 6)
  {
    var d, ll := Spelling("", "", "", 'd'), Spelling("", "", "ll", 'd');
    assert "%d%lld" == "%" + d.Text() + "%lld" == "%d%" + ll.Text() + "";
    ParseSpelled("%", d, "%lld");
    ParseSpelled("%d%", ll, "");
  }

  lemma RepeatsStored(stack: seq<char>)
    requires |stack| == BUFFER_SIZE
    ensures var left := Store(stack, 0, "12345");
      && Convert(Directive(0, 0, 0, FMT_SPEC_I), [Scalar(12345)], stack) == Some(Converted("", [], left))
      && TextIn(left) == Some("12345")
      && Convert(Directive(0, 0, FMT_LEN_LL, FMT_SPEC_I), [], left) == Some(Converted("", [], StrCpy(left, "NaN")))
      && TextIn(StrCpy(left, "NaN")) == Some("NaN45")
  {
    hide Digits;
    var left := Store(stack, 0, "12345");
    Numeral12345();
    LongLongAfterNumber(Directive(0, 0, FMT_LEN_LL, FMT_SPEC_I), [], stack, 12345);
    LongLongShowsStaleText(Directive(0, 0, FMT_LEN_LL, FMT_SPEC_I), [], left);
    TextBeforeNul("12345", stack[6..]);
    assert left == "12345" + [NUL] + stack[6..];
    assert "NaN" + "12345"[3..] == "NaN45";
    assert [Scalar(12345)][1..] == [];
  }

  lemma Numeral12345()
    ensures Signed(12345, 10) == "12345"
  {
    assert Digits(123, 10) == "123";
  }

  lemma EmitTurn(size: int, s: string, p: nat, args: seq<Arg>, bf: seq<char>)
    requires p < size && p < |s| && s[p] == '%' && |bf| == BUFFER_SIZE && Valid(args)
    ensures var parsed := ParseDirective(s, p + 1);
      var c := Convert(parsed.directive, args, bf);
      c.Some? && TextIn(c.value.bf).Some? ==>
        Emit(size, s, p, args, bf)
        == Then(c.value.direct + TextIn(c.value.bf).value, Emit(size, s, parsed.end, c.value.args, c.value.bf))
  {
  }

  lemma EmitEndsAt(size: int, s: string, p: nat, bf: seq<char>)
    requires p == |s| && |bf| == BUFFER_SIZE
    ensures Emit(size, s, p, [], bf) == Some("")
  {
  }

  lemma NaNText(bf: seq<char>)
    requires |bf| == BUFFER_SIZE
    ensures TextIn(StrCpy(bf, "NaN")) == Then("NaN", TextIn(bf[3..]))
    ensures TextIn(StrCpy(bf, "NaN")) == Some("NaN") <==> bf[3] == NUL
  {
    var r := StrCpy(bf, "NaN");
    var rest := TextIn(bf[3..]);
    var r1, r2, r3 := r[1..], r[1..][1..], r[1..][1..][1..];
    assert r3 == bf[3..];
    assert TextIn(r) == Then("N", TextIn(r1));
    assert TextIn(r1) == Then("a", TextIn(r2));
    assert TextIn(r2) == Then("N", TextIn(r3));
    ThenAppend("a", "N", rest);
    ThenAppend("N", "aN", rest);
    assert "a" + "N" == "aN" && "N" + "aN" == "NaN";
    if rest.Some? {
      assert rest.value == "" <==> bf[3] == NUL;
      assert |"NaN" + rest.value| == 3 + |rest.value|;
    }
  }
}
