/** The formatted output: an interpreter of format strings with a lasting error mode. */
module Printf {
  import opened Terminals
  import opened Digits
  import opened Seals

  /** An argument: an int or long, or a string up to its terminating NUL. */
  datatype Arg = Int(n: int) | Str(s: seq<Byte>)

  predicate IsSpecifier(c: char) {
    c in "csdioxl"
  }

  /** What the specifier demands of its argument. */
  predicate Accepts(c: char, a: Arg) {
    match a
    case Str(s) => c == 's' && '\0' !in s
    case Int(n) => IsSpecifier(c) && c != 's' && -INT_LIMIT <= n < INT_LIMIT && (c in "dil" ==> n != -INT_LIMIT)
  }

  /** The value of a number taken as unsigned. */
  function Unsigned(n: int): nat {
    n % UINT_LIMIT
  }

  /** The text of one converted argument; %l drops the sign, %o and %x take the number as unsigned. */
  function Converted(c: char, a: Arg): seq<Byte>
    requires Accepts(c, a)
  {
    match a
    case Str(s) => s
    case Int(n) =>
      if c == 'c' then [(n % 256) as char]
      else if c == 'd' || c == 'i' then Signed(n, 10)
      else if c == 'o' then Numeral(Unsigned(n), 8)
      else if c == 'x' then "0x" + Numeral(Unsigned(n), 16)
      else Numeral(Abs(n), 10)
  }

  // ----- What a format stands for, read one character at a time -----

  /** How the next character of a format is to be taken. */
  datatype Part = Plain | Percent | Bad | Conversion

  function NextPart(f: seq<Byte>, rejected: bool): Part
    requires f != []
  {
    if f[0] != '%' then Plain
    else if |f| > 1 && f[1] == '%' then Percent
    else if rejected || |f| == 1 || !IsSpecifier(f[1]) then Bad
    else Conversion
  }

  /** The arguments are those that the format asks for. */
  predicate Supplied(f: seq<Byte>, args: seq<Arg>, rejected: bool)
    decreases |f|
  {
    f == [] ||
    match NextPart(f, rejected)
    case Plain => Supplied(f[1..], args, rejected)
    case Percent => Supplied(f[2..], args, rejected)
    case Bad => Supplied(f[1..], args, true)
    case Conversion => args != [] && Accepts(f[1], args[0]) && Supplied(f[2..], args[1..], rejected)
  }

  /** The text put out, and the value returned. */
  datatype Output = Output(text: seq<Byte>, written: nat)

  function Before(text: seq<Byte>, counted: nat, rest: Output): Output {
    Output(text + rest.text, counted + rest.written)
  }

  function Render(f: seq<Byte>, args: seq<Arg>, rejected: bool): Output
    requires Supplied(f, args, rejected)
    decreases |f|
  {
    if f == [] then Output([], 0)
    else
      match NextPart(f, rejected)
      case Plain => Before([f[0]], 1, Render(f[1..], args, rejected))
      case Percent => Before("%", 1, Render(f[2..], args, rejected))
      case Bad => Before("%", 1, Render(f[1..], args, true))
      case Conversion => Before(Converted(f[1], args[0]), 0, Render(f[2..], args[1..], rejected))
  }

  // ----- Properties of the rendering -----

  /** Every percent sign doubled. */
  function Escape(s: seq<Byte>): seq<Byte> {
    if s == [] then [] else (if s[0] == '%' then "%%" else [s[0]]) + Escape(s[1..])
  }

  /** An escaped text comes out as it was, and is counted in full. */
  lemma {:induction false} EscapeRendersText(s: seq<Byte>, args: seq<Arg>, rejected: bool)
    ensures Supplied(Escape(s), args, rejected)
    ensures Render(Escape(s), args, rejected) == Output(s, |s|)
  {
    if s != [] {
      EscapeRendersText(s[1..], args, rejected);
      var e := Escape(s);
      if s[0] == '%' {
        assert e[2..] == Escape(s[1..]);
      } else {
        assert e[1..] == Escape(s[1..]);
      }
    }
  }

  /** Doubled percent signs made single, all else as it is. */
  function Unescape(f: seq<Byte>): seq<Byte> {
    if f == [] then []
    else if |f| > 1 && f[0] == '%' && f[1] == '%' then "%" + Unescape(f[2..])
    else [f[0]] + Unescape(f[1..])
  }

  /** Once a specifier has been rejected, only doubled percent signs are still understood: the rest comes
      out literally, asks for no argument, and is counted in full. */
  lemma {:induction false} AfterRejection(f: seq<Byte>, args: seq<Arg>)
    ensures Supplied(f, args, true)
    ensures Render(f, args, true) == Output(Unescape(f), |Unescape(f)|)
    decreases |f|
  {
    if f != [] {
      match NextPart(f, true)
      case Plain => AfterRejection(f[1..], args);
      case Percent => AfterRejection(f[2..], args);
      case Bad => AfterRejection(f[1..], args);
    }
  }

  /** The total length of the converted arguments. */
  function ConvertedLength(f: seq<Byte>, args: seq<Arg>, rejected: bool): nat
    requires Supplied(f, args, rejected)
    decreases |f|
  {
    if f == [] then 0
    else
      match NextPart(f, rejected)
      case Plain => ConvertedLength(f[1..], args, rejected)
      case Percent => ConvertedLength(f[2..], args, rejected)
      case Bad => ConvertedLength(f[1..], args, true)
      case Conversion => |Converted(f[1], args[0])| + ConvertedLength(f[2..], args[1..], rejected)
  }

  /** The value returned leaves out what conversions put out. */
  lemma {:induction false} WrittenIsLiteral(f: seq<Byte>, args: seq<Arg>, rejected: bool)
    requires Supplied(f, args, rejected)
    ensures var r := Render(f, args, rejected); |r.text| == r.written + ConvertedLength(f, args, rejected)
    decreases |f|
  {
    if f != [] {
      match NextPart(f, rejected)
      case Plain => WrittenIsLiteral(f[1..], args, rejected);
      case Percent => WrittenIsLiteral(f[2..], args, rejected);
      case Bad => WrittenIsLiteral(f[1..], args, true);
      case Conversion => WrittenIsLiteral(f[2..], args[1..], rejected);
    }
  }

  /** A format without bad specifiers that takes exactly the given arguments. */
  predicate Complete(f: seq<Byte>, args: seq<Arg>)
    decreases |f|
  {
    if f == [] then args == []
    else
      match NextPart(f, false)
      case Plain => Complete(f[1..], args)
      case Percent => Complete(f[2..], args)
      case Bad => false
      case Conversion => args != [] && Accepts(f[1], args[0]) && Complete(f[2..], args[1..])
  }

  lemma BeforeTwice(t: seq<Byte>, n: nat, r: Output, rest: Output)
    ensures Before(t, n, Before(r.text, r.written, rest)) == (var u := Before(t, n, r); Before(u.text, u.written, rest))
  {
    assert t + (r.text + rest.text) == t + r.text + rest.text;
  }

  lemma NextPartSame(f: seq<Byte>, g: seq<Byte>)
    requires f != [] && NextPart(f, false) != Bad
    ensures NextPart(f + g, false) == NextPart(f, false)
    ensures (f + g)[0] == f[0] && (f + g)[1..] == f[1..] + g
    ensures |f| > 1 ==> (f + g)[1] == f[1] && (f + g)[2..] == f[2..] + g
  {
  }

  /** Formats put one after the other render one after the other. */
  lemma {:induction false} RenderConcatenation(f: seq<Byte>, g: seq<Byte>, a: seq<Arg>, b: seq<Arg>)
    requires Complete(f, a) && Supplied(g, b, false)
    ensures Supplied(f, a, false) && Supplied(f + g, a + b, false)
    ensures var r := Render(f, a, false); Render(f + g, a + b, false) == Before(r.text, r.written, Render(g, b, false))
    decreases |f|
  {
    if f == [] {
      assert f + g == g && a + b == b;
    } else {
      NextPartSame(f, g);
      var rest := Render(g, b, false);
      match NextPart(f, false)
      case Plain =>
        RenderConcatenation(f[1..], g, a, b);
        BeforeTwice([f[0]], 1, Render(f[1..], a, false), rest);
      case Percent =>
        RenderConcatenation(f[2..], g, a, b);
        BeforeTwice("%", 1, Render(f[2..], a, false), rest);
      case Conversion =>
        assert (a + b)[0] == a[0] && (a + b)[1..] == a[1..] + b;
        RenderConcatenation(f[2..], g, a[1..], b);
        BeforeTwice(Converted(f[1], a[0]), 0, Render(f[2..], a[1..], false), rest);
    }
  }

  /** A run without percent signs comes out as it is. */
  lemma {:induction false} RenderRun(run: seq<Byte>, f: seq<Byte>, args: seq<Arg>, rejected: bool)
    requires '%' !in run
    ensures Supplied(run + f, args, rejected) <==> Supplied(f, args, rejected)
    ensures Supplied(f, args, rejected) ==> Render(run + f, args, rejected) == Before(run, |run|, Render(f, args, rejected))
  {
    if run == [] {
      assert run + f == f;
    } else {
      assert run[0] in run;
      assert (run + f)[1..] == run[1..] + f;
      RenderRun(run[1..], f, args, rejected);
      if Supplied(f, args, rejected) {
        BeforeTwice([run[0]], 1, Output(run[1..], |run| - 1), Render(f, args, rejected));
        assert [run[0]] + run[1..] == run;
      }
    }
  }

  // ----- vprintf, and printf, whose text is the same but for the names -----

  method PrintRun(t: Terminal, format: seq<Byte>, pos: nat) returns (amount: nat, ghost run: seq<Byte>)
    requires t.Valid() && pos < |format|
    modifies t, t.buf
    ensures 0 < amount == |run| && pos + amount <= |format| && run == format[pos..pos + amount] && '%' !in run[1..]
    ensures t.Valid() && t.color == old(t.color)
    ensures t.log == old(t.log) + Events(run, t.color)
  {
    amount, run := 1, [format[pos]];
    while pos + amount < |format| && format[pos + amount] != '%'
      invariant 0 < amount && pos + amount <= |format| && run == format[pos..pos + amount] && '%' !in run[1..]
    {
      assert (run + [format[pos + amount]])[1..] == run[1..] + [format[pos + amount]];
      run := run + [format[pos + amount]];
      amount := amount + 1;
    }
    t.Write(format[pos..pos + amount]);
  }

  method PrintHex(t: Terminal, n: int, s: array<Byte>)
    requires t.Valid() && Accepts('x', Int(n)) && s.Length == BUFFER && s as object != t.buf as object
    modifies t, t.buf, s
    ensures t.Valid() && t.color == old(t.color)
    ensures t.log == old(t.log) + Events(Converted('x', Int(n)), t.color)
  {
    t.Write("0x");
    Utoa(n % UINT_LIMIT, s, 16);
    PrintText(t, s, Numeral(Unsigned(n), 16));
    EventsAppend("0x", Numeral(Unsigned(n), 16), t.color);
  }

  /** The digits of a number, by the function for its specifier. */
  method PrintNumber(t: Terminal, c: char, n: int)
    requires t.Valid() && Accepts(c, Int(n)) && c != 'c'
    modifies t, t.buf
    ensures t.Valid() && t.color == old(t.color)
    ensures t.log == old(t.log) + Events(Converted(c, Int(n)), t.color)
  {
    var s := new Byte[BUFFER](_ => ' ');
    if c == 'd' || c == 'i' {
      Itoa(n, s, 10);
      PrintText(t, s, Signed(n, 10));
    } else if c == 'o' {
      Utoa(n % UINT_LIMIT, s, 8);
      PrintText(t, s, Numeral(Unsigned(n), 8));
    } else if c == 'x' {
      PrintHex(t, n, s);
    } else {
      Ltoa(n, s, 10);
      PrintText(t, s, Numeral(Abs(n), 10));
    }
  }

  /** A converted argument is written. */
  method PrintConverted(t: Terminal, c: char, a: Arg)
    requires t.Valid() && Accepts(c, a)
    modifies t, t.buf
    ensures t.Valid() && t.color == old(t.color)
    ensures t.log == old(t.log) + Events(Converted(c, a), t.color)
  {
    if a.Str? {
      t.Write(a.s);
      return;
    }
    if c == 'c' {
      t.Write([(a.n % 256) as char]);
      return;
    }
    PrintNumber(t, c, a.n);
  }

  method PrintText(t: Terminal, s: array<Byte>, ghost text: seq<Byte>)
    requires t.Valid() && HoldsText(s[..], text) && s as object != t.buf as object
    modifies t, t.buf
    ensures t.Valid() && t.color == old(t.color)
    ensures t.log == old(t.log) + Events(text, t.color)
  {
    var n := StrLen(s, text);
    t.Write(s[..n]);
  }

  lemma EventsAppend(s: seq<Byte>, r: seq<Byte>, color: Color)
    ensures Events(s + r, color) == Events(s, color) + Events(r, color)
  {
  }

  /** The run that print_c puts out: from a plain character, from the second of two percent signs, or from
      the percent sign of a rejected specifier, up to the next percent sign. */
  lemma RunRendered(f: seq<Byte>, skip: nat, run: seq<Byte>, rest: seq<Byte>, args: seq<Arg>, rejected: bool)
    requires f != [] && run != [] && skip <= |f| && f[skip..] == run + rest && '%' !in run[1..]
    requires NextPart(f, rejected) != Conversion && skip == if NextPart(f, rejected) == Percent then 1 else 0
    requires Supplied(f, args, rejected)
    ensures var r := rejected || NextPart(f, rejected) == Bad;
            && Supplied(rest, args, r)
            && Render(f, args, rejected) == Before(run, |run|, Render(rest, args, r))
  {
    var r := rejected || NextPart(f, rejected) == Bad;
    assert f[skip + 1..] == run[1..] + rest by {
      assert f[skip..][1..] == (run + rest)[1..];
    }
    assert f[skip] == run[0] by {
      assert f[skip..][0] == run[0];
    }
    RenderRun(run[1..], rest, args, r);
    assert run == [run[0]] + run[1..];
    BeforeTwice([run[0]], 1, Output(run[1..], |run[1..]|), Render(rest, args, r));
  }

  /** How far the interpreter has come: out has been put out, written counted, and from pos on the rest is
      to be rendered with the arguments from next on. */
  ghost predicate Reached(format: seq<Byte>, args: seq<Arg>, pos: nat, next: nat, rejected: bool, out: seq<Byte>, written: nat)
  {
    && Supplied(format, args, false)
    && pos <= |format| && next <= |args|
    && Supplied(format[pos..], args[next..], rejected)
    && Render(format, args, false) == Before(out, written, Render(format[pos..], args[next..], rejected))
  }

  ghost predicate Stands(format: seq<Byte>, args: seq<Arg>, pos: nat, next: nat, rejected: bool, out: seq<Byte>, written: nat)
  {
    pos <= |format| && forall k :: Seen(TextPart, k) ==> Reached(format, args, pos, next, rejected, out, written)
  }

  /** What begins at pos is a run, of which the first skip characters are left out; bad tells whether a
      specifier has been rejected by then. */
  ghost predicate RunAt(format: seq<Byte>, pos: nat, rejected: bool, skip: nat, bad: bool) {
    pos < |format| && forall k :: Seen(TextPart, k) ==>
      var p := NextPart(format[pos..], rejected);
      p != Conversion && skip == (if p == Percent then 1 else 0) && bad == (rejected || p == Bad)
  }

  lemma SkipInside(format: seq<Byte>, pos: nat, rejected: bool, skip: nat, bad: bool)
    requires RunAt(format, pos, rejected, skip, bad)
    ensures pos + skip < |format|
  {
    assert Seen(TextPart, 0);
  }

  lemma AfterRun(format: seq<Byte>, args: seq<Arg>, pos: nat, next: nat, rejected: bool, out: seq<Byte>, written: nat,
                 skip: nat, bad: bool, run: seq<Byte>, end: nat)
    requires Stands(format, args, pos, next, rejected, out, written) && RunAt(format, pos, rejected, skip, bad)
    requires end == pos + skip + |run| <= |format| && run != [] && run == format[pos + skip..end] && '%' !in run[1..]
    ensures Stands(format, args, end, next, bad, out + run, written + |run|)
  {
    assert Seen(TextPart, 0);
    var rest := format[end..];
    assert format[pos..][skip..] == run + rest;
    RunRendered(format[pos..], skip, run, rest, args[next..], rejected);
    BeforeTwice(out, written, Output(run, |run|), Render(rest, args[next..], bad));
  }

  lemma AfterConversion(format: seq<Byte>, args: seq<Arg>, pos: nat, next: nat, rejected: bool, out: seq<Byte>, written: nat)
    requires Stands(format, args, pos, next, rejected, out, written) && pos < |format|
    requires NextPart(format[pos..], rejected) == Conversion
    ensures pos + 2 <= |format| && next < |args| && Accepts(format[pos + 1], args[next])
    ensures Stands(format, args, pos + 2, next + 1, rejected, out + Converted(format[pos + 1], args[next]), written)
  {
    assert Seen(TextPart, 0);
    var f, a := format[pos..], args[next..];
    assert f[2..] == format[pos + 2..] && a[1..] == args[next + 1..] && f[1] == format[pos + 1] && a[0] == args[next];
    BeforeTwice(out, written, Output(Converted(f[1], a[0]), 0), Render(f[2..], a[1..], rejected));
  }

  /** How the character at pos is to be taken, from what the interpreter looks at. */
  lemma PartAt(format: seq<Byte>, pos: nat, rejected: bool, c: char)
    requires pos < |format| && c == (if pos + 1 < |format| then format[pos + 1] else '\0')
    ensures NextPart(format[pos..], rejected) ==
              if format[pos] != '%' then Plain
              else if c == '%' then Percent
              else if rejected || !IsSpecifier(c) then Bad
              else Conversion
    ensures format[pos] != '%' ==> RunAt(format, pos, rejected, 0, rejected)
    ensures format[pos] == '%' && c == '%' ==> RunAt(format, pos, rejected, 1, rejected)
    ensures format[pos] == '%' && c != '%' && (rejected || !IsSpecifier(c)) ==> RunAt(format, pos, rejected, 0, true)
  {
  }

  /** print_c: a run is put out and counted. */
  method PrintC(t: Terminal, format: seq<Byte>, ghost args: seq<Arg>, pos: nat, skip: nat, ghost next: nat,
                rejected: bool, bad: bool, ghost out: seq<Byte>, written: nat)
    returns (end: nat, count: nat, ghost text: seq<Byte>)
    requires t.Valid() && Stands(format, args, pos, next, rejected, out, written)
    requires RunAt(format, pos, rejected, skip, bad)
    modifies t, t.buf
    ensures t.Valid() && t.color == old(t.color) && t.log == old(t.log) + Events(text, t.color)
    ensures pos < end && Stands(format, args, end, next, bad, out + text, count)
  {
    SkipInside(format, pos, rejected, skip, bad);
    var amount, run := PrintRun(t, format, pos + skip);
    end, count, text := pos + skip + amount, written + amount, run;
    AfterRun(format, args, pos, next, rejected, out, written, skip, bad, run, end);
  }

  /** One conversion: the argument is taken and put out, and not counted. */
  method PrintConversion(t: Terminal, format: seq<Byte>, args: seq<Arg>, pos: nat, next: nat,
                         rejected: bool, ghost out: seq<Byte>, ghost written: nat)
    returns (end: nat, later: nat, ghost text: seq<Byte>)
    requires t.Valid() && Stands(format, args, pos, next, rejected, out, written) && pos < |format|
    requires NextPart(format[pos..], rejected) == Conversion
    modifies t, t.buf
    ensures t.Valid() && t.color == old(t.color) && t.log == old(t.log) + Events(text, t.color)
    ensures pos < end && Stands(format, args, end, later, rejected, out + text, written)
  {
    AfterConversion(format, args, pos, next, rejected, out, written);
    PrintConverted(t, format[pos + 1], args[next]);
    text := Converted(format[pos + 1], args[next]);
    end, later := pos + 2, next + 1;
  }

  /** One turn of the loop: a run or a conversion. */
  method PrintNext(t: Terminal, format: seq<Byte>, args: seq<Arg>, pos: nat, next: nat,
                   rejected: bool, ghost out: seq<Byte>, written: nat)
    returns (end: nat, later: nat, refused: bool, count: nat, ghost text: seq<Byte>)
    requires t.Valid() && Stands(format, args, pos, next, rejected, out, written) && pos < |format| && '\0' !in format
    modifies t, t.buf
    ensures t.Valid() && t.color == old(t.color) && t.log == old(t.log) + Events(text, t.color)
    ensures pos < end && Stands(format, args, end, later, refused, out + text, count)
  {
    var c := if pos + 1 < |format| then format[pos + 1] else '\0';
    PartAt(format, pos, rejected, c);
    later, refused, count := next, rejected, written;
    if format[pos] != '%' {
      end, count, text := PrintC(t, format, args, pos, 0, next, rejected, rejected, out, written);
    } else if c == '%' {
      end, count, text := PrintC(t, format, args, pos, 1, next, rejected, rejected, out, written);
    } else if rejected || !IsSpecifier(c) {
      end, count, text := PrintC(t, format, args, pos, 0, next, rejected, true, out, written);
      refused := true;
    } else {
      end, later, text := PrintConversion(t, format, args, pos, next, rejected, out, written);
    }
  }

  /** vprintf */
  method Vprintf(t: Terminal, format: seq<Byte>, args: seq<Arg>) returns (written: nat)
    requires t.Valid() && '\0' !in format && Supplied(format, args, false)
    modifies t, t.buf
    ensures t.Valid() && t.color == old(t.color)
    ensures var r := Render(format, args, false); written == r.written && t.log == old(t.log) + Events(r.text, t.color)
  {
    written := 0;
    var pos, next, rejected := 0, 0, false;
    ghost var out, text: seq<Byte> := [], [];
    ReachedAtFirst(format, args);
    while pos < |format|
      invariant t.Valid() && t.color == old(t.color) && t.log == old(t.log) + Events(out, t.color)
      invariant Stands(format, args, pos, next, rejected, out, written)
      decreases |format| - pos
    {
      pos, next, rejected, written, text := PrintNext(t, format, args, pos, next, rejected, out, written);
      EventsAppend(out, text, t.color);
      out := out + text;
    }
    ReachedTheEnd(format, args, pos, next, rejected, out, written);
  }

  lemma ReachedAtFirst(format: seq<Byte>, args: seq<Arg>)
    requires Supplied(format, args, false)
    ensures Stands(format, args, 0, 0, false, [], 0)
  {
    assert format[0..] == format && args[0..] == args;
  }

  lemma ReachedTheEnd(format: seq<Byte>, args: seq<Arg>, pos: nat, next: nat, rejected: bool, out: seq<Byte>, written: nat)
    requires Stands(format, args, pos, next, rejected, out, written) && pos >= |format|
    ensures Supplied(format, args, false) && Render(format, args, false) == Output(out, written)
  {
    assert Seen(TextPart, 0);
    assert format[|format|..] == [];
  }

  // ----- What each specifier puts out -----

  /** A format that is one specifier puts out its argument, converted, and counts nothing. */
  lemma OneConversion(c: char, a: Arg)
    requires c in "csdioxl" && c as int < 256 && Accepts(c, a)
    ensures Supplied(['%', c], [a], false) && Render(['%', c], [a], false) == Output(Converted(c, a), 0)
  {
    var f: seq<Byte> := ['%', c];
    assert f[2..] == [] && [a][1..] == [];
    assert Converted(c, a) + [] == Converted(c, a);
  }

  /** A number printed with %d or %i reads back as that number; the value returned is zero. */
  lemma DecimalRoundTrip(n: int)
    requires -INT_LIMIT < n < INT_LIMIT
    ensures Supplied("%d", [Int(n)], false) && Supplied("%i", [Int(n)], false)
    ensures var r := Render("%d", [Int(n)], false); ParseSigned(r.text, 10) == n && r.written == 0
    ensures Render("%i", [Int(n)], false) == Render("%d", [Int(n)], false)
    ensures var t := Render("%d", [Int(n)], false).text; if n < 0 then t[0] == '-' && IsNumeral(t[1..], 10) else IsNumeral(t, 10)
  {
    OneConversion('d', Int(n));
    OneConversion('i', Int(n));
    ParseSignedNumeral(n, 10);
    NumeralIsNumeral(Abs(n), 10);
    assert n < 0 ==> Signed(n, 10)[1..] == Numeral(-n, 10);
  }

  /** After %x come 0x and the hexadecimal numeral of the number taken as unsigned. */
  lemma HexRoundTrip(n: int)
    requires -INT_LIMIT <= n < INT_LIMIT
    ensures Supplied("%x", [Int(n)], false)
    ensures var r := Render("%x", [Int(n)], false);
            && r.written == 0 && |r.text| > 2 && r.text[..2] == "0x" && IsNumeral(r.text[2..], 16)
            && Parse(r.text[2..], 16) == n % 0x1_0000_0000
  {
    OneConversion('x', Int(n));
    ParseNumeral(Unsigned(n), 16);
    NumeralIsNumeral(Unsigned(n), 16);
    assert ("0x" + Numeral(Unsigned(n), 16))[2..] == Numeral(Unsigned(n), 16);
  }

  /** %o puts out the octal numeral of the number taken as unsigned. */
  lemma OctalRoundTrip(n: int)
    requires -INT_LIMIT <= n < INT_LIMIT
    ensures Supplied("%o", [Int(n)], false)
    ensures var r := Render("%o", [Int(n)], false);
            r.written == 0 && IsNumeral(r.text, 8) && Parse(r.text, 8) == n % 0x1_0000_0000
  {
    OneConversion('o', Int(n));
    ParseNumeral(Unsigned(n), 8);
    NumeralIsNumeral(Unsigned(n), 8);
  }

  /** %l puts out the decimal numeral of the absolute value. */
  lemma LongLosesSign(n: int)
    requires -INT_LIMIT < n < INT_LIMIT
    ensures Supplied("%l", [Int(n)], false)
    ensures var r := Render("%l", [Int(n)], false);
            r.written == 0 && IsNumeral(r.text, 10) && Parse(r.text, 10) == if n < 0 then -n else n
  {
    OneConversion('l', Int(n));
    ParseNumeral(Abs(n), 10);
    NumeralIsNumeral(Abs(n), 10);
  }

  /** %c puts out one byte, and %s the string. */
  lemma CharAndString(n: int, s: seq<Byte>)
    requires -INT_LIMIT <= n < INT_LIMIT && '\0' !in s
    ensures Supplied("%c", [Int(n)], false) && Render("%c", [Int(n)], false) == Output([(n % 256) as char], 0)
    ensures Supplied("%s", [Str(s)], false) && Render("%s", [Str(s)], false) == Output(s, 0)
  {
    OneConversion('c', Int(n));
    OneConversion('s', Str(s));
  }

  /** Any other character after a percent sign is a bad specifier: it, the percent sign and all that follows
      come out literally. */
  lemma BadSpecifier(c: Byte, f: seq<Byte>, args: seq<Arg>)
    requires c !in "csdioxl%"
    ensures Supplied(['%', c] + f, args, false)
    ensures Render(['%', c] + f, args, false) == Output(['%', c] + Unescape(f), 2 + |Unescape(f)|)
  {
    var g: seq<Byte> := ['%', c] + f;
    assert g[1..] == [c] + f && g[1..][1..] == f;
    AfterRejection(g[1..], args);
    assert ['%'] + ([c] + Unescape(f)) == ['%', c] + Unescape(f);
  }

  /** Nothing follows a percent sign at the end of a format, which comes out as it is. */
  lemma LonePercent(args: seq<Arg>)
    ensures Supplied("%", args, false) && Render("%", args, false) == Output("%", 1)
  {
    assert "%"[1..] == [];
  }
}
