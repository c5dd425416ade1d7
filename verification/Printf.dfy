// src/lib/vsprintf.c: formatted printing into a character buffer.
module Printf {
  import opened Numerals
  import opened Wrappers

  const NUL: char := 0 as char

  // An argument is a word or, where %s is to print it, the string it points to.
  datatype Arg = Num(value: nat) | Str(text: string)

  predicate Stops(c: char, endflags: string) {
    c == NUL || c in endflags
  }

  // What a C string shows up to its end or the first of the end flags.
  function Span(src: string, endflags: string): (s: string)
    ensures s <= src && forall c :: c in s ==> !Stops(c, endflags)
    ensures |s| < |src| ==> Stops(src[|s|], endflags)
  {
    if src == [] || Stops(src[0], endflags) then [] else [src[0]] + Span(src[1..], endflags)
  }

  function Spaces(n: nat): string {
    seq(n, _ => ' ')
  }

  // Width 0 (or less) leaves the text alone, a positive one cuts it or fills it up.
  function Fitted(src: string, endflags: string, width: int): string {
    var s := Span(src, endflags);
    if width <= 0 then s
    else if |s| >= width then s[..width]
    else s + Spaces(width - |s|)
  }

  lemma WidthIsExact(src: string, endflags: string, width: int)
    requires width > 0
    ensures |Fitted(src, endflags, width)| == width
    ensures forall i :: 0 <= i < width ==>
      Fitted(src, endflags, width)[i] == if i < |Span(src, endflags)| then Span(src, endflags)[i] else ' '
  {}

  lemma SpanIs(src: string, endflags: string, n: nat)
    requires n <= |src| && forall i :: 0 <= i < n ==> !Stops(src[i], endflags)
    requires n < |src| ==> Stops(src[n], endflags)
    ensures Span(src, endflags) == src[..n]
  {
    var s := Span(src, endflags);
    assert forall i :: 0 <= i < |s| ==> s[i] == src[i] && s[i] in s;
  }

  // The buffer with the text written at a place.
  function Put(buf: string, at: nat, text: string): string
    requires at + |text| <= |buf|
  {
    buf[..at] + text + buf[at + |text|..]
  }

  lemma PutTwice(buf: string, at: nat, a: string, b: string)
    requires at + |a| + |b| <= |buf|
    ensures Put(Put(buf, at, a), at + |a|, b) == Put(buf, at, a + b)
  {}

  // write_chars: the width counts only when it is not 0.
  method WriteChars(dest: array<char>, at: nat, src: string, endflags: string, width: int) returns (n: nat)
    requires at + |Fitted(src, endflags, width)| <= dest.Length
    modifies dest
    ensures n == |Fitted(src, endflags, width)|
    ensures dest[..] == Put(old(dest[..]), at, Fitted(src, endflags, width))
  {
    hide Span, Put;
    n := Copy(dest, at, src, endflags, width);
    assert width <= 0 ==> Span(src, endflags)[..n] == Span(src, endflags);
    if width != 0 {
      assert Span(src, endflags)[..n] + Spaces(if n < width then width - n else 0) == Fitted(src, endflags, width);
      PutTwice(old(dest[..]), at, Span(src, endflags)[..n], Spaces(if n < width then width - n else 0));
      n := Pad(dest, at, n, width);
    }
  }

  // The copying loop of write_chars.
  method Copy(dest: array<char>, at: nat, src: string, endflags: string, width: int) returns (n: nat)
    requires at + |Fitted(src, endflags, width)| <= dest.Length
    modifies dest
    ensures n == if 0 < width < |Span(src, endflags)| then width else |Span(src, endflags)|
    ensures at + n <= dest.Length && dest[..] == Put(old(dest[..]), at, Span(src, endflags)[..n])
  {
    hide Span, Fitted, Spaces, Stops, Put;
    ghost var room := |Fitted(src, endflags, width)|;
    ghost var was := dest[..];
    n := 0;
    PutOneMore(was, at, src, 0);
    while n < |src| && !Stops(src[n], endflags)
      invariant n <= |src| && n <= room && (width > 0 ==> n < width)
      invariant forall i :: 0 <= i < n ==> !Stops(src[i], endflags)
      invariant dest[..] == Put(was, at, src[..n])
    {
      RoomLeft(src, endflags, width, n);
      PutOneMore(was, at, src, n);
      dest[at + n] := src[n];
      n := n + 1;
      if n == width { break; }
    }
    if n != width || n == |src| || Stops(src[n], endflags) {
      SpanIs(src, endflags, n);
    } else {
      SpanAtLeast(src, endflags, n);
    }
    assert Span(src, endflags)[..n] == src[..n];
  }

  // The padding loop of write_chars.
  method Pad(dest: array<char>, at: nat, cut: nat, width: int) returns (n: nat)
    requires at + cut <= dest.Length && at + width <= dest.Length
    modifies dest
    ensures n == if cut < width then width else cut
    ensures dest[..] == Put(old(dest[..]), at + cut, Spaces(n - cut))
  {
    hide Put;
    n := cut;
    ghost var was, blanks := dest[..], Spaces(if cut < width then width - cut else 0);
    PutOneMore(was, at + cut, blanks, 0);
    while n < width
      invariant cut <= n && (n <= width || n == cut)
      invariant dest[..] == Put(was, at + cut, blanks[..n - cut])
    {
      PutOneMore(was, at + cut, blanks, n - cut);
      dest[at + n] := ' ';
      n := n + 1;
    }
    assert blanks[..n - cut] == Spaces(n - cut);
  }

  lemma PutOneMore(was: string, at: nat, src: string, n: nat)
    requires n <= |src| && at + n <= |was|
    ensures |Put(was, at, src[..n])| == |was|
    ensures n == 0 ==> Put(was, at, src[..n]) == was
    ensures n < |src| && at + n < |was| ==>
      Put(was, at, src[..n])[at + n := src[n]] == Put(was, at, src[..n + 1])
  {}

  lemma SpanAtLeast(src: string, endflags: string, n: nat)
    requires n <= |src| && forall i :: 0 <= i < n ==> !Stops(src[i], endflags)
    ensures n <= |Span(src, endflags)| && Span(src, endflags)[..n] == src[..n]
  {}

  lemma RoomLeft(src: string, endflags: string, width: int, n: nat)
    requires n < |src| && (width > 0 ==> n < width)
    requires forall i :: 0 <= i <= n ==> !Stops(src[i], endflags)
    ensures n < |Fitted(src, endflags, width)|
  {
    SpanAtLeast(src, endflags, n + 1);
  }

  predicate Flag(flag: char) {
    flag == 'u' || flag == 'x' || flag == 'c'
  }

  // What a word looks like under each flag.
  function Shown(value: nat, flag: char): string
    requires Flag(flag)
  {
    if flag == 'u' then Digits(value, 10)
    else if flag == 'x' then "0X" + Digits(value, 16)
    else [(value % 256) as char]
  }

  // What a reader finds in the text of a value: its decimal numeral; 0X and its hexadecimal one;
  // the character of its low byte.
  predicate ReadsAs(text: string, flag: char, value: nat) {
    match flag
    case 'u' => text != "" && AllDigits(text) && Val(text) == value && (text[0] == '0' ==> text == "0")
    case 'x' =>
      && |text| > 2 && text[0] == '0' && text[1] == 'X' && AllHexDigits(text[2..]) && HexVal(text[2..]) == value
      && (text[2] == '0' ==> text == "0X0")
    case _ => |text| == 1 && text[0] as nat == value % 256
  }

  lemma ShownReads(value: nat, flag: char)
    requires Flag(flag)
    ensures ReadsAs(Shown(value, flag), flag, value)
  {
    if flag == 'u' {
      ValOfDigits(value);
      NoLeadingZero(value);
    } else if flag == 'x' {
      HexValOfDigits(value);
      assert Shown(value, flag)[2..] == Digits(value, 16);
    }
  }

  // No word needs more than ten characters.
  lemma ShownFits(value: nat, flag: char)
    requires Flag(flag) && value < WORD
    ensures |Shown(value, flag)| <= 10
  {
    if flag == 'u' {
      assert Pow(10, 10) == 10_000_000_000 by { assert Pow(10, 5) == 100_000; PowAdd(10, 5, 5); }
      DigitsFit(value, 10, 10);
    } else if flag == 'x' {
      assert Pow(16, 8) == WORD by { assert Pow(16, 4) == 65536; PowAdd(16, 4, 4); }
      DigitsFit(value, 16, 8);
    }
  }

  // The digit loops of value2str, from the last place but one to the left.
  method WriteDigits(value: nat, base: nat, buf: array<char>) returns (offset: nat)
    requires (base == 10 || base == 16) && |Digits(value, base)| < buf.Length
    modifies buf
    ensures offset + |Digits(value, base)| + 1 == buf.Length
    ensures buf[..] == Put(old(buf[..]), offset, Digits(value, base))
  {
    hide Put;
    var temp: nat := value;
    offset := buf.Length - 2;
    ghost var tail := "";
    ghost var was := buf[..];
    PutOneLess(was, offset + 1, tail, DigitChar(0));
    while temp >= base
      invariant Digits(value, base) == Digits(temp, base) + tail
      invariant offset + 2 + |tail| == buf.Length
      invariant buf[..] == Put(was, offset + 1, tail)
    {
      var i := temp % base;
      PutOneLess(was, offset + 1, tail, DigitChar(i));
      buf[offset] := DigitChar(i);
      tail := [DigitChar(i)] + tail;
      temp := temp / base;
      offset := offset - 1;
    }
    PutOneLess(was, offset + 1, tail, DigitChar(temp));
    buf[offset] := DigitChar(temp);
  }

  lemma PutOneLess(was: string, at: nat, text: string, c: char)
    requires 0 < at && at + |text| <= |was|
    ensures |Put(was, at, text)| == |was|
    ensures text == "" ==> Put(was, at, text) == was
    ensures Put(was, at, text)[at - 1 := c] == Put(was, at - 1, [c] + text)
  {}

  // value2str; any other flag hangs.
  method Value2Str(value: nat, flag: char, buf: array<char>) returns (offset: nat)
    requires value < WORD && Flag(flag) && buf.Length >= 11
    modifies buf
    ensures offset + |Shown(value, flag)| + 1 == buf.Length
    ensures buf[offset..] == Shown(value, flag) + [NUL]
    ensures ReadsAs(Shown(value, flag), flag, value)
  {
    hide ReadsAs;
    ShownFits(value, flag);
    ShownReads(value, flag);
    buf[buf.Length - 1] := NUL;
    if flag == 'c' {
      offset := buf.Length - 2;
      buf[offset] := (value % 256) as char;
    } else if flag == 'u' {
      offset := WriteDigits(value, 10, buf);
    } else {
      offset := WriteDigits(value, 16, buf);
      buf[offset - 1] := 'X';
      buf[offset - 2] := '0';
      offset := offset - 2;
    }
  }

  predicate Takes(flag: char, arg: Arg) {
    match arg
    case Num(value) => Flag(flag) && value < WORD
    case Str(_) => flag == 's'
  }

  // What one argument prints as. A string stops at a percent sign.
  function Field(arg: Arg, flag: char, width: int): string
    requires Takes(flag, arg)
  {
    match arg
    case Num(value) => Fitted(Shown(value, flag), "", width)
    case Str(text) => Fitted(text, "%", width)
  }

  method WriteVariable(dest: array<char>, at: nat, arg: Arg, flag: char, width: int) returns (n: nat)
    requires Takes(flag, arg) && at + |Field(arg, flag, width)| <= dest.Length
    modifies dest
    ensures n == |Field(arg, flag, width)|
    ensures dest[..] == Put(old(dest[..]), at, Field(arg, flag, width))
  {
    hide Put, Fitted;
    match arg
    case Str(text) =>
      n := WriteChars(dest, at, text, "%", width);
    case Num(value) =>
      var valuestr := new char[32];
      var offset := Value2Str(value, flag, valuestr);
      FittedEnds(Shown(value, flag), width);
      assert dest[..] == old(dest[..]);
      n := WriteChars(dest, at, valuestr[offset..], "", width);
  }

  // The NUL that ends valuestr is not printed.
  lemma FittedEnds(text: string, width: int)
    ensures Fitted(text + [NUL], "", width) == Fitted(text, "", width)
  {
    var s := Span(text, "");
    assert forall i :: 0 <= i < |s| ==> s[i] == text[i] && s[i] in s;
    SpanIs(text + [NUL], "", |s|);
  }

  // How far the digits of f go.
  function RunLength(f: string): (n: nat)
    ensures DigitRun(f, n)
  {
    if f == "" || !IsDigit(f[0]) then 0 else 1 + RunLength(f[1..])
  }

  lemma RunIs(f: string, n: nat)
    requires DigitRun(f, n)
    ensures n == RunLength(f)
  {}

  // A u32 stored in an int.
  function ToInt(w: nat): (i: int)
    ensures (i - w) % WORD == 0 && (w < WORD ==> -0x8000_0000 <= i <= 0x7fff_ffff)
  {
    if w < WORD / 2 then w else w - WORD
  }

  // Where the flag character of a directive stands, the arguments before its own, its width.
  datatype Directive = Directive(flagAt: nat, used: nat, width: int)

  // None: the program does not get past this directive.
  function Parse(f: string, args: seq<Arg>): (d: Option<Directive>)
    requires f != "" && f[0] == '%'
    ensures d.Some? ==> 0 < d.value.flagAt < |f| && d.value.used < |args|
    ensures d.Some? ==> Takes(f[d.value.flagAt], args[d.value.used])
  {
    var d :=
      if |f| > 1 && f[1] == '*' then
        if args != [] && args[0].Num? && args[0].value < WORD then Directive(2, 1, ToInt(args[0].value))
        else Directive(|f|, 0, 0)
      else if |f| > 1 && IsDigit(f[1]) && f[1] != '0' then
        var n := RunLength(f[1..]);
        Directive(1 + n, 0, ToInt(Val(f[1..1 + n]) % WORD))
      else Directive(1, 0, 0);
    if d.flagAt < |f| && d.used < |args| && Takes(f[d.flagAt], args[d.used]) then Some(d) else None
  }

  function Prepend(text: string, rest: Option<string>): Option<string> {
    if rest.None? then None else Some(text + rest.value)
  }

  // The output of a format, if the program gets to the end of it.
  function Output(f: string, args: seq<Arg>): Option<string> {
    if f == "" || f[0] == NUL then Some("")
    else if f[0] == '%' then
      match Parse(f, args)
      case None => None
      case Some(d) =>
        Prepend(Field(args[d.used], f[d.flagAt], d.width), Output(f[d.flagAt + 1..], args[d.used + 1..]))
    else
      var text := Span(f, "%");
      Prepend(text, Output(f[|text|..], args))
  }

  // The first part of the directive branch of __sprintf: width and flag character.
  method ReadWidth(format: string, start: nat, args: seq<Arg>, first: nat)
    returns (flag: nat, arg: nat, width: int)
    requires start < |format| && first <= |args| && format[start] == '%'
    requires Parse(format[start..], args[first..]).Some?
    ensures start < flag < |format| && first <= arg < |args|
    ensures Parse(format[start..], args[first..]) == Some(Directive(flag - start, arg - first, width))
  {
    ghost var f := format[start..];
    flag, arg, width := start + 1, first, 0;
    if format[flag] == '*' {
      width := ToInt(args[arg].value);
      arg := arg + 1;
      flag := flag + 1;
    } else if '1' <= format[flag] <= '9' {
      var sum, charnum := TasteDecimal(format[flag..]);
      assert f[1..] == format[flag..] && f[1..][..charnum] == f[1..1 + charnum];
      RunIs(f[1..], charnum);
      width := ToInt(sum);
      flag := flag + charnum;
    }
  }

  lemma AfterField(f: string, args: seq<Arg>)
    requires f != "" && f[0] == '%' && Output(f, args).Some?
    ensures Parse(f, args).Some?
    ensures
      var d, out := Parse(f, args).value, Output(f, args).value;
      var field := Field(args[d.used], f[d.flagAt], d.width);
      field <= out && Output(f[d.flagAt + 1..], args[d.used + 1..]) == Some(out[|field|..])
  {}

  lemma AfterText(f: string, args: seq<Arg>)
    requires f != "" && f[0] != '%' && f[0] != NUL && Output(f, args).Some?
    ensures 0 < |Span(f, "%")| && Fitted(f, "%", 0) == Span(f, "%")
    ensures
      var text, out := Span(f, "%"), Output(f, args).value;
      text <= out && Output(f[|text|..], args) == Some(out[|text|..])
  {}

  lemma SliceTwice<A>(s: seq<A>, i: nat, j: nat)
    requires i + j <= |s|
    ensures s[i..][j..] == s[i + j..]
  {}

  // One round of the loop of __sprintf: a directive, or text up to the next one.
  method Round(dest: array<char>, n: nat, format: string, start: nat, args: seq<Arg>, first: nat)
    returns (flag: nat, arg: nat, nr_wr: nat, ghost piece: string)
    requires start < |format| && first <= |args| && format[start] != NUL
    requires Output(format[start..], args[first..]).Some?
    requires n + |Output(format[start..], args[first..]).value| <= dest.Length
    modifies dest
    ensures start < flag <= |format| && arg <= |args| && nr_wr == |piece|
    ensures Output(format[flag..], args[arg..]).Some?
    ensures
      Output(format[start..], args[first..]).value == piece + Output(format[flag..], args[arg..]).value
    ensures dest[..] == Put(old(dest[..]), n, piece)
  {
    hide Put, Parse, Span, Takes, Output, Fitted, Field;
    ghost var f, a := format[start..], args[first..];
    if format[start] == '%' {
      AfterField(f, a);
      var width;
      flag, arg, width := ReadWidth(format, start, args, first);
      piece := Field(args[arg], format[flag], width);
      nr_wr := WriteVariable(dest, n, args[arg], format[flag], width);
      flag, arg := flag + 1, arg + 1;
      SliceTwice(format, start, flag - start);
      SliceTwice(args, first, arg - first);
    } else {
      AfterText(f, a);
      piece := Span(f, "%");
      nr_wr := WriteChars(dest, n, format[start..], "%", 0);
      flag, arg := start + nr_wr, first;
      SliceTwice(format, start, nr_wr);
    }
  }

  // __sprintf
  method Sprintf(dest: array<char>, format: string, args: seq<Arg>) returns (n: nat)
    requires Output(format, args).Some? && |Output(format, args).value| < dest.Length
    modifies dest
    ensures n == |Output(format, args).value|
    ensures dest[..] == Put(old(dest[..]), 0, Output(format, args).value + [NUL])
  {
    hide Put, Output;
    ghost var out, was, done := Output(format, args).value, dest[..], "";
    var flag: nat, arg: nat := 0, 0;
    n := 0;
    PutOneMore(was, 0, out, 0);
    assert format[0..] == format && args[0..] == args && out[..0] == "";
    while flag < |format| && format[flag] != NUL
      invariant flag <= |format| && arg <= |args| && n == |done|
      invariant Output(format[flag..], args[arg..]).Some?
      invariant done + Output(format[flag..], args[arg..]).value == out
      invariant dest[..] == Put(was, 0, done)
      decreases |format| - flag
    {
      var nr_wr;
      ghost var piece;
      flag, arg, nr_wr, piece := Round(dest, n, format, flag, args, arg);
      PutTwice(was, 0, done, piece);
      done := done + piece;
      n := n + nr_wr;
    }
    OutputAtEnd(format[flag..], args[arg..]);
    assert done == out;
    PutTwice(was, 0, done, [NUL]);
    EndMark(dest[..], n);
    dest[n] := NUL;
  }

  lemma OutputAtEnd(f: string, args: seq<Arg>)
    requires f == "" || f[0] == NUL
    ensures Output(f, args) == Some("")
  {}

  lemma EndMark(buf: string, n: nat)
    requires n < |buf|
    ensures Put(buf, n, [NUL]) == buf[n := NUL]
  {}

  // What a width is meant to do: cut the text or fill it up with blanks.
  function Exactly(text: string, width: int): string {
    if width <= 0 then text
    else if |text| >= width then text[..width]
    else text + Spaces(width - |text|)
  }

  // The part of the text that should appear holds no NUL and no end flag.
  predicate Unstopped(text: string, endflags: string, width: int) {
    forall i :: 0 <= i < |text| && (width > 0 ==> i < width) ==> !Stops(text[i], endflags)
  }

  // The text gets into its field as it is if and only if nothing stops it there.
  lemma FittedIsExact(text: string, endflags: string, width: int)
    requires ' ' !in endflags
    ensures |Fitted(text, endflags, width)| <= |Exactly(text, width)|
    ensures Fitted(text, endflags, width) == Exactly(text, width) <==> Unstopped(text, endflags, width)
  {
    var span := Span(text, endflags);
    if Unstopped(text, endflags, width) {
      SpanAtLeast(text, endflags, if 0 < width < |text| then width else |text|);
    } else {
      var i :| 0 <= i < |text| && (width > 0 ==> i < width) && Stops(text[i], endflags);
      assert forall k :: 0 <= k < |span| ==> span[k] in span;
      assert |span| <= i;
      assert Stops(text[|span|], endflags);
      if width > 0 {
        assert Fitted(text, endflags, width)[|span|] == ' ' != Exactly(text, width)[|span|];
      }
    }
  }

  // %s prints its string if and only if neither NUL nor a percent sign is in it.
  lemma StringPrints(text: string)
    ensures Field(Str(text), 's', 0) == text <==> forall c :: c in text ==> c != '%' && c != NUL
  {
    FittedIsExact(text, "%", 0);
    assert forall i :: 0 <= i < |text| ==> text[i] in text;
  }

  lemma PercentStops()
    ensures Field(Str("a%b"), 's', 0) == "a"
  {
    SpanIs("a%b", "%", 1);
  }

  // Formats as they are meant: plain text and fields, a field with its width in decimal
  // or in an argument of its own.
  datatype Width = Decimal(width: nat) | Star

  datatype Item = Text(text: string) | Place(flag: char, width: Width)

  predicate Proper(item: Item) {
    match item
    case Text(text) => forall c :: c in text ==> !Stops(c, "%")
    case Place(flag, width) => (Flag(flag) || flag == 's') && (width.Decimal? ==> width.width < WORD / 2)
  }

  predicate AllProper(items: seq<Item>) {
    forall i :: 0 <= i < |items| ==> Proper(items[i])
  }

  function WrittenWidth(width: Width): string {
    if width.Star? then "*" else if width.width == 0 then "" else Digits(width.width, 10)
  }

  function Written(item: Item): string {
    match item
    case Text(text) => text
    case Place(flag, width) => "%" + WrittenWidth(width) + [flag]
  }

  function FormatOf(items: seq<Item>): string {
    if items == [] then "" else Written(items[0]) + FormatOf(items[1..])
  }

  // How many arguments an item takes.
  function Uses(item: Item): nat {
    if item.Text? then 0 else if item.width.Decimal? then 1 else 2
  }

  // The arguments begin with what the item takes.
  predicate Served(item: Item, args: seq<Arg>) {
    && |args| >= Uses(item)
    && (item.Place? ==>
      && Takes(item.flag, args[Uses(item) - 1])
      && (item.width.Star? ==> args[0].Num? && args[0].value < WORD))
  }

  predicate AllServed(items: seq<Item>, args: seq<Arg>) {
    items == [] || (Served(items[0], args) && AllServed(items[1..], args[Uses(items[0])..]))
  }

  function WidthOf(width: Width, args: seq<Arg>): int
    requires width.Star? ==> args != [] && args[0].Num?
  {
    if width.Decimal? then width.width else ToInt(args[0].value)
  }

  // What prints in an item's place.
  function Piece(item: Item, args: seq<Arg>): string
    requires Served(item, args)
  {
    match item
    case Text(text) => text
    case Place(flag, width) => Field(args[Uses(item) - 1], flag, WidthOf(width, args))
  }

  function TextOf(arg: Arg, flag: char): string
    requires Takes(flag, arg)
  {
    match arg
    case Num(value) => Shown(value, flag)
    case Str(text) => text
  }

  // What should.
  function MeantPiece(item: Item, args: seq<Arg>): string
    requires Served(item, args)
  {
    match item
    case Text(text) => text
    case Place(flag, width) => Exactly(TextOf(args[Uses(item) - 1], flag), WidthOf(width, args))
  }

  // No NUL, and no percent sign in a string, in the part that should appear.
  predicate Plain(item: Item, args: seq<Arg>)
    requires Served(item, args)
  {
    item.Place? ==>
      var arg := args[Uses(item) - 1];
      Unstopped(TextOf(arg, item.flag), if arg.Num? then "" else "%", WidthOf(item.width, args))
  }

  function Printed(items: seq<Item>, args: seq<Arg>): string
    requires AllServed(items, args)
  {
    if items == [] then "" else Piece(items[0], args) + Printed(items[1..], args[Uses(items[0])..])
  }

  // What the items stand for: the texts as they are, each argument in its field.
  function Meant(items: seq<Item>, args: seq<Arg>): string
    requires AllServed(items, args)
  {
    if items == [] then "" else MeantPiece(items[0], args) + Meant(items[1..], args[Uses(items[0])..])
  }

  predicate AllPlain(items: seq<Item>, args: seq<Arg>)
    requires AllServed(items, args)
  {
    items == [] || (Plain(items[0], args) && AllPlain(items[1..], args[Uses(items[0])..]))
  }

  lemma ParsePlace(flag: char, width: Width, rest: string, args: seq<Arg>)
    requires Proper(Place(flag, width)) && Served(Place(flag, width), args)
    ensures
      var f := Written(Place(flag, width)) + rest;
      && f[0] == '%' && f[|f| - |rest| - 1] == flag
      && Parse(f, args) == Some(Directive(|f| - |rest| - 1, Uses(Place(flag, width)) - 1, WidthOf(width, args)))
  {
    hide Digits, Val, RunLength, Takes;
    var f := Written(Place(flag, width)) + rest;
    if width.Star? {
      assert f[1] == '*' && f[2] == flag;
    } else if width.width == 0 {
      assert f[1] == flag;
      assert !IsDigit(flag) && flag != '*';
    } else {
      var digits := Digits(width.width, 10);
      WidthRun(flag, width.width, rest);
      assert f[1..] == digits + ([flag] + rest);
      assert f[1..1 + |digits|] == digits;
      assert f[1] == digits[0] && f[1 + |digits|] == flag;
    }
  }

  lemma WidthRun(flag: char, width: nat, rest: string)
    requires !IsDigit(flag) && 0 < width < WORD
    ensures
      var digits := Digits(width, 10);
      && RunLength(digits + ([flag] + rest)) == |digits|
      && IsDigit(digits[0]) && digits[0] != '0' && AllDigits(digits) && Val(digits) == width
  {
    var n := RunLength(Digits(width, 10) + ([flag] + rest));
    ReadBack(width, [flag] + rest, n);
    ValOfDigits(width);
    NoLeadingZero(width);
  }

  lemma {:induction false} SpanJoins(text: string, rest: string)
    requires Span(text, "%") == text
    ensures Span(text + rest, "%") == text + Span(rest, "%")
  {
    if text == "" {
      assert text + rest == rest;
    } else {
      assert (text + rest)[1..] == text[1..] + rest;
      assert Span(text, "%")[1..] == Span(text[1..], "%");
      SpanJoins(text[1..], rest);
    }
  }

  lemma TextOff(f: string, args: seq<Arg>)
    ensures Output(f, args) == Prepend(Span(f, "%"), Output(f[|Span(f, "%")|..], args))
  {
    if Span(f, "%") == "" {
      assert f[0..] == f;
      PrependTwice("", "", Output(f, args));
    }
  }

  lemma TextFirst(text: string, rest: string, args: seq<Arg>)
    requires forall c :: c in text ==> !Stops(c, "%")
    ensures Output(text + rest, args) == Prepend(text, Output(rest, args))
  {
    hide Output, Prepend;
    assert forall i :: 0 <= i < |text| ==> text[i] in text;
    SpanIs(text, "%", |text|);
    assert text[..|text|] == text;
    hide Span;
    SpanJoins(text, rest);
    TextOff(text + rest, args);
    TextOff(rest, args);
    SliceAfter(text, rest, |Span(rest, "%")|);
    PrependTwice(text, Span(rest, "%"), Output(rest[|Span(rest, "%")|..], args));
  }

  lemma PrependTwice(a: string, b: string, rest: Option<string>)
    ensures Prepend(a + b, rest) == Prepend(a, Prepend(b, rest))
    ensures Prepend("", rest) == rest
  {
    if rest.Some? {
      assert (a + b) + rest.value == a + (b + rest.value);
      assert "" + rest.value == rest.value;
    }
  }

  lemma SliceAfter(text: string, rest: string, n: nat)
    requires n <= |rest|
    ensures (text + rest)[|text| + n..] == rest[n..]
  {}

  lemma PlaceFirst(item: Item, rest: string, args: seq<Arg>)
    requires item.Place? && Proper(item) && Served(item, args)
    ensures Output(Written(item) + rest, args) == Prepend(Piece(item, args), Output(rest, args[Uses(item)..]))
  {
    var f := Written(item) + rest;
    ParsePlace(item.flag, item.width, rest, args);
    assert f[|f| - |rest|..] == rest;
    hide Parse, Field, Written;
  }

  // Any format made of texts and fields prints them one after the other.
  lemma {:induction false} FormatOutput(items: seq<Item>, args: seq<Arg>)
    requires AllProper(items) && AllServed(items, args)
    ensures Output(FormatOf(items), args) == Some(Printed(items, args))
  {
    hide Output, Field, Takes, Stops;
    if items == [] {
      OutputAtEnd(FormatOf(items), args);
    } else {
      assert Proper(items[0]);
      FormatOutput(items[1..], args[Uses(items[0])..]);
      if items[0].Text? {
        TextFirst(items[0].text, FormatOf(items[1..]), args);
      } else {
        PlaceFirst(items[0], FormatOf(items[1..]), args);
      }
    }
  }

  lemma PieceIsMeant(item: Item, args: seq<Arg>)
    requires Served(item, args)
    ensures |Piece(item, args)| <= |MeantPiece(item, args)|
    ensures Piece(item, args) == MeantPiece(item, args) <==> Plain(item, args)
  {
    if item.Place? {
      var arg := args[Uses(item) - 1];
      FittedIsExact(TextOf(arg, item.flag), if arg.Num? then "" else "%", WidthOf(item.width, args));
    }
  }

  lemma {:induction false} PrintedIsMeant(items: seq<Item>, args: seq<Arg>)
    requires AllServed(items, args)
    ensures |Printed(items, args)| <= |Meant(items, args)|
    ensures Printed(items, args) == Meant(items, args) <==> AllPlain(items, args)
  {
    hide Piece, MeantPiece, Plain, Takes;
    if items != [] {
      PieceIsMeant(items[0], args);
      PrintedIsMeant(items[1..], args[Uses(items[0])..]);
      SameParts(Piece(items[0], args), Printed(items[1..], args[Uses(items[0])..]),
                MeantPiece(items[0], args), Meant(items[1..], args[Uses(items[0])..]));
    }
  }

  lemma SameParts(a: string, b: string, c: string, d: string)
    requires |a| <= |c| && |b| <= |d|
    ensures a + b == c + d <==> a == c && b == d
  {
    if a + b == c + d {
      assert |a| == |c|;
      assert a == (a + b)[..|a|] && c == (c + d)[..|a|];
      assert b == (a + b)[|a|..] && d == (c + d)[|a|..];
    }
  }

  // It prints what they stand for if and only if no string shows a NUL or a percent sign,
  // and no character is NUL.
  lemma FormatPrints(items: seq<Item>, args: seq<Arg>)
    requires AllProper(items) && AllServed(items, args)
    ensures Output(FormatOf(items), args) == Some(Meant(items, args)) <==> AllPlain(items, args)
  {
    FormatOutput(items, args);
    PrintedIsMeant(items, args);
  }

  // So numbers always print as meant.
  lemma NumbersPrint(items: seq<Item>, args: seq<Arg>)
    requires AllProper(items) && AllServed(items, args)
    requires forall i :: 0 <= i < |items| && items[i].Place? ==> items[i].flag == 'u' || items[i].flag == 'x'
    ensures Output(FormatOf(items), args) == Some(Meant(items, args))
  {
    NumbersArePlain(items, args);
    FormatPrints(items, args);
  }

  lemma {:induction false} NumbersArePlain(items: seq<Item>, args: seq<Arg>)
    requires AllServed(items, args)
    requires forall i :: 0 <= i < |items| && items[i].Place? ==> items[i].flag == 'u' || items[i].flag == 'x'
    ensures AllPlain(items, args)
  {
    if items != [] {
      if items[0].Place? {
        NoNul(args[Uses(items[0]) - 1].value, items[0].flag);
      }
      NumbersArePlain(items[1..], args[Uses(items[0])..]);
    }
  }

  lemma NoNul(value: nat, flag: char)
    requires flag == 'u' || flag == 'x'
    ensures forall i :: 0 <= i < |Shown(value, flag)| ==> Shown(value, flag)[i] != NUL
  {
    NoNulDigits(value, if flag == 'u' then 10 else 16);
  }

  lemma {:induction false} NoNulDigits(value: nat, base: nat)
    requires base == 10 || base == 16
    ensures forall i :: 0 <= i < |Digits(value, base)| ==> Digits(value, base)[i] != NUL
  {
    if value >= base {
      DivSmaller(value, base);
      NoNulDigits(value / base, base);
    }
  }

  // A single number: what %x, %u and %c print reads as the value, the character as its low byte.
  lemma NumberReads(flag: char, value: nat)
    requires Flag(flag) && value < WORD
    requires flag == 'c' ==> value % 256 != 0
    ensures Output("%" + [flag], [Num(value)]).Some?
    ensures ReadsAs(Output("%" + [flag], [Num(value)]).value, flag, value)
  {
    var items, args := [Place(flag, Decimal(0))], [Num(value)];
    assert AllServed(items[1..], args[1..]);
    assert FormatOf(items[1..]) == "" && FormatOf(items) == "%" + [flag];
    ShownReads(value, flag);
    assert Shown(value, 'c')[0] as nat == value % 256;
    if flag != 'c' { NoNul(value, flag); }
    assert Plain(items[0], args) && AllPlain(items, args);
    FormatPrints(items, args);
    assert Meant(items, args) == Shown(value, flag);
  }

  // A zero begins no width, and is no flag either.
  lemma ZeroBegins(rest: string, args: seq<Arg>)
    ensures Output("%0" + rest, args) == None
  {
    assert ("%0" + rest)[1] == '0';
  }

  // A width of its own comes before the value it is for.
  lemma StarWidth(width: nat, value: nat)
    requires width < WORD && value < WORD
    ensures Output("%*u", [Num(width), Num(value)]) == Some(Fitted(Digits(value, 10), "", ToInt(width)))
  {
    hide Fitted, Digits;
    var item, args := Place('u', Star), [Num(width), Num(value)];
    PlaceFirst(item, "", args);
    assert Written(item) + "" == "%*u";
    OutputAtEnd("", args[2..]);
    assert Output("", args[2..]) == Some("");
    assert Piece(item, args) + "" == Piece(item, args);
  }
}
