/**
 Bounded formatting: the numeral conversion and the vsnprintf loop.
 A `char*` that is advanced is the rest of its string, and a `va_list` the arguments not yet fetched.
 */
module Formatting {
  import opened Machine

  // ---------------------------------------------------------------- numerals

  function DigitChar(d: nat): char
    requires d < 16
  {
    "0123456789ABCDEF"[d]
  }

  function DigitValue(c: char): nat {
    if '0' <= c <= '9' then c as int - '0' as int
    else if 'A' <= c <= 'F' then c as int - 'A' as int + 10
    else 0
  }

  lemma DigitReadsBack(d: nat)
    requires d < 16
    ensures DigitValue(DigitChar(d)) == d && DigitChar(d) != '-'
  {
  }

  /** The numeral of a number, most significant digit first, without leading zeros. */
  function Numeral(num: nat, base: nat): string
    requires 2 <= base <= 16
    decreases num
  {
    LessDigits(num, base);
    (if num / base == 0 then "" else Numeral(num / base, base)) + [DigitChar(num % base)]
  }

  /** The digits of what is left of a number, none of zero. */
  function Leading(left: nat, base: nat): string
    requires 2 <= base <= 16
  {
    if left == 0 then "" else Numeral(left, base)
  }

  lemma NumeralStep(num: nat, base: nat)
    requires 2 <= base <= 16
    ensures 0 <= num % base < 16 && 0 <= num / base && (num != 0 ==> num / base < num)
    ensures Numeral(num, base) == Leading(num / base, base) + [DigitChar(num % base)]
  {
    LessDigits(num, base);
  }

  function Parse(s: string, base: nat): nat {
    if s == "" then 0 else Parse(s[..|s| - 1], base) * base + DigitValue(s[|s| - 1])
  }

  lemma LessDigits(num: nat, base: nat)
    requires 2 <= base
    ensures 0 <= num % base < base && num == num / base * base + num % base && 0 <= num / base
    ensures num != 0 ==> num / base < num
    ensures 2 * (num / base) <= num
  {
    TwiceAtMost(num / base, base);
  }

  lemma TwiceAtMost(q: nat, base: nat)
    requires 2 <= base
    ensures 2 * q <= q * base
  {
    assert q * base == q * 2 + q * (base - 2);
  }

  lemma ParseLast(s: string, c: char, base: nat)
    ensures Parse(s + [c], base) == Parse(s, base) * base + DigitValue(c)
  {
    assert (s + [c])[..|s|] == s;
  }

  /** Every numeral parses back to its number, in every base. */
  lemma {:induction false} ParseNumeral(num: nat, base: nat)
    requires 2 <= base <= 16
    ensures Parse(Numeral(num, base), base) == num
    decreases num
  {
    hide DigitChar, DigitValue;
    LessDigits(num, base);
    var high := Leading(num / base, base);
    if num / base != 0 {
      ParseNumeral(num / base, base);
    }
    assert Parse(high, base) == num / base;
    DigitReadsBack(num % base);
    hide Numeral, Parse;
    ParseLast(high, DigitChar(num % base), base);
  }

  function Pow2(k: nat): nat {
    if k == 0 then 1 else 2 * Pow2(k - 1)
  }

  /** A number below 2^k has at most k digits, so 64 places are enough for any 64-bit number. */
  lemma {:induction false} NumeralLength(num: nat, base: nat, k: nat)
    requires 2 <= base <= 16 && num < 2 * Pow2(k)
    ensures |Numeral(num, base)| <= k + 1
  {
    LessDigits(num, base);
    if num / base != 0 {
      NumeralLength(num / base, base, k - 1);
    }
  }

  lemma EightPlaces(k: nat)
    ensures Pow2(k + 8) == 256 * Pow2(k)
  {
    assert Pow2(k + 2) == 4 * Pow2(k);
    assert Pow2(k + 4) == 4 * Pow2(k + 2);
    assert Pow2(k + 6) == 4 * Pow2(k + 4);
    assert Pow2(k + 8) == 4 * Pow2(k + 6);
  }

  lemma WordPlaces(k: nat)
    requires k == 7
    ensures 2 * Pow2(k + 56) == WORD64
  {
    assert 2 * Pow2(k) == 256;
    EightPlaces(k);
    EightPlaces(k + 8);
    EightPlaces(k + 16);
    EightPlaces(k + 24);
    EightPlaces(k + 32);
    EightPlaces(k + 40);
    EightPlaces(k + 48);
  }

  function Clip(s: string, n: nat): (r: string)
    ensures |r| == if |s| < n then |s| else n
  {
    if |s| <= n then s else s[..n]
  }

  /** What a method may leave of a buffer when it writes `text` at position p. */
  ghost predicate WroteAt(now: seq<char>, was: seq<char>, p: nat, text: string) {
    && |now| == |was| && p + |text| <= |now|
    && (forall i :: p <= i < p + |text| ==> now[i] == text[i - p])
    && (forall i :: 0 <= i < |now| && !(p <= i < p + |text|) ==> now[i] == was[i])
  }

  /** The first loop of convert: the digits, least significant first. */
  method Produce(num: nat, base: nat) returns (buf: array<char>, places: nat)
    requires 2 <= base <= 16 && num < WORD64
    ensures fresh(buf) && buf.Length == 64 && places == |Numeral(num, base)| <= 64
    ensures forall i :: 0 <= i < places ==> buf[i] == Numeral(num, base)[places - 1 - i]
  {
    hide Numeral, Pow2, DigitChar;
    ghost var whole := Numeral(num, base);
    WordPlaces(7);
    NumeralLength(num, base, 63);
    NumeralStep(num, base);
    ghost var low := [DigitChar(num % base)];
    buf := new char[64];
    var left := num / base;
    places := 1;
    buf[0] := DigitChar(num % base);
    while left != 0
      invariant left >= 0 && |low| == places && whole == Leading(left, base) + low
      invariant forall i :: 0 <= i < places ==> buf[i] == low[places - 1 - i]
    {
      NumeralStep(left, base);
      buf[places] := DigitChar(left % base);
      low := [DigitChar(left % base)] + low;
      left, places := left / base, places + 1;
      assert whole == Leading(left, base) + low;
    }
  }

  /** convert: the digits are produced backwards into a buffer of 64 places and copied out reversed. */
  method Convert(num: nat, base: nat, buffer: array<char>, p: nat, size: nat) returns (written: nat)
    requires 2 <= base <= 16 && num < WORD64 && p + |Clip(Numeral(num, base), size)| <= buffer.Length
    modifies buffer
    ensures written == |Clip(Numeral(num, base), size)|
    ensures WroteAt(buffer[..], old(buffer[..]), p, Clip(Numeral(num, base), size))
  {
    if size == 0 {
      return 0;
    }
    hide Numeral;
    var buf, places := Produce(num, base);
    ghost var whole := Numeral(num, base);
    written := 0;
    while written < places && written < size
      invariant written <= places && written <= size
      invariant forall i :: p <= i < p + written ==> buffer[i] == whole[i - p]
      invariant forall i :: 0 <= i < buffer.Length && !(p <= i < p + written) ==> buffer[i] == old(buffer[i])
      invariant forall i :: 0 <= i < places ==> buf[i] == whole[places - 1 - i]
    {
      buffer[p + written] := buf[places - written - 1];
      written := written + 1;
    }
  }

  // ---------------------------------------------------------------- conversions

  /** What a caller can pass: a 32-bit integer, a 64-bit pointer, or a string, possibly null. */
  datatype Arg = Int(bits: nat) | Ptr(addr: nat) | Str(text: string) | NullStr

  function Signed(bits: nat): int {
    if bits < 0x8000_0000 then bits else bits - WORD32
  }

  predicate Fetches(c: char) {
    c in "cdospx"
  }

  /** The argument is of the type the conversion fetches. */
  predicate Accepts(c: char, a: Arg) {
    match a
    case Int(bits) => c in "cdox" && bits < WORD32
    case Ptr(addr) => c == 'p' && addr < WORD64
    case Str(_) => c == 's'
    case NullStr => c == 's'
  }

  predicate Fits(c: char, args: seq<Arg>) {
    Fetches(c) ==> args != [] && Accepts(c, args[0])
  }

  /** The whole text of one conversion. */
  function Text(c: char, args: seq<Arg>): string
    requires Fits(c, args)
  {
    if c == '%' then "%"
    else if !Fetches(c) then ""
    else match args[0]
      case Int(bits) =>
        if c == 'c' then [(bits % 256) as char]
        else if c == 'o' then Numeral(bits, 8)
        else if c == 'x' then Numeral(bits, 16)
        else if Signed(bits) < 0 then "-" + Numeral(-Signed(bits), 10)
        else Numeral(bits, 10)
      case Ptr(addr) => if addr == 0 then "(null)" else "0x" + Numeral(addr, 16)
      case Str(text) => text
      case NullStr => "(null)"
  }

  function After(c: char, args: seq<Arg>): seq<Arg>
    requires Fits(c, args)
  {
    if Fetches(c) then args[1..] else args
  }

  /** The arguments are of the types the format asks for, and no % stands alone at its end. */
  predicate Accepted(fmt: string, args: seq<Arg>) {
    if fmt == "" then true
    else if fmt[0] != '%' then Accepted(fmt[1..], args)
    else |fmt| > 1 && Fits(fmt[1], args) && Accepted(fmt[2..], After(fmt[1], args))
  }

  /** The text a format stands for, without any bound. */
  function Render(fmt: string, args: seq<Arg>): string
    requires Accepted(fmt, args)
  {
    if fmt == "" then ""
    else if fmt[0] != '%' then [fmt[0]] + Render(fmt[1..], args)
    else Text(fmt[1], args) + Render(fmt[2..], After(fmt[1], args))
  }

  /** The arguments a format does not fetch. */
  function Unfetched(fmt: string, args: seq<Arg>): seq<Arg>
    requires Accepted(fmt, args)
  {
    if fmt == "" then args
    else if fmt[0] != '%' then Unfetched(fmt[1..], args)
    else Unfetched(fmt[2..], After(fmt[1], args))
  }

  /** A format in two halves stands for the texts of the halves, the second with the arguments the first left. */
  lemma {:induction false} RenderConcat(a: string, b: string, args: seq<Arg>)
    requires Accepted(a, args) && Accepted(b, Unfetched(a, args))
    ensures Accepted(a + b, args) && Render(a + b, args) == Render(a, args) + Render(b, Unfetched(a, args))
    decreases |a|
  {
    hide Text, Fits, After;
    if a == "" {
      assert a + b == b;
    } else if a[0] != '%' {
      assert (a + b)[1..] == a[1..] + b;
      RenderConcat(a[1..], b, args);
    } else {
      assert (a + b)[2..] == a[2..] + b;
      RenderConcat(a[2..], b, After(a[1], args));
    }
  }

  /** A conversion anywhere in a format contributes its text, between what stands before and behind it. */
  lemma RenderAt(pre: string, c: char, post: string, args: seq<Arg>)
    requires Accepted(pre, args) && Fits(c, Unfetched(pre, args))
    requires Accepted(post, After(c, Unfetched(pre, args)))
    ensures Accepted(pre + (['%', c] + post), args)
    ensures var left := Unfetched(pre, args);
            Render(pre + (['%', c] + post), args) == Render(pre, args) + (Text(c, left) + Render(post, After(c, left)))
  {
    hide Text, Fits, After;
    var left := Unfetched(pre, args);
    var rest := ['%', c] + post;
    assert rest[2..] == post;
    RenderConcat(pre, rest, args);
  }

  /**
   What the conversions without a numeral contribute to the output: %% a percent sign, %s the string
   or "(null)", %c the character of the low eight bits, %p "(null)" for address 0, an unknown letter
   nothing; %s, %c and %p take one argument, the others none.
   */
  lemma PlainConversions(pre: string, c: char, post: string, args: seq<Arg>)
    requires Accepted(pre, args)
    ensures var left := Unfetched(pre, args);
            var fmt := pre + (['%', c] + post);
            && (c == '%' && Accepted(post, left) ==>
                  Accepted(fmt, args) && Render(fmt, args) == Render(pre, args) + ("%" + Render(post, left)))
            && (c !in "cdospx%" && Accepted(post, left) ==>
                  Accepted(fmt, args) && Render(fmt, args) == Render(pre, args) + Render(post, left))
            && (left != [] && Accepted(post, left[1..]) ==>
                  var before, behind := Render(pre, args), Render(post, left[1..]);
                  && (c == 's' && left[0].Str? ==>
                        Accepted(fmt, args) && Render(fmt, args) == before + (left[0].text + behind))
                  && (c == 's' && left[0].NullStr? ==>
                        Accepted(fmt, args) && Render(fmt, args) == before + ("(null)" + behind))
                  && (c == 'c' && left[0].Int? && left[0].bits < WORD32 ==>
                        Accepted(fmt, args) && Render(fmt, args) == before + ([(left[0].bits % 256) as char] + behind))
                  && (c == 'p' && left[0] == Ptr(0) ==>
                        Accepted(fmt, args) && Render(fmt, args) == before + ("(null)" + behind)))
  {
    hide Accepted, Render, Unfetched;
    var left := Unfetched(pre, args);
    if Fits(c, left) && Accepted(post, After(c, left)) {
      RenderAt(pre, c, post, args);
      assert "" + Render(post, After(c, left)) == Render(post, After(c, left));
    }
  }

  function ParseSigned(s: string): int {
    if s != "" && s[0] == '-' then -(Parse(s[1..], 10) as int) else Parse(s, 10)
  }

  /** Every numeral a conversion prints reads back to the argument, the most negative one included. */
  lemma NumbersReadBack(bits: nat, addr: nat)
    requires bits < WORD32 && 0 < addr < WORD64
    ensures var n := ParseSigned(Text('d', [Int(bits)]));
            -0x8000_0000 <= n < 0x8000_0000 && (n == bits || n == bits - WORD32)
    ensures Parse(Text('o', [Int(bits)]), 8) == bits && Parse(Text('x', [Int(bits)]), 16) == bits
    ensures var s := Text('p', [Ptr(addr)]); s[..2] == "0x" && Parse(s[2..], 16) == addr
  {
    hide Numeral, Parse;
    ParseNumeral(bits, 8);
    ParseNumeral(bits, 16);
    ParseNumeral(addr, 16);
    if Signed(bits) < 0 {
      ParseNumeral(-Signed(bits), 10);
      assert ("-" + Numeral(-Signed(bits), 10))[1..] == Numeral(-Signed(bits), 10);
    } else {
      ParseNumeral(bits, 10);
      NumeralMinimal(bits, 10);
    }
    assert ("0x" + Numeral(addr, 16))[2..] == Numeral(addr, 16);
  }

  /** A numeral is as short as it can be: no sign, and no leading zero but in the numeral of 0. */
  lemma {:induction false} NumeralMinimal(num: nat, base: nat)
    requires 2 <= base <= 16
    ensures Numeral(num, base) != "" && Numeral(num, base)[0] != '-'
    ensures Numeral(num, base)[0] == '0' <==> num == 0
    ensures num < base ==> |Numeral(num, base)| == 1
    decreases num
  {
    hide Numeral;
    NumeralStep(num, base);
    if num / base != 0 {
      hide DigitChar;
      NumeralMinimal(num / base, base);
    } else {
      DigitReadsBack(num % base);
    }
    LessDigits(num, base);
    SmallQuotient(num, base);
  }

  lemma SmallQuotient(num: nat, base: nat)
    requires base > 0
    ensures num < base ==> num / base == 0 && num % base == num
    ensures num / base == 0 ==> num % base == num
  {
  }

  // ---------------------------------------------------------------- the bounded loop

  /** The characters written, or the fetch of an argument that is not there or of another type. */
  datatype Outcome = Done(text: string) | WrongFetch

  function Prepend(s: string, o: Outcome): Outcome {
    match o
    case Done(text) => Done(s + text)
    case WrongFetch => WrongFetch
  }

  /** The conversions whose first character is written without looking at the room left. */
  predicate Unchecked(c: char, args: seq<Arg>)
    requires Fits(c, args)
  {
    c == '%' || c == 'c' || (c == 'd' && Signed(args[0].bits) < 0)
  }

  /** What a conversion writes: its text as far as there is room, or all of it where nobody looks. */
  function Written(c: char, args: seq<Arg>, room: nat): string
    requires Fits(c, args)
  {
    if room == 0 && Unchecked(c, args) then Text(c, args) else Clip(Text(c, args), room)
  }

  /** The head of the outer loop; the room is negative once the loop has written behind the buffer. */
  function Loop(fmt: string, args: seq<Arg>, room: int): Outcome
    decreases |fmt|, 1
  {
    if fmt == "" || room <= 0 then Done("") else Literal(fmt, args, room)
  }

  /** The inner loop over literal text, and the switch behind it. */
  function Literal(fmt: string, args: seq<Arg>, room: nat): Outcome
    decreases |fmt|, 0
  {
    if fmt == "" then Done("")
    else if fmt[0] != '%' && room > 0 then Prepend([fmt[0]], Literal(fmt[1..], args, room - 1))
    else if |fmt| == 1 then Done("")
    else if !Fits(fmt[1], args) then WrongFetch
    else
      var text := Written(fmt[1], args, room);
      Prepend(text, Loop(fmt[2..], After(fmt[1], args), room - |text|))
  }

  /** Skipping one character, the format goes on with a conversion that fetches or writes too much. */
  predicate Harmful(fmt: string, args: seq<Arg>) {
    |fmt| > 1 && (!Fits(fmt[1], args) || Unchecked(fmt[1], args))
  }

  /** Literal text uses the last place of the buffer in front of such a conversion. */
  predicate LiteralFills(fmt: string, args: seq<Arg>, room: nat, literal: bool)
    requires Accepted(fmt, args)
  {
    if room == 0 then literal && Harmful(fmt, args)
    else if fmt == "" then false
    else if fmt[0] != '%' then LiteralFills(fmt[1..], args, room - 1, true)
    else
      var n := |Clip(Text(fmt[1], args), room)|;
      LiteralFills(fmt[2..], After(fmt[1], args), room - n, false)
  }

  lemma ClipAppend(s: string, t: string, room: nat)
    ensures var c := Clip(s, room); Clip(s + t, room) == c + Clip(t, room - |c|)
  {
  }

  /** More than the room there is, beginning with what belongs there; or a wrong fetch. */
  predicate Spills(o: Outcome, text: string, room: nat) {
    o.WrongFetch? || (|o.text| > room && |text| >= room && text[..room] <= o.text)
  }

  lemma SpillsAfter(s: string, o: Outcome, text: string, room: nat)
    requires |s| <= room && Spills(o, text, room - |s|)
    ensures Spills(Prepend(s, o), s + text, room)
  {
    assert (s + text)[..|s|] == s;
    assert o.Done? ==> (s + text)[..room] == s + text[..room - |s|];
  }

  lemma WrittenWithRoom(c: char, args: seq<Arg>, room: nat)
    requires Fits(c, args) && room > 0
    ensures Written(c, args, room) == Clip(Text(c, args), room)
    ensures |Written(c, args, room)| < room ==> Written(c, args, room) == Text(c, args)
  {
  }

  /**
   The loop writes the rendering cut to the room there is, exactly when literal text does not use
   up the room in front of a conversion that would fetch or write too much.
   */
  lemma {:induction false} LoopExact(fmt: string, args: seq<Arg>, room: nat, literal: bool)
    requires Accepted(fmt, args)
    ensures var o := if literal then Literal(fmt, args, room) else Loop(fmt, args, room);
            if LiteralFills(fmt, args, room, literal) then Spills(o, Render(fmt, args), room)
            else o == Done(Clip(Render(fmt, args), room))
    decreases |fmt|, !literal
  {
    hide Text, Written, Clip, Spills;
    if fmt == "" || (room == 0 && !literal) {
      ClipEmpty(Render(fmt, args), room);
    } else if room == 0 {
      SkipsOne(fmt, args, Render(fmt, args));
    } else if fmt[0] != '%' {
      LoopExact(fmt[1..], args, room - 1, true);
      if LiteralFills(fmt[1..], args, room - 1, true) {
        SpillsAfter([fmt[0]], Literal(fmt[1..], args, room - 1), Render(fmt[1..], args), room);
      } else {
        ClipOne(fmt[0], Render(fmt[1..], args), room);
      }
    } else {
      WrittenWithRoom(fmt[1], args, room);
      var text, arg := Written(fmt[1], args, room), After(fmt[1], args);
      LoopExact(fmt[2..], arg, room - |text|, false);
      if LiteralFills(fmt[2..], arg, room - |text|, false) {
        SpillsAfter(text, Loop(fmt[2..], arg, room - |text|), Render(fmt[2..], arg), room);
      } else {
        ClipAppend(Text(fmt[1], args), Render(fmt[2..], arg), room);
      }
    }
  }

  lemma ClipEmpty(s: string, room: nat)
    requires s == "" || room == 0
    ensures Clip(s, room) == ""
  {
  }

  lemma ClipOne(c: char, s: string, room: nat)
    requires room > 0
    ensures Clip([c] + s, room) == [c] + Clip(s, room - 1)
  {
  }

  /** A full buffer behind literal text: the next character but one decides. */
  lemma SkipsOne(fmt: string, args: seq<Arg>, text: string)
    requires fmt != ""
    ensures var o := Literal(fmt, args, 0); if Harmful(fmt, args) then Spills(o, text, 0) else o == Done(Clip(text, 0))
  {
    if |fmt| > 1 && Fits(fmt[1], args) {
      var w := Written(fmt[1], args, 0);
      assert Loop(fmt[2..], After(fmt[1], args), 0 - |w|) == Done("") && w + "" == w;
      if Unchecked(fmt[1], args) {
        UncheckedText(fmt[1], args);
      }
    }
  }

  /** What is written unchecked is at least one character, and never more than a sign and 32 digits. */
  lemma UncheckedText(c: char, args: seq<Arg>)
    requires Fits(c, args) && Unchecked(c, args)
    ensures 0 < |Text(c, args)| < SLACK
  {
    hide Numeral, Pow2;
    if c == 'd' {
      SignedPlaces();
      NumeralLength(-Signed(args[0].bits), 10, 31);
    }
  }

  lemma SignedPlaces()
    ensures 2 * Pow2(31) == WORD32
  {
    EightPlaces(7);
    EightPlaces(15);
    EightPlaces(23);
    assert 2 * Pow2(7) == 256;
  }

  const SLACK := 40

  // ---------------------------------------------------------------- the condition, without running the loop

  /** The arguments a format leaves. */
  function Left(fmt: string, args: seq<Arg>): seq<Arg>
    requires Accepted(fmt, args)
  {
    if fmt == "" then args
    else if fmt[0] != '%' then Left(fmt[1..], args)
    else Left(fmt[2..], After(fmt[1], args))
  }

  /** The last thing in a format is literal text. */
  predicate EndsLiteral(fmt: string) {
    fmt != "" && if fmt[0] != '%' then |fmt| == 1 || EndsLiteral(fmt[1..]) else |fmt| > 2 && EndsLiteral(fmt[2..])
  }

  /** The first j characters end with literal text, render to exactly the room, and something harmful follows. */
  ghost predicate FillsAt(fmt: string, args: seq<Arg>, room: nat, j: nat) {
    && j < |fmt| && EndsLiteral(fmt[..j]) && Accepted(fmt[..j], args)
    && |Render(fmt[..j], args)| == room && Harmful(fmt[j..], Left(fmt[..j], args))
  }

  ghost predicate Fills(fmt: string, args: seq<Arg>, room: nat) {
    exists j :: FillsAt(fmt, args, room, j)
  }

  lemma {:induction false} LiteralRenders(fmt: string, args: seq<Arg>)
    requires EndsLiteral(fmt) && Accepted(fmt, args)
    ensures |Render(fmt, args)| > 0
    decreases |fmt|
  {
    if fmt[0] == '%' { LiteralRenders(fmt[2..], After(fmt[1], args)); }
  }

  lemma FillsAfterLiteral(fmt: string, args: seq<Arg>, room: nat, j: nat)
    requires fmt != "" && fmt[0] != '%' && room > 0 && 0 < j <= |fmt|
    ensures j == 1 ==> (FillsAt(fmt, args, room, j) <==> room == 1 && Harmful(fmt[1..], args))
    ensures j > 1 ==> (FillsAt(fmt, args, room, j) <==> FillsAt(fmt[1..], args, room - 1, j - 1))
    ensures j > 1 && room == 1 ==> !FillsAt(fmt, args, room, j)
  {
    var head := fmt[..j];
    assert head[1..] == fmt[1..][..j - 1] && fmt[1..][j - 1..] == fmt[j..];
    if j == 1 {
      assert head[1..] == "" && Render("", args) == "" && Left("", args) == args;
      assert Render(head, args) == [fmt[0]] && Left(head, args) == args;
    } else if EndsLiteral(head) && Accepted(head, args) {
      LiteralRenders(head[1..], args);
    }
  }

  lemma FillsAfterConversion(fmt: string, args: seq<Arg>, room: nat, j: nat)
    requires |fmt| > 1 && fmt[0] == '%' && Fits(fmt[1], args) && room > 0 && j <= |fmt|
    ensures j <= 2 ==> !FillsAt(fmt, args, room, j)
    ensures var n := |Text(fmt[1], args)|;
            j > 2 ==> (FillsAt(fmt, args, room, j)
                       <==> n < room && FillsAt(fmt[2..], After(fmt[1], args), room - n, j - 2))
  {
    var head := fmt[..j];
    if j > 2 {
      assert head[2..] == fmt[2..][..j - 2] && fmt[2..][j - 2..] == fmt[j..] && head[1] == fmt[1];
      if EndsLiteral(head) && Accepted(head, args) {
        LiteralRenders(head[2..], After(fmt[1], args));
      }
    }
  }

  lemma NotAtStart(fmt: string, args: seq<Arg>, room: nat, j: nat)
    requires FillsAt(fmt, args, room, j)
    ensures 0 < j < |fmt|
  {
  }

  /** Whether literal text fills the buffer can be told from one prefix of the format. */
  lemma {:induction false} FillsExactly(fmt: string, args: seq<Arg>, room: nat, literal: bool)
    requires Accepted(fmt, args) && room > 0
    ensures LiteralFills(fmt, args, room, literal) <==> Fills(fmt, args, room)
    decreases |fmt|
  {
    hide FillsAt, Text, Harmful;
    if j: nat :| FillsAt(fmt, args, room, j) {
      NotAtStart(fmt, args, room, j);
      if fmt[0] != '%' {
        FillsAfterLiteral(fmt, args, room, j);
        if room > 1 {
          FillsExactly(fmt[1..], args, room - 1, true);
        }
      } else {
        FillsAfterConversion(fmt, args, room, j);
        var n := |Text(fmt[1], args)|;
        FillsExactly(fmt[2..], After(fmt[1], args), room - n, false);
      }
    } else if fmt != "" {
      NowhereFills(fmt, args, room, literal);
    }
  }

  lemma NowhereFills(fmt: string, args: seq<Arg>, room: nat, literal: bool)
    requires Accepted(fmt, args) && room > 0 && fmt != "" && !Fills(fmt, args, room)
    ensures !LiteralFills(fmt, args, room, literal)
    decreases |fmt|, 0
  {
    hide FillsAt, Text, Harmful;
    if fmt[0] != '%' {
      if room == 1 {
        FillsAfterLiteral(fmt, args, room, 1);
      } else {
        var rest, less := fmt[1..], room - 1;
        FillsExactly(rest, args, less, true);
        if j: nat :| FillsAt(rest, args, less, j) {
          NotAtStart(rest, args, less, j);
          FillsAfterLiteral(fmt, args, room, j + 1);
        }
      }
    } else {
      var n := |Text(fmt[1], args)|;
      if n < room {
        var rest, arg, less := fmt[2..], After(fmt[1], args), room - n;
        FillsExactly(rest, arg, less, false);
        if j: nat :| FillsAt(rest, arg, less, j) {
          NotAtStart(rest, arg, less, j);
          FillsAfterConversion(fmt, args, room, j + 2);
        }
      }
    }
  }

  /** A format whose last literal character fills the buffer, so that %c is written behind it. */
  lemma LiteralFillsSpills()
    ensures Accepted("ok%c", [Int(65)]) && Loop("ok%c", [Int(65)], 2) == Done("okA")
    ensures Loop("ok%c", [Int(65)], 3) == Done("okA")
  {
    assert "ok%c"[1..] == "k%c" && "k%c"[1..] == "%c" && "%c"[2..] == "";
  }

  // ---------------------------------------------------------------- vsnprintf

  method WriteSequence(s: string, buffer: array<char>, p: nat, size: nat) returns (q: nat)
    requires p <= size <= buffer.Length
    modifies buffer
    ensures q == p + |Clip(s, size - p)|
    ensures WroteAt(buffer[..], old(buffer[..]), p, Clip(s, size - p))
  {
    var n := if |s| < size - p then |s| else size - p;
    forall i | 0 <= i < n {
      buffer[p + i] := s[i];
    }
    q := p + n;
  }

  method WriteChar(c: char, buffer: array<char>, p: nat) returns (q: nat)
    requires p < buffer.Length
    modifies buffer
    ensures q == p + 1 && WroteAt(buffer[..], old(buffer[..]), p, [c])
  {
    buffer[p] := c;
    q := p + 1;
  }

  /** Writing one text and then another, both as far as there is room, writes the two together. */
  lemma WroteBoth(m: seq<char>, mid: seq<char>, was: seq<char>, p: nat, s: string, t: string, room: nat)
    requires WroteAt(mid, was, p, Clip(s, room))
    requires var c := Clip(s, room); WroteAt(m, mid, p + |c|, Clip(t, room - |c|))
    ensures WroteAt(m, was, p, Clip(s + t, room))
  {
    ClipAppend(s, t, room);
  }

  /** One conversion: the switch of the loop. With a full buffer, some conversions write behind it. */
  method WriteConversion(c: char, args: seq<Arg>, buffer: array<char>, p: nat, size: nat) returns (q: nat)
    requires Fits(c, args) && p <= size < WORD64 && size + SLACK <= buffer.Length
    modifies buffer
    ensures q == p + |Written(c, args, size - p)|
    ensures WroteAt(buffer[..], old(buffer[..]), p, Written(c, args, size - p))
  {
    hide Numeral, WroteAt;
    match c {
      case 'c' =>
        q := WriteChar((args[0].bits % 256) as char, buffer, p);
      case 'd' =>
        q := WriteDecimal(args[0].bits, buffer, p, size);
      case 'o' =>
        q := WriteNumber(args[0].bits, 8, buffer, p, size);
      case 's' =>
        q := WriteSequence(if args[0].Str? then args[0].text else "(null)", buffer, p, size);
      case 'p' =>
        q := WritePointer(args[0].addr, buffer, p, size);
      case 'x' =>
        q := WriteNumber(args[0].bits, 16, buffer, p, size);
      case '%' =>
        q := WriteChar('%', buffer, p);
      case _ =>
        q := p;
        WroteNothing(buffer[..], p);
    }
  }

  lemma WroteNothing(m: seq<char>, p: nat)
    requires p <= |m|
    ensures WroteAt(m, m, p, "")
  {
  }

  method WriteNumber(num: nat, base: nat, buffer: array<char>, p: nat, size: nat) returns (q: nat)
    requires 2 <= base <= 16 && num < WORD64 && p <= size <= buffer.Length
    modifies buffer
    ensures q == p + |Clip(Numeral(num, base), size - p)|
    ensures WroteAt(buffer[..], old(buffer[..]), p, Clip(Numeral(num, base), size - p))
  {
    var n := Convert(num, base, buffer, p, size - p);
    q := p + n;
  }

  /** The %d case. The room behind the sign is computed in 64 bits, so it is huge when the sign had none. */
  method WriteDecimal(bits: nat, buffer: array<char>, p: nat, size: nat) returns (q: nat)
    requires bits < WORD32 && p <= size < WORD64 && size + SLACK <= buffer.Length
    modifies buffer
    ensures q == p + |Written('d', [Int(bits)], size - p)|
    ensures WroteAt(buffer[..], old(buffer[..]), p, Written('d', [Int(bits)], size - p))
  {
    hide Numeral, WroteAt;
    var number := Signed(bits);
    if number < 0 {
      UncheckedText('d', [Int(bits)]);
      q := WriteChar('-', buffer, p);
      ghost var mid := buffer[..];
      var room := (size - q) % WORD64;
      RoomBehindSign(-number, p, size, room);
      var n := Convert(-number, 10, buffer, q, room);
      q := q + n;
      if p < size {
        WroteBoth(buffer[..], mid, old(buffer[..]), p, "-", Numeral(-number, 10), size - p);
      } else {
        WroteSigned(buffer[..], mid, old(buffer[..]), p, Numeral(-number, 10), room);
      }
    } else {
      q := WriteNumber(number, 10, buffer, p, size);
    }
  }

  lemma RoomBehindSign(num: nat, p: nat, size: nat, room: nat)
    requires num < WORD32 && p <= size < WORD64 && |Numeral(num, 10)| < SLACK && room == (size - (p + 1)) % WORD64
    ensures p == size ==> room == WORD64 - 1 && Clip(Numeral(num, 10), room) == Numeral(num, 10)
    ensures p < size ==> Clip(Numeral(num, 10), room) == Clip(Numeral(num, 10), size - p - 1)
  {
  }

  lemma WroteSigned(m: seq<char>, mid: seq<char>, was: seq<char>, p: nat, t: string, room: nat)
    requires WroteAt(mid, was, p, "-") && WroteAt(m, mid, p + 1, Clip(t, room)) && Clip(t, room) == t
    ensures WroteAt(m, was, p, "-" + t)
  {
  }

  method WritePointer(addr: nat, buffer: array<char>, p: nat, size: nat) returns (q: nat)
    requires addr < WORD64 && p <= size <= buffer.Length
    modifies buffer
    ensures q == p + |Clip(Text('p', [Ptr(addr)]), size - p)|
    ensures WroteAt(buffer[..], old(buffer[..]), p, Clip(Text('p', [Ptr(addr)]), size - p))
  {
    hide Numeral, WroteAt;
    if addr != 0 {
      q := WriteSequence("0x", buffer, p, size);
      ghost var mid := buffer[..];
      q := WriteNumber(addr, 16, buffer, q, size);
      WroteBoth(buffer[..], mid, old(buffer[..]), p, "0x", Numeral(addr, 16), size - p);
    } else {
      q := WriteSequence("(null)", buffer, p, size);
    }
  }

  lemma PrependNothing(o: Outcome)
    ensures Prepend("", o) == o
  {
    assert o.Done? ==> "" + o.text == o.text;
  }

  lemma PrependBoth(s: string, t: string, o: Outcome)
    ensures Prepend(s, Prepend(t, o)) == Prepend(s + t, o)
  {
    assert o.Done? ==> s + (t + o.text) == s + t + o.text;
  }

  lemma LoopEnters(fmt: string, args: seq<Arg>, room: int)
    requires fmt != "" && room > 0
    ensures Loop(fmt, args, room) == Literal(fmt, args, room)
  {
  }

  lemma LoopEnds(fmt: string, args: seq<Arg>, room: int)
    requires fmt == "" || room <= 0
    ensures Loop(fmt, args, room) == Done("")
  {
  }

  lemma LiteralEnds(fmt: string, args: seq<Arg>, room: nat)
    requires |fmt| <= 1 && (fmt == "" || fmt[0] == '%' || room == 0)
    ensures Literal(fmt, args, room) == Done("")
  {
  }

  lemma LiteralStep(fmt: string, args: seq<Arg>, room: nat, out: string)
    requires fmt != "" && fmt[0] != '%' && room > 0
    ensures Prepend(out, Literal(fmt, args, room)) == Prepend(out + [fmt[0]], Literal(fmt[1..], args, room - 1))
  {
    PrependBoth(out, [fmt[0]], Literal(fmt[1..], args, room - 1));
  }

  lemma ConversionStep(fmt: string, args: seq<Arg>, room: nat, out: string)
    requires |fmt| > 1 && (fmt[0] == '%' || room == 0) && Prepend(out, Literal(fmt, args, room)).Done?
    ensures Fits(fmt[1], args)
    ensures var text := Written(fmt[1], args, room);
            var rest := Loop(fmt[2..], After(fmt[1], args), room - |text|);
            Prepend(out, Literal(fmt, args, room)) == Prepend(out + text, rest)
  {
    var text := Written(fmt[1], args, room);
    PrependBoth(out, text, Loop(fmt[2..], After(fmt[1], args), room - |text|));
  }

  lemma WrittenFits(c: char, args: seq<Arg>, room: nat)
    requires Fits(c, args)
    ensures |Written(c, args, room)| < room + SLACK
  {
    if room == 0 && Unchecked(c, args) { UncheckedText(c, args); }
  }

  /** vsnprintf up to the terminator: memory holds what the loop writes. */
  method WriteFormat(buffer: array<char>, size: nat, format: string, args: seq<Arg>) returns (p: nat)
    requires size < WORD64 && size + SLACK <= buffer.Length
    requires Accepted(format, args) && Loop(format, args, size).Done?
    modifies buffer
    ensures p == |Loop(format, args, size).text| < size + SLACK
    ensures WroteAt(buffer[..], old(buffer[..]), 0, Loop(format, args, size).text)
  {
    hide WroteAt, Text, Fits, Written, Clip, Loop, Literal, Accepted;
    var traverse, arg := format, args;
    p := 0;
    ghost var out, was := "", buffer[..];
    ghost var all := Loop(format, args, size);
    WroteNothing(was, 0);
    PrependNothing(all);
    while traverse != "" && p < size
      invariant p == |out| < size + SLACK && WroteAt(buffer[..], was, 0, out)
      invariant all == Prepend(out, Loop(traverse, arg, size - p))
      decreases |traverse|
    {
      LoopEnters(traverse, arg, size - p);
      while traverse != "" && traverse[0] != '%' && p < size
        invariant p == |out| <= size && WroteAt(buffer[..], was, 0, out)
        invariant all == Prepend(out, Literal(traverse, arg, size - p))
        decreases |traverse|
      {
        LiteralStep(traverse, arg, size - p, out);
        ghost var mid := buffer[..];
        p := WriteChar(traverse[0], buffer, p);
        WroteMore(buffer[..], mid, was, out, [traverse[0]]);
        out := out + [traverse[0]];
        traverse := traverse[1..];
      }
      if |traverse| <= 1 {
        LiteralEnds(traverse, arg, size - p);
        LoopEnds("", arg, size - p);
        traverse := "";
        break;
      }
      ConversionStep(traverse, arg, size - p, out);
      WrittenFits(traverse[1], arg, size - p);
      ghost var mid := buffer[..];
      ghost var text := Written(traverse[1], arg, size - p);
      p := WriteConversion(traverse[1], arg, buffer, p, size);
      WroteMore(buffer[..], mid, was, out, text);
      out := out + text;
      arg := After(traverse[1], arg);
      traverse := traverse[2..];
    }
    LoopEnds(traverse, arg, size - p);
    assert out + "" == out;
  }

  lemma WroteMore(m: seq<char>, mid: seq<char>, was: seq<char>, s: string, t: string)
    requires WroteAt(mid, was, 0, s) && WroteAt(m, mid, |s|, t)
    ensures WroteAt(m, was, 0, s + t)
  {
  }

  /**
   vsnprintf, in memory that goes on behind the buffer. Exactly when literal text does not fill the
   buffer in front of a harmful conversion, the result is less than the size: the buffer then holds
   the rendering, cut to one character less than its size and terminated, and nothing behind it
   changes. Otherwise the result and the terminator lie behind the buffer.
   */
  method VSNPrintf(buffer: array<char>, size: nat, format: string, args: seq<Arg>) returns (p: nat)
    requires 0 < size < WORD64 && size + SLACK <= buffer.Length
    requires Accepted(format, args) && Loop(format, args, size).Done?
    modifies buffer
    ensures p < size <==> !Fills(format, args, size)
    ensures p < size + SLACK && buffer[p] == 0 as char
    ensures p < size ==> buffer[..p] == Clip(Render(format, args), size - 1)
    ensures p < size ==> forall i :: size <= i < buffer.Length ==> buffer[i] == old(buffer[i])
    ensures p >= size ==> p > size && buffer[..size] == Clip(Render(format, args), size)
    ensures forall i :: size + SLACK <= i < buffer.Length ==> buffer[i] == old(buffer[i])
  {
    hide Accepted, Render, Loop, LiteralFills, Fills;
    LoopExact(format, args, size, false);
    FillsExactly(format, args, size, false);
    p := WriteFormat(buffer, size, format, args);
    if p == size {
      p := p - 1;
    }
    buffer[p] := 0 as char;
  }
}
