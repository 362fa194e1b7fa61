/** What a format string means (kernel/printf.c): a grammar of directives, and the text each renders to. */
module PrintfSpec {
  import opened Wrappers

  const MAX_U32 := 0xFFFF_FFFF
  const TWO32 := 0x1_0000_0000

  /** One argument: 32 bits, or a pointer to a string. Like the format, such a string stops before its
      NUL. */
  datatype Arg = Num(u: nat) | Str(s: string)

  /** A character echoed as it is, or a conversion with its flags and field width. */
  datatype Item = Lit(c: char) | Conv(left: bool, zero: bool, width: nat, conv: char)

  // ---- the grammar ----

  function Prefix(i: Item, rest: Option<seq<Item>>): Option<seq<Item>> {
    match rest case None => None case Some(items) => Some([i] + items)
  }

  predicate IsDigit(c: char) { '0' <= c <= '9' }

  /** Text up to the next directive. None stands for running past the end of the string: a '%', or
      the '0' flag, as the last character makes the scanner step over the terminating NUL. */
  function Parse(s: string): Option<seq<Item>>
    decreases |s|, 1
  {
    if s == "" then Some([])
    else if s[0] != '%' then Prefix(Lit(s[0]), Parse(s[1..]))
    else if |s| == 1 then None
    else ParseFlags(s[1..], false)
  }

  /** After '%': "%%", the '-' flag (twice is an error and ends the directive), the '0' flag. */
  function ParseFlags(s: string, left: bool): Option<seq<Item>>
    decreases |s|, 0
  {
    if s == "" then Some([])
    else if s[0] == '%' then Prefix(Lit('%'), Parse(s[1..]))
    else if s[0] == '-' then (if left then Parse(s[1..]) else ParseFlags(s[1..], true))
    else if s[0] == '0' then (if |s| == 1 then None else ParseWidth(s[1..], left, true, 0))
    else ParseWidth(s, left, false, 0)
  }

  function ParseWidth(s: string, left: bool, zero: bool, width: nat): Option<seq<Item>>
    decreases |s|, 0, 1
  {
    if s == "" then Some([])
    else if IsDigit(s[0]) then ParseWidth(s[1..], left, zero, (10 * width + (s[0] - '0') as nat) % TWO32)
    else ParseModifiers(s, left, zero, width)
  }

  /** Any number of F, N, l and h, none of which changes what is printed on a 32-bit machine. */
  function ParseModifiers(s: string, left: bool, zero: bool, width: nat): Option<seq<Item>>
    decreases |s|, 0, 0
  {
    if s == "" then Some([])
    else if s[0] in {'F', 'N', 'l', 'h'} then ParseModifiers(s[1..], left, zero, width)
    else Prefix(Conv(left, zero, width, s[0]), Parse(s[1..]))
  }

  // ---- fields ----

  function Fill(c: char, n: nat): (f: string)
    ensures |f| == n
  {
    seq(n, _ => c)
  }

  /** A text of nominal width `actual` in a field of the given width, after its sign. */
  function Field(sign: string, text: string, actual: nat, i: Item): string
    requires i.Conv?
  {
    var pad := if i.width > actual then i.width - actual else 0;
    if i.left then sign + text + Fill(' ', pad)
    else if i.zero then sign + Fill('0', pad) + text
    else Fill(' ', pad) + sign + text
  }

  function DigitChar(d: nat, upper: bool): char
    requires d < 16
  {
    if d < 10 then '0' + d as char else if upper then 'A' + (d - 10) as char else 'a' + (d - 10) as char
  }

  function Digits(n: nat, radix: nat, upper: bool): (r: string)
    requires 2 <= radix <= 16
  {
    (if n < radix then [] else Digits(n / radix, radix, upper)) + [DigitChar(n % radix, upper)]
  }

  predicate Numeric(c: char) { c in {'X', 'x', 'p', 'n', 'd', 'i', 'u', 'o'} }

  predicate Signed(c: char) { c == 'd' || c == 'i' }

  function Radix(c: char): (r: nat)
    ensures r == 8 || r == 10 || r == 16
  {
    if c in {'X', 'x', 'p', 'n'} then 16 else if c == 'o' then 8 else 10
  }

  predicate Negative(c: char, u: nat) { Signed(c) && u >= 0x8000_0000 }

  /** The magnitude of the 32 bits, taken as signed for %d and %i. */
  function Magnitude(c: char, u: nat): nat {
    if Negative(c, u) && u < TWO32 then TWO32 - u else u
  }

  function NumberText(i: Item, u: nat): string
    requires i.Conv?
  {
    var sign := if Negative(i.conv, u) then "-" else "";
    var digits := Digits(Magnitude(i.conv, u), Radix(i.conv), i.conv == 'X');
    Field(sign, digits, |sign| + |digits|, i)
  }

  /** %c prints one character, or none when it is NUL, in a field counted as one wide. */
  function CharText(i: Item, u: nat): string
    requires i.Conv?
  {
    var c := (u % 0x100) as char;
    Field("", if c == '\0' then "" else [c], 1, i.(zero := false))
  }

  // ---- rendering ----

  datatype Kind = NoArg | NumArg | StrArg

  function KindOf(i: Item): Kind {
    if i.Lit? then NoArg
    else if Numeric(i.conv) || i.conv == 'c' then NumArg
    else if i.conv == 's' then StrArg
    else NoArg
  }

  /** The text of one item, given the arguments still unused; None when the one it needs is missing or
      of the wrong kind. An unknown conversion prints nothing. */
  function RenderOne(i: Item, args: seq<Arg>): Option<string> {
    match KindOf(i)
    case NoArg => Some(if i.Lit? then [i.c] else "")
    case NumArg =>
      if args == [] || !args[0].Num? then None
      else Some(if i.conv == 'c' then CharText(i, args[0].u) else NumberText(i, args[0].u))
    case StrArg =>
      if args == [] || !args[0].Str? then None
      else Some(Field("", args[0].s, |args[0].s|, i.(zero := false)))
  }

  /** One text after another, as long as both are defined. */
  function Then(a: Option<string>, b: Option<string>): Option<string> {
    if a.None? || b.None? then None else Some(a.value + b.value)
  }

  function Render(items: seq<Item>, args: seq<Arg>): Option<string>
    decreases |items|
  {
    if items == [] then Some("")
    else if KindOf(items[0]) != NoArg && args == [] then None
    else Then(RenderOne(items[0], args), Render(items[1..], if KindOf(items[0]) == NoArg then args else args[1..]))
  }

  /** What do_printf emits; None when the C code's behaviour is undefined. */
  function Format(fmt: string, args: seq<Arg>): Option<string> {
    match Parse(fmt) case None => None case Some(items) => Render(items, args)
  }

  // ---- laws of number fields ----

  function DigitValue(c: char): nat {
    if '0' <= c <= '9' then (c - '0') as nat
    else if 'a' <= c <= 'f' then (c - 'a') as nat + 10
    else if 'A' <= c <= 'F' then (c - 'A') as nat + 10
    else 0
  }

  /** The number a string of digits denotes. */
  function Decode(s: string, radix: nat): nat {
    if s == "" then 0 else Decode(s[..|s| - 1], radix) * radix + DigitValue(s[|s| - 1])
  }

  lemma DecodeSnoc(s: string, c: char, radix: nat)
    ensures Decode(s + [c], radix) == Decode(s, radix) * radix + DigitValue(c)
  {}

  /** The digits denote the number they were made from. */
  lemma {:induction false} DigitsRoundTrip(n: nat, radix: nat, upper: bool)
    requires radix == 8 || radix == 10 || radix == 16
    ensures Decode(Digits(n, radix, upper), radix) == n
    decreases n
  {
    hide Digits, Decode, DigitChar, DigitValue;
    var front := if n < radix then [] else Digits(n / radix, radix, upper);
    var last := DigitChar(n % radix, upper);
    DigitsStep(n, radix, upper);
    DecodeSnoc(front, last, radix);
    DigitCharValue(n % radix, upper);
    if n >= radix {
      DigitsRoundTrip(n / radix, radix, upper);
    } else {
      DecodeEmpty(radix);
    }
    Euclid(n, radix);
  }

  lemma DecodeEmpty(radix: nat)
    ensures Decode("", radix) == 0
  {}

  lemma DigitCharValue(d: nat, upper: bool)
    requires d < 16
    ensures DigitValue(DigitChar(d, upper)) == d
  {}

  lemma Euclid(n: nat, radix: nat)
    requires radix > 0
    ensures (n / radix) * radix + n % radix == n
    ensures n < radix ==> n / radix == 0 && n % radix == n
  {}

  /** There is at least one digit, and none is superfluous: only zero itself starts with '0'. */
  lemma {:induction false} DigitsMinimal(n: nat, radix: nat, upper: bool)
    requires radix == 8 || radix == 10 || radix == 16
    ensures |Digits(n, radix, upper)| >= 1
    ensures Digits(n, radix, upper)[0] == '0' <==> n == 0
    ensures n == 0 ==> Digits(n, radix, upper) == "0"
    decreases n
  {
    if n >= radix {
      DigitsMinimal(n / radix, radix, upper);
    }
  }

  /** The largest number k octal digits shorter than 32 bits. */
  function Cap(k: nat): nat { if k == 0 then MAX_U32 else Cap(k - 1) / 8 }

  lemma CapEnds()
    ensures Cap(11) == 0
  {}

  /** Each digit taken off brings the number below the next bound. */
  lemma CapStep(n: nat, radix: nat, k: nat)
    requires n <= Cap(k) && (radix == 8 || radix == 10 || radix == 16)
    ensures n / radix <= Cap(k + 1)
    ensures k >= 10 ==> n / radix == 0
    ensures n / radix == 0 <==> n < radix
  {
    assert n / radix <= n / 8 by {
      if radix == 10 {
        assert n / 10 <= n / 8;
      } else if radix == 16 {
        assert n / 16 <= n / 8;
      }
    }
    assert Cap(k + 1) == Cap(k) / 8;
    if k >= 10 {
      CapFalls(k);
    }
    Euclid(n, radix);
  }

  lemma {:induction false} CapFalls(k: nat)
    requires k >= 10
    ensures Cap(k + 1) == 0
    decreases k
  {
    if k == 10 {
      CapEnds();
    } else {
      CapFalls(k - 1);
    }
  }

  lemma DigitsStep(n: nat, radix: nat, upper: bool)
    requires radix == 8 || radix == 10 || radix == 16
    ensures Digits(n, radix, upper) ==
      (if n < radix then [] else Digits(n / radix, radix, upper)) + [DigitChar(n % radix, upper)]
  {}

  /** A field is as wide as asked for, or as its sign and digits when those need more. */
  lemma NumberWidth(i: Item, u: nat)
    requires i.Conv?
    ensures var digits := Digits(Magnitude(i.conv, u), Radix(i.conv), i.conv == 'X');
      var least := |digits| + if Negative(i.conv, u) then 1 else 0;
      |NumberText(i, u)| == if i.width > least then i.width else least
  {}

  /** Leading zeroes do not change the number. */
  lemma {:induction false} ZeroesDecode(n: nat, s: string, radix: nat)
    ensures Decode(Fill('0', n) + s, radix) == Decode(s, radix)
    decreases n + |s|
  {
    if s != "" {
      var front := s[..|s| - 1];
      ZeroesDecode(n, front, radix);
      assert (Fill('0', n) + s)[..n + |s| - 1] == Fill('0', n) + front;
    } else if n > 0 {
      ZeroesDecode(n - 1, "", radix);
      assert (Fill('0', n) + s)[..n - 1] == Fill('0', n - 1) + "";
    }
  }

  /** A number field, once its blanks are gone, is a minus sign exactly for a negative number, followed by
      digits that denote the 32-bit magnitude. */
  lemma NumberDecodes(i: Item, u: nat) returns (before: nat, after: nat)
    requires i.Conv? && u < TWO32
    ensures var t := NumberText(i, u); var sign := if Negative(i.conv, u) then 1 else 0;
      && before + sign + after < |t|
      && (forall k :: 0 <= k < before || |t| - after <= k < |t| ==> t[k] == ' ')
      && (sign == 1 ==> t[before..before + 1] == "-")
      && Decode(t[before + sign..|t| - after], Radix(i.conv)) == Magnitude(i.conv, u)
  {
    hide Digits, Decode, Field, Magnitude, Radix, Negative;
    var sign := if Negative(i.conv, u) then "-" else "";
    var digits := Digits(Magnitude(i.conv, u), Radix(i.conv), i.conv == 'X');
    DigitsRoundTrip(Magnitude(i.conv, u), Radix(i.conv), i.conv == 'X');
    DigitsMinimal(Magnitude(i.conv, u), Radix(i.conv), i.conv == 'X');
    before, after := FieldParts(sign, digits, Radix(i.conv), i);
  }

  /** Where the blanks of a field end and begin. */
  lemma FieldParts(sign: string, digits: string, radix: nat, i: Item) returns (before: nat, after: nat)
    requires i.Conv? && |digits| >= 1
    ensures var t := Field(sign, digits, |sign| + |digits|, i);
      && before + |sign| + after < |t|
      && (forall k :: 0 <= k < before || |t| - after <= k < |t| ==> t[k] == ' ')
      && t[before..before + |sign|] == sign
      && Decode(t[before + |sign|..|t| - after], radix) == Decode(digits, radix)
  {
    hide Decode;
    var least := |sign| + |digits|;
    var pad := if i.width > least then i.width - least else 0;
    ZeroesDecode(pad, digits, radix);
    var t := Field(sign, digits, least, i);
    if i.left {
      before, after := 0, pad;
      assert t[|sign|..|t| - pad] == digits;
    } else if i.zero {
      before, after := 0, 0;
      assert t[|sign|..|t|] == Fill('0', pad) + digits;
    } else {
      before, after := pad, 0;
      assert t[pad + |sign|..|t|] == digits;
    }
  }

  const LOWER := "0123456789abcdef"
  const UPPER := "0123456789ABCDEF"

  lemma DigitTable(d: nat, upper: bool)
    requires d < 16
    ensures DigitChar(d, upper) == (if upper then UPPER else LOWER)[d]
    ensures DigitValue(LOWER[d]) == d == DigitValue(UPPER[d])
  {}

  lemma {:induction false} DigitsFrom(n: nat, radix: nat, upper: bool)
    requires radix == 8 || radix == 10 || radix == 16
    ensures forall k :: 0 <= k < |Digits(n, radix, upper)| ==>
      Digits(n, radix, upper)[k] in (if upper then UPPER else LOWER)[..radix]
    decreases n
  {
    DigitsStep(n, radix, upper);
    DigitTable(n % radix, upper);
    hide Digits, DigitChar;
    var table := (if upper then UPPER else LOWER)[..radix];
    assert table[n % radix] in table;
    if n >= radix {
      DigitsFrom(n / radix, radix, upper);
    }
  }

  /** How a text stands in its field: blanks before it only on the right and without the '0' flag, zeroes
      between its sign and itself only on the right and with it, blanks after it only on the left, and no
      more of them than the width asks for. */
  ghost predicate Padded(i: Item, before: nat, zeroes: nat, after: nat, actual: nat) {
    && i.Conv?
    && (before > 0 ==> !i.left && !i.zero) && (zeroes > 0 ==> !i.left && i.zero) && (after > 0 ==> i.left)
    && before + zeroes + after == if i.width > actual then i.width - actual else 0
  }

  lemma FieldPadded(sign: string, text: string, actual: nat, i: Item) returns (before: nat, zeroes: nat, after: nat)
    requires i.Conv?
    ensures Padded(i, before, zeroes, after, actual)
    ensures Field(sign, text, actual, i) == Fill(' ', before) + sign + Fill('0', zeroes) + text + Fill(' ', after)
  {
    var pad := if i.width > actual then i.width - actual else 0;
    before := if !i.left && !i.zero then pad else 0;
    zeroes := if !i.left && i.zero then pad else 0;
    after := if i.left then pad else 0;
  }

  /** The digits denote the value in the radix and its alphabet, without superfluous zeroes. */
  ghost predicate Denotes(digits: string, radix: nat, upper: bool, value: nat)
    requires radix <= 16
  {
    && Decode(digits, radix) == value && digits != "" && (digits[0] == '0' ==> value == 0 && digits == "0")
    && forall k :: 0 <= k < |digits| ==> digits[k] in (if upper then UPPER else LOWER)[..radix]
  }

  lemma DigitsDenote(n: nat, radix: nat, upper: bool)
    requires radix == 8 || radix == 10 || radix == 16
    ensures Denotes(Digits(n, radix, upper), radix, upper, n)
  {
    hide Digits, Decode;
    DigitsRoundTrip(n, radix, upper);
    DigitsMinimal(n, radix, upper);
    DigitsFrom(n, radix, upper);
  }

  lemma NumberRendered(i: Item, u: nat, rest: seq<Arg>, radix: nat, negative: bool)
    requires i.Conv? && i.conv in {'x', 'X', 'p', 'n', 'd', 'i', 'u', 'o'} && u < 0x1_0000_0000
    requires radix == if i.conv in {'x', 'X', 'p', 'n'} then 16 else if i.conv == 'o' then 8 else 10
    requires negative <==> i.conv in {'d', 'i'} && u >= 0x8000_0000
    ensures var sign := if negative then "-" else "";
      var digits := Digits(if negative then 0x1_0000_0000 - u else u, radix, i.conv == 'X');
      RenderOne(i, [Num(u)] + rest) == Some(Field(sign, digits, |sign| + |digits|, i))
  {
    hide Digits, Field;
    assert ([Num(u)] + rest)[0] == Num(u);
  }

  /** What a number prints: padding, a minus sign for a negative %d or %i, and the digits of its magnitude in
      the conversion's radix and alphabet, without superfluous zeroes. */
  lemma NumberPrinted(i: Item, u: nat, rest: seq<Arg>)
    returns (before: nat, zeroes: nat, digits: string, after: nat)
    requires i.Conv? && i.conv in {'x', 'X', 'p', 'n', 'd', 'i', 'u', 'o'} && u < 0x1_0000_0000
    ensures var radix := if i.conv in {'x', 'X', 'p', 'n'} then 16 else if i.conv == 'o' then 8 else 10;
      var negative := i.conv in {'d', 'i'} && u >= 0x8000_0000;
      var sign := if negative then "-" else "";
      && RenderOne(i, [Num(u)] + rest)
         == Some(Fill(' ', before) + sign + Fill('0', zeroes) + digits + Fill(' ', after))
      && Padded(i, before, zeroes, after, |sign| + |digits|)
      && Denotes(digits, radix, i.conv == 'X', if negative then 0x1_0000_0000 - u else u)
  {
    hide *;
    var radix := if i.conv in {'x', 'X', 'p', 'n'} then 16 else if i.conv == 'o' then 8 else 10;
    var negative := i.conv in {'d', 'i'} && u >= 0x8000_0000;
    var sign, value := if negative then "-" else "", if negative then 0x1_0000_0000 - u else u;
    digits := Digits(value, radix, i.conv == 'X');
    DigitsDenote(value, radix, i.conv == 'X');
    NumberRendered(i, u, rest, radix, negative);
    before, zeroes, after := FieldPadded(sign, digits, |sign| + |digits|, i);
  }

  /** What %s and %c print: the string, or the character (none for NUL, though counted as one), in blanks. */
  lemma TextPrinted(i: Item, a: Arg, rest: seq<Arg>) returns (before: nat, after: nat)
    requires i.Conv? && ((i.conv == 's' && a.Str?) || (i.conv == 'c' && a.Num?))
    ensures var text := if i.conv == 's' then a.s else if a.u % 0x100 == 0 then "" else [(a.u % 0x100) as char];
      && RenderOne(i, [a] + rest) == Some(Fill(' ', before) + text + Fill(' ', after))
      && Padded(i.(zero := false), before, 0, after, if i.conv == 's' then |text| else 1)
  {
    var text := if i.conv == 's' then a.s else if a.u % 0x100 == 0 then "" else [(a.u % 0x100) as char];
    var actual := if i.conv == 's' then |text| else 1;
    assert ([a] + rest)[0] == a;
    assert RenderOne(i, [a] + rest) == Some(Field("", text, actual, i.(zero := false)));
    var zeroes;
    before, zeroes, after := FieldPadded("", text, actual, i.(zero := false));
    var front, back := Fill(' ', before), Fill(' ', after);
    assert front + "" + Fill('0', 0) + text + back == front + text + back;
  }

  /** A character of the format prints itself, a conversion that is not known nothing. */
  lemma OthersPrinted(i: Item, args: seq<Arg>)
    requires i.Conv? ==> i.conv !in {'x', 'X', 'p', 'n', 'd', 'i', 'u', 'o', 'c', 's'}
    ensures RenderOne(i, args) == Some(if i.Lit? then [i.c] else "") && KindOf(i) == NoArg
  {}

  // ---- laws of rendering ----

  /** The kinds of argument the items need, in order. */
  function Needs(items: seq<Item>): seq<Kind> {
    if items == [] then []
    else (if KindOf(items[0]) == NoArg then [] else [KindOf(items[0])]) + Needs(items[1..])
  }

  lemma NeedsStep(items: seq<Item>)
    requires items != []
    ensures Needs(items) == (if KindOf(items[0]) == NoArg then [] else [KindOf(items[0])]) + Needs(items[1..])
    ensures KindOf(items[0]) == NoArg ==> Needs(items) == Needs(items[1..])
  {}

  predicate Suits(k: Kind, a: Arg) { (k == NumArg && a.Num?) || (k == StrArg && a.Str?) }

  /** Rendering is defined exactly when there are enough arguments and each has the kind needed. */
  lemma {:induction false} RenderDefined(items: seq<Item>, args: seq<Arg>)
    ensures Render(items, args).Some? <==>
      |Needs(items)| <= |args| && forall k :: 0 <= k < |Needs(items)| ==> Suits(Needs(items)[k], args[k])
    decreases |items|
  {
    if items != [] {
      var rest := items[1..];
      if KindOf(items[0]) == NoArg {
        RenderDefined(rest, args);
        assert Needs(items) == Needs(rest);
      } else if args != [] {
        RenderDefined(rest, args[1..]);
        var n := Needs(items);
        assert n == [KindOf(items[0])] + Needs(rest);
        if Render(items, args).Some? {
          assert forall k :: 1 <= k < |n| ==> n[k] == Needs(rest)[k - 1] && args[k] == args[1..][k - 1];
        } else if Suits(n[0], args[0]) && |n| <= |args| {
          var k :| 0 <= k < |Needs(rest)| && !Suits(Needs(rest)[k], args[1..][k]);
          assert n[k + 1] == Needs(rest)[k] && args[k + 1] == args[1..][k];
        }
      }
    }
  }

  lemma {:induction false} NeedsSnoc(items: seq<Item>, i: Item)
    ensures Needs(items + [i]) == Needs(items) + if KindOf(i) == NoArg then [] else [KindOf(i)]
    decreases |items|
  {
    hide KindOf;
    if items == [] {
      assert ([] + [i])[1..] == [];
    } else {
      assert (items + [i])[1..] == items[1..] + [i] && (items + [i])[0] == items[0];
      NeedsSnoc(items[1..], i);
      NeedsStep(items);
      NeedsStep(items + [i]);
    }
  }

  /** The arguments left over once the items are rendered. */
  function Left(items: seq<Item>, args: seq<Arg>): seq<Arg> {
    if |Needs(items)| <= |args| then args[|Needs(items)|..] else []
  }

  lemma LeftStep(items: seq<Item>, args: seq<Arg>)
    requires items != [] && (KindOf(items[0]) == NoArg || args != [])
    ensures Left(items, args) == Left(items[1..], if KindOf(items[0]) == NoArg then args else args[1..])
  {}

  lemma ThenTwice(a: Option<string>, b: Option<string>, c: Option<string>)
    ensures Then(Then(a, b), c) == Then(a, Then(b, c))
    ensures Then(a, Some("")) == a == Then(Some(""), a)
  {
    if a.Some? && b.Some? && c.Some? {
      assert a.value + b.value + c.value == a.value + (b.value + c.value);
    }
    if a.Some? {
      assert a.value + "" == a.value == "" + a.value;
    }
  }

  lemma RenderCons(i: Item, rest: seq<Item>, args: seq<Arg>)
    ensures Render([i] + rest, args) ==
      if KindOf(i) != NoArg && args == [] then None
      else Then(RenderOne(i, args), Render(rest, if KindOf(i) == NoArg then args else args[1..]))
  {}

  /** Rendering one more item at the end, from the arguments left over. */
  lemma {:induction false} RenderSnoc(items: seq<Item>, i: Item, args: seq<Arg>)
    requires Render(items, args).Some?
    ensures Render(items + [i], args) == Then(Render(items, args), RenderOne(i, Left(items, args)))
    decreases |items|
  {
    hide RenderOne, KindOf, Then;
    if items == [] {
      RenderLast(i, args);
      assert [] + [i] == [i] && Left([], args) == args;
      ThenTwice(RenderOne(i, args), None, None);
    } else {
      var rest, first := items[1..], items[0];
      var more := if KindOf(first) == NoArg then args else args[1..];
      assert items == [first] + rest && items + [i] == [first] + (rest + [i]);
      RenderCons(first, rest, args);
      RenderCons(first, rest + [i], args);
      ThenSome(RenderOne(first, args), Render(rest, more));
      RenderSnoc(rest, i, more);
      LeftStep(items, args);
      ThenTwice(RenderOne(first, args), Render(rest, more), RenderOne(i, Left(items, args)));
    }
  }

  /** So the text of a format is that of its items one after the other, each taking the first argument
      that those before it have not used. */
  lemma RenderGrows(items: seq<Item>, i: Item, args: seq<Arg>)
    requires Render(items, args).Some?
    ensures Render([], args) == Some("") && |Needs(items)| <= |args|
    ensures Render(items + [i], args) == match RenderOne(i, args[|Needs(items)|..])
      case None => None
      case Some(text) => Some(Render(items, args).value + text)
  {
    RenderDefined(items, args);
    RenderSnoc(items, i, args);
  }

  lemma ThenSome(a: Option<string>, b: Option<string>)
    ensures Then(a, b).Some? ==> a.Some? && b.Some?
  {}

  lemma RenderLast(i: Item, args: seq<Arg>)
    ensures Render([i], args) == RenderOne(i, args)
  {
    RenderCons(i, [], args);
    ThenTwice(RenderOne(i, args), None, None);
    assert [i] + [] == [i];
  }

  /** What cannot be rendered still cannot when more items follow. */
  lemma {:induction false} RenderStuck(items: seq<Item>, more: seq<Item>, args: seq<Arg>)
    requires Render(items, args) == None
    ensures Render(items + more, args) == None
    decreases |items|
  {
    hide RenderOne, KindOf;
    assert (items + more)[1..] == items[1..] + more;
    if KindOf(items[0]) == NoArg || args != [] {
      var left := if KindOf(items[0]) == NoArg then args else args[1..];
      if Render(items[1..], left) == None {
        RenderStuck(items[1..], more, left);
      }
    }
  }

  // ---- how a format is read ----

  const DIGITS := {'0', '1', '2', '3', '4', '5', '6', '7', '8', '9'}
  const MODIFIERS := {'F', 'N', 'l', 'h'}

  /** A directive: '%', the '-' flag, the '0' flag, a field width in decimal, modifiers, a conversion. */
  function Directive(left: bool, zero: bool, width: string, modifiers: string, conv: string): string {
    "%" + ((if left then "-" else "") + ((if zero then "0" else "") + (width + (modifiers + conv))))
  }

  /** That a directive reads back as it was written: the width is digits, without a leading zero unless the
      flag has been given; and the conversion is not what could go on with what comes before it. */
  ghost predicate WellFormed(zero: bool, width: string, modifiers: string, c: char) {
    && (forall k :: 0 <= k < |width| ==> width[k] in DIGITS)
    && (!zero && width != "" ==> width[0] != '0')
    && (forall k :: 0 <= k < |modifiers| ==> modifiers[k] in MODIFIERS)
    && c !in MODIFIERS && (modifiers == "" ==> c !in DIGITS)
    && (!zero && width == "" && modifiers == "" ==> c != '%' && c != '-')
  }

  /** A directive is read as exactly what it says, the width being taken modulo 2^32. */
  lemma ReadDirective(left: bool, zero: bool, width: string, modifiers: string, c: char, rest: string)
    requires WellFormed(zero, width, modifiers, c)
    ensures Parse(Directive(left, zero, width, modifiers, [c] + rest)) == match Parse(rest)
      case None => None
      case Some(items) => Some([Conv(left, zero, Decode(width, 10) % TWO32, c)] + items)
  {
    var tail := modifiers + ([c] + rest);
    assert tail[0] == if modifiers == "" then c else modifiers[0];
    assert (width + tail)[0] == if width == "" then tail[0] else width[0];
    hide Parse, ParseWidth, ParseModifiers, Decode;
    ReadFlags(left, zero, width + tail);
    DecodeEmpty(10);
    ReadWidth(left, zero, "", width, tail);
    assert "" + width == width;
    ReadModifiers(left, zero, Decode(width, 10) % TWO32, modifiers, c, rest);
  }

  lemma ReadFlags(left: bool, zero: bool, t: string)
    requires t != "" && (!zero ==> t[0] !in {'%', '-', '0'})
    ensures Parse("%" + ((if left then "-" else "") + ((if zero then "0" else "") + t))) == ParseWidth(t, left, zero, 0)
  {
    var u := (if zero then "0" else "") + t;
    var v := (if left then "-" else "") + u;
    assert ("%" + v)[1..] == v && (left ==> v[1..] == u) && (zero ==> u[1..] == t);
    hide ParseWidth;
    assert !left ==> v == u;
    assert !zero ==> u == t;
    assert ParseFlags(u, left) == ParseWidth(t, left, zero, 0);
  }

  /** Read after the digits `done`, the digits `width` go on the number. */
  lemma {:induction false} ReadWidth(left: bool, zero: bool, done: string, width: string, tail: string)
    requires forall k :: 0 <= k < |width| ==> width[k] in DIGITS
    requires tail == "" || tail[0] !in DIGITS
    ensures ParseWidth(width + tail, left, zero, Decode(done, 10) % TWO32)
      == ParseModifiers(tail, left, zero, Decode(done + width, 10) % TWO32)
    decreases |width|
  {
    hide Decode, ParseModifiers;
    if width == "" {
      assert width + tail == tail && done + width == done;
      assert tail == "" ==> ParseModifiers(tail, left, zero, Decode(done, 10) % TWO32) == Some([]) by {
        EndModifiers(left, zero, Decode(done, 10) % TWO32, "");
      }
    } else {
      var d := width[0];
      var w := (10 * (Decode(done, 10) % TWO32) + (d - '0') as nat) % TWO32;
      assert DigitValue(d) == (d - '0') as nat && (width + tail)[0] == d && (width + tail)[1..] == width[1..] + tail;
      assert ParseWidth(width + tail, left, zero, Decode(done, 10) % TWO32)
          == ParseWidth(width[1..] + tail, left, zero, w);
      hide ParseWidth;
      DecodeSnoc(done, d, 10);
      AppendDigit(Decode(done, 10), DigitValue(d));
      ReadWidth(left, zero, done + [d], width[1..], tail);
      assert done + [d] + width[1..] == done + width;
    }
  }

  lemma AppendDigit(n: nat, d: nat)
    ensures (10 * (n % TWO32) + d) % TWO32 == (n * 10 + d) % TWO32
  {
    var q := n / TWO32;
    assert n * 10 + d == 10 * (n % TWO32) + d + TWO32 * (10 * q);
  }

  lemma {:induction false} ReadModifiers(left: bool, zero: bool, width: nat, modifiers: string, c: char, rest: string)
    requires (forall k :: 0 <= k < |modifiers| ==> modifiers[k] in MODIFIERS) && c !in MODIFIERS
    ensures ParseModifiers(modifiers + ([c] + rest), left, zero, width) == match Parse(rest)
      case None => None
      case Some(items) => Some([Conv(left, zero, width, c)] + items)
    decreases |modifiers|
  {
    if modifiers == "" {
      assert modifiers + ([c] + rest) == [c] + rest && ([c] + rest)[1..] == rest;
    } else {
      ReadModifiers(left, zero, width, modifiers[1..], c, rest);
      assert (modifiers + ([c] + rest))[1..] == modifiers[1..] + ([c] + rest);
    }
  }

  /** A directive that the format ends in before its conversion is dropped, unless it overruns the end. */
  lemma ReadUnfinished(left: bool, zero: bool, width: string, modifiers: string)
    requires (forall k :: 0 <= k < |width| ==> width[k] in DIGITS) && (!zero && width != "" ==> width[0] != '0')
    requires forall k :: 0 <= k < |modifiers| ==> modifiers[k] in MODIFIERS
    ensures Parse(Directive(left, zero, width, modifiers, "")) ==
      if width == "" && modifiers == "" && (zero || !left) then None else Some([])
  {
    assert modifiers + "" == modifiers;
    assert Directive(left, zero, width, modifiers, "")
        == "%" + ((if left then "-" else "") + ((if zero then "0" else "") + (width + modifiers)));
    hide Parse, ParseWidth, ParseModifiers, Decode;
    if width + modifiers == "" {
      OpenEnds();
      assert "%" + ("-" + ("" + "")) == "%-" && "%" + ("" + ("" + "")) == "%";
      assert "%" + ("" + ("0" + "")) == "%0" && "%" + ("-" + ("0" + "")) == "%-0";
    } else {
      assert (width + modifiers)[0] == if width == "" then modifiers[0] else width[0];
      ReadFlags(left, zero, width + modifiers);
      DecodeEmpty(10);
      ReadWidth(left, zero, "", width, modifiers);
      EndModifiers(left, zero, Decode("" + width, 10) % TWO32, modifiers);
    }
  }

  lemma OpenEnds()
    ensures Parse("%") == Parse("%0") == Parse("%-0") == None && Parse("%-") == Some([])
  {
    assert "%0"[1..] == "0" && "%-0"[1..] == "-0" && "-0"[1..] == "0" && "%-"[1..] == "-" && "-"[1..] == "";
  }

  lemma {:induction false} EndModifiers(left: bool, zero: bool, width: nat, modifiers: string)
    requires forall k :: 0 <= k < |modifiers| ==> modifiers[k] in MODIFIERS
    ensures ParseModifiers(modifiers, left, zero, width) == Some([])
    decreases |modifiers|
  {
    if modifiers != "" {
      EndModifiers(left, zero, width, modifiers[1..]);
    }
  }

  /** Anything but '%' stands for itself. */
  lemma ReadLiteral(c: char, rest: string)
    ensures c != '%' ==> Parse([c] + rest) == match Parse(rest)
      case None => None
      case Some(items) => Some([Lit(c)] + items)
  {
    assert ([c] + rest)[1..] == rest;
  }

  /** A '%' after "%" or "%-" stands for itself; "%--" stands for nothing. */
  lemma ReadPercent(rest: string)
    ensures Parse("%%" + rest) == Parse("%-%" + rest) == match Parse(rest)
      case None => None
      case Some(items) => Some([Lit('%')] + items)
    ensures Parse("%--" + rest) == Parse(rest)
  {
    hide ParseWidth, ParseModifiers;
    assert ("%%" + rest)[1..] == "%" + rest && ("%" + rest)[1..] == rest;
    assert ("%-%" + rest)[1..] == "-%" + rest && ("-%" + rest)[1..] == "%" + rest;
    assert ("%--" + rest)[1..] == "--" + rest && ("--" + rest)[1..] == "-" + rest && ("-" + rest)[1..] == rest;
    assert ParseFlags("%" + rest, false) == ParseFlags("%" + rest, true) == Prefix(Lit('%'), Parse(rest));
    assert ParseFlags("-" + rest, true) == Parse(rest);
  }

  // ---- which formats keep within their string ----

  /** The first position from i on that holds none of the characters. */
  function Run(s: string, i: nat, cs: set<char>): (r: nat)
    requires i <= |s|
    ensures i <= r <= |s|
    decreases |s| - i
  {
    if i < |s| && s[i] in cs then Run(s, i + 1, cs) else i
  }

  /** Where a conversion ends whose digits, the '0' flag included, start at i. */
  function ConversionEnd(s: string, i: nat): (r: nat)
    requires i <= |s|
    ensures i <= r <= |s| && (i < |s| ==> i < r)
  {
    var c := Run(s, Run(s, i, DIGITS), MODIFIERS);
    if c < |s| then c + 1 else c
  }

  /** How long the first item of a text is: one character to echo, or a whole directive. */
  function ItemLength(s: string): (r: nat)
    requires s != ""
    ensures 1 <= r <= |s|
  {
    if s[0] != '%' then 1
    else
      var i := if |s| > 1 && s[1] == '-' then 2 else 1;
      if i < |s| && (s[i] == '%' || (i == 2 && s[i] == '-')) then i + 1 else ConversionEnd(s, i)
  }

  /** Item by item, what is left of the text comes to be a lone "%", "%0" or "%-0". */
  predicate Overruns(s: string)
    decreases |s|
  {
    s in {"%", "%0", "%-0"} || (s != "" && Overruns(s[ItemLength(s)..]))
  }

  /** Those formats, and no others, make the scanner step over their end. */
  lemma {:induction false} ParseDefined(s: string)
    ensures Parse(s).Some? <==> !Overruns(s)
    decreases |s|
  {
    if s != "" && s !in {"%", "%0", "%-0"} {
      ParseDefined(s[ItemLength(s)..]);
      if s[0] == '%' {
        assert |s| == 1 ==> s == "%";
        FlagsEnd(s);
      }
    }
  }

  lemma FlagsEnd(s: string)
    requires s != "" && s[0] == '%' && s !in {"%", "%0", "%-0"}
    ensures ParseFlags(s[1..], false).Some? <==> Parse(s[ItemLength(s)..]).Some?
  {
    assert Parse(s[|s|..]).Some?;
    hide Parse, ParseWidth;
    assert |s| == 1 ==> s == "%";
    var i := if s[1] == '-' then 2 else 1;
    assert s[1..][1..] == s[2..];
    if i < |s| {
      assert s[i..][1..] == s[i + 1..] && s[i..][0] == s[i];
      if s[i] == '0' {
        assert |s| > i + 1 by {
          assert |s| == i + 1 ==> s == if i == 1 then "%0" else "%-0";
        }
        WidthEnd(s, i + 1, i == 2, true, 0);
      } else {
        WidthEnd(s, i, i == 2, false, 0);
      }
    }
  }

  lemma {:induction false} WidthEnd(s: string, i: nat, left: bool, zero: bool, width: nat)
    requires i <= |s|
    ensures ParseWidth(s[i..], left, zero, width).Some? <==> Parse(s[ConversionEnd(s, i)..]).Some?
    decreases |s| - i
  {
    assert Parse(s[|s|..]).Some?;
    hide Parse, ParseModifiers;
    if i < |s| && IsDigit(s[i]) {
      assert s[i..][1..] == s[i + 1..];
      WidthEnd(s, i + 1, left, zero, (10 * width + (s[i] - '0') as nat) % TWO32);
    } else {
      ModifiersEnd(s, i, left, zero, width);
    }
  }

  lemma {:induction false} ModifiersEnd(s: string, i: nat, left: bool, zero: bool, width: nat)
    requires i <= |s|
    ensures var c := Run(s, i, MODIFIERS);
      ParseModifiers(s[i..], left, zero, width).Some? <==> Parse(s[if c < |s| then c + 1 else c..]).Some?
    decreases |s| - i
  {
    assert Parse(s[|s|..]).Some?;
    hide Parse;
    if i < |s| {
      assert s[i..][1..] == s[i + 1..];
      if s[i] in MODIFIERS {
        ModifiersEnd(s, i + 1, left, zero, width);
      }
    }
  }

  /** A format that ends in '%' overruns its end, unless that is the second of a pair. */
  lemma PercentAtEnd()
    ensures Parse("100%") == None && Parse("100%%").Some?
  {
    assert Overruns("100%") by {
      assert "100%"[1..] == "00%" && "00%"[1..] == "0%" && "0%"[1..] == "%";
    }
    assert !Overruns("100%%") by {
      assert "100%%"[1..] == "00%%" && "00%%"[1..] == "0%%" && "0%%"[1..] == "%%" && "%%"[2..] == "";
    }
    ParseDefined("100%");
    ParseDefined("100%%");
  }
}
