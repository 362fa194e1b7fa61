/** The formatter itself (kernel/printf.c:37-281): a scanner with states that fall through. */
module Printf {
  import opened Wrappers
  import opened PrintfSpec

  const NUL := '\0'
  const BUFLEN := 16

  /** The number conversion: digits filled in from the end of a 16-byte buffer, which never runs under. */
  method ConvertDigits(n: nat, radix: nat, upper: bool) returns (where: string)
    requires n < TWO32 && (radix == 8 || radix == 10 || radix == 16)
    ensures where == Digits(n, radix, upper) && |where| <= 11
  {
    hide Digits, Cap, DigitChar, DigitsAbove;
    var buf := new char[BUFLEN];
    var at := BUFLEN - 1;
    buf[at] := NUL;
    var num: nat := n;
    BelowCap(n);
    ghost var done := "";
    while true
      invariant 4 < at <= BUFLEN - 1 && num <= Cap(BUFLEN - 1 - at)
      invariant buf[at..BUFLEN - 1] == done && Digits(n, radix, upper) == Digits(num, radix, upper) + done
      decreases at
    {
      CapStep(num, radix, BUFLEN - 1 - at);
      MoreDigits(num, radix, upper, done);
      done := [DigitChar(num % radix, upper)] + done;
      at := at - 1;
      PutDigit(buf, at, num % radix, upper);
      num := num / radix;
      if num == 0 {
        break;
      }
    }
    where := buf[at..BUFLEN - 1];
  }

  method PutDigit(buf: array<char>, at: nat, temp: nat, upper: bool)
    requires buf.Length == BUFLEN && at < BUFLEN - 1 && temp < 16
    modifies buf
    ensures buf[at..BUFLEN - 1] == [DigitChar(temp, upper)] + old(buf[at + 1..BUFLEN - 1])
  {
    buf[at] := DigitChar(temp, upper);
  }

  /** The digits of what is left of a number, none when that is zero. */
  function DigitsAbove(n: nat, radix: nat, upper: bool): string
    requires 2 <= radix <= 16
  {
    if n == 0 then "" else Digits(n, radix, upper)
  }

  lemma MoreDigits(num: nat, radix: nat, upper: bool, done: string)
    requires radix == 8 || radix == 10 || radix == 16
    ensures Digits(num, radix, upper) + done ==
      DigitsAbove(num / radix, radix, upper) + ([DigitChar(num % radix, upper)] + done)
    ensures num / radix != 0 ==> DigitsAbove(num / radix, radix, upper) == Digits(num / radix, radix, upper)
    ensures num / radix == 0 ==>
      DigitsAbove(num / radix, radix, upper) + ([DigitChar(num % radix, upper)] + done)
      == [DigitChar(num % radix, upper)] + done
  {
    hide Digits, DigitChar;
    DigitsStep(num, radix, upper);
    Euclid(num, radix);
    assert DigitsAbove(num / radix, radix, upper) == if num < radix then [] else Digits(num / radix, radix, upper) by {
      if num >= radix {
        AtLeastOne(num, radix);
      }
    }
    OneMore(DigitsAbove(num / radix, radix, upper), DigitChar(num % radix, upper), done);
  }

  lemma AtLeastOne(num: nat, radix: nat)
    requires 0 < radix <= num
    ensures num / radix >= 1
  {}

  lemma OneMore(front: string, c: char, done: string)
    ensures front + [c] + done == front + ([c] + done)
    ensures [] + ([c] + done) == [c] + done
  {}

  lemma BelowCap(n: nat)
    requires n < TWO32
    ensures n <= Cap(0)
  {}

  /** Everything in front of the text: a sign before zeroes, but after blanks. */
  method EmitFront(negative: bool, left: bool, zero: bool, width: nat, actual: nat)
    returns (out: string, givenWd: nat)
    ensures givenWd == if left || width <= actual then width else actual
    ensures var sign := if negative then "-" else ""; var pad := width - givenWd;
      out == if zero then sign + Fill('0', pad) else Fill(' ', pad) + sign
  {
    givenWd := width;
    out := "";
    if negative && zero {
      out := out + "-";
    }
    ghost var start := out;
    if !left {
      while givenWd > actual
        invariant width >= givenWd && (givenWd == width || givenWd >= actual)
        invariant out == start + Fill(if zero then '0' else ' ', width - givenWd)
      {
        out := out + [if zero then '0' else ' '];
        givenWd := givenWd - 1;
      }
    }
    if negative && !zero {
      out := out + "-";
    }
  }

  /** EMIT: sign, padding and text in the order the flags ask for. */
  method EmitField(where: string, negative: bool, left: bool, zero: bool, width: nat, actual: nat, ghost item: Item)
    returns (out: string)
    requires item.Conv? && item.left == left && item.zero == zero && item.width == width
    ensures out == Field(if negative then "-" else "", where, actual, item)
  {
    hide Field;
    var givenWd;
    out, givenWd := EmitFront(negative, left, zero, width, actual);
    ghost var front := out;
    var i := 0;
    while i < |where|
      invariant 0 <= i <= |where| && out == front + where[..i]
    {
      out := out + [where[i]];
      i := i + 1;
    }
    givenWd := if givenWd < actual then 0 else givenWd - actual;
    FieldShape(negative, where, actual, item, front, givenWd);
    ghost var pad := givenWd;
    while givenWd != 0
      invariant 0 <= givenWd <= pad && out == front + where + Fill(' ', pad - givenWd)
      decreases givenWd
    {
      out := out + " ";
      givenWd := givenWd - 1;
    }
  }

  lemma FieldShape(negative: bool, where: string, actual: nat, i: Item, front: string, pad: nat)
    requires i.Conv? && pad == (if i.left && i.width > actual then i.width - actual else 0)
    requires var sign := if negative then "-" else "";
      var more := if i.left || i.width <= actual then 0 else i.width - actual;
      front == if i.zero then sign + Fill('0', more) else Fill(' ', more) + sign
    ensures front + where + Fill(' ', pad) == Field(if negative then "-" else "", where, actual, i)
  {}

  /** The conversion characters: the item's text, from the next argument when it takes one. */
  method Convert(item: Item, args: seq<Arg>, next: nat) returns (text: Option<string>, used: nat)
    requires item.Conv? && next <= |args|
    requires forall a :: a in args && a.Num? ==> a.u < TWO32
    ensures text == RenderOne(item, args[next..])
    ensures text.Some? ==> used == next + (if KindOf(item) == NoArg then 0 else 1) <= |args|
  {
    used := next;
    if Numeric(item.conv) {
      if next == |args| || !args[next].Num? {
        return None, next;
      }
      var t := ConvertNumber(item, args[next].u);
      return Some(t), next + 1;
    } else if item.conv == 'c' {
      if next == |args| || !args[next].Num? {
        return None, next;
      }
      var c := (args[next].u % 0x100) as char;
      var t := EmitField(if c == NUL then "" else [c], false, item.left, false, item.width, 1, item.(zero := false));
      return Some(t), next + 1;
    } else if item.conv == 's' {
      if next == |args| || !args[next].Str? {
        return None, next;
      }
      var s := args[next].s;
      var t := EmitField(s, false, item.left, false, item.width, |s|, item.(zero := false));
      return Some(t), next + 1;
    }
    return Some(""), next;
  }

  method ConvertNumber(item: Item, u: nat) returns (text: string)
    requires item.Conv? && u < TWO32
    ensures text == NumberText(item, u)
  {
    var negative := Signed(item.conv) && u >= 0x8000_0000;
    var num := if negative then TWO32 - u else u;
    var where := ConvertDigits(num, Radix(item.conv), item.conv == 'X');
    var actual := |where| + if negative then 1 else 0;
    text := EmitField(where, negative, item.left, item.zero, item.width, actual, item);
  }

  // ---- the scanner ----

  /** The scanner's variables between two characters of the format. */
  datatype Scan = Scan(state: nat, left: bool, zero: bool, width: nat)

  const IDLE := Scan(0, false, false, 0)

  /** What the rest of the format parses to from such a state. */
  ghost function ParseFrom(k: Scan, s: string): Option<seq<Item>> {
    if k.state == 0 then Parse(s)
    else if k.state == 1 then ParseFlags(s, k.left)
    else if k.state == 2 then ParseWidth(s, k.left, k.zero, k.width)
    else ParseModifiers(s, k.left, k.zero, k.width)
  }

  /** The outcome of one turn of the loop: an item when one is complete, the state and position after,
      or having stepped over the end of the string. */
  datatype Turn = Turn(item: Option<Item>, k: Scan, next: nat) | Overrun

  ghost function Onto(item: Option<Item>, rest: Option<seq<Item>>): Option<seq<Item>> {
    if item == None then rest else Prefix(item.value, rest)
  }

  ghost predicate Tidy(k: Scan) {
    k.state <= 3 && (k.state == 0 ==> k == IDLE) && (k.state == 1 ==> !k.zero && k.width == 0)
  }

  /** One turn of the loop, the states falling through from each to the next. */
  method TakeTurn(fmt: string, i: nat, k0: Scan) returns (t: Turn)
    requires i < |fmt| && Tidy(k0)
    ensures t.Overrun? ==> ParseFrom(k0, fmt[i..]) == None
    ensures t.Turn? ==> i < t.next <= |fmt| && Tidy(t.k)
    ensures t.Turn? ==> ParseFrom(k0, fmt[i..]) == Onto(t.item, ParseFrom(t.k, fmt[t.next..]))
  {
    var k, at := k0, i;
    if k.state == 0 {
      if fmt[at] != '%' {
        return Turn(Some(Lit(fmt[at])), IDLE, at + 1);
      }
      k := k.(state := 1);
      at := at + 1;
      if at == |fmt| {
        return Overrun;  // the NUL is taken for a conversion character, and the loop steps over it
      }
    }
    ghost var at1 := at;
    assert ParseFrom(k0, fmt[i..]) == ParseFrom(k, fmt[at..]);
    if k.state == 1 {
      if fmt[at] == '%' {
        return Turn(Some(Lit('%')), IDLE, at + 1);
      }
      if fmt[at] == '-' {
        return Turn(None, if k.left then IDLE else k.(left := true), at + 1);
      }
      k := k.(state := 2);
      if fmt[at] == '0' {
        k := k.(zero := true);
        at := at + 1;
        if at == |fmt| {
          return Overrun;
        }
      }
    }
    assert ParseFrom(k0, fmt[i..]) == ParseFrom(k, fmt[at..]);
    if k.state == 2 {
      if IsDigit(fmt[at]) {
        return Turn(None, k.(width := (10 * k.width + (fmt[at] - '0') as nat) % TWO32), at + 1);
      }
      k := k.(state := 3);
    }
    assert ParseFrom(k0, fmt[i..]) == ParseFrom(k, fmt[at..]);
    if fmt[at] in {'F', 'N', 'l', 'h'} {
      return Turn(None, k, at + 1);
    }
    return Turn(Some(Conv(k.left, k.zero, k.width, fmt[at])), IDLE, at + 1);
  }

  /** The items found so far, and what is still to come. */
  ghost function Whole(done: seq<Item>, rest: Option<seq<Item>>): Option<seq<Item>> {
    match rest case None => None case Some(items) => Some(done + items)
  }

  lemma WholeOnto(done: seq<Item>, item: Option<Item>, rest: Option<seq<Item>>)
    ensures Whole(done, Onto(item, rest)) == Whole(if item == None then done else done + [item.value], rest)
    ensures Whole(done, None) == None && Whole(done, Some([])) == Some(done) && Whole([], rest) == rest
  {
    assert done + [] == done;
    if rest.Some? {
      assert [] + rest.value == rest.value;
    }
    if rest.Some? && item.Some? {
      assert done + ([item.value] + rest.value) == done + [item.value] + rest.value;
    }
  }

  /** do_printf: emits exactly what the format and the arguments mean, and returns how many characters
      that is. `ok` is false where the C code's behaviour is undefined. */
  method DoPrintf(fmt: string, args: seq<Arg>) returns (out: string, count: nat, ok: bool)
    requires forall a :: a in args && a.Num? ==> a.u < TWO32
    ensures ok <==> Format(fmt, args).Some?
    ensures ok ==> Format(fmt, args) == Some(out) && count == |out|
  {
    hide Parse, ParseFrom, Onto, Whole, Render, RenderOne, KindOf, Needs, Left;
    out, count := "", 0;
    var i, k, next := 0, IDLE, 0;
    ghost var done: seq<Item> := [];
    Starts(fmt, args);
    while i < |fmt|
      invariant 0 <= i <= |fmt| && Tidy(k)
      invariant Parse(fmt) == Whole(done, ParseFrom(k, fmt[i..]))
      invariant Render(done, args) == Some(out) && count == |out|
      invariant next == |Needs(done)| <= |args| && Left(done, args) == args[next..]
    {
      var t := TakeTurn(fmt, i, k);
      if t.Overrun? {
        WholeOnto(done, None, None);
        return out, count, false;
      }
      WholeOnto(done, t.item, ParseFrom(t.k, fmt[t.next..]));
      if t.item.Some? {
        var text;
        text, next := RenderItem(t.item.value, args, next);
        NextItem(done, t.item.value, args, fmt, ParseFrom(t.k, fmt[t.next..]));
        if text == None {
          return out, count, false;
        }
        out, count := out + text.value, count + |text.value|;
        done := done + [t.item.value];
      }
      i, k := t.next, t.k;
    }
    Ends(k, fmt[i..]);
    WholeOnto(done, None, None);
    ok := true;
  }

  method RenderItem(item: Item, args: seq<Arg>, next: nat) returns (text: Option<string>, used: nat)
    requires next <= |args|
    requires forall a :: a in args && a.Num? ==> a.u < TWO32
    ensures text == RenderOne(item, args[next..])
    ensures text.Some? ==> used == next + (if KindOf(item) == NoArg then 0 else 1) <= |args|
  {
    if item.Lit? {
      return Some([item.c]), next;
    }
    text, used := Convert(item, args, next);
  }

  lemma Starts(fmt: string, args: seq<Arg>)
    ensures Parse(fmt) == Whole([], ParseFrom(IDLE, fmt[0..]))
    ensures Render([], args) == Some("") && Needs([]) == [] && Left([], args) == args[0..]
  {
    assert fmt[0..] == fmt;
    WholeOnto([], None, Parse(fmt));
  }

  /** In every state the end of the string ends the parse. */
  lemma Ends(k: Scan, s: string)
    requires s == ""
    ensures ParseFrom(k, s) == Some([])
  {}

  /** One more item: rendered from the next argument, or the whole format cannot be. */
  lemma NextItem(done: seq<Item>, item: Item, args: seq<Arg>, fmt: string, rest: Option<seq<Item>>)
    requires Render(done, args).Some? && Parse(fmt) == Whole(done + [item], rest)
    ensures Needs(done + [item]) == Needs(done) + if KindOf(item) == NoArg then [] else [KindOf(item)]
    ensures RenderOne(item, Left(done, args)) == None ==> Format(fmt, args) == None
    ensures RenderOne(item, Left(done, args)).Some? ==>
      Render(done + [item], args) == Some(Render(done, args).value + RenderOne(item, Left(done, args)).value)
    ensures |Needs(done + [item])| <= |args| ==> Left(done + [item], args) == args[|Needs(done + [item])|..]
  {
    hide RenderOne, KindOf, Render;
    NeedsSnoc(done, item);
    RenderSnoc(done, item, args);
    if RenderOne(item, Left(done, args)) == None && rest.Some? {
      RenderStuck(done + [item], rest.value, args);
    }
  }

  /** vsprintf: the text, with its NUL right after the last character. */
  method VSprintf(buf: array<char>, fmt: string, args: seq<Arg>) returns (rv: nat, ok: bool)
    requires forall a :: a in args && a.Num? ==> a.u < TWO32
    requires Format(fmt, args).Some? ==> |Format(fmt, args).value| < buf.Length
    modifies buf
    ensures ok <==> Format(fmt, args).Some?
    ensures ok ==> rv == |Format(fmt, args).value| && buf[..rv] == Format(fmt, args).value && buf[rv] == NUL
    ensures ok ==> forall j :: rv < j < buf.Length ==> buf[j] == old(buf[j])
  {
    hide Format;
    var out;
    out, rv, ok := DoPrintf(fmt, args);
    if !ok {
      return;
    }
    for i := 0 to rv
      invariant buf[..i] == out[..i]
      invariant forall j :: i <= j < buf.Length ==> buf[j] == old(buf[j])
    {
      buf[i] := out[i];
    }
    buf[rv] := NUL;
  }
}
