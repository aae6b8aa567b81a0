/** The text console, kernel/console/console.c: an 80x25 buffer that scrolls in place, against an
    unbounded terminal that keeps every row. */
module Console {
  import opened Words

  const VGA_WIDTH: nat := 80
  const VGA_HEIGHT: nat := 25
  const ROW: nat := 160   // bytes of a row: a character and a colour for each column

  const NEWLINE: byte := 10
  const RETURN: byte := 13
  const TAB: byte := 9
  const BLANK: byte := 32
  const ZERO: byte := 48
  const MINUS: byte := 45

  // ----- the unbounded terminal -----

  /** All rows ever shown, and the cursor; the screen is the last 25 rows. */
  datatype Terminal = Terminal(rows: seq<seq<byte>>, x: nat, y: nat) {
    ghost predicate Ok() {
      && |rows| >= VGA_HEIGHT && (forall r :: 0 <= r < |rows| ==> |rows[r]| == ROW)
      && x < VGA_WIDTH && |rows| - VGA_HEIGHT <= y < |rows|
    }
  }

  /** A row of spaces, light on black. */
  function BlankRow(): (r: seq<byte>)
    ensures |r| == ROW && forall j: nat :: j < 80 ==> r[2 * j] == 32 && r[2 * j + 1] == 0x0F
  {
    seq(ROW, j => if j % 2 == 0 then BLANK else 0x0F)
  }

  function WithCell(row: seq<byte>, x: nat, c: byte, colour: byte): (r: seq<byte>)
    requires x < VGA_WIDTH && |row| == ROW
    ensures |r| == ROW
  {
    row[2 * x := c][2 * x + 1 := colour]
  }

  /** One character on the terminal. */
  function Put(t: Terminal, c: byte, colour: byte): Terminal
    requires t.Ok()
  {
    Settle(if c == NEWLINE then t.(x := 0, y := t.y + 1)
           else if c == RETURN then t.(x := 0)
           else if c == TAB then t.(x := (t.x + 8) / 8 * 8)
           else t.(rows := t.rows[t.y := WithCell(t.rows[t.y], t.x, c, colour)], x := t.x + 1))
  }

  /** Wrap at the right edge, and open a new row at the bottom. */
  function Settle(t: Terminal): Terminal {
    var w := if t.x >= VGA_WIDTH then t.(x := 0, y := t.y + 1) else t;
    if w.y >= |w.rows| then w.(rows := w.rows + [BlankRow()]) else w
  }

  /** What one character does: where the cursor goes, and that no cell changes but the one a printed
      character fills and those of a new row, which is blank. */
  lemma PutIs(t: Terminal, c: byte, colour: byte)
    requires t.Ok()
    ensures var u := Put(t, c, colour);
      && (c == 10 ==> u.x == 0 && u.y == t.y + 1)
      && (c == 13 ==> u.x == 0 && u.y == t.y)
      && (c == 9 ==> if t.x < 72 then t.x < u.x <= t.x + 8 && u.x % 8 == 0 && u.y == t.y else u.x == 0 && u.y == t.y + 1)
      && (c !in {9, 10, 13} ==> if t.x < 79 then u.x == t.x + 1 && u.y == t.y else u.x == 0 && u.y == t.y + 1)
      && |u.rows| == (if u.y < |t.rows| then |t.rows| else |t.rows| + 1)
      && (forall r: nat, j: nat :: r < |u.rows| && j < 160 ==>
            |u.rows[r]| == 160 &&
            u.rows[r][j] == if r == |t.rows| then (if j % 2 == 0 then 32 else 0x0F)
                            else if c !in {9, 10, 13} && r == t.y && j / 2 == t.x then (if j % 2 == 0 then c else colour)
                            else t.rows[r][j])
  {
    PutOk(t, c, colour);
  }

  lemma PutOk(t: Terminal, c: byte, colour: byte)
    requires t.Ok()
    ensures Put(t, c, colour).Ok()
  {
  }

  /** A string on the terminal. */
  ghost function Feed(t: Terminal, s: seq<byte>, colour: byte): (r: Terminal)
    requires t.Ok()
    ensures r.Ok()
    decreases |s|
  {
    if s == [] then t
    else
      var u := Feed(t, s[..|s| - 1], colour);
      PutOk(u, s[|s| - 1], colour);
      Put(u, s[|s| - 1], colour)
  }

  lemma {:induction false} FeedConcat(t: Terminal, a: seq<byte>, b: seq<byte>, colour: byte)
    requires t.Ok()
    ensures Feed(t, a + b, colour) == Feed(Feed(t, a, colour), b, colour)
    decreases |b|
  {
    if b == [] {
      assert a + b == a;
    } else {
      var n := |b| - 1;
      FeedConcat(t, a, b[..n], colour);
      assert (a + b)[..|a + b| - 1] == a + b[..n];
    }
  }

  /** Whatever is printed, rows above the cursor never change again, and rows are only added. */
  lemma {:induction false} HistoryKept(t: Terminal, s: seq<byte>, colour: byte)
    requires t.Ok()
    ensures var u := Feed(t, s, colour);
      |t.rows| <= |u.rows| && t.y <= u.y && u.rows[..t.y] == t.rows[..t.y]
    decreases |s|
  {
    hide BlankRow, WithCell;
    if s != [] {
      var n := |s| - 1;
      HistoryKept(t, s[..n], colour);
      var u := Feed(t, s[..n], colour);
      assert Put(u, s[n], colour).rows[..u.y] == u.rows[..u.y];
    }
  }

  // ----- the screen -----

  /** The cursor goes to the start of the next row; at the bottom, all rows move up and the last is
      blank. */
  ghost predicate NextRow(v: seq<byte>, y: nat, v': seq<byte>, x': nat, y': nat) {
    && x' == 0
    && if y < 24 then y' == y + 1 && v' == v
       else y' == 24 && |v'| == |v| == 4000 && v'[..3840] == v[160..] &&
            forall j: nat :: j < 80 ==> v'[3840 + 2 * j] == 32 && v'[3840 + 2 * j + 1] == 0x0F
  }

  /** What one character does to the buffer and the cursor. */
  ghost predicate PutEffect(v: seq<byte>, x: nat, y: nat, c: byte, colour: byte, v': seq<byte>, x': nat, y': nat)
    requires |v| == 4000 && x < 80 && y < 25
  {
    match c
    case 10 => NextRow(v, y, v', x', y')
    case 13 => v' == v && x' == 0 && y' == y
    case 9 => if x < 72 then v' == v && y' == y && x < x' <= x + 8 && x' % 8 == 0 else NextRow(v, y, v', x', y')
    case _ =>
      var w := v[160 * y + 2 * x := c][160 * y + 2 * x + 1 := colour];
      if x < 79 then v' == w && x' == x + 1 && y' == y else NextRow(w, y, v', x', y')
  }

  /** Row r of the buffer. */
  function RowOf(v: seq<byte>, r: nat): seq<byte>
    requires |v| == ROW * VGA_HEIGHT && r < VGA_HEIGHT
  {
    v[ROW * r..ROW * r + ROW]
  }

  /** The 4000 bytes of the buffer are the last 25 rows. */
  ghost predicate Shows(v: seq<byte>, rows: seq<seq<byte>>) {
    && |v| == ROW * VGA_HEIGHT && |rows| >= VGA_HEIGHT
    && forall r: nat :: r < VGA_HEIGHT ==> RowOf(v, r) == rows[|rows| - VGA_HEIGHT + r]
  }

  class Screen {
    const vga: array<byte>
    var cursorX: nat
    var cursorY: nat
    ghost var term: Terminal

    ghost predicate Valid()
      reads this, vga
    {
      && term.Ok() && vga.Length == ROW * VGA_HEIGHT && Shows(vga[..], term.rows)
      && cursorX == term.x && cursorY == term.y - (|term.rows| - VGA_HEIGHT)
    }

    constructor (vga: array<byte>, x: nat, y: nat)
      requires vga.Length == 4000 && x < VGA_WIDTH && y < VGA_HEIGHT
      ensures Valid() && this.vga == vga && cursorX == x && cursorY == y && |term.rows| == VGA_HEIGHT
    {
      this.vga := vga;
      cursorX, cursorY := x, y;
      ghost var v := vga[..];
      term := Terminal(seq(VGA_HEIGHT, r requires 0 <= r < VGA_HEIGHT => RowOf(v, r)), x, y);
    }

    method PutcAt(x: nat, y: nat, c: byte, colour: byte)
      requires x < VGA_WIDTH && y < VGA_HEIGHT && vga.Length == ROW * VGA_HEIGHT
      modifies vga
      ensures vga[..] == old(vga[..])[ROW * y + 2 * x := c][ROW * y + 2 * x + 1 := colour]
    {
      var i := (y * VGA_WIDTH + x) * 2;
      vga[i] := c;
      vga[i + 1] := colour;
    }

    /** Moves every row up by one, in place, and blanks the last. */
    method Scroll()
      requires vga.Length == ROW * VGA_HEIGHT
      modifies vga, this`cursorY
      ensures vga[..] == old(vga[..])[ROW..] + BlankRow()
      ensures cursorY == VGA_HEIGHT - 1
    {
      ghost var v := vga[..];
      NothingMoved(v);
      for y := 1 to VGA_HEIGHT
        modifies vga
        invariant vga[..] == MovedUp(v, ROW * (y - 1))
      {
        MoveRowUp(v, y);
      }
      AllMoved(v);
      BlankLastRow(v);
      cursorY := VGA_HEIGHT - 1;
    }

    /** One round of the first loop: row y is copied to row y - 1. */
    method MoveRowUp(ghost v: seq<byte>, y: nat)
      requires 1 <= y < VGA_HEIGHT && |v| == vga.Length == ROW * VGA_HEIGHT
      requires vga[..] == MovedUp(v, ROW * (y - 1))
      modifies vga
      ensures vga[..] == MovedUp(v, ROW * y)
    {
      hide MovedUp;
      for x := 0 to VGA_WIDTH
        invariant vga[..] == MovedUp(v, ROW * (y - 1) + 2 * x)
      {
        var from := (y * VGA_WIDTH + x) * 2;
        var to := ((y - 1) * VGA_WIDTH + x) * 2;
        ghost var w := vga[..];
        MoveCell(v, to);
        vga[to] := vga[from];
        vga[to + 1] := vga[from + 1];
        assert vga[..] == w[to := w[from]][to + 1 := w[from + 1]];
      }
    }

    /** The second loop of scroll. */
    method BlankLastRow(ghost v: seq<byte>)
      requires |v| == vga.Length == ROW * VGA_HEIGHT
      requires vga[..] == Blanked(v, 0)
      modifies vga
      ensures vga[..] == v[ROW..] + BlankRow()
    {
      hide Blanked, BlankRow;
      for x := 0 to VGA_WIDTH
        invariant vga[..] == Blanked(v, 2 * x)
      {
        BlankCell(v, 2 * x);
        PutcAt(x, VGA_HEIGHT - 1, BLANK, 0x0F);
      }
      AllBlanked(v);
    }

    /** putc: afterwards the screen shows the end of the terminal that got the same character. */
    method Putc(c: byte, colour: byte)
      requires Valid()
      modifies this, vga
      ensures PutEffect(old(vga[..]), old(cursorX), old(cursorY), c, colour, vga[..], cursorX, cursorY)
      ensures Valid() && term == Put(old(term), c, colour)
    {
      hide Shows, BlankRow, WithCell, And;
      ghost var t := term;
      ghost var rows := t.rows;
      if c == NEWLINE {
        cursorX := 0;
        cursorY := cursorY + 1;
      } else if c == RETURN {
        cursorX := 0;
      } else if c == TAB {
        TabStop(cursorX);
        cursorX := And(cursorX + 8, Not64(7));
      } else {
        PutcAt(cursorX, cursorY, c, colour);
        rows := rows[t.y := WithCell(rows[t.y], t.x, c, colour)];
        CellShown(old(vga[..]), t, c, colour);
        cursorX := cursorX + 1;
      }
      if cursorX >= VGA_WIDTH {
        cursorX := 0;
        cursorY := cursorY + 1;
      }
      if cursorY >= VGA_HEIGHT {
        ScrollShown(vga[..], rows);
        Scroll();
      }
      PutOk(t, c, colour);
      term := Put(t, c, colour);
    }

    /** puts_col: prints up to the terminating zero. */
    method PutsCol(s: seq<byte>, colour: byte)
      requires Valid() && 0 in s
      modifies this, vga
      ensures Valid() && exists n: nat :: n < |s| && s[n] == 0 && 0 !in s[..n] && term == Feed(old(term), s[..n], colour)
    {
      hide PutEffect;
      var i := 0;
      while s[i] != 0
        invariant 0 <= i < |s| && 0 !in s[..i] && 0 in s[i..]
        decreases |s| - i
        invariant Valid() && term == Feed(old(term), s[..i], colour)
      {
        Putc(s[i], colour);
        assert s[..i + 1][..i] == s[..i];
        i := i + 1;
      }
    }

    lemma TermOk()
      requires Valid()
      ensures term.Ok()
    {
    }

    /** print_uint: the digits go into a buffer of 32 from the right, and out from the left. */
    method PrintUint(value: word, base: nat, colour: byte)
      requires Valid() && 4 <= base <= 36
      modifies this, vga
      ensures Valid() && term == Feed(old(term), Numeral(value, base), colour)
    {
      hide Screen.Valid, Terminal.Ok, Put, PutEffect, Digits, Feed, Reversed;
      TermOk();
      if value == 0 {
        FeedOne(term, ZERO, colour);
        Putc(ZERO, colour);
        return;
      }
      var buf := new byte[32];
      var n := FillDigits(buf, value, base);
      PutBack(buf, n, colour);
    }

    /** Its last loop: the characters go out in reverse. */
    method PutBack(buf: array<byte>, n: nat, colour: byte)
      requires Valid() && n <= buf.Length && buf != vga
      modifies this, vga
      ensures Valid() && term == Feed(old(term), Reversed(buf[..n]), colour)
    {
      hide Screen.Valid, Terminal.Ok, Put, PutEffect, Feed, Reversed;
      TermOk();
      ghost var all := buf[..n];
      FeedNone(term, colour);
      var i := n;
      assert all[n..] == [];
      while i > 0
        invariant 0 <= i <= n && buf[..n] == all
        invariant Valid() && term == Feed(old(term), Reversed(all[i..]), colour)
      {
        i := i - 1;
        ReversedCons(all, i);
        FeedMore(old(term), Reversed(all[i + 1..]), all[i], colour);
        assert buf[i] == all[i];
        Putc(buf[i], colour);
      }
      assert all[0..] == all;
    }

    /** The filling loop of print_uint. */
    static method FillDigits(buf: array<byte>, value: word, base: nat) returns (i: nat)
      requires buf.Length == 32 && value > 0 && 4 <= base <= 36
      modifies buf
      ensures i <= 32 && Reversed(buf[..i]) == Digits(value, base)
    {
      hide DigitChar, Digits, Reversed;
      i := 0;
      var v := value;
      FillStart(value, base);
      while v > 0
        invariant 0 <= i <= 32 && 0 <= v < FourTo(32 - i)
        invariant Digits(value, base) == Digits(v, base) + Reversed(buf[..i])
        decreases v
      {
        QuotientBelow(v, base, FourTo(32 - i));
        DigitsStep(v, base, Reversed(buf[..i]));
        ghost var done := buf[..i];
        var digit := v % base;
        buf[i] := DigitChar(digit);
        assert buf[..i + 1] == done + [DigitChar(digit)];
        ReversedSnoc(done, DigitChar(digit));
        i := i + 1;
        v := v / base;
      }
      NoDigits(base, Reversed(buf[..i]));
    }

    /** print_int: also right for the least 64-bit number, whose absolute value does not fit. */
    method PrintInt(value: int, colour: byte)
      requires Valid() && -0x8000_0000_0000_0000 <= value < 0x8000_0000_0000_0000
      modifies this, vga
      ensures Valid() && term == Feed(old(term), IntText(value), colour)
    {
      hide Screen.Valid, Terminal.Ok, Put, PutEffect, Numeral;
      TermOk();
      if value < 0 {
        FeedOne(term, MINUS, colour);
        Putc(MINUS, colour);
        var abs := -(value + 1) + 1;
        PrintUint(abs, 10, colour);
        FeedConcat(old(term), [MINUS], Numeral(abs, 10), colour);
      } else {
        PrintUint(value, 10, colour);
      }
    }

    /** print_hex: the low `width` nibbles, most significant first. */
    method PrintHex(value: word, width: nat, colour: byte)
      requires Valid() && width <= 16
      modifies this, vga
      ensures Valid() && term == Feed(old(term), HexText(value, width), colour)
    {
      hide Screen.Valid, Terminal.Ok, Put, PutEffect, And, Shr, DigitChar;
      TermOk();
      NoShift(value);
      var i := width;
      NoHex(value, width);
      while i > 0
        invariant 0 <= i <= width
        invariant Valid() && term == Feed(old(term), HexText(Shr(value, 4 * i), width - i), colour)
      {
        i := i - 1;
        HexStep(value, i);
        var digit := And(Shr(value, i * 4), 0xF);
        FeedMore(old(term), HexText(Shr(value, 4 * i) / 16, width - i - 1), DigitChar(digit), colour);
        Putc(DigitChar(digit), colour);
      }
    }
  }

  // ----- numbers -----

  function DigitChar(d: nat): byte
    requires d < 36
  {
    if d < 10 then 48 + d else 97 + d - 10
  }

  lemma DigitChars(d: nat)
    requires d < 36
    ensures DigitChar(d) == "0123456789abcdefghijklmnopqrstuvwxyz"[d] as int
  {
  }

  /** The digit that a character stands for: 0 to 9 and a to z only. */
  function DigitValue(c: byte): int {
    if '0' as int <= c <= '9' as int then c - '0' as int
    else if 'a' as int <= c <= 'z' as int then c - 'a' as int + 10
    else -1
  }

  /** The string is a number as people write it: digits of the base only, and no needless zero in
      front. */
  ghost predicate IsNumeral(s: seq<byte>, base: nat) {
    s != [] && AllDigits(s, base) && (s[0] == '0' as int ==> |s| == 1)
  }

  ghost predicate AllDigits(s: seq<byte>, base: nat) {
    forall i :: 0 <= i < |s| ==> 0 <= DigitValue(s[i]) < base
  }

  /** The digits of a positive number, most significant first. */
  function Digits(v: nat, base: nat): seq<byte>
    requires 2 <= base <= 36
  {
    if v == 0 then [] else DivSmaller(v, base); Digits(v / base, base) + [DigitChar(v % base)]
  }

  function Numeral(v: nat, base: nat): seq<byte>
    requires 2 <= base <= 36
  {
    if v == 0 then [ZERO] else Digits(v, base)
  }

  function IntText(v: int): seq<byte> {
    if v < 0 then [MINUS] + Numeral(-v, 10) else Numeral(v, 10)
  }

  function HexText(v: nat, width: nat): seq<byte>
    decreases width
  {
    if width == 0 then [] else HexText(v / 16, width - 1) + [DigitChar(v % 16)]
  }

  /** The number that a string of digits denotes. */
  function Value(s: seq<byte>, base: nat): int {
    if s == [] then 0 else Value(s[..|s| - 1], base) * base + DigitValue(s[|s| - 1])
  }

  function IntValue(s: seq<byte>): int {
    if s != [] && s[0] == '-' as int then -Value(s[1..], 10) else Value(s, 10)
  }

  lemma DivSmaller(v: nat, base: nat)
    requires v > 0 && base >= 2
    ensures 0 <= v / base < v && v == v / base * base + v % base && v % base < base
  {
    var q := v / base;
    assert v == q * base + v % base;
    if q >= v { MulAtLeast(q, v, base); }
  }

  lemma MulAtLeast(q: nat, v: nat, base: nat)
    requires q >= v > 0 && base >= 2
    ensures q * base > v
  {
  }

  /** What print_uint emits is a proper numeral, and decoding it gives back the number, in every base. */
  lemma NumeralRoundTrip(v: nat, base: nat)
    requires 2 <= base <= 36
    ensures IsNumeral(Numeral(v, base), base) && Value(Numeral(v, base), base) == v
  {
    if v == 0 {
      assert [ZERO][..0] == [];
    } else {
      DigitsRoundTrip(v, base);
      DigitsProper(v, base);
    }
  }

  lemma {:induction false} DigitsProper(v: nat, base: nat)
    requires 2 <= base <= 36
    ensures AllDigits(Digits(v, base), base) && (v > 0 ==> Digits(v, base) != [] && Digits(v, base)[0] != '0' as int)
    decreases v
  {
    if v > 0 {
      DivSmaller(v, base);
      DigitsProper(v / base, base);
      DigitRange(v % base);
    }
  }

  lemma DigitRange(d: nat)
    requires d < 36
    ensures DigitValue(DigitChar(d)) == d && (DigitChar(d) == '0' as int <==> d == 0)
  {
  }

  /** There is no other proper numeral for the number. */
  lemma {:induction false} OneNumeral(s: seq<byte>, base: nat)
    requires 2 <= base <= 36 && IsNumeral(s, base)
    ensures Value(s, base) >= 0 && Numeral(Value(s, base), base) == s
    decreases |s|
  {
    var n := |s| - 1;
    if n == 0 {
      assert s[..0] == [];
      OneDigit(s[0], base);
    } else {
      OneNumeral(s[..n], base);
      var q := Value(s[..n], base);
      assert s[..n][0] == s[0];
      assert q > 0;
      LastDigit(q, base, DigitValue(s[n]));
      CharOf(s[n]);
      assert s == s[..n] + [s[n]];
    }
  }

  lemma CharOf(c: byte)
    requires 0 <= DigitValue(c) < 36
    ensures DigitChar(DigitValue(c)) == c
  {
  }

  lemma OneDigit(c: byte, base: nat)
    requires 2 <= base <= 36 && 0 <= DigitValue(c) < base
    ensures Value([c], base) == DigitValue(c) && Numeral(DigitValue(c), base) == [c]
  {
    assert [c][..0] == [];
    CharOf(c);
    var d := DigitValue(c);
    if d > 0 {
      DivIs(d, base, 0, d);
      assert Digits(d, base) == Digits(0, base) + [c];
    }
  }

  lemma LastDigit(q: nat, base: nat, d: nat)
    requires 2 <= base <= 36 && d < base
    ensures (q * base + d) / base == q && (q * base + d) % base == d && (q > 0 ==> q * base + d > 0)
  {
    DivIs(q * base + d, base, q, d);
    if q > 0 { MulAtLeastOne(base, q); }
  }

  lemma {:induction false} DigitsRoundTrip(v: nat, base: nat)
    requires 2 <= base <= 36
    ensures Value(Digits(v, base), base) == v
    decreases v
  {
    if v > 0 {
      DivSmaller(v, base);
      DigitsRoundTrip(v / base, base);
      var s := Digits(v, base);
      assert s[..|s| - 1] == Digits(v / base, base);
      DigitRange(v % base);
    }
  }

  /** What print_int emits is a proper numeral, with a minus sign exactly for a negative number, and
      decoding it gives back the number, the least one included. */
  lemma IntRoundTrip(v: int)
    ensures IntValue(IntText(v)) == v
    ensures if v < 0 then IntText(v) != [] && IntText(v)[0] == '-' as int && IsNumeral(IntText(v)[1..], 10) else IsNumeral(IntText(v), 10)
  {
    if v < 0 {
      NumeralRoundTrip(-v, 10);
      assert IntText(v)[1..] == Numeral(-v, 10);
    } else {
      NumeralRoundTrip(v, 10);
    }
  }

  /** Sixteen nibbles hold a whole word, so decoding what `%p` and `%lx` emit gives it back. */
  lemma HexRoundTrip(v: word)
    ensures Value(HexText(v, 16), 16) == v && |HexText(v, 16)| == 16 && AllDigits(HexText(v, 16), 16)
  {
    hide HexText, Value, AllDigits, SixteenTo;
    SixteenTo16();
    HexValue(v, 16);
  }

  /** In general, what is emitted is `width` digits, leading zeros included, for the number's remainder. */
  lemma {:induction false} HexValue(v: nat, width: nat)
    ensures |HexText(v, width)| == width && AllDigits(HexText(v, width), 16)
    ensures SixteenTo(width) > 0 && Value(HexText(v, width), 16) == v % SixteenTo(width)
    decreases width
  {
    if width > 0 {
      HexValue(v / 16, width - 1);
      var s := HexText(v, width);
      assert s[..|s| - 1] == HexText(v / 16, width - 1);
      DigitRange(v % 16);
      NibbleOff(v, SixteenTo(width - 1));
      hide DigitChar;
    }
  }

  lemma NibbleOff(v: nat, m: nat)
    requires m > 0
    ensures v % (16 * m) == 16 * (v / 16 % m) + v % 16
  {
    var q, r := v / 16 / m, v / 16 % m;
    assert v / 16 == m * q + r;
    assert v == q * (16 * m) + (16 * r + v % 16);
    DivIs(v, 16 * m, q, 16 * r + v % 16);
  }

  lemma DivIs(v: nat, m: nat, q: nat, r: nat)
    requires v == q * m + r && r < m
    ensures v / m == q && v % m == r
  {
    var p := v / m;
    assert v == p * m + v % m && 0 <= v % m < m;
    if p < q {
      MulAtLeastOne(m, q - p);
    } else if q < p {
      MulAtLeastOne(m, p - q);
    }
  }

  lemma MulAtLeastOne(m: nat, k: nat)
    requires k >= 1
    ensures k * m >= m
  {
    assert k * m == m + (k - 1) * m;
  }

  function SixteenTo(n: nat): nat {
    if n == 0 then 1 else 16 * SixteenTo(n - 1)
  }

  function FourTo(n: nat): nat {
    if n == 0 then 1 else 4 * FourTo(n - 1)
  }

  lemma FourTo32()
    ensures FourTo(32) == U64
  {
    assert FourTo(8) == 0x1_0000;
    assert FourTo(16) == 0x1_0000_0000;
    assert FourTo(24) == 0x1_0000_0000_0000;
  }

  lemma SixteenTo16()
    ensures SixteenTo(16) == U64
  {
    assert SixteenTo(8) == 0x1_0000_0000;
  }

  lemma FillStart(value: word, base: nat)
    requires 2 <= base <= 36
    ensures value < FourTo(32) && Digits(value, base) + Reversed([]) == Digits(value, base)
  {
    FourTo32();
  }

  lemma NoDigits(base: nat, s: seq<byte>)
    requires 2 <= base <= 36
    ensures Digits(0, base) + s == s
  {
  }

  lemma NoShift(v: nat)
    ensures Shr(v, 4 * 0) == v
  {
  }

  /** Each digit taken off leaves room for one fewer. */
  lemma QuotientBelow(v: nat, base: nat, bound: nat)
    requires base >= 4 && 0 < v < bound
    ensures 0 <= v / base <= v / 4 && v / base < v
  {
  }

  function Reversed(s: seq<byte>): seq<byte> {
    if s == [] then [] else [s[|s| - 1]] + Reversed(s[..|s| - 1])
  }

  lemma ReversedSnoc(s: seq<byte>, c: byte)
    ensures Reversed(s + [c]) == [c] + Reversed(s)
  {
    assert (s + [c])[..|s|] == s;
  }

  lemma {:induction false} ReversedCons(s: seq<byte>, i: nat)
    requires i < |s|
    ensures Reversed(s[i..]) == Reversed(s[i + 1..]) + [s[i]]
    decreases |s|
  {
    var n := |s| - 1;
    if i == n {
      assert s[i..] == [s[i]] && s[i + 1..] == [];
      assert [s[i]][..0] == [];
    } else {
      ReversedCons(s[..n], i);
      assert s[i..][..n - i] == s[..n][i..] && s[i + 1..][..n - i - 1] == s[..n][i + 1..];
    }
  }

  lemma DigitsStep(v: nat, base: nat, rest: seq<byte>)
    requires 4 <= base <= 36 && v > 0
    ensures v % base < 36 && v / base >= 0
    ensures Digits(v, base) + rest == Digits(v / base, base) + ([DigitChar(v % base)] + rest)
  {
    DivSmaller(v, base);
  }

  lemma FeedNone(t: Terminal, colour: byte)
    requires t.Ok()
    ensures Reversed([]) == [] && Feed(t, [], colour) == t
  {
  }

  lemma FeedOne(t: Terminal, c: byte, colour: byte)
    requires t.Ok()
    ensures Feed(t, [c], colour) == Put(t, c, colour)
  {
    assert [c][..0] == [];
  }

  lemma FeedMore(t: Terminal, s: seq<byte>, c: byte, colour: byte)
    requires t.Ok()
    ensures Feed(t, s + [c], colour) == Put(Feed(t, s, colour), c, colour)
  {
    assert (s + [c])[..|s|] == s;
  }

  lemma NoHex(v: nat, width: nat)
    ensures HexText(Shr(v, 4 * width), 0) == []
  {
  }

  lemma HexStep(v: nat, i: nat)
    ensures And(Shr(v, i * 4), 0xF) == Shr(v, 4 * i) % 16 && Shr(v, 4 * (i + 1)) == Shr(v, 4 * i) / 16
  {
    hide *;
    var y := Shr(v, 4 * i);
    OnesSmall();
    AndOnes(y, 4);
    Low4(y);
    ShrSum(v, 4 * i, 4);
    ShrFour(y);
  }

  lemma ShrFour(y: nat)
    ensures Shr(y, 4) == y / 16
  {
  }

  /** `(x + 8) & ~7`. */
  lemma TabStop(x: nat)
    requires x < VGA_WIDTH
    ensures And(x + 8, Not64(7)) == (x + 8) / 8 * 8
  {
    hide And, Ones, Shl;
    ClearLow3(x + 8);
  }

  lemma ClearLow3(y: word)
    ensures And(y, Not64(7)) == y / 8 * 8
  {
    hide And, Shl, Shr, Low, Ones;
    OnesSmall();
    ShlSmall(Ones(61));
    AndField(y, 3, 61);
    ShrSmall(y);
    LowAll(y / 8, 61);
    ShlSmall(y / 8);
  }

  // ----- scrolling, on values -----

  /** The buffer v once its first n bytes hold what lay a row below. */
  function MovedUp(v: seq<byte>, n: nat): (w: seq<byte>)
    requires |v| == ROW * VGA_HEIGHT && n <= ROW * (VGA_HEIGHT - 1)
    ensures |w| == |v|
  {
    v[ROW..ROW + n] + v[n..]
  }

  lemma NothingMoved(v: seq<byte>)
    requires |v| == ROW * VGA_HEIGHT
    ensures MovedUp(v, 0) == v
  {
  }

  /** Copying one cell from the row below moves two more bytes. */
  lemma MoveCell(v: seq<byte>, n: nat)
    requires |v| == ROW * VGA_HEIGHT && n + 2 <= ROW * (VGA_HEIGHT - 1)
    ensures var w := MovedUp(v, n);
      w[n := w[n + ROW]][n + 1 := w[n + 1 + ROW]] == MovedUp(v, n + 2)
  {
    var w, w' := MovedUp(v, n), MovedUp(v, n + 2);
    var u := w[n := w[n + ROW]][n + 1 := w[n + 1 + ROW]];
    assert w[n + ROW] == v[n + ROW] && w[n + 1 + ROW] == v[n + 1 + ROW];
    forall i | 0 <= i < |v| ensures u[i] == w'[i] { }
  }

  /** The buffer moved up by a row, with the first n bytes of the last row blank. */
  function Blanked(v: seq<byte>, n: nat): (w: seq<byte>)
    requires |v| == ROW * VGA_HEIGHT && n <= ROW
    ensures |w| == |v|
  {
    v[ROW..] + BlankRow()[..n] + v[ROW * (VGA_HEIGHT - 1) + n..]
  }

  lemma AllMoved(v: seq<byte>)
    requires |v| == ROW * VGA_HEIGHT
    ensures MovedUp(v, ROW * (VGA_HEIGHT - 1)) == Blanked(v, 0)
  {
  }

  lemma BlankCell(v: seq<byte>, n: nat)
    requires |v| == ROW * VGA_HEIGHT && n % 2 == 0 && n + 2 <= ROW
    ensures Blanked(v, n)[ROW * (VGA_HEIGHT - 1) + n := BLANK][ROW * (VGA_HEIGHT - 1) + n + 1 := 0x0F] == Blanked(v, n + 2)
  {
    var w, w' := Blanked(v, n), Blanked(v, n + 2);
    var at := ROW * (VGA_HEIGHT - 1) + n;
    var u := w[at := BLANK][at + 1 := 0x0F];
    assert BlankRow()[n] == BLANK && BlankRow()[n + 1] == 0x0F;
    forall i | 0 <= i < |v| ensures u[i] == w'[i] { }
  }

  lemma AllBlanked(v: seq<byte>)
    requires |v| == ROW * VGA_HEIGHT
    ensures Blanked(v, ROW) == v[ROW..] + BlankRow()
  {
  }

  lemma CellShown(v: seq<byte>, t: Terminal, c: byte, colour: byte)
    requires t.Ok() && Shows(v, t.rows)
    ensures var r := t.y - (|t.rows| - VGA_HEIGHT);
      Shows(v[ROW * r + 2 * t.x := c][ROW * r + 2 * t.x + 1 := colour], t.rows[t.y := WithCell(t.rows[t.y], t.x, c, colour)])
  {
    hide Shows, WithCell;
    CellShownAt(v, t.rows, t.y - (|t.rows| - VGA_HEIGHT), t.x, c, colour);
  }

  lemma CellShownAt(v: seq<byte>, rows: seq<seq<byte>>, r0: nat, x: nat, c: byte, colour: byte)
    requires Shows(v, rows) && r0 < VGA_HEIGHT && x < VGA_WIDTH && |rows[|rows| - VGA_HEIGHT + r0]| == ROW
    ensures var y := |rows| - VGA_HEIGHT + r0;
      Shows(v[ROW * r0 + 2 * x := c][ROW * r0 + 2 * x + 1 := colour], rows[y := WithCell(rows[y], x, c, colour)])
  {
    hide RowOf, WithCell;
    var y := |rows| - VGA_HEIGHT + r0;
    var v' := v[ROW * r0 + 2 * x := c][ROW * r0 + 2 * x + 1 := colour];
    var rows' := rows[y := WithCell(rows[y], x, c, colour)];
    forall r: nat | r < VGA_HEIGHT ensures RowOf(v', r) == rows'[|rows| - VGA_HEIGHT + r] {
      CellRow(v, r0, x, c, colour, r);
    }
  }

  lemma CellRow(v: seq<byte>, r0: nat, x: nat, c: byte, colour: byte, r: nat)
    requires |v| == ROW * VGA_HEIGHT && r0 < VGA_HEIGHT && x < VGA_WIDTH && r < VGA_HEIGHT
    ensures RowOf(v[ROW * r0 + 2 * x := c][ROW * r0 + 2 * x + 1 := colour], r) == if r == r0 then WithCell(RowOf(v, r), x, c, colour) else RowOf(v, r)
  {
  }

  lemma ScrollShown(v: seq<byte>, rows: seq<seq<byte>>)
    requires Shows(v, rows)
    ensures Shows(v[ROW..] + BlankRow(), rows + [BlankRow()])
  {
    hide RowOf, BlankRow;
    forall r: nat | r < VGA_HEIGHT ensures RowOf(v[ROW..] + BlankRow(), r) == if r + 1 < VGA_HEIGHT then RowOf(v, r + 1) else BlankRow() {
      RowMovesUp(v, BlankRow(), r);
    }
  }

  lemma RowMovesUp(v: seq<byte>, last: seq<byte>, r: nat)
    requires |v| == ROW * VGA_HEIGHT && |last| == ROW && r < VGA_HEIGHT
    ensures RowOf(v[ROW..] + last, r) == if r + 1 < VGA_HEIGHT then RowOf(v, r + 1) else last
  {
    hide BlankRow;
    if r + 1 < VGA_HEIGHT {
      assert (v[ROW..] + last)[ROW * r..ROW * r + ROW] == v[ROW..][ROW * r..ROW * r + ROW];
    }
  }
}
