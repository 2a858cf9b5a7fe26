/**
 * `vsnprintk`, the kernel's formatter: `parse` walks the format string,
 * copying plain characters and handing each `%` conversion to
 * `print_args`, which appends a character, a string, a pointer, a signed
 * or unsigned decimal or a hexadecimal number. Output goes through
 * `buf_append` into the buffer of the static `pinfo`, whose `#` flag makes
 * the next hexadecimal conversion start with "0x".
 */
module Printk {

  import opened Base
  import opened Arith
  import opened Numerals

  const NUL: char := '\0'

  /** The number of values of a `u64`. */
  const U64_MOD: nat := 0x1_0000_0000_0000_0000

  /** The range of an `s32`. */
  const INT_MIN: int := -0x8000_0000
  const INT_MAX: int := 0x7FFF_FFFF

  /** `__NIL__`, what `%p` prints for a null pointer. */
  const NIL: string := "(nil)"

  /** `16^8` and `16^16` are the sizes of `u32` and `u64`. */
  lemma Pow16Values()
    ensures Pow(16, 8) == U32_MOD && Pow(16, 16) == U64_MOD
  {
    assert Pow(16, 1) == 16;
    assert Pow(16, 2) == 0x100;
    assert Pow(16, 3) == 0x1000;
    assert Pow(16, 4) == 0x1_0000;
    assert Pow(16, 5) == 0x10_0000;
    assert Pow(16, 6) == 0x100_0000;
    assert Pow(16, 7) == 0x1000_0000;
    assert Pow(16, 8) == 0x1_0000_0000;
    assert Pow(16, 9) == 0x10_0000_0000;
    assert Pow(16, 10) == 0x100_0000_0000;
    assert Pow(16, 11) == 0x1000_0000_0000;
    assert Pow(16, 12) == 0x1_0000_0000_0000;
    assert Pow(16, 13) == 0x10_0000_0000_0000;
    assert Pow(16, 14) == 0x100_0000_0000_0000;
    assert Pow(16, 15) == 0x1000_0000_0000_0000;
  }

  // ---------------------------------------------------------------------
  // What each conversion prints
  // ---------------------------------------------------------------------

  /** An `int` reduced to `s32`, as a conversion to `s32` wraps. */
  function S32(v: int): (r: int)
    ensures INT_MIN <= r <= INT_MAX
    ensures INT_MIN <= v <= INT_MAX ==> r == v
    ensures (v - r) % U32_MOD == 0
  {
    var u := v % U32_MOD;
    if u <= INT_MAX then u else u - U32_MOD
  }

  /** The `char` an `int` argument of `%c` becomes: its low 8 bits. */
  function CharOf(v: int): (c: char)
    ensures c as int < 256 && c as int == v % 256
  {
    (v % 256) as char
  }

  /** What `print_int` prints for `n`: a '-' for a negative `n`, then the digits of its magnitude. */
  function IntText(n: int): (s: string)
  {
    if n < 0 then "-" + Numeral(-n, 10, false) else Numeral(n, 10, false)
  }

  /** The value of an optionally signed decimal string. */
  function SignedValue(s: string): int
  {
    if |s| > 0 && s[0] == '-' then 0 - Value(s[1..], 10) else Value(s, 10)
  }

  /** `print_int`'s text reads back as `n`: decimal digits after an optional '-', without leading zeros. */
  lemma IntTextValue(n: int)
    ensures SignedValue(IntText(n)) == n
    ensures n < 0 <==> IntText(n)[0] == '-'
    ensures AllDigits(if n < 0 then IntText(n)[1..] else IntText(n), 10)
    ensures NoNul(IntText(n))
  {
    var m := if n < 0 then -n else n;
    NumeralValue(m, 10, false);
    var s := Numeral(m, 10, false);
    assert IsDigitOf(s[0], 10);
    if n < 0 {
      assert IntText(n)[1..] == s;
    }
  }

  /** What `print_ptr` prints for `p`: "(nil)", or "0x" and the lower-case hexadecimal digits of `p`. */
  function PtrText(p: nat): (s: string)
  {
    if p == 0 then NIL else "0x" + Digits(p, 16, false)
  }

  /** A non-null pointer prints as "0x" followed by hexadecimal digits denoting it, without leading zeros. */
  lemma PtrTextValue(p: nat)
    requires p > 0
    ensures PtrText(p)[..2] == "0x"
    ensures AllDigits(PtrText(p)[2..], 16) && Value(PtrText(p)[2..], 16) == p
    ensures PtrText(p)[2] != '0'
  {
    assert PtrText(p)[2..] == Digits(p, 16, false);
    DigitsAreDigits(p, 16, false);
    DigitsValue(p, 16, false);
    DigitsLead(p, 16, false);
  }

  /**
   * What `print_hex` prints for `n`: "0x" when the `#` flag is set, then
   * "0" for zero and otherwise the digits of the low 32 bits of `n`, which
   * are none at all when those bits are zero.
   */
  function HexText(n: nat, upper: bool, pref: bool): (s: string)
  {
    (if pref then "0x" else "") + (if n == 0 then "0" else Digits(n % U32_MOD, 16, upper))
  }

  /**
   * Without the flag, a non-zero `n` prints as the hexadecimal digits of its
   * low 32 bits, so one whose low 32 bits are zero prints nothing.
   */
  lemma HexTextLow(n: nat, upper: bool)
    requires n > 0
    ensures AllDigits(HexText(n, upper, false), 16)
    ensures Value(HexText(n, upper, false), 16) == n % U32_MOD
    ensures n % U32_MOD == 0 <==> HexText(n, upper, false) == ""
  {
    assert HexText(n, upper, false) == Digits(n % U32_MOD, 16, upper);
    DigitsAreDigits(n % U32_MOD, 16, upper);
    DigitsValue(n % U32_MOD, 16, upper);
  }

  /**
   * The eight padded hexadecimal digits of `n` are zeros followed by the
   * digits of its low 32 bits, the first of which is not '0'.
   */
  lemma HexSplit(n: nat, upper: bool)
    ensures |Digits(n % U32_MOD, 16, upper)| <= 8
    ensures Padded(n, 8, 16, upper) ==
      ZeroRun(8 - |Digits(n % U32_MOD, 16, upper)|) + Digits(n % U32_MOD, 16, upper)
    ensures n % U32_MOD > 0 ==> Digits(n % U32_MOD, 16, upper)[0] != '0'
    ensures NoNul(Digits(n % U32_MOD, 16, upper))
  {
    DigitsAreDigits(n % U32_MOD, 16, upper);
    PaddedSplit(n, 8, 16, upper);
    LowMod(n, 8, 16);
    Pow16Values();
    if n % U32_MOD > 0 {
      DigitsLead(n % U32_MOD, 16, upper);
    }
  }

  // ---------------------------------------------------------------------
  // The format walk
  // ---------------------------------------------------------------------

  /** A `va_list` argument: a number, read as `int`, `u32`, `u64` or a pointer, or a C string. */
  datatype Arg = Num(v: int) | Text(s: string)

  /** What one conversion appends, the `#` flag after it and how many arguments it reads. */
  datatype Conv = Conv(text: string, pref: bool, used: nat)

  /** The index of the first NUL of `s`, or its length. */
  function NulIndex(s: string): (k: nat)
    ensures k <= |s| && (k < |s| ==> s[k] == NUL)
    ensures forall j :: 0 <= j < k ==> s[j] != NUL
  {
    if s == [] || s[0] == NUL then 0 else 1 + NulIndex(s[1..])
  }

  /** A C string's characters: `s` up to its first NUL. */
  function UntilNul(s: string): (r: string)
    ensures NulIndex(r) == |r|
  {
    s[..NulIndex(s)]
  }

  /** `s` holds no NUL, as a C string's characters before its terminator. */
  predicate NoNul(s: string)
  {
    forall k :: 0 <= k < |s| ==> s[k] != NUL
  }

  /** The C string `s` with its terminator reads back as `s`. */
  lemma {:induction false} Terminated(s: string)
    requires NoNul(s)
    ensures NulIndex(s + [NUL]) == |s| && UntilNul(s + [NUL]) == s
    decreases |s|
  {
    var t := s + [NUL];
    if s != [] {
      assert t[0] == s[0] && t[1..] == s[1..] + [NUL];
      Terminated(s[1..]);
    }
    assert t[..|s|] == s;
  }

  /** What follows the prefix `a` of `a + b` is `b`. */
  lemma SuffixOf(a: string, b: string)
    ensures (a + b)[|a|..] == b
  {
  }

  /** The character at `i` of a C string, its terminator read as NUL. */
  function At(s: string, i: nat): char
  {
    if i < |s| then s[i] else NUL
  }

  /**
   * `print_args(c)` for the conversion letter `c` with the `#` flag `pref`,
   * the next argument being `args[k]`. `None` when the conversion needs an
   * argument that is missing or of the other kind.
   */
  function Convert(c: char, args: seq<Arg>, k: nat, pref: bool): (r: Option<Conv>)
    ensures r.Some? && r.value.used > 0 ==> k + r.value.used <= |args|
  {
    if c == '%' then Some(Conv("%", pref, 0))
    else if c !in "cspdiuxX" then Some(Conv([], pref, 0))
    else if k >= |args| then None
    else if c == 's' then
      if args[k].Text? then Some(Conv(UntilNul(args[k].s), pref, 1)) else None
    else if args[k].Text? then None
    else
      var v := args[k].v;
      if c == 'c' then Some(Conv([CharOf(v)], pref, 1))
      else if c == 'p' then Some(Conv(PtrText(v % U64_MOD), pref, 1))
      else if c == 'd' || c == 'i' then Some(Conv(IntText(S32(v)), pref, 1))
      else if c == 'u' then Some(Conv(Numeral(v % U32_MOD, 10, false), pref, 1))
      else Some(Conv(HexText(v % U64_MOD, c == 'X', pref), false, 1))
  }

  /** The format from index `i` on; empty once `i` is past the terminator. */
  function Rest(fmt: string, i: nat): (r: string)
    ensures i > 0 && fmt != [] ==> |r| < |fmt|
  {
    if i <= |fmt| then fmt[i..] else []
  }

  /**
   * One turn of the loop of `parse` at `fmt[i]`: the text it appends, the
   * index it goes on from, the next argument and the flag after it.
   */
  datatype Move = Move(text: string, next: nat, k: nat, pref: bool)

  /**
   * The turn of `parse` at `fmt[i]`: a '%' with a character after it is a
   * conversion, two characters long or three with '#'; anything else is
   * copied. `None` when the conversion's argument does not fit.
   */
  function StepOf(fmt: string, i: nat, args: seq<Arg>, k: nat, pref: bool): (r: Option<Move>)
    requires i < |fmt|
    ensures r.Some? ==> i < r.value.next <= i + 3 && k <= r.value.k <= k + 1
  {
    if fmt[i] == '%' && At(fmt, i + 1) != NUL then
      var hash := fmt[i + 1] == '#';
      var c := if hash then At(fmt, i + 2) else fmt[i + 1];
      match Convert(c, args, k, pref || hash)
      case None => None
      case Some(cv) => Some(Move(cv.text, i + if hash then 3 else 2, k + cv.used, cv.pref))
    else
      Some(Move([fmt[i]], i + 1, k, pref))
  }

  /**
   * The text `parse` appends for the format `fmt`, starting at argument `k`
   * with the `#` flag `pref`: the turn at the first character, then the
   * rest of the format from where that turn goes on. `None` when the
   * arguments do not fit the conversions.
   */
  function Render(fmt: string, args: seq<Arg>, k: nat, pref: bool): (r: Option<string>)
    decreases |fmt|
  {
    if fmt == [] then Some([])
    else
      match StepOf(fmt, 0, args, k, pref)
      case None => None
      case Some(m) => Then(m.text, Render(Rest(fmt, m.next), args, m.k, m.pref))
  }

  /** `text` in front of what follows, when what follows is defined. */
  function Then(text: string, o: Option<string>): (r: Option<string>)
    ensures r.Some? == o.Some?
  {
    match o
    case None => None
    case Some(s) => Some(text + s)
  }

  /** When `text` is put in front of a defined `o`, the result starts with `text` and goes on with `o`. */
  lemma ThenValue(text: string, o: Option<string>)
    requires o.Some?
    ensures Then(text, o).Some? && Then(text, o).value == text + o.value
  {
  }

  /** Putting `a` and then `b` in front is putting `a + b` in front. */
  lemma ThenThen(a: string, b: string, o: Option<string>)
    ensures Then(a, Then(b, o)) == Then(a + b, o)
  {
    if o.Some? {
      AppendAssoc(a, b, o.value);
    }
  }

  /** A run of characters without '%' is copied as it is, before whatever follows it. */
  lemma {:induction false} RenderPlain(p: string, rest: string, args: seq<Arg>, k: nat, pref: bool)
    requires forall i :: 0 <= i < |p| ==> p[i] != '%'
    ensures Render(p + rest, args, k, pref) == Then(p, Render(rest, args, k, pref))
    decreases |p|
  {
    if p == [] {
      assert p + rest == rest;
      match Render(rest, args, k, pref)
      case None =>
      case Some(r) => assert [] + r == r;
    } else {
      var f := p + rest;
      assert f[0] == p[0] && f[1..] == p[1..] + rest;
      RenderPlain(p[1..], rest, args, k, pref);
      ThenThen([p[0]], p[1..], Render(rest, args, k, pref));
      assert [p[0]] + p[1..] == p;
    }
  }

  /** `%%` prints a '%', and a '%' at the end of the format is copied. */
  lemma RenderPercent(rest: string, args: seq<Arg>, k: nat, pref: bool)
    ensures Render("%", args, k, pref) == Some("%")
    ensures Render("%%" + rest, args, k, pref) == Then("%", Render(rest, args, k, pref))
  {
    assert Render([], args, k, pref) == Some([]);
    assert "%"[1..] == [] && ['%'] + [] == "%";
    var f := "%%" + rest;
    assert f[0] == '%' && f[1] == '%' && f[2..] == rest;
  }

  /** A conversion letter `print_args` does not know prints nothing and reads no argument. */
  lemma RenderUnknown(c: char, rest: string, args: seq<Arg>, k: nat, pref: bool)
    requires c != NUL && c !in "%#cspdiuxX"
    ensures Render(['%', c] + rest, args, k, pref) == Render(rest, args, k, pref)
  {
    var f := ['%', c] + rest;
    assert f[0] == '%' && f[1] == c && At(f, 1) == c && Rest(f, 2) == rest;
    assert Convert(c, args, k, pref) == Some(Conv([], pref, 0));
    assert StepOf(f, 0, args, k, pref) == Some(Move([], 2, k, pref));
    match Render(rest, args, k, pref)
    case None =>
    case Some(r) => assert [] + r == r;
  }

  /** `%#x` and `%#X` print "0x" before the number and leave the flag clear for what follows. */
  lemma RenderHash(c: char, v: int, rest: string, args: seq<Arg>, k: nat, pref: bool)
    requires c == 'x' || c == 'X'
    requires k < |args| && args[k] == Num(v)
    ensures Render(['%', '#', c] + rest, args, k, pref) ==
      Then("0x" + HexText(v % U64_MOD, c == 'X', false), Render(rest, args, k + 1, false))
  {
    var f := ['%', '#', c] + rest;
    HashTurn(c, v, rest, args, k, pref);
    assert f != [] && Rest(f, 3) == rest;
  }

  /** The turn of `parse` at "%#x" or "%#X". */
  lemma HashTurn(c: char, v: int, rest: string, args: seq<Arg>, k: nat, pref: bool)
    requires c == 'x' || c == 'X'
    requires k < |args| && args[k] == Num(v)
    ensures StepOf(['%', '#', c] + rest, 0, args, k, pref) ==
      Some(Move("0x" + HexText(v % U64_MOD, c == 'X', false), 3, k + 1, false))
  {
    var f := ['%', '#', c] + rest;
    var text := "0x" + HexText(v % U64_MOD, c == 'X', false);
    assert f[0] == '%' && f[1] == '#' && At(f, 1) == '#' && At(f, 2) == c;
    assert HexText(v % U64_MOD, c == 'X', true) == text;
    assert Convert(c, args, k, true) == Some(Conv(text, false, 1));
  }

  // ---------------------------------------------------------------------
  // Digit counts
  // ---------------------------------------------------------------------

  /** `utoa_len(n)`: how many characters `print_uint` prints for `n`. */
  method UtoaLen(n: nat) returns (len: nat)
    requires n < U32_MOD
    ensures len == |Numeral(n, 10, false)|
  {
    if n == 0 {
      return 1;
    }
    len := 0;
    var m := n;
    while m >= 1
      invariant len + |Digits(m, 10, false)| == |Digits(n, 10, false)|
      decreases m
    {
      len := len + 1;
      m := m / 10;
    }
  }

  /** `itoa_len(n)`: how many characters `print_int` prints for `n`, the '-' included. */
  method ItoaLen(n: int) returns (len: nat)
    requires INT_MIN <= n <= INT_MAX
    ensures len == |IntText(n)|
  {
    if n == 0 {
      return 1;
    }
    len := 0;
    var m := n;
    if m < 0 {
      m := -m;
      len := len + 1;
    }
    while m >= 1
      invariant 0 <= m && len + |Digits(m, 10, false)| == |IntText(n)|
      decreases m
    {
      len := len + 1;
      m := m / 10;
    }
  }

  /** `dtoh(v)` for a 4-bit `v`: the lower-case hexadecimal digit of `v`. */
  function Dtoh(v: int): (r: char)
    requires 0 <= v < 16
    ensures r == DigitOf(v, false)
    ensures IsHexChar(r) && DigitValue(r) == v && !('A' <= r <= 'F')
    ensures v < 10 <==> '0' <= r <= '9'
  {
    if v < 10 then ('0' as int + v) as char else ('a' as int + v - 10) as char
  }

  /** `p >> 4 j`. */
  function Shr(p: nat, j: nat): nat
  {
    p / Pow(16, j)
  }

  /** `(p >> 4 j) & 0xf`, the nibble of `p` at the shift `4 j`. */
  function Nibble(p: nat, j: nat): (d: nat)
    ensures d < 16
  {
    Shr(p, j) % 16
  }

  /** Shifting right by `4 (j + 1)` bits is shifting by `4 j` and then by 4 more. */
  lemma ShrStep(p: nat, j: nat)
    ensures Shr(p, j + 1) == Shr(p, j) / 16
    ensures Shr(p, 0) == p
  {
    DivDiv(p, Pow(16, j), 16);
  }

  // ---------------------------------------------------------------------
  // The printer
  // ---------------------------------------------------------------------

  /**
   * `pinfo`: `out` is what `buf_append` has written, `buf[0..pos)`, and
   * `pref` is `pref_flag`.
   */
  class Printer {
    var out: string
    var pref: bool

    /** A printer with nothing written and the flag clear. */
    constructor ()
      ensures out == [] && !pref
    {
      out := [];
      pref := false;
    }

    /** `pinfo_init`: starts an empty output with the flag clear. */
    method Init()
      modifies this
      ensures out == [] && !pref
    {
      out := [];
      pref := false;
    }

    /** `buf_append(c)`: writes `c` at `pos` and advances it. */
    method Append(c: char)
      modifies this
      ensures out == old(out) + [c] && pref == old(pref)
    {
      out := out + [c];
    }

    /** The `while (str[i]) buf_append(str[i++])` loops: appends `s` up to its first NUL. */
    method AppendString(s: string)
      modifies this
      ensures out == old(out) + UntilNul(s) && pref == old(pref)
    {
      var i := 0;
      while i < |s| && s[i] != NUL
        invariant 0 <= i <= |s| && out == old(out) + s[..i] && pref == old(pref)
        invariant forall j :: 0 <= j < i ==> s[j] != NUL
      {
        Append(s[i]);
        assert s[..i + 1] == s[..i] + [s[i]];
        i := i + 1;
      }
      assert i == NulIndex(s);
    }

    /** `print_uint(n)`: appends the decimal digits of `n`, without leading zeros. */
    method PrintUint(n: nat)
      requires n < U32_MOD
      modifies this
      ensures out == old(out) + Numeral(n, 10, false) && pref == old(pref)
    {
      var len := UtoaLen(n);
      var buffer := new char[len + 1];
      var rest := FillDigits(buffer, n, len - 1);
      ghost var tail := buffer[1..len];
      buffer[0] := DigitOf(rest % 10, false);
      buffer[len] := NUL;
      assert buffer[1..len] == tail;
      assert buffer[..len] == Padded(rest, 1, 10, false) + tail;
      PaddedNumeral(n);
      AppendDigits(buffer, len, Numeral(n, 10, false));
    }

    /**
     * `print_int(n)`: appends '-' for a negative `n`, then the decimal
     * digits of its magnitude. The magnitude is taken without overflow and
     * the leading digit is written unless `n` is negative.
     */
    method PrintInt(n: int)
      requires INT_MIN <= n <= INT_MAX
      modifies this
      ensures out == old(out) + IntText(n) && pref == old(pref)
    {
      var len := ItoaLen(n);
      var buffer := new char[len + 1];
      FillInt(buffer, n, len);
      IntTextValue(n);
      AppendDigits(buffer, len, IntText(n));
    }

    /** The buffer of `print_int`: the text of `n` and the terminator. */
    static method FillInt(buffer: array<char>, n: int, len: nat)
      requires INT_MIN <= n <= INT_MAX && len == |IntText(n)| && buffer.Length == len + 1
      modifies buffer
      ensures buffer[..len] == IntText(n) && buffer[len] == NUL
    {
      var m: nat := if n < 0 then -n else n;
      if n < 0 {
        buffer[0] := '-';
      }
      var rest := FillDigits(buffer, m, len - 1);
      ghost var tail := buffer[1..len];
      if n >= 0 {
        buffer[0] := DigitOf(rest % 10, false);
        FirstDigitText(n, rest, tail);
      } else {
        NegativeText(n, tail);
      }
      assert buffer[1..len] == tail;
      assert buffer[..len] == [buffer[0]] + tail;
      ghost var text := buffer[..len];
      buffer[len] := NUL;
      assert buffer[..len] == text;
    }

    /** Appends the `len` characters before the terminator of `buffer`, which hold `text` and no NUL. */
    method AppendDigits(buffer: array<char>, len: nat, ghost text: string)
      requires len < buffer.Length && buffer[..len] == text && buffer[len] == NUL
      requires NoNul(text)
      modifies this
      ensures out == old(out) + text && pref == old(pref)
    {
      assert forall j :: 0 <= j < len ==> buffer[..][j] == text[j];
      assert NulIndex(buffer[..]) == len;
      assert buffer[..][..len] == text;
      AppendString(buffer[..]);
    }

    /** `print_ptr(p)`: "(nil)" for null, otherwise "0x" and the hexadecimal digits of `p` after its leading zeros. */
    method PrintPtr(p: nat)
      requires p < U64_MOD
      modifies this
      ensures out == old(out) + PtrText(p) && pref == old(pref)
    {
      if p == 0 {
        Terminated(NIL);
        AppendString(NIL + [NUL]);
      } else {
        Append('0');
        Append('x');
        ghost var o := out;
        var j := SkipZeroNibbles(p);
        AppendNibbles(p, j);
        assert o == old(out) + "0x";
        AppendAssoc(old(out), "0x", Digits(p, 16, false));
      }
    }

    /**
     * The second loop of `print_ptr`: appends the nibbles of `p` from the
     * leading non-zero one, at the shift `4 j0`, down to the one at 0.
     */
    method AppendNibbles(p: nat, j0: nat)
      requires j0 < 16 && Shr(p, j0 + 1) == 0 && Nibble(p, j0) != 0
      modifies this
      ensures out == old(out) + Digits(p, 16, false) && pref == old(pref)
    {
      // `n` nibbles are still to be printed: the one at the shift 4 (n - 1) is next
      var n: nat := j0 + 1;
      ShrStep(p, j0);
      while n > 0
        invariant n <= 16
        invariant n > 0 ==> Shr(p, n - 1) > 0
        invariant out == old(out) + Digits(Shr(p, n), 16, false) && pref == old(pref)
      {
        ghost var v := Shr(p, n - 1);
        ShrStep(p, n - 1);
        DigitsStep(v, 16, false);
        Append(Dtoh(Nibble(p, n - 1)));
        if n > 1 {
          ShrStep(p, n - 2);
        }
        n := n - 1;
      }
      ShrStep(p, 0);
    }

    /**
     * `print_hex(n, is_upper)`: "0x" first when the `#` flag is set, which
     * it clears; then "0" for zero, and otherwise the eight hexadecimal
     * digits of the low 32 bits of `n` after their leading zeros.
     */
    method PrintHex(n: nat, upper: bool)
      requires n < U64_MOD
      modifies this
      ensures out == old(out) + HexText(n, upper, old(pref)) && !pref
    {
      ghost var head := if pref then "0x" else "";
      ghost var tail := if n == 0 then "0" else Digits(n % U32_MOD, 16, upper);
      if pref {
        Append('0');
        Append('x');
        pref := false;
      }
      ghost var o := out;
      if n == 0 {
        Append('0');
      } else {
        AppendHex(n, upper);
      }
      assert out == o + tail;
      AppendAssoc(old(out), head, tail);
    }

    /** `print_hex` for a non-zero `n` once the prefix is written: the digits of its low 32 bits. */
    method AppendHex(n: nat, upper: bool)
      requires n > 0
      modifies this
      ensures out == old(out) + Digits(n % U32_MOD, 16, upper) && pref == old(pref)
    {
      var hex := new char[9];
      FillHex(hex, n, upper);
      ghost var d := Digits(n % U32_MOD, 16, upper);
      HexSplit(n, upper);
      assert hex[..8] == ZeroRun(8 - |d|) + d;
      assert forall j :: 0 <= j < 8 - |d| ==> hex[j] == hex[..8][j] == '0';
      assert d != [] ==> hex[8 - |d|] == hex[..8][8 - |d|] == d[0];
      var i := SkipZeros(hex, 8 - |d|);
      ghost var h := hex[..8];
      assert hex[i..] == h[i..] + [NUL];
      SuffixOf(ZeroRun(8 - |d|), d);
      Terminated(d);
      AppendString(hex[i..]);
    }

    /** The first loop of `print_hex`: the eight low hexadecimal digits of `n`, then NUL. */
    static method FillHex(hex: array<char>, n: nat, upper: bool)
      requires hex.Length == 9
      modifies hex
      ensures hex[..8] == Padded(n, 8, 16, upper) && hex[8] == NUL
    {
      var m := n;
      var i: int := 7;
      while i >= 0
        invariant -1 <= i <= 7
        invariant Padded(m, i + 1, 16, upper) + hex[i + 1..8] == Padded(n, 8, 16, upper)
      {
        hex[i] := DigitOf(m % 16, upper);
        m := m / 16;
        i := i - 1;
      }
      assert hex[0..8] == hex[..8];
      hex[8] := NUL;
    }

    /** The second loop of `print_hex`: the index of the first character other than '0'. */
    static method SkipZeros(hex: array<char>, ghost z: nat) returns (i: nat)
      requires z < hex.Length && hex[z] != '0'
      requires forall j :: 0 <= j < z ==> hex[j] == '0'
      ensures i == z
    {
      i := 0;
      while hex[i] == '0'
        invariant i <= z
        decreases z - i
      {
        i := i + 1;
      }
    }

    /**
     * `print_args(c, args)`: appends what the conversion `c` prints for the
     * argument `args[k]` and returns how many arguments it read.
     */
    method PrintArgs(c: char, args: seq<Arg>, k: nat) returns (used: nat)
      requires Convert(c, args, k, pref).Some?
      modifies this
      ensures Convert(c, args, k, old(pref)).Some?
      ensures out == old(out) + Convert(c, args, k, old(pref)).value.text
      ensures pref == Convert(c, args, k, old(pref)).value.pref
      ensures used == Convert(c, args, k, old(pref)).value.used
    {
      if c == '%' {
        Append('%');
        return 0;
      } else if c == 'c' {
        Append(CharOf(args[k].v));
        return 1;
      } else if c == 's' {
        AppendString(args[k].s);
        return 1;
      } else if c == 'p' {
        PrintPtr(args[k].v % U64_MOD);
        return 1;
      } else if c == 'd' || c == 'i' {
        PrintInt(S32(args[k].v));
        return 1;
      } else if c == 'u' {
        PrintUint(args[k].v % U32_MOD);
        return 1;
      } else if c == 'x' || c == 'X' {
        PrintHex(args[k].v % U64_MOD, c == 'X');
        return 1;
      }
      return 0;
    }

    /**
     * `parse(fmt, args)`: walks the format once, copying plain characters
     * and printing each conversion; `%#` sets the flag before the
     * conversion after it.
     */
    method Parse(fmt: string, args: seq<Arg>)
      requires NoNul(fmt) && Render(fmt, args, 0, pref).Some?
      modifies this
      ensures out == old(out) + Render(fmt, args, 0, old(pref)).value
    {
      ghost var target := out + Render(fmt, args, 0, pref).value;
      var i := 0;
      var k := 0;
      while i < |fmt|
        invariant 0 <= i <= |fmt| + 1
        invariant Render(Rest(fmt, i), args, k, pref).Some?
        invariant out + Render(Rest(fmt, i), args, k, pref).value == target
        decreases |fmt| + 1 - i
      {
        RenderStep(fmt, i, args, k, pref);
        ghost var m := StepOf(fmt, i, args, k, pref).value;
        ghost var rest := Render(Rest(fmt, m.next), args, m.k, m.pref);
        ThenValue(m.text, rest);
        ghost var o := out;
        i, k := Step(fmt, i, args, k);
        AppendAssoc(o, m.text, rest.value);
      }
      assert Rest(fmt, i) == [];
      assert target == out + [];
    }

    /**
     * One turn of the loop of `parse` at `fmt[i]`: appends what `StepOf`
     * says and returns where the walk goes on and the next argument.
     */
    method Step(fmt: string, i: nat, args: seq<Arg>, k: nat) returns (i': nat, k': nat)
      requires i < |fmt| && StepOf(fmt, i, args, k, pref).Some?
      modifies this
      ensures var m := StepOf(fmt, i, args, k, old(pref)).value;
        out == old(out) + m.text && i' == m.next && k' == m.k && pref == m.pref
    {
      if fmt[i] == '%' && At(fmt, i + 1) != NUL {
        var c: char;
        if fmt[i + 1] == '#' {
          pref := true;
          c, i' := At(fmt, i + 2), i + 3;
        } else {
          c, i' := fmt[i + 1], i + 2;
        }
        var used := PrintArgs(c, args, k);
        k' := k + used;
      } else {
        Append(fmt[i]);
        i', k' := i + 1, k;
      }
    }
  }

  /**
   * The first loop of `print_ptr`: the leading non-zero nibble of `p`, by
   * its index `j`, the shift `i` of the source being `4 j`.
   */
  method SkipZeroNibbles(p: nat) returns (j: nat)
    requires 0 < p < U64_MOD
    ensures j < 16 && Shr(p, j + 1) == 0 && Nibble(p, j) != 0
  {
    Pow16Values();
    ModOfMultiple(p, 0, Pow(16, 16), p);
    // the nibbles at the shifts 4 n and above are zero
    var n: nat := 16;
    while n > 0 && Dtoh(Nibble(p, n - 1)) == '0'
      invariant n <= 16
      invariant Shr(p, n) == 0
    {
      ShrStep(p, n - 1);
      n := n - 1;
    }
    ShrStep(p, 0);
    j := n - 1;
  }

  /** The digit loop of `print_uint` and `print_int`, shared here. */
  method FillDigits(buffer: array<char>, n: nat, last: nat) returns (m: nat)
    requires last < buffer.Length
    modifies buffer
    ensures buffer[1..last + 1] == Padded(n, last, 10, false)
    ensures Padded(m, 1, 10, false) + buffer[1..last + 1] == Padded(n, last + 1, 10, false)
    ensures buffer[0] == old(buffer[0]) && buffer[last + 1..] == old(buffer[last + 1..])
  {
    m := n;
    var i := last;
    while i > 0
      invariant 0 <= i <= last
      invariant Padded(m, i, 10, false) + buffer[i + 1..last + 1] == Padded(n, last, 10, false)
      invariant Padded(m, i + 1, 10, false) + buffer[i + 1..last + 1] == Padded(n, last + 1, 10, false)
      invariant buffer[0] == old(buffer[0]) && buffer[last + 1..] == old(buffer[last + 1..])
    {
      ghost var t := buffer[i + 1..last + 1];
      var c := DigitOf(m % 10, false);
      buffer[i] := c;
      assert buffer[i..last + 1] == [c] + t;
      AppendAssoc(Padded(m / 10, i - 1, 10, false), [c], t);
      AppendAssoc(Padded(m / 10, i, 10, false), [c], t);
      m := m / 10;
      i := i - 1;
    }
  }

  /** The `n`'s digits padded to the length `utoa_len` gives are its numeral. */
  lemma PaddedNumeral(n: nat)
    ensures Padded(n, |Numeral(n, 10, false)|, 10, false) == Numeral(n, 10, false)
    ensures NoNul(Numeral(n, 10, false))
  {
    NumeralValue(n, 10, false);
    if n == 0 {
      assert Padded(0, 1, 10, false) == [] + [DigitOf(0, false)];
    } else {
      PaddedDigits(n, 10, false);
    }
  }

  /** For `n >= 0`, the first digit `print_int` stores in front of the digit loop's output completes the text. */
  lemma FirstDigitText(n: nat, rest: nat, tail: string)
    requires Padded(rest, 1, 10, false) + tail == Padded(n, |IntText(n)|, 10, false)
    ensures [DigitOf(rest % 10, false)] + tail == IntText(n)
  {
    PaddedNumeral(n);
    assert Padded(rest, 1, 10, false) == [] + [DigitOf(rest % 10, false)];
  }

  /** For `n < 0`, the digit loop's output after the '-' completes the text. */
  lemma NegativeText(n: int, tail: string)
    requires n < 0 && tail == Padded(-n, |IntText(n)| - 1, 10, false)
    ensures ['-'] + tail == IntText(n)
  {
    PaddedDigits(-n, 10, false);
  }

  /**
   * What `print_int` prints as it is written, `stale` being the byte its
   * uninitialised buffer holds at index 0. `n = -n` wraps for `INT_MIN`,
   * for which `itoa_len` counts the sign alone; for `n >= 0` the first
   * digit is stored only when the buffer does not already start with '-'.
   */
  function IntTextAsWritten(n: int, stale: char): (s: string)
    requires INT_MIN <= n <= INT_MAX
    ensures |s| >= 1
  {
    var m := if n < 0 then S32(-n) else n;
    if m < 0 then "-"
    else
      var l := |Numeral(m, 10, false)|;
      if n < 0 then "-" + Padded(m, l, 10, false)
      else [if stale == '-' then '-' else Padded(m, l, 10, false)[0]] + Padded(m, l - 1, 10, false)
  }

  /** As written, `INT_MIN` prints as a lone '-'. */
  lemma IntMinAsWritten(stale: char)
    ensures IntTextAsWritten(INT_MIN, stale) == "-"
    ensures IntText(INT_MIN) != "-" && SignedValue(IntText(INT_MIN)) == INT_MIN
  {
    assert S32(-INT_MIN) == INT_MIN;
    IntTextValue(INT_MIN);
  }

  /** As written, a stale '-' at the start of the buffer turns a non-negative number negative. */
  lemma StaleMinusAsWritten(n: int)
    requires 0 <= n <= INT_MAX
    ensures IntTextAsWritten(n, '-')[0] == '-'
    ensures IntText(n)[0] != '-'
  {
    IntTextValue(n);
  }

  /** Apart from `INT_MIN` and a stale '-', the code as written prints what `IntText` says. */
  lemma AsWrittenAgrees(n: int, stale: char)
    requires INT_MIN < n <= INT_MAX && stale != '-'
    ensures IntTextAsWritten(n, stale) == IntText(n)
  {
    var m := if n < 0 then -n else n;
    assert S32(-n) == -n;
    var l := |Numeral(m, 10, false)|;
    PaddedNumeral(m);
    if n >= 0 {
      PaddedCons(m, l - 1, 10, false);
    }
  }

  /**
   * The loop of `parse` and `Render` agree: what the format renders from
   * `i` on is what the turn at `i` appends, followed by what it renders
   * from where that turn goes on.
   */
  lemma RenderStep(fmt: string, i: nat, args: seq<Arg>, k: nat, pref: bool)
    requires i < |fmt|
    ensures Render(fmt[i..], args, k, pref) ==
      match StepOf(fmt, i, args, k, pref)
      case None => None
      case Some(m) => Then(m.text, Render(Rest(fmt, m.next), args, m.k, m.pref))
  {
    var f := fmt[i..];
    StepShift(fmt, i, args, k, pref);
    match StepOf(fmt, i, args, k, pref)
    case None =>
    case Some(m) =>
      assert Rest(f, m.next - i) == Rest(fmt, m.next);
  }

  /** The turn at `fmt[i]` is the turn at the start of `fmt[i..]`, moved by `i`. */
  lemma StepShift(fmt: string, i: nat, args: seq<Arg>, k: nat, pref: bool)
    requires i < |fmt|
    ensures StepOf(fmt[i..], 0, args, k, pref) ==
      match StepOf(fmt, i, args, k, pref)
      case None => None
      case Some(m) => Some(m.(next := m.next - i))
  {
    var f := fmt[i..];
    assert f[0] == fmt[i] && At(f, 1) == At(fmt, i + 1) && At(f, 2) == At(fmt, i + 2);
    if fmt[i] == '%' && At(fmt, i + 1) != NUL {
      assert f[1] == fmt[i + 1];
    }
  }
}
