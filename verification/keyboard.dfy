/**
 * PS/2 keyboard driver: scan code set 1 decoding with a shift-state machine,
 * and the line editor that fills a caller's buffer until Enter. The two bytes
 * read from port 0x60 for each key are parameters; the status-port busy-wait
 * is not modelled.
 */
module Keyboard {

  import opened Base

  /** Keyboard keys as the driver reports them. */
  datatype Key =
    | Esc | Backspace | Tab | Enter | LCtrl | LShift | Backslash | LAlt | Space | CapsLock
    | LeftArrow | RightArrow | UpArrow | DownArrow
    | Unknown
    | Char(c: char)

  /** Placeholder for a scan code without a character. */
  const UNKNOWN: char := 0 as char
  /** The byte echoed for an erased character. */
  const BACKSPACE_ECHO: char := 8 as char
  /** Characters for scan codes 0..127 without shift. */
  const LOWERCASE_KEYS: seq<char> := [
    UNKNOWN, UNKNOWN, '1', '2', '3', '4', '5', '6', '7', '8', '9', '0',
    '-', '=', UNKNOWN, '\t', 'q', 'w', 'e', 'r', 't', 'y', 'u', 'i',
    'o', 'p', '[', ']', '\n', UNKNOWN, 'a', 's', 'd', 'f', 'g', 'h',
    'j', 'k', 'l', ';', '\'', '`', UNKNOWN, '\\', 'z', 'x', 'c', 'v',
    'b', 'n', 'm', ',', '.', '/', UNKNOWN, '*', UNKNOWN, ' ', UNKNOWN, UNKNOWN,
    UNKNOWN, UNKNOWN, UNKNOWN, UNKNOWN, UNKNOWN, UNKNOWN, UNKNOWN, UNKNOWN, UNKNOWN, UNKNOWN, UNKNOWN, UNKNOWN,
    UNKNOWN, UNKNOWN, '-', UNKNOWN, UNKNOWN, UNKNOWN, '+', UNKNOWN, UNKNOWN, UNKNOWN, UNKNOWN, UNKNOWN,
    UNKNOWN, UNKNOWN, UNKNOWN, UNKNOWN, UNKNOWN, UNKNOWN, UNKNOWN, UNKNOWN, UNKNOWN, UNKNOWN, UNKNOWN, UNKNOWN,
    UNKNOWN, UNKNOWN, UNKNOWN, UNKNOWN, UNKNOWN, UNKNOWN, UNKNOWN, UNKNOWN, UNKNOWN, UNKNOWN, UNKNOWN, UNKNOWN,
    UNKNOWN, UNKNOWN, UNKNOWN, UNKNOWN, UNKNOWN, UNKNOWN, UNKNOWN, UNKNOWN, UNKNOWN, UNKNOWN, UNKNOWN, UNKNOWN,
    UNKNOWN, UNKNOWN, UNKNOWN, UNKNOWN, UNKNOWN, UNKNOWN, UNKNOWN, UNKNOWN
  ]
  /** Characters for scan codes 0..127 with shift held. */
  const UPPERCASE_KEYS: seq<char> := [
    UNKNOWN, UNKNOWN, '!', '@', '#', '$', '%', '^', '&', '*', '(', ')',
    '_', '+', UNKNOWN, '\t', 'Q', 'W', 'E', 'R', 'T', 'Y', 'U', 'I',
    'O', 'P', '{', '}', '\n', UNKNOWN, 'A', 'S', 'D', 'F', 'G', 'H',
    'J', 'K', 'L', ':', '"', '~', UNKNOWN, '|', 'Z', 'X', 'C', 'V',
    'B', 'N', 'M', '<', '>', '?', UNKNOWN, '*', UNKNOWN, ' ', UNKNOWN, UNKNOWN,
    UNKNOWN, UNKNOWN, UNKNOWN, UNKNOWN, UNKNOWN, UNKNOWN, UNKNOWN, UNKNOWN, UNKNOWN, UNKNOWN, UNKNOWN, UNKNOWN,
    UNKNOWN, UNKNOWN, '-', UNKNOWN, UNKNOWN, UNKNOWN, '+', UNKNOWN, UNKNOWN, UNKNOWN, UNKNOWN, UNKNOWN,
    UNKNOWN, UNKNOWN, UNKNOWN, UNKNOWN, UNKNOWN, UNKNOWN, UNKNOWN, UNKNOWN, UNKNOWN, UNKNOWN, UNKNOWN, UNKNOWN,
    UNKNOWN, UNKNOWN, UNKNOWN, UNKNOWN, UNKNOWN, UNKNOWN, UNKNOWN, UNKNOWN, UNKNOWN, UNKNOWN, UNKNOWN, UNKNOWN,
    UNKNOWN, UNKNOWN, UNKNOWN, UNKNOWN, UNKNOWN, UNKNOWN, UNKNOWN, UNKNOWN, UNKNOWN, UNKNOWN, UNKNOWN, UNKNOWN,
    UNKNOWN, UNKNOWN, UNKNOWN, UNKNOWN, UNKNOWN, UNKNOWN, UNKNOWN, UNKNOWN
  ]

  /** A key with a scan code of its own (not `Unknown`, not a character). */
  predicate Named(k: Key)
  {
    !k.Unknown? && !k.Char?
  }

  /** `Key::from`: the named key of a scan code, `Unknown` for all others. */
  function KeyFrom(value: bv8): (k: Key)
    ensures !k.Char?
    ensures Named(k) ==> CodeOf(k) == value
  {
    match value
    case 0x01 => Esc
    case 0x0E => Backspace
    case 0x0F => Tab
    case 0x1C => Enter
    case 0x1D => LCtrl
    case 0x2A => LShift
    case 0x2B => Backslash
    case 0x38 => LAlt
    case 0x39 => Space
    case 0x3A => CapsLock
    case 0x4B => LeftArrow
    case 0x60 => RightArrow
    case 0x48 => UpArrow
    case 0x50 => DownArrow
    case _ => Unknown
  }

  /** The scan code of a named key, the inverse of `KeyFrom`. */
  function CodeOf(k: Key): bv8
    requires Named(k)
  {
    match k
    case Esc => 0x01
    case Backspace => 0x0E
    case Tab => 0x0F
    case Enter => 0x1C
    case LCtrl => 0x1D
    case LShift => 0x2A
    case Backslash => 0x2B
    case LAlt => 0x38
    case Space => 0x39
    case CapsLock => 0x3A
    case LeftArrow => 0x4B
    case RightArrow => 0x60
    case UpArrow => 0x48
    case DownArrow => 0x50
  }

  /** Every named key is recognised from its own scan code. */
  lemma KeyFromCodeOf(k: Key)
    requires Named(k)
    ensures KeyFrom(CodeOf(k)) == k
  {
  }

  /** The scan code in the first port byte: its low seven bits. */
  function ScanCodeOf(first: bv8): (code: bv8)
    ensures code < 0x80
  {
    first & 0x7F
  }

  /** The driver's `is_pressed`: the top bit of the second port byte. */
  predicate PressedOf(second: bv8)
  {
    second & 0x80 != 0
  }

  /** The key `read_key` reports for a (masked) scan code, release bit and shift state. */
  function Decode(code: bv8, pressed: bool, shift: bool): Key
    requires code < 0x80
  {
    var key := KeyFrom(code);
    match key
    case LShift => Unknown
    case Unknown =>
      if !pressed then Char(if shift then UPPERCASE_KEYS[code as int] else LOWERCASE_KEYS[code as int])
      else Unknown
    case _ => if pressed then key else Unknown
  }

  /** The shift flag after a key: LShift sets it to the inverted top bit, other keys keep it. */
  function ShiftAfter(code: bv8, pressed: bool, shift: bool): bool
  {
    if KeyFrom(code) == LShift then !pressed else shift
  }

  /**
   * The decoder treats the top bit of the second byte oppositely for the two
   * kinds of key: a character comes only with the bit clear, a named key only
   * with it set; LShift never comes out.
   */
  lemma DecodeAsymmetry(code: bv8, pressed: bool, shift: bool)
    requires code < 0x80
    ensures Decode(code, pressed, shift).Char? <==> KeyFrom(code) == Unknown && !pressed
    ensures Named(Decode(code, pressed, shift)) <==> Named(KeyFrom(code)) && KeyFrom(code) != LShift && pressed
    ensures Named(Decode(code, pressed, shift)) ==> Decode(code, pressed, shift) == KeyFrom(code)
    ensures Decode(code, pressed, shift).Char? ==>
      Decode(code, pressed, shift).c == (if shift then UPPERCASE_KEYS else LOWERCASE_KEYS)[code]
  {
  }

  /** The line editor's state: buffer, cursor, echoed text, and whether the loop has ended. */
  datatype Line = Line(buf: seq<char>, pos: nat, echo: string, done: bool)

  /** One pass of the `get_line` loop body for `key`. */
  function EditKey(l: Line, key: Key): (r: Line)
    requires l.pos <= |l.buf| && !l.done
    ensures |r.buf| == |l.buf| && r.pos <= |r.buf|
  {
    match key
    case Backspace =>
      if l.pos == 0 then l
      else Line(l.buf[l.pos - 1 := UNKNOWN], l.pos - 1, l.echo + [BACKSPACE_ECHO], false)
    case Enter => Line(l.buf, l.pos, l.echo + "\n", true)
    case Space =>
      if l.pos < |l.buf| then Line(l.buf[l.pos := ' '], l.pos + 1, l.echo + " ", false)
      else Line(l.buf, l.pos, l.echo + " ", false)
    case Tab =>
      var n := Min(4, |l.buf| - l.pos);
      Line(l.buf[..l.pos] + Repeat(' ', n) + l.buf[l.pos + n..], l.pos + n, l.echo + Repeat(' ', n), false)
    case Char(ch) =>
      if ch == UNKNOWN then Line(l.buf, l.pos, l.echo, true)
      else if l.pos < |l.buf| && IsAsciiGraphic(ch) then Line(l.buf[l.pos := ch], l.pos + 1, l.echo + [ch], false)
      else Line(l.buf, l.pos, l.echo + [ch], false)
    case _ => l
  }

  /**
   * What one key does to the line: the loop ends exactly on Enter or the
   * NUL character; Backspace at the start changes nothing; Tab inserts up to
   * four spaces, as many as fit; a character is always echoed but stored only
   * when it is ASCII-graphic and the buffer has room; nothing but Backspace
   * touches what was already typed.
   */
  lemma EditKeyEffects(l: Line, key: Key)
    requires l.pos <= |l.buf| && !l.done
    ensures EditKey(l, key).done <==> key == Enter || key == Char(UNKNOWN)
    ensures key == Backspace && l.pos == 0 ==> EditKey(l, key) == l
    ensures key == Backspace && l.pos > 0 ==>
      EditKey(l, key).pos == l.pos - 1 && EditKey(l, key).buf[l.pos - 1] == UNKNOWN
    ensures key == Tab ==>
      var r := EditKey(l, key);
      r.pos == l.pos + Min(4, |l.buf| - l.pos) && r.echo == l.echo + Repeat(' ', r.pos - l.pos) &&
      r.buf[l.pos..r.pos] == Repeat(' ', r.pos - l.pos)
    ensures key.Char? && key.c != UNKNOWN ==>
      var r := EditKey(l, key);
      r.echo == l.echo + [key.c] && r.pos >= l.pos &&
      (r.pos == l.pos + 1 <==> IsAsciiGraphic(key.c) && l.pos < |l.buf|) &&
      (r.pos == l.pos + 1 ==> r.buf[l.pos] == key.c)
    ensures key != Backspace ==>
      EditKey(l, key).buf[..l.pos] == l.buf[..l.pos] && EditKey(l, key).pos >= l.pos
  {
  }

  /** The driver state after a session and how many byte pairs it consumed. */
  datatype Session = Session(line: Line, shift: bool, used: nat)

  /**
   * `get_line` fed with the byte pairs of successive key events: each pair is
   * decoded against the current shift state and edited into the line, until
   * the line is done or the input runs out.
   */
  function Feed(l: Line, shift: bool, input: seq<(bv8, bv8)>): (s: Session)
    requires l.pos <= |l.buf|
    ensures s.used <= |input|
    decreases |input|
  {
    if l.done || input == [] then Session(l, shift, 0)
    else
      var code := ScanCodeOf(input[0].0);
      var pressed := PressedOf(input[0].1);
      var next := Feed(EditKey(l, Decode(code, pressed, shift)), ShiftAfter(code, pressed, shift), input[1..]);
      next.(used := next.used + 1)
  }

  /** One step of a session: the first event is decoded, edited in, and counted. */
  lemma FeedStep(l: Line, shift: bool, input: seq<(bv8, bv8)>)
    requires l.pos <= |l.buf| && !l.done && input != []
    ensures
      var code := ScanCodeOf(input[0].0);
      var pressed := PressedOf(input[0].1);
      var f := Feed(EditKey(l, Decode(code, pressed, shift)), ShiftAfter(code, pressed, shift), input[1..]);
      Feed(l, shift, input) == f.(used := f.used + 1)
  {
  }

  /** The cursor never leaves the buffer and the buffer keeps its length, however long the session. */
  lemma {:induction false} FeedKeepsBounds(l: Line, shift: bool, input: seq<(bv8, bv8)>)
    requires l.pos <= |l.buf|
    ensures |Feed(l, shift, input).line.buf| == |l.buf|
    ensures Feed(l, shift, input).line.pos <= |l.buf|
    decreases |input|
  {
    if !l.done && input != [] {
      var code := ScanCodeOf(input[0].0);
      var pressed := PressedOf(input[0].1);
      FeedKeepsBounds(EditKey(l, Decode(code, pressed, shift)), ShiftAfter(code, pressed, shift), input[1..]);
    }
  }

  /** A session that stops before the input is exhausted stopped because the line was finished. */
  lemma {:induction false} FeedStopsOnlyWhenDone(l: Line, shift: bool, input: seq<(bv8, bv8)>)
    requires l.pos <= |l.buf|
    ensures Feed(l, shift, input).used < |input| ==> Feed(l, shift, input).line.done
    ensures Feed(l, shift, input).line.done && !l.done ==> Feed(l, shift, input).used > 0
    decreases |input|
  {
    if !l.done && input != [] {
      var code := ScanCodeOf(input[0].0);
      var pressed := PressedOf(input[0].1);
      FeedStopsOnlyWhenDone(EditKey(l, Decode(code, pressed, shift)), ShiftAfter(code, pressed, shift), input[1..]);
    }
  }

  /**
   * `l` and `shift` are where a session over `input` stands after `used`
   * events: finishing the session from there gives `whole`, the whole
   * session's result.
   */
  ghost predicate Resumes(whole: Session, input: seq<(bv8, bv8)>, l: Line, shift: bool, used: nat)
  {
    used <= |input| && l.pos <= |l.buf| &&
    var f := Feed(l, shift, input[used..]);
    whole == Session(f.line, f.shift, used + f.used)
  }

  /** A session resumes itself before its first event. */
  lemma ResumesStart(l: Line, shift: bool, input: seq<(bv8, bv8)>)
    requires l.pos <= |l.buf|
    ensures Resumes(Feed(l, shift, input), input, l, shift, 0)
  {
    assert input[0..] == input;
  }

  /** Taking the next event keeps a session resumable. */
  lemma ResumesStep(whole: Session, input: seq<(bv8, bv8)>, l: Line, shift: bool, used: nat)
    requires Resumes(whole, input, l, shift, used)
    requires !l.done && used < |input|
    ensures var code := ScanCodeOf(input[used].0);
      var pressed := PressedOf(input[used].1);
      Resumes(whole, input, EditKey(l, Decode(code, pressed, shift)), ShiftAfter(code, pressed, shift), used + 1)
  {
    FeedStep(l, shift, input[used..]);
    assert input[used..][1..] == input[used + 1..];
  }

  /** A resumable session that is finished, or out of input, is the whole session. */
  lemma ResumesEnd(whole: Session, input: seq<(bv8, bv8)>, l: Line, shift: bool, used: nat)
    requires Resumes(whole, input, l, shift, used)
    requires l.done || used == |input|
    ensures whole == Session(l, shift, used)
  {
  }

  /**
   * The body of the `get_line` loop for one key: edits `buffer` at the
   * cursor and extends the echo.
   */
  method ApplyKey(buffer: array<char>, pos0: nat, echo0: string, key: Key) returns (pos: nat, echo: string, done: bool)
    requires pos0 <= buffer.Length
    modifies buffer
    ensures Line(buffer[..], pos, echo, done) == EditKey(Line(old(buffer[..]), pos0, echo0, false), key)
  {
    var size := buffer.Length;
    pos, echo, done := pos0, echo0, false;
    match key {
      case Backspace =>
        if pos != 0 {
          pos := pos - 1;
          buffer[pos] := UNKNOWN;
          echo := echo + [BACKSPACE_ECHO];
        }
      case Enter =>
        echo := echo + "\n";
        done := true;
      case Space =>
        echo := echo + " ";
        if pos < size {
          buffer[pos] := ' ';
          pos := pos + 1;
        }
      case Tab =>
        pos, echo := InsertTab(buffer, pos0, echo0);
      case Char(ch) =>
        if ch == UNKNOWN {
          done := true;
        } else {
          echo := echo + [ch];
          if pos < size && IsAsciiGraphic(ch) {
            buffer[pos] := ch;
            pos := pos + 1;
          }
        }
      case _ =>
    }
  }

  /** The Tab branch of the `get_line` loop: up to four spaces, as many as fit after the cursor. */
  method InsertTab(buffer: array<char>, pos0: nat, echo0: string) returns (pos: nat, echo: string)
    requires pos0 <= buffer.Length
    modifies buffer
    ensures var n := Min(4, buffer.Length - pos0);
      pos == pos0 + n && echo == echo0 + Repeat(' ', n) &&
      buffer[..] == old(buffer[..pos0]) + Repeat(' ', n) + old(buffer[pos0 + n..])
  {
    ghost var buf := buffer[..];
    pos, echo := pos0, echo0;
    var i := 0;
    while pos < buffer.Length && i < 4
      invariant 0 <= i <= 4 && pos0 + i == pos <= buffer.Length
      invariant buffer[..] == buf[..pos0] + Repeat(' ', i) + buf[pos..]
      invariant echo == echo0 + Repeat(' ', i)
    {
      buffer[pos] := ' ';
      pos := pos + 1;
      i := i + 1;
      echo := echo + " ";
    }
  }

  /** The driver's `SCAN_CODE` and `IS_PRESSED` after it has read the byte pair `event`. */
  ghost predicate Reports(code: bv8, pressed: bool, event: (bv8, bv8))
  {
    code == ScanCodeOf(event.0) && pressed == PressedOf(event.1)
  }

  /** The driver's statics `SCAN_CODE`, `IS_PRESSED` and `IS_SHIFT`. */
  class Driver {
    var scanCode: bv8
    var isPressed: bool
    var isShift: bool

    constructor ()
      ensures scanCode == 0 && !isPressed && !isShift
    {
      scanCode, isPressed, isShift := 0, false, false;
    }

    /**
     * `read_key` after the status port reports a byte: `first` and `second`
     * are the two bytes read from port 0x60.
     */
    method ReadKey(first: bv8, second: bv8) returns (key: Key)
      modifies this
      ensures scanCode == ScanCodeOf(first) && scanCode < 0x80
      ensures isPressed == PressedOf(second)
      ensures isShift == ShiftAfter(scanCode, isPressed, old(isShift))
      ensures key == Decode(scanCode, isPressed, old(isShift))
    {
      scanCode := ScanCodeOf(first);
      isPressed := PressedOf(second);
      var code := scanCode;
      var pressed := isPressed;
      var shift := isShift;
      var k := KeyFrom(code);
      match k {
        case LShift =>
          isShift := !pressed;
        case Unknown =>
          if !pressed {
            var pos := code as int;
            var ch := if shift then UPPERCASE_KEYS[pos] else LOWERCASE_KEYS[pos];
            return Char(ch);
          }
        case _ =>
          if pressed {
            return k;
          }
      }
      return Unknown;
    }

    /** One pass of the `get_line` loop: read the next key event and edit it into the line. */
    method NextKey(buffer: array<char>, pos0: nat, echo0: string, event: (bv8, bv8))
      returns (pos: nat, echo: string, done: bool)
      requires pos0 <= buffer.Length
      modifies this, buffer
      ensures var code, pressed := ScanCodeOf(event.0), PressedOf(event.1);
        Line(buffer[..], pos, echo, done) ==
          EditKey(Line(old(buffer[..]), pos0, echo0, false), Decode(code, pressed, old(isShift))) &&
        isShift == ShiftAfter(code, pressed, old(isShift))
      ensures Reports(scanCode, isPressed, event)
    {
      var key := ReadKey(event.0, event.1);
      pos, echo, done := ApplyKey(buffer, pos0, echo0, key);
    }

    /**
     * `get_line`: reads keys until Enter or a character code without a
     * character, editing `buffer`; `input` supplies the port bytes of each
     * key event. Returns the echoed text, the number of events consumed,
     * and whether the line was finished before the input ran out.
     */
    method GetLine(buffer: array<char>, input: seq<(bv8, bv8)>) returns (echo: string, used: nat, done: bool)
      modifies this, buffer
      ensures var s := Feed(Line(old(buffer[..]), 0, "", false), old(isShift), input);
        buffer[..] == s.line.buf && echo == s.line.echo && done == s.line.done &&
        isShift == s.shift && used == s.used
      ensures used > 0 ==> Reports(scanCode, isPressed, input[used - 1])
    {
      var pos: nat := 0;
      echo, used, done := "", 0, false;
      ghost var whole := Feed(Line(buffer[..], 0, "", false), isShift, input);
      ResumesStart(Line(buffer[..], 0, "", false), isShift, input);
      while used < |input|
        invariant Resumes(whole, input, Line(buffer[..], pos, echo, false), isShift, used)
        invariant used > 0 ==> Reports(scanCode, isPressed, input[used - 1])
        decreases |input| - used
      {
        ResumesStep(whole, input, Line(buffer[..], pos, echo, false), isShift, used);
        pos, echo, done := NextKey(buffer, pos, echo, input[used]);
        used := used + 1;
        if done {
          ResumesEnd(whole, input, Line(buffer[..], pos, echo, done), isShift, used);
          return;
        }
      }
      ResumesEnd(whole, input, Line(buffer[..], pos, echo, false), isShift, used);
    }
  }
}
