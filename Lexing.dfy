/**
 * The host lexer as the scanner sees it: a cursor over the input, the
 * lookahead character, the marked end of the token and the result symbol.
 *
 * `Cursor` is the lexer's state as a value; `Lexer` is the object the scanner
 * drives, and `Lexer.View()` is its state as a `Cursor`. Character classes are
 * restricted to ASCII.
 */
module Lexing {
  import opened Wrappers
  import opened Tags

  /** The lookahead at `i`: '\0' past the end, as the host reports end of input. */
  function At(s: seq<char>, i: nat): char {
    if i < |s| then s[i] else '\0'
  }

  /** The position after one advance; advancing at the end does nothing. */
  function Adv(s: seq<char>, i: nat): nat {
    if i < |s| then i + 1 else i
  }

  /** `iswspace` on ASCII: space, tab, line feed, vertical tab, form feed, carriage return. */
  predicate IsSpace(c: char) {
    c == ' ' || '\t' <= c <= '\r'
  }

  /** `iswalnum` on ASCII. */
  predicate IsAlnum(c: char) {
    'a' <= c <= 'z' || 'A' <= c <= 'Z' || '0' <= c <= '9'
  }

  /** `towupper` on ASCII. */
  function Upper(c: char): char {
    if 'a' <= c <= 'z' then (c as int - 32) as char else c
  }

  /** The upper-cased character as the byte that `string += wint_t` stores. */
  function UpperByte(c: char): Byte {
    (Upper(c) as int) % 256
  }

  /** True when `lit` occurs in `s` at `i`. */
  predicate StartsWith(s: seq<char>, i: nat, lit: seq<char>) {
    i + |lit| <= |s| && s[i..i + |lit|] == lit
  }

  /**
   * The lexer's state: the input, the start of the current token (moved by
   * skipping), the read position, the marked end if any, and the result symbol.
   */
  datatype Cursor = Cursor(input: seq<char>, start: nat, pos: nat, mark: Option<nat>, result: Option<Token>)
  {
    predicate Valid() {
      pos <= |input|
    }

    function Peek(): char {
      At(input, pos)
    }

    function Advance(): Cursor {
      this.(pos := Adv(input, pos))
    }

    /** Advancing in skip mode moves the token start along with the position. */
    function Skip(): Cursor {
      var p := Adv(input, pos);
      this.(pos := p, start := p)
    }

    function MarkEnd(): Cursor {
      this.(mark := Some(pos))
    }

    function Emit(t: Token): Cursor {
      this.(result := Some(t))
    }

    /** Where the emitted token ends: the marked end, or the position when none was marked. */
    function TokenEnd(): nat {
      if mark.Some? then mark.value else pos
    }
  }

  /** The scanner's persistent state, the tag stack, together with the lexer's. */
  datatype State = State(tags: seq<Tag>, cur: Cursor)

  /** What a sub-scanner that may touch the stack returns and leaves behind. */
  datatype Step = Step(ok: bool, next: State)

  /** What a sub-scanner that only moves the cursor returns and leaves behind. */
  datatype Outcome = Outcome(ok: bool, cur: Cursor)

  /** The host lexer object, with the operations the scanner's macros expand to. */
  class Lexer {
    const input: seq<char>
    var start: nat
    var pos: nat
    var mark: Option<nat>
    var result: Option<Token>

    function View(): Cursor
      reads this
    {
      Cursor(input, start, pos, mark, result)
    }

    predicate Valid()
      reads this
    {
      pos <= |input|
    }

    constructor (input: seq<char>)
      ensures View() == Cursor(input, 0, 0, None, None)
      ensures Valid()
    {
      this.input := input;
      start, pos := 0, 0;
      mark, result := None, None;
    }

    /** PEEK */
    function Peek(): char
      reads this
    {
      At(input, pos)
    }

    /** S_ADVANCE */
    method Advance()
      requires Valid()
      modifies this
      ensures Valid()
      ensures View() == old(View()).Advance()
    {
      if pos < |input| {
        pos := pos + 1;
      }
    }

    /** S_SKIP */
    method Skip()
      requires Valid()
      modifies this
      ensures Valid()
      ensures View() == old(View()).Skip()
    {
      if pos < |input| {
        pos := pos + 1;
      }
      start := pos;
    }

    /** S_MARK_END */
    method MarkEnd()
      requires Valid()
      modifies this
      ensures Valid()
      ensures View() == old(View()).MarkEnd()
    {
      mark := Some(pos);
    }

    /** S_RESULT */
    method Emit(t: Token)
      requires Valid()
      modifies this
      ensures Valid()
      ensures View() == old(View()).Emit(t)
    {
      result := Some(t);
    }
  }
}
