/**
 * The prompt line editor: what prompt_user leaves in the 128-byte prompt
 * buffer after a sequence of input events. A character key stores its code
 * point truncated to a byte at the write index and advances it; a backspace
 * moves the index back unless it is 0; Enter stores a NUL at the index and
 * ends the prompt; non-key events are ignored.
 */
module Prompt {
  import opened Events
  import opened CStrings

  /** TQ_PROMPT_BUFFER_CAPACITY. */
  const Capacity: nat := 128

  /** A C `char` of the prompt buffer, as its 8 bits. */
  newtype byte = x: int | 0 <= x < 256

  /** The assignment of a 32-bit code point to a `char`: only the low 8 bits are kept. */
  function ToByte(ch: nat): (r: byte)
    ensures ch < 256 ==> r as int == ch
    ensures (ch - r as int) % 256 == 0
  {
    (ch % 256) as byte
  }

  predicate IsBackspace(k: Key) {
    k == Backspace || k == Backspace2
  }

  /** The live text after a backspace. */
  function DropLast(line: seq<byte>): seq<byte> {
    if line == [] then [] else line[..|line| - 1]
  }

  /**
   * How a prompt ends: Enter was read with `line` live and `unread` events
   * left over; or the events ran out with `line` live; or an event would make
   * prompt_user store a byte at index Capacity, past the end of the buffer.
   */
  datatype EditOutcome = Entered(line: seq<byte>, unread: nat) | Waiting(line: seq<byte>) | Overflow

  /** What prompt_user makes of `events` when `line` is already live. */
  function Edit(line: seq<byte>, events: seq<Event>): (r: EditOutcome)
    requires |line| <= Capacity
    ensures r.Entered? ==> |r.line| < Capacity && r.unread < |events|
    ensures r.Waiting? ==> |r.line| <= Capacity
    decreases |events|
  {
    if events == [] then Waiting(line)
    else match events[0]
      case OtherEvent => Edit(line, events[1..])
      case KeyEvent(key, ch) =>
        if key == Enter then
          if |line| < Capacity then Entered(line, |events| - 1) else Overflow
        else if IsBackspace(key) then Edit(DropLast(line), events[1..])
        else if |line| < Capacity then Edit(line + [ToByte(ch)], events[1..])
        else Overflow
  }

  /** True when `e` is a key that prompt_user stores as a character. */
  predicate IsTyped(e: Event) {
    e.KeyEvent? && e.key != Enter && !IsBackspace(e.key)
  }

  /** The bytes a run of typed keys stores. */
  function TypedBytes(keys: seq<Event>): (r: seq<byte>)
    requires forall i :: 0 <= i < |keys| ==> IsTyped(keys[i])
    ensures |r| == |keys|
  {
    if keys == [] then [] else assert IsTyped(keys[0]); [ToByte(keys[0].ch)] + TypedBytes(keys[1..])
  }

  /** Typing a run of characters that fits appends their bytes to the live text. */
  lemma {:induction false} TypingAppends(line: seq<byte>, keys: seq<Event>, rest: seq<Event>)
    requires forall i :: 0 <= i < |keys| ==> IsTyped(keys[i])
    requires |line| + |keys| <= Capacity
    ensures Edit(line, keys + rest) == Edit(line + TypedBytes(keys), rest)
    decreases |keys|
  {
    if keys != [] {
      assert IsTyped(keys[0]) && (keys + rest)[0] == keys[0];
      assert (keys + rest)[1..] == keys[1..] + rest;
      assert Edit(line, keys + rest) == Edit(line + [ToByte(keys[0].ch)], keys[1..] + rest);
      assert line + [ToByte(keys[0].ch)] + TypedBytes(keys[1..]) == line + TypedBytes(keys);
      TypingAppends(line + [ToByte(keys[0].ch)], keys[1..], rest);
    } else {
      assert keys + rest == rest && line + TypedBytes(keys) == line;
    }
  }

  /** A backspace right after a typed character takes that character back. */
  lemma BackspaceUndoesTyping(line: seq<byte>, c: Event, b: Event, rest: seq<Event>)
    requires |line| < Capacity && IsTyped(c) && b.KeyEvent? && IsBackspace(b.key)
    ensures Edit(line, [c, b] + rest) == Edit(line, rest)
  {
    assert ([c, b] + rest)[1..] == [b] + rest;
    assert ([b] + rest)[1..] == rest;
    assert DropLast(line + [ToByte(c.ch)]) == line;
  }

  /** A backspace on empty input changes nothing. */
  lemma BackspaceOnEmpty(b: Event, rest: seq<Event>)
    requires b.KeyEvent? && IsBackspace(b.key)
    ensures Edit([], [b] + rest) == Edit([], rest)
  {
    assert ([b] + rest)[1..] == rest;
  }

  /** Enter on a line shorter than the buffer submits it. */
  lemma EnterSubmits(line: seq<byte>, enter: Event, rest: seq<Event>)
    requires |line| < Capacity && IsKey(enter, Enter)
    ensures Edit(line, [enter] + rest) == Entered(line, |rest|)
  {
    assert ([enter] + rest)[0] == enter;
  }

  /** Enter on a full line has no room for the NUL. */
  lemma EnterOverflows(line: seq<byte>, enter: Event, rest: seq<Event>)
    requires |line| == Capacity && IsKey(enter, Enter)
    ensures Edit(line, [enter] + rest) == Overflow
  {
    assert ([enter] + rest)[0] == enter;
  }

  /**
   * Typing a word and pressing Enter submits exactly the word, provided
   * it is shorter than the buffer (one byte is kept for the NUL).
   */
  lemma TypedLineIsSubmitted(keys: seq<Event>, enter: Event, rest: seq<Event>)
    requires forall i :: 0 <= i < |keys| ==> IsTyped(keys[i])
    requires |keys| < Capacity && IsKey(enter, Enter)
    ensures Edit([], keys + [enter] + rest) == Entered(TypedBytes(keys), |rest|)
  {
    assert keys + [enter] + rest == keys + ([enter] + rest);
    TypingAppends([], keys, [enter] + rest);
    assert [] + TypedBytes(keys) == TypedBytes(keys);
    EnterSubmits(TypedBytes(keys), enter, rest);
  }

  /** A line of exactly Capacity typed characters leaves no room for the NUL that Enter stores. */
  lemma FullLineOverflows(keys: seq<Event>, enter: Event, rest: seq<Event>)
    requires forall i :: 0 <= i < |keys| ==> IsTyped(keys[i])
    requires |keys| == Capacity && IsKey(enter, Enter)
    ensures Edit([], keys + [enter] + rest) == Overflow
  {
    assert keys + [enter] + rest == keys + ([enter] + rest);
    TypingAppends([], keys, [enter] + rest);
    assert [] + TypedBytes(keys) == TypedBytes(keys);
    EnterOverflows(TypedBytes(keys), enter, rest);
  }

  /**
   * The C string left in a buffer whose first |line| bytes are `line`,
   * followed by the NUL Enter stores, is `line` when no typed byte is 0
   * (a special key other than Enter and backspace stores code point 0).
   */
  lemma SubmittedCString(buffer: seq<byte>, line: seq<byte>)
    requires |line| < |buffer| && buffer[..|line|] == line && buffer[|line|] == 0
    requires 0 !in line
    ensures UntilNul(buffer, 0) == line
  {
    assert buffer == line + [0] + buffer[|line| + 1..];
    UntilNulOfTerminated(line, 0, buffer[|line| + 1..]);
  }
}
