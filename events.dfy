/**
 * Input events as the terminal library delivers them: a key event carries a
 * key code and a character code point (0 for special keys); every other
 * kind of event (resize, mouse) is `OtherEvent`.
 */
module Events {

  /**
   * The keys the core tells apart. `OtherKey` carries a code that is none of
   * the named keys' codes: a code termbox delivers for a named key (0x0D is
   * both Enter and Ctrl+M) is always that named key.
   */
  datatype Key = Esc | ArrowUp | ArrowDown | Enter | Backspace | Backspace2 | OtherKey(code: nat)

  datatype Event = KeyEvent(key: Key, ch: nat) | OtherEvent

  /** True when `e` is a key event for `k`. */
  predicate IsKey(e: Event, k: Key) {
    e.KeyEvent? && e.key == k
  }
}
