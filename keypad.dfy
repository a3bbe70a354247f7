/** Keyboard polling (`check_key_input` in src/lib.rs): the 16 logical keys
    0..F of the emulated keypad are driven by the left-hand block of a
    QWERTY keyboard,

        1 2 3 4        1 2 3 C
        Q W E R   ->   4 5 6 D
        A S D F        7 8 9 E
        Z X C V        A 0 B F
*/
module Keypad {
  import opened Emulator

  datatype Option<T> = None | Some(value: T)

  /** The host keys the front end looks at. Escape closes the window and
      drives no logical key. */
  datatype Key = Key1 | Key2 | Key3 | Key4 | Q | W | E | R | A | S | D | F | Z | X | C | V | Escape

  /** KEYMAP[i] is the host key that drives logical key i. */
  const KEYMAP: seq<Key> := [X, Key1, Key2, Key3, Q, W, E, A, S, D, Z, C, Key4, R, F, V]

  /** The logical key a host key drives, if any. */
  function SlotOf(k: Key): Option<nat>
  {
    match k
    case X => Some(0x0)
    case Key1 => Some(0x1)
    case Key2 => Some(0x2)
    case Key3 => Some(0x3)
    case Q => Some(0x4)
    case W => Some(0x5)
    case E => Some(0x6)
    case A => Some(0x7)
    case S => Some(0x8)
    case D => Some(0x9)
    case Z => Some(0xA)
    case C => Some(0xB)
    case Key4 => Some(0xC)
    case R => Some(0xD)
    case F => Some(0xE)
    case V => Some(0xF)
    case Escape => None
  }

  /** The keypad state for a snapshot of the host keys held this frame. */
  function KeysFor(held: set<Key>): seq<bool>
  {
    seq(KEY_COUNT, i requires 0 <= i < KEY_COUNT => KEYMAP[i] in held)
  }

  /** The table and SlotOf are inverse: every logical key has exactly one host
      key, and only Escape is unmapped. */
  lemma SlotOfInverse(k: Key, i: nat)
    requires i < KEY_COUNT
    ensures |KEYMAP| == KEY_COUNT
    ensures SlotOf(KEYMAP[i]) == Some(i)
    ensures SlotOf(k) == Some(i) <==> KEYMAP[i] == k
    ensures SlotOf(k) == None <==> k == Escape
  {
  }

  /** No host key drives two logical keys. */
  lemma KeymapInjective(i: nat, j: nat)
    requires i < KEY_COUNT && j < KEY_COUNT && i != j
    ensures |KEYMAP| == KEY_COUNT && KEYMAP[i] != KEYMAP[j]
  {
    SlotOfInverse(KEYMAP[i], i);
    SlotOfInverse(KEYMAP[j], j);
  }

  /** The slot of a mapped host key reports exactly whether that key is held. */
  lemma SlotReflectsKey(held: set<Key>, k: Key, i: nat)
    requires SlotOf(k) == Some(i)
    ensures i < KEY_COUNT && |KeysFor(held)| == KEY_COUNT
    ensures KeysFor(held)[i] <==> k in held
  {
    if i < KEY_COUNT {
      SlotOfInverse(k, i);
    }
  }

  /** Holding one mapped key alone sets its slot and only its slot. */
  lemma SingleKey(k: Key, i: nat, j: nat)
    requires SlotOf(k) == Some(i) && j < KEY_COUNT
    ensures |KeysFor({k})| == KEY_COUNT
    ensures KeysFor({k})[j] <==> j == i
  {
    SlotOfInverse(k, j);
  }

  /** Holding W sets logical key 5 and nothing else. */
  lemma HoldingW()
    ensures KeysFor({W}) == [false, false, false, false, false, true, false, false,
                             false, false, false, false, false, false, false, false]
  {
    var keys := KeysFor({W});
    forall j | 0 <= j < KEY_COUNT
      ensures keys[j] <==> j == 5
    {
      SingleKey(W, 5, j);
    }
  }

  /** With no key held every slot is clear. */
  lemma NoKeysHeld(j: nat)
    requires j < KEY_COUNT
    ensures |KeysFor({})| == KEY_COUNT && !KeysFor({})[j]
  {
  }

  /** Keys outside the table (Escape) have no effect on the keypad state. */
  lemma OnlyMappedKeysMatter(held: set<Key>, other: set<Key>)
    requires forall h :: SlotOf(h) != None ==> (h in held <==> h in other)
    ensures KeysFor(held) == KeysFor(other)
  {
    forall i | 0 <= i < KEY_COUNT
      ensures KeysFor(held)[i] == KeysFor(other)[i]
    {
      SlotOfInverse(KEYMAP[i], i);
    }
  }

  /** `check_key_input`: overwrites every slot of the keypad with whether its
      host key is held right now; the rest of the machine is untouched. The
      sixteen writes, one per slot, are made as one simultaneous assignment
      over KEYMAP. */
  method CheckKeyInput(chip8: Chip8Sys, held: set<Key>)
    requires chip8.Valid()
    modifies chip8.keys
    ensures chip8.keys[..] == KeysFor(held)
  {
    forall i | 0 <= i < KEY_COUNT {
      chip8.keys[i] := KEYMAP[i] in held;
    }
  }
}
