/** The termbox vocabulary: keys, modifiers, modes, attributes, cells and
    events. The file that declares these constants is not part of this
    model; their values are those of the termbox-go library the package
    derives from (README lists them). */
module Termbox {
  import opened Bytes
  import opened Utf8

  // Go's uint16 Key, uint8 Modifier and uint16 Attribute
  type Key = k: int | 0 <= k < 0x1_0000
  type Modifier = m: int | 0 <= m < 0x100
  type Attribute = a: int | 0 <= a < 0x1_0000

  // Bit tests on two's complement integers: Dafny's / and % are Euclidean,
  // so (n / 2^k) % 2 is bit k of n also for negative n.
  predicate HasBit(n: int, bit: nat)
    requires bit > 0
  {
    (n / bit) % 2 == 1
  }

  /** n | bit for a single-bit mask: the bit is set, and the bits below it
      (n % bit) and above it (n / (2 * bit)) are those of n. */
  function SetBit(n: int, bit: nat): (r: int)
    requires bit > 0
    ensures HasBit(r, bit)
    ensures r % bit == n % bit && r / (2 * bit) == n / (2 * bit)
  {
    if HasBit(n, bit) then n else BitFlip(n, bit, 1); n + bit
  }

  /** n &^ bit for a single-bit mask: the bit is clear, and every other bit
      is that of n. */
  function ClearBit(n: int, bit: nat): (r: int)
    requires bit > 0
    ensures !HasBit(r, bit)
    ensures r % bit == n % bit && r / (2 * bit) == n / (2 * bit)
  {
    if HasBit(n, bit) then BitFlip(n, bit, -1); n - bit else n
  }

  /** Adding bit to n whose bit is clear (k = 1), or taking it from n whose
      bit is set (k = -1), flips that bit and leaves the others. */
  lemma BitFlip(n: int, bit: nat, k: int)
    requires bit > 0 && (k == 1 || k == -1)
    requires HasBit(n, bit) == (k == -1)
    ensures HasBit(n + k * bit, bit) != HasBit(n, bit)
    ensures (n + k * bit) % bit == n % bit && (n + k * bit) / (2 * bit) == n / (2 * bit)
  {
    ShiftQuotient(n, bit, k);
    DivDiv(n, bit);
    DivDiv(n + k * bit, bit);
  }

  /** Dividing by 2 * b is dividing by b, then by 2. */
  lemma DivDiv(x: int, b: nat)
    requires b > 0
    ensures x / (2 * b) == (x / b) / 2
  {
    var d := 2 * b;
    var q, r := x / b, x % b;
    var h, m := q / 2, q % 2;
    assert x == q * b + r && 0 <= r < b;
    assert q == 2 * h + m && (m == 0 || m == 1);
    assert q * b == h * d + m * b by {
      calc {
        q * b;
        (2 * h + m) * b;
        h * (2 * b) + m * b;
      }
    }
    var low := r + m * b;
    assert 0 <= low < d;
    assert x == low + h * d;
    SmallQuotient(low, d);
    ShiftQuotient(low, d, h);
  }

  /** A number below the divisor has quotient 0. */
  lemma SmallQuotient(n: int, d: nat)
    requires 0 <= n < d
    ensures n / d == 0
  {
    var q := n / d;
    assert n == q * d + n % d;
    assert q >= 1 ==> q * d >= d;
  }

  /** Adding k times the divisor moves the quotient by k. */
  lemma ShiftQuotient(n: int, d: nat, k: int)
    requires d > 0
    ensures (n + k * d) / d == n / d + k
  {
    var q, m := n / d, n % d;
    var q', m' := (n + k * d) / d, (n + k * d) % d;
    assert (q' - q - k) * d == m - m' by {
      assert n + k * d == q' * d + m';
      assert n == q * d + m;
    }
    var e := q' - q - k;
    assert e >= 1 ==> e * d >= d;
    assert e <= -1 ==> e * d + d <= 0;
  }

  /** Go's & on an int64 tests the bits of its two's complement pattern,
      which for a negative n is the uint64 n + 2^64. For every mask below
      2^64, HasBit and the low two bits read the same from n as from that
      pattern, so they model & on negative values too. */
  lemma TwosComplementBit(n: int, bit: nat)
    requires bit > 0 && TWO_63 % bit == 0
    ensures HasBit(n + TWO_64, bit) == HasBit(n, bit)
    ensures (n + TWO_64) % 4 == n % 4
  {
    var k := 2 * (TWO_63 / bit);
    assert k * bit == TWO_64;
    ShiftQuotient(n, bit, k);
    ShiftQuotient(n, 4, TWO_64 / 4);
  }

  // Single-byte keys
  const KeyCtrlC: Key := 0x03
  const KeyEsc: Key := 0x1B
  const KeySpace: Key := 0x20
  const KeyBackspace2: Key := 0x7F

  // Keys numbered down from 0xFFFF: the function keys in terminfo table
  // order (KeyF1 = 0xFFFF, ..., KeyArrowRight = 0xFFEA), then the mouse.
  const KeyF1: Key := 0xFFFF
  const KeyArrowUp: Key := 0xFFED
  const KeyArrowDown: Key := 0xFFEC
  const KeyArrowLeft: Key := 0xFFEB
  const KeyArrowRight: Key := 0xFFEA
  const MouseLeft: Key := 0xFFE8
  const MouseMiddle: Key := 0xFFE7
  const MouseRight: Key := 0xFFE6
  const MouseRelease: Key := 0xFFE5
  const MouseWheelUp: Key := 0xFFE4
  const MouseWheelDown: Key := 0xFFE3

  const ModAlt: Modifier := 1
  const ModMotion: Modifier := 2

  const InputCurrent: int := 0
  const InputEsc: int := 1
  const InputAlt: int := 2
  const InputMouse: int := 4

  const OutputCurrent: int := 0
  const OutputNormal: int := 1
  const Output256: int := 2
  const Output216: int := 3
  const OutputGrayscale: int := 4

  const ColorDefault: Attribute := 0
  const ColorBlack: Attribute := 1
  const ColorWhite: Attribute := 8
  const AttrBold: Attribute := 0x200
  const AttrUnderline: Attribute := 0x400
  const AttrReverse: Attribute := 0x800

  /** One display cell: a rune with its foreground and background attributes. */
  datatype Cell = Cell(ch: rune, fg: Attribute, bg: Attribute)

  datatype EventType = EventKey | EventResize | EventMouse | EventError | EventInterrupt | EventRaw | EventNone

  /** termbox's Event record; the error value of EventError is not modelled. */
  datatype Event = Event(
    kind: EventType,
    mod: Modifier,
    key: Key,
    ch: rune,
    width: int,
    height: int,
    mouseX: int,
    mouseY: int,
    n: int)

  /** Go's zero value `var event Event` (its Type is EventKey, which is 0). */
  const ZeroEvent: Event := Event(EventKey, 0, 0, 0, 0, 0, 0, 0, 0)

  /** The termbox constant KeyF1 - i for the i-th terminfo key, as a uint16. */
  function TableKey(i: nat): Key {
    (0xFFFF - i) % 0x1_0000
  }
}
