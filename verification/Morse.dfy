/** The Morse LED of `4_driver/kernel_morse.c`: what the LED shows for a message, and that the message
    can be read off it. */
module Morse {
  import opened Files

  /** A code word: `len` dots and dashes, most significant bit first, 1 for a dash. */
  datatype Item = Item(len: nat, code: nat)

  /** The table `alphabet`, by character; the entries left out here have no code. */
  function Alphabet(c: byte): Item {
    match c as int
    case 33 => Item(5, 0x06)
    case 34 => Item(6, 0x12)
    case 39 => Item(6, 0x1E)
    case 44 => Item(6, 0x33)
    case 46 => Item(6, 0x16)
    case 48 => Item(5, 0x1F)
    case 49 => Item(5, 0x0F)
    case 50 => Item(5, 0x07)
    case 51 => Item(5, 0x03)
    case 52 => Item(5, 0x01)
    case 53 => Item(5, 0x00)
    case 54 => Item(5, 0x10)
    case 55 => Item(5, 0x18)
    case 56 => Item(5, 0x1C)
    case 57 => Item(5, 0x1E)
    case 58 => Item(6, 0x38)
    case 61 => Item(5, 0x11)
    case 63 => Item(6, 0x0C)
    case 65 => Item(2, 0x01)
    case 66 => Item(4, 0x08)
    case 67 => Item(4, 0x0A)
    case 68 => Item(3, 0x04)
    case 69 => Item(1, 0x00)
    case 70 => Item(4, 0x02)
    case 71 => Item(3, 0x06)
    case 72 => Item(4, 0x00)
    case 73 => Item(2, 0x00)
    case 74 => Item(4, 0x07)
    case 75 => Item(3, 0x05)
    case 76 => Item(4, 0x04)
    case 77 => Item(2, 0x03)
    case 78 => Item(2, 0x02)
    case 79 => Item(3, 0x07)
    case 80 => Item(4, 0x06)
    case 81 => Item(4, 0x0D)
    case 82 => Item(3, 0x02)
    case 83 => Item(3, 0x00)
    case 84 => Item(1, 0x01)
    case 85 => Item(3, 0x01)
    case 86 => Item(4, 0x01)
    case 87 => Item(3, 0x03)
    case 88 => Item(4, 0x09)
    case 89 => Item(4, 0x0B)
    case 90 => Item(4, 0x0C)
    case _ => Item(0, 0x00)
  }

  /** Its inverse. */
  function Letter(item: Item): int {
    match item.len
    case 1 => match item.code {
      case 0 => 69
      case 1 => 84
      case _ => 32
    }
    case 2 => match item.code {
      case 1 => 65
      case 0 => 73
      case 3 => 77
      case 2 => 78
      case _ => 32
    }
    case 3 => match item.code {
      case 4 => 68
      case 6 => 71
      case 5 => 75
      case 7 => 79
      case 2 => 82
      case 0 => 83
      case 1 => 85
      case 3 => 87
      case _ => 32
    }
    case 4 => match item.code {
      case 8 => 66
      case 10 => 67
      case 2 => 70
      case 0 => 72
      case 7 => 74
      case 4 => 76
      case 6 => 80
      case 13 => 81
      case 1 => 86
      case 9 => 88
      case 11 => 89
      case 12 => 90
      case _ => 32
    }
    case 5 => match item.code {
      case 6 => 33
      case 31 => 48
      case 15 => 49
      case 7 => 50
      case 3 => 51
      case 1 => 52
      case 0 => 53
      case 16 => 54
      case 24 => 55
      case 28 => 56
      case 30 => 57
      case 17 => 61
      case _ => 32
    }
    case 6 => match item.code {
      case 18 => 34
      case 30 => 39
      case 51 => 44
      case 22 => 46
      case 56 => 58
      case 12 => 63
      case _ => 32
    }
    case _ => 32
  }

  const GAP_CODE := 250
  const GAP_CHAR := 2000
  const DOT_LEN := 250
  const DASH_LEN := 1000

  const SPACE: byte := 32

  function Validate(ascii: byte): (c: byte)
    ensures 32 <= c <= 90
  {
    if 32 <= ascii <= 90 then ascii else SPACE
  }

  function Entry(ascii: byte): Item {
    Alphabet(Validate(ascii))
  }

  function Shr(code: nat, n: nat): nat {
    if n == 0 then code else Shr(code / 2, n - 1)
  }

  /** Bit i of a code word, as the driver takes it: `code >> (len - 1 - i) & 1`. */
  function Bit(item: Item, i: nat): bool
    requires i < item.len
  {
    Shr(item.code, item.len - 1 - i) % 2 == 1
  }

  function Bits(item: Item): seq<bool> {
    seq(item.len, i requires 0 <= i < item.len => Bit(item, i))
  }

  /** The LED's state, one sample a millisecond. */
  type Wave = seq<bool>

  function Hold(on: bool, ms: nat): (w: Wave)
    ensures |w| == ms && forall i :: 0 <= i < ms ==> w[i] == on
  {
    seq(ms, _ => on)
  }

  function PulseWave(isLong: bool): Wave {
    Hold(true, if isLong then DASH_LEN else DOT_LEN) + Hold(false, GAP_CODE)
  }

  function Join(ws: seq<Wave>): Wave {
    if ws == [] then [] else ws[0] + Join(ws[1..])
  }

  lemma {:induction false} JoinSnoc(ws: seq<Wave>, w: Wave)
    ensures Join(ws + [w]) == Join(ws) + w
  {
    if ws == [] {
      assert [w][1..] == [] && [] + [w] == [w];
      assert Join([w]) == w + Join([]);
    } else {
      JoinSnoc(ws[1..], w);
      assert (ws + [w])[1..] == ws[1..] + [w];
      assert ws[0] + (Join(ws[1..]) + w) == ws[0] + Join(ws[1..]) + w;
    }
  }

  function PulsesWave(bits: seq<bool>): Wave {
    Join(seq(|bits|, i requires 0 <= i < |bits| => PulseWave(bits[i])))
  }

  function CharWave(ascii: byte): Wave {
    PulsesWave(Bits(Entry(ascii))) + Hold(false, GAP_CHAR)
  }

  /** From the first `led_off` of `morse_handle` to its final `led_on`. */
  function MessageWave(message: seq<byte>): Wave {
    Join(CharWaves(message))
  }

  function CharWaves(message: seq<byte>): seq<Wave> {
    seq(|message|, i requires 0 <= i < |message| => CharWave(message[i]))
  }

  lemma PulsesCons(bits: seq<bool>)
    requires bits != []
    ensures PulsesWave(bits) == PulseWave(bits[0]) + PulsesWave(bits[1..])
  {
    var ws := seq(|bits|, i requires 0 <= i < |bits| => PulseWave(bits[i]));
    assert ws[1..] == seq(|bits[1..]|, i requires 0 <= i < |bits[1..]| => PulseWave(bits[1..][i]));
  }

  lemma PulsesSnoc(bits: seq<bool>, bit: bool)
    ensures PulsesWave(bits + [bit]) == PulsesWave(bits) + PulseWave(bit)
  {
    var bits' := bits + [bit];
    var ws := seq(|bits|, i requires 0 <= i < |bits| => PulseWave(bits[i]));
    JoinSnoc(ws, PulseWave(bit));
    assert ws + [PulseWave(bit)] == seq(|bits'|, i requires 0 <= i < |bits'| => PulseWave(bits'[i]));
  }

  lemma NextPulse(front: Wave, bits: seq<bool>, i: nat)
    requires i < |bits|
    ensures front + PulsesWave(bits[..i]) + PulseWave(bits[i]) == front + PulsesWave(bits[..i + 1])
  {
    PulsesSnoc(bits[..i], bits[i]);
    assert bits[..i] + [bits[i]] == bits[..i + 1];
    assert front + (PulsesWave(bits[..i]) + PulseWave(bits[i])) == front + PulsesWave(bits[..i]) + PulseWave(bits[i]);
  }

  lemma MessageCons(message: seq<byte>)
    requires message != []
    ensures MessageWave(message) == CharWave(message[0]) + MessageWave(message[1..])
  {
    assert CharWaves(message)[1..] == CharWaves(message[1..]);
  }

  lemma NextChar(front: Wave, message: seq<byte>, i: nat)
    requires i < |message|
    ensures front + MessageWave(message[..i]) + CharWave(message[i]) == front + MessageWave(message[..i + 1])
  {
    var w := CharWave(message[i]);
    assert CharWaves(message[..i + 1]) == CharWaves(message[..i]) + [w];
    JoinSnoc(CharWaves(message[..i]), w);
    assert front + (MessageWave(message[..i]) + w) == front + MessageWave(message[..i]) + w;
  }

  /** The driver: the LED and what it has shown. */
  class Driver {
    var on: bool
    ghost var shown: Wave

    constructor (on: bool)
      ensures this.on == on && shown == []
    {
      this.on, shown := on, [];
    }

    method LedOn()
      modifies `on
      ensures on
    {
      on := true;
    }

    method LedOff()
      modifies `on
      ensures !on
    {
      on := false;
    }

    method Msleep(ms: nat)
      modifies `shown
      ensures shown == old(shown) + Hold(on, ms)
    {
      shown := shown + Hold(on, ms);
    }

    /** `blink`. */
    method Blink(isLong: bool)
      modifies this
      ensures !on && shown == old(shown) + PulseWave(isLong)
    {
      LedOn();
      if isLong {
        Msleep(DASH_LEN);
      } else {
        Msleep(DOT_LEN);
      }
      LedOff();
      Msleep(GAP_CODE);
    }

    /** `morse_char`, without the gap that its caller adds. */
    method MorseChar(ascii: byte)
      requires !on
      modifies this
      ensures !on && shown == old(shown) + PulsesWave(Bits(Entry(ascii)))
      ensures shown == old(shown) + SpeltWave(Spelling(ascii))
    {
      var item := Alphabet(Validate(ascii));
      ghost var bits := Bits(Entry(ascii));
      var i := 0;
      while i < item.len
        invariant 0 <= i <= item.len && !on
        invariant shown == old(shown) + PulsesWave(bits[..i])
      {
        NextPulse(old(shown), bits, i);
        Blink(Shr(item.code, item.len - 1 - i) % 2 == 1);
        i := i + 1;
      }
      assert bits[..|bits|] == bits;
      TableSpells(ascii);
      PulsesSpelt(bits, Spelling(ascii));
    }

    /** `morse_handle`. */
    method MorseHandle(message: seq<byte>)
      modifies this
      ensures on && shown == old(shown) + MessageWave(message)
      ensures shown == old(shown) + SpeltMessage(message)
    {
      LedOff();
      var i := 0;
      while i < |message|
        invariant 0 <= i <= |message| && !on
        invariant shown == old(shown) + MessageWave(message[..i])
      {
        ghost var before := shown;
        MorseChar(message[i]);
        Msleep(GAP_CHAR);
        assert shown == before + CharWave(message[i]);
        NextChar(old(shown), message, i);
        i := i + 1;
      }
      assert message[..|message|] == message;
      MessageSpelt(message);
      LedOn();
    }
  }

  /** The character the waveform can tell: one without a code shows as a space. */
  function Shown(c: byte): (s: byte)
    ensures 32 <= s <= 90
  {
    if Entry(c).len == 0 then SPACE else Validate(c)
  }

  function ShownAll(message: seq<byte>): seq<byte> {
    seq(|message|, i requires 0 <= i < |message| => Shown(message[i]))
  }

  /** How many codes there are of a length. */
  function Codes(len: nat): nat {
    if len == 0 then 1 else 2 * Codes(len - 1)
  }

  lemma CodeCounts()
    ensures Codes(0) == 1 && Codes(1) == 2 && Codes(2) == 4 && Codes(3) == 8
    ensures Codes(4) == 16 && Codes(5) == 32 && Codes(6) == 64
  {
    assert Codes(2) == 2 * Codes(1);
    assert Codes(4) == 2 * Codes(3) == 4 * Codes(2);
    assert Codes(6) == 2 * Codes(5) == 4 * Codes(4);
  }

  /** Every code fits its length. */
  lemma TableFits(c: byte)
    ensures Alphabet(c).code < Codes(Alphabet(c).len)
  {
    CodeCounts();
  }

  /** The characters that have a code have different ones. */
  lemma TableIsInjective(c: byte)
    ensures Alphabet(c).len > 0 ==> Letter(Alphabet(c)) == c
  {
  }

  /** The bits determine a code word that fits its length. */
  lemma {:induction false} BitsDetermine(a: Item, b: Item)
    requires a.code < Codes(a.len) && b.code < Codes(b.len) && Bits(a) == Bits(b)
    ensures a == b
    decreases a.len
  {
    assert |Bits(a)| == a.len && |Bits(b)| == b.len;
    var n := a.len;
    if n > 0 {
      var a', b' := Item(n - 1, a.code / 2), Item(n - 1, b.code / 2);
      assert Bits(a)[n - 1] == Bits(b)[n - 1];
      forall i | 0 <= i < n - 1
        ensures Bits(a')[i] == Bits(b')[i]
      {
        assert Bits(a)[i] == Bits(b)[i];
      }
      BitsDetermine(a', b');
    }
  }

  /** A dot is already off where a dash is still on. */
  lemma PulseDecode(a: bool, b: bool, x: Wave, y: Wave)
    requires PulseWave(a) + x == PulseWave(b) + y
    ensures a == b && x == y
  {
    var left, right := PulseWave(a) + x, PulseWave(b) + y;
    assert left[DOT_LEN] == a && right[DOT_LEN] == b;
    assert x == left[|PulseWave(a)|..] && y == right[|PulseWave(b)|..];
  }

  /** Two pulse trains, each ended by the gap after a character, that begin the same wave are the same:
      the gap is off where a further pulse would be on. */
  lemma {:induction false} PulsesDecode(u: seq<bool>, v: seq<bool>, x: Wave, y: Wave)
    requires PulsesWave(u) + Hold(false, GAP_CHAR) + x == PulsesWave(v) + Hold(false, GAP_CHAR) + y
    ensures u == v && x == y
    decreases |u|
  {
    var gap := Hold(false, GAP_CHAR);
    var left, right := PulsesWave(u) + gap + x, PulsesWave(v) + gap + y;
    if u != [] {
      PulsesCons(u);
      assert left == PulseWave(u[0]) + (PulsesWave(u[1..]) + gap + x);
    }
    if v != [] {
      PulsesCons(v);
      assert right == PulseWave(v[0]) + (PulsesWave(v[1..]) + gap + y);
    }
    assert left[0] == (u != []) && right[0] == (v != []);
    if u == [] {
      assert x == left[GAP_CHAR..] && y == right[GAP_CHAR..];
    } else {
      PulseDecode(u[0], v[0], PulsesWave(u[1..]) + gap + x, PulsesWave(v[1..]) + gap + y);
      PulsesDecode(u[1..], v[1..], x, y);
      assert u == [u[0]] + u[1..] && v == [v[0]] + v[1..];
    }
  }

  /** The first character can be read off, and what follows it is left. */
  lemma CharDecode(a: byte, b: byte, x: Wave, y: Wave)
    requires CharWave(a) + x == CharWave(b) + y
    ensures Shown(a) == Shown(b) && x == y
  {
    PulsesDecode(Bits(Entry(a)), Bits(Entry(b)), x, y);
    TableFits(Validate(a));
    TableFits(Validate(b));
    TableIsInjective(Validate(a));
    TableIsInjective(Validate(b));
    BitsDetermine(Entry(a), Entry(b));
  }

  lemma SameShownSameWave(a: byte, b: byte)
    requires Shown(a) == Shown(b)
    ensures CharWave(a) == CharWave(b)
  {
    TableIsInjective(Validate(a));
    TableIsInjective(Validate(b));
    assert Alphabet(SPACE) == Item(0, 0);
    assert Bits(Entry(a)) == Bits(Entry(b));
  }

  lemma ShownCons(message: seq<byte>)
    requires message != []
    ensures ShownAll(message) == [Shown(message[0])] + ShownAll(message[1..])
  {
  }

  /** Unique decodability: two messages of any lengths drive the LED alike exactly when they are equal
      up to characters that show as spaces. */
  lemma {:induction false} UniquelyDecodable(m: seq<byte>, k: seq<byte>)
    ensures MessageWave(m) == MessageWave(k) <==> ShownAll(m) == ShownAll(k)
    decreases |m|
  {
    if m == [] || k == [] {
      if m != [] { MessageCons(m); }
      if k != [] { MessageCons(k); }
      return;
    }
    MessageCons(m);
    MessageCons(k);
    var x, y := MessageWave(m[1..]), MessageWave(k[1..]);
    UniquelyDecodable(m[1..], k[1..]);
    HeadsDecide(m[0], k[0], x, y);
    ShownCons(m);
    ShownCons(k);
    var a, b := ShownAll(m), ShownAll(k);
    assert a[0] == Shown(m[0]) && b[0] == Shown(k[0]) && a[1..] == ShownAll(m[1..]) && b[1..] == ShownAll(k[1..]);
  }

  lemma HeadsDecide(a: byte, b: byte, x: Wave, y: Wave)
    ensures CharWave(a) + x == CharWave(b) + y <==> Shown(a) == Shown(b) && x == y
  {
    if CharWave(a) + x == CharWave(b) + y {
      CharDecode(a, b, x, y);
    }
    if Shown(a) == Shown(b) {
      SameShownSameWave(a, b);
    }
  }

  /** The code of a character, spelt out; the others have none. */
  function Spelling(c: byte): string {
    match c as int
    case 33 => "..--."    // !
    case 34 => ".-..-."   // double quote
    case 39 => ".----."   // '
    case 44 => "--..--"   // ,
    case 46 => ".-.--."   // .
    case 48 => "-----"
    case 49 => ".----"
    case 50 => "..---"
    case 51 => "...--"
    case 52 => "....-"
    case 53 => "....."
    case 54 => "-...."
    case 55 => "--..."
    case 56 => "---.."
    case 57 => "----."
    case 58 => "---..."   // :
    case 61 => "-...-"    // =
    case 63 => "..--.."   // ?
    case 65 => ".-"
    case 66 => "-..."
    case 67 => "-.-."
    case 68 => "-.."
    case 69 => "."
    case 70 => "..-."
    case 71 => "--."
    case 72 => "...."
    case 73 => ".."
    case 74 => ".---"
    case 75 => "-.-"
    case 76 => ".-.."
    case 77 => "--"
    case 78 => "-."
    case 79 => "---"
    case 80 => ".--."
    case 81 => "--.-"
    case 82 => ".-."
    case 83 => "..."
    case 84 => "-"
    case 85 => "..-"
    case 86 => "...-"
    case 87 => ".--"
    case 88 => "-..-"
    case 89 => "-.--"
    case 90 => "--.."
    case _ => ""
  }

  /** A dash is lit for 1000 ms and a dot for 250 ms, and 250 ms of darkness follow either. */
  function SpeltWave(code: string): Wave {
    if code == "" then []
    else Hold(true, if code[0] == '-' then 1000 else 250) + Hold(false, 250) + SpeltWave(code[1..])
  }

  /** Every character is sent by its code and followed by 2000 ms of darkness. */
  function SpeltMessage(message: seq<byte>): Wave {
    if message == [] then []
    else SpeltWave(Spelling(message[0])) + Hold(false, 2000) + SpeltMessage(message[1..])
  }

  predicate Spells(bits: seq<bool>, code: string) {
    |bits| == |code| && forall i :: 0 <= i < |bits| ==> code[i] == if bits[i] then '-' else '.'
  }

  predicate DotsAndDashes(code: string) {
    forall i :: 0 <= i < |code| ==> code[i] == '.' || code[i] == '-'
  }

  function Digit(sign: char): nat {
    if sign == '-' then 1 else 0
  }

  /** A code read as a binary number. */
  function Value(code: string): nat {
    if code == "" then 0 else 2 * Value(code[..|code| - 1]) + Digit(code[|code| - 1])
  }

  lemma BitsFromTop(len: nat, code: nat)
    requires len > 0
    ensures Bits(Item(len, code)) == Bits(Item(len - 1, code / 2)) + [code % 2 == 1]
  {
    var upper, all := Bits(Item(len - 1, code / 2)), Bits(Item(len, code));
    forall i | 0 <= i < len - 1
      ensures all[i] == upper[i]
    {
      assert Shr(code, len - 1 - i) == Shr(code / 2, len - 2 - i);
    }
    assert all == upper + [code % 2 == 1];
  }

  /** The number a code stands for has the code's dots and dashes as its bits. */
  lemma {:induction false} ValueSpells(code: string)
    requires DotsAndDashes(code)
    ensures Spells(Bits(Item(|code|, Value(code))), code)
    decreases |code|
  {
    if code != "" {
      var front := code[..|code| - 1];
      ValueSpells(front);
      assert Value(code) / 2 == Value(front);
      BitsFromTop(|code|, Value(code));
    }
  }

  function Weighed(code: string): nat
    requires |code| <= 6
  {
    match |code|
    case 0 => 0
    case 1 => Digit(code[0])
    case 2 => 2 * Digit(code[0]) + Digit(code[1])
    case 3 => 4 * Digit(code[0]) + 2 * Digit(code[1]) + Digit(code[2])
    case 4 => 8 * Digit(code[0]) + 4 * Digit(code[1]) + 2 * Digit(code[2]) + Digit(code[3])
    case 5 => 16 * Digit(code[0]) + 8 * Digit(code[1]) + 4 * Digit(code[2]) + 2 * Digit(code[3]) + Digit(code[4])
    case _ =>
      32 * Digit(code[0]) + 16 * Digit(code[1]) + 8 * Digit(code[2]) + 4 * Digit(code[3]) + 2 * Digit(code[4])
      + Digit(code[5])
  }

  lemma {:induction false} ValueWeighed(code: string)
    requires |code| <= 6
    ensures Value(code) == Weighed(code)
    decreases |code|
  {
    if code != "" {
      ValueWeighed(code[..|code| - 1]);
    }
  }

  /** Table and spelling agree, entry by entry. */
  predicate Weighs(c: byte) {
    |Spelling(c)| == Entry(c).len <= 6 && DotsAndDashes(Spelling(c)) && Weighed(Spelling(c)) == Entry(c).code
  }

  lemma DigitsWeigh(c: byte)
    requires c <= 60
    ensures Weighs(c)
  {
  }

  lemma EarlyLettersWeigh(c: byte)
    requires 60 < c <= 77
    ensures Weighs(c)
  {
  }

  lemma LateLettersWeigh(c: byte)
    requires c > 77
    ensures Weighs(c)
  {
  }

  /** The pulses of a character spell its code; everything without a code has none. */
  lemma TableSpells(c: byte)
    ensures Spells(Bits(Entry(c)), Spelling(c))
  {
    if c <= 60 {
      DigitsWeigh(c);
    } else if c <= 77 {
      EarlyLettersWeigh(c);
    } else {
      LateLettersWeigh(c);
    }
    ValueWeighed(Spelling(c));
    ValueSpells(Spelling(c));
  }

  lemma {:induction false} PulsesSpelt(bits: seq<bool>, code: string)
    requires Spells(bits, code)
    ensures PulsesWave(bits) == SpeltWave(code)
    decreases |bits|
  {
    if bits != [] {
      PulsesCons(bits);
      assert Spells(bits[1..], code[1..]);
      PulsesSpelt(bits[1..], code[1..]);
    }
  }

  /** The wave of a message by the spelt-out codes and the times in milliseconds. */
  lemma {:induction false} MessageSpelt(message: seq<byte>)
    ensures MessageWave(message) == SpeltMessage(message)
    decreases |message|
  {
    if message != [] {
      MessageCons(message);
      TableSpells(message[0]);
      PulsesSpelt(Bits(Entry(message[0])), Spelling(message[0]));
      MessageSpelt(message[1..]);
    }
  }

  /** Two characters show alike exactly when they have the same code, or both none. */
  lemma ShownBySpelling(a: byte, b: byte)
    ensures Shown(a) == Shown(b) <==> Spelling(a) == Spelling(b)
  {
    TableSpells(a);
    TableSpells(b);
    if Spelling(a) == Spelling(b) {
      assert Bits(Entry(a)) == Bits(Entry(b));
      TableFits(Validate(a));
      TableFits(Validate(b));
      TableIsInjective(Validate(a));
      TableIsInjective(Validate(b));
      BitsDetermine(Entry(a), Entry(b));
    }
    if Shown(a) == Shown(b) {
      SameShownSameBits(a, b);
    }
  }

  lemma SameShownSameBits(a: byte, b: byte)
    requires Shown(a) == Shown(b)
    ensures Bits(Entry(a)) == Bits(Entry(b))
  {
    TableIsInjective(Validate(a));
    TableIsInjective(Validate(b));
    assert Alphabet(SPACE) == Item(0, 0);
  }

  /** A coded character shows as itself. */
  lemma CodedShows(c: byte)
    requires Spelling(c) != "" || c == 32
    ensures Shown(c) == c
  {
    TableSpells(c);
  }

  /** Unique decodability without a word about validation: two messages drive the LED alike exactly
      when their characters have, one by one, the same codes or none. */
  lemma DecodableBySpelling(m: seq<byte>, k: seq<byte>)
    ensures MessageWave(m) == MessageWave(k) <==>
            |m| == |k| && forall i :: 0 <= i < |m| ==> Spelling(m[i]) == Spelling(k[i])
  {
    UniquelyDecodable(m, k);
    assert |ShownAll(m)| == |m| && |ShownAll(k)| == |k|;
    forall i | 0 <= i < |m| && i < |k|
      ensures ShownAll(m)[i] == ShownAll(k)[i] <==> Spelling(m[i]) == Spelling(k[i])
    {
      ShownBySpelling(m[i], k[i]);
    }
  }

  /** ... and messages of coded characters and spaces exactly when they are equal. */
  lemma SentExactly(m: seq<byte>, k: seq<byte>)
    requires forall i :: 0 <= i < |m| ==> Spelling(m[i]) != "" || m[i] == 32
    requires forall i :: 0 <= i < |k| ==> Spelling(k[i]) != "" || k[i] == 32
    ensures MessageWave(m) == MessageWave(k) <==> m == k
  {
    UniquelyDecodable(m, k);
    forall i | 0 <= i < |m|
      ensures ShownAll(m)[i] == m[i]
    {
      CodedShows(m[i]);
    }
    forall i | 0 <= i < |k|
      ensures ShownAll(k)[i] == k[i]
    {
      CodedShows(k[i]);
    }
    assert ShownAll(m) == m && ShownAll(k) == k;
  }

  /** Any other character, lower-case letters and control characters included, is 2000 ms of darkness. */
  lemma UncodedIsDark(c: byte)
    requires Spelling(c) == ""
    ensures CharWave(c) == Hold(false, 2000)
  {
    TableSpells(c);
    PulsesSpelt(Bits(Entry(c)), "");
    assert [] + Hold(false, 2000) == Hold(false, 2000);
  }
}
