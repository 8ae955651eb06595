/**
 The pad configuration's way to flash and back: named runtime fields, the packed record, the
 check of what comes back, and the journal in between.
 */
module PadConfig {
  import opened Common
  import opened Bytes
  import opened PadJournal

  type i8 = v: int | -0x80 <= v < 0x80
  type i16 = v: int | -0x8000 <= v < 0x8000

  const SCHEMA: byte := 1
  const NAME_LEN := 32
  const MAX_GPIO := 29

  datatype Toggle = Toggle(pin: i16, action: byte, invert: bool)
  datatype Joywing = Joywing(bus: i8, sda: i8, scl: i8, addr: byte)
  datatype Combo = Combo(input: word, output: word)

  /** What the record has no room for. */
  datatype Unstored = Unstored(ledColors: seq<byte>, ledPulseMask: int, ledButtonMap: seq<word>, touchOut: i8, touchIn: i8)

  datatype Buttons = Buttons(
    dpadUp: i16, dpadDown: i16, dpadLeft: i16, dpadRight: i16, b1: i16, b2: i16, b3: i16, b4: i16,
    l1: i16, r1: i16, l2: i16, r2: i16, s1: i16, s2: i16, l3: i16, r3: i16,
    a1: i16, a2: i16, a3: i16, a4: i16, l4: i16, r4: i16)

  datatype Sticks = Sticks(lx: i8, ly: i8, rx: i8, ry: i8, lt: i8, rt: i8)
  datatype Display = Display(spi: i8, sck: i8, mosi: i8, cs: i8, dc: i8, rst: i8)

  /** The runtime configuration; a name is a C string, so it holds no zero byte. */
  datatype Runtime = Runtime(
    name: Option<seq<byte>>, activeHigh: bool, i2cSda: i8, i2cScl: i8, buttons: Buttons, f1: i16, f2: i16,
    toggle0: Toggle, toggle1: Toggle, adc: Sticks,
    invertLx: bool, invertLy: bool, invertRx: bool, invertRy: bool, sinputRgb: bool, deadzone: byte,
    ledPin: i8, ledCount: byte, speakerPin: i8, speakerEnable: i8, display: Display,
    qwiicTx: i8, qwiicRx: i8, qwiicI2c: i8, usbHostDp: i8, joywing0: Joywing, joywing1: Joywing,
    combo0: Combo, combo1: Combo, combo2: Combo, combo3: Combo,
    rhatUp: i16, rhatDown: i16, rhatLeft: i16, rhatRight: i16, dpadMode: byte, onboardLed: byte, rest: Unstored)

  datatype FlashToggle = FlashToggle(pin: i16, action: byte, flags: byte)

  /** The record behind its eight header bytes. */
  datatype Flash = Flash(
    name: seq<byte>, flags: byte, i2cSda: i8, i2cScl: i8, deadzone: byte, buttons: seq<i16>,
    toggle: seq<FlashToggle>, adc: seq<i8>, ledPin: i8, ledCount: byte, speaker: seq<i8>, display: seq<i8>,
    qwiic: seq<i8>, usbHostDp: i8, joywing: seq<Joywing>, combo: seq<Combo>, f1: i16, f2: i16,
    dpadMode: byte, onboardLed: byte, rhat: seq<i16>, schema: byte)

  predicate Proper(f: Flash) {
    && |f.name| == NAME_LEN && |f.buttons| == 22 && |f.toggle| == 2 && |f.adc| == 6 && |f.speaker| == 2
    && |f.display| == 6 && |f.qwiic| == 3 && |f.joywing| == 2 && |f.combo| == 4 && |f.rhat| == 4
  }

  // ---------------------------------------------------------------------------
  // Runtime to record and back
  // ---------------------------------------------------------------------------

  function Cut(s: seq<byte>, n: nat): seq<byte> { if |s| <= n then s else s[..n] }

  /** A string copied into 31 bytes and padded with zeros; the 32nd is zero. */
  function NameField(name: Option<seq<byte>>): (r: seq<byte>)
    ensures |r| == NAME_LEN
  {
    if name.None? then Zeros(NAME_LEN)
    else var s := Cut(name.value, NAME_LEN - 1); s + Zeros(NAME_LEN - |s|)
  }

  /** The C string at the start of a buffer. */
  function CString(s: seq<byte>): (r: seq<byte>) {
    if s == [] || s[0] == 0 then [] else [s[0]] + CString(s[1..])
  }

  /** Bits 0 and 2 to 6; setting distinct bits of zero adds them. */
  function Flags(r: Runtime): byte {
    (if r.activeHigh then 1 else 0) + (if r.invertLx then 4 else 0) + (if r.invertLy then 8 else 0)
    + (if r.invertRx then 16 else 0) + (if r.invertRy then 32 else 0) + (if r.sinputRgb then 64 else 0)
  }

  predicate FlagSet(flags: byte, mask: int)
    requires mask > 0
  {
    flags / mask % 2 == 1
  }

  function ToggleToFlash(t: Toggle): FlashToggle { FlashToggle(t.pin, t.action, if t.invert then 1 else 0) }
  function ToggleFromFlash(t: FlashToggle): Toggle { Toggle(t.pin, t.action, FlagSet(t.flags, 1)) }

  function ButtonPins(b: Buttons): (r: seq<i16>)
    ensures |r| == 22
  {
    [b.dpadUp, b.dpadDown, b.dpadLeft, b.dpadRight, b.b1, b.b2, b.b3, b.b4,
     b.l1, b.r1, b.l2, b.r2, b.s1, b.s2, b.l3, b.r3, b.a1, b.a2, b.a3, b.a4, b.l4, b.r4]
  }

  function ButtonsOf(p: seq<i16>): Buttons
    requires |p| == 22
  {
    Buttons(p[0], p[1], p[2], p[3], p[4], p[5], p[6], p[7], p[8], p[9], p[10], p[11],
            p[12], p[13], p[14], p[15], p[16], p[17], p[18], p[19], p[20], p[21])
  }

  function ToFlash(r: Runtime): (f: Flash)
    ensures Proper(f)
  {
    Flash(NameField(r.name), Flags(r), r.i2cSda, r.i2cScl, r.deadzone, ButtonPins(r.buttons),
          [ToggleToFlash(r.toggle0), ToggleToFlash(r.toggle1)],
          [r.adc.lx, r.adc.ly, r.adc.rx, r.adc.ry, r.adc.lt, r.adc.rt], r.ledPin, r.ledCount,
          [r.speakerPin, r.speakerEnable],
          [r.display.spi, r.display.sck, r.display.mosi, r.display.cs, r.display.dc, r.display.rst],
          [r.qwiicTx, r.qwiicRx, r.qwiicI2c], r.usbHostDp, [r.joywing0, r.joywing1],
          [r.combo0, r.combo1, r.combo2, r.combo3], r.f1, r.f2, r.dpadMode, r.onboardLed,
          [r.rhatUp, r.rhatDown, r.rhatLeft, r.rhatRight], SCHEMA)
  }

  function NothingStored(): Unstored { Unstored(Zeros(48), 0, seq<word>(16, _ => 0), 0, 0) }

  function FromFlash(f: Flash): Runtime
    requires Proper(f)
  {
    Runtime(Some(CString(Cut(f.name, NAME_LEN - 1))), FlagSet(f.flags, 1), f.i2cSda, f.i2cScl, ButtonsOf(f.buttons), f.f1, f.f2,
            ToggleFromFlash(f.toggle[0]), ToggleFromFlash(f.toggle[1]),
            Sticks(f.adc[0], f.adc[1], f.adc[2], f.adc[3], f.adc[4], f.adc[5]),
            FlagSet(f.flags, 4), FlagSet(f.flags, 8), FlagSet(f.flags, 16), FlagSet(f.flags, 32), FlagSet(f.flags, 64),
            f.deadzone, f.ledPin, f.ledCount, f.speaker[0], f.speaker[1],
            Display(f.display[0], f.display[1], f.display[2], f.display[3], f.display[4], f.display[5]),
            f.qwiic[0], f.qwiic[1], f.qwiic[2], f.usbHostDp, f.joywing[0], f.joywing[1],
            f.combo[0], f.combo[1], f.combo[2], f.combo[3],
            f.rhat[0], f.rhat[1], f.rhat[2], f.rhat[3], f.dpadMode, f.onboardLed, NothingStored())
  }

  predicate IsCString(s: seq<byte>) { forall i :: 0 <= i < |s| ==> s[i] != 0 }

  /** A configuration as it comes back: its name cut to 31 characters, and nothing the record has no room for. */
  function Stored(r: Runtime): Runtime {
    r.(name := Some(if r.name.None? then [] else Cut(r.name.value, NAME_LEN - 1)), rest := NothingStored())
  }

  lemma {:induction false} CStringOf(s: seq<byte>, n: nat)
    requires IsCString(s) && n > 0
    ensures CString(s + Zeros(n)) == s
  {
    if s == [] {
      assert s + Zeros(n) == Zeros(n);
    } else {
      assert (s + Zeros(n))[1..] == s[1..] + Zeros(n);
      CStringOf(s[1..], n);
    }
  }

  lemma CStringStops(s: seq<byte>, n: nat)
    requires IsCString(s)
    ensures CString(s) == s && CString(s + Zeros(n)) == s
  {
    if n > 0 {
      CStringOf(s, n);
    } else {
      assert s + Zeros(0) == s;
    }
    WholeCString(s);
  }

  lemma {:induction false} WholeCString(s: seq<byte>)
    requires IsCString(s)
    ensures CString(s) == s
  {
    if s != [] {
      WholeCString(s[1..]);
    }
  }

  lemma NameComesBack(name: Option<seq<byte>>)
    requires name.Some? ==> IsCString(name.value)
    ensures CString(Cut(NameField(name), NAME_LEN - 1)) == if name.None? then [] else Cut(name.value, NAME_LEN - 1)
  {
    if name.Some? {
      var s := Cut(name.value, NAME_LEN - 1);
      assert Cut(NameField(name), NAME_LEN - 1) == s + Zeros(NAME_LEN - 1 - |s|);
      CStringStops(s, NAME_LEN - 1 - |s|);
    } else {
      assert Cut(NameField(name), NAME_LEN - 1)[0] == 0;
    }
  }

  lemma FlagsComeBack(r: Runtime)
    ensures var f := Flags(r);
            && FlagSet(f, 1) == r.activeHigh && FlagSet(f, 4) == r.invertLx && FlagSet(f, 8) == r.invertLy
            && FlagSet(f, 16) == r.invertRx && FlagSet(f, 32) == r.invertRy && FlagSet(f, 64) == r.sinputRgb
  {
  }

  /** Every field the record holds survives the conversion in both directions. */
  lemma ConversionRoundTrip(r: Runtime)
    requires r.name.Some? ==> IsCString(r.name.value)
    ensures FromFlash(ToFlash(r)) == Stored(r)
  {
    NameComesBack(r.name);
    FlagsComeBack(r);
    hide NameField, Flags, FlagSet, CString, Cut, NothingStored, ToggleFromFlash, ToggleToFlash;
    assert ToggleFromFlash(ToggleToFlash(r.toggle0)) == r.toggle0 && ToggleFromFlash(ToggleToFlash(r.toggle1)) == r.toggle1 by {
      TogglesComeBack(r.toggle0);
      TogglesComeBack(r.toggle1);
    }
  }

  lemma TogglesComeBack(t: Toggle)
    ensures ToggleFromFlash(ToggleToFlash(t)) == t
  {
  }

  // ---------------------------------------------------------------------------
  // The record's bytes
  // ---------------------------------------------------------------------------

  function U8(v: i8): byte { if v < 0 then v + 0x100 else v }
  function S8(b: byte): i8 { if b >= 0x80 then b - 0x100 else b }
  function U16(v: i16): int { if v < 0 then v + 0x1_0000 else v }
  function S16(lo: byte, hi: byte): i16 { var u := lo + 0x100 * hi; if u >= 0x8000 then u - 0x1_0000 else u }

  lemma HalfComesBack(v: i16)
    ensures S16(U16(v) % 0x100, U16(v) / 0x100) == v
  {
  }

  function Halves(vs: seq<i16>): (r: seq<byte>)
    ensures |r| == 2 * |vs|
  {
    seq<byte>(2 * |vs|, i requires 0 <= i < 2 * |vs| => if i % 2 == 0 then U16(vs[i / 2]) % 0x100 else U16(vs[i / 2]) / 0x100)
  }

  function FromHalves(b: seq<byte>): (vs: seq<i16>)
    requires |b| % 2 == 0
    ensures |vs| == |b| / 2
  {
    seq<i16>(|b| / 2, k requires 0 <= k < |b| / 2 => S16(b[2 * k], b[2 * k + 1]))
  }

  lemma HalvesAt(vs: seq<i16>, k: nat)
    requires k < |vs|
    ensures Halves(vs)[2 * k] == U16(vs[k]) % 0x100 && Halves(vs)[2 * k + 1] == U16(vs[k]) / 0x100
  {
    hide U16;
  }

  lemma HalvesComeBack(vs: seq<i16>)
    ensures FromHalves(Halves(vs)) == vs
  {
    hide Halves, S16, U16;
    var b := Halves(vs);
    forall k | 0 <= k < |vs| ensures FromHalves(b)[k] == vs[k] {
      HalvesAt(vs, k);
      HalfComesBack(vs[k]);
    }
  }

  function ToggleBytes(t: seq<FlashToggle>): (r: seq<byte>)
    requires |t| == 2
    ensures |r| == 8
  {
    Halves([t[0].pin]) + [t[0].action, t[0].flags] + Halves([t[1].pin]) + [t[1].action, t[1].flags]
  }

  function TogglesOf(b: seq<byte>): (t: seq<FlashToggle>)
    requires |b| == 8
    ensures |t| == 2
  {
    [FlashToggle(S16(b[0], b[1]), b[2], b[3]), FlashToggle(S16(b[4], b[5]), b[6], b[7])]
  }

  lemma ToggleBytesComeBack(t: seq<FlashToggle>)
    requires |t| == 2
    ensures TogglesOf(ToggleBytes(t)) == t
  {
    HalfComesBack(t[0].pin);
    HalfComesBack(t[1].pin);
    hide S16, U16;
    var b := ToggleBytes(t);
    assert b[0] == U16(t[0].pin) % 0x100 && b[1] == U16(t[0].pin) / 0x100;
    assert b[4] == U16(t[1].pin) % 0x100 && b[5] == U16(t[1].pin) / 0x100;
  }

  /** The 28 single-byte fields from the sticks to the joywings. */
  function SmallBytes(f: Flash): (r: seq<byte>)
    requires Proper(f)
    ensures |r| == 28
  {
    [U8(f.adc[0]), U8(f.adc[1]), U8(f.adc[2]), U8(f.adc[3]), U8(f.adc[4]), U8(f.adc[5]), U8(f.ledPin), f.ledCount,
     U8(f.speaker[0]), U8(f.speaker[1]), U8(f.display[0]), U8(f.display[1]), U8(f.display[2]), U8(f.display[3]),
     U8(f.display[4]), U8(f.display[5]), U8(f.qwiic[0]), U8(f.qwiic[1]), U8(f.qwiic[2]), U8(f.usbHostDp),
     U8(f.joywing[0].bus), U8(f.joywing[0].sda), U8(f.joywing[0].scl), f.joywing[0].addr,
     U8(f.joywing[1].bus), U8(f.joywing[1].sda), U8(f.joywing[1].scl), f.joywing[1].addr]
  }

  function ComboBytes(c: Combo): (r: seq<byte>)
    ensures |r| == 8
  {
    LanesOf(c.input) + LanesOf(c.output)
  }

  function ComboOf(b: seq<byte>): Combo
    requires |b| == 8
  {
    Combo(WordAt(b, 0), WordAt(b, 4))
  }

  lemma ComboComesBack(c: Combo)
    ensures ComboOf(ComboBytes(c)) == c
  {
    var b := ComboBytes(c);
    hide LanesOf, WordAt;
    assert b[0..4] == LanesOf(c.input) && b[4..8] == LanesOf(c.output);
    PackedReadsBack(c.input, b, 0);
    PackedReadsBack(c.output, b, 4);
  }

  function CombosBytes(cs: seq<Combo>): (r: seq<byte>)
    requires |cs| == 4
    ensures |r| == 32
  {
    ComboBytes(cs[0]) + ComboBytes(cs[1]) + ComboBytes(cs[2]) + ComboBytes(cs[3])
  }

  function CombosOf(b: seq<byte>): (cs: seq<Combo>)
    requires |b| == 32
    ensures |cs| == 4
  {
    [ComboOf(b[..8]), ComboOf(b[8..16]), ComboOf(b[16..24]), ComboOf(b[24..])]
  }

  lemma CombosComeBack(cs: seq<Combo>)
    requires |cs| == 4
    ensures CombosOf(CombosBytes(cs)) == cs
  {
    hide ComboBytes, ComboOf;
    var b := CombosBytes(cs);
    assert b[..8] == ComboBytes(cs[0]) && b[8..16] == ComboBytes(cs[1]);
    assert b[16..24] == ComboBytes(cs[2]) && b[24..] == ComboBytes(cs[3]);
    forall k | 0 <= k < 4 ensures ComboOf(ComboBytes(cs[k])) == cs[k] { ComboComesBack(cs[k]); }
  }

  /** The record behind its header, in the order of the packed structure. */
  function Pack(f: Flash): (r: seq<byte>)
    requires Proper(f)
    ensures |r| == PAGE - HEADER
  {
    f.name + [f.flags, U8(f.i2cSda), U8(f.i2cScl), f.deadzone] + Halves(f.buttons) + ToggleBytes(f.toggle)
    + SmallBytes(f) + CombosBytes(f.combo) + Halves([f.f1, f.f2]) + [f.dpadMode, f.onboardLed]
    + Halves(f.rhat) + [f.schema] + Zeros(85)
  }

  /** The record put together from its parts. */
  function Assembled(name: seq<byte>, a: seq<byte>, buttons: seq<i16>, toggles: seq<FlashToggle>, s: seq<byte>,
                     combos: seq<Combo>, keys: seq<i16>, m: seq<byte>, rhat: seq<i16>, schema: byte): (f: Flash)
    requires |name| == 32 && |a| == 4 && |buttons| == 22 && |toggles| == 2 && |s| == 28 && |combos| == 4
    requires |keys| == 2 && |m| == 2 && |rhat| == 4
    ensures Proper(f)
  {
    Flash(name, a[0], S8(a[1]), S8(a[2]), a[3], buttons, toggles,
          [S8(s[0]), S8(s[1]), S8(s[2]), S8(s[3]), S8(s[4]), S8(s[5])], S8(s[6]), s[7], [S8(s[8]), S8(s[9])],
          [S8(s[10]), S8(s[11]), S8(s[12]), S8(s[13]), S8(s[14]), S8(s[15])], [S8(s[16]), S8(s[17]), S8(s[18])], S8(s[19]),
          [Joywing(S8(s[20]), S8(s[21]), S8(s[22]), s[23]), Joywing(S8(s[24]), S8(s[25]), S8(s[26]), s[27])],
          combos, keys[0], keys[1], m[0], m[1], rhat, schema)
  }

  function Unpack(b: seq<byte>): (f: Flash)
    requires |b| == PAGE - HEADER
    ensures Proper(f)
  {
    Assembled(b[..32], b[32..36], FromHalves(b[36..80]), TogglesOf(b[80..88]), b[88..116], CombosOf(b[116..148]),
              FromHalves(b[148..152]), b[152..154], FromHalves(b[154..162]), b[162])
  }

  /** Where each part of the packed record lies. */
  lemma PackedParts(name: seq<byte>, a: seq<byte>, buttons: seq<byte>, toggles: seq<byte>, small: seq<byte>, combos: seq<byte>,
                    keys: seq<byte>, m: seq<byte>, rhat: seq<byte>, schema: seq<byte>, tail: seq<byte>)
    requires |name| == 32 && |a| == 4 && |buttons| == 44 && |toggles| == 8 && |small| == 28 && |combos| == 32
    requires |keys| == 4 && |m| == 2 && |rhat| == 8 && |schema| == 1
    ensures var b := name + a + buttons + toggles + small + combos + keys + m + rhat + schema + tail;
            && b[..32] == name && b[32..36] == a && b[36..80] == buttons && b[80..88] == toggles && b[88..116] == small
            && b[116..148] == combos && b[148..152] == keys && b[152..154] == m && b[154..162] == rhat && b[162] == schema[0]
  {
  }

  lemma SignedComesBack()
    ensures forall v: i8 :: S8(U8(v)) == v
  {
  }

  lemma AssembledFromParts(f: Flash)
    requires Proper(f)
    ensures Assembled(f.name, [f.flags, U8(f.i2cSda), U8(f.i2cScl), f.deadzone], f.buttons, f.toggle, SmallBytes(f),
                      f.combo, [f.f1, f.f2], [f.dpadMode, f.onboardLed], f.rhat, f.schema) == f
  {
    hide S8, U8;
    SignedComesBack();
    var g := Assembled(f.name, [f.flags, U8(f.i2cSda), U8(f.i2cScl), f.deadzone], f.buttons, f.toggle, SmallBytes(f),
                       f.combo, [f.f1, f.f2], [f.dpadMode, f.onboardLed], f.rhat, f.schema);
    assert g.adc == f.adc && g.speaker == f.speaker && g.qwiic == f.qwiic;
    assert g.display == f.display;
    assert g.joywing == f.joywing;
  }

  /** The packed record unpacks to the same fields. */
  lemma UnpackPack(f: Flash)
    requires Proper(f)
    ensures Unpack(Pack(f)) == f
  {
    var a := [f.flags, U8(f.i2cSda), U8(f.i2cScl), f.deadzone];
    var m := [f.dpadMode, f.onboardLed];
    hide Halves, FromHalves, ToggleBytes, TogglesOf, CombosBytes, CombosOf, Assembled, U8, SmallBytes, S8, Zeros;
    PackedParts(f.name, a, Halves(f.buttons), ToggleBytes(f.toggle), SmallBytes(f), CombosBytes(f.combo),
                Halves([f.f1, f.f2]), m, Halves(f.rhat), [f.schema], Zeros(85));
    HalvesComeBack(f.buttons);
    HalvesComeBack([f.f1, f.f2]);
    HalvesComeBack(f.rhat);
    ToggleBytesComeBack(f.toggle);
    CombosComeBack(f.combo);
    AssembledFromParts(f);
  }

  /** A 16-bit field at offset i, low byte first, negative values from 0x10000 down. */
  predicate Holds16(b: seq<byte>, i: nat, v: int)
    requires i + 2 <= |b|
  {
    b[i] as int + 0x100 * b[i + 1] as int == if v < 0 then v + 0x1_0000 else v
  }

  /** An 8-bit field: negative values from 0x100 down. */
  predicate Holds8(b: byte, v: int) { b as int == if v < 0 then v + 0x100 else v }

  lemma HalvesHold(vs: seq<i16>, k: nat)
    requires k < |vs|
    ensures Holds16(Halves(vs), 2 * k, vs[k])
  {
    HalvesAt(vs, k);
  }

  lemma HoldsInside(b: seq<byte>, from: nat, to: nat, i: nat, v: int)
    requires from <= to <= |b| && i + 2 <= to - from && Holds16(b[from..to], i, v)
    ensures Holds16(b, from + i, v)
  {
  }

  /** The parts of a packed record, by their offsets behind the header. */
  lemma PackSlices(f: Flash)
    requires Proper(f)
    ensures var b := Pack(f);
            && b[..32] == f.name && b[32..36] == [f.flags, U8(f.i2cSda), U8(f.i2cScl), f.deadzone]
            && b[36..80] == Halves(f.buttons) && b[80..88] == ToggleBytes(f.toggle) && b[88..116] == SmallBytes(f)
            && b[116..148] == CombosBytes(f.combo) && b[148..152] == Halves([f.f1, f.f2])
            && b[152..154] == [f.dpadMode, f.onboardLed] && b[154..162] == Halves(f.rhat) && b[162] == f.schema
  {
    hide Halves, ToggleBytes, CombosBytes, SmallBytes, U8, Zeros;
    PackedParts(f.name, [f.flags, U8(f.i2cSda), U8(f.i2cScl), f.deadzone], Halves(f.buttons), ToggleBytes(f.toggle), SmallBytes(f),
                CombosBytes(f.combo), Halves([f.f1, f.f2]), [f.dpadMode, f.onboardLed], Halves(f.rhat), [f.schema], Zeros(85));
  }

  /** The 16-bit fields of the packed record, by their offsets. */
  lemma PackHalves(f: Flash)
    requires Proper(f)
    ensures var b := Pack(f);
            && (forall k :: 0 <= k < 22 ==> Holds16(b, 36 + 2 * k, f.buttons[k]))
            && Holds16(b, 148, f.f1) && Holds16(b, 150, f.f2)
            && forall k :: 0 <= k < 4 ==> Holds16(b, 154 + 2 * k, f.rhat[k])
  {
    PackSlices(f);
    hide Pack, Halves, Holds16, ToggleBytes, CombosBytes, SmallBytes, U8;
    var b := Pack(f);
    forall k | 0 <= k < 22 ensures Holds16(b, 36 + 2 * k, f.buttons[k]) {
      HalvesHold(f.buttons, k);
      HoldsInside(b, 36, 80, 2 * k, f.buttons[k]);
    }
    HalvesHold([f.f1, f.f2], 0);
    HoldsInside(b, 148, 152, 0, f.f1);
    HalvesHold([f.f1, f.f2], 1);
    HoldsInside(b, 148, 152, 2, f.f2);
    forall k | 0 <= k < 4 ensures Holds16(b, 154 + 2 * k, f.rhat[k]) {
      HalvesHold(f.rhat, k);
      HoldsInside(b, 154, 162, 2 * k, f.rhat[k]);
    }
  }

  /** The single bytes from the sticks to the joywings, by their offsets. */
  lemma PackSmall(f: Flash)
    requires Proper(f)
    ensures var b := Pack(f);
            && Holds8(b[88], f.adc[0]) && Holds8(b[89], f.adc[1]) && Holds8(b[90], f.adc[2])
            && Holds8(b[91], f.adc[3]) && Holds8(b[92], f.adc[4]) && Holds8(b[93], f.adc[5])
            && Holds8(b[94], f.ledPin) && b[95] == f.ledCount && Holds8(b[96], f.speaker[0]) && Holds8(b[97], f.speaker[1])
    ensures var b := Pack(f);
            && Holds8(b[98], f.display[0]) && Holds8(b[99], f.display[1]) && Holds8(b[100], f.display[2])
            && Holds8(b[101], f.display[3]) && Holds8(b[102], f.display[4]) && Holds8(b[103], f.display[5])
            && Holds8(b[104], f.qwiic[0]) && Holds8(b[105], f.qwiic[1]) && Holds8(b[106], f.qwiic[2]) && Holds8(b[107], f.usbHostDp)
    ensures var b := Pack(f);
            && Holds8(b[108], f.joywing[0].bus) && Holds8(b[109], f.joywing[0].sda) && Holds8(b[110], f.joywing[0].scl)
            && b[111] == f.joywing[0].addr
            && Holds8(b[112], f.joywing[1].bus) && Holds8(b[113], f.joywing[1].sda) && Holds8(b[114], f.joywing[1].scl)
            && b[115] == f.joywing[1].addr
  {
    PackSlices(f);
    SmallHold(f);
    hide Pack, Halves, ToggleBytes, CombosBytes, SmallBytes, Holds8, U8;
    var b, s := Pack(f), SmallBytes(f);
    assert forall k :: 0 <= k < 28 ==> b[88 + k] == b[88..116][k] == s[k];
  }

  lemma EightHolds()
    ensures forall v: i8 {:trigger U8(v)} :: Holds8(U8(v), v)
  {
  }

  lemma SmallHold(f: Flash)
    requires Proper(f)
    ensures var s := SmallBytes(f);
            && (forall k :: 0 <= k < 6 ==> Holds8(s[k], f.adc[k])) && Holds8(s[6], f.ledPin) && s[7] == f.ledCount
            && Holds8(s[8], f.speaker[0]) && Holds8(s[9], f.speaker[1]) && (forall k :: 0 <= k < 6 ==> Holds8(s[10 + k], f.display[k]))
            && (forall k :: 0 <= k < 3 ==> Holds8(s[16 + k], f.qwiic[k])) && Holds8(s[19], f.usbHostDp)
            && Holds8(s[20], f.joywing[0].bus) && Holds8(s[21], f.joywing[0].sda) && Holds8(s[22], f.joywing[0].scl)
            && s[23] == f.joywing[0].addr
            && Holds8(s[24], f.joywing[1].bus) && Holds8(s[25], f.joywing[1].sda) && Holds8(s[26], f.joywing[1].scl)
            && s[27] == f.joywing[1].addr
  {
    EightHolds();
    hide Holds8, U8;
  }

  // ---------------------------------------------------------------------------
  // The check of what comes back
  // ---------------------------------------------------------------------------

  predicate PinOk(pin: int) { pin == -1 || 0 <= pin <= MAX_GPIO }

  predicate Checked(f: Flash)
    requires Proper(f)
  {
    && PinOk(f.i2cSda) && PinOk(f.i2cScl) && (forall i :: 0 <= i < 22 ==> PinOk(f.buttons[i]))
    && PinOk(f.ledPin) && PinOk(f.speaker[0]) && PinOk(f.speaker[1]) && (forall i :: 0 <= i < 6 ==> PinOk(f.display[i]))
    && PinOk(f.qwiic[0]) && PinOk(f.qwiic[1]) && PinOk(f.usbHostDp) && PinOk(f.f1) && PinOk(f.f2)
    && (forall i :: 0 <= i < 4 ==> PinOk(f.rhat[i]))
    && (forall i :: 0 <= i < 2 ==> PinOk(f.toggle[i].pin))
    && (forall i :: 0 <= i < 2 ==> PinOk(f.joywing[i].sda) && PinOk(f.joywing[i].scl) && -1 <= f.joywing[i].bus <= 1)
  }

  /** Every pin the check looks at, by the record's fields. */
  function RecordPins(f: Flash): (p: seq<int>)
    requires Proper(f)
    ensures |p| == 48
  {
    [f.i2cSda, f.i2cScl] + f.buttons + ([f.ledPin] + f.speaker + f.display)
    + ([f.qwiic[0], f.qwiic[1], f.usbHostDp, f.f1, f.f2] + f.rhat)
    + [f.toggle[0].pin, f.toggle[1].pin, f.joywing[0].sda, f.joywing[0].scl, f.joywing[1].sda, f.joywing[1].scl]
  }

  predicate AllOk(p: seq<int>) { forall k :: 0 <= k < |p| ==> PinOk(p[k]) }

  lemma AllOkConcat(p: seq<int>, q: seq<int>)
    ensures AllOk(p + q) <==> AllOk(p) && AllOk(q)
  {
    hide PinOk;
    if AllOk(p + q) {
      forall k | 0 <= k < |p| ensures PinOk(p[k]) { assert (p + q)[k] == p[k]; }
      forall k | 0 <= k < |q| ensures PinOk(q[k]) { assert (p + q)[|p| + k] == q[k]; }
    }
  }

  lemma OkByNumbers(p: seq<int>)
    ensures AllOk(p) <==> forall k :: 0 <= k < |p| ==> -1 <= p[k] <= 29
  {
    if AllOk(p) {
      forall k | 0 <= k < |p| ensures -1 <= p[k] <= 29 { assert PinOk(p[k]); }
    }
  }

  /** The check by its numbers: each pin unused (-1) or 0 to 29, both buses -1, 0 or 1. */
  lemma CheckedByNumbers(f: Flash)
    requires Proper(f)
    ensures Checked(f) <==> (forall k :: 0 <= k < 48 ==> -1 <= RecordPins(f)[k] <= 29)
                            && -1 <= f.joywing[0].bus <= 1 && -1 <= f.joywing[1].bus <= 1
  {
    var a: seq<int>, b: seq<int> := [f.i2cSda, f.i2cScl], [f.ledPin];
    var c: seq<int> := [f.qwiic[0], f.qwiic[1], f.usbHostDp, f.f1, f.f2];
    var d: seq<int> := [f.toggle[0].pin, f.toggle[1].pin, f.joywing[0].sda, f.joywing[0].scl, f.joywing[1].sda, f.joywing[1].scl];
    OkByNumbers(RecordPins(f));
    CheckedByParts(f, a, b, c, d);
    hide Checked, PinOk, AllOk;
    var mid: seq<int>, keys: seq<int> := b + f.speaker + f.display, c + f.rhat;
    assert RecordPins(f) == a + f.buttons + mid + keys + d;
    AllOkConcat(a, f.buttons);
    AllOkConcat(b, f.speaker);
    AllOkConcat(b + f.speaker, f.display);
    AllOkConcat(a + f.buttons, mid);
    AllOkConcat(c, f.rhat);
    AllOkConcat(a + f.buttons + mid, keys);
    AllOkConcat(a + f.buttons + mid + keys, d);
  }

  lemma CheckedByParts(f: Flash, a: seq<int>, b: seq<int>, c: seq<int>, d: seq<int>)
    requires Proper(f) && a == [f.i2cSda, f.i2cScl] && b == [f.ledPin]
    requires c == [f.qwiic[0], f.qwiic[1], f.usbHostDp, f.f1, f.f2]
    requires d == [f.toggle[0].pin, f.toggle[1].pin, f.joywing[0].sda, f.joywing[0].scl, f.joywing[1].sda, f.joywing[1].scl]
    ensures Checked(f) <==>
            && AllOk(a) && AllOk(f.buttons) && AllOk(b) && AllOk(f.speaker) && AllOk(f.display) && AllOk(c) && AllOk(f.rhat)
            && AllOk(d) && -1 <= f.joywing[0].bus <= 1 && -1 <= f.joywing[1].bus <= 1
  {
    hide PinOk;
    FewOk(a, b, c, d);
    assert AllOk(f.speaker) <==> PinOk(f.speaker[0]) && PinOk(f.speaker[1]);
  }

  lemma FewOk(a: seq<int>, b: seq<int>, c: seq<int>, d: seq<int>)
    requires |a| == 2 && |b| == 1 && |c| == 5 && |d| == 6
    ensures AllOk(a) <==> PinOk(a[0]) && PinOk(a[1])
    ensures AllOk(b) <==> PinOk(b[0])
    ensures AllOk(c) <==> PinOk(c[0]) && PinOk(c[1]) && PinOk(c[2]) && PinOk(c[3]) && PinOk(c[4])
    ensures AllOk(d) <==> PinOk(d[0]) && PinOk(d[1]) && PinOk(d[2]) && PinOk(d[3]) && PinOk(d[4]) && PinOk(d[5])
  {
    hide PinOk;
  }

  method FlashValid(f: Flash) returns (ok: bool)
    requires Proper(f)
    ensures ok == Checked(f)
    ensures ok <==> (forall k :: 0 <= k < 48 ==> -1 <= RecordPins(f)[k] <= 29)
                    && -1 <= f.joywing[0].bus <= 1 && -1 <= f.joywing[1].bus <= 1
  {
    hide RecordPins, PinOk;
    CheckedByNumbers(f);
    if !PinOk(f.i2cSda) || !PinOk(f.i2cScl) { return false; }
    for i := 0 to 22
      invariant forall k :: 0 <= k < i ==> PinOk(f.buttons[k])
    {
      if !PinOk(f.buttons[i]) { return false; }
    }
    if !PinOk(f.ledPin) { return false; }
    if !PinOk(f.speaker[0]) || !PinOk(f.speaker[1]) { return false; }
    if !PinOk(f.display[0]) || !PinOk(f.display[1]) || !PinOk(f.display[2]) || !PinOk(f.display[3])
       || !PinOk(f.display[4]) || !PinOk(f.display[5]) { return false; }
    if !PinOk(f.qwiic[0]) || !PinOk(f.qwiic[1]) { return false; }
    if !PinOk(f.usbHostDp) { return false; }
    if !PinOk(f.f1) || !PinOk(f.f2) { return false; }
    if !PinOk(f.rhat[0]) || !PinOk(f.rhat[1]) || !PinOk(f.rhat[2]) || !PinOk(f.rhat[3]) { return false; }
    for i := 0 to 2
      invariant forall k :: 0 <= k < i ==> PinOk(f.toggle[k].pin)
      invariant forall k :: 0 <= k < i ==> PinOk(f.joywing[k].sda) && PinOk(f.joywing[k].scl) && -1 <= f.joywing[k].bus <= 1
    {
      if !PinOk(f.toggle[i].pin) { return false; }
      if !PinOk(f.joywing[i].sda) || !PinOk(f.joywing[i].scl) { return false; }
      if f.joywing[i].bus < -1 || f.joywing[i].bus > 1 { return false; }
    }
    ok := true;
  }

  // ---------------------------------------------------------------------------
  // Save and load through the journal
  // ---------------------------------------------------------------------------

  /** What the runtime gets from a record of flash: nothing for a stale schema or a bad pin. */
  function RuntimeOf(p: Option<Page>): Option<Runtime> {
    if p.None? then None
    else var f := Unpack(Body(p.value));
         if f.schema == SCHEMA && Checked(f) then Some(FromFlash(f)) else None
  }

  /** The schema version is byte 170 of a record. */
  lemma SchemaByte(page: Page)
    ensures Unpack(Body(page)).schema == page[170]
    ensures page[170] != 1 ==> RuntimeOf(Some(page)) == None
  {
    hide FromHalves, TogglesOf, CombosOf, Checked, FromFlash;
    assert Body(page)[162] == page[170];
  }

  function PageOf(r: Runtime): (p: Page)
    ensures Body(p) == Pack(ToFlash(r))
  {
    var p := LanesOf(MAGIC) + LanesOf(0) + Pack(ToFlash(r));
    assert p[HEADER..] == Pack(ToFlash(r));
    p
  }

  class PadFlash {
    const storage: PadStorage

    constructor (storage: PadStorage)
      ensures this.storage == storage
    {
      this.storage := storage;
    }

    method Save(r: Runtime)
      requires storage.Valid()
      modifies storage, storage.slots
      ensures storage.Valid() && storage.Abs() == Saved(old(storage.Abs()), PageOf(r))
    {
      storage.Save(PageOf(r));
    }

    method LoadRuntime() returns (r: Option<Runtime>)
      requires storage.Valid()
      modifies storage, storage.slots
      ensures storage.Valid()
      ensures var p := Loaded(old(storage.Abs()));
              && r == RuntimeOf(p)
              && storage.Abs() == (if p.Some? && p.value[170] != 1 then Wiped() else AfterLoad(old(storage.Abs())))
    {
      hide Loaded, AfterLoad, Wiped, Checked, FromFlash, Unpack;
      var p := storage.Load();
      if p.None? { return None; }
      SchemaByte(p.value);
      var f := Unpack(Body(p.value));
      if f.schema != SCHEMA {
        storage.Erase();
        return None;
      }
      var ok := FlashValid(f);
      if !ok { return None; }
      r := Some(FromFlash(f));
    }
  }

  /** Every pin the check looks at, by the runtime's own names. */
  function CheckedPins(r: Runtime): (p: seq<int>)
    ensures |p| == 48
  {
    [r.i2cSda, r.i2cScl] + ButtonPins(r.buttons)
    + [r.ledPin, r.speakerPin, r.speakerEnable,
       r.display.spi, r.display.sck, r.display.mosi, r.display.cs, r.display.dc, r.display.rst]
    + [r.qwiicTx, r.qwiicRx, r.usbHostDp, r.f1, r.f2, r.rhatUp, r.rhatDown, r.rhatLeft, r.rhatRight]
    + [r.toggle0.pin, r.toggle1.pin, r.joywing0.sda, r.joywing0.scl, r.joywing1.sda, r.joywing1.scl]
  }

  /** Each is unused (-1) or a pin from 0 to 29, and both joywing buses are -1, 0 or 1. */
  predicate PinsInRange(r: Runtime) {
    && (forall k :: 0 <= k < 48 ==> -1 <= CheckedPins(r)[k] <= 29)
    && -1 <= r.joywing0.bus <= 1 && -1 <= r.joywing1.bus <= 1
  }

  lemma CheckedIffInRange(r: Runtime)
    ensures Checked(ToFlash(r)) <==> PinsInRange(r)
  {
    CheckedByNumbers(ToFlash(r));
    SamePins(r);
    hide Checked, RecordPins, CheckedPins, ToFlash;
  }

  /** The record's checked pins are the runtime's. */
  lemma SamePins(r: Runtime)
    ensures var f := ToFlash(r);
            RecordPins(f) == CheckedPins(r) && f.joywing[0].bus == r.joywing0.bus && f.joywing[1].bus == r.joywing1.bus
  {
    hide NameField, Flags, ButtonPins;
    var f := ToFlash(r);
    var x: seq<int>, y: seq<int> := [f.ledPin] + f.speaker + f.display, [f.qwiic[0], f.qwiic[1], f.usbHostDp, f.f1, f.f2] + f.rhat;
    assert x == [r.ledPin, r.speakerPin, r.speakerEnable,
                 r.display.spi, r.display.sck, r.display.mosi, r.display.cs, r.display.dc, r.display.rst];
    assert y == [r.qwiicTx, r.qwiicRx, r.usbHostDp, r.f1, r.f2, r.rhatUp, r.rhatDown, r.rhatLeft, r.rhatRight];
  }

  /** What the runtime gets from the record of a configuration just saved. */
  lemma RecordOfSaved(r: Runtime, sequence: word)
    requires r.name.Some? ==> IsCString(r.name.value)
    ensures RuntimeOf(Some(Record(PageOf(r), sequence))) == if PinsInRange(r) then Some(Stored(r)) else None
  {
    hide Pack, Unpack, ToFlash, FromFlash, Checked, PinsInRange, Record, Stored, PageOf, Body;
    RecordFields(PageOf(r), sequence);
    UnpackPack(ToFlash(r));
    CheckedIffInRange(r);
    ConversionRoundTrip(r);
    SchemaOf(r);
    assert Body(Record(PageOf(r), sequence)) == Pack(ToFlash(r));
  }

  lemma SchemaOf(r: Runtime)
    ensures ToFlash(r).schema == SCHEMA
  {
  }

  /**
   Saving and loading through the journal: every stored field comes back unchanged if and only
   if each checked pin is -1 or 0 to 29 and both joywing buses are -1, 0 or 1; otherwise the
   saved configuration is rejected.
   */
  lemma SaveThenLoadRuntime(j: Journal, c: Cell, r: Runtime)
    requires Means(j, c) && c.saves + 1 < EMPTY && (r.name.Some? ==> IsCString(r.name.value))
    ensures RuntimeOf(Loaded(Saved(j, PageOf(r)))) == if PinsInRange(r) then Some(Stored(r)) else None
    ensures RuntimeOf(Loaded(Saved(j, PageOf(r)))) == Some(Stored(r)) <==>
            (forall k :: 0 <= k < 48 ==> -1 <= CheckedPins(r)[k] <= 29)
            && -1 <= r.joywing0.bus <= 1 && -1 <= r.joywing1.bus <= 1
  {
    hide RuntimeOf, Stored, PageOf, Loaded, Saved, CheckedPins;
    var page := PageOf(r);
    SaveThenLoad(j, c, page);
    RecordOfSaved(r, Next(j.sequence));
  }

  /**
   The configuration comes back whole only if, besides, it has a name of at most 31 characters
   and everything the record has no room for is zero: a touch sensor saved as disabled (-1)
   comes back on pin 0.
   */
  lemma WholeConfigIff(j: Journal, c: Cell, r: Runtime)
    requires Means(j, c) && c.saves + 1 < EMPTY && (r.name.Some? ==> IsCString(r.name.value))
    ensures RuntimeOf(Loaded(Saved(j, PageOf(r)))) == Some(r)
       <==> PinsInRange(r) && r.name.Some? && |r.name.value| <= 31 && r.rest == Unstored(seq(48, _ => 0), 0, seq(16, _ => 0), 0, 0)
  {
    hide RuntimeOf, PinsInRange, PageOf, Loaded, Saved, Means, Stored, NothingStored;
    SaveThenLoadRuntime(j, c, r);
    StoredWhole(r);
  }

  lemma StoredWhole(r: Runtime)
    ensures Stored(r) == r
       <==> r.name.Some? && |r.name.value| <= 31 && r.rest == Unstored(seq(48, _ => 0), 0, seq(16, _ => 0), 0, 0)
    ensures Stored(r).rest == Unstored(seq(48, _ => 0), 0, seq(16, _ => 0), 0, 0)
  {
    assert Zeros(48) == seq(48, _ => 0) && seq<word>(16, _ => 0) == seq(16, _ => 0);
    if r.name.Some? && |r.name.value| > NAME_LEN - 1 {
      assert |Cut(r.name.value, NAME_LEN - 1)| == NAME_LEN - 1;
    }
  }

  /** A record the firmware saved itself is never wiped as stale: its schema byte is 1. */
  lemma SavedIsNotStale(j: Journal, c: Cell, r: Runtime)
    requires Means(j, c) && c.saves + 1 < EMPTY
    ensures var p := Loaded(Saved(j, PageOf(r))); p.Some? && p.value[170] == 1
  {
    hide Pack, Unpack, ToFlash, Record, Loaded, Saved;
    SaveThenLoad(j, c, PageOf(r));
    var page := Record(PageOf(r), Next(j.sequence));
    RecordFields(PageOf(r), Next(j.sequence));
    SavedSchema(r, page);
  }

  lemma SavedSchema(r: Runtime, page: Page)
    requires Body(page) == Body(PageOf(r))
    ensures page[170] == 1
  {
    hide Pack, Unpack, ToFlash, RuntimeOf, Body;
    UnpackPack(ToFlash(r));
    SchemaOf(r);
    SchemaByte(page);
  }

  /**
   The edges of the range, in every position of the checked pins: an unused pin and pin 29 are
   taken, pin 30 and -2 are not.
   */
  lemma EdgePins(j: Journal, c: Cell, r: Runtime)
    requires Means(j, c) && c.saves + 1 < EMPTY && (r.name.Some? ==> IsCString(r.name.value))
    ensures -1 <= r.joywing0.bus <= 1 && -1 <= r.joywing1.bus <= 1 && (forall k :: 0 <= k < 48 ==> CheckedPins(r)[k] in {-1, 29})
            ==> RuntimeOf(Loaded(Saved(j, PageOf(r)))) == Some(Stored(r))
    ensures (exists k :: 0 <= k < 48 && CheckedPins(r)[k] in {-2, 30}) ==> RuntimeOf(Loaded(Saved(j, PageOf(r)))) == None
  {
    SaveThenLoadRuntime(j, c, r);
    hide RuntimeOf, Loaded, Saved, PageOf, Stored, Means, CheckedPins;
  }

  lemma ButtonsAreChecked(r: Runtime, k: int)
    requires 0 <= k < 22
    ensures CheckedPins(r)[2 + k] == ButtonPins(r.buttons)[k]
  {
  }

  /** A configuration with any button on an expander, documented as pins 100 to 115 and 200 to 215, is saved but never comes back. */
  lemma ExpanderConfigsAreRejected(j: Journal, c: Cell, r: Runtime, k: int)
    requires Means(j, c) && c.saves + 1 < EMPTY && (r.name.Some? ==> IsCString(r.name.value))
    requires 0 <= k < 22
    requires var pin := ButtonPins(r.buttons)[k]; 100 <= pin <= 115 || 200 <= pin <= 215
    ensures RuntimeOf(Loaded(Saved(j, PageOf(r)))) == None
  {
    SaveThenLoadRuntime(j, c, r);
    ButtonsAreChecked(r, k);
    hide RuntimeOf, Loaded, Saved, PageOf, Stored, Means, CheckedPins, ButtonPins;
  }
}
