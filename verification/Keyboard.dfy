/**
 Decoding keyboard scancodes of set 2, byte by byte. The table from scancodes to
 keycodes is a parameter.
 */
module Keyboard {
  import opened Common

  type Lookup = seq<Byte> -> Byte

  const SCANCODE_LEN: nat := 8
  const BREAK_CODE: Byte := 0xF0
  const EXTENDED_CODE: Byte := 0xE0
  const PAUSE_START: Byte := 0xE1
  const PRINT_1: Byte := 0x12
  const PRINT_BREAK: Byte := 0x7C

  const PAUSE: seq<Byte> := [0xE1, 0x14, 0x77, 0xE1, 0xF0, 0x14, 0xF0, 0x77]
  const SCROLL: seq<Byte> := [0x7E]
  const NUM: seq<Byte> := [0x77]
  const CAPS: seq<Byte> := [0x58]

  datatype State = START | BREAK | EXTENDED | SPECIAL

  datatype Event = Event(key: Byte, pressed: bool)

  // ----- the bitmap of keys

  /** A byte of the bitmap as its bits, lowest first. */
  type Octet = o: seq<bool> | |o| == 8 witness seq(8, _ => false)
  type Bitmap = b: seq<Octet> | |b| == 32 witness seq(32, _ => seq(8, _ => false))

  function IsPressed(b: Bitmap, key: Byte): bool {
    b[key / 8][key % 8]
  }

  function SetPressed(b: Bitmap, key: Byte, value: bool): Bitmap {
    b[key / 8 := b[key / 8][key % 8 := value]]
  }

  lemma SetPressedExact(b: Bitmap, key: Byte, value: bool, other: Byte)
    ensures IsPressed(SetPressed(b, key, value), other) == if other == key then value else IsPressed(b, other)
  {
    assert key / 8 == other / 8 && key % 8 == other % 8 ==> key == other;
  }

  // ----- the machine

  /** log lists the events handed to the event handler. */
  datatype Kb = Kb(state: State, buf: seq<Byte>, len: nat, keys: Bitmap, log: seq<Event>)

  predicate IsPause(buf: seq<Byte>, len: nat)
    requires len <= |buf|
  {
    len >= 1 && buf[0] == PAUSE_START
  }

  predicate IsPrintMake(buf: seq<Byte>, len: nat)
    requires len <= |buf|
  {
    len >= 2 && buf[0] == EXTENDED_CODE && buf[1] == PRINT_1
  }

  predicate IsPrintBreak(buf: seq<Byte>, len: nat)
    requires len <= |buf|
  {
    len >= 3 && buf[0] == EXTENDED_CODE && buf[1] == BREAK_CODE && buf[2] == PRINT_BREAK
  }

  /** What the buffer holds in each state; in particular there is room for another byte. */
  predicate Valid(k: Kb) {
    && |k.buf| == SCANCODE_LEN
    && match k.state
       case START => k.len == 0
       case BREAK =>
         || (k.len == 1 && k.buf[0] == BREAK_CODE)
         || (k.len == 2 && k.buf[0] == EXTENDED_CODE && k.buf[1] == BREAK_CODE)
       case EXTENDED => k.len == 1 && k.buf[0] == EXTENDED_CODE
       case SPECIAL => (k.len < 8 && IsPause(k.buf, k.len)) || (k.len < 4 && IsPrintMake(k.buf, k.len))
  }

  /** Where the next byte goes: after a break code over it. */
  function WriteIndex(k: Kb): int {
    if k.state == BREAK then k.len - 1 else k.len
  }

  predicate IsLock(f: Lookup, key: Byte) {
    key == f(PAUSE) || key == f(SCROLL) || key == f(NUM) || key == f(CAPS)
  }

  /** keyboard_process_scancode. */
  function Process(k: Kb, f: Lookup, make: bool): Kb
    requires k.len <= |k.buf|
  {
    var key := f(k.buf[..k.len]);
    k.(state := START, len := 0, log := k.log + [Event(key, make)],
       keys := if IsLock(f, key) then k.keys else SetPressed(k.keys, key, make))
  }

  /** keyboard_process_special_scancode, for a condition that holds. */
  function ProcessSpecial(k: Kb, f: Lookup, len: nat, make: bool): Kb
    requires k.len <= |k.buf|
  {
    if k.len == len then Process(k, f, make) else k.(state := SPECIAL)
  }

  /** keyboard_handle_data. */
  function Handle(k: Kb, f: Lookup, data: Byte): Kb
    requires Valid(k)
  {
    var i := WriteIndex(k);
    var k1 := k.(buf := k.buf[i := data], len := i + 1);
    if IsPause(k1.buf, k1.len) then ProcessSpecial(k1, f, 8, true)
    else if IsPrintMake(k1.buf, k1.len) then ProcessSpecial(k1, f, 4, true)
    else if IsPrintBreak(k1.buf, k1.len) then ProcessSpecial(k1, f, 6, false)
    else
      match k1.state
      case START =>
        if data == BREAK_CODE then k1.(state := BREAK)
        else if data == EXTENDED_CODE then k1.(state := EXTENDED)
        else Process(k1, f, true)
      case BREAK => Process(k1, f, false)
      case EXTENDED => if data == BREAK_CODE then k1.(state := BREAK) else Process(k1, f, true)
      case SPECIAL => k1
  }

  /** Whatever byte comes, it is stored inside the buffer, and the pattern for releasing print screen is not met. */
  lemma HandleValid(k: Kb, f: Lookup, data: Byte)
    requires Valid(k)
    ensures Valid(Handle(k, f, data))
    ensures var i := WriteIndex(k);
            0 <= i < 8 && !IsPrintBreak(k.buf[i := data], i + 1)
  {
  }

  function Feed(k: Kb, f: Lookup, bytes: seq<Byte>): (k1: Kb)
    requires Valid(k)
    ensures Valid(k1)
    decreases |bytes|
  {
    if bytes == [] then k
    else
      HandleValid(k, f, bytes[0]);
      Feed(Handle(k, f, bytes[0]), f, bytes[1..])
  }

  lemma {:induction false} FeedAppend(k: Kb, f: Lookup, a: seq<Byte>, b: seq<Byte>)
    requires Valid(k)
    ensures Feed(k, f, a + b) == Feed(Feed(k, f, a), f, b)
    decreases |a|
  {
    hide Handle, Valid;
    if a == [] {
      assert a + b == b;
    } else {
      assert (a + b)[0] == a[0] && (a + b)[1..] == a[1..] + b;
      HandleValid(k, f, a[0]);
      FeedAppend(Handle(k, f, a[0]), f, a[1..], b);
    }
  }

  // ----- ordinary keys

  /** A key going down or up, by its scancode. */
  datatype Stroke = Stroke(code: seq<Byte>, pressed: bool)

  /** One byte, or the extended prefix and one byte; not print screen or pause. */
  predicate Ordinary(code: seq<Byte>) {
    || (|code| == 1 && code[0] != BREAK_CODE && code[0] != EXTENDED_CODE && code[0] != PAUSE_START)
    || (|code| == 2 && code[0] == EXTENDED_CODE && code[1] != BREAK_CODE && code[1] != PRINT_1)
  }

  /** Ordinary keys go down and up; pause and print screen, as far as they are recognised, only go down. */
  predicate Recognised(s: Stroke) {
    || Ordinary(s.code)
    || (s.pressed && s.code == [0xE1, 0x14, 0x77, 0xE1, 0xF0, 0x14, 0xF0, 0x77])
    || (s.pressed && s.code == [0xE0, 0x12, 0xE0, 0x7C])
  }

  /** The bytes a keyboard sends: for a release the break code before the last byte. */
  function Encode(s: Stroke): seq<Byte>
    requires Recognised(s)
  {
    if s.pressed then s.code
    else s.code[..|s.code| - 1] + [0xF0] + s.code[|s.code| - 1..]
  }

  function EncodeAll(ss: seq<Stroke>): seq<Byte>
    requires forall s <- ss :: Recognised(s)
  {
    if ss == [] then [] else EncodeAll(ss[..|ss| - 1]) + Encode(ss[|ss| - 1])
  }

  function EventOf(f: Lookup, s: Stroke): Event {
    Event(f(s.code), s.pressed)
  }

  function EventsOf(f: Lookup, ss: seq<Stroke>): seq<Event> {
    seq(|ss|, i requires 0 <= i < |ss| => EventOf(f, ss[i]))
  }

  /** What a stroke does to the bitmap. */
  function Struck(keys: Bitmap, f: Lookup, s: Stroke): Bitmap {
    if IsLock(f, f(s.code)) then keys else SetPressed(keys, f(s.code), s.pressed)
  }

  /** The whole scancode is in the buffer and gets processed. */
  ghost predicate Completed(k: Kb, k1: Kb, f: Lookup, code: seq<Byte>, make: bool) {
    && k1.state == START && k1.log == k.log + [Event(f(code), make)]
    && k1.keys == (if IsLock(f, f(code)) then k.keys else SetPressed(k.keys, f(code), make))
  }

  lemma ShortPress(k: Kb, f: Lookup, code: seq<Byte>)
    requires Valid(k) && k.state == START && Ordinary(code) && |code| == 1
    ensures Completed(k, Handle(k, f, code[0]), f, code, true)
  {
    hide IsLock, SetPressed;
    assert k.buf[0 := code[0]][..1] == code;
  }

  lemma ShortRelease(k: Kb, f: Lookup, code: seq<Byte>)
    requires Valid(k) && k.state == BREAK && k.len == 1 && Ordinary(code) && |code| == 1
    ensures Completed(k, Handle(k, f, code[0]), f, code, false)
  {
    hide IsLock, SetPressed;
    assert k.buf[0 := code[0]][..1] == code;
  }

  lemma LongEnd(k: Kb, f: Lookup, code: seq<Byte>)
    requires Valid(k) && Ordinary(code) && |code| == 2
    requires k.state == EXTENDED || (k.state == BREAK && k.len == 2)
    ensures Completed(k, Handle(k, f, code[1]), f, code, k.state == EXTENDED)
  {
    hide IsLock, SetPressed;
    assert k.buf[1 := code[1]][..2] == code;
  }

  lemma Prefix(k: Kb, f: Lookup, data: Byte)
    requires Valid(k) && (data == BREAK_CODE || data == EXTENDED_CODE)
    requires k.state == START || (k.state == EXTENDED && data == BREAK_CODE)
    ensures var k1 := Handle(k, f, data);
            && Valid(k1) && k1.log == k.log && k1.keys == k.keys
            && k1.state == (if data == BREAK_CODE then BREAK else EXTENDED)
            && k1.len == if k.state == START then 1 else 2
  {
  }

  lemma OneStroke(k: Kb, f: Lookup, s: Stroke)
    requires Valid(k) && k.state == START && Recognised(s)
    ensures Completed(k, Feed(k, f, Encode(s)), f, s.code, s.pressed)
  {
    if Ordinary(s.code) {
      OrdinaryStroke(k, f, s);
    } else {
      hide Handle, Valid, Feed, Completed, Collected;
      Collecting(k, f, s.code, |s.code| - 1);
    }
  }

  /** The first j bytes of a special scancode are in the buffer. */
  ghost predicate Collected(k: Kb, k1: Kb, code: seq<Byte>, j: nat)
    requires j <= |code|
  {
    && Valid(k1) && k1.log == k.log && k1.keys == k.keys && k1.len == j && k1.buf[..j] == code[..j]
    && k1.state == if j == 0 then START else if |code| == 4 && j == 1 then EXTENDED else SPECIAL
  }

  /** Those of pause and of pressing print screen. */
  predicate Special(code: seq<Byte>) {
    (|code| == 8 && code[0] == 0xE1) || (|code| == 4 && code[0] == 0xE0 && code[1] == 0x12)
  }

  lemma CollectOne(k: Kb, f: Lookup, k1: Kb, code: seq<Byte>, j: nat)
    requires Special(code) && j + 1 < |code| && Collected(k, k1, code, j)
    ensures Collected(k, Handle(k1, f, code[j]), code, j + 1)
  {
    hide IsLock, SetPressed;
    assert k1.buf[..j] == code[..j];
    assert k1.buf[j := code[j]][..j + 1] == code[..j + 1];
    assert j > 0 ==> k1.buf[0] == k1.buf[..j][0];
    assert j > 1 ==> k1.buf[1] == k1.buf[..j][1];
  }

  lemma CollectLast(k: Kb, f: Lookup, k1: Kb, code: seq<Byte>)
    requires Special(code) && Collected(k, k1, code, |code| - 1)
    ensures Completed(k, Handle(k1, f, code[|code| - 1]), f, code, true)
  {
    hide IsLock, SetPressed;
    var j := |code| - 1;
    assert k1.buf[j := code[j]][..j + 1] == code;
    assert k1.buf[0] == k1.buf[..j][0] && k1.buf[1] == k1.buf[..j][1];
  }

  /** A special scancode is collected byte by byte and processed with its last one. */
  lemma {:induction false} Collecting(k: Kb, f: Lookup, code: seq<Byte>, j: nat)
    requires Valid(k) && k.state == START && Special(code) && j < |code|
    ensures Collected(k, Feed(k, f, code[..j]), code, j)
    ensures j + 1 == |code| ==> Completed(k, Feed(k, f, code), f, code, true)
  {
    if j == 0 {
      assert code[..0] == [];
    } else {
      hide Handle, Valid, Completed, Collected, Special;
      Collecting(k, f, code, j - 1);
      assert code[..j] == code[..j - 1] + [code[j - 1]];
      FeedAppend(k, f, code[..j - 1], [code[j - 1]]);
      FeedOne(Feed(k, f, code[..j - 1]), f, [code[j - 1]]);
      CollectOne(k, f, Feed(k, f, code[..j - 1]), code, j - 1);
    }
    hide Handle, Valid, Completed, Collected;
    if j + 1 == |code| {
      assert code == code[..j] + [code[j]];
      FeedAppend(k, f, code[..j], [code[j]]);
      FeedOne(Feed(k, f, code[..j]), f, [code[j]]);
      CollectLast(k, f, Feed(k, f, code[..j]), code);
    }
  }

  lemma OrdinaryStroke(k: Kb, f: Lookup, s: Stroke)
    requires Valid(k) && k.state == START && Ordinary(s.code)
    ensures Completed(k, Feed(k, f, Encode(s)), f, s.code, s.pressed)
  {
    hide Handle, Valid, IsLock, SetPressed;
    var bytes := Encode(s);
    FeedOne(k, f, bytes);
    if |bytes| == 1 {
      ShortPress(k, f, s.code);
      return;
    }
    var k1 := Handle(k, f, bytes[0]);
    Prefix(k, f, bytes[0]);
    FeedOne(k1, f, bytes[1..]);
    if |s.code| == 1 {
      ShortRelease(k1, f, s.code);
    } else if s.pressed {
      LongEnd(k1, f, s.code);
    } else {
      Prefix(k1, f, bytes[1]);
      FeedOne(Handle(k1, f, bytes[1]), f, bytes[1..][1..]);
      LongEnd(Handle(k1, f, bytes[1]), f, s.code);
    }
  }

  lemma FeedOne(k: Kb, f: Lookup, bytes: seq<Byte>)
    requires Valid(k) && bytes != []
    ensures Valid(Handle(k, f, bytes[0])) && Feed(k, f, bytes) == Feed(Handle(k, f, bytes[0]), f, bytes[1..])
    ensures |bytes| == 1 ==> Feed(k, f, bytes) == Handle(k, f, bytes[0])
  {
    hide Handle, Valid;
    HandleValid(k, f, bytes[0]);
  }

  function StruckAll(keys: Bitmap, f: Lookup, ss: seq<Stroke>): Bitmap {
    if ss == [] then keys else Struck(StruckAll(keys, f, ss[..|ss| - 1]), f, ss[|ss| - 1])
  }

  /** Decoding undoes encoding: any sequence of strokes comes out as its events, in order and with nothing left over. */
  lemma {:induction false} DecodesAll(k: Kb, f: Lookup, ss: seq<Stroke>)
    requires Valid(k) && k.state == START && forall s <- ss :: Recognised(s)
    ensures var k1 := Feed(k, f, EncodeAll(ss));
            k1.state == START && k1.log == k.log + EventsOf(f, ss) && k1.keys == StruckAll(k.keys, f, ss)
  {
    hide Handle, Valid, Encode, Recognised, IsLock, SetPressed;
    if ss == [] {
      assert k.log + EventsOf(f, ss) == k.log;
    } else {
      var init, s := ss[..|ss| - 1], ss[|ss| - 1];
      DecodesAll(k, f, init);
      FeedAppend(k, f, EncodeAll(init), Encode(s));
      OneStroke(Feed(k, f, EncodeAll(init)), f, s);
      assert EventsOf(f, ss) == EventsOf(f, init) + [EventOf(f, s)];
    }
  }

  // ----- held keys

  /** Whether a key is down after the strokes: what its last stroke said, or else what held before. */
  function Held(ss: seq<Stroke>, code: seq<Byte>, before: bool): bool {
    if ss == [] then before
    else if ss[|ss| - 1].code == code then ss[|ss| - 1].pressed
    else Held(ss[..|ss| - 1], code, before)
  }

  predicate Injective(f: Lookup, known: set<seq<Byte>>) {
    forall a <- known, b <- known :: f(a) == f(b) ==> a == b
  }

  /** Pause, scroll lock, num lock and caps lock. */
  predicate LockKey(f: Lookup, key: Byte) {
    || key == f([0xE1, 0x14, 0x77, 0xE1, 0xF0, 0x14, 0xF0, 0x77])
    || key == f([0x7E]) || key == f([0x77]) || key == f([0x58])
  }

  lemma SameLocks(f: Lookup, key: Byte)
    ensures IsLock(f, key) <==> LockKey(f, key)
  {
  }

  /** The bitmap shows exactly the held keys; that of a lock key never changes. */
  lemma {:induction false} ShowsHeld(keys: Bitmap, f: Lookup, ss: seq<Stroke>, code: seq<Byte>, known: set<seq<Byte>>)
    requires Injective(f, known) && code in known && forall s <- ss :: s.code in known
    ensures IsPressed(StruckAll(keys, f, ss), f(code)) ==
            if LockKey(f, f(code)) then IsPressed(keys, f(code)) else Held(ss, code, IsPressed(keys, f(code)))
  {
    hide IsPressed, SetPressed, IsLock, LockKey;
    SameLocks(f, f(code));
    if ss != [] {
      var init, s := ss[..|ss| - 1], ss[|ss| - 1];
      ShowsHeld(keys, f, init, code, known);
      SetPressedExact(StruckAll(keys, f, init), f(s.code), s.pressed, f(code));
    }
  }

  // ----- print screen

  const PRINT_RELEASE: seq<Byte> := [0xE0, 0xF0, 0x7C, 0xE0, 0xF0, 0x12]

  /**
   Releasing print screen is not recognised: its first half is reported as the release
   of some other key, its second half is taken for the start of a press of print
   screen, which swallows the next two bytes whatever they are.
   */
  lemma PrintReleaseMisread(k: Kb, f: Lookup, x: Byte, y: Byte)
    requires Valid(k) && k.state == START
    ensures Feed(k, f, PRINT_RELEASE).state == SPECIAL
    ensures Feed(k, f, PRINT_RELEASE + [x, y]).log ==
            k.log + [Event(f([0xE0, 0x7C]), false), Event(f([0xE0, 0x12, x, y]), true)]
  {
    hide Handle, Valid, IsLock, SetPressed, Feed;
    var k1 := Handle(k, f, 0xE0);
    Prefix(k, f, 0xE0);
    var k2 := Handle(k1, f, 0xF0);
    Prefix(k1, f, 0xF0);
    var k3 := Handle(k2, f, 0x7C);
    LongEnd(k2, f, [0xE0, 0x7C]);
    HandleValid(k2, f, 0x7C);
    var k4 := Handle(k3, f, 0xE0);
    Prefix(k3, f, 0xE0);
    var k5 := Handle(k4, f, 0xF0);
    Prefix(k4, f, 0xF0);
    var k6 := Handle(k5, f, 0x12);
    SixBytes(k, f, k1, k2, k3, k4, k5, k6);
    FeedAppend(k, f, PRINT_RELEASE, [x, y]);
    Swallows(k5, f, x, y);
    FeedOne(k6, f, [x, y]);
    FeedOne(Handle(k6, f, x), f, [y]);
    assert [x, y][1..] == [y];
  }

  lemma Swallows(k: Kb, f: Lookup, x: Byte, y: Byte)
    requires Valid(k) && k.state == BREAK && k.len == 2
    ensures var k1 := Handle(k, f, 0x12);
            && Valid(k1) && k1.state == SPECIAL && Valid(Handle(k1, f, x))
            && Handle(Handle(k1, f, x), f, y).log == k.log + [Event(f([0xE0, 0x12, x, y]), true)]
  {
    hide IsLock, SetPressed;
    var k1 := Handle(k, f, 0x12);
    var k2 := Handle(k1, f, x);
    assert k2.buf[3 := y][..4] == [0xE0, 0x12, x, y];
  }

  lemma SixBytes(k: Kb, f: Lookup, k1: Kb, k2: Kb, k3: Kb, k4: Kb, k5: Kb, k6: Kb)
    requires Valid(k) && k1 == Handle(k, f, 0xE0) && Valid(k1) && k2 == Handle(k1, f, 0xF0) && Valid(k2)
    requires k3 == Handle(k2, f, 0x7C) && Valid(k3) && k4 == Handle(k3, f, 0xE0) && Valid(k4)
    requires k5 == Handle(k4, f, 0xF0) && Valid(k5) && k6 == Handle(k5, f, 0x12)
    ensures Feed(k, f, PRINT_RELEASE) == k6
  {
    hide Handle, Valid, Feed;
    var b := PRINT_RELEASE;
    FeedOne(k, f, b);
    FeedOne(k1, f, b[1..]);
    assert b[1..][1..] == b[2..] && b[2..][1..] == b[3..] && b[3..][1..] == b[4..] && b[4..][1..] == b[5..];
    FeedOne(k2, f, b[2..]);
    FeedOne(k3, f, b[3..]);
    FeedOne(k4, f, b[4..]);
    FeedOne(k5, f, b[5..]);
  }

  // ----- the driver as it runs

  class Driver {
    const lookup: Lookup
    const buf: array<Byte>
    const keyStates: array<Octet>
    var state: State
    var len: nat
    var event: Event
    ghost var log: seq<Event>

    ghost predicate Ready()
      reads this, buf, keyStates
    {
      buf.Length == SCANCODE_LEN && keyStates.Length == 32 && Valid(View())
    }

    ghost function View(): Kb
      requires keyStates.Length == 32
      reads this, buf, keyStates
    {
      Kb(state, buf[..], len, keyStates[..], log)
    }

    constructor (lookup: Lookup)
      ensures Ready() && fresh(buf) && fresh(keyStates) && this.lookup == lookup && state == START && log == []
      ensures forall key: Byte :: !IsPressed(View().keys, key)
    {
      this.lookup := lookup;
      buf := new Byte[SCANCODE_LEN](_ => 0);
      keyStates := new Octet[32](_ => seq(8, _ => false));
      state := START;
      len := 0;
      event := Event(0, false);
      log := [];
    }

    method GetKeyPressed(key: Byte) returns (r: bool)
      requires Ready()
      ensures r == IsPressed(View().keys, key)
    {
      r := keyStates[key / 8][key % 8];
    }

    method ProcessScancode(make: bool)
      requires buf.Length == SCANCODE_LEN && keyStates.Length == 32 && len <= SCANCODE_LEN
      modifies this, keyStates
      ensures View() == Process(old(View()), lookup, make)
    {
      event := Event(lookup(buf[..len]), make);
      if event.key != lookup(PAUSE) && event.key != lookup(SCROLL) && event.key != lookup(NUM)
         && event.key != lookup(CAPS) {
        keyStates[event.key / 8] := keyStates[event.key / 8][event.key % 8 := make];
      }
      log := log + [event];
      state := START;
      len := 0;
    }

    method ProcessSpecialScancode(condition: bool, fullLen: nat, make: bool) returns (handled: bool)
      requires buf.Length == SCANCODE_LEN && keyStates.Length == 32 && len <= SCANCODE_LEN
      modifies this, keyStates
      ensures handled == condition
      ensures View() == if condition then ProcessSpecial(old(View()), lookup, fullLen, make) else old(View())
    {
      if condition {
        state := SPECIAL;
        if len == fullLen {
          ProcessScancode(make);
        }
        return true;
      }
      return false;
    }

    /** keyboard_handle_data. */
    method HandleData(data: Byte)
      requires Ready()
      modifies this, buf, keyStates
      ensures Ready() && View() == Handle(old(View()), lookup, data)
    {
      hide Process;
      HandleValid(View(), lookup, data);
      if state == BREAK {
        len := len - 1;
      }
      buf[len] := data;
      len := len + 1;
      var handled := ProcessSpecialScancode(IsPause(buf[..], len), 8, true);
      if handled {
        return;
      }
      handled := ProcessSpecialScancode(IsPrintMake(buf[..], len), 4, true);
      if handled {
        return;
      }
      handled := ProcessSpecialScancode(IsPrintBreak(buf[..], len), 6, false);
      if handled {
        return;
      }
      match state {
        case START =>
          if data == BREAK_CODE {
            state := BREAK;
          } else if data == EXTENDED_CODE {
            state := EXTENDED;
          } else {
            ProcessScancode(true);
          }
        case BREAK => ProcessScancode(false);
        case EXTENDED =>
          if data == BREAK_CODE {
            state := BREAK;
          } else {
            ProcessScancode(true);
          }
        case SPECIAL =>
      }
    }
  }
}
