/** JavaScript key codes to USB HID usages, and US-layout characters. */
module Keymap {
  import opened Wrappers
  import opened BitStream

  /** The bit of a modifier key in the first byte of a report. */
  function ModBit(code: string): Option<bv8> {
    match code
    case "ControlLeft" => Some(0x01)
    case "ShiftLeft" => Some(0x02)
    case "AltLeft" => Some(0x04)
    case "MetaLeft" => Some(0x08)
    case "ControlRight" => Some(0x10)
    case "ShiftRight" => Some(0x20)
    case "AltRight" => Some(0x40)
    case "MetaRight" => Some(0x80)
    case _ => None
  }

  // The HID usages in the order of their numbers, a few keys at a time.

  function FirstLetterUsage(code: string): Option<Byte> {
    match code
    case "KeyA" => Some(0x04)
    case "KeyB" => Some(0x05)
    case "KeyC" => Some(0x06)
    case "KeyD" => Some(0x07)
    case "KeyE" => Some(0x08)
    case "KeyF" => Some(0x09)
    case "KeyG" => Some(0x0a)
    case "KeyH" => Some(0x0b)
    case "KeyI" => Some(0x0c)
    case "KeyJ" => Some(0x0d)
    case "KeyK" => Some(0x0e)
    case "KeyL" => Some(0x0f)
    case "KeyM" => Some(0x10)
    case _ => None
  }

  function LastLetterUsage(code: string): Option<Byte> {
    match code
    case "KeyN" => Some(0x11)
    case "KeyO" => Some(0x12)
    case "KeyP" => Some(0x13)
    case "KeyQ" => Some(0x14)
    case "KeyR" => Some(0x15)
    case "KeyS" => Some(0x16)
    case "KeyT" => Some(0x17)
    case "KeyU" => Some(0x18)
    case "KeyV" => Some(0x19)
    case "KeyW" => Some(0x1a)
    case "KeyX" => Some(0x1b)
    case "KeyY" => Some(0x1c)
    case "KeyZ" => Some(0x1d)
    case _ => None
  }

  function DigitUsage(code: string): Option<Byte> {
    match code
    case "Digit1" => Some(0x1e)
    case "Digit2" => Some(0x1f)
    case "Digit3" => Some(0x20)
    case "Digit4" => Some(0x21)
    case "Digit5" => Some(0x22)
    case "Digit6" => Some(0x23)
    case "Digit7" => Some(0x24)
    case "Digit8" => Some(0x25)
    case "Digit9" => Some(0x26)
    case "Digit0" => Some(0x27)
    case "Enter" => Some(0x28)
    case "Escape" => Some(0x29)
    case "Backspace" => Some(0x2a)
    case "Tab" => Some(0x2b)
    case "Space" => Some(0x2c)
    case _ => None
  }

  function SignUsage(code: string): Option<Byte> {
    match code
    case "Minus" => Some(0x2d)
    case "Equal" => Some(0x2e)
    case "BracketLeft" => Some(0x2f)
    case "BracketRight" => Some(0x30)
    case "Backslash" => Some(0x31)
    case "Semicolon" => Some(0x33)
    case "Quote" => Some(0x34)
    case "Backquote" => Some(0x35)
    case "Comma" => Some(0x36)
    case "Period" => Some(0x37)
    case "Slash" => Some(0x38)
    case "CapsLock" => Some(0x39)
    case _ => None
  }

  function FunctionUsage(code: string): Option<Byte> {
    match code
    case "F1" => Some(0x3a)
    case "F2" => Some(0x3b)
    case "F3" => Some(0x3c)
    case "F4" => Some(0x3d)
    case "F5" => Some(0x3e)
    case "F6" => Some(0x3f)
    case "F7" => Some(0x40)
    case "F8" => Some(0x41)
    case "F9" => Some(0x42)
    case "F10" => Some(0x43)
    case "F11" => Some(0x44)
    case "F12" => Some(0x45)
    case "PrintScreen" => Some(0x46)
    case "ScrollLock" => Some(0x47)
    case "Pause" => Some(0x48)
    case _ => None
  }

  function CursorUsage(code: string): Option<Byte> {
    match code
    case "Insert" => Some(0x49)
    case "Home" => Some(0x4a)
    case "PageUp" => Some(0x4b)
    case "Delete" => Some(0x4c)
    case "End" => Some(0x4d)
    case "PageDown" => Some(0x4e)
    case "ArrowRight" => Some(0x4f)
    case "ArrowLeft" => Some(0x50)
    case "ArrowDown" => Some(0x51)
    case "ArrowUp" => Some(0x52)
    case "NumLock" => Some(0x53)
    case "NumpadDivide" => Some(0x54)
    case _ => None
  }

  function NumpadUsage(code: string): Option<Byte> {
    match code
    case "NumpadMultiply" => Some(0x55)
    case "NumpadSubtract" => Some(0x56)
    case "NumpadAdd" => Some(0x57)
    case "NumpadEnter" => Some(0x58)
    case "Numpad1" => Some(0x59)
    case "Numpad2" => Some(0x5a)
    case "Numpad3" => Some(0x5b)
    case "Numpad4" => Some(0x5c)
    case "Numpad5" => Some(0x5d)
    case "Numpad6" => Some(0x5e)
    case "Numpad7" => Some(0x5f)
    case "Numpad8" => Some(0x60)
    case "Numpad9" => Some(0x61)
    case "Numpad0" => Some(0x62)
    case "NumpadDecimal" => Some(0x63)
    case "IntlBackslash" => Some(0x64)
    case "ContextMenu" => Some(0x65)
    case _ => None
  }

  /** The usage of a key that is not a modifier. */
  function KeyUsage(code: string): Option<Byte> {
    if FirstLetterUsage(code).Some? then FirstLetterUsage(code)
    else if LastLetterUsage(code).Some? then LastLetterUsage(code)
    else if DigitUsage(code).Some? then DigitUsage(code)
    else if SignUsage(code).Some? then SignUsage(code)
    else if FunctionUsage(code).Some? then FunctionUsage(code)
    else if CursorUsage(code).Some? then CursorUsage(code)
    else NumpadUsage(code)
  }

  lemma FirstLetterKey(a: string, b: string)
    ensures FirstLetterUsage(a).Some? ==> 0x04 <= FirstLetterUsage(a).value <= 0x10
    ensures FirstLetterUsage(a).Some? && FirstLetterUsage(a) == FirstLetterUsage(b) ==> a == b
  {}

  lemma LastLetterKey(a: string, b: string)
    ensures LastLetterUsage(a).Some? ==> 0x11 <= LastLetterUsage(a).value <= 0x1d
    ensures LastLetterUsage(a).Some? && LastLetterUsage(a) == LastLetterUsage(b) ==> a == b
  {}

  lemma DigitKey(a: string, b: string)
    ensures DigitUsage(a).Some? ==> 0x1e <= DigitUsage(a).value <= 0x2c
    ensures DigitUsage(a).Some? && DigitUsage(a) == DigitUsage(b) ==> a == b
  {}

  lemma SignKey(a: string, b: string)
    ensures SignUsage(a).Some? ==> 0x2d <= SignUsage(a).value <= 0x39
    ensures SignUsage(a).Some? && SignUsage(a) == SignUsage(b) ==> a == b
  {}

  lemma FunctionKey(a: string, b: string)
    ensures FunctionUsage(a).Some? ==> 0x3a <= FunctionUsage(a).value <= 0x48
    ensures FunctionUsage(a).Some? && FunctionUsage(a) == FunctionUsage(b) ==> a == b
  {}

  lemma CursorKey(a: string, b: string)
    ensures CursorUsage(a).Some? ==> 0x49 <= CursorUsage(a).value <= 0x54
    ensures CursorUsage(a).Some? && CursorUsage(a) == CursorUsage(b) ==> a == b
  {}

  lemma NumpadKey(a: string, b: string)
    ensures NumpadUsage(a).Some? ==> 0x55 <= NumpadUsage(a).value <= 0x65
    ensures NumpadUsage(a).Some? && NumpadUsage(a) == NumpadUsage(b) ==> a == b
  {}

  /** A usage says which group its key is in. */
  lemma UsageGroup(code: string)
    requires KeyUsage(code).Some?
    ensures var u := KeyUsage(code).value;
            && 0x04 <= u <= 0x65
            && (0x04 <= u <= 0x10 ==> FirstLetterUsage(code) == Some(u))
            && (0x11 <= u <= 0x1d ==> LastLetterUsage(code) == Some(u))
            && (0x1e <= u <= 0x2c ==> DigitUsage(code) == Some(u))
            && (0x2d <= u <= 0x39 ==> SignUsage(code) == Some(u))
            && (0x3a <= u <= 0x48 ==> FunctionUsage(code) == Some(u))
            && (0x49 <= u <= 0x54 ==> CursorUsage(code) == Some(u))
            && (0x55 <= u <= 0x65 ==> NumpadUsage(code) == Some(u))
  {
    FirstLetterKey(code, code);
    LastLetterKey(code, code);
    DigitKey(code, code);
    SignKey(code, code);
    FunctionKey(code, code);
    CursorKey(code, code);
    NumpadKey(code, code);
    hide FirstLetterUsage; hide LastLetterUsage; hide DigitUsage; hide SignUsage;
    hide FunctionUsage; hide CursorUsage; hide NumpadUsage;
  }

  /** No two keys share a usage, and none has usage 0. */
  lemma UsageNamesKey(a: string, b: string)
    requires KeyUsage(a).Some? && KeyUsage(a) == KeyUsage(b)
    ensures a == b && KeyUsage(a).value != 0
  {
    hide *;
    UsageGroup(a);
    UsageGroup(b);
    FirstLetterKey(a, b);
    LastLetterKey(a, b);
    DigitKey(a, b);
    SignKey(a, b);
    FunctionKey(a, b);
    CursorKey(a, b);
    NumpadKey(a, b);
  }

  const MODIFIERS: seq<string> :=
    ["ControlLeft", "ShiftLeft", "AltLeft", "MetaLeft", "ControlRight", "ShiftRight", "AltRight", "MetaRight"]

  /** The modifiers take the bits of the modifier byte in this order, lowest first; no other key is one. */
  lemma ModifierOrder(code: string)
    ensures ModBit(code).Some? <==> code in MODIFIERS
    ensures forall i :: 0 <= i < 8 ==> ModBit(MODIFIERS[i]) == Some([1, 2, 4, 8, 16, 32, 64, 128][i])
  {
    forall i | 0 <= i < 8 ensures ModBit(MODIFIERS[i]) == Some([1, 2, 4, 8, 16, 32, 64, 128][i]) {}
    if ModBit(code).Some? { ModifierIn(code); }
  }

  lemma ModifierIn(code: string)
    requires ModBit(code).Some?
    ensures code in MODIFIERS
  {
    assert MODIFIERS[0] == "ControlLeft" && MODIFIERS[1] == "ShiftLeft" && MODIFIERS[2] == "AltLeft";
    assert MODIFIERS[3] == "MetaLeft" && MODIFIERS[4] == "ControlRight" && MODIFIERS[5] == "ShiftRight";
    assert MODIFIERS[6] == "AltRight" && MODIFIERS[7] == "MetaRight";
  }

  datatype CharKey = CharKey(usage: Byte, shift: bool)

  /** Printable ASCII outside letters and digits, US layout. */
  function CharMap(r: char): Option<CharKey> {
    match r
    case ' ' => Some(CharKey(0x2c, false))   case '\n' => Some(CharKey(0x28, false))
    case '\r' => Some(CharKey(0x28, false))  case '\t' => Some(CharKey(0x2b, false))
    case '-' => Some(CharKey(0x2d, false))   case '_' => Some(CharKey(0x2d, true))
    case '=' => Some(CharKey(0x2e, false))   case '+' => Some(CharKey(0x2e, true))
    case '[' => Some(CharKey(0x2f, false))   case '{' => Some(CharKey(0x2f, true))
    case ']' => Some(CharKey(0x30, false))   case '}' => Some(CharKey(0x30, true))
    case '\\' => Some(CharKey(0x31, false))  case '|' => Some(CharKey(0x31, true))
    case ';' => Some(CharKey(0x33, false))   case ':' => Some(CharKey(0x33, true))
    case '\'' => Some(CharKey(0x34, false))  case '"' => Some(CharKey(0x34, true))
    case '`' => Some(CharKey(0x35, false))   case '~' => Some(CharKey(0x35, true))
    case ',' => Some(CharKey(0x36, false))   case '<' => Some(CharKey(0x36, true))
    case '.' => Some(CharKey(0x37, false))   case '>' => Some(CharKey(0x37, true))
    case '/' => Some(CharKey(0x38, false))   case '?' => Some(CharKey(0x38, true))
    case '!' => Some(CharKey(0x1e, true))    case '@' => Some(CharKey(0x1f, true))
    case '#' => Some(CharKey(0x20, true))    case '$' => Some(CharKey(0x21, true))
    case '%' => Some(CharKey(0x22, true))    case '^' => Some(CharKey(0x23, true))
    case '&' => Some(CharKey(0x24, true))    case '*' => Some(CharKey(0x25, true))
    case '(' => Some(CharKey(0x26, true))    case ')' => Some(CharKey(0x27, true))
    case _ => None
  }

  function CharToUsage(r: char): Option<CharKey> {
    if 'a' <= r <= 'z' then Some(CharKey(0x04 + (r - 'a') as nat, false))
    else if 'A' <= r <= 'Z' then Some(CharKey(0x04 + (r - 'A') as nat, true))
    else if '1' <= r <= '9' then Some(CharKey(0x1e + (r - '1') as nat, false))
    else if r == '0' then Some(CharKey(0x27, false))
    else CharMap(r)
  }

  // --- what a host with a US layout makes of a key ---

  const DIGITS: string := "1234567890"
  const SHIFTED_DIGITS: string := "!@#$%^&*()"
  const SIGNS: string := "-=[]\\"
  const SHIFTED_SIGNS: string := "_+{}|"
  const MARKS: string := ";'`,./"
  const SHIFTED_MARKS: string := ":\"~<>?"

  function UsLayout(usage: Byte, shift: bool): Option<char> {
    if 0x04 <= usage <= 0x1d then Some((if shift then 'A' else 'a') + (usage - 0x04) as char)
    else if 0x1e <= usage <= 0x27 then Some((if shift then SHIFTED_DIGITS else DIGITS)[usage - 0x1e])
    else if usage == 0x28 then Some('\n')
    else if usage == 0x2b then Some('\t')
    else if usage == 0x2c then Some(' ')
    else if 0x2d <= usage <= 0x31 then Some((if shift then SHIFTED_SIGNS else SIGNS)[usage - 0x2d])
    else if 0x33 <= usage <= 0x38 then Some((if shift then SHIFTED_MARKS else MARKS)[usage - 0x33])
    else None
  }

  /** CR is typed as the Enter key. */
  function Typed(r: char): char { if r == '\r' then '\n' else r }

  /** Every character that can be typed comes back from the key it is typed with. */
  lemma LayoutInverts(r: char)
    requires CharToUsage(r).Some?
    ensures var k := CharToUsage(r).value; k.usage != 0 && UsLayout(k.usage, k.shift) == Some(Typed(r))
  {
    if 'a' <= r <= 'z' || 'A' <= r <= 'Z' || '0' <= r <= '9' {
      hide CharMap;
    } else {
      MarksInvert(r);
      hide CharMap; hide UsLayout;
    }
  }

  lemma MarksInvert(r: char)
    requires CharMap(r).Some?
    ensures var k := CharMap(r).value; k.usage != 0 && UsLayout(k.usage, k.shift) == Some(Typed(r))
  {}

  // --- what is printed on the keys ---

  // The characters on the caps of the printing keys, plain and shifted.

  function LetterCap(code: string): Option<(char, char)> {
    match code
    case "KeyA" => Some(('a', 'A'))
    case "KeyB" => Some(('b', 'B'))
    case "KeyC" => Some(('c', 'C'))
    case "KeyD" => Some(('d', 'D'))
    case "KeyE" => Some(('e', 'E'))
    case "KeyF" => Some(('f', 'F'))
    case "KeyG" => Some(('g', 'G'))
    case "KeyH" => Some(('h', 'H'))
    case "KeyI" => Some(('i', 'I'))
    case "KeyJ" => Some(('j', 'J'))
    case "KeyK" => Some(('k', 'K'))
    case "KeyL" => Some(('l', 'L'))
    case "KeyM" => Some(('m', 'M'))
    case _ => None
  }

  function LateLetterCap(code: string): Option<(char, char)> {
    match code
    case "KeyN" => Some(('n', 'N'))
    case "KeyO" => Some(('o', 'O'))
    case "KeyP" => Some(('p', 'P'))
    case "KeyQ" => Some(('q', 'Q'))
    case "KeyR" => Some(('r', 'R'))
    case "KeyS" => Some(('s', 'S'))
    case "KeyT" => Some(('t', 'T'))
    case "KeyU" => Some(('u', 'U'))
    case "KeyV" => Some(('v', 'V'))
    case "KeyW" => Some(('w', 'W'))
    case "KeyX" => Some(('x', 'X'))
    case "KeyY" => Some(('y', 'Y'))
    case "KeyZ" => Some(('z', 'Z'))
    case _ => None
  }

  function DigitCap(code: string): Option<(char, char)> {
    match code
    case "Digit1" => Some(('1', '!'))
    case "Digit2" => Some(('2', '@'))
    case "Digit3" => Some(('3', '#'))
    case "Digit4" => Some(('4', '$'))
    case "Digit5" => Some(('5', '%'))
    case "Digit6" => Some(('6', '^'))
    case "Digit7" => Some(('7', '&'))
    case "Digit8" => Some(('8', '*'))
    case "Digit9" => Some(('9', '('))
    case "Digit0" => Some(('0', ')'))
    case _ => None
  }

  function SignCap(code: string): Option<(char, char)> {
    match code
    case "Minus" => Some(('-', '_'))
    case "Equal" => Some(('=', '+'))
    case "BracketLeft" => Some(('[', '{'))
    case "BracketRight" => Some((']', '}'))
    case "Backslash" => Some(('\\', '|'))
    case "Semicolon" => Some((';', ':'))
    case "Quote" => Some(('\'', '"'))
    case "Backquote" => Some(('`', '~'))
    case "Comma" => Some((',', '<'))
    case "Period" => Some(('.', '>'))
    case "Slash" => Some(('/', '?'))
    case _ => None
  }

  function KeyCap(code: string): Option<(char, char)> {
    if LetterCap(code).Some? then LetterCap(code)
    else if LateLetterCap(code).Some? then LateLetterCap(code)
    else if DigitCap(code).Some? then DigitCap(code)
    else SignCap(code)
  }

  /** A key that carries these two characters. */
  predicate Carries(code: string, cap: (char, char)) {
    && KeyUsage(code).Some?
    && UsLayout(KeyUsage(code).value, false) == Some(cap.0) && UsLayout(KeyUsage(code).value, true) == Some(cap.1)
  }

  lemma LetterCapTyped(code: string)
    ensures LetterCap(code).Some? ==> Carries(code, LetterCap(code).value)
  {}

  lemma LateLetterCapTyped(code: string)
    ensures LateLetterCap(code).Some? ==> Carries(code, LateLetterCap(code).value)
  {}

  lemma DigitCapTyped(code: string)
    ensures DigitCap(code).Some? ==> Carries(code, DigitCap(code).value)
  {}

  lemma SignCapTyped(code: string)
    ensures SignCap(code).Some? ==> Carries(code, SignCap(code).value)
  {}

  /** Pressing a printing key gives a host with a US layout what is printed on it, with and without shift. */
  lemma CapsAreTyped(code: string)
    requires KeyCap(code).Some?
    ensures KeyUsage(code).Some?
    ensures UsLayout(KeyUsage(code).value, false) == Some(KeyCap(code).value.0)
    ensures UsLayout(KeyUsage(code).value, true) == Some(KeyCap(code).value.1)
  {
    LetterCapTyped(code);
    LateLetterCapTyped(code);
    DigitCapTyped(code);
    SignCapTyped(code);
    hide LetterCap; hide LateLetterCap; hide DigitCap; hide SignCap; hide KeyUsage; hide UsLayout;
  }

  const F_KEYS: seq<string> := ["F1", "F2", "F3", "F4", "F5", "F6", "F7", "F8", "F9", "F10", "F11", "F12"]
  const CURSOR: seq<string> :=
    ["Insert", "Home", "PageUp", "Delete", "End", "PageDown", "ArrowRight", "ArrowLeft", "ArrowDown", "ArrowUp"]
  const NUMPAD: seq<string> :=
    ["Numpad1", "Numpad2", "Numpad3", "Numpad4", "Numpad5", "Numpad6", "Numpad7", "Numpad8", "Numpad9", "Numpad0"]

  /** The other keys fill unbroken runs of the keyboard page of the HID usage tables. */
  lemma UsageRuns(i: nat)
    ensures i < 12 ==> KeyUsage(F_KEYS[i]) == Some(0x3a + i)
    ensures i < 10 ==> KeyUsage(CURSOR[i]) == Some(0x49 + i)
    ensures i < 10 ==> KeyUsage(NUMPAD[i]) == Some(0x59 + i)
  {
    FunctionRun(i);
    CursorRun(i);
    NumpadRun(i);
    hide KeyUsage;
  }

  lemma FunctionRun(i: nat)
    ensures i < 12 ==> KeyUsage(F_KEYS[i]) == Some(0x3a + i)
  {
    FunctionLow(i);
    FunctionHigh(i);
    hide KeyUsage;
  }

  lemma FunctionLow(i: nat)
    ensures i < 6 ==> KeyUsage(F_KEYS[i]) == Some(0x3a + i)
  {}

  lemma FunctionHigh(i: nat)
    ensures 6 <= i < 12 ==> KeyUsage(F_KEYS[i]) == Some(0x3a + i)
  {}

  lemma CursorRun(i: nat)
    ensures i < 10 ==> KeyUsage(CURSOR[i]) == Some(0x49 + i)
  {
    CursorLow(i);
    CursorHigh(i);
    hide KeyUsage;
  }

  lemma CursorLow(i: nat)
    ensures i < 5 ==> KeyUsage(CURSOR[i]) == Some(0x49 + i)
  {}

  lemma CursorHigh(i: nat)
    ensures 5 <= i < 10 ==> KeyUsage(CURSOR[i]) == Some(0x49 + i)
  {}

  lemma NumpadRun(i: nat)
    ensures i < 10 ==> KeyUsage(NUMPAD[i]) == Some(0x59 + i)
  {
    NumpadLow(i);
    NumpadHigh(i);
    hide KeyUsage;
  }

  lemma NumpadLow(i: nat)
    ensures i < 5 ==> KeyUsage(NUMPAD[i]) == Some(0x59 + i)
  {}

  lemma NumpadHigh(i: nat)
    ensures 5 <= i < 10 ==> KeyUsage(NUMPAD[i]) == Some(0x59 + i)
  {}

  /** Keys outside those runs, one by one. */
  lemma SingleKeys()
    ensures KeyUsage("PrintScreen") == Some(0x46) && KeyUsage("ScrollLock") == Some(0x47)
    ensures KeyUsage("Pause") == Some(0x48)
    ensures KeyUsage("NumLock") == Some(0x53) && KeyUsage("NumpadDivide") == Some(0x54)
    ensures KeyUsage("NumpadMultiply") == Some(0x55)
    ensures KeyUsage("NumpadSubtract") == Some(0x56) && KeyUsage("NumpadAdd") == Some(0x57)
    ensures KeyUsage("NumpadEnter") == Some(0x58)
    ensures KeyUsage("NumpadDecimal") == Some(0x63) && KeyUsage("IntlBackslash") == Some(0x64)
    ensures KeyUsage("ContextMenu") == Some(0x65)
  {
    SystemKeys();
    KeypadLock();
    KeypadSigns();
    LastKeys();
    hide KeyUsage;
  }

  lemma SystemKeys()
    ensures KeyUsage("PrintScreen") == Some(0x46) && KeyUsage("ScrollLock") == Some(0x47)
    ensures KeyUsage("Pause") == Some(0x48)
  {}

  lemma KeypadLock()
    ensures KeyUsage("NumLock") == Some(0x53) && KeyUsage("NumpadDivide") == Some(0x54)
    ensures KeyUsage("NumpadMultiply") == Some(0x55)
  {}

  lemma KeypadSigns()
    ensures KeyUsage("NumpadSubtract") == Some(0x56) && KeyUsage("NumpadAdd") == Some(0x57)
    ensures KeyUsage("NumpadEnter") == Some(0x58)
  {}

  lemma LastKeys()
    ensures KeyUsage("NumpadDecimal") == Some(0x63) && KeyUsage("IntlBackslash") == Some(0x64)
    ensures KeyUsage("ContextMenu") == Some(0x65)
  {}

  /** Editing keys one by one. */
  lemma EditingKeys()
    ensures KeyUsage("Enter") == Some(0x28) && KeyUsage("Escape") == Some(0x29) && KeyUsage("Backspace") == Some(0x2a)
    ensures KeyUsage("Tab") == Some(0x2b) && KeyUsage("Space") == Some(0x2c) && KeyUsage("CapsLock") == Some(0x39)
    ensures UsLayout(0x28, false) == Some('\n') && UsLayout(0x2b, false) == Some('\t')
    ensures UsLayout(0x2c, false) == Some(' ')
  {
    FirstEditingKeys();
    LastEditingKeys();
    hide KeyUsage;
  }

  lemma FirstEditingKeys()
    ensures KeyUsage("Enter") == Some(0x28) && KeyUsage("Escape") == Some(0x29) && KeyUsage("Backspace") == Some(0x2a)
  {}

  lemma LastEditingKeys()
    ensures KeyUsage("Tab") == Some(0x2b) && KeyUsage("Space") == Some(0x2c) && KeyUsage("CapsLock") == Some(0x39)
  {}
}
