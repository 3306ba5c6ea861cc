/** Keyboard and mouse state of a `glsh` window: the current and previous
    frame's key and button states, the cursor position and its per-frame
    displacement, the ASCII key translation table, and the application's
    window-dependent queries. */
module Input {

  // ---------------------------------------------------------------------
  // Key codes and buttons

  /** Key codes, in declaration order. */
  const KC_UNKNOWN := 0
  const KC_SPACE := 1
  const KC_TAB := 2
  const KC_RETURN := 3
  const KC_ESCAPE := 4
  const KC_BACKSPACE := 5
  const KC_DELETE := 6
  const KC_1 := 7
  const KC_2 := 8
  const KC_3 := 9
  const KC_4 := 10
  const KC_5 := 11
  const KC_6 := 12
  const KC_7 := 13
  const KC_8 := 14
  const KC_9 := 15
  const KC_0 := 16
  const KC_A := 17
  const KC_B := 18
  const KC_C := 19
  const KC_D := 20
  const KC_E := 21
  const KC_F := 22
  const KC_G := 23
  const KC_H := 24
  const KC_I := 25
  const KC_J := 26
  const KC_K := 27
  const KC_L := 28
  const KC_M := 29
  const KC_N := 30
  const KC_O := 31
  const KC_P := 32
  const KC_Q := 33
  const KC_R := 34
  const KC_S := 35
  const KC_T := 36
  const KC_U := 37
  const KC_V := 38
  const KC_W := 39
  const KC_X := 40
  const KC_Y := 41
  const KC_Z := 42
  const KC_UP := 43
  const KC_DOWN := 44
  const KC_RIGHT := 45
  const KC_LEFT := 46
  const KC_PAGE_UP := 47
  const KC_PAGE_DOWN := 48
  const KC_HOME := 49
  const KC_END := 50
  const KC_INSERT := 51
  const KC_F1 := 52
  const KC_F2 := 53
  const KC_F3 := 54
  const KC_F4 := 55
  const KC_F5 := 56
  const KC_F6 := 57
  const KC_F7 := 58
  const KC_F8 := 59
  const KC_F9 := 60
  const KC_F10 := 61
  const KC_F11 := 62
  const KC_F12 := 63
  const KC_SHIFT := 64
  const KC_SHIFT_L := 65
  const KC_SHIFT_R := 66
  const KC_CTRL := 67
  const KC_CTRL_L := 68
  const KC_CTRL_R := 69
  const KC_ALT := 70
  const KC_ALT_L := 71
  const KC_ALT_R := 72
  const KC_NUM_KEYS := 73

  type KeyCode = k: int | 0 <= k < KC_NUM_KEYS

  const MOUSE_BUTTON_UNKNOWN := 0
  const MOUSE_BUTTON_LEFT := 1
  const MOUSE_BUTTON_MIDDLE := 2
  const MOUSE_BUTTON_RIGHT := 3
  const MOUSE_NUM_BUTTONS := 4

  type MouseButton = b: int | 0 <= b < MOUSE_NUM_BUTTONS

  /** A left or right Shift, Ctrl or Alt key. */
  predicate IsModifierSide(k: int)
  {
    k == KC_SHIFT_L || k == KC_SHIFT_R || k == KC_CTRL_L || k == KC_CTRL_R || k == KC_ALT_L || k == KC_ALT_R
  }

  /** The combined Shift, Ctrl or Alt code standing for both sides. */
  predicate IsCombinedModifier(k: int)
  {
    k == KC_SHIFT || k == KC_CTRL || k == KC_ALT
  }

  /** The combined code of a modifier side. */
  function CombinedOf(k: int): (r: KeyCode)
    requires IsModifierSide(k)
    ensures IsCombinedModifier(r) && r < k <= r + 2
  {
    if k == KC_SHIFT_L || k == KC_SHIFT_R then KC_SHIFT
    else if k == KC_CTRL_L || k == KC_CTRL_R then KC_CTRL
    else KC_ALT
  }

  /** The other side of the same modifier. */
  function OtherSide(k: int): (r: KeyCode)
    requires IsModifierSide(k)
    ensures IsModifierSide(r) && r != k && CombinedOf(r) == CombinedOf(k)
  {
    if k == KC_SHIFT_L then KC_SHIFT_R
    else if k == KC_SHIFT_R then KC_SHIFT_L
    else if k == KC_CTRL_L then KC_CTRL_R
    else if k == KC_CTRL_R then KC_CTRL_L
    else if k == KC_ALT_L then KC_ALT_R
    else KC_ALT_L
  }

  // ---------------------------------------------------------------------
  // Keyboard

  class Keyboard {
    var curr: seq<bool>
    var prev: seq<bool>

    /** One current and one previous state per key code. */
    ghost predicate Valid()
      reads this
    {
      |curr| == KC_NUM_KEYS && |prev| == KC_NUM_KEYS
    }

    /** Each combined modifier is down exactly when one of its sides is. */
    ghost predicate ModifiersMerged()
      reads this
      requires Valid()
    {
      (curr[KC_SHIFT] <==> curr[KC_SHIFT_L] || curr[KC_SHIFT_R]) &&
      (curr[KC_CTRL] <==> curr[KC_CTRL_L] || curr[KC_CTRL_R]) &&
      (curr[KC_ALT] <==> curr[KC_ALT_L] || curr[KC_ALT_R])
    }

    /** Every key up, now and in the previous frame. */
    constructor ()
      ensures Valid() && ModifiersMerged()
      ensures forall k :: 0 <= k < KC_NUM_KEYS ==> !curr[k] && !prev[k]
    {
      curr := seq(KC_NUM_KEYS, _ => false);
      prev := seq(KC_NUM_KEYS, _ => false);
    }

    /** Marks `kc` down; a modifier side also marks its combined code down. */
    method InjectKeyDown(kc: KeyCode)
      requires Valid()
      modifies this
      ensures Valid() && prev == old(prev)
      ensures curr[kc]
      ensures IsModifierSide(kc) ==> curr[CombinedOf(kc)]
      ensures forall k :: 0 <= k < KC_NUM_KEYS && k != kc && !(IsModifierSide(kc) && k == CombinedOf(kc)) ==>
        curr[k] == old(curr[k])
      ensures old(ModifiersMerged()) && !IsCombinedModifier(kc) ==> ModifiersMerged()
    {
      curr := curr[kc := true];
      if kc == KC_SHIFT_L || kc == KC_SHIFT_R {
        curr := curr[KC_SHIFT := true];
      } else if kc == KC_CTRL_L || kc == KC_CTRL_R {
        curr := curr[KC_CTRL := true];
      } else if kc == KC_ALT_L || kc == KC_ALT_R {
        curr := curr[KC_ALT := true];
      }
    }

    /** Marks `kc` up; releasing a modifier side leaves its combined code
        down exactly when the other side still is. */
    method InjectKeyUp(kc: KeyCode)
      requires Valid()
      modifies this
      ensures Valid() && prev == old(prev)
      ensures !curr[kc]
      ensures IsModifierSide(kc) ==> curr[CombinedOf(kc)] == old(curr[OtherSide(kc)])
      ensures forall k :: 0 <= k < KC_NUM_KEYS && k != kc && !(IsModifierSide(kc) && k == CombinedOf(kc)) ==>
        curr[k] == old(curr[k])
      ensures old(ModifiersMerged()) && !IsCombinedModifier(kc) ==> ModifiersMerged()
    {
      curr := curr[kc := false];
      if kc == KC_SHIFT_L {
        curr := curr[KC_SHIFT := curr[KC_SHIFT_R]];
      } else if kc == KC_SHIFT_R {
        curr := curr[KC_SHIFT := curr[KC_SHIFT_L]];
      } else if kc == KC_CTRL_L {
        curr := curr[KC_CTRL := curr[KC_CTRL_R]];
      } else if kc == KC_CTRL_R {
        curr := curr[KC_CTRL := curr[KC_CTRL_L]];
      } else if kc == KC_ALT_L {
        curr := curr[KC_ALT := curr[KC_ALT_R]];
      } else if kc == KC_ALT_R {
        curr := curr[KC_ALT := curr[KC_ALT_L]];
      }
    }

    /** Ends a frame: the current states become the previous ones, so no key
        is pressed or released until the next event. */
    method Update()
      requires Valid()
      modifies this
      ensures Valid() && prev == old(curr) && curr == old(curr)
      ensures forall k: KeyCode :: !KeyPressed(k) && !KeyReleased(k)
    {
      prev := curr;
    }

    /** Every key up now (the window lost focus); the previous frame is
        kept. */
    method Clear()
      requires Valid()
      modifies this
      ensures Valid() && prev == old(prev) && ModifiersMerged()
      ensures forall k :: 0 <= k < KC_NUM_KEYS ==> !curr[k]
    {
      curr := seq(KC_NUM_KEYS, _ => false);
    }

    function IsKeyDown(k: KeyCode): (r: bool)
      reads this
      requires Valid()
      ensures r <==> curr[k]
    {
      curr[k]
    }

    function IsKeyUp(k: KeyCode): (r: bool)
      reads this
      requires Valid()
      ensures r <==> !IsKeyDown(k)
    {
      !curr[k]
    }

    /** Down in this frame, up in the previous one. */
    function KeyPressed(k: KeyCode): (r: bool)
      reads this
      requires Valid()
      ensures r <==> IsKeyDown(k) && !prev[k]
    {
      curr[k] && !prev[k]
    }

    /** Up in this frame, down in the previous one; never together with
        `KeyPressed`. */
    function KeyReleased(k: KeyCode): (r: bool)
      reads this
      requires Valid()
      ensures r <==> IsKeyUp(k) && prev[k]
      ensures r ==> !KeyPressed(k)
    {
      !curr[k] && prev[k]
    }
  }

  // ---------------------------------------------------------------------
  // Mouse

  class Mouse {
    var currButtons: seq<bool>
    var prevButtons: seq<bool>
    var currX: int
    var currY: int
    var prevX: int
    var prevY: int
    var deltaX: int
    var deltaY: int
    var wheelDelta: int
    var haveMousePos: bool
    var frozen: bool
    var warpedCursor: bool

    ghost predicate Valid()
      reads this
    {
      |currButtons| == MOUSE_NUM_BUTTONS && |prevButtons| == MOUSE_NUM_BUTTONS
    }

    /** At rest at (0, 0), every button up, no position seen yet. */
    constructor ()
      ensures Valid()
      ensures forall b :: 0 <= b < MOUSE_NUM_BUTTONS ==> !currButtons[b] && !prevButtons[b]
      ensures currX == 0 && currY == 0 && prevX == 0 && prevY == 0
      ensures deltaX == 0 && deltaY == 0 && wheelDelta == 0
      ensures !haveMousePos && !frozen && !warpedCursor
    {
      currButtons := seq(MOUSE_NUM_BUTTONS, _ => false);
      prevButtons := seq(MOUSE_NUM_BUTTONS, _ => false);
      currX, currY, prevX, prevY := 0, 0, 0, 0;
      deltaX, deltaY, wheelDelta := 0, 0, 0;
      haveMousePos, frozen, warpedCursor := false, false, false;
    }

    method InjectButtonDown(button: MouseButton)
      requires Valid()
      modifies this`currButtons
      ensures Valid() && currButtons == old(currButtons)[button := true]
    {
      currButtons := currButtons[button := true];
    }

    method InjectButtonUp(button: MouseButton)
      requires Valid()
      modifies this`currButtons
      ensures Valid() && currButtons == old(currButtons)[button := false]
    {
      currButtons := currButtons[button := false];
    }

    /** A position event. The one that follows a warp of the cursor is
        dropped (and clears the warp flag); the first one after start-up or
        after the cursor left the window also becomes the previous
        position, so it causes no displacement. */
    method InjectMousePos(x: int, y: int)
      modifies this`currX, this`currY, this`prevX, this`prevY, this`haveMousePos, this`warpedCursor
      ensures old(warpedCursor) ==>
        !warpedCursor && currX == old(currX) && currY == old(currY) && prevX == old(prevX) && prevY == old(prevY) &&
        haveMousePos == old(haveMousePos)
      ensures !old(warpedCursor) ==> !warpedCursor && currX == x && currY == y && haveMousePos
      ensures !old(warpedCursor) && old(haveMousePos) ==> prevX == old(prevX) && prevY == old(prevY)
      ensures !old(warpedCursor) && !old(haveMousePos) ==> prevX == x && prevY == y
    {
      if warpedCursor {
        warpedCursor := false;
        return;
      }
      currX := x;
      currY := y;
      if !haveMousePos {
        prevX := x;
        prevY := y;
        haveMousePos := true;
      }
    }

    /** Wheel steps accumulate until the end of the frame. */
    method InjectWheelDelta(dir: int)
      modifies this`wheelDelta
      ensures wheelDelta == old(wheelDelta) + dir
    {
      wheelDelta := wheelDelta + dir;
    }

    /** Entering the window restarts displacement from the current position. */
    method InjectMouseEnter()
      modifies this`prevX, this`prevY
      ensures prevX == currX && prevY == currY
    {
      prevX := currX;
      prevY := currY;
    }

    method InjectMouseLeave()
      modifies this`haveMousePos
      ensures !haveMousePos
    {
      haveMousePos := false;
    }

    /** Freezes or releases the cursor; freezing centres it in a window of
        `windowW` by `windowH` pixels. */
    method FreezeCursor(freeze: bool, windowW: int, windowH: int)
      requires windowW >= 0 && windowH >= 0
      modifies this`currX, this`currY, this`prevX, this`prevY, this`frozen
      ensures frozen == freeze
      ensures freeze ==> currX == prevX == windowW / 2 && currY == prevY == windowH / 2
      ensures !freeze ==> currX == old(currX) && currY == old(currY) && prevX == old(prevX) && prevY == old(prevY)
    {
      if freeze {
        prevX := windowW / 2;
        currX := prevX;
        prevY := windowH / 2;
        currY := prevY;
      }
      frozen := freeze;
    }

    /** The frozen cursor is recentred only once it leaves the middle half
        of the window. */
    predicate OutsideInnerArea(x: int, y: int, windowW: int, windowH: int)
      requires windowW >= 0 && windowH >= 0
    {
      var cx := windowW / 2;
      var cy := windowH / 2;
      var qx := windowW / 4;
      var qy := windowH / 4;
      x < cx - qx || x > cx + qx || y < cy - qy || y > cy + qy
    }

    /** Ends a frame: the displacement is the current position minus the
        previous one, the previous position and button states catch up, and
        the wheel count restarts at 0. */
    method Update(windowW: int, windowH: int)
      requires Valid() && windowW >= 0 && windowH >= 0
      modifies this
      ensures Valid()
      ensures prevButtons == old(currButtons) && currButtons == old(currButtons)
      ensures deltaX == old(currX) - old(prevX) && deltaY == old(currY) - old(prevY)
      ensures prevX == currX && prevY == currY && wheelDelta == 0
      ensures var recentre := old(frozen) && OutsideInnerArea(old(currX), old(currY), windowW, windowH);
        (recentre ==> currX == windowW / 2 && currY == windowH / 2 && warpedCursor) &&
        (!recentre ==> currX == old(currX) && currY == old(currY) && warpedCursor == old(warpedCursor))
      ensures haveMousePos == old(haveMousePos) && frozen == old(frozen)
    {
      prevButtons := currButtons;
      deltaX := currX - prevX;
      deltaY := currY - prevY;
      if frozen && OutsideInnerArea(currX, currY, windowW, windowH) {
        currX := windowW / 2;
        currY := windowH / 2;
        warpedCursor := true;
      }
      prevX := currX;
      prevY := currY;
      wheelDelta := 0;
    }

    method Clear()
      requires Valid()
      modifies this`currButtons
      ensures Valid() && forall b :: 0 <= b < MOUSE_NUM_BUTTONS ==> !currButtons[b]
    {
      currButtons := seq(MOUSE_NUM_BUTTONS, _ => false);
    }

    function IsButtonDown(button: MouseButton): (r: bool)
      reads this
      requires Valid()
      ensures r <==> currButtons[button]
    {
      currButtons[button]
    }

    function IsButtonUp(button: MouseButton): (r: bool)
      reads this
      requires Valid()
      ensures r <==> !IsButtonDown(button)
    {
      !currButtons[button]
    }

    function ButtonPressed(button: MouseButton): (r: bool)
      reads this
      requires Valid()
      ensures r <==> IsButtonDown(button) && !prevButtons[button]
    {
      currButtons[button] && !prevButtons[button]
    }

    function ButtonReleased(button: MouseButton): (r: bool)
      reads this
      requires Valid()
      ensures r <==> IsButtonUp(button) && prevButtons[button]
      ensures r ==> !ButtonPressed(button)
    {
      !currButtons[button] && prevButtons[button]
    }

    function GetX(): (r: int)
      reads this
      ensures r == currX
    {
      currX
    }

    function GetY(): (r: int)
      reads this
      ensures r == currY
    {
      currY
    }

    function GetDeltaX(): (r: int)
      reads this
      ensures r == deltaX
    {
      deltaX
    }

    function GetDeltaY(): (r: int)
      reads this
      ensures r == deltaY
    {
      deltaY
    }

    function GetWheelDelta(): (r: int)
      reads this
      ensures r == wheelDelta
    {
      wheelDelta
    }

    /** Moved during the last frame: some displacement is not 0. */
    function IsMoving(): (r: bool)
      reads this
      ensures r <==> GetDeltaX() != 0 || GetDeltaY() != 0
    {
      deltaX != 0 || deltaY != 0
    }

    /** Moved with `button` held down. */
    function IsDragging(button: MouseButton): (r: bool)
      reads this
      requires Valid()
      ensures r <==> IsMoving() && IsButtonDown(button)
      ensures r ==> !IsButtonUp(button)
    {
      IsMoving() && IsButtonDown(button)
    }
  }

  // ---------------------------------------------------------------------
  // ASCII key table

  predicate IsDigitChar(c: int) { '0' as int <= c <= '9' as int }
  predicate IsLowerChar(c: int) { 'a' as int <= c <= 'z' as int }
  predicate IsUpperChar(c: int) { 'A' as int <= c <= 'Z' as int }

  /** Space, tab, carriage return, escape, backspace and delete. */
  predicate IsControlChar(c: int)
  {
    c == ' ' as int || c == '\t' as int || c == '\r' as int || c == 27 || c == 8 || c == 127
  }

  /** The bytes the table gives a key code. */
  predicate IsMappedChar(c: int)
  {
    IsControlChar(c) || IsDigitChar(c) || IsLowerChar(c) || IsUpperChar(c)
  }

  /** The key a byte of keyboard input stands for: the digit row counts
      `1` … `9`, `0`, and both cases of a letter are the same key. */
  function AsciiKey(c: int): (r: KeyCode)
    requires 0 <= c < 256
    ensures r == KC_UNKNOWN <==> !IsMappedChar(c)
    ensures IsLowerChar(c) ==> r == KC_A + (c - 'a' as int)
    ensures IsUpperChar(c) ==> r == KC_A + (c - 'A' as int)
    ensures IsDigitChar(c) ==> KC_1 <= r <= KC_0
  {
    if c == ' ' as int then KC_SPACE
    else if c == '\t' as int then KC_TAB
    else if c == '\r' as int then KC_RETURN
    else if c == 27 then KC_ESCAPE
    else if c == 8 then KC_BACKSPACE
    else if c == 127 then KC_DELETE
    else if c == '0' as int then KC_0
    else if IsDigitChar(c) then KC_1 + (c - '1' as int)
    else if IsLowerChar(c) then KC_A + (c - 'a' as int)
    else if IsUpperChar(c) then KC_A + (c - 'A' as int)
    else KC_UNKNOWN
  }

  /** Two different mapped bytes give the same key exactly when they are
      the two cases of one letter. */
  lemma AsciiKeySameKey(c: int, d: int)
    requires 0 <= c < 256 && 0 <= d < 256 && c != d && IsMappedChar(c)
    ensures AsciiKey(c) == AsciiKey(d) <==>
      (IsLowerChar(c) && d == c - 32) || (IsUpperChar(c) && d == c + 32)
  {
  }

  /** Writes the control keys into the table, leaving every other entry. */
  method SetControlKeys(keys: array<KeyCode>)
    requires keys.Length == 256
    modifies keys
    ensures forall c :: 0 <= c < 256 ==> keys[c] == if IsControlChar(c) then AsciiKey(c) else old(keys[c])
  {
    keys[' ' as int] := KC_SPACE;
    keys['\t' as int] := KC_TAB;
    keys['\r' as int] := KC_RETURN;
    keys[27] := KC_ESCAPE;
    keys[8] := KC_BACKSPACE;
    keys[127] := KC_DELETE;
  }

  method SetDigitKeys(keys: array<KeyCode>)
    requires keys.Length == 256
    modifies keys
    ensures forall c :: 0 <= c < 256 ==> keys[c] == if IsDigitChar(c) then AsciiKey(c) else old(keys[c])
  {
    keys['1' as int] := KC_1;
    keys['2' as int] := KC_2;
    keys['3' as int] := KC_3;
    keys['4' as int] := KC_4;
    keys['5' as int] := KC_5;
    keys['6' as int] := KC_6;
    keys['7' as int] := KC_7;
    keys['8' as int] := KC_8;
    keys['9' as int] := KC_9;
    keys['0' as int] := KC_0;
  }

  /** Writes the keys of the letters `lo` to `hi` of one case. */
  method SetAGLowerKeys(keys: array<KeyCode>)
    requires keys.Length == 256
    modifies keys
    ensures forall c :: 0 <= c < 256 ==> keys[c] == if 'a' as int <= c <= 'g' as int then AsciiKey(c) else old(keys[c])
  {
    keys['a' as int] := KC_A;
    keys['b' as int] := KC_B;
    keys['c' as int] := KC_C;
    keys['d' as int] := KC_D;
    keys['e' as int] := KC_E;
    keys['f' as int] := KC_F;
    keys['g' as int] := KC_G;
  }

  method SetAGUpperKeys(keys: array<KeyCode>)
    requires keys.Length == 256
    modifies keys
    ensures forall c :: 0 <= c < 256 ==> keys[c] == if 'A' as int <= c <= 'G' as int then AsciiKey(c) else old(keys[c])
  {
    keys['A' as int] := KC_A;
    keys['B' as int] := KC_B;
    keys['C' as int] := KC_C;
    keys['D' as int] := KC_D;
    keys['E' as int] := KC_E;
    keys['F' as int] := KC_F;
    keys['G' as int] := KC_G;
  }

  method SetHNLowerKeys(keys: array<KeyCode>)
    requires keys.Length == 256
    modifies keys
    ensures forall c :: 0 <= c < 256 ==> keys[c] == if 'h' as int <= c <= 'n' as int then AsciiKey(c) else old(keys[c])
  {
    keys['h' as int] := KC_H;
    keys['i' as int] := KC_I;
    keys['j' as int] := KC_J;
    keys['k' as int] := KC_K;
    keys['l' as int] := KC_L;
    keys['m' as int] := KC_M;
    keys['n' as int] := KC_N;
  }

  method SetHNUpperKeys(keys: array<KeyCode>)
    requires keys.Length == 256
    modifies keys
    ensures forall c :: 0 <= c < 256 ==> keys[c] == if 'H' as int <= c <= 'N' as int then AsciiKey(c) else old(keys[c])
  {
    keys['H' as int] := KC_H;
    keys['I' as int] := KC_I;
    keys['J' as int] := KC_J;
    keys['K' as int] := KC_K;
    keys['L' as int] := KC_L;
    keys['M' as int] := KC_M;
    keys['N' as int] := KC_N;
  }

  method SetOULowerKeys(keys: array<KeyCode>)
    requires keys.Length == 256
    modifies keys
    ensures forall c :: 0 <= c < 256 ==> keys[c] == if 'o' as int <= c <= 'u' as int then AsciiKey(c) else old(keys[c])
  {
    keys['o' as int] := KC_O;
    keys['p' as int] := KC_P;
    keys['q' as int] := KC_Q;
    keys['r' as int] := KC_R;
    keys['s' as int] := KC_S;
    keys['t' as int] := KC_T;
    keys['u' as int] := KC_U;
  }

  method SetOUUpperKeys(keys: array<KeyCode>)
    requires keys.Length == 256
    modifies keys
    ensures forall c :: 0 <= c < 256 ==> keys[c] == if 'O' as int <= c <= 'U' as int then AsciiKey(c) else old(keys[c])
  {
    keys['O' as int] := KC_O;
    keys['P' as int] := KC_P;
    keys['Q' as int] := KC_Q;
    keys['R' as int] := KC_R;
    keys['S' as int] := KC_S;
    keys['T' as int] := KC_T;
    keys['U' as int] := KC_U;
  }

  method SetVZLowerKeys(keys: array<KeyCode>)
    requires keys.Length == 256
    modifies keys
    ensures forall c :: 0 <= c < 256 ==> keys[c] == if 'v' as int <= c <= 'z' as int then AsciiKey(c) else old(keys[c])
  {
    keys['v' as int] := KC_V;
    keys['w' as int] := KC_W;
    keys['x' as int] := KC_X;
    keys['y' as int] := KC_Y;
    keys['z' as int] := KC_Z;
  }

  method SetVZUpperKeys(keys: array<KeyCode>)
    requires keys.Length == 256
    modifies keys
    ensures forall c :: 0 <= c < 256 ==> keys[c] == if 'V' as int <= c <= 'Z' as int then AsciiKey(c) else old(keys[c])
  {
    keys['V' as int] := KC_V;
    keys['W' as int] := KC_W;
    keys['X' as int] := KC_X;
    keys['Y' as int] := KC_Y;
    keys['Z' as int] := KC_Z;
  }

  method SetLowerKeys(keys: array<KeyCode>)
    requires keys.Length == 256
    modifies keys
    ensures forall c :: 0 <= c < 256 ==> keys[c] == if IsLowerChar(c) then AsciiKey(c) else old(keys[c])
  {
    SetAGLowerKeys(keys);
    SetHNLowerKeys(keys);
    SetOULowerKeys(keys);
    SetVZLowerKeys(keys);
  }

  method SetUpperKeys(keys: array<KeyCode>)
    requires keys.Length == 256
    modifies keys
    ensures forall c :: 0 <= c < 256 ==> keys[c] == if IsUpperChar(c) then AsciiKey(c) else old(keys[c])
  {
    SetAGUpperKeys(keys);
    SetHNUpperKeys(keys);
    SetOUUpperKeys(keys);
    SetVZUpperKeys(keys);
  }

  /** Fills the ASCII entries of the translation table; bytes without a key
      keep what they held. */
  method InitializeKeys(keys: array<KeyCode>)
    requires keys.Length == 256
    modifies keys
    ensures forall c :: 0 <= c < 256 ==> keys[c] == if IsMappedChar(c) then AsciiKey(c) else old(keys[c])
  {
    SetControlKeys(keys);
    SetDigitKeys(keys);
    SetLowerKeys(keys);
    SetUpperKeys(keys);
  }

  /** The translation table: 256 entries of `KC_UNKNOWN`, then the ASCII
      keys filled in. */
  method NewAsciiKeys() returns (keys: array<KeyCode>)
    ensures fresh(keys) && keys.Length == 256
    ensures forall c :: 0 <= c < 256 ==> keys[c] == AsciiKey(c)
  {
    keys := new KeyCode[256](_ => KC_UNKNOWN);
    InitializeKeys(keys);
  }

  // ---------------------------------------------------------------------
  // Application queries

  /** The input state and clock of a window. */
  class Window {
    const keyboard: Keyboard
    const mouse: Mouse
    var time: real

    constructor ()
      ensures fresh(keyboard) && fresh(mouse) && time == 0.0
    {
      keyboard := new Keyboard();
      mouse := new Mouse();
      time := 0.0;
    }
  }

  /** An application, attached to a window while it runs. */
  class App {
    var window: Window?

    constructor ()
      ensures window == null
    {
      window := null;
    }

    method SetWindow(w: Window?)
      modifies this
      ensures window == w
    {
      window := w;
    }

    function GetKeyboard(): (r: Keyboard?)
      reads this
      ensures r == null <==> window == null
      ensures window != null ==> r == window.keyboard
    {
      if window != null then window.keyboard else null
    }

    function GetMouse(): (r: Mouse?)
      reads this
      ensures r == null <==> window == null
      ensures window != null ==> r == window.mouse
    {
      if window != null then window.mouse else null
    }

    /** Seconds since the window started; 0 without a window. */
    function GetTime(): (r: real)
      reads this, window
      ensures window == null ==> r == 0.0
      ensures window != null ==> r == window.time
    {
      if window != null then window.time else 0.0
    }

    function IsRunning(): (r: bool)
      reads this
      ensures r <==> GetKeyboard() != null
    {
      window != null
    }
  }
}
