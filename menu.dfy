/**
 * Action.WriteLine: the yes/no confirmation and the keyboard-driven menu.
 * Rendering (colours, cursor positioning, the highlight bar) is not
 * modelled; key presses are a finite sequence, and a menu that runs out of
 * keys returns None.
 */
module WriteLine {
  import opened Strings
  import Ask

  /** The console keys the menu distinguishes. Digit(d) is ConsoleKey.D0..D9. */
  datatype Key = UpArrow | DownArrow | Enter | Escape | Digit(d: int) | OtherKey

  /** Confirm: one line is read; only `y` in either case confirms. A missing
      line (end of input) does not. */
  function Confirm(lines: seq<string>): (r: (bool, seq<string>))
    ensures r.1 == if lines == [] then [] else lines[1..]
  {
    if lines == [] then (false, [])
    else (EqualsIgnoreCase(lines[0], "y"), lines[1..])
  }

  /** Confirm accepts exactly the lines Ask.Bool reads as "yes" when it has
      no default: blank lines, `n`, the cancellation sentinel and everything
      else count as "no". */
  lemma ConfirmIsAskBoolYes(lines: seq<string>)
    ensures Confirm(lines).0 <==> lines != [] && Ask.BoolVerdict(lines[0], None) == Ask.Accept(true)
  {
  }

  // ---------------------------------------------------------------------------
  // SelectableMenu
  // ---------------------------------------------------------------------------

  /** The highlight after UpArrow: one row up, wrapping to the last row. */
  function MoveUp(i: int, n: int): (j: int)
    requires 0 <= i < n
    ensures 0 <= j < n
    ensures j == if i == 0 then n - 1 else i - 1
  {
    (i - 1 + n) % n
  }

  /** The highlight after DownArrow: one row down, wrapping to the first. */
  function MoveDown(i: int, n: int): (j: int)
    requires 0 <= i < n
    ensures 0 <= j < n
    ensures j == if i == n - 1 then 0 else i + 1
  {
    (i + 1) % n
  }

  /** Moving up and then down, or down and then up, returns to the row one
      started on. */
  lemma UpDownInverse(i: int, n: int)
    requires 0 <= i < n
    ensures MoveDown(MoveUp(i, n), n) == i
    ensures MoveUp(MoveDown(i, n), n) == i
  {
  }

  /** The index a digit shortcut selects, when shortcuts are on: digit k
      (1 to 9) selects k - 1, whatever the number of rows. */
  function Shortcut(k: Key, enabled: bool): (r: Option<int>)
    ensures r.Some? <==> enabled && k.Digit? && 1 <= k.d <= 9
    ensures r.Some? ==> r.value == k.d - 1 && 0 <= r.value <= 8
  {
    if enabled && k.Digit? && 1 <= k.d <= 9 then Some(k.d - 1) else None
  }

  /** Whether a key ends the menu. */
  predicate Ends(k: Key, shortcuts: bool) {
    k == Enter || k == Escape || Shortcut(k, shortcuts).Some?
  }

  /** The menu over n rows with the highlight on row i: what it returns
      (Some(-1) for Escape) and the keys left. */
  function Menu(n: int, shortcuts: bool, i: int, keys: seq<Key>): (r: (Option<int>, seq<Key>))
    requires 0 <= i < n
    ensures |r.1| <= |keys| && r.1 == keys[|keys| - |r.1|..]
    ensures r.0.Some? ==> |r.1| < |keys|
    ensures r.0.None? ==> r.1 == []
    ensures r.0.Some? ==> r.0.value == -1 || 0 <= r.0.value < n || (shortcuts && 0 <= r.0.value <= 8)
    ensures r.0.Some? && !shortcuts ==> -1 <= r.0.value < n
    decreases |keys|
  {
    if keys == [] then (None, [])
    else
      match keys[0]
      case UpArrow => Menu(n, shortcuts, MoveUp(i, n), keys[1..])
      case DownArrow => Menu(n, shortcuts, MoveDown(i, n), keys[1..])
      case Enter => (Some(i), keys[1..])
      case Escape => (Some(-1), keys[1..])
      case Digit(_) =>
        var s := Shortcut(keys[0], shortcuts);
        if s.Some? then (s, keys[1..]) else Menu(n, shortcuts, i, keys[1..])
      case OtherKey => Menu(n, shortcuts, i, keys[1..])
  }

  /** SelectableMenu(options, top, enableshotcut) over n = options.Length
      rows. Every caller passes at least one row. */
  method SelectableMenu(n: int, shortcuts: bool, keys: seq<Key>) returns (selected: Option<int>, rest: seq<Key>)
    requires n > 0
    ensures (selected, rest) == Menu(n, shortcuts, 0, keys)
  {
    var selectedIndex := 0;
    var k := 0;
    while k < |keys|
      invariant 0 <= selectedIndex < n
      invariant 0 <= k <= |keys|
      invariant Menu(n, shortcuts, selectedIndex, keys[k..]) == Menu(n, shortcuts, 0, keys)
    {
      var key := keys[k];
      assert keys[k..][0] == key && keys[k..][1..] == keys[k + 1..];
      ghost var before := Menu(n, shortcuts, selectedIndex, keys[k..]);
      k := k + 1;
      match key {
        case UpArrow =>
          selectedIndex := MoveUp(selectedIndex, n);
        case DownArrow =>
          selectedIndex := MoveDown(selectedIndex, n);
        case Enter =>
          return Some(selectedIndex), keys[k..];
        case Escape =>
          return Some(-1), keys[k..];
        case Digit(d) =>
          if shortcuts && 1 <= d <= 9 {
            assert before == (Some(d - 1), keys[k..]);
            return Some(d - 1), keys[k..];
          }
        case OtherKey =>
      }
      assert before == Menu(n, shortcuts, selectedIndex, keys[k..]);
    }
    selected, rest := None, [];
  }

  // ---------------------------------------------------------------------------
  // Properties of the menu
  // ---------------------------------------------------------------------------

  /** Escape ends the menu with -1, wherever the highlight is. */
  lemma EscapeCancels(n: int, shortcuts: bool, i: int, tail: seq<Key>)
    requires 0 <= i < n
    ensures Menu(n, shortcuts, i, [Escape] + tail) == (Some(-1), tail)
  {
    assert ([Escape] + tail)[0] == Escape && ([Escape] + tail)[1..] == tail;
  }

  /** With shortcuts on, digit d (1 to 9) selects index d - 1 at once,
      wherever the highlight is and however many rows there are. */
  lemma DigitSelects(n: int, i: int, d: int, tail: seq<Key>)
    requires 0 <= i < n && 1 <= d <= 9
    ensures Menu(n, true, i, [Digit(d)] + tail) == (Some(d - 1), tail)
  {
    assert ([Digit(d)] + tail)[0] == Digit(d) && ([Digit(d)] + tail)[1..] == tail;
  }

  /** The number of DownArrow presses minus the number of UpArrow presses. */
  function Net(moves: seq<Key>): int {
    if moves == [] then 0
    else Net(moves[..|moves| - 1]) + Delta(moves[|moves| - 1])
  }

  function Delta(k: Key): int {
    match k
    case UpArrow => -1
    case DownArrow => 1
    case _ => 0
  }

  /** The row a key that does not end the menu moves the highlight to. */
  function Row(i: int, k: Key, n: int): (j: int)
    requires 0 <= i < n
    ensures 0 <= j < n
    ensures j == i + Delta(k) + (if k == UpArrow && i == 0 then n else if k == DownArrow && i == n - 1 then -n else 0)
  {
    match k
    case UpArrow => MoveUp(i, n)
    case DownArrow => MoveDown(i, n)
    case _ => i
  }

  lemma MenuStep(n: int, shortcuts: bool, i: int, keys: seq<Key>)
    requires 0 <= i < n && keys != [] && !Ends(keys[0], shortcuts)
    ensures Menu(n, shortcuts, i, keys) == Menu(n, shortcuts, Row(i, keys[0], n), keys[1..])
  {
  }

  /** Keys that move the highlight, or are ignored, and do not end the menu. */
  predicate OnlyMoves(moves: seq<Key>, shortcuts: bool) {
    forall j :: 0 <= j < |moves| ==> !Ends(moves[j], shortcuts)
  }

  lemma MulAtLeast(k: int, n: int)
    requires k >= 1 && n > 0
    ensures k * n >= n
  {
    assert k * n == (k - 1) * n + n;
  }

  /** x % n and x / n are the only remainder and quotient. */
  lemma ModUnique(x: int, q: int, r: int, n: int)
    requires n > 0 && 0 <= r < n && x == q * n + r
    ensures x % n == r
  {
    var q0, r0 := x / n, x % n;
    var k := q - q0;
    assert k * n == r0 - r;
    if k > 0 {
      MulAtLeast(k, n);
    } else if k < 0 {
      MulAtLeast(-k, n);
    }
  }

  /** Adding a multiple of n does not change the remainder. */
  lemma ModShift(x: int, c: int, n: int)
    requires n > 0
    ensures (x + c * n) % n == x % n
  {
    var q := x / n;
    assert x + c * n == (q + c) * n + x % n;
    ModUnique(x + c * n, q + c, x % n, n);
  }

  /** After any run of arrow and ignored keys, Enter returns the start row
      moved by (downs - ups), wrapped modulo the number of rows. */
  lemma {:induction false} EnterAfterMoves(n: int, shortcuts: bool, i: int, moves: seq<Key>, tail: seq<Key>)
    requires 0 <= i < n && OnlyMoves(moves, shortcuts)
    ensures Menu(n, shortcuts, i, moves + [Enter] + tail) == (Some((i + Net(moves)) % n), tail)
    decreases |moves|
  {
    if moves == [] {
      assert moves + [Enter] + tail == [Enter] + tail;
      assert ([Enter] + tail)[1..] == tail;
      assert Net(moves) == 0;
      ModUnique(i, 0, i, n);
      assert Menu(n, shortcuts, i, moves + [Enter] + tail) == (Some(i), tail);
    } else {
      var k := moves[0];
      var j := Row(i, k, n);
      var keys := moves + [Enter] + tail;
      var later := moves[1..] + [Enter] + tail;
      ConsConcat(moves, [Enter], tail);
      ConsConcat(moves + [Enter], tail, []);
      assert keys[0] == k && keys[1..] == later;
      assert !Ends(k, shortcuts);
      MenuStep(n, shortcuts, i, keys);
      EnterAfterMoves(n, shortcuts, j, moves[1..], tail);
      var x, y := i + Net(moves), j + Net(moves[1..]);
      assert Menu(n, shortcuts, i, keys) == (Some(y % n), tail);
      NetFront(moves);
      WrapShift(i, k, n, x, y);
    }
  }

  /** A row change by Row moves the highlight by Delta(k) modulo n. */
  lemma WrapShift(i: int, k: Key, n: int, x: int, y: int)
    requires 0 <= i < n && y == x - i - Delta(k) + Row(i, k, n)
    ensures y % n == x % n
  {
    if k == UpArrow && i == 0 {
      assert y == x + 1 * n;
      ModShift(x, 1, n);
    } else if k == DownArrow && i == n - 1 {
      assert y == x + (-1) * n;
      ModShift(x, -1, n);
    }
  }

  /** Net counts from either end. */
  lemma {:induction false} NetFront(moves: seq<Key>)
    requires moves != []
    ensures Net(moves) == Net(moves[1..]) + Delta(moves[0])
    decreases |moves|
  {
    if |moves| > 1 {
      NetFront(moves[..|moves| - 1]);
      assert moves[..|moves| - 1][1..] == moves[1..][..|moves[1..]| - 1];
      assert moves[..|moves| - 1][0] == moves[0];
    } else {
      assert moves[..0] == [];
      assert moves[1..] == [];
    }
  }

  /** With shortcuts off, digits are ignored like any other key. */
  lemma {:induction false} DigitsIgnoredWithoutShortcuts(n: int, i: int, digits: seq<Key>, tail: seq<Key>)
    requires 0 <= i < n
    requires forall j :: 0 <= j < |digits| ==> digits[j].Digit?
    ensures Menu(n, false, i, digits + tail) == Menu(n, false, i, tail)
    decreases |digits|
  {
    if digits != [] {
      assert (digits + tail)[1..] == digits[1..] + tail;
      DigitsIgnoredWithoutShortcuts(n, i, digits[1..], tail);
    } else {
      assert digits + tail == tail;
    }
  }
}
