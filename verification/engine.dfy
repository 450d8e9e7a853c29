/** The calculator's input/state engine: a text buffer being edited, a stack of committed
    numbers (oldest first), two latches that decide what the next keystroke does, and the
    "2nd" flag. Each handler is one atomic transition that reads the state as it was before
    the event; where a handler writes one field twice, the later write is the one that stays.

    Numbers are kept abstract (the type parameter `Num`): JavaScript's `+s`, `v.toString()`
    and `Number.isNaN` are uninterpreted functions supplied in a `Numbers` value, and the
    operators are opaque function arguments. */
module Engine {
  import opened Text
  import Numerals

  /** JavaScript's number behaviour as the engine uses it: `+s`, `v.toString()` and `Number.isNaN(v)`. */
  datatype Numbers<!Num> = Numbers(parse: string -> Num, show: Num -> string, isNaN: Num -> bool)

  /** `toString` yields buffer text the engine can keep editing (true of JavaScript numbers). */
  ghost predicate ShowsWellFormed<Num(!new)>(nums: Numbers<Num>) {
    forall v :: WellFormed(nums.show(v))
  }

  /** The buffer invariant the engine keeps: never empty, at most one decimal point, and no
      leading zero directly in front of another digit. */
  predicate WellFormed(b: string) {
    && |b| > 0
    && AtMostOnePoint(b)
    && !(|b| >= 2 && b[0] == '0' && IsDigit(b[1]))
  }

  predicate AtMostOnePoint(b: string) {
    multiset(b)['.'] <= 1
  }

  /** The first replace of `normalizeBuffer`, `/^0+(?=\d)/`: the longest run of leading zeros
      that is followed by a digit is removed. */
  function StripLeadingZeros(b: string): string
    decreases |b|
  {
    if |b| >= 2 && b[0] == '0' && IsDigit(b[1]) then StripLeadingZeros(b[1..]) else b
  }

  /** What the regular expression promises, which pins the result down: a suffix of `b`, only
      zeros removed, a digit right after what was removed (the lookahead), and no longer match
      possible on what remains. */
  lemma {:induction false} StripSpec(b: string)
    ensures var r := StripLeadingZeros(b);
      && |r| <= |b| && r == b[|b| - |r|..]
      && (forall i :: 0 <= i < |b| - |r| ==> b[i] == '0')
      && (|r| < |b| ==> |r| > 0 && IsDigit(r[0]))
      && !(|r| >= 2 && r[0] == '0' && IsDigit(r[1]))
    decreases |b|
  {
    if |b| >= 2 && b[0] == '0' && IsDigit(b[1]) {
      StripSpec(b[1..]);
    }
  }

  /** `normalizeBuffer`: strip leading zeros in front of a digit, then rewrite a lone `.` to `0.`. */
  function NormalizeBuffer(b: string): string {
    var r := StripLeadingZeros(b);
    if r == "." then "0." else r
  }

  /** A lone point becomes `0.`; anything else loses only leading zeros, with a digit right
      after them, and never starts with a zero in front of a digit. The result is empty only
      for an empty buffer, and has a point exactly when the buffer had one. */
  lemma NormalizeSpec(b: string)
    ensures var r := NormalizeBuffer(b);
      && (b == "." ==> r == "0.")
      && (b != "." ==> |r| <= |b| && r == b[|b| - |r|..] && forall i :: 0 <= i < |b| - |r| ==> b[i] == '0')
      && (|b| > 0 ==> |r| > 0)
      && (b != "." && |r| < |b| ==> IsDigit(r[0]))
      && !(|r| >= 2 && r[0] == '0' && IsDigit(r[1]))
      && ('.' in r) == ('.' in b)
  {
    StripSpec(b);
    var r := StripLeadingZeros(b);
    assert b == b[..|b| - |r|] + r;
    assert '.' !in b[..|b| - |r|];
    if b == "." {
      assert NormalizeBuffer(b)[1] == '.';
    }
  }

  /** The input characters `typeKey` is called with: a digit (`typeDigit`) or `.` (`typePeriod`). */
  predicate IsKey(k: char) {
    IsDigit(k) || k == '.'
  }

  datatype State<Num> = State(
    buffer: string,
    stack: seq<Num>,
    nextTypeWillClearBuffer: bool,
    nextTypeWillPushBuffer: bool,
    altEnabled: bool)
  {
    /** The state a fresh calculator starts in. */
    static function Initial(): State<Num> {
      State("0", [], false, false, false)
    }

    /** `willClearAll`: the clear key acts as "C" (clear everything) rather than "CE". */
    predicate WillClearAll() {
      !nextTypeWillClearBuffer && buffer == "0"
    }

    /** `pushStack` (its deferred scroll of the stack view is not modelled). */
    function PushStack(v: Num): State<Num> {
      this.(nextTypeWillClearBuffer := true, stack := stack + [v])
    }

    /** `pushBuffer` (Enter): commit the buffer's value onto the stack. */
    function PushBuffer(nums: Numbers<Num>): (r: State<Num>)
      ensures |r.stack| == |stack| + 1 && r.stack[..|stack|] == stack
      ensures r.stack[|stack|] == nums.parse(buffer)
      ensures r.buffer == buffer && r.altEnabled == altEnabled
      ensures r.nextTypeWillClearBuffer && !r.nextTypeWillPushBuffer
    {
      PushStack(nums.parse(buffer)).(nextTypeWillPushBuffer := false)
    }

    /** `popStack`: `stack.slice(0, -1)`, nothing else. */
    function PopStack(): (r: State<Num>)
      ensures |stack| > 0 ==> r.stack + [stack[|stack| - 1]] == stack
      ensures |stack| == 0 ==> r.stack == []
      ensures r.(stack := stack) == this
    {
      this.(stack := if |stack| == 0 then [] else stack[..|stack| - 1])
    }

    /** `typeKey`: digit or point entry. */
    function TypeKey(k: char, nums: Numbers<Num>): (r: State<Num>)
      ensures !r.nextTypeWillClearBuffer && !r.nextTypeWillPushBuffer && !r.altEnabled
      ensures nextTypeWillPushBuffer ==> r.stack == stack + [nums.parse(buffer)]
      ensures !nextTypeWillPushBuffer ==> r.stack == stack
      ensures nextTypeWillPushBuffer || nextTypeWillClearBuffer ==> r.buffer == NormalizeBuffer([k])
      ensures !nextTypeWillPushBuffer && !nextTypeWillClearBuffer && !(k == '.' && '.' in buffer) ==>
                r.buffer == NormalizeBuffer(buffer + [k])
      ensures !nextTypeWillPushBuffer && !nextTypeWillClearBuffer && k == '.' && '.' in buffer ==> r.buffer == buffer
      ensures IsKey(k) && WellFormed(buffer) ==> WellFormed(r.buffer)
    {
      var s :=
        if nextTypeWillPushBuffer then PushBuffer(nums).(buffer := NormalizeBuffer([k]))
        else if nextTypeWillClearBuffer then this.(buffer := NormalizeBuffer([k]))
        else if k != '.' || '.' !in buffer then this.(buffer := NormalizeBuffer(buffer + [k]))
        else this;
      assert IsKey(k) && WellFormed(buffer) ==> WellFormed(s.buffer) by {
        if IsKey(k) && WellFormed(buffer) {
          if nextTypeWillPushBuffer || nextTypeWillClearBuffer {
            FreshKeyWellFormed(k);
          } else if k != '.' || '.' !in buffer {
            AppendedKeyWellFormed(buffer, k);
          }
        }
      }
      s.(nextTypeWillClearBuffer := false, nextTypeWillPushBuffer := false, altEnabled := false)
    }

    /** `backspace`. */
    function Backspace(): (r: State<Num>)
      ensures |buffer| == 1 ==> r.buffer == "0"
      ensures |buffer| != 1 && |buffer| > 0 ==> r.buffer + [buffer[|buffer| - 1]] == buffer
      ensures |buffer| == 0 ==> r.buffer == ""
      ensures r.stack == stack && r.altEnabled == altEnabled
      ensures !r.nextTypeWillClearBuffer && !r.nextTypeWillPushBuffer
      ensures WellFormed(buffer) ==> WellFormed(r.buffer)
    {
      var b := if |buffer| == 1 then "0" else if |buffer| == 0 then "" else buffer[..|buffer| - 1];
      assert WellFormed(buffer) && |buffer| >= 2 ==> WellFormed(b) by {
        if WellFormed(buffer) && |buffer| >= 2 {
          assert buffer == b + [buffer[|buffer| - 1]];
          assert multiset(buffer) == multiset(b) + multiset{buffer[|buffer| - 1]};
        }
      }
      this.(buffer := b, nextTypeWillClearBuffer := false, nextTypeWillPushBuffer := false)
    }

    /** `clearBuffer` (CE). */
    function ClearBuffer(): (r: State<Num>)
      ensures r.buffer == "0" && WellFormed(r.buffer)
      ensures r.stack == stack && r.altEnabled == altEnabled
      ensures !r.nextTypeWillClearBuffer && !r.nextTypeWillPushBuffer
    {
      this.(buffer := "0", nextTypeWillPushBuffer := false, nextTypeWillClearBuffer := false)
    }

    /** `clearAll` (C): back to the initial state. */
    function ClearAll(): (r: State<Num>)
      ensures r == Initial()
    {
      ClearBuffer().(stack := [], altEnabled := false)
    }

    /** `clearOrClearAll`: C when there is nothing left to clear in the buffer, else CE. */
    function ClearOrClearAll(): (r: State<Num>)
      ensures WillClearAll() ==> r == Initial()
      ensures !WillClearAll() ==> r.stack == stack && r.altEnabled == altEnabled
      ensures r.buffer == "0" && !r.nextTypeWillClearBuffer && !r.nextTypeWillPushBuffer
    {
      if WillClearAll() then ClearAll() else ClearBuffer()
    }

    /** `toggle2nd`. */
    function Toggle2nd(): (r: State<Num>)
      ensures r.altEnabled != altEnabled && r.(altEnabled := altEnabled) == this
    {
      this.(altEnabled := !altEnabled)
    }

    /** `unaryOp(fn)`: replace the buffer by `fn` of its value; the next keystroke pushes it. */
    function UnaryOp(fn: Num -> Num, nums: Numbers<Num>): (r: State<Num>)
      ensures r.stack == stack && r.nextTypeWillClearBuffer == nextTypeWillClearBuffer
      ensures r.buffer == nums.show(fn(nums.parse(buffer)))
      ensures r.nextTypeWillPushBuffer && !r.altEnabled
    {
      this.(buffer := nums.show(fn(nums.parse(buffer))), nextTypeWillPushBuffer := true, altEnabled := false)
    }

    /** `binaryOp(fn)`: the stack's last value is the left operand, the buffer the right one;
        nothing happens on an empty stack. */
    function BinaryOp(fn: (Num, Num) -> Num, nums: Numbers<Num>): (r: State<Num>)
      ensures |stack| == 0 ==> r == this
      ensures |stack| > 0 ==> r.stack + [stack[|stack| - 1]] == stack
      ensures |stack| > 0 ==> r.buffer == nums.show(fn(stack[|stack| - 1], nums.parse(buffer)))
      ensures |stack| > 0 ==> r.nextTypeWillPushBuffer && !r.altEnabled
      ensures r.nextTypeWillClearBuffer == nextTypeWillClearBuffer
    {
      if |stack| == 0 then this
      else
        var a := stack[|stack| - 1];
        var b := nums.parse(buffer);
        this.(stack := stack[..|stack| - 1], buffer := nums.show(fn(a, b)),
              nextTypeWillPushBuffer := true, altEnabled := false)
    }

    /** `makeConst(v)` (pi, e): commit the buffer unless the clear latch says it is stale, then
        show `v`; the next keystroke pushes it. */
    function MakeConst(v: Num, nums: Numbers<Num>): (r: State<Num>)
      ensures !nextTypeWillClearBuffer ==> r.stack == stack + [nums.parse(buffer)]
      ensures nextTypeWillClearBuffer ==> r.stack == stack
      ensures r.buffer == nums.show(v) && r.altEnabled == altEnabled
      ensures !r.nextTypeWillClearBuffer && r.nextTypeWillPushBuffer
    {
      var s := if !nextTypeWillClearBuffer then PushBuffer(nums) else this;
      s.(buffer := nums.show(v), nextTypeWillClearBuffer := false, nextTypeWillPushBuffer := true)
    }

    /** The text-to-state part of `pasteFromClipboard`. */
    function Paste(text: string, nums: Numbers<Num>): (r: State<Num>)
      ensures |PastedValues(text, nums)| == 0 ==> r == this
      ensures var vs := PastedValues(text, nums);
        |vs| > 0 ==>
          && r.stack == stack + [nums.parse(buffer)] + vs[..|vs| - 1]
          && r.buffer == nums.show(vs[|vs| - 1])
          && !r.nextTypeWillClearBuffer && r.nextTypeWillPushBuffer
          && r.altEnabled == altEnabled
    {
      var vs := PastedValues(text, nums);
      if |vs| == 0 then this
      else this.(stack := stack + [nums.parse(buffer)] + vs[..|vs| - 1], buffer := nums.show(vs[|vs| - 1]),
                 nextTypeWillClearBuffer := false, nextTypeWillPushBuffer := true)
    }

    /** A run of keystrokes, first to last. */
    function TypeKeys(ks: string, nums: Numbers<Num>): State<Num>
      decreases |ks|
    {
      if |ks| == 0 then this else TypeKeys(ks[..|ks| - 1], nums).TypeKey(ks[|ks| - 1], nums)
    }

    /** A run of constant insertions, first to last. */
    function MakeConsts(vs: seq<Num>, nums: Numbers<Num>): State<Num>
      decreases |vs|
    {
      if |vs| == 0 then this else MakeConsts(vs[..|vs| - 1], nums).MakeConst(vs[|vs| - 1], nums)
    }
  }

  lemma FreshKeyWellFormed(k: char)
    requires IsKey(k)
    ensures WellFormed(NormalizeBuffer([k]))
  {
    if k == '.' {
      assert [k] == ".";
    } else {
      assert StripLeadingZeros([k]) == [k];
    }
  }

  lemma AppendedKeyWellFormed(b: string, k: char)
    requires WellFormed(b) && !(k == '.' && '.' in b)
    ensures WellFormed(NormalizeBuffer(b + [k]))
  {
    AppendKeepsOnePoint(b, k);
    NormalizeKeepsOnePoint(b + [k]);
    NormalizeSpec(b + [k]);
  }

  lemma AppendKeepsOnePoint(b: string, k: char)
    requires AtMostOnePoint(b) && !(k == '.' && '.' in b)
    ensures AtMostOnePoint(b + [k])
  {
    assert multiset(b + [k]) == multiset(b) + multiset{k};
    if k == '.' {
      assert '.' !in multiset(b);
    }
  }

  lemma NormalizeKeepsOnePoint(x: string)
    requires AtMostOnePoint(x)
    ensures AtMostOnePoint(NormalizeBuffer(x))
  {
    var r := NormalizeBuffer(x);
    NormalizeSpec(x);
    if x != "." {
      var d := |x| - |r|;
      assert x == x[..d] + r;
      assert multiset(x) == multiset(x[..d]) + multiset(r);
    } else {
      assert r == "0.";
      assert multiset(r) == multiset{'0', '.'};
    }
  }

  /** The values a pasted text contributes: each line with its commas removed and coerced with
      `+`, keeping those that are not NaN, in line order. */
  function ParseLines<Num>(lines: seq<string>, nums: Numbers<Num>): (vs: seq<Num>)
    ensures |vs| <= |lines|
    ensures forall i :: 0 <= i < |vs| ==> !nums.isNaN(vs[i])
  {
    if |lines| == 0 then []
    else
      var v := nums.parse(RemoveAll(lines[0], ','));
      (if nums.isNaN(v) then [] else [v]) + ParseLines(lines[1..], nums)
  }

  function PastedValues<Num>(text: string, nums: Numbers<Num>): seq<Num> {
    ParseLines(Split(text, '\n'), nums)
  }

  /** The `Calculator` component: its state fields, and its handlers as methods that update
      them in place. Each handler is proved to perform exactly the transition of the
      corresponding `State` function (`PasteFromClipboard` that of `State.Paste`, `TypeDigit`
      and `TypePeriod` that of `State.TypeKey`), and to keep the buffer well formed. */
  class Calculator<Num(!new)> {
    const nums: Numbers<Num>
    var buffer: string
    var stack: seq<Num>
    var nextTypeWillClearBuffer: bool
    var nextTypeWillPushBuffer: bool
    var altEnabled: bool

    function Snapshot(): State<Num>
      reads this
    {
      State(buffer, stack, nextTypeWillClearBuffer, nextTypeWillPushBuffer, altEnabled)
    }

    ghost predicate Valid()
      reads this
    {
      WellFormed(buffer) && ShowsWellFormed(nums)
    }

    constructor (nums: Numbers<Num>)
      requires ShowsWellFormed(nums)
      ensures Valid() && this.nums == nums
      ensures Snapshot() == State<Num>.Initial()
    {
      this.nums := nums;
      buffer := "0";
      stack := [];
      nextTypeWillClearBuffer := false;
      nextTypeWillPushBuffer := false;
      altEnabled := false;
    }

    method PushStack(v: Num)
      requires Valid()
      modifies this
      ensures Valid()
      ensures Snapshot() == old(Snapshot()).PushStack(v)
    {
      nextTypeWillClearBuffer := true;
      stack := stack + [v];
    }

    method PushBuffer()
      requires Valid()
      modifies this
      ensures Valid()
      ensures Snapshot() == old(Snapshot()).PushBuffer(nums)
    {
      PushStack(nums.parse(buffer));
      nextTypeWillPushBuffer := false;
    }

    method PopStack()
      requires Valid()
      modifies this
      ensures Valid()
      ensures Snapshot() == old(Snapshot()).PopStack()
    {
      stack := if |stack| == 0 then [] else stack[..|stack| - 1];
    }

    method TypeKey(k: char)
      requires Valid() && IsKey(k)
      modifies this
      ensures Valid()
      ensures Snapshot() == old(Snapshot()).TypeKey(k, nums)
    {
      ghost var after := Snapshot().TypeKey(k, nums);
      if nextTypeWillPushBuffer {
        PushBuffer();
        buffer := NormalizeBuffer([k]);
      } else if nextTypeWillClearBuffer {
        buffer := NormalizeBuffer([k]);
      } else if k != '.' || '.' !in buffer {
        buffer := NormalizeBuffer(buffer + [k]);
      }
      assert buffer == after.buffer && stack == after.stack;
      nextTypeWillClearBuffer := false;
      nextTypeWillPushBuffer := false;
      altEnabled := false;
    }

    /** `typeDigit(d)`: `typeKey(d.toString())`. */
    method TypeDigit(d: nat)
      requires Valid() && d < 10
      modifies this
      ensures Valid()
      ensures Snapshot() == old(Snapshot()).TypeKey(Numerals.DigitChar(d), nums)
    {
      TypeKey(Numerals.DigitChar(d));
    }

    /** `typePeriod`: `typeKey('.')`. */
    method TypePeriod()
      requires Valid()
      modifies this
      ensures Valid()
      ensures Snapshot() == old(Snapshot()).TypeKey('.', nums)
    {
      TypeKey('.');
    }

    method Backspace()
      requires Valid()
      modifies this
      ensures Valid()
      ensures Snapshot() == old(Snapshot()).Backspace()
    {
      ghost var before := Snapshot();
      if |buffer| == 1 {
        buffer := "0";
      } else {
        buffer := if |buffer| == 0 then "" else buffer[..|buffer| - 1];
      }
      nextTypeWillClearBuffer := false;
      nextTypeWillPushBuffer := false;
      assert Snapshot() == before.Backspace();
      assert WellFormed(buffer) by {
        assert buffer == before.Backspace().buffer;
      }
    }

    method ClearBuffer()
      requires Valid()
      modifies this
      ensures Valid()
      ensures Snapshot() == old(Snapshot()).ClearBuffer()
    {
      buffer := "0";
      nextTypeWillPushBuffer := false;
      nextTypeWillClearBuffer := false;
    }

    method ClearAll()
      requires Valid()
      modifies this
      ensures Valid()
      ensures Snapshot() == old(Snapshot()).ClearAll()
    {
      ClearBuffer();
      stack := [];
      altEnabled := false;
    }

    method ClearOrClearAll()
      requires Valid()
      modifies this
      ensures Valid()
      ensures Snapshot() == old(Snapshot()).ClearOrClearAll()
    {
      var willClearAll := !nextTypeWillClearBuffer && buffer == "0";
      if willClearAll {
        ClearAll();
      } else {
        ClearBuffer();
      }
    }

    method Toggle2nd()
      requires Valid()
      modifies this
      ensures Valid()
      ensures Snapshot() == old(Snapshot()).Toggle2nd()
    {
      altEnabled := !altEnabled;
    }

    method UnaryOp(fn: Num -> Num)
      requires Valid()
      modifies this
      ensures Valid()
      ensures Snapshot() == old(Snapshot()).UnaryOp(fn, nums)
    {
      buffer := nums.show(fn(nums.parse(buffer)));
      nextTypeWillPushBuffer := true;
      altEnabled := false;
    }

    method BinaryOp(fn: (Num, Num) -> Num)
      requires Valid()
      modifies this
      ensures Valid()
      ensures Snapshot() == old(Snapshot()).BinaryOp(fn, nums)
    {
      if |stack| == 0 {
        return;
      }
      var a := stack[|stack| - 1];
      stack := stack[..|stack| - 1];
      var b := nums.parse(buffer);
      buffer := nums.show(fn(a, b));
      nextTypeWillPushBuffer := true;
      altEnabled := false;
    }

    method MakeConst(v: Num)
      requires Valid()
      modifies this
      ensures Valid()
      ensures Snapshot() == old(Snapshot()).MakeConst(v, nums)
    {
      if !nextTypeWillClearBuffer {
        PushBuffer();
      }
      buffer := nums.show(v);
      nextTypeWillClearBuffer := false;
      nextTypeWillPushBuffer := true;
    }

    /** `pasteFromClipboard`, once the clipboard text has been read. */
    method PasteFromClipboard(text: string)
      requires Valid()
      modifies this
      ensures Valid()
      ensures Snapshot() == old(Snapshot()).Paste(text, nums)
    {
      var nums' := PastedValues(text, nums);
      if |nums'| == 0 {
        return;
      }
      stack := stack + [nums.parse(buffer)] + nums'[..|nums'| - 1];
      buffer := nums.show(nums'[|nums'| - 1]);
      nextTypeWillClearBuffer := false;
      nextTypeWillPushBuffer := true;
    }
  }
}
