/** Properties of the engine that relate several handlers or several keystrokes. */
module EngineProperties {
  import opened Text
  import opened Engine

  /** The keystrokes with every `.` after the first one dropped: what `typeKey` lets through. */
  function KeepFirstPoint(ks: string): string {
    if |ks| == 0 then ""
    else if ks[0] == '.' then "." + RemoveAll(ks[1..], '.')
    else [ks[0]] + KeepFirstPoint(ks[1..])
  }

  /** What is kept has a point exactly when a point was typed, and at most one. */
  lemma {:induction false} KeepFirstPointPoints(ks: string)
    ensures ('.' in KeepFirstPoint(ks)) == ('.' in ks)
    ensures AtMostOnePoint(KeepFirstPoint(ks))
    decreases |ks|
  {
    if |ks| > 0 {
      var r := KeepFirstPoint(ks);
      assert ks == [ks[0]] + ks[1..];
      if ks[0] == '.' {
        var t := RemoveAll(ks[1..], '.');
        RemoveAllSpec(ks[1..], '.');
        assert r == ['.'] + t;
        assert multiset(r) == multiset{'.'} + multiset(t);
        assert '.' !in multiset(t);
      } else {
        KeepFirstPointPoints(ks[1..]);
        var t := KeepFirstPoint(ks[1..]);
        assert r == [ks[0]] + t;
        assert multiset(r) == multiset{ks[0]} + multiset(t);
      }
    }
  }

  /** One more keystroke: kept unless it is a second point. */
  lemma {:induction false} KeepFirstPointSnoc(ks: string, k: char)
    ensures KeepFirstPoint(ks + [k]) == KeepFirstPoint(ks) + (if k == '.' && '.' in ks then "" else [k])
    decreases |ks|
  {
    var x := ks + [k];
    if |ks| == 0 {
      assert x == [k];
      if k == '.' {
        assert x[1..] == "";
      } else {
        assert x[1..] == "";
      }
    } else {
      assert x[0] == ks[0] && x[1..] == ks[1..] + [k];
      if ks[0] == '.' {
        RemoveAllAppend(ks[1..], [k], '.');
        assert RemoveAll([k], '.') == (if k == '.' then "" else [k]);
      } else {
        KeepFirstPointSnoc(ks[1..], k);
        assert ('.' in ks) == ('.' in ks[1..]) by {
          assert ks == [ks[0]] + ks[1..];
        }
      }
    }
  }

  /** The regular expression's removal of leading zeros is unaffected by removing them early. */
  lemma {:induction false} StripAppend(a: string, k: char)
    ensures StripLeadingZeros(StripLeadingZeros(a) + [k]) == StripLeadingZeros(a + [k])
    decreases |a|
  {
    if |a| >= 2 && a[0] == '0' && IsDigit(a[1]) {
      assert (a + [k])[1..] == a[1..] + [k];
      StripAppend(a[1..], k);
    }
  }

  /** Appending a keystroke to a normalized buffer and normalizing again is the same as
      normalizing the whole keystroke text once. */
  lemma NormalizeAppend(a: string, k: char)
    requires a != "."
    ensures NormalizeBuffer(NormalizeBuffer(a) + [k]) == NormalizeBuffer(a + [k])
  {
    StripSpec(a);
    StripAppend(a, k);
  }

  /** Typing into a buffer that starts fresh is typing after an implicit `0`. */
  lemma FirstKey(k: char)
    requires IsKey(k)
    ensures NormalizeBuffer([k]) == NormalizeBuffer("0" + [k])
  {
    var z := "0" + [k];
    assert z[0] == '0' && z[1] == k && |z| == 2;
    if k == '.' {
      assert StripLeadingZeros(z) == z;
      assert [k] == ".";
    } else {
      assert z[1..] == [k];
      assert StripLeadingZeros([k]) == [k];
      assert StripLeadingZeros(z) == [k];
    }
  }

  /** A buffer built from keystrokes has a point exactly when a point was typed. */
  lemma LiteralPoint(p: string)
    ensures ('.' in NormalizeBuffer("0" + KeepFirstPoint(p))) == ('.' in p)
  {
    var x := KeepFirstPoint(p);
    KeepFirstPointPoints(p);
    NormalizeSpec("0" + x);
    assert "0" + x == ['0'] + x;
  }

  /** A keystroke that is not a second point appends to the typed text. */
  lemma TypeKeyAppends<Num>(t: State<Num>, a: string, k: char, nums: Numbers<Num>)
    requires !t.nextTypeWillClearBuffer && !t.nextTypeWillPushBuffer
    requires t.buffer == NormalizeBuffer(a) && a != "."
    requires !(k == '.' && '.' in t.buffer)
    ensures t.TypeKey(k, nums).buffer == NormalizeBuffer(a + [k])
  {
    NormalizeAppend(a, k);
  }

  /** One keystroke on a buffer that holds the normalized text of earlier keys. */
  lemma TypeKeyOnLiteral<Num>(t: State<Num>, p: string, k: char, nums: Numbers<Num>)
    requires !t.nextTypeWillClearBuffer && !t.nextTypeWillPushBuffer
    requires t.buffer == NormalizeBuffer("0" + KeepFirstPoint(p))
    ensures t.TypeKey(k, nums).buffer == NormalizeBuffer("0" + KeepFirstPoint(p + [k]))
    ensures t.TypeKey(k, nums).stack == t.stack
  {
    KeepFirstPointSnoc(p, k);
    LiteralPoint(p);
    var x := KeepFirstPoint(p);
    var a := "0" + x;
    if !(k == '.' && '.' in p) {
      assert a != "." by { assert a[0] == '0'; }
      TypeKeyAppends(t, a, k, nums);
      assert a + [k] == "0" + (x + [k]);
    } else {
      assert KeepFirstPoint(p + [k]) == x + "";
      assert x + "" == x;
    }
  }

  /** A run of digit and point keys that starts a fresh buffer (after Enter, an operator, a
      constant, a clear, or on a buffer of `0`) leaves in the buffer the normalized text of
      the keys after a `0`, with every point after the first one ignored; the old buffer is
      pushed first exactly when the push latch was set. */
  lemma {:induction false} TypingBuildsLiteral<Num>(s: State<Num>, ks: string, nums: Numbers<Num>)
    requires |ks| > 0 && forall i :: 0 <= i < |ks| ==> IsKey(ks[i])
    requires s.nextTypeWillPushBuffer || s.nextTypeWillClearBuffer || s.buffer == "0"
    ensures s.TypeKeys(ks, nums).buffer == NormalizeBuffer("0" + KeepFirstPoint(ks))
    ensures s.TypeKeys(ks, nums).stack ==
              if s.nextTypeWillPushBuffer then s.stack + [nums.parse(s.buffer)] else s.stack
    ensures var r := s.TypeKeys(ks, nums);
              !r.nextTypeWillClearBuffer && !r.nextTypeWillPushBuffer && !r.altEnabled
    decreases |ks|
  {
    var p := ks[..|ks| - 1];
    var k := ks[|ks| - 1];
    assert ks == p + [k];
    var t := s.TypeKeys(p, nums);
    assert s.TypeKeys(ks, nums) == t.TypeKey(k, nums);
    if |ks| == 1 {
      assert t == s;
      FirstKey(k);
      assert KeepFirstPoint(ks) == [k] by {
        assert ks == [k];
        if k == '.' {
          assert ks[1..] == "";
        } else {
          assert ks[1..] == "";
        }
      }
    } else {
      TypingBuildsLiteral(s, p, nums);
      TypeKeyOnLiteral(t, p, k, nums);
    }
  }

  /** Enter, a run of keys, then a binary operator: the operator is applied to the entered
      value and the typed one, and the stack is as it was before Enter. */
  lemma EnterTypeApply<Num>(s: State<Num>, ks: string, fn: (Num, Num) -> Num, nums: Numbers<Num>)
    requires |ks| > 0 && forall i :: 0 <= i < |ks| ==> IsKey(ks[i])
    ensures var r := s.PushBuffer(nums).TypeKeys(ks, nums).BinaryOp(fn, nums);
      && r.stack == s.stack
      && r.buffer == nums.show(fn(nums.parse(s.buffer), nums.parse(NormalizeBuffer("0" + KeepFirstPoint(ks)))))
      && r.nextTypeWillPushBuffer && !r.nextTypeWillClearBuffer && !r.altEnabled
  {
    var e := s.PushBuffer(nums);
    assert e.stack == s.stack + [nums.parse(s.buffer)];
    TypingBuildsLiteral(e, ks, nums);
    var t := e.TypeKeys(ks, nums);
    var r := t.BinaryOp(fn, nums);
    assert r.stack + [nums.parse(s.buffer)] == s.stack + [nums.parse(s.buffer)];
  }

  /** Backspace takes back a keystroke that was appended to a well-formed buffer. */
  lemma BackspaceUndoesTyping<Num>(s: State<Num>, k: char, nums: Numbers<Num>)
    requires WellFormed(s.buffer) && IsKey(k)
    requires !s.nextTypeWillPushBuffer && !s.nextTypeWillClearBuffer
    requires !(k == '.' && '.' in s.buffer)
    ensures s.TypeKey(k, nums).Backspace().buffer == s.buffer
    ensures s.TypeKey(k, nums).Backspace().stack == s.stack
  {
    TypedBuffer(s.buffer, k);
    var x := s.buffer + [k];
    assert x[..|x| - 1] == s.buffer;
  }

  /** Appending a key to a well-formed buffer keeps the buffer, except that a lone zero gives
      way to a digit. */
  lemma TypedBuffer(b: string, k: char)
    requires WellFormed(b) && IsKey(k)
    ensures b == "0" && IsDigit(k) ==> NormalizeBuffer(b + [k]) == [k]
    ensures !(b == "0" && IsDigit(k)) ==> NormalizeBuffer(b + [k]) == b + [k]
  {
    var x := b + [k];
    if b == "0" && IsDigit(k) {
      assert x[1..] == [k];
      assert StripLeadingZeros(x) == [k];
    } else {
      assert x[0] == b[0];
      assert |b| >= 2 ==> x[1] == b[1];
      assert StripLeadingZeros(x) == x;
    }
  }

  /** Pressing the clear key twice always clears everything. */
  lemma ClearTwiceClearsAll<Num>(s: State<Num>)
    ensures s.ClearOrClearAll().ClearOrClearAll() == s.ClearAll()
    ensures s.ClearOrClearAll().WillClearAll()
  {
  }

  /** Popping right after Enter restores the stack. */
  lemma PopUndoesPush<Num>(s: State<Num>, nums: Numbers<Num>)
    ensures s.PushBuffer(nums).PopStack().stack == s.stack
  {
    assert s.PushBuffer(nums).stack == s.stack + [nums.parse(s.buffer)];
  }

  /** After a unary operator, the next keystroke commits the result and starts a new buffer. */
  lemma UnaryResultPushedOnTyping<Num>(s: State<Num>, fn: Num -> Num, k: char, nums: Numbers<Num>)
    ensures s.UnaryOp(fn, nums).TypeKey(k, nums).stack == s.stack + [nums.parse(nums.show(fn(nums.parse(s.buffer))))]
    ensures s.UnaryOp(fn, nums).TypeKey(k, nums).buffer == NormalizeBuffer([k])
  {
  }

  lemma {:induction false} ParseLinesAppend<Num>(l1: seq<string>, l2: seq<string>, nums: Numbers<Num>)
    ensures ParseLines(l1 + l2, nums) == ParseLines(l1, nums) + ParseLines(l2, nums)
    decreases |l1|
  {
    if |l1| > 0 {
      assert (l1 + l2)[1..] == l1[1..] + l2;
      ParseLinesAppend(l1[1..], l2, nums);
    } else {
      assert l1 + l2 == l2;
    }
  }

  /** The values of a pasted text are those of its lines, line by line. */
  lemma PastedValuesAppend<Num>(a: string, b: string, nums: Numbers<Num>)
    ensures PastedValues(a + "\n" + b, nums) == PastedValues(a, nums) + PastedValues(b, nums)
  {
    SplitAround(a, '\n', b);
    ParseLinesAppend(Split(a, '\n'), Split(b, '\n'), nums);
  }

  /** A text without a line break is one line. */
  lemma PastedLine<Num>(line: string, nums: Numbers<Num>)
    requires '\n' !in line
    ensures var v := nums.parse(RemoveAll(line, ','));
      PastedValues(line, nums) == if nums.isNaN(v) then [] else [v]
  {
    SplitPieces(line, '\n');
    var ls := Split(line, '\n');
    assert |ls| == 1;
    assert ls == [line];
    assert ls[1..] == [];
  }

  /** A first line that reads as a number contributes that number ahead of the rest. */
  lemma PastedFirstLine<Num>(a: string, rest: string, nums: Numbers<Num>)
    requires '\n' !in a && !nums.isNaN(nums.parse(RemoveAll(a, ',')))
    ensures PastedValues(a + "\n" + rest, nums) == [nums.parse(RemoveAll(a, ','))] + PastedValues(rest, nums)
  {
    PastedValuesAppend(a, rest, nums);
    PastedLine(a, nums);
  }

  /** Three lines that read as numbers contribute their three numbers, in order. */
  lemma PastedThreeLines<Num>(a: string, b: string, c: string, nums: Numbers<Num>)
    requires '\n' !in a && '\n' !in b && '\n' !in c
    requires !nums.isNaN(nums.parse(RemoveAll(a, ','))) && !nums.isNaN(nums.parse(RemoveAll(b, ',')))
    requires !nums.isNaN(nums.parse(RemoveAll(c, ',')))
    ensures PastedValues(a + "\n" + b + "\n" + c, nums) ==
              [nums.parse(RemoveAll(a, ',')), nums.parse(RemoveAll(b, ',')), nums.parse(RemoveAll(c, ','))]
  {
    assert a + "\n" + b + "\n" + c == a + "\n" + (b + "\n" + c);
    PastedFirstLine(a, b + "\n" + c, nums);
    PastedFirstLine(b, c, nums);
    PastedLine(c, nums);
  }

  /** Pasting three lines into a buffer: the buffer and the values of the first two lines go
      onto the stack, in order, and the value of the last line becomes the buffer. */
  lemma PasteThreeLines<Num>(s: State<Num>, a: string, b: string, c: string, nums: Numbers<Num>)
    requires '\n' !in a && '\n' !in b && '\n' !in c
    requires !nums.isNaN(nums.parse(RemoveAll(a, ','))) && !nums.isNaN(nums.parse(RemoveAll(b, ',')))
    requires !nums.isNaN(nums.parse(RemoveAll(c, ',')))
    ensures var r := s.Paste(a + "\n" + b + "\n" + c, nums);
      && r.stack == s.stack + [nums.parse(s.buffer), nums.parse(RemoveAll(a, ',')), nums.parse(RemoveAll(b, ','))]
      && r.buffer == nums.show(nums.parse(RemoveAll(c, ',')))
  {
    PastedThreeLines(a, b, c, nums);
  }

  /** Inserting constants one after another, when the first one commits the buffer: the
      buffer and every constant but the last end up on the stack, provided reading back a
      shown number gives the number. */
  lemma {:induction false} MakeConstsStack<Num>(t: State<Num>, vs: seq<Num>, nums: Numbers<Num>)
    requires |vs| > 0 && !t.nextTypeWillClearBuffer
    requires forall i :: 0 <= i < |vs| ==> nums.parse(nums.show(vs[i])) == vs[i]
    ensures t.MakeConsts(vs, nums) ==
              t.(stack := t.stack + [nums.parse(t.buffer)] + vs[..|vs| - 1], buffer := nums.show(vs[|vs| - 1]),
                 nextTypeWillClearBuffer := false, nextTypeWillPushBuffer := true)
    decreases |vs|
  {
    var p := vs[..|vs| - 1];
    if |vs| == 1 {
      assert t.MakeConsts(p, nums) == t;
    } else {
      MakeConstsStack(t, p, nums);
      assert p[..|p| - 1] + [p[|p| - 1]] == p;
    }
  }

  /** A multi-line paste behaves as inserting the pasted values one by one as constants after
      committing the buffer, given that each pasted value reads back as itself once shown (not
      so for JavaScript's `-0`, which is shown as `0`). */
  lemma PasteAsConstants<Num>(s: State<Num>, text: string, nums: Numbers<Num>)
    requires var vs := PastedValues(text, nums); forall i :: 0 <= i < |vs| ==> nums.parse(nums.show(vs[i])) == vs[i]
    requires |PastedValues(text, nums)| > 0
    ensures s.Paste(text, nums) == s.(nextTypeWillClearBuffer := false).MakeConsts(PastedValues(text, nums), nums)
  {
    var vs := PastedValues(text, nums);
    assert vs == ParseLines(Split(text, '\n'), nums);
    MakeConstsStack(s.(nextTypeWillClearBuffer := false), vs, nums);
  }
}
