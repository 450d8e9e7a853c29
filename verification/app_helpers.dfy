/** The small pure helpers of the calculator's component file: the class-name builder, the
    one-or-many coercion of button shortcuts, and the parsing of a hotkey string such as
    `shift+ctrl+Digit6`. */
module AppHelpers {
  import opened Text

  /** What `makeClasses` accepts: a class name, a boolean or `undefined` (both contribute
      nothing), an object from class names to switches (its entries in the order
      `Object.entries` lists them: integer-like keys first, then the rest in insertion order),
      or an array of these. */
  datatype ClassSpec =
    | Name(name: string)
    | Flag(flag: bool)
    | Undefined
    | Toggles(entries: seq<(string, bool)>)
    | List(items: seq<ClassSpec>)

  /** `ps.filter(v => v)` on strings: the non-empty ones, in order. */
  function Truthy(ps: seq<string>): (r: seq<string>)
    ensures forall i :: 0 <= i < |r| ==> r[i] != ""
    ensures |r| <= |ps|
  {
    if |ps| == 0 then []
    else (if ps[0] == "" then [] else [ps[0]]) + Truthy(ps[1..])
  }

  /** `Object.entries(classes).map(([k, v]) => v ? k : '')`. */
  function Picks(entries: seq<(string, bool)>): seq<string> {
    seq(|entries|, i requires 0 <= i < |entries| => if entries[i].1 then entries[i].0 else "")
  }

  /** `makeClasses(classes)`: the class attribute built from a specification. */
  function MakeClasses(c: ClassSpec): string
    decreases c
  {
    match c
    case List(items) =>
      Join(Truthy(seq(|items|, i requires 0 <= i < |items| => MakeClasses(items[i]))), " ")
    case Name(s) => s
    case Flag(_) => ""
    case Undefined => ""
    case Toggles(entries) => Join(Truthy(Picks(entries)), " ")
  }

  /** The switched-on names of an object, empty names left out. */
  function Enabled(entries: seq<(string, bool)>): seq<string> {
    if |entries| == 0 then []
    else (if entries[0].1 && entries[0].0 != "" then [entries[0].0] else []) + Enabled(entries[1..])
  }

  function Flatten(pss: seq<seq<string>>): seq<string> {
    if |pss| == 0 then [] else pss[0] + Flatten(pss[1..])
  }

  /** The class names a specification contributes, in order: a non-empty name, the switched-on
      names of an object, and those of each element of an array. */
  function ActiveClasses(c: ClassSpec): seq<string>
    decreases c
  {
    match c
    case List(items) => Flatten(seq(|items|, i requires 0 <= i < |items| => ActiveClasses(items[i])))
    case Name(s) => if s == "" then [] else [s]
    case Flag(_) => []
    case Undefined => []
    case Toggles(entries) => Enabled(entries)
  }

  predicate NoneEmpty(ps: seq<string>) {
    forall i :: 0 <= i < |ps| ==> ps[i] != ""
  }

  /** Joining non-empty strings gives the empty string only for no strings at all. */
  lemma JoinEmpty(ps: seq<string>, sep: string)
    requires NoneEmpty(ps)
    ensures Join(ps, sep) == "" <==> ps == []
  {
    if |ps| > 0 {
      assert |Join(ps, sep)| >= |ps[0]| by { JoinHead(ps, sep); }
    }
  }

  lemma JoinHead(ps: seq<string>, sep: string)
    requires |ps| > 0
    ensures Join(ps, sep)[..|ps[0]|] == ps[0]
  {
  }

  /** Joining two lists is joining each and putting the separator between them when both are
      non-empty. */
  lemma {:induction false} JoinAppend(a: seq<string>, b: seq<string>, sep: string)
    ensures Join(a + b, sep)
         == if a == [] then Join(b, sep) else if b == [] then Join(a, sep)
            else Join(a, sep) + sep + Join(b, sep)
    decreases |a|
  {
    if a == [] {
      assert a + b == b;
    } else if b == [] {
      assert a + b == a;
    } else if |a| == 1 {
      assert (a + b)[1..] == b;
    } else {
      assert (a + b)[1..] == a[1..] + b;
      JoinAppend(a[1..], b, sep);
    }
  }

  /** The object case: the names picked and kept are the switched-on, non-empty ones. */
  lemma {:induction false} PicksEnabled(entries: seq<(string, bool)>)
    ensures Truthy(Picks(entries)) == Enabled(entries)
    decreases |entries|
  {
    if |entries| > 0 {
      assert Picks(entries)[1..] == Picks(entries[1..]);
      PicksEnabled(entries[1..]);
    }
  }

  /** The array case: the non-empty results of the elements, joined, are the elements' names
      joined, when each element's result is its names joined. */
  lemma {:induction false} JoinTruthy(ms: seq<string>, ass: seq<seq<string>>)
    requires |ms| == |ass|
    requires forall i :: 0 <= i < |ms| ==> ms[i] == Join(ass[i], " ") && NoneEmpty(ass[i])
    ensures Join(Truthy(ms), " ") == Join(Flatten(ass), " ")
    ensures NoneEmpty(Flatten(ass))
    decreases |ms|
  {
    if |ms| > 0 {
      JoinTruthy(ms[1..], ass[1..]);
      var t := Truthy(ms[1..]);
      var f := Flatten(ass[1..]);
      JoinEmpty(ass[0], " ");
      JoinEmpty(t, " ");
      JoinEmpty(f, " ");
      JoinAppend(ass[0], f, " ");
      if ms[0] == "" {
        assert Truthy(ms) == t;
      } else {
        assert Truthy(ms) == [ms[0]] + t;
        JoinAppend([ms[0]], t, " ");
      }
      assert NoneEmpty(ass[0] + f) by {
        forall k | 0 <= k < |ass[0] + f|
          ensures (ass[0] + f)[k] != ""
        {
          if k >= |ass[0]| {
            assert (ass[0] + f)[k] == f[k - |ass[0]|];
          }
        }
      }
    }
  }

  /** The class attribute holds exactly the contributed names, in order, separated by single
      spaces; no contributed name is empty. */
  lemma {:induction false} MakeClassesActive(c: ClassSpec)
    ensures MakeClasses(c) == Join(ActiveClasses(c), " ")
    ensures NoneEmpty(ActiveClasses(c))
    decreases c
  {
    match c
    case List(items) =>
      var ms := seq(|items|, i requires 0 <= i < |items| => MakeClasses(items[i]));
      var ass := seq(|items|, i requires 0 <= i < |items| => ActiveClasses(items[i]));
      forall i | 0 <= i < |items|
        ensures ms[i] == Join(ass[i], " ") && NoneEmpty(ass[i])
      {
        MakeClassesActive(items[i]);
      }
      JoinTruthy(ms, ass);
    case Name(s) =>
    case Flag(_) =>
    case Undefined =>
    case Toggles(entries) =>
      PicksEnabled(entries);
      JoinEmpty(Enabled(entries), " ");
      assert NoneEmpty(Enabled(entries)) by { PicksEnabled(entries); }
  }

  /** When no contributed name holds a space, splitting the attribute on spaces gives the names
      back. */
  lemma ClassesSplit(c: ClassSpec)
    requires |ActiveClasses(c)| >= 1
    requires forall i :: 0 <= i < |ActiveClasses(c)| ==> ' ' !in ActiveClasses(c)[i]
    ensures Split(MakeClasses(c), ' ') == ActiveClasses(c)
  {
    MakeClassesActive(c);
    SplitJoin(ActiveClasses(c), ' ');
  }

  /** A value of type `T | T[]`. */
  datatype OneOrMany<T> = One(value: T) | Many(values: seq<T>)

  /** `coerceArray(v)`: an array is returned as it is, anything else is wrapped. */
  function CoerceArray<T>(v: OneOrMany<T>): (r: seq<T>)
    ensures v.Many? ==> r == v.values
    ensures v.One? ==> |r| == 1 && r[0] == v.value
  {
    match v
    case One(x) => [x]
    case Many(xs) => xs
  }

  /** The key a handler listens for and the modifier states it demands. */
  datatype Hotkey = Hotkey(key: string, ctrl: bool, shift: bool)

  /** The key-string half of `modifyForHotkey`: a key string with a `+` is split on `+`; the
      last piece is the key, and `ctrl` or `shift` is demanded when it is one of the pieces. A
      key string without `+` is the key itself, with neither modifier. */
  function ParseHotkey(key: string): (h: Hotkey)
    ensures '+' !in h.key
    ensures '+' !in key ==> h == Hotkey(key, false, false)
  {
    if '+' in key then
      var spl := Split(key, '+');
      SplitPieces(key, '+');
      Hotkey(spl[|spl| - 1], "ctrl" in spl, "shift" in spl)
    else Hotkey(key, false, false)
  }

  /** Writing modifiers and a key with `+` between them and parsing the result gives the key
      back, with a modifier demanded exactly when it was written (or is the key itself, after
      some modifier). */
  lemma HotkeyOfJoin(mods: seq<string>, k: string)
    requires forall i :: 0 <= i < |mods| ==> '+' !in mods[i]
    requires '+' !in k
    ensures ParseHotkey(Join(mods + [k], "+"))
         == Hotkey(k, |mods| > 0 && "ctrl" in mods + [k], |mods| > 0 && "shift" in mods + [k])
  {
    var ps := mods + [k];
    if |mods| == 0 {
      assert ps == [k];
    } else {
      assert forall i :: 0 <= i < |ps| ==> '+' !in ps[i] by {
        forall i | 0 <= i < |ps|
          ensures '+' !in ps[i]
        {
          if i < |mods| {
            assert ps[i] == mods[i];
          }
        }
      }
      SplitJoin(ps, '+');
      SplitPieces(Join(ps, "+"), '+');
    }
  }
}
