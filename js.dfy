/** JavaScript value semantics the widget relies on: truthiness, property
    lookup on plain objects, `String.prototype.split`, the "text after the
    last dot" idiom, and the `deduce` first-truthy iterator of src/index.js. */
module Js {

  datatype Option<T> = None | Some(value: T)

  /** A JSON value other than an object. `Null` stands for both `null` and
      `undefined` (the widget only ever tests them with `==`/truthiness);
      numbers are integers. */
  datatype Value = Null | Bool(b: bool) | Num(n: int) | Str(s: string) | List(items: seq<Value>)

  /** JavaScript's `!!v`. */
  predicate Truthy(v: Value) {
    match v
    case Null => false
    case Bool(b) => b
    case Num(n) => n != 0
    case Str(s) => s != ""
    case List(_) => true
  }

  /** A plain object (a track descriptor): property name to value. */
  type Track = map<string, Value>

  /** `t[k]` over the track's own properties: a key it does not have reads
      as undefined (properties inherited from `Object.prototype` are not
      part of the model). */
  function Lookup(t: Track, k: string): Value {
    if k in t then t[k] else Null
  }

  /** `s.split(sep)` for a one-character separator: every separator cuts,
      so empty pieces are kept and the result is never empty. */
  function Split(s: string, sep: char): (r: seq<string>)
    ensures |r| >= 1
    decreases |s|
  {
    if s == [] then [""]
    else
      var rest := Split(s[1..], sep);
      if s[0] == sep then [""] + rest
      else [[s[0]] + rest[0]] + rest[1..]
  }

  /** `parts.join(sep)`, the inverse of `Split`. */
  function Join(parts: seq<string>, sep: char): string
    requires |parts| >= 1
    decreases |parts|
  {
    if |parts| == 1 then parts[0] else parts[0] + [sep] + Join(parts[1..], sep)
  }

  /** No piece produced by `Split` contains the separator. */
  lemma {:induction false} SplitPiecesLackSeparator(s: string, sep: char)
    ensures forall p :: p in Split(s, sep) ==> sep !in p
    decreases |s|
  {
    if s != [] {
      SplitPiecesLackSeparator(s[1..], sep);
    }
  }

  /** A string without the separator splits into itself alone. */
  lemma {:induction false} SplitWithoutSeparator(s: string, sep: char)
    requires sep !in s
    ensures Split(s, sep) == [s]
    decreases |s|
  {
    if s != [] {
      SplitWithoutSeparator(s[1..], sep);
      assert [s[0]] + s[1..] == s;
    }
  }

  /** Joining the pieces of a split gives back the string. */
  lemma {:induction false} JoinSplit(s: string, sep: char)
    ensures Join(Split(s, sep), sep) == s
    decreases |s|
  {
    if s != [] {
      var rest := Split(s[1..], sep);
      JoinSplit(s[1..], sep);
      if s[0] == sep {
        assert Split(s, sep) == [""] + rest;
        assert Join(Split(s, sep), sep) == "" + [sep] + Join(rest, sep);
        assert s == [s[0]] + s[1..];
      } else if |rest| == 1 {
        assert Split(s, sep) == [[s[0]] + rest[0]];
        assert s == [s[0]] + s[1..];
      } else {
        var r := Split(s, sep);
        assert r == [[s[0]] + rest[0]] + rest[1..];
        assert r[1..] == rest[1..];
        assert Join(rest, sep) == rest[0] + [sep] + Join(rest[1..], sep);
        assert s == [s[0]] + s[1..];
      }
    }
  }

  /** Splitting a join of separator-free pieces gives back the pieces. */
  lemma {:induction false} SplitJoin(parts: seq<string>, sep: char)
    requires |parts| >= 1
    requires forall p :: p in parts ==> sep !in p
    ensures Split(Join(parts, sep), sep) == parts
    decreases |parts|, |parts[0]|
  {
    var p := parts[0];
    if p == [] {
      if |parts| > 1 {
        SplitJoin(parts[1..], sep);
        var j := Join(parts, sep);
        assert j == [sep] + Join(parts[1..], sep);
        assert j[1..] == Join(parts[1..], sep);
        assert parts == [""] + parts[1..];
      }
    } else {
      var parts' := [p[1..]] + parts[1..];
      assert sep !in p by { assert p in parts; }
      forall q | q in parts' ensures sep !in q {
        if q == p[1..] {
          forall k | 0 <= k < |q| ensures q[k] != sep { assert q[k] == p[k + 1]; }
        } else {
          assert q in parts[1..];
          assert q in parts;
        }
      }
      SplitJoin(parts', sep);
      var j := Join(parts, sep);
      var j' := Join(parts', sep);
      if |parts| == 1 {
        assert j == p && j' == p[1..];
      } else {
        assert parts'[1..] == parts[1..];
        assert j == p + [sep] + Join(parts[1..], sep);
        assert j' == p[1..] + [sep] + Join(parts[1..], sep);
      }
      assert j == [p[0]] + j';
      assert j[1..] == j';
      assert p[0] != sep;
      assert [p[0]] + p[1..] == p;
    }
  }

  /** `s.split('.').pop()`: the text after the last `.`, or the whole
      string when it has no dot. */
  function Extension(s: string): string {
    var parts := Split(s, '.');
    parts[|parts| - 1]
  }

  /** What `Extension` picks out: a dot-free suffix of `s` that is either all
      of `s` or starts right after a dot. */
  lemma {:induction false} ExtensionIsLastSegment(s: string)
    ensures '.' !in Extension(s)
    ensures |Extension(s)| <= |s| && Extension(s) == s[|s| - |Extension(s)|..]
    ensures |Extension(s)| == |s| || s[|s| - |Extension(s)| - 1] == '.'
    ensures '.' !in s ==> Extension(s) == s
    decreases |s|
  {
    SplitPiecesLackSeparator(s, '.');
    assert Extension(s) in Split(s, '.');
    if s != [] {
      var rest := Split(s[1..], '.');
      ExtensionIsLastSegment(s[1..]);
      assert Extension(s[1..]) == rest[|rest| - 1];
      if s[0] == '.' {
        assert Split(s, '.') == [""] + rest;
        assert Extension(s) == Extension(s[1..]);
      } else if |rest| == 1 {
        JoinSplit(s[1..], '.');
        assert rest[0] == s[1..];
        assert Extension(s) == [s[0]] + rest[0];
        assert Extension(s) == s;
      } else {
        assert Extension(s) == Extension(s[1..]);
        if '.' !in s[1..] {
          SplitWithoutSeparator(s[1..], '.');
        }
        assert |Extension(s)| < |s| - 1;
      }
    }
  }

  /** The text after the last dot is empty exactly when the string is empty
      or ends in a dot. */
  lemma ExtensionEmpty(s: string)
    ensures Extension(s) == "" <==> s == "" || s[|s| - 1] == '.'
  {
    ExtensionIsLastSegment(s);
  }

  /** `deduce(xs, f)`: the first truthy `f(x)` in index order, or undefined
      when there is none; the iteration stops at that first truthy result. */
  function Deduce<T>(xs: seq<T>, f: T -> Value): (r: Value)
    ensures r == Null || Truthy(r)
    ensures r == Null <==> forall i :: 0 <= i < |xs| ==> !Truthy(f(xs[i]))
    ensures r != Null ==> exists i :: 0 <= i < |xs| && f(xs[i]) == r && forall j :: 0 <= j < i ==> !Truthy(f(xs[j]))
  {
    if xs == [] then Null
    else if Truthy(f(xs[0])) then f(xs[0])
    else
      var r := Deduce(xs[1..], f);
      assert forall i :: 1 <= i < |xs| ==> xs[1..][i - 1] == xs[i];
      r
  }

  /** The result of `Deduce` is determined by the first index whose callback
      result is truthy. */
  lemma DeduceFirst<T>(xs: seq<T>, f: T -> Value, i: int)
    requires 0 <= i < |xs| && Truthy(f(xs[i]))
    requires forall j :: 0 <= j < i ==> !Truthy(f(xs[j]))
    ensures Deduce(xs, f) == f(xs[i])
  {
    var r := Deduce(xs, f);
    assert r != Null;
    var k :| 0 <= k < |xs| && f(xs[k]) == r && forall j :: 0 <= j < k ==> !Truthy(f(xs[j]));
    assert k == i;
  }

  function DigitChar(d: nat): char
    requires d < 10
  {
    "0123456789"[d]
  }

  function Digits(n: nat): string
    decreases n
  {
    if n < 10 then [DigitChar(n)] else Digits(n / 10) + [DigitChar(n % 10)]
  }

  /** `String(n)` for an integer: the property name a number stands for. */
  function Decimal(n: int): string {
    if n < 0 then "-" + Digits(-n) else Digits(n)
  }
}
