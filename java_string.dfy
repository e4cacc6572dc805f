/** Java `String` as the stores see it: a sequence of UTF-16 code units.
    `length()` counts code units and `compareTo` orders strings by their code
    units, then by length; `TreeMap<String, _>` iterates keys in that order. */
module JavaString {
  /** The UTF-16 code units of one character: one unit below U+10000, a
      surrogate pair above. */
  function Units(c: char): (r: seq<int>)
    ensures 1 <= |r| <= 2
  {
    var n := c as int;
    if n < 0x10000 then [n]
    else [0xD800 + (n - 0x10000) / 0x400, 0xDC00 + (n - 0x10000) % 0x400]
  }

  function Utf16(s: string): (r: seq<int>)
    ensures |r| >= |s|
    decreases |s|
  {
    if s == [] then [] else Units(s[0]) + Utf16(s[1..])
  }

  /** `s.length()`. */
  function Length(s: string): nat {
    |Utf16(s)|
  }

  /** The loop of `String.compareTo` over two code-unit sequences: the
      difference of the first units that differ, else the difference of the
      lengths. */
  function Cmp(u: seq<int>, v: seq<int>): int
    decreases |u|
  {
    if u == [] || v == [] then |u| - |v|
    else if u[0] != v[0] then u[0] - v[0]
    else Cmp(u[1..], v[1..])
  }

  /** `a.compareTo(b)`. */
  function CompareTo(a: string, b: string): int {
    Cmp(Utf16(a), Utf16(b))
  }

  /** `a.compareTo(b) <= 0`. */
  predicate LessEq(a: string, b: string) {
    CompareTo(a, b) <= 0
  }

  /** Swapping the operands negates the comparison. */
  lemma {:induction false} CmpFlip(u: seq<int>, v: seq<int>)
    ensures Cmp(v, u) == -Cmp(u, v)
    decreases |u|
  {
    if u != [] && v != [] && u[0] == v[0] {
      CmpFlip(u[1..], v[1..]);
    }
  }

  lemma {:induction false} CmpSelf(u: seq<int>)
    ensures Cmp(u, u) == 0
    decreases |u|
  {
    if u != [] {
      CmpSelf(u[1..]);
    }
  }

  lemma {:induction false} CmpTrans(u: seq<int>, v: seq<int>, w: seq<int>)
    requires Cmp(u, v) <= 0 && Cmp(v, w) <= 0
    ensures Cmp(u, w) <= 0
    decreases |u|
  {
    if u != [] && v != [] && w != [] && u[0] == v[0] && v[0] == w[0] {
      CmpTrans(u[1..], v[1..], w[1..]);
    }
  }

  lemma LessEqRefl(a: string)
    ensures LessEq(a, a)
  {
    CmpSelf(Utf16(a));
  }

  lemma LessEqTotal(a: string, b: string)
    ensures LessEq(a, b) || LessEq(b, a)
  {
    CmpFlip(Utf16(a), Utf16(b));
  }

  lemma LessEqTrans(a: string, b: string, c: string)
    requires LessEq(a, b) && LessEq(b, c)
    ensures LessEq(a, c)
  {
    CmpTrans(Utf16(a), Utf16(b), Utf16(c));
  }

  /** Every non-empty set of strings has a least element: the first key a
      `TreeMap` iterates. */
  lemma MinExists(s: set<string>)
    requires s != {}
    ensures exists k :: k in s && forall j :: j in s ==> LessEq(k, j)
    decreases |s|
  {
    var x :| x in s;
    var rest := s - {x};
    if rest == {} {
      assert s == {x};
      LessEqRefl(x);
    } else {
      MinExists(rest);
      var m :| m in rest && forall j :: j in rest ==> LessEq(m, j);
      LessEqTotal(x, m);
      LessEqRefl(x);
      if LessEq(x, m) {
        forall j | j in s ensures LessEq(x, j) {
          if j != x {
            LessEqTrans(x, m, j);
          }
        }
      } else {
        forall j | j in s ensures LessEq(m, j) {
          if j == x {
            LessEqTotal(m, x);
          }
        }
      }
    }
  }
}
