/** The few `java.lang.String` operations the key-value stores rely on, stated
    over Dafny strings: `trim`, `indexOf`/`lastIndexOf` of a character,
    `split` on a one-character pattern (with and without a limit of 2), and the
    two `replaceAll` calls of the batch parsers. */
module JavaText {

  /** `String.trim()` strips every character whose code is at most U+0020. */
  predicate IsTrimmed(c: char) {
    c <= ' '
  }

  /** Leading characters removed by the first loop of `trim()`. */
  function TrimLeft(s: string): (r: string)
    ensures |r| <= |s|
    decreases |s|
  {
    if s != [] && IsTrimmed(s[0]) then TrimLeft(s[1..]) else s
  }

  /** Trailing characters removed by the second loop of `trim()`. */
  function TrimRight(s: string): (r: string)
    ensures |r| <= |s|
    decreases |s|
  {
    if s != [] && IsTrimmed(s[|s| - 1]) then TrimRight(s[..|s| - 1]) else s
  }

  /** `s.trim()`: the longest substring of `s` that neither starts nor ends
      with a character at or below U+0020. */
  function Trim(s: string): (r: string)
  {
    TrimRight(TrimLeft(s))
  }

  /** The first loop drops a run of trimmable characters from the front and
      stops at one it keeps. */
  lemma {:induction false} TrimLeftSpec(s: string)
    ensures var r := TrimLeft(s);
      && r == s[|s| - |r|..]
      && (forall i :: 0 <= i < |s| - |r| ==> IsTrimmed(s[i]))
      && (r == [] || !IsTrimmed(r[0]))
    decreases |s|
  {
    if s != [] && IsTrimmed(s[0]) {
      TrimLeftSpec(s[1..]);
      var r := TrimLeft(s);
      forall i | 1 <= i < |s| - |r| ensures IsTrimmed(s[i]) {
        assert s[i] == s[1..][i - 1];
      }
    }
  }

  /** The second loop drops a run of trimmable characters from the back and
      stops at one it keeps. */
  lemma {:induction false} TrimRightSpec(s: string)
    ensures var r := TrimRight(s);
      && r == s[..|r|]
      && (forall i :: |r| <= i < |s| ==> IsTrimmed(s[i]))
      && (r == [] || !IsTrimmed(r[|r| - 1]))
    decreases |s|
  {
    if s != [] && IsTrimmed(s[|s| - 1]) {
      var t := s[..|s| - 1];
      TrimRightSpec(t);
      var r := TrimRight(s);
      assert r == t[..|r|];
      forall i | |r| <= i < |s| - 1 ensures IsTrimmed(s[i]) {
        assert s[i] == t[i];
      }
    }
  }

  /** Trim removes exactly a trimmable prefix (of length `|s| - |TrimLeft(s)|`)
      and a trimmable suffix, and what it keeps starts and ends with a
      character that is kept. */
  lemma TrimSpec(s: string)
    ensures var i, r := |s| - |TrimLeft(s)|, Trim(s);
      && i + |r| <= |s| && r == s[i..i + |r|]
      && (forall j :: 0 <= j < i ==> IsTrimmed(s[j]))
      && (forall j :: i + |r| <= j < |s| ==> IsTrimmed(s[j]))
    ensures Trim(s) == [] || (!IsTrimmed(Trim(s)[0]) && !IsTrimmed(Trim(s)[|Trim(s)| - 1]))
  {
    var l := TrimLeft(s);
    var r := TrimRight(l);
    TrimLeftSpec(s);
    TrimRightSpec(l);
    var i := |s| - |l|;
    assert r == s[i..i + |r|];
    forall j | i + |r| <= j < |s| ensures IsTrimmed(s[j]) {
      assert s[j] == l[j - i];
    }
    if r != [] && l != [] {
      assert r[0] == l[0];
    }
  }

  /** Trimming twice trims nothing more. */
  lemma TrimIdempotent(s: string)
    ensures Trim(Trim(s)) == Trim(s)
  {
    var r := Trim(s);
    TrimSpec(s);
    if r != [] {
      assert TrimLeft(r) == r;
      assert TrimRight(r) == r;
    }
  }

  /** A string that neither starts nor ends with a trimmable character is its
      own trim. */
  lemma TrimOfTrimmed(s: string)
    requires s == [] || (!IsTrimmed(s[0]) && !IsTrimmed(s[|s| - 1]))
    ensures Trim(s) == s
  {
  }

  /** `s.indexOf(c)`: the first position of `c`, or -1. */
  function IndexOf(s: string, c: char): (r: int)
    ensures -1 <= r < |s|
    ensures r == -1 <==> c !in s
    ensures r >= 0 ==> s[r] == c && c !in s[..r]
    decreases |s|
  {
    if s == [] then -1
    else if s[0] == c then 0
    else
      var j := IndexOf(s[1..], c);
      if j < 0 then
        assert s == [s[0]] + s[1..];
        -1
      else
        assert s[..j + 1] == [s[0]] + s[1..][..j];
        j + 1
  }

  /** `s.lastIndexOf(c)`: the last position of `c`, or -1. */
  function LastIndexOf(s: string, c: char): (r: int)
    ensures -1 <= r < |s|
    ensures r == -1 <==> c !in s
    ensures r >= 0 ==> s[r] == c && c !in s[r + 1..]
    decreases |s|
  {
    if s == [] then -1
    else if s[|s| - 1] == c then |s| - 1
    else
      var t := s[..|s| - 1];
      var j := LastIndexOf(t, c);
      assert s == t + [s[|s| - 1]];
      if j < 0 then
        -1
      else
        assert s[j + 1..] == t[j + 1..] + [s[|s| - 1]];
        j
  }

  /** All pieces of `s` between occurrences of `sep`, empty ones included:
      the raw material of `split` before trailing empty strings are dropped. */
  function Fields(s: string, sep: char): (r: seq<string>)
    ensures |r| >= 1
    ensures forall i :: 0 <= i < |r| ==> sep !in r[i]
    decreases |s|
  {
    var i := IndexOf(s, sep);
    if i < 0 then [s] else [s[..i]] + Fields(s[i + 1..], sep)
  }

  /** The pieces joined back together with `sep` in between. */
  function Join(parts: seq<string>, sep: char): string
    decreases |parts|
  {
    if parts == [] then []
    else if |parts| == 1 then parts[0]
    else parts[0] + [sep] + Join(parts[1..], sep)
  }

  /** Splitting at every separator loses nothing: joining the fields gives
      back the string. */
  lemma {:induction false} JoinFields(s: string, sep: char)
    ensures Join(Fields(s, sep), sep) == s
    decreases |s|
  {
    var i := IndexOf(s, sep);
    if i >= 0 {
      var rest := Fields(s[i + 1..], sep);
      JoinFields(s[i + 1..], sep);
      assert ([s[..i]] + rest)[1..] == rest;
      CutAt(s, i);
    }
  }

  /** A string is its prefix, the character at the cut, and its suffix. */
  lemma CutAt(s: string, i: nat)
    requires i < |s|
    ensures s == s[..i] + [s[i]] + s[i + 1..]
  {
    assert s[i..] == [s[i]] + s[i + 1..];
    assert s == s[..i] + s[i..];
  }

  /** The first separator of `a + [sep] + b` follows `a` when `a` has none. */
  lemma FirstCut(a: string, b: string, sep: char)
    requires sep !in a
    ensures var s := a + [sep] + b;
      IndexOf(s, sep) == |a| && s[..|a|] == a && s[|a| + 1..] == b
  {
    var s := a + [sep] + b;
    assert s[..|a|] == a && s[|a|] == sep;
    assert s[|a| + 1..] == b;
  }

  /** Fields of a join of separator-free pieces are the pieces. */
  lemma {:induction false} FieldsJoin(parts: seq<string>, sep: char)
    requires |parts| >= 1
    requires forall i :: 0 <= i < |parts| ==> sep !in parts[i]
    ensures Fields(Join(parts, sep), sep) == parts
    decreases |parts|
  {
    if |parts| > 1 {
      var rest := Join(parts[1..], sep);
      assert Join(parts, sep) == parts[0] + [sep] + rest;
      FirstCut(parts[0], rest, sep);
      FieldsJoin(parts[1..], sep);
    }
  }

  /** Removes the empty strings at the end of a list of pieces. */
  function DropTrailingEmpty(parts: seq<string>): (r: seq<string>)
    ensures r <= parts
    ensures r == [] || r[|r| - 1] != []
    ensures forall i :: |r| <= i < |parts| ==> parts[i] == []
    decreases |parts|
  {
    if parts != [] && parts[|parts| - 1] == [] then DropTrailingEmpty(parts[..|parts| - 1])
    else parts
  }

  /** `s.split(String.valueOf(sep))` for a one-character, non-metacharacter
      pattern: when `sep` does not occur the result is `[s]` (so `"".split(",")`
      is `[""]`); otherwise the fields with trailing empty strings removed
      (so `",".split(",")` is empty). */
  function Split(s: string, sep: char): (r: seq<string>)
  {
    if sep !in s then [s] else DropTrailingEmpty(Fields(s, sep))
  }

  /** What `split` keeps and drops: no piece contains the separator, the
      pieces are the leading fields, and only empty fields are dropped. */
  lemma SplitSpec(s: string, sep: char)
    ensures forall i :: 0 <= i < |Split(s, sep)| ==> sep !in Split(s, sep)[i]
    ensures Split(s, sep) <= Fields(s, sep)
    ensures forall i :: |Split(s, sep)| <= i < |Fields(s, sep)| ==> Fields(s, sep)[i] == []
    ensures sep in s ==> Split(s, sep) == [] || Split(s, sep)[|Split(s, sep)| - 1] != []
  {
    if sep !in s {
      assert IndexOf(s, sep) == -1;
    }
  }

  /** A join of separator-free pieces whose last piece is non-empty splits
      back into exactly those pieces. */
  lemma SplitJoin(parts: seq<string>, sep: char)
    requires |parts| >= 1 && parts[|parts| - 1] != []
    requires forall i :: 0 <= i < |parts| ==> sep !in parts[i]
    ensures Split(Join(parts, sep), sep) == parts
  {
    FieldsJoin(parts, sep);
    var s := Join(parts, sep);
    if sep !in s {
      assert IndexOf(s, sep) == -1;
      assert Fields(s, sep) == [s];
    }
  }

  /** `s.split(String.valueOf(sep), 2)`: at most one cut, at the first
      separator, and trailing empty strings are kept. */
  function SplitFirst(s: string, sep: char): (r: seq<string>)
    ensures 1 <= |r| <= 2
    ensures |r| == 2 <==> sep in s
    ensures |r| == 1 ==> r[0] == s
    ensures |r| == 2 ==> s == r[0] + [sep] + r[1] && sep !in r[0]
  {
    var i := IndexOf(s, sep);
    if i < 0 then [s]
    else
      assert s == s[..i] + [sep] + s[i + 1..];
      [s[..i], s[i + 1..]]
  }

  /** A string cut at its first separator comes back as the two sides. */
  lemma SplitFirstAt(a: string, b: string, sep: char)
    requires sep !in a
    ensures SplitFirst(a + [sep] + b, sep) == [a, b]
  {
    FirstCut(a, b, sep);
  }

  /** Joining one more piece appends a separator and the piece. */
  lemma {:induction false} JoinSnoc(parts: seq<string>, p: string, sep: char)
    requires parts != []
    ensures Join(parts + [p], sep) == Join(parts, sep) + [sep] + p
    decreases |parts|
  {
    if |parts| == 1 {
      assert (parts + [p])[1..] == [p];
    } else {
      assert (parts + [p])[1..] == parts[1..] + [p];
      JoinSnoc(parts[1..], p, sep);
    }
  }

  /** `s.replaceAll("\"", "")` (and any other one-character literal): every
      occurrence of `c` is deleted. */
  function RemoveAll(s: string, c: char): (r: string)
    ensures c !in r
    ensures |r| <= |s|
    ensures c !in s ==> r == s
    decreases |s|
  {
    if s == [] then []
    else if s[0] == c then RemoveAll(s[1..], c)
    else [s[0]] + RemoveAll(s[1..], c)
  }

  /** Deleting a character commutes with concatenation. */
  lemma {:induction false} RemoveAllAppend(a: string, b: string, c: char)
    ensures RemoveAll(a + b, c) == RemoveAll(a, c) + RemoveAll(b, c)
    decreases |a|
  {
    if a != [] {
      assert (a + b)[0] == a[0];
      assert (a + b)[1..] == a[1..] + b;
      RemoveAllAppend(a[1..], b, c);
    } else {
      assert a + b == b;
    }
  }

  /** Characters that end a line for the regex anchor `$` in Java's default
      (non-multiline, non-UNIX_LINES) mode. */
  predicate IsLineTerminator(t: string) {
    t == "\n" || t == "\r" || t == "\r\n" || t == "\U{85}" || t == "\U{2028}" || t == "\U{2029}"
  }

  /** Whether the regex `"$` matches the last quote of `s`: a quote that ends
      the input, or that stands just before a final line terminator. */
  function TrailingQuoteAt(s: string): (r: int)
    ensures -1 <= r < |s|
    ensures r >= 0 ==> s[r] == '"' && (r == |s| - 1 || IsLineTerminator(s[r + 1..]))
  {
    if |s| >= 1 && s[|s| - 1] == '"' then |s| - 1
    else if |s| >= 2 && s[|s| - 2] == '"' && IsLineTerminator(s[|s| - 1..]) then |s| - 2
    else if |s| >= 3 && s[|s| - 3] == '"' && s[|s| - 2..] == "\r\n" then |s| - 3
    else -1
  }

  /** `s.replaceAll("^\"|\"$", "")`: deletes one quote at the very start and
      one quote at the end (the end as the anchor `$` sees it); a lone `"`
      loses only its one character, and quotes inside are kept. */
  function StripOuterQuotes(s: string): (r: string)
  {
    var a := if |s| > 0 && s[0] == '"' then s[1..] else s;
    var p := TrailingQuoteAt(a);
    if p < 0 then a else a[..p] + a[p + 1..]
  }

  /** A value wrapped in one pair of quotes comes out exactly unwrapped, inner
      quotes included. */
  lemma StripOuterQuotesWrapped(t: string)
    ensures StripOuterQuotes("\"" + t + "\"") == t
  {
    var s := "\"" + t + "\"";
    assert s[1..] == t + "\"";
  }

  /** A string that neither starts nor ends with a quote (nor has one before a
      final line terminator) is left unchanged. */
  lemma StripOuterQuotesUnquoted(s: string)
    requires s == [] || s[0] != '"'
    requires TrailingQuoteAt(s) < 0
    ensures StripOuterQuotes(s) == s
  {
  }

  /** A line terminator is one character other than a quote, or `\r\n`. */
  lemma TerminatorShape(e: string)
    requires IsLineTerminator(e)
    ensures e == "\r\n" || (|e| == 1 && e[0] != '"')
    ensures TrailingQuoteAt(e) < 0
  {
    if e == "\r\n" {
      assert e[1] == '\n' && e[0] == '\r';
    }
  }

  /** The anchor `$` finds the quote that precedes a final line terminator. */
  lemma TrailingQuoteBeforeTerminator(t: string, e: string)
    requires IsLineTerminator(e)
    ensures TrailingQuoteAt(t + "\"" + e) == |t|
  {
    var s := t + "\"" + e;
    TerminatorShape(e);
    if e == "\r\n" {
      assert s[|s| - 1] == '\n' && s[|s| - 2] == '\r';
      assert s[|s| - 3] == '"' && s[|s| - 2..] == "\r\n";
    } else {
      assert s[|s| - 1] == e[0];
      assert s[|s| - 2] == '"' && s[|s| - 1..] == e;
    }
  }

  /** Java's `$` also matches just before a final line terminator (which
      `trim()` may keep, as it does U+2028), so a quote standing there is
      deleted and the terminator stays. */
  lemma StripOuterQuotesBeforeTerminator(t: string, e: string)
    requires IsLineTerminator(e)
    requires t == [] || t[0] != '"'
    ensures StripOuterQuotes(t + "\"" + e) == t + e
  {
    var s := t + "\"" + e;
    if t == [] {
      assert s[1..] == e;
      TerminatorShape(e);
    } else {
      assert s[0] == t[0];
      TrailingQuoteBeforeTerminator(t, e);
      assert s[..|t|] == t && s[|t| + 1..] == e;
    }
  }
}
