/** `BufferedReader.readLine` over a whole text: a line ends at `\n`, at `\r`,
    or at `\r\n`, the terminator is not part of the line, and a last line
    without a terminator is still read. */
module JavaReader {
  import SeqFacts

  predicate IsTerminator(c: char) {
    c == '\n' || c == '\r'
  }

  predicate NoTerminator(s: string) {
    forall i :: 0 <= i < |s| ==> !IsTerminator(s[i])
  }

  /** Where the first line of `s` ends, or -1 when `s` has no terminator. */
  function LineEnd(s: string): (r: int)
    ensures -1 <= r < |s|
    ensures r < 0 ==> NoTerminator(s)
    ensures r >= 0 ==> IsTerminator(s[r]) && NoTerminator(s[..r])
    decreases |s|
  {
    if s == [] then -1
    else if IsTerminator(s[0]) then 0
    else
      var j := LineEnd(s[1..]);
      if j < 0 then -1
      else
        assert s[..j + 1] == [s[0]] + s[1..][..j];
        j + 1
  }

  /** Where the line after the one ending at `e` starts: past `\r\n` as one
      terminator, else past the single terminator. */
  function NextLine(text: string, e: nat): (n: nat)
    requires e < |text|
    ensures e < n <= |text|
  {
    if text[e] == '\r' && e + 1 < |text| && text[e + 1] == '\n' then e + 2 else e + 1
  }

  /** The successive results of `readLine()` until it returns `null`. */
  function Lines(text: string): (r: seq<string>)
    ensures forall i :: 0 <= i < |r| ==> NoTerminator(r[i])
    decreases |text|
  {
    if text == [] then []
    else
      var e := LineEnd(text);
      if e < 0 then [text]
      else
        [text[..e]] + Lines(text[NextLine(text, e)..])
  }

  /** A line written with a trailing `\n` is read back as itself, and reading
      continues right after it. */
  lemma LinesCons(line: string, rest: string)
    requires NoTerminator(line)
    ensures Lines(line + "\n" + rest) == [line] + Lines(rest)
  {
    var text := line + "\n" + rest;
    assert text[|line|] == '\n';
    assert LineEnd(text) == |line| by {
      LineEndAt(text, |line|);
    }
    assert text[..|line|] == line;
    assert text[|line| + 1..] == rest;
  }

  lemma {:induction false} LineEndAt(s: string, n: nat)
    requires n < |s| && IsTerminator(s[n]) && NoTerminator(s[..n])
    ensures LineEnd(s) == n
    decreases n
  {
    if n > 0 {
      assert !IsTerminator(s[..n][0]);
      assert s[1..][..n - 1] == s[..n][1..];
      LineEndAt(s[1..], n - 1);
    }
  }

  lemma LinesStep(text: string, e: nat, next: nat)
    requires text != [] && LineEnd(text) == e && next == NextLine(text, e)
    ensures Lines(text) == [text[..e]] + Lines(text[next..])
  {
  }

  /** Text that ends with a complete line is read line by line on its own:
      whatever follows starts a new line. */
  lemma {:induction false} LinesAppend(a: string, b: string)
    requires a == [] || a[|a| - 1] == '\n'
    ensures Lines(a + b) == Lines(a) + Lines(b)
    decreases |a|
  {
    if a == [] {
      assert a + b == b;
    } else {
      assert !NoTerminator(a) by {
        assert IsTerminator(a[|a| - 1]);
      }
      var e := LineEnd(a);
      var t := a + b;
      var next := NextLine(a, e);
      FirstLineOfAppend(a, b, e);
      LinesStep(a, e, next);
      LinesStep(t, e, next);
      LinesAppend(a[next..], b);
      SeqFacts.Assoc([a[..e]], Lines(a[next..]), Lines(b));
    }
  }

  lemma FirstLineOfAppend(a: string, b: string, e: nat)
    requires a != [] && a[|a| - 1] == '\n' && e == LineEnd(a) && e >= 0
    ensures a + b != [] && LineEnd(a + b) == e && NextLine(a + b, e) == NextLine(a, e)
    ensures (a + b)[..e] == a[..e] && (a + b)[NextLine(a, e)..] == a[NextLine(a, e)..] + b
    ensures a[NextLine(a, e)..] == [] || a[NextLine(a, e)..][|a[NextLine(a, e)..]| - 1] == '\n'
  {
    var t := a + b;
    assert t[..e] == a[..e] && t[e] == a[e];
    LineEndAt(t, e);
    if a[e] == '\r' {
      assert e + 1 < |a|;
      assert t[e + 1] == a[e + 1];
    }
  }
}
