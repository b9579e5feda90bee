/** The string operations of the standard library that `ward init` uses. */
module Text {

  predicate StartsWith(s: string, prefix: string) {
    prefix <= s
  }

  predicate EndsWith(s: string, suffix: string) {
    |suffix| <= |s| && s[|s| - |suffix|..] == suffix
  }

  predicate OccursAt(s: string, part: string, i: nat) {
    i + |part| <= |s| && s[i..i + |part|] == part
  }

  predicate Contains(s: string, part: string) {
    exists i | 0 <= i <= |s| :: OccursAt(s, part, i)
  }

  /** The Unicode property White_Space. */
  predicate IsWhitespace(c: char) {
    var n := c as int;
    || 0x09 <= n <= 0x0D || n == 0x20 || n == 0x85 || n == 0xA0 || n == 0x1680
    || 0x2000 <= n <= 0x200A || n == 0x2028 || n == 0x2029 || n == 0x202F || n == 0x205F || n == 0x3000
  }

  function TrimStart(s: string): string {
    if s != [] && IsWhitespace(s[0]) then TrimStart(s[1..]) else s
  }

  function TrimEnd(s: string): string {
    if s != [] && IsWhitespace(s[|s| - 1]) then TrimEnd(s[..|s| - 1]) else s
  }

  function Trim(s: string): string {
    TrimEnd(TrimStart(s))
  }

  // -------------------------------------------------------------------------------------------
  // Lines

  predicate NoBreak(s: string) {
    forall i | 0 <= i < |s| :: s[i] != '\n'
  }

  /** The position of the first line break, or the length. */
  function FirstBreak(s: string): (i: nat)
    ensures i <= |s|
    ensures forall k | 0 <= k < i :: s[k] != '\n'
    ensures i < |s| ==> s[i] == '\n'
  {
    if s == [] || s[0] == '\n' then 0 else 1 + FirstBreak(s[1..])
  }

  function StripReturn(line: string): string {
    if line != [] && line[|line| - 1] == '\r' then line[..|line| - 1] else line
  }

  /** `str::lines`: a final line break opens no further line, and `\r\n` is one break. */
  function Lines(s: string): seq<string> {
    if s == [] then [] else
    var i := FirstBreak(s);
    if i == |s| then [s] else [StripReturn(s[..i])] + Lines(s[i + 1..])
  }

  /** Texts of whole lines, each followed by a line break. */
  function Rendered(entries: seq<string>): string {
    if entries == [] then [] else Rendered(entries[..|entries| - 1]) + entries[|entries| - 1] + "\n"
  }

  predicate WholeLines(s: string) {
    s == [] || s[|s| - 1] == '\n'
  }

  lemma FirstBreakConcat(a: string, b: string)
    requires FirstBreak(a) < |a|
    ensures FirstBreak(a + b) == FirstBreak(a)
  {
    var i, j := FirstBreak(a), FirstBreak(a + b);
    assert (a + b)[i] == '\n';
    assert j < |a| ==> (a + b)[j] == a[j];
  }

  /** After whole lines, the lines of what follows are simply added. */
  lemma {:induction false} LinesConcat(a: string, b: string)
    requires WholeLines(a)
    ensures Lines(a + b) == Lines(a) + Lines(b)
    decreases |a|
  {
    if a == [] {
      assert a + b == b;
    } else {
      var i := FirstBreak(a);
      FirstBreakConcat(a, b);
      assert (a + b)[..i] == a[..i];
      assert (a + b)[i + 1..] == a[i + 1..] + b;
      LinesConcat(a[i + 1..], b);
    }
  }

  lemma {:induction false} UnbrokenEndsLast(s: string)
    requires NoBreak(s)
    ensures FirstBreak(s) == |s|
  {
  }

  lemma BreakAfterLine(e: string)
    requires FirstBreak(e) == |e|
    ensures FirstBreak(e + "\n") == |e|
  {
    var s := e + "\n";
    var i := FirstBreak(s);
    assert s[|e|] == '\n';
    assert forall k | 0 <= k < |e| :: s[k] == e[k];
  }

  lemma LinesOfSingleEntry(e: string)
    requires FirstBreak(e) == |e|
    ensures Lines(e + "\n") == [StripReturn(e)]
  {
    var s := e + "\n";
    BreakAfterLine(e);
    assert s[..|e|] == e && s[|e| + 1..] == [];
  }

  lemma Reassociate(a: string, b: string, c: string)
    ensures (a + b) + c == a + (b + c)
  {
  }

  lemma {:induction false} RenderedIsWholeLines(entries: seq<string>)
    ensures WholeLines(Rendered(entries))
  {
  }

  lemma {:induction false} RenderedConcat(a: seq<string>, b: seq<string>)
    ensures Rendered(a + b) == Rendered(a) + Rendered(b)
  {
    if b == [] {
      assert a + b == a;
    } else {
      var n := |b| - 1;
      assert (a + b)[..|a + b| - 1] == a + b[..n];
      RenderedConcat(a, b[..n]);
    }
  }

  lemma RenderedOne(entry: string)
    ensures Rendered([entry]) == entry + "\n"
  {
    assert [entry][..0] == [];
  }

  /** A text without line breaks occurs in rendered entries only inside one of them. */
  lemma {:induction false} OccursInOneEntry(entries: seq<string>, part: string)
    requires NoBreak(part) && part != []
    ensures Contains(Rendered(entries), part) <==> exists e | e in entries :: Contains(e, part)
  {
    if entries != [] {
      var n := |entries| - 1;
      var front, last := Rendered(entries[..n]), entries[n];
      OccursInOneEntry(entries[..n], part);
      RenderedIsWholeLines(entries[..n]);
      assert entries == entries[..n] + [last];
      OccursBeforeOrAfter(front, last + "\n", part);
      OccursInLine(last, part);
      assert front + (last + "\n") == Rendered(entries);
    }
  }

  lemma OccursAvoidsBreaks(s: string, part: string, i: nat, j: nat)
    requires OccursAt(s, part, i) && NoBreak(part) && j < |s| && s[j] == '\n'
    ensures !(i <= j < i + |part|)
  {
    forall k | i <= k < i + |part| ensures s[k] != '\n' {
      assert s[k] == s[i..i + |part|][k - i] == part[k - i];
    }
  }

  lemma OccursStays(a: string, b: string, part: string)
    ensures Contains(a, part) || Contains(b, part) ==> Contains(a + b, part)
  {
    var s := a + b;
    if i :| 0 <= i <= |a| && OccursAt(a, part, i) {
      assert s[i..i + |part|] == a[i..i + |part|];
      assert OccursAt(s, part, i);
    }
    if i :| 0 <= i <= |b| && OccursAt(b, part, i) {
      assert s[|a| + i..|a| + i + |part|] == b[i..i + |part|];
      assert OccursAt(s, part, |a| + i);
    }
  }

  lemma OccursBeforeOrAfter(a: string, b: string, part: string)
    requires WholeLines(a) && NoBreak(part) && part != []
    ensures Contains(a + b, part) <==> Contains(a, part) || Contains(b, part)
  {
    var s := a + b;
    OccursStays(a, b, part);
    if Contains(s, part) {
      var i :| 0 <= i <= |s| && OccursAt(s, part, i);
      if a != [] { OccursAvoidsBreaks(s, part, i, |a| - 1); }
      if i + |part| <= |a| {
        assert s[i..i + |part|] == a[i..i + |part|];
        assert OccursAt(a, part, i);
      } else {
        assert s[i..i + |part|] == b[i - |a|..i - |a| + |part|];
        assert OccursAt(b, part, i - |a|);
      }
    }
  }

  lemma OccursInLine(line: string, part: string)
    requires NoBreak(part) && part != []
    ensures Contains(line + "\n", part) <==> Contains(line, part)
  {
    var s := line + "\n";
    if Contains(line, part) {
      var i :| 0 <= i <= |line| && OccursAt(line, part, i);
      assert s[i..i + |part|] == line[i..i + |part|];
      assert OccursAt(s, part, i);
    }
    if Contains(s, part) {
      var i :| 0 <= i <= |s| && OccursAt(s, part, i);
      OccursAvoidsBreaks(s, part, i, |line|);
      assert s[i..i + |part|] == line[i..i + |part|];
      assert OccursAt(line, part, i);
    }
  }

  lemma ContainsMiddle(a: string, part: string, b: string)
    ensures Contains(a + part + b, part)
  {
    var s := a + part + b;
    assert s[|a|..|a| + |part|] == part;
    assert OccursAt(s, part, |a|);
  }
}
