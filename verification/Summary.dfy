/** The hook client's summary text (crates/ward-agent/src/hook.rs and
    crates/ward-agent-adapter/src/wire.rs). */
module Summary {
  import opened Utf8

  const SUMMARY_MAX: nat := 256

  /** `char::is_control`: the general category Cc. */
  predicate IsControl(c: char) {
    c as int < 0x20 || 0x7F <= c as int < 0xA0
  }

  predicate ControlFree(s: string) {
    forall i | 0 <= i < |s| :: !IsControl(s[i])
  }

  /** The text without its control characters. */
  function Visible(s: string): (r: string)
    ensures ControlFree(r)
    ensures ControlFree(s) ==> r == s
  {
    if s == [] then []
    else if IsControl(s[0]) then Visible(s[1..])
    else [s[0]] + Visible(s[1..])
  }

  /** Every other character is kept, in its place: taken apart anywhere, a text is filtered part by
      part, and a single character stays exactly when it is no control character. */
  lemma {:induction false} VisibleByParts(a: string, b: string, c: char)
    ensures Visible(a + b) == Visible(a) + Visible(b)
    ensures Visible([c]) == if IsControl(c) then [] else [c]
  {
    assert [c][1..] == [];
    if a == [] {
      assert a + b == b;
    } else {
      VisibleByParts(a[1..], b, c);
      assert (a + b)[1..] == a[1..] + b;
    }
  }

  /** What `SemanticEventLine::new` demands of a summary. */
  predicate ValidSummary(s: string) {
    ByteLen(s) <= SUMMARY_MAX && ControlFree(s)
  }

  /** `out` is the longest whole-character prefix of `s` that fits in `limit` bytes. */
  predicate IsLongestFitting(out: string, s: string, limit: nat) {
    && out <= s
    && ByteLen(out) <= limit
    && forall k | 0 <= k <= |s| && ByteLen(s[..k]) <= limit :: k <= |out|
  }

  function LongestFitting(s: string, limit: nat): (out: string)
    ensures IsLongestFitting(out, s, limit)
  {
    if ByteLen(s) <= limit then s
    else
      assert s != [];
      assert forall k | 0 <= k <= |s| - 1 :: s[..|s| - 1][..k] == s[..k];
      assert s[..|s|] == s;
      LongestFitting(s[..|s| - 1], limit)
  }

  function Sanitised(text: string): string {
    LongestFitting(Visible(text), SUMMARY_MAX)
  }

  /** The prefix of `s` that ends at byte `end`: `String::truncate`. */
  function Truncate(s: string, end: nat): (r: string)
    requires IsCharBoundary(Encode(s), end)
    ensures r <= s && ByteLen(r) == end
  {
    BoundariesAreCharEnds(s, end);
    if ByteLen(s) == end then s
    else
      var n := |s| - 1;
      assert s[..|s|] == s;
      assert forall k | 0 <= k <= n :: s[..n][..k] == s[..k];
      BoundariesAreCharEnds(s[..n], end);
      Truncate(s[..n], end)
  }

  /** Cut the visible text at 256 bytes, then step back until whole characters end there. At most
      three bytes are given up for that. */
  method Sanitise(text: string) returns (out: string)
    ensures out == Sanitised(text)
    ensures IsLongestFitting(out, Visible(text), SUMMARY_MAX)
    ensures ValidSummary(out)
    ensures ByteLen(Visible(text)) > SUMMARY_MAX ==> ByteLen(out) >= SUMMARY_MAX - 3
  {
    var visible := Visible(text);
    var bytes := Encode(visible);
    var end := if SUMMARY_MAX < |bytes| then SUMMARY_MAX else |bytes|;
    ghost var start := end;
    ghost var near := BoundaryWithinThree(visible, start);
    while !IsCharBoundary(bytes, end)
      invariant near <= end <= start
      invariant forall i | end < i <= start :: !IsCharBoundary(bytes, i)
      decreases end
    {
      end := end - 1;
    }
    out := Truncate(visible, end);
    CutIsLongest(visible, start, end, out);
    LongestIsUnique(out, Sanitised(text), visible, SUMMARY_MAX);
  }

  /** Some character ends at most three bytes before any position inside a text. */
  lemma {:induction false} BoundaryWithinThree(s: string, i: nat) returns (j: nat)
    requires i <= ByteLen(s)
    ensures j <= i <= j + 3 && IsCharBoundary(Encode(s), j)
  {
    if i == ByteLen(s) {
      j := i;
    } else {
      var n := |s| - 1;
      var front := s[..n];
      if i < ByteLen(front) {
        j := BoundaryWithinThree(front, i);
        assert j < ByteLen(front) && Encode(s)[j] == Encode(front)[j];
      } else {
        j := ByteLen(front);
        assert Encode(s)[j] == EncodeChar(s[n])[0];
      }
    }
  }

  lemma CutIsLongest(s: string, start: nat, end: nat, out: string)
    requires start == (if SUMMARY_MAX < ByteLen(s) then SUMMARY_MAX else ByteLen(s))
    requires end <= start && out <= s && ByteLen(out) == end
    requires forall i | end < i <= start :: !IsCharBoundary(Encode(s), i)
    ensures IsLongestFitting(out, s, SUMMARY_MAX)
  {
    assert s[..|out|] == out && s[..|s|] == s;
    forall k | 0 <= k <= |s| && ByteLen(s[..k]) <= SUMMARY_MAX ensures k <= |out| {
      PrefixesGrow(s, k, |s|);
      PrefixesGrow(s, |out|, k);
      BoundariesAreCharEnds(s, ByteLen(s[..k]));
    }
  }

  lemma LongestIsUnique(a: string, b: string, s: string, limit: nat)
    requires IsLongestFitting(a, s, limit) && IsLongestFitting(b, s, limit)
    ensures a == b
  {
    assert s[..|a|] == a && s[..|b|] == b;
  }

  /** A summary survives sanitising exactly when it was valid, so sanitising twice is sanitising
      once. */
  lemma SanitisedIsFixed(text: string)
    ensures ValidSummary(Sanitised(text))
    ensures Sanitised(text) == text <==> ValidSummary(text)
    ensures Sanitised(Sanitised(text)) == Sanitised(text)
  {
    var out := Sanitised(text);
    assert Visible(text)[..|out|] == out;
    assert ValidSummary(out);
  }
}
