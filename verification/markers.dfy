/** The question markers of the raw question text: `第`, one or more
    decimal digits, `問` (the regular expression `第\d+問`), and
    `re.split` with that expression in a capturing group, which returns the
    text between markers interleaved with the markers themselves. */
module Markers {
  import opened Wrappers

  /** A decimal digit as `\d` sees it: ASCII or full-width. */
  predicate IsDigit(c: char) {
    ('0' <= c <= '9') || ('０' <= c <= '９')
  }

  /** A whole match of `第\d+問`. */
  predicate IsMarker(m: string) {
    && |m| >= 3
    && m[0] == '第'
    && m[|m| - 1] == '問'
    && forall k :: 1 <= k < |m| - 1 ==> IsDigit(m[k])
  }

  /** Where the run of digits starting at `i` ends. */
  function DigitRunEnd(s: string, i: nat): (j: nat)
    requires i <= |s|
    ensures i <= j <= |s|
    ensures forall k :: i <= k < j ==> IsDigit(s[k])
    ensures j < |s| ==> !IsDigit(s[j])
    decreases |s| - i
  {
    if i == |s| || !IsDigit(s[i]) then i else DigitRunEnd(s, i + 1)
  }

  /** `re.match` of `第\d+問` at position `i`: the end of the match, or
      `None` when no marker starts there. */
  function MarkerAt(s: string, i: nat): (r: Option<nat>)
    requires i <= |s|
    ensures r.Some? ==> i < r.value <= |s| && IsMarker(s[i..r.value])
    ensures r.None? ==> forall e :: i < e <= |s| ==> !IsMarker(s[i..e])
  {
    if i < |s| && s[i] == '第' then
      var j := DigitRunEnd(s, i + 1);
      if j > i + 1 && j < |s| && s[j] == '問' then
        assert s[i..j + 1][j - i] == s[j];
        Some(j + 1)
      else
        None
    else
      None
  }

  /** No marker occurs anywhere in `b`. */
  predicate MarkerFree(b: string) {
    forall a, e :: 0 <= a < e <= |b| ==> !IsMarker(b[a..e])
  }

  /** The characters of a list of strings, in order. */
  function Concat(parts: seq<string>): string {
    if parts == [] then [] else parts[0] + Concat(parts[1..])
  }

  lemma {:induction false} ConcatAppend(a: seq<string>, b: seq<string>)
    ensures Concat(a + b) == Concat(a) + Concat(b)
  {
    if a == [] {
      assert a + b == b;
    } else {
      assert (a + b)[1..] == a[1..] + b;
      ConcatAppend(a[1..], b);
    }
  }

  /** A slice of `s` with no marker starting in it holds no marker. */
  lemma FreeSlice(s: string, start: nat, i: nat)
    requires start <= i <= |s|
    requires forall k :: start <= k < i ==> MarkerAt(s, k).None?
    ensures MarkerFree(s[start..i])
  {
    var b := s[start..i];
    forall a, e | 0 <= a < e <= |b| ensures !IsMarker(b[a..e]) {
      var k: nat := start + a;
      assert start <= k < i;
      assert MarkerAt(s, k).None?;
      assert b[a..e] == s[k..start + e];
    }
  }

  /** The pieces of a split, as `re.split` lays them out. */
  predicate Alternates(r: seq<string>) {
    && |r| % 2 == 1
    && (forall k :: 0 <= k < |r| && k % 2 == 1 ==> IsMarker(r[k]))
    && (forall k :: 0 <= k < |r| && k % 2 == 0 ==> MarkerFree(r[k]))
  }

  /** Marker-free text and a marker in front of a split is a split. */
  lemma AlternatesPrepend(a: string, m: string, rest: seq<string>)
    requires MarkerFree(a) && IsMarker(m) && Alternates(rest)
    ensures Alternates([a, m] + rest)
    ensures Concat([a, m] + rest) == a + m + Concat(rest)
  {
    var r := [a, m] + rest;
    assert forall k :: 2 <= k < |r| ==> r[k] == rest[k - 2];
    ConcatAppend([a, m], rest);
    assert Concat([a, m]) == a + (m + Concat([]));
  }

  lemma SliceSplit(s: string, a: nat, b: nat, c: nat)
    requires a <= b <= c <= |s|
    ensures s[a..] == s[a..b] + s[b..c] + s[c..]
  {
  }

  /** `re.split(r'(第\d+問)', s[start..])`, scanning from `i`, where no
      marker starts in `start .. i - 1`. */
  function SplitFrom(s: string, start: nat, i: nat): (r: seq<string>)
    requires start <= i <= |s|
    requires forall k :: start <= k < i ==> MarkerAt(s, k).None?
    ensures Alternates(r)
    ensures Concat(r) == s[start..]
    decreases |s| - i
  {
    if i == |s| then
      FreeSlice(s, start, i);
      assert s[start..i] == s[start..];
      assert Concat([s[start..]]) == s[start..] + Concat([]);
      [s[start..]]
    else
      match MarkerAt(s, i)
      case Some(e) =>
        FreeSlice(s, start, i);
        var rest := SplitFrom(s, e, e);
        AlternatesPrepend(s[start..i], s[i..e], rest);
        SliceSplit(s, start, i, e);
        [s[start..i], s[i..e]] + rest
      case None => SplitFrom(s, start, i + 1)
  }

  /** `re.split(r'(第\d+問)', text)`: odd positions hold the markers, even
      positions the marker-free text around them, and together they spell
      the text. */
  function Parts(text: string): (r: seq<string>)
    ensures |r| % 2 == 1
    ensures Concat(r) == text
    ensures forall k :: 0 <= k < |r| && k % 2 == 1 ==> IsMarker(r[k])
    ensures forall k :: 0 <= k < |r| && k % 2 == 0 ==> MarkerFree(r[k])
  {
    SplitFrom(text, 0, 0)
  }
}
