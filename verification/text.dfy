/** String helpers: ASCII case folding and substring search, as the `icontains` lookup and
    `str.lower()` use them, and the whitespace trimming of `str.strip()`. */
module Text {

  predicate IsUpperAscii(c: char) {
    'A' <= c <= 'Z'
  }

  function LowerChar(c: char): char {
    if IsUpperAscii(c) then (c as int - 'A' as int + 'a' as int) as char else c
  }

  /** `s` with every ASCII capital replaced by its small letter. */
  function Lower(s: string): (r: string)
    ensures |r| == |s|
    ensures forall i :: 0 <= i < |s| ==> r[i] == LowerChar(s[i])
  {
    seq(|s|, i requires 0 <= i < |s| => LowerChar(s[i]))
  }

  lemma LowerIdempotent(s: string)
    ensures Lower(Lower(s)) == Lower(s)
  {
  }

  /** `needle` occurs in `hay` starting at index `i`. */
  ghost predicate OccursAt(needle: string, hay: string, i: int) {
    0 <= i && i + |needle| <= |hay| && hay[i..i + |needle|] == needle
  }

  lemma OccursShift(needle: string, hay: string, i: int)
    requires |hay| > 0 && i >= 0
    ensures OccursAt(needle, hay[1..], i) <==> OccursAt(needle, hay, i + 1)
  {
    if 0 <= i && i + |needle| <= |hay| - 1 {
      assert hay[1..][i..i + |needle|] == hay[i + 1..i + 1 + |needle|];
    }
  }

  /** When `needle` is not a prefix of `hay`, its occurrences are exactly those in the tail. */
  lemma OccursInTail(needle: string, hay: string)
    requires |hay| > 0 && |needle| <= |hay| && hay[..|needle|] != needle
    ensures (exists i :: OccursAt(needle, hay, i)) <==> (exists i :: OccursAt(needle, hay[1..], i))
  {
    if exists i :: OccursAt(needle, hay[1..], i) {
      var i :| OccursAt(needle, hay[1..], i);
      OccursShift(needle, hay, i);
    }
    if exists i :: OccursAt(needle, hay, i) {
      var i :| OccursAt(needle, hay, i);
      assert i != 0;
      OccursShift(needle, hay, i - 1);
    }
  }

  /** Substring test by scanning every start position. */
  function Contains(hay: string, needle: string): (b: bool)
    ensures b <==> exists i :: OccursAt(needle, hay, i)
    decreases |hay|
  {
    if |needle| > |hay| then
      assert forall i :: !OccursAt(needle, hay, i);
      false
    else if hay[..|needle|] == needle then
      assert OccursAt(needle, hay, 0);
      true
    else
      OccursInTail(needle, hay);
      Contains(hay[1..], needle)
  }

  /** Case-insensitive containment, the `icontains` lookup. */
  predicate ContainsIgnoreCase(hay: string, needle: string) {
    Contains(Lower(hay), Lower(needle))
  }

  /** The characters Python's `str.isspace` accepts, which `str.strip()` removes. */
  predicate IsSpace(c: char) {
    || c == ' ' || '\t' <= c <= '\r' || '\U{1C}' <= c <= '\U{1F}' || c == '\U{85}' || c == '\U{A0}'
    || c == '\U{1680}' || '\U{2000}' <= c <= '\U{200A}' || c == '\U{2028}' || c == '\U{2029}'
    || c == '\U{202F}' || c == '\U{205F}' || c == '\U{3000}'
  }

  /** `r` is the slice of `s` starting at `i`, and only whitespace lies around it. */
  predicate SurroundedAt(s: string, i: int, r: string) {
    && 0 <= i <= |s| - |r| && r == s[i..i + |r|]
    && (forall k :: 0 <= k < i ==> IsSpace(s[k]))
    && (forall k :: i + |r| <= k < |s| ==> IsSpace(s[k]))
  }

  /** `str.strip()`: `s` without its leading and trailing whitespace. */
  function Strip(s: string): (r: string)
    ensures |r| <= |s|
    ensures r != "" ==> !IsSpace(r[0]) && !IsSpace(r[|r| - 1])
    decreases |s|
  {
    if s == "" then s
    else if IsSpace(s[0]) then Strip(s[1..])
    else if IsSpace(s[|s| - 1]) then Strip(s[..|s| - 1])
    else s
  }

  lemma SurroundedAfterSpace(s: string, j: int, r: string)
    requires s != "" && IsSpace(s[0]) && SurroundedAt(s[1..], j, r)
    ensures SurroundedAt(s, j + 1, r)
  {
    var t := s[1..];
    assert r == s[j + 1..j + 1 + |r|];
    forall k | 0 <= k < j + 1 ensures IsSpace(s[k]) {
      if k > 0 { assert s[k] == t[k - 1]; }
    }
    forall k | j + 1 + |r| <= k < |s| ensures IsSpace(s[k]) {
      assert s[k] == t[k - 1];
    }
  }

  lemma SurroundedBeforeSpace(s: string, j: int, r: string)
    requires s != "" && IsSpace(s[|s| - 1]) && SurroundedAt(s[..|s| - 1], j, r)
    ensures SurroundedAt(s, j, r)
  {
    var t := s[..|s| - 1];
    assert r == s[j..j + |r|];
    forall k | 0 <= k < j ensures IsSpace(s[k]) {
      assert s[k] == t[k];
    }
    forall k | j + |r| <= k < |s| ensures IsSpace(s[k]) {
      if k < |s| - 1 { assert s[k] == t[k]; }
    }
  }

  /** The stripped string is the slice of `s` with only whitespace around it. */
  lemma {:induction false} StripSurrounded(s: string)
    ensures exists i :: SurroundedAt(s, i, Strip(s))
    decreases |s|
  {
    var r := Strip(s);
    if s == "" {
      assert SurroundedAt(s, 0, r);
    } else if IsSpace(s[0]) {
      StripSurrounded(s[1..]);
      var j :| SurroundedAt(s[1..], j, r);
      SurroundedAfterSpace(s, j, r);
    } else if IsSpace(s[|s| - 1]) {
      StripSurrounded(s[..|s| - 1]);
      var j :| SurroundedAt(s[..|s| - 1], j, r);
      SurroundedBeforeSpace(s, j, r);
    } else {
      assert SurroundedAt(s, 0, r);
    }
  }

  /** A value is blank after stripping exactly when it is all whitespace. */
  lemma {:induction false} StripBlank(s: string)
    ensures Strip(s) == "" <==> forall k :: 0 <= k < |s| ==> IsSpace(s[k])
    decreases |s|
  {
    if s != "" {
      if IsSpace(s[0]) {
        StripBlank(s[1..]);
        assert forall k :: 1 <= k < |s| ==> s[k] == s[1..][k - 1];
      } else if IsSpace(s[|s| - 1]) {
        StripBlank(s[..|s| - 1]);
        assert forall k :: 0 <= k < |s| - 1 ==> s[k] == s[..|s| - 1][k];
      }
    }
  }

  /** The stripped string is the slice of `s` with only whitespace around it; it is empty
      exactly when `s` is all whitespace, and a string without whitespace at either end is
      its own stripped form. */
  lemma StripSpec(s: string)
    ensures exists i :: SurroundedAt(s, i, Strip(s))
    ensures Strip(s) == "" <==> forall k :: 0 <= k < |s| ==> IsSpace(s[k])
    ensures s == "" || (!IsSpace(s[0]) && !IsSpace(s[|s| - 1])) ==> Strip(s) == s
  {
    StripSurrounded(s);
    StripBlank(s);
  }

  lemma LowerCharSpace(c: char)
    ensures IsSpace(LowerChar(c)) == IsSpace(c)
  {
  }

  /** Case folding and stripping commute: no ASCII capital is whitespace. */
  lemma {:induction false} LowerStrip(s: string)
    ensures Strip(Lower(s)) == Lower(Strip(s))
    decreases |s|
  {
    if s != "" {
      var low := Lower(s);
      assert low[0] == LowerChar(s[0]) && low[|s| - 1] == LowerChar(s[|s| - 1]);
      LowerCharSpace(s[0]);
      LowerCharSpace(s[|s| - 1]);
      if IsSpace(s[0]) {
        assert low[1..] == Lower(s[1..]);
        LowerStrip(s[1..]);
      } else if IsSpace(s[|s| - 1]) {
        assert low[..|s| - 1] == Lower(s[..|s| - 1]);
        LowerStrip(s[..|s| - 1]);
      }
    }
  }

  /** Stripping twice is stripping once. */
  lemma StripIdempotent(s: string)
    ensures Strip(Strip(s)) == Strip(s)
  {
    StripSpec(Strip(s));
  }
}
